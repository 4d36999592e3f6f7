# Models of the mtd-utils JFFS2 tools and two small protocols

Dafny models of code in this device tree whose correctness is not obvious from reading it, with proofs of
what that code is for. `dafny verify dfyconfig.toml` checks all of it.

| component | files | main results |
|---|---|---|
| parent-pointer red-black tree (`rbtree.c`) and its client `find_hardlink` | `RbShape`, `RbFix`, `RbHeap`, `RbTree`, `HardLinks` | insert and erase keep a valid red-black tree with consistent links and change the node sequence by exactly one node; both repair loops end; the height bound; stepping visits the sequence in order, forward and back undo each other; a file is found under the number it was filed with |
| directory reader (`jffs2reader.c`) | `Jffs2Log`, `Jffs2Dir`, `Jffs2Replay`, `Jffs2Reader` | the circular scan of `collectdir` ends exactly on images without a trap, and then has replayed all dirents in ascending version order; listing and lookup agree on every name |
| rtime codec (`compr_rtime.c`) | `Rtime`, `RtimeCompressor` | the format, stated by itself for every code; round trip for every input and room, with overlapping copies; each run is the longest there is |
| compressor registry and choice (`compr.c`) | `ComprChoice`, `Compressors` | the ring stays well linked, sorted and free of repeats; the exact choice in all modes |
| log writer (`mkfs.jffs2.c`) and `putblock` | `ImageLog`, `FieldBytes`, `FileData`, `Mkfs` | block layout of the image and every byte of its nodes; a file's nodes tile it and give it back, exactly if the reader knows the methods used; what nodes in any order leave in the buffer |
| the reader on the writer's images | `WrittenImage` | the scan meets exactly the nodes that were written; with cleanmarkers every directory can be listed; what is listed for a name is the last entry written for it, but for the very first entry |
| erase-block summaries (`sumtool.c`) | `Summary`, `Sumtool` | the summary of a closed block lists exactly what a scan of the block finds; the space bound that makes room for it, and exactly when it fails |
| endianness converter (`jffs2dump.c`) | `EndianNodes`, `EndianImages`, `EndianTurns`, `EndianConvert` | same nodes, same length and correct checksums in the other order; converting back gives the original, and on any bytes exactly when; nodes of unknown type are left out and nothing else is; a reader finds the same nodes |
| multicast transfer (`recv_image.c`, `serve_image.c`) | `PacketJournal`, `ReceiverState`, `Receiver`, `Transfer` | every block's journal survives loss, repetition, reordering, damage and failed writes; exactly which runs complete, and exactly when a completed one has put the image on flash; bounded loss does complete |
| sequence counters (`iatomic.h`) | `SeqCounter` | the reader's check, over every interleaving, and its exact limit |
| line splitter (`logwrapper.c`) | `LineSplitter` | what is logged depends on the stream only, not on the reads |

`Basics`, `Arithmetic` and `Bytes` hold what several components share.

Code that changes state is modelled by classes and methods over the same fields and in the same branches: tree
nodes, list entries, compressors and buffers are heap objects and arrays, proved against functions on values.
For the tree these values are a path from a position to the root and the subtree below it, so that each turn of a
repair loop is a statement about the position where the tree is not lawful yet.

Functions that the code calls without showing them are parameters: CRC, zlib and LZO, the erasure code, the
device's answers to writes and erases, how much a read returns. What is expected of them is stated where it is used:
any k different packets of n decode (`Transfers.Code`); a compressor that succeeds leaves a non-empty result within
the space it was given, and it decodes to a beginning of the data (`Mkfs.SoundResult`); the checksum of no data is 0
(`Mkfs.Writer.Sized`); a packet that arrives with a matching checksum is one the sender sent (`Transfers.FromSender`).

## Findings

Where the code does not do what it is for, the exact condition is proved.

- `collectdir` notices a full lap only if its position meets the end of the dirent read last exactly. On a dirent
  that does not begin where the node before it ends, and that ends a run of versions read in sequence, it goes round
  for ever. `Jffs2Replay.EndsIffNoTrap` says on exactly which images, `Jffs2Reader.SequenceReturns` what that comes to
  in a directory without gaps, `Jffs2Reader.PaddedDirentTraps` is a family of inputs. Images that `mkfs.jffs2` writes
  with cleanmarkers are not among them (`WrittenImages.WrittenReturns`). Without cleanmarkers an image whose entries
  are all in one directory is, if and only if the last entry follows fill (`WrittenImages.LastEntryDecides`;
  `WrittenImages.FillTraps` is an input).
- `mkfs.jffs2` numbers dirents from 0, and the reader looks for versions above 0 only. On every image a name is listed
  as its newest dirent has it if and only if that dirent has a version above 0 or deletes the name anyway
  (`Jffs2Reader.VersionZeroIsUnseen`; `Jffs2Reader.FirstEntryIsUnseen` is an input). Of the entries `mkfs.jffs2` writes
  that is exactly the first one of the image (`WrittenImages.EntryListed`).
- `putblock` knows no compression but zlib, so a file comes back exactly if neither rtime nor LZO was used in it
  (`FileData.Rebuilds`; `RtimeCompressor.FileIsUnreadable` is a family of files).
- The comparison in `pad_block_if_less_than` of `sumtool` is unsigned and wraps once node and summary together exceed
  the block: `SummedBlocks.SpaceIsKept` is the exact condition, `SummedBlocks.LargeNodesOverflow` a family of inputs.
- `flush_buffers` of `sumtool` takes a buffer as long as a cleanmarker for an empty block. A last block of that length
  that was begun before the first cleanmarker was seen is dropped: `SumTools.SumTool.Run` says for exactly which inputs,
  `SumTools.LoneNodeIsLost` is a family of them.
- In its second phase `recv_image` moves a block whose write fails to the next good erase block, but does not count
  that one as taken. A second block that has to move is written over the first, and success is reported.
  `Transfers.Transfer` has the exact condition under which the image is there all the same,
  `Transfers.TwoMovesLoseOne` an input.
- The converter copies nodes of type 0xffff unconverted and leaves out types it does not know:
  `EndianTurns.HeadTurns` says exactly which heads it carries over, `EndianTurns.StrangeLeftOut` what becomes of an
  image with unknown nodes in it, `EndianTurns.TurnsBack` exactly which nodes come back,
  `EndianImages.EmptyTypeIsNotConverted` is an input.
- In `FAVOURLZO` mode offers before and behind LZO on the list are not treated alike: one of exactly 80 percent of its
  size wins before it and loses behind it. `ComprChoice.FavourOrder` says exactly when the order matters,
  `ComprChoice.FavourOrderMatters` is an input.
- `snd_atomic_read_ok` is fooled by 2^32 sections during one read, and only by multiples of that
  (`SeqCounter.ReadOkExactly`, `SeqCounter.SplitReads`).

## Model

| member | source | states |
|---|---|---|
| `RbTree.RbRoot.RotateLeft` | mtd-utils/rbtree.c:26-47 | the pointers below and above the node afterwards stand for the rotated subtree at the same position, with all parent links |
| `RbTree.RbRoot.RotateRight` | mtd-utils/rbtree.c:49-70 | the mirror image |
| `RbFix.WholeRotated` | mtd-utils/rbtree.c:26-70 | neither rotation changes the in-order sequence of the whole tree |
| `RbTree.RbRoot.FlipColours` | mtd-utils/rbtree.c:83-92 | a red uncle: three colours change, order and black heights stay, and the only possible red-red pair is now at the grandparent, nearer the root |
| `RbTree.RbRoot.StraightenLeft` | mtd-utils/rbtree.c:94-101 | a red inner child under a red left parent trades places with it: same fault, same order, now on the outer side |
| `RbTree.RbRoot.StraightenRight` | mtd-utils/rbtree.c:119-126 | the mirror image |
| `RbTree.RbRoot.RaiseLeftOwner` | mtd-utils/rbtree.c:103-105 | outer red child of a left parent with a black uncle: recolouring and rotating at the grandparent ends the fault, the order stays |
| `RbTree.RbRoot.RaiseRightOwner` | mtd-utils/rbtree.c:128-130 | the mirror image |
| `RbTree.RbRoot.InsertColor` | mtd-utils/rbtree.c:72-135 | from a tree whose only fault is one red node under a red parent, the loop ends in a red-black tree with a black root, the same node order and consistent parent links |
| `RbTree.RbRoot.FixLeft` | mtd-utils/rbtree.c:144-180 | one turn of the erase repair on the left: either the tree is lawful again or the missing black node has moved one level up, the order being the same |
| `RbTree.RbRoot.FixRight` | mtd-utils/rbtree.c:181-217 | the mirror image |
| `RbTree.RbRoot.EraseColor` | mtd-utils/rbtree.c:137-221 | from a tree that lacks one black node at one position the loop ends, in a red-black tree of the same order |
| `RbTree.RbRoot.DetachLone` | mtd-utils/rbtree.c:228-231 | a node with at most one child leaves: its child takes its place and all other links hold |
| `RbTree.RbRoot.CutSuccessor` | mtd-utils/rbtree.c:243-249 | the in-order successor is cut out of the right subtree, whether or not it is the right child itself |
| `RbTree.RbRoot.TakePlace` | mtd-utils/rbtree.c:251-266 | the successor takes over colour, children and parent of the victim, and every neighbour points at it |
| `RbTree.RbRoot.DetachFull` | mtd-utils/rbtree.c:233-268 | the successor stands where the victim stood, in its colour, and its own former place holds its right child; links and parents agree, and the colour to repair is the one it had |
| `RbTree.RbRoot.Erase` | mtd-utils/rbtree.c:223-288 | a valid red-black tree stays valid and its node sequence is the old one with exactly that node taken out |
| `RbTree.RbRoot.LinkNode` | mtd-utils/rbtree.h:162-169 | linking at an empty position puts the node into the order between what lies before and behind that position, with consistent links |
| `RbTree.RbRoot.ReplaceNode` | mtd-utils/rbtree.c:369-390 | the replacement stands where the victim stood, with its colour and neighbours; the rest of the sequence and the red-black laws stay |
| `RbTree.RbRoot.First` | mtd-utils/rbtree.c:293-303 | the first node of the in-order sequence, or null if there is none |
| `RbTree.RbRoot.Last` | mtd-utils/rbtree.c:305-315 | the last node of the in-order sequence, or null if there is none |
| `RbTree.RbRoot.Next` | mtd-utils/rbtree.c:317-343 | the node behind it in the sequence, null exactly at the end; found through links only |
| `RbTree.RbRoot.Prev` | mtd-utils/rbtree.c:345-367 | the node before it in the sequence, null exactly at the start |
| `RbTree.RbRoot.Walk` | mtd-utils/rbtree.c:293-343 | First and then Next until null visits the whole sequence, every node once, in order |
| `RbTree.RbRoot.ShallowTree` | mtd-utils/rbtree.c:137-288 | a valid tree of n nodes has height h with 2^((h+1)/2) <= n+1 |
| `RbTree.RbRoot.Linked` | mtd-utils/rbtree.c:321-322 | a node of a valid tree is never its own parent, the sign of a cleared node that rb_next and rb_prev look for |
| `RbTree.RbRoot.constructor` | mtd-utils/rbtree.h:132-132 | the empty tree is valid and holds nothing |
| `RbFix.PrevUndoesNext` | mtd-utils/rbtree.c:317-367 | the predecessor of the successor of a node is that node |
| `RbFix.NextUndoesPrev` | mtd-utils/rbtree.c:317-367 | and the other way round |
| `RbFix.InsertFlip` | mtd-utils/rbtree.c:83-92 | as values: flipping colours keeps the order and all black heights and leaves at most the red-red pair at the grandparent |
| `RbFix.InsertInner` | mtd-utils/rbtree.c:94-101 | as values: turning an inner red child outward keeps order, heights and the one fault |
| `RbFix.InsertOuter` | mtd-utils/rbtree.c:103-105 | as values: recolouring and rotating at the grandparent removes the fault |
| `RbFix.EraseRedSibling` | mtd-utils/rbtree.c:147-153 | as values: raising a red sibling keeps the shortage and makes the new sibling black |
| `RbFix.EraseBlackNephews` | mtd-utils/rbtree.c:154-160 | as values: painting the sibling red passes the shortage to the parent |
| `RbFix.EraseInnerNephew` | mtd-utils/rbtree.c:163-171 | as values: raising the inner nephew keeps the shortage, the order and all other laws |
| `RbFix.EraseOuterNephew` | mtd-utils/rbtree.c:172-178 | as values: the last rotation ends the shortage, the subtree keeping its former black height |
| `RbFix.FullOrder` | mtd-utils/rbtree.c:233-266 | as values: successor in the victim's place gives the old order without the victim |
| `RbFix.FullLawful` | mtd-utils/rbtree.c:233-287 | as values: what is left is lawful if the successor was red, and otherwise short of one black node exactly where it was |
| `RbShape.HeightBound` | mtd-utils/rbtree.c:72-135 | no red-black tree of n nodes is higher than twice the logarithm of n+1 |
| `RbShape.InorderDistinct` | mtd-utils/rbtree.c:317-343 | the in-order sequence of a tree of distinct nodes repeats none |
| `HardLinks.Search` | mtd-utils/mkfs.jffs2.c:116-134 | on an ordered tree the descent ends at an entry of the same file, or at the empty position between the entries that go before the new one and those that go behind it |
| `HardLinks.FindHardlink` | mtd-utils/mkfs.jffs2.c:114-139 | returns the inode number of the entry for the same host file, or 0 and then the sequence holds exactly one entry more; the order by device and inode and all inode numbers are kept |
| `HardLinks.NumberFound` | mtd-utils/mkfs.jffs2.c:114-139 | a new file is filed and numbered; whatever is looked up or filed then, a later entry for the same file finds that number |
| `HardLinks.EraseUndoesInsert` | mtd-utils/rbtree.c:72-288 | taking an inserted entry out again leaves the sequence there was before |
| `HardLinks.EraseKeepsOrder` | mtd-utils/rbtree.c:223-288 | taking an entry out keeps the order of the others |
| `Jffs2Log.StartsLayout` | mtd-utils/jffs2reader.c:509-536 | one pass over an image meets exactly these node offsets, skipping what does not begin with the magic bitmask |
| `Jffs2Dir.PutDirLookup` | mtd-utils/jffs2reader.c:181-247 | after one dirent the name it carries reads as it says, deleted for inode 0, and every other name as before |
| `Jffs2Dir.PutDirNames` | mtd-utils/jffs2reader.c:181-247 | a listing never holds a name twice |
| `Jffs2Dir.PutDirAt` | mtd-utils/jffs2reader.c:199-220 | a dirent for a listed name changes that entry alone, at its place |
| `Jffs2Dir.DirList.Place` | mtd-utils/jffs2reader.c:187-220 | the linked list is edited in place: the first entry of that name is overwritten, or a new one appended at the end |
| `Jffs2Dir.DirList.Remove` | mtd-utils/jffs2reader.c:221-246 | the entry of that name is unlinked, at the head or further on; without one nothing changes |
| `Jffs2Dir.DirList.Put` | mtd-utils/jffs2reader.c:181-247 | the list afterwards stands for PutDir of what it stood for, over the same nodes and fresh ones |
| `Jffs2Replay.EndsIffNoTrap` | mtd-utils/jffs2reader.c:489-556 | the scan ends if and only if no version is a trap: one that was read in sequence, has no successor, does not start where the node before it ends, and is either below a higher version or the end of a gapless run; and if it ends, it has replayed every dirent in ascending version order |
| `Jffs2Replay.StuckForever` | mtd-utils/jffs2reader.c:538-553 | from a trap on, no number of iterations reads another version or ends the loop |
| `Jffs2Replay.Walk` | mtd-utils/jffs2reader.c:509-552 | one lap: from the position after the last dirent read, the scan either reads the next version or comes round with the smallest and largest version above it gathered, and then reads that |
| `Jffs2Replay.MpThere` | mtd-utils/jffs2reader.c:538-544 | whenever the scan reads through mp it has been set to a dirent of the directory |
| `Jffs2Reader.CollectDir` | mtd-utils/jffs2reader.c:489-556 | on every well-formed image without a trap the loop ends with the linked list replayed in ascending version order up to the highest version, wherever the dirents lie and whatever versions are missing |
| `Jffs2Reader.ReplayLookup` | mtd-utils/jffs2reader.c:181-247 | replaying from nothing leaves every name as the dirent with its highest version says, and no name twice |
| `Jffs2Reader.ResolveDirent` | mtd-utils/jffs2reader.c:577-619 | the single scan returns the wanted dirent of the highest version, the first of them in the log, or nothing if there is none |
| `Jffs2Reader.ResolveName` | mtd-utils/jffs2reader.c:634-638 | the same by name; parent 0 finds nothing |
| `Jffs2Reader.ResolveInode` | mtd-utils/jffs2reader.c:652-655 | by inode number alone; the root and 0 find nothing |
| `Jffs2Reader.InodeFound` | mtd-utils/jffs2reader.c:577-619 | what that finds is a dirent for the inode with the highest version of all, or nothing if and only if none has a version above 0 |
| `Jffs2Reader.ListingAgreesWithLookup` | mtd-utils/jffs2reader.c:489-638 | a name is listed if and only if looking it up finds a dirent with non-zero inode, and with the same inode and type |
| `Jffs2Reader.SequenceReturns` | mtd-utils/jffs2reader.c:509-553 | in a directory whose versions are 1 to w, none missing, collectdir returns if and only if the dirent of version w begins where the node before it ends |
| `Jffs2Reader.PaddedDirentTraps` | mtd-utils/jffs2reader.c:538-553 | an image of any amount of padding and one dirent of version 1: well formed, and collectdir returns on it if and only if there is no padding |
| `Jffs2Reader.VersionZeroIsUnseen` | mtd-utils/jffs2reader.c:504-531 | on every well-formed image: a name is listed as its newest dirent has it, version 0 included, if and only if that dirent has a version above 0 or deletes the name anyway |
| `Jffs2Reader.FirstEntryIsUnseen` | mtd-utils/jffs2reader.c:504-531 | on the image of one dirent of version 0 collectdir returns with nothing, although that dirent is the newest of its name |
| `Rtime.RoundTrip` | mtd-utils/compr_rtime.c:26-99 | for every input and every room the code is within the room and decodes to exactly the prefix that was coded |
| `Rtime.DecodesAs` | mtd-utils/compr_rtime.c:80-97 | the format by itself, for every code: pair i puts its byte behind what the pairs before it put, and byte j of its run is output byte p+j, where p is the position behind the byte of the last earlier pair with the same byte, or 0 if there is none |
| `Rtime.TableHolds` | mtd-utils/compr_rtime.c:83-93 | that position is what the table holds, for every byte value and after every pair |
| `Rtime.Abab` | mtd-utils/compr_rtime.c:83-93 | the code 97 0 98 0 97 1 stands for abab |
| `Rtime.CoderIsGreedy` | mtd-utils/compr_rtime.c:40-52 | the coder stops only at the end of the input or where no pair fits any more, and each of its runs is the longest from that position of at most 255 bytes |
| `Rtime.AllInLockstep` | mtd-utils/compr_rtime.c:33-52 | after every pair the decoder's bytes and position table equal the coder's |
| `Rtime.CopiesBack` | mtd-utils/compr_rtime.c:46-51 | copying forward the counted run rebuilds the input, source and target overlapping or not |
| `Rtime.CopyDisjoint` | mtd-utils/compr_rtime.c:87-95 | memcpy and the byte loop agree where the run ends before the output does |
| `Rtime.Compress` | mtd-utils/compr_rtime.c:26-63 | on inputs of up to 32767 bytes: the code, its length and the length it stands for, -1 with both lengths unchanged unless it is shorter, nothing written behind the code, no position out of the range of a short |
| `Rtime.Decompress` | mtd-utils/compr_rtime.c:66-99 | writes exactly the decoded bytes, consumes exactly the code and touches nothing behind the destination length |
| `RtimeCompressor.IsSound` | mtd-utils/compr_rtime.c:54-62 | a successful result fits the space, is not empty, is shorter than what it stands for and decodes to that: what the writer of files expects of a compressor |
| `RtimeCompressor.ThreeShrink` | mtd-utils/compr_rtime.c:26-63 | three equal bytes take two |
| `RtimeCompressor.FileIsUnreadable` | mtd-utils/jffs2reader.c:164-169 | a file that rtime makes shorter, written with rtime as the only compressor: its nodes cover it, and the reader dies over them with every buffer and decompressor |
| `PacketJournal.FullJournal` | mtd-utils/recv_image.c:357-377 | a block with all its k packets has exactly one erase block of bytes on flash: subtracting the erase size gives the base, and flash and write buffer together are the packets in order |
| `PacketJournal.BufferedJournal` | mtd-utils/recv_image.c:279-283 | a packet that does not fill the buffer extends the journal by its payload |
| `PacketJournal.SpilledJournal` | mtd-utils/recv_image.c:284-344 | a packet that fills the buffer sends 4096 bytes to flash inside the block's erase block, and the journal is extended by its payload |
| `PacketJournal.ConcatSlice` | mtd-utils/recv_image.c:379-380 | packet i of the buffer read back is the i-th payload |
| `PacketJournal.ConcatCut` | mtd-utils/recv_image.c:392-393 | cutting a buffer into packets and joining them gives the buffer |
| `ReceiverState.JournalsUpdate` | mtd-utils/recv_image.c:206-214 | changing one block and its erase block leaves the journals of all others as they are |
| `ReceiverState.TotalFull` | mtd-utils/recv_image.c:346-351 | the packet count reaches blocks times k exactly when every block is full |
| `ReceiverState.KeptFills` | mtd-utils/recv_image.c:229-335 | k different packets of a block that arrive intact from its last failed write on fill it |
| `ReceiverState.StartsOver` | mtd-utils/recv_image.c:294-335 | three packets to a block, the second one's write fails, then the first and the third arrive: the block holds packets 1, 0, 2 and is full |
| `ReceiverState.SurvivesAll` | mtd-utils/recv_image.c:229-335 | if all packets are of this image and its blocks, all of which are on the device, every failed write is followed by an erase that succeeds and there are as many good erase blocks left as writes that fail, no delivery ends the reception |
| `ReceiverState.CompleteOnce` | mtd-utils/recv_image.c:346-352 | there is at most one moment at which the reception completes, and nothing that arrives later, hopeless or not, changes that |
| `Receivers.Receiver.Start` | mtd-utils/recv_image.c:187-214 | every block gets the next good erase block behind that of the block before it, with an empty journal, at most the last one behind the end of the device; nothing is written; it fails only for want of space |
| `Receivers.Receiver.SkipBad` | mtd-utils/recv_image.c:205-208 | stops at the first erase block that is not marked bad |
| `Receivers.Receiver.Journalise` | mtd-utils/recv_image.c:257-293 | the packet is stored unless its write fails; then only its own block's journal is lost |
| `Receivers.Receiver.Relocate` | mtd-utils/recv_image.c:301-335 | after a failed write its erase block is erased, nothing else on flash changes, and the block starts over, empty, in the next good erase block; it succeeds exactly if the erase does and there is one |
| `Receivers.Receiver.Store` | mtd-utils/recv_image.c:256-344 | at most one retry: the block holds one packet more, or, after a failed write, this packet alone in a new place, the old one being erased; flash changes nowhere else |
| `Receivers.Receiver.OnPacket` | mtd-utils/recv_image.c:217-351 | every case of one packet: aborted, dropped as duplicate, surplus or damaged, stored, or stored after moving the block and erasing its old place; flash changes in the block's own erase block only; all journals hold again, and it completes exactly when all blocks are full |
| `Receivers.Receiver.Receive` | mtd-utils/recv_image.c:160-352 | over any deliveries and failed writes: it aborts if and only if, before all blocks are full, one delivery is of another image or fails to be written with no erase or no good erase block to follow; it completes if and only if it does not abort and the packets kept from the deliveries fill every block; each block holds exactly these packets, as they were sent, a failed write leaving only the packet it was for; every failed write uses up at most one more good erase block |
| `Receivers.Receiver.Deliver` | mtd-utils/recv_image.c:217-351 | one turn of that loop: what the blocks hold and which erase blocks are used follows the deliveries so far |
| `Receivers.Receiver.ReadBack` | mtd-utils/recv_image.c:358-398 | the erase block before the noted offset and the write buffer together decode to the block, of the erase size |
| `Receivers.Receiver.Rewrite` | mtd-utils/recv_image.c:428-467 | the block is written where it is or, if that fails, in the next good erase block, as often as it takes; it succeeds exactly if the first attempt that ends it is a write and there is such an erase block; only these two erase blocks change, and one that it moves away from is left erased |
| `Receivers.Receiver.Finish` | mtd-utils/recv_image.c:358-467 | one block is read back, decoded, checked, erased and rewritten, in place or in another erase block; the exact condition for success; nothing else on flash changes |
| `Receivers.Receiver.Reassemble` | mtd-utils/recv_image.c:358-475 | the exact condition for success, and then for every block: it is in the place noted for it if and only if its first write succeeded or the last block that had to move has the same contents |
| `Transfers.Sender.Cycle` | mtd-utils/serve_image.c:182-237 | one cycle sends the packets of its rounds in order, odd blocks upward and even blocks downward |
| `Transfers.Sender.CycleSendsOnce` | mtd-utils/serve_image.c:182-220 | every packet of every block is sent exactly once in a cycle |
| `Transfers.Sender.CycleAt` | mtd-utils/serve_image.c:182-220 | which packet is the m-th of a cycle |
| `Transfers.Sender.RoundsGenuine` | mtd-utils/serve_image.c:211-221 | nothing else is sent: each packet carries the data and checksums of the block and number it names |
| `Transfers.Sender.SourceStarts` | mtd-utils/serve_image.c:147-148 | the source data of a block begins with its erase block of the image, also for the zero-padded last one |
| `Transfers.LossLeavesEnough` | mtd-utils/serve_image.c:182-220 | losing at most n-k packets of a block in a cycle leaves k of them |
| `Transfers.FaithfulDecodes` | mtd-utils/mcast_image.h:45-54 | k stored packets, in whatever order, decode to the block of the image, and its checksum matches |
| `Transfers.Rebuild` | mtd-utils/recv_image.c:358-475 | the second phase over full blocks of the sender's packets: it succeeds exactly if every block can be erased and written in the end; which blocks of the image are then on flash |
| `Transfers.Transfer` | mtd-utils/recv_image.c:160-475 | whatever is lost, repeated, reordered or damaged and whichever writes fail: it succeeds if and only if all blocks are full after some delivery, none before it was hopeless, and in the second phase every erase and in the end every write succeeds, with a good erase block left if a block has to move; after success the whole image is on flash if and only if the blocks that had to move in the second phase are alike; with at most one such block each block is in an erase block of its own; and with at most n-k losses per block, or k different packets from the last failed write on, and enough good erase blocks it succeeds |
| `Transfers.TwoMovesLoseOne` | mtd-utils/recv_image.c:440-460 | two different blocks, the first write of each fails and the second succeeds: success is reported, both are noted at the same erase block and the first of them is gone |
| `Receivers.Receiver.constructor` | mtd-utils/recv_image.c:50-118 | a device nothing is allocated on |
| `Bytes.Read32` | mtd-utils/include/mtd/jffs2-user.h:24-31 | a 32-bit field written in either byte order reads back in that order |
| `FieldBytes.InodeRead` | mtd-utils/include/linux/jffs2.h:141-165 | each field of an encoded inode node reads at its offset, in either byte order, and its checksums are over what they cover |
| `FieldBytes.DirentRead` | mtd-utils/include/linux/jffs2.h:117-133 | the same for a directory entry |
| `FieldBytes.MarkerRead` | mtd-utils/include/linux/jffs2.h:108-115 | the same for cleanmarkers and padding nodes |
| `Summaries.ReadBack` | mtd-utils/summary.h:55-90 | every summary record reads back as what it was written from |
| `Summaries.ReadAllBack` | mtd-utils/summary.h:50-99 | a row of records reads back in order, whatever follows |
| `Summaries.RecordBytes` | mtd-utils/sumtool.c:345-400 | which field stands where in each of the four kinds of record, in numbers |
| `SummedBlocks.RecordCopies` | mtd-utils/sumtool.c:551-606 | each field of the record for a node is the field of that node at its offset in it |
| `SummedBlocks.SummaryAgrees` | mtd-utils/sumtool.c:301-429 | in every closed block, reading the summary gives exactly the nodes that scanning the block gives, in order; the block is full, and its last 8 bytes are the summary's offset and the magic number |
| `SummedBlocks.EntryPoints` | mtd-utils/sumtool.c:551-606 | the offset in each record is where its node begins, and the record is what that node says |
| `SummedBlocks.SummaryReads` | mtd-utils/sumtool.c:313-426 | header, records, padding and marker fill the rest of the block and read back |
| `SummedBlocks.HeaderFields` | mtd-utils/sumtool.c:325-339 | all fields of the summary header, cleanmarker size and padding included, and its three checksums over what they cover |
| `SummedBlocks.CleanmarkerBytes` | mtd-utils/sumtool.c:125-131 | a cleanmarker: magic, type, length and checksum in 12 bytes, and 0xff up to its padded size |
| `SummedBlocks.NodesScan` | mtd-utils/sumtool.c:651-716 | scanning packed nodes finds each of them where it was put |
| `SummedBlocks.EntriesSmaller` | mtd-utils/sumtool.c:515-549 | the records never take more room than the nodes they list |
| `SummedBlocks.SpaceIsKept` | mtd-utils/sumtool.c:457-475 | after a node is written its summary still fits if and only if the unsigned comparison did not wrap and the node, if it goes to a new block, fits there |
| `SummedBlocks.ClosesIs` | mtd-utils/sumtool.c:460-463 | the comparison closes the block exactly if the difference is not negative and too small |
| `SummedBlocks.HalfIsEnough` | mtd-utils/sumtool.c:457-475 | for nodes of well under half an erase block the comparison never wraps and the summary always fits |
| `SummedBlocks.LargeNodesOverflow` | mtd-utils/sumtool.c:463-466 | two nodes that each nearly fill a block are written past its end |
| `SumTools.SumTool.DumpSumRecords` | mtd-utils/sumtool.c:301-429 | with records the buffer becomes the closed block and the list is empty, without them nothing happens |
| `SumTools.SumTool.CloseBlock` | mtd-utils/sumtool.c:463-466 | the block goes out with its summary, nothing of what was written is lost |
| `SumTools.SumTool.PadBlockIfLessThan` | mtd-utils/sumtool.c:457-475 | whenever node and summary fit: the block is closed exactly if the comparison says so and it holds nodes; both lengths afterwards; a new block has its cleanmarker if it should have one |
| `SumTools.SumTool.WriteNode` | mtd-utils/sumtool.c:608-639 | whenever node and summary fit: the node goes behind those of the current block, or into a new one exactly if the comparison closes the old one; both lengths, and the list has its record |
| `SumTools.SumTool.FlushBuffers` | mtd-utils/sumtool.c:477-513 | the last block goes out with a summary exactly if it is nearly full and holds nodes, otherwise padded with 0xff to the block or as it is; nothing goes out and nothing changes if its length equals the cleanmarker size |
| `SumTools.SumTool.NearlyFullIs` | mtd-utils/sumtool.c:483-488 | nearly full means that an inode head and twice the smallest data would not fit in front of the padded summary |
| `SumTools.SumTool.DroppedWithoutLead` | mtd-utils/sumtool.c:480-481 | that can only happen to a block begun before the first cleanmarker was seen |
| `SumTools.SumTool.FindCleanmarker` | mtd-utils/sumtool.c:799-815 | only the first cleanmarker counts, and its length is taken over exactly if the input's is to be used |
| `SumTools.SumTool.ModestSuit` | mtd-utils/sumtool.c:457-475 | nodes of well under half an erase block always fit, one after the other |
| `SumTools.SumTool.Run` | mtd-utils/sumtool.c:641-862 | over any input that fits: all nodes are written once and in order, in blocks that are each closed with their summary and a last one; the last block is dropped if and only if, going by the lengths of the items alone, the buffer ends up as long as a cleanmarker, and then it holds nodes, has no cleanmarker, and nothing of it goes out; never if the input begins with a cleanmarker |
| `SumTools.LoneNodeIsLost` | mtd-utils/sumtool.c:480-496 | one node of n bytes, then the first cleanmarker, of n bytes: the output is empty |
| `SumTools.SumTool.constructor` | mtd-utils/sumtool.c:57-70 | an empty buffer; a cleanmarker size given by the caller counts as found |
| `EndianNodes.SwapFields` | mtd-utils/jffs2dump.c:44-49 | reversing each field of a row of fields gives the same fields in the other order |
| `EndianNodes.RecordsSwap` | mtd-utils/jffs2dump.c:560-594 | swapping summary records in place gives the same records in the other order |
| `EndianNodes.InodeTurn` | mtd-utils/jffs2dump.c:463-498 | an inode node is written with the same fields and data in the other order, with correct checksums, with or without recalculation |
| `EndianNodes.DirentTurn` | mtd-utils/jffs2dump.c:500-522 | the same for a directory entry |
| `EndianNodes.MarkerTurn` | mtd-utils/jffs2dump.c:524-537 | the same for cleanmarker and padding nodes |
| `EndianNodes.SummaryTurn` | mtd-utils/jffs2dump.c:539-615 | the same for a summary node with all its records, its padding and its marker |
| `EndianNodes.WordTurn` | mtd-utils/jffs2dump.c:440-454 | empty words stay, words without the magic bitmask have their halves swapped |
| `EndianImages.ConvertedImage` | mtd-utils/jffs2dump.c:423-631 | the conversion of a well-formed image is the same nodes encoded in the other order, of the same length |
| `EndianImages.ConvertTwice` | mtd-utils/jffs2dump.c:423-631 | converting that back gives the original bytes |
| `EndianImages.SameListing` | mtd-utils/jffs2dump.c:178-286 | a reader in the other byte order finds the same inode and directory entry nodes at the same offsets, with the lengths, numbers, versions and names that a summary keeps; that all other fields are the same as well is ConvertedImage |
| `EndianImages.TurnLength` | mtd-utils/jffs2dump.c:461-627 | on any bytes a turn of the loop writes as much as it reads, except for node types it does not know and markers shorter than their header |
| `EndianTurns.HeadTurns` | mtd-utils/jffs2dump.c:461-627 | on any bytes that begin with the magic bitmask: a turn carries over magic, type, length and size if and only if the type is known and not 0xffff and no marker is shorter than its head |
| `EndianTurns.StrangeLeftOut` | mtd-utils/jffs2dump.c:622-627 | an image with nodes of unknown type, of whatever length and contents, anywhere between the others converts to exactly the others in the other order |
| `EndianTurns.TurnsBack` | mtd-utils/jffs2dump.c:423-631 | on any bytes: turning back what a turn writes restores what it took in if and only if that is no node, or a node of a known type other than 0xffff with all its checksums right |
| `EndianTurns.RecordsTwice` | mtd-utils/jffs2dump.c:560-594 | swapping the records of a summary twice gives them back |
| `EndianImages.EmptyTypeIsNotConverted` | mtd-utils/jffs2dump.c:617-620 | the input to that: a node of type 0xffff is copied unconverted, loses its magic bitmask in the other order and does not come back |
| `EndianConverter.SwapInPlace` | mtd-utils/jffs2dump.c:568-583 | the fields of the array from that position on are reversed one by one, the rest is as it was |
| `EndianConverter.SwapSummary` | mtd-utils/jffs2dump.c:560-594 | all records are swapped in place, names and everything behind staying, or an unknown record ends it |
| `EndianConverter.ConvertSummaryNode` | mtd-utils/jffs2dump.c:539-615 | the bytes written for a summary node, the checksum being made after swapping; the image behind it is untouched |
| `EndianConverter.DoEndianConvert` | mtd-utils/jffs2dump.c:423-631 | the loop over the buffer writes exactly the converted image, for every image it reads within bounds |
| `ImageLog.LaidAt` | mtd-utils/mkfs.jffs2.c:668-687 | every node is 4-byte aligned and stays within its erase block, and one that begins a block is a cleanmarker if there are to be any |
| `ImageLog.BlocksStart` | mtd-utils/mkfs.jffs2.c:668-687 | every erase block the image reaches into begins with a node, and with a cleanmarker if there are to be any |
| `Mkfs.Writer.PadBlock` | mtd-utils/mkfs.jffs2.c:640-646 | exactly the words of 0xff up to the end of the block, none if it is already there |
| `Mkfs.Writer.WriteCleanmarker` | mtd-utils/mkfs.jffs2.c:670-676 | a cleanmarker at the beginning of a block and nowhere else |
| `Mkfs.Writer.PadBlockIfLessThan` | mtd-utils/mkfs.jffs2.c:668-687 | afterwards the node fits into the rest of the block, not in place of a cleanmarker; only fill has been written, and only as much as that takes |
| `Mkfs.Writer.FillIsLeast` | mtd-utils/mkfs.jffs2.c:668-687 | the fill in front of a node ends at the first place at which the node may begin |
| `Mkfs.Writer.WriteDirent` | mtd-utils/mkfs.jffs2.c:689-718 | exactly this directory entry is added, for the inode it is given, and where it ends; the version counter has moved on, no file has changed; the entries stay numbered 0, 1, 2 and so on |
| `Mkfs.Writer.EntryWritten` | mtd-utils/mkfs.jffs2.c:689-718 | every directory entry, byte for byte at its place in the output: magic, type, length, parent, version, inode, time, name length, type, name and three checksums |
| `Mkfs.Writer.InodeWritten` | mtd-utils/mkfs.jffs2.c:749-815 | every inode node, byte for byte at its place in the output: inode, version, mode, owner, group, size, times, offset, lengths, method, data and three checksums |
| `Mkfs.Writer.Pack` | mtd-utils/mkfs.jffs2.c:779-791 | the method is the one chosen for that data and space, and what is stored fits and stands for a non-empty beginning |
| `Mkfs.Writer.WritePiece` | mtd-utils/mkfs.jffs2.c:772-812 | a non-empty beginning of the data becomes one node whose payload, offset, version and sizes are right, whatever compressor is chosen or none |
| `Mkfs.Writer.WriteRegularFile` | mtd-utils/mkfs.jffs2.c:720-843 | however the reads split the file, its nodes are versions 1 to n that tile it without gap or overlap and decode to it, each standing for some data and stored by the method chosen for what was left of its read; in the bytes of each of them mode, owner, group and times are those of the file; an empty file gets one node, a file that is too large none; one directory entry for it is added, and no other file changes |
| `Mkfs.Writer.WriteSpecialFile` | mtd-utils/mkfs.jffs2.c:845-973 | one directory entry is added, and the file has exactly one node, with all its data, and mode, owner, group and times in its bytes |
| `Mkfs.Writer.ImageIsSound` | mtd-utils/mkfs.jffs2.c:668-839 | whatever was written converts to the other byte order and back, and its blocks begin as they should |
| `Mkfs.AnswerIsSound` | mtd-utils/compr.c:195-212 | what is stored for a piece of a file stands for a beginning of it and fits the space, in every mode |
| `Mkfs.Writer.constructor` | mtd-utils/mkfs.jffs2.c:602-609 | nothing written, entries numbered from 0 |
| `WrittenImages.NodeCell` | mtd-utils/jffs2reader.c:509-536 | how the reader sees the first bytes of a node that was written, in either byte order and whatever follows |
| `WrittenImages.ScanFrom` | mtd-utils/jffs2reader.c:509-536 | the scan of an image meets exactly the nodes that were written, where they were written, and no word inside one of them |
| `WrittenImages.WellFormedImage` | mtd-utils/mkfs.jffs2.c:689-718 | every directory of an image with fewer than 2^32-1 entries can be read: all nodes inside, versions distinct and below 0xffffffff |
| `WrittenImages.FlushExactly` | mtd-utils/jffs2reader.c:538-553 | on every image that is written, with cleanmarkers or without: a node begins where the one before it ends if and only if there is no fill in front of it |
| `WrittenImages.CompactReturns` | mtd-utils/jffs2reader.c:538-553 | where no entry has fill in front of it, collectdir returns on every directory |
| `WrittenImages.WrittenReturns` | mtd-utils/mkfs.jffs2.c:668-718 | whatever was written with cleanmarkers: collectdir returns on every directory of the image |
| `WrittenImages.LastEntryDecides` | mtd-utils/jffs2reader.c:509-553 | with all entries in one directory collectdir returns if and only if the last entry is not behind fill |
| `WrittenImages.FillTraps` | mtd-utils/mkfs.jffs2.c:668-687 | 23 pipes with names of 255 bytes, in blocks of 8 KiB without cleanmarkers: the last entry follows fill, and collectdir never returns |
| `WrittenImages.EntryListed` | mtd-utils/mkfs.jffs2.c:689-718 | the last entry written for a name in a directory is what is listed for it if and only if it is not the very first entry of the image (or has inode 0) |
| `FileData.CoversAt` | mtd-utils/mkfs.jffs2.c:797-821 | node i has version i+1 and begins where node i-1 ends; the last one ends with the data |
| `FileData.Rebuilds` | mtd-utils/jffs2reader.c:135-169 | overlaying the nodes of a file in version order, on any buffer that is large enough, gives the file if and only if every compression method used is one the reader knows |
| `FileData.OneNode` | mtd-utils/jffs2reader.c:135-169 | one node on any buffer: exactly when it is read; its data at its offset, zeroes where the file grows past what it was, every other byte as it was |
| `FileData.ReadsAll` | mtd-utils/jffs2reader.c:138-169 | nodes in any order are all read if and only if each fits into the buffer and its method is known; the size is then that of the last one |
| `FileData.LastPutStays` | mtd-utils/jffs2reader.c:143-169 | nodes in any order: a byte is that of the last node that put data there, or 0 if the file grew past it after that |
| `FileData.NeverPut` | mtd-utils/jffs2reader.c:143-169 | a byte that no node puts data at, nor the file grows past, is as it was |
| `FileData.KnownNumbers` | mtd-utils/include/linux/jffs2.h:42-49 | the methods the reader knows are 0, 1 and 6 |
| `FileData.PutsTogether` | mtd-utils/jffs2reader.c:125-169 | after each node the buffer begins with the data so far |
| `FileData.PutBlockInPlace` | mtd-utils/jffs2reader.c:135-169 | the caller's buffer and size afterwards are those of PutBlock, for which see OneNode, and it dies exactly where that does |
| `ComprChoice.SizePicksSmallest` | mtd-utils/compr.c:174-178 | over any offers SIZE mode takes the first of the smallest |
| `ComprChoice.FavourLzoPicks` | mtd-utils/compr.c:179-190 | with one LZO offer of size L: it is chosen exactly if all offers before it are above floor(80L/100) and none behind it is below; otherwise the first of the smallest others, which is at most that bound |
| `ComprChoice.FavourOrder` | mtd-utils/compr.c:179-190 | LZO in front of the same other offers and behind them: the same compressor is chosen if and only if no other offer is exactly floor(80L/100) or one is below that |
| `ComprChoice.FavourOrderMatters` | mtd-utils/compr.c:179-190 | 80 bytes against 100 by LZO: the one that is first on the list is chosen |
| `ComprChoice.Compared` | mtd-utils/compr.c:171-193 | what the four tests come to when LZO is on one side or on none |
| `Compressors.ListAdd` | mtd-utils/compr.c:27-35 | the ring is the old one with the element between its neighbours, links consistent in both directions |
| `Compressors.ListDel` | mtd-utils/compr.c:47-58 | the ring is the old one without the element, whose links are null |
| `Compressors.PlaceIsOne` | mtd-utils/compr.c:355-361 | a sorted list has only one place for a priority |
| `Compressors.Registry.Register` | mtd-utils/compr.c:339-364 | the list stays sorted and free of repeats, the new compressor standing behind all of at least its priority and before all below; nothing else about it or them changes |
| `Compressors.Registry.Unregister` | mtd-utils/compr.c:366-376 | refused for a compressor in use, otherwise exactly that one is gone |
| `Compressors.Registry.SetPriority` | mtd-utils/compr.c:484-509 | the first compressor of that name moves to its new place, all others keep their order, and but for its priority all fields stay; unknown names change nothing |
| `Compressors.Registry.Xable` | mtd-utils/compr.c:462-472 | exactly the first compressor of that name is enabled or disabled, and nothing else changes |
| `Compressors.Registry.CompressByPriority` | mtd-utils/compr.c:226-259 | the result of the first enabled compressor on the list that succeeds, or none |
| `Compressors.Registry.CompressBySize` | mtd-utils/compr.c:260-321 | the choice among all enabled compressors that succeed and shrink the data, with the output it made |
| `Compressors.Registry.Compress` | mtd-utils/compr.c:213-336 | method, bytes and both lengths in every mode; without a choice the data itself, its length being that left by the last attempt |
| `Compressors.PriorityPicksHighest` | mtd-utils/compr.c:226-259 | no compressor that succeeds has a higher priority than the one chosen |
| `Compressors.LzoIsSeven` | mtd-utils/include/linux/jffs2.h:49-49 | the offers that FAVOURLZO mode favours are those of method 7 |
| `Compressors.SizePicksMinimum` | mtd-utils/compr.c:260-320 | no enabled compressor that succeeds and shrinks the data makes it smaller |
| `SeqCounter.RunKeepsInv` | alsa-lib/include/iatomic.h:1163-1196 | over every interleaving the counters differ by at most one and every field read is of a version between the beginning of the read and now |
| `SeqCounter.ReadOkExactly` | alsa-lib/include/iatomic.h:1186-1196 | the comparison succeeds if and only if the number of sections begun since the last one that had ended at the beginning is a multiple of 2^32 |
| `SeqCounter.ReadIsConsistent` | alsa-lib/include/iatomic.h:1186-1196 | with fewer sections than that, success means no section was open at any moment of the read and all fields are of one version |
| `SeqCounter.UndisturbedSucceeds` | alsa-lib/include/iatomic.h:1186-1196 | a read during which no section begins or is open succeeds |
| `SeqCounter.SplitReads` | alsa-lib/include/iatomic.h:1192-1196 | with n sections between two fields they differ by n versions, and that goes unnoticed exactly if n is a multiple of 2^32 |
| `SeqCounter.AtomicWrite.WriteBegin` | alsa-lib/include/iatomic.h:1169-1173 | the stored counter follows the number of sections begun, modulo 2^32 |
| `SeqCounter.AtomicWrite.WriteEnd` | alsa-lib/include/iatomic.h:1175-1179 | the stored counter follows the number of sections ended, modulo 2^32 |
| `SeqCounter.AtomicRead.ReadBegin` | alsa-lib/include/iatomic.h:1186-1190 | the reader notes the number of sections ended |
| `SeqCounter.AtomicRead.ReadOk` | alsa-lib/include/iatomic.h:1192-1196 | the answer is that of the comparison on the numbers of sections |
| `LineSplitter.RunSplits` | usbctrl/logwrapper.c:41-67 | handling bytes one at a time, with a flush whenever 4095 are pending, gives the lines of the stream |
| `LineSplitter.PrintedIs` | usbctrl/logwrapper.c:41-50 | what is printed of a line is all of it before the first carriage return or zero byte |
| `LineSplitter.FlushLater` | usbctrl/logwrapper.c:52-56 | as long as the buffer does not overflow it makes no difference whether it is flushed at once or after the scan |
| `LineSplitter.SplitKeepsAll` | usbctrl/logwrapper.c:41-67 | the lines in a row are the stream without its newlines, and none is longer than 4095 bytes |
| `LineSplitter.Scan` | usbctrl/logwrapper.c:41-50 | one scan over left-overs and new bytes logs the lines they complete and leaves the rest behind the last newline |
| `LineSplitter.Parent` | usbctrl/logwrapper.c:34-72 | for every way the reads cut up the stream, what is logged is the lines of the stream |

## Left out

- Option parsing, sockets, ioctls, file descriptors, progress output, statistics counters and allocation failure: these parts carry no property worth stating.
- CRC32, zlib, LZO and the erasure code are parameters; the contracts that are used are named above.
- The tree's packed parent-and-colour word is two fields, and the bodies of the repair loops are methods of their own.
- Images are 4-byte cells in the directory reader (all its offsets are multiples of 4) and bytes everywhere else. Nodes that reach past the end of an image are excluded there.
- Jffs2Reader.CollectDir: images that repeat a version within a directory, where it depends on the scan's position which of the dirents is read, and version 0xffffffff, which coincides with the reader's own limit. An image written by the mkfs model has neither (WrittenImages.WellFormedImage).
- `find_raw_inode`, `catfile`, `lsdir` and path resolution with symbolic links: the first reads a single node, the others combine lookups.
- Rtime.Compress: inputs of more than 32767 bytes, whose positions do not fit the table of shorts.
- Rtime.Decompress: codes that no coder made, on which the source reads past the end, and more than 32767 bytes.
- Extended attributes are not written by the mkfs model. `sumtool` summarises them; the converter does not know them and leaves such nodes out (EndianTurns.StrangeLeftOut).
- SumTools.SumTool.Run: the scan of the input image is not part of it; it is given the nodes and cleanmarkers in the order the scan meets them, with correct checksums. Inputs on which a node is written over the end of its block are excluded.
- SumTools.SumTool.WriteNode: requires exactly that the summary still fits behind the node afterwards; otherwise the source writes over the end of its buffer. SummedBlocks.SpaceIsKept says when that is.
- SumTools.SumTool.PadBlockIfLessThan: the same.
- EndianConverter.DoEndianConvert: images on which the source reads outside of its buffer, or goes on for ever over a node without length, are excluded. A summary whose length is not a multiple of 4 is converted as the source does it, without padding to the next word, but EndianImages.SameListing leaves it out.
- WrittenImages.LastEntryDecides: without cleanmarkers, directories that share an image; for them Jffs2Replay.EndsIffNoTrap and WrittenImages.FlushExactly say the same less directly.
- EndianTurns.TurnsBack: what one turn writes is turned back by itself, not as part of the image around it.
- EndianImages.SameListing: compares what a summary keeps of a node.
- Mkfs.Writer.WriteRegularFile: the file's size from stat is a number of its own; FileData.Rebuilds needs it to be the length of what was read.
- Compressor buffers and the compression self-check of `compr.c`; the use count is only read when unregistering, since it is raised only during a call.
- Receivers.Receiver.Rewrite: a device that fails every write and erases every time without a fault is excluded, since the source then tries for ever; a successful write puts its data in place whatever was there before, and no erase block turns bad during the run.
- In `recv_image.c` file mode, read errors on the socket, block numbers of 2^31 and more, and the test that provokes write failures. The duplicate scan stops at the k entries that exist. The erase size is a multiple of 4096 and, for the mask that finds the start of a block, a power of two.
- The memory barriers of `iatomic.h`: its steps are taken as atomic and sequentially consistent, with a single writer.
- `logwrapper.c` after its reading loop, and the log call itself: a line is what `%s` prints of it.
- `nandwrite.c`, the `flash_*` tools, the FTL formatters and the HAL libraries: device glue.
