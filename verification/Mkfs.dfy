// mkfs.jffs2.c: writing nodes one after the other into erase blocks.
module Mkfs {
  import opened Arithmetic
  import opened Bytes
  import opened Summaries
  import opened EndianNodes
  import opened EndianImages
  import opened ImageLog
  import opened FieldBytes
  import opened FileData
  import ComprChoice

  const MIN_DATA_LEN: nat := 128 // JFFS2_MIN_DATA_LEN
  const INODE_SIZE: nat := 68 // sizeof(struct jffs2_raw_inode)
  const DIRENT_SIZE: nat := 40 // sizeof(struct jffs2_raw_dirent)

  class Writer {
    const e: nat // erase_block_size
    const o: Order
    const crc: seq<byte> -> u32
    const addCleanmarkers: bool
    const cleanmarkerSize: u32
    var out: seq<byte>
    var ino: u32
    var direntVersion: u32
    ghost var log: seq<Node>

    // The root directory is inode 1, and nothing has been written yet.
    constructor (eraseBlockSize: nat, order: Order, crc32: seq<byte> -> u32, cleanmarkers: bool, markerSize: u32)
      requires eraseBlockSize % 4 == 0 && eraseBlockSize < 0x7000_0000 && UNKNOWN_SIZE <= markerSize < 0x7fff_0000
      requires (if cleanmarkers then Padded(markerSize) else 0) + DIRENT_SIZE + 256 <= eraseBlockSize && crc32([]) == 0
      ensures Valid() && Counted() && log == [] && out == [] && direntVersion == 0 && ino == 1
      ensures e == eraseBlockSize && o == order && crc == crc32
      ensures addCleanmarkers == cleanmarkers && cleanmarkerSize == markerSize
    {
      e, o, crc, addCleanmarkers, cleanmarkerSize := eraseBlockSize, order, crc32, cleanmarkers, markerSize;
      out, ino, direntVersion, log := [], 1, 0, [];
    }

    // Room for a cleanmarker and the largest node header with its least data.
    ghost predicate Sized() {
      e % 4 == 0 && e < 0x7000_0000 && UNKNOWN_SIZE <= cleanmarkerSize < 0x7fff_0000 &&
      Lead() + DIRENT_SIZE + 256 <= e && crc([]) == 0
    }

    function Lead(): nat {
      if addCleanmarkers then Padded(cleanmarkerSize) else 0
    }

    ghost predicate LogOk()
      reads this`log, this`ino
    {
      Sized() && AllGood(log) && Laid(e, addCleanmarkers, log) && UpTo(log, ino) && Total(log) % 4 == 0 &&
      Tight(e, log) && Plain(log)
    }

    ghost predicate Written()
      reads this
    {
      LogOk() && out == EncodeAll(o, crc, log) && |out| == Total(log)
    }

    ghost predicate Valid()
      reads this
    {
      Written() && Settled(e, log)
    }

    // The directory entries have the versions 0, 1, 2 and so on.
    ghost predicate Counted()
      reads this
    {
      Numbered(Dirents(log), direntVersion)
    }

    // Only fill and cleanmarkers have been added.
    twostate predicate OnlyFill()
      reads this
    {
      ino == old(ino) && direntVersion == old(direntVersion) && old(log) <= log && Dirents(log) == old(Dirents(log)) &&
      forall i: u32 :: FileNodes(log, i) == old(FileNodes(log, i))
    }

    ghost predicate EndsInFill()
      reads this`log
    {
      log != [] && log[|log| - 1].Empty?
    }

    method FullWrite(buf: seq<byte>)
      modifies this`out
      ensures out == old(out) + buf
    {
      out := out + buf;
    }

    method Pad(req: nat)
      modifies this`out
      ensures out == old(out) + Ones(req)
    {
      assert out + Ones(0) == out;
      var left := req;
      while left > 0
        invariant 0 <= left <= req && out == old(out) + Ones(req - left)
      {
        var n := if left > 16 then 16 else left;
        assert Ones(req - left) + Ones(n) == Ones(req - left + n);
        FullWrite(Ones(n));
        left := left - n;
      }
    }

    method PadWord()
      modifies this`out
      ensures out == old(out) + Ones(Padded(|old(out)|) - |old(out)|)
    {
      hide Padded;
      PaddedGap(|out|);
      if |out| % 4 != 0 {
        FullWrite(Ones(4 - |out| % 4));
      } else {
        assert out + Ones(0) == out;
      }
    }

    // The ghost side of writing a node.
    ghost method Record(x: Node)
      requires LogOk() && Good(x) && Size(x) % 4 == 0 && Within(e, Total(log), Size(x))
      requires addCleanmarkers && Begins(e, Total(log)) ==> x.Marker? && x.kind == CLEANMARKER
      requires x.Inode? && |x.mid| > 0 ==> x.mid[0].value <= ino
      requires !x.WrongBitmask? && !x.Summary? && (x.Empty? || Settled(e, log))
      modifies this`log
      ensures LogOk() && log == old(log) + [x] && Total(log) == old(Total(log)) + Size(x)
      ensures !x.Empty? ==> Settled(e, log)
      ensures EncodeAll(o, crc, log) == EncodeAll(o, crc, old(log)) + Encode(o, crc, x) &&
        |Encode(o, crc, x)| == Size(x)
    {
      hide Good, Encode, Size, EncodeAll, Laid, Tight, Plain, Total, UpTo, AllGood, Within, Begins,
        Settled;
      TightMore(e, log, x);
      EncodeMore(o, crc, log, x);
      EncodedSize(o, crc, x);
      LaidMore(e, addCleanmarkers, log, x);
      UpToMore(log, x, ino);
      log := log + [x];
    }

    // Nodes other than inodes do not show in any file.
    lemma NotInFiles(xs: seq<Node>, x: Node)
      requires !x.Inode?
      ensures forall i: u32 :: FileNodes(xs + [x], i) == FileNodes(xs, i)
      ensures Dirents(xs + [x]) == Dirents(xs) + (if x.Dirent? then [x] else [])
    {
      DirentsMore(xs, x);
      forall i: u32 ensures FileNodes(xs + [x], i) == FileNodes(xs, i) { FileNodesMore(xs, x, i); }
    }

    ghost function CleanmarkerNode(): Node
      requires Sized()
    {
      Marker(CLEANMARKER, cleanmarkerSize, Ones(Padded(cleanmarkerSize) - UNKNOWN_SIZE))
    }

    lemma CleanmarkerIsGood()
      requires Sized()
      ensures var x := CleanmarkerNode();
        Good(x) && Size(x) == Padded(cleanmarkerSize) && Size(x) % 4 == 0 && 0 < Size(x) &&
        Encode(o, crc, x) == Head(o, crc, CLEANMARKER, cleanmarkerSize) +
        Ones(Padded(cleanmarkerSize) - UNKNOWN_SIZE) &&
        |Head(o, crc, CLEANMARKER, cleanmarkerSize)| == UNKNOWN_SIZE
    {
      hide Head;
      HeadReads(o, crc, CLEANMARKER, cleanmarkerSize, []);
    }

    // The header, fill up to its length, and fill up to the next word.
    method WriteMarkerBytes()
      requires Sized() && |out| % 4 == 0
      modifies this`out
      ensures out == old(out) + Encode(o, crc, CleanmarkerNode())
    {
      hide Encode, Head, Padded;
      CleanmarkerIsGood();
      ghost var was := out;
      FullWrite(Head(o, crc, CLEANMARKER, cleanmarkerSize));
      Pad(cleanmarkerSize - UNKNOWN_SIZE);
      PadWord();
      Pieces(was, Head(o, crc, CLEANMARKER, cleanmarkerSize), Ones(cleanmarkerSize - UNKNOWN_SIZE));
    }

    method WriteCleanmarker()
      requires Valid()
      modifies this`out, this`log
      ensures Valid() && OnlyFill()
      ensures if addCleanmarkers then !Begins(e, |out|) else log == old(log)
      ensures |out| == old(|out|) + (if old(Begins(e, |out|)) then Lead() else 0)
      ensures Pos(e, |out|) == if addCleanmarkers && old(Begins(e, |out|)) then Lead() else Pos(e, old(|out|))
    {
      hide EncodeAll, Laid, Tight, Plain, Total, UpTo, AllGood, FileNodes, Dirents, Pos, Padded, CleanmarkerNode,
        Encode, Good, Size;
      if addCleanmarkers {
        if Pos(e, |out|) == 0 {
          ghost var x := CleanmarkerNode();
          CleanmarkerIsGood();
          ItIsAMarker();
          NotInFiles(log, x);
          Behind(e, |out|, Padded(cleanmarkerSize));
          Record(x);
          WriteMarkerBytes();
        }
      }
    }

    lemma ItIsAMarker()
      requires Sized()
      ensures CleanmarkerNode().Marker? && CleanmarkerNode().kind == CLEANMARKER
    {
    }

    // A node written in pieces, the last of them up to the next word.
    lemma Pieces(was: seq<byte>, head: seq<byte>, data: seq<byte>)
      requires |was| % 4 == 0 && |head| % 4 == 0
      ensures var all := was + head + data;
        all + Ones(Padded(|all|) - |all|) == was + (head + (data + Ones(Padded(|data|) - |data|)))
      ensures data == Ones(|data|) ==> data + Ones(Padded(|data|) - |data|) == Ones(Padded(|data|))
      ensures Padded(|head| + |data|) == |head| + Padded(|data|)
    {
      hide Padded;
      PaddedAfter(|head|, |data|);
      PaddedAfter(|was| + |head|, |data|);
      assert |was + head + data| == |was| + |head| + |data|;
      PaddedIs(|data|);
    }

    lemma PaddedAfter(a: nat, x: nat)
      requires a % 4 == 0
      ensures Padded(a + x) == a + Padded(x)
    {
      var q := a / 4;
      assert a + x + 3 == 4 * q + (x + 3);
    }

    lemma Behind(e: nat, at: nat, n: nat)
      requires Begins(e, at) && 0 < n < e
      ensures Pos(e, at + n) == n && !Begins(e, at + n)
    {
      var q := at / e;
      assert at == q * e;
      Remainder(e, q, n);
    }

    // Words of 0xff to the end of the block.
    method PadBlock()
      requires Valid()
      modifies this`out, this`log
      ensures Valid() && OnlyFill() && Begins(e, |out|)
      ensures !old(Begins(e, |out|)) ==> EndsInFill()
      ensures |out| == old(|out|) + ToEnd(e, old(|out|))
    {
      hide EncodeAll, Laid, Tight, Plain, Total, UpTo, AllGood, FileNodes, Dirents, Ones, Pos;
      while Pos(e, |out|) != 0
        invariant Written() && OnlyFill()
        invariant EndsInFill() || (log == old(log) && |out| == old(|out|))
        invariant |out| + ToEnd(e, |out|) == old(|out|) + ToEnd(e, old(|out|))
        decreases if Pos(e, |out|) == 0 then 0 else e - Pos(e, |out|)
      {
        var n := e - Pos(e, |out|);
        n := if n > 16 then 16 else n;
        MultipleOfFour(e, |out|);
        RecordWords(n / 4);
        Onward(e, |out|, n);
        FullWrite(Ones(n));
      }
    }

    // An aligned offset is an aligned distance from the end of its block.
    lemma MultipleOfFour(e: nat, at: nat)
      requires e > 0 && e % 4 == 0 && at % 4 == 0
      ensures Pos(e, at) % 4 == 0
    {
      var q, r := at / e, at % e;
      assert at == q * e + r;
      assert q * e == 4 * (q * (e / 4));
    }

    lemma Onward(e: nat, at: nat, n: nat)
      requires e > 0 && Pos(e, at) + n <= e && Pos(e, at) != 0 && 0 < n
      ensures Pos(e, at + n) == if Pos(e, at) + n == e then 0 else Pos(e, at) + n
    {
      var q, r := at / e, Pos(e, at);
      var product := q * e;
      assert at == product + r;
      if r + n < e {
        Remainder(e, q, r + n);
      } else {
        assert (q + 1) * e == product + e;
        Remainder(e, q + 1, 0);
      }
    }

    ghost method RecordWords(m: nat)
      requires LogOk() && Pos(e, Total(log)) != 0 && Pos(e, Total(log)) + 4 * m <= e
      modifies this`log
      ensures LogOk() && Total(log) == old(Total(log)) + 4 * m && old(log) <= log && Dirents(log) == old(Dirents(log))
      ensures m > 0 ==> EndsInFill()
      ensures EncodeAll(o, crc, log) == EncodeAll(o, crc, old(log)) + Ones(4 * m)
      ensures forall i: u32 :: FileNodes(log, i) == FileNodes(old(log), i)
      decreases m
    {
      hide EncodeAll, Laid, Tight, Plain, Total, UpTo, AllGood, FileNodes, Dirents, Pos;
      if m == 0 {
        assert EncodeAll(o, crc, log) + Ones(0) == EncodeAll(o, crc, log);
      } else {
        ghost var was := EncodeAll(o, crc, log);
        Onward(e, Total(log), 4);
        NotInFiles(log, Empty);
        Record(Empty);
        if m > 1 {
          RecordWords(m - 1);
          assert was + Ones(4) + Ones(4 * (m - 1)) == was + Ones(4 * m);
        }
      }
    }

    // What is added before a node of that size: a cleanmarker at the beginning
    // of a block; the rest of the block and a cleanmarker if it does not fit.
    function Fill(at: nat, req: nat): nat
      requires e > 0
    {
      if Pos(e, at) == 0 then Lead()
      else if Pos(e, at) + req > e then ToEnd(e, at) + Lead()
      else 0
    }

    // A node of that size may begin there: behind a cleanmarker that begins the
    // block, and without crossing the block's end.
    predicate MayBegin(at: nat, req: nat)
      requires e > 0
    {
      Lead() <= Pos(e, at) && Pos(e, at) + req <= e
    }

    // No less will do.
    lemma FillIsLeast(at: nat, req: nat)
      requires e > 0 && 0 < req && Lead() + req <= e && (Begins(e, at) || Lead() <= Pos(e, at))
      ensures MayBegin(at + Fill(at, req), req)
      ensures forall to: nat :: at <= to < at + Fill(at, req) ==> !MayBegin(to, req)
    {
      hide Pos, Padded;
      PosBehind(e, at, 0);
      PosBehind(e, at, Fill(at, req));
      forall to: nat | at <= to < at + Fill(at, req) ensures !MayBegin(to, req) {
        PosBehind(e, at, to - at);
      }
    }

    // Where a node of that size ends.
    function Reach(at: nat, req: nat): nat
      requires e > 0
    {
      at + Fill(at, req) + Padded(req)
    }

    method PadBlockIfLessThan(req: nat)
      requires Valid() && Lead() + req <= e && 0 < req
      modifies this`out, this`log
      ensures Valid() && OnlyFill()
      ensures Pos(e, |out|) + req <= e && (addCleanmarkers ==> !Begins(e, |out|))
      ensures |out| == old(|out|) + Fill(old(|out|), req)
      ensures !addCleanmarkers && old(Pos(e, |out|)) + req > e ==> EndsInFill()
    {
      hide EncodeAll, Laid, Tight, Plain, Total, UpTo, AllGood, FileNodes, Dirents, Padded, Pos;
      WriteCleanmarker();
      if Pos(e, |out|) + req > e {
        PadBlock();
      }
      WriteCleanmarker();
    }

    // Header, data and padding to the next word, into room that is there.
    method WriteNode(head: seq<byte>, data: seq<byte>, ghost x: Node)
      requires Valid() && Good(x) && (addCleanmarkers ==> !Begins(e, |out|)) && Pos(e, |out|) + |head| + |data| <= e
      requires (x.Inode? || x.Dirent?) && |head| % 4 == 0
      requires Encode(o, crc, x) == head + (data + Ones(Padded(|data|) - |data|))
      requires x.Inode? && |x.mid| > 0 ==> x.mid[0].value <= ino
      modifies this`out, this`log
      ensures Valid() && log == old(log) + [x] && |out| == old(|out|) + |head| + Padded(|data|)
    {
      hide EncodeAll, Laid, Tight, Plain, Total, UpTo, AllGood, Good, Encode, Pos;
      ghost var was := out;
      EncodedSize(o, crc, x);
      Pieces(was, head, data);
      MultipleOfFour(e, |out|);
      Record(x);
      FullWrite(head);
      FullWrite(data);
      PadWord();
    }

    // Room is made for an entry, and it is written.
    method AddEntry(head: seq<byte>, name: seq<byte>, ghost x: Node)
      requires Valid() && Good(x) && x.Dirent? && |head| == DIRENT_SIZE && |name| < 256
      requires Encode(o, crc, x) == head + (name + Ones(Padded(|name|) - |name|))
      modifies this`out, this`log
      ensures Valid() && log != [] && log[|log| - 1] == x && old(log) <= log && Dirents(log) == old(Dirents(log)) + [x]
      ensures |out| == Reach(old(|out|), DIRENT_SIZE + |name|)
      ensures !addCleanmarkers && old(Pos(e, |out|)) + DIRENT_SIZE + |name| > e ==>
        |log| >= 2 && log[|log| - 2].Empty?
      ensures forall i: u32 :: FileNodes(log, i) == old(FileNodes(log, i))
    {
      hide EncodeAll, Laid, Tight, Plain, Total, UpTo, AllGood, Pos, FileNodes, Dirents, Settled, Padded, Encode, Good;
      PaddedAfter(DIRENT_SIZE, |name|);
      PadBlockIfLessThan(DIRENT_SIZE + |name|);
      NotInFiles(log, x);
      WriteNode(head, name, x);
    }

    // A directory entry for inode target: the file that comes next, or one that
    // was written before and has another name already.
    method WriteDirent(name: seq<byte>, pino: u32, mctime: u32, dtype: byte, target: u32)
      requires Valid() && |name| < 256
      modifies this`out, this`log, this`direntVersion
      ensures Valid() && ino == old(ino) && direntVersion == (old(direntVersion) + 1) % 0x1_0000_0000
      ensures log != [] && log[|log| - 1] == DirentNode(name, pino, old(direntVersion), target, mctime, dtype)
      ensures old(log) <= log && Dirents(log) == old(Dirents(log)) + [log[|log| - 1]]
      ensures old(Counted()) ==> Counted()
      ensures |out| == Reach(old(|out|), DIRENT_SIZE + |name|)
      ensures !addCleanmarkers && old(Pos(e, |out|)) + DIRENT_SIZE + |name| > e ==>
        |log| >= 2 && log[|log| - 2].Empty?
      ensures forall i: u32 :: FileNodes(log, i) == old(FileNodes(log, i))
    {
      hide LogOk, EncodeAll, Total, Pos, FileNodes, Dirents, Reach, Numbered, Settled, Padded, Encode, Good,
        DirentHeader, DirentNode;
      ghost var x := DirentNode(name, pino, direntVersion, target, mctime, dtype);
      IsDirentNode(name, pino, direntVersion, target, mctime, dtype);
      DirentIsGood(name, pino, direntVersion, target, mctime, dtype);
      var head := DirentHeader(name, pino, direntVersion, target, mctime, dtype);
      direntVersion := (direntVersion + 1) % 0x1_0000_0000;
      AddEntry(head, name, x);
      if old(Counted()) { CountedMore(old(Dirents(log)), name, pino, old(direntVersion), target, mctime, dtype); }
    }

    lemma CountedMore(ds: seq<Node>, name: seq<byte>, pino: u32, version: u32, target: u32, mctime: u32, dtype: byte)
      requires Numbered(ds, version) && |name| < 256
      ensures Numbered(ds + [DirentNode(name, pino, version, target, mctime, dtype)], (version + 1) % 0x1_0000_0000)
    {
      NumberedMore(ds, version, DirentNode(name, pino, version, target, mctime, dtype));
    }

    function DirentHeader(name: seq<byte>, pino: u32, version: u32, ino: u32, mctime: u32, dtype: byte): seq<byte>
      requires |name| < 256
    {
      var start := DirentStart(o, crc, DIRENT_SIZE + |name|, DirentFields(|name|, pino, version, ino, mctime, dtype));
      start + Put32(o, crc(start)) + Put32(o, crc(name))
    }

    lemma DirentIsGood(name: seq<byte>, pino: u32, version: u32, ino: u32, mctime: u32, dtype: byte)
      requires |name| < 256
      ensures var x := DirentNode(name, pino, version, ino, mctime, dtype);
        var h := DirentHeader(name, pino, version, ino, mctime, dtype);
        Good(x) && |h| == DIRENT_SIZE && Encode(o, crc, x) == h + (name + Ones(Padded(|name|) - |name|))
    {
      hide Fields, Head, Put32, Sum, Swap, ConvertHead;
      WidthSums();
      var mid := DirentFields(|name|, pino, version, ino, mctime, dtype);
      StartReads(o, crc, DIRENT, DIRENT_SIZE + |name|, mid, []);
    }

    function InodeHeader(ino: u32, version: u32, st: Stat, isize: u32, offset: u32, dsize: u32, compr: byte,
            data: seq<byte>): seq<byte>
      requires |data| < 0x7000_0000
    {
      var start := InodeStart(o, crc, INODE_SIZE + |data|,
        InodeFields(ino, version, st, isize, offset, |data|, dsize, compr));
      start + Put32(o, crc(data)) + Put32(o, crc(start))
    }

    lemma InodeIsGood(ino: u32, version: u32, st: Stat, isize: u32, offset: u32, dsize: u32, compr: byte,
            data: seq<byte>)
      requires |data| < 0x7000_0000
      ensures var x := InodeNode(ino, version, st, isize, offset, dsize, compr, data);
        var h := InodeHeader(ino, version, st, isize, offset, dsize, compr, data);
        x.Inode? && |x.mid| == 15 && x.mid[0].value == ino && Good(x) && |h| == INODE_SIZE &&
        Encode(o, crc, x) == h + (data + Ones(Padded(|data|) - |data|))
    {
      hide Fields, Head, Put32, Sum, Swap, ConvertHead, InodeFields, AllProper, Widths;
      WidthSums();
      InodeFieldsAre(ino, version, st, isize, offset, |data|, dsize, compr);
      Tail(data);
      var mid := InodeFields(ino, version, st, isize, offset, |data|, dsize, compr);
      StartReads(o, crc, INODE, INODE_SIZE + |data|, mid, []);
    }

    lemma Tail(data: seq<byte>)
      requires |data| < 0x7000_0000
      ensures var d := data + Ones(Padded(|data|) - |data|);
        d[..|data|] == data && |d| == Padded(|data|) && Padded(INODE_SIZE + |data|) == INODE_SIZE + |d|
    {
    }

    // An inode node with data, into room that is there.
    method WriteInode(version: u32, st: Stat, isize: u32, offset: u32, dsize: u32, compr: byte, data: seq<byte>)
      requires Valid() && (addCleanmarkers ==> !Begins(e, |out|)) && Pos(e, |out|) + INODE_SIZE + |data| <= e
      modifies this`out, this`log
      ensures Valid() && log == old(log) + [InodeNode(ino, version, st, isize, offset, dsize, compr, data)]
      ensures |out| == old(|out|) + INODE_SIZE + Padded(|data|)
      ensures Dirents(log) == old(Dirents(log))
      ensures forall i: u32 :: FileNodes(log, i) == old(FileNodes(log, i)) + (if i == ino then [log[|log| - 1]] else [])
    {
      hide EncodeAll, Laid, Tight, Plain, Total, UpTo, AllGood, Pos, FileNodes, Dirents, Encode, Good, InodeNode,
        InodeHeader, Padded, InodeFields;
      ghost var x := InodeNode(ino, version, st, isize, offset, dsize, compr, data);
      InodeIsGood(ino, version, st, isize, offset, dsize, compr, data);
      DirentsMore(log, x);
      forall i: u32
        ensures FileNodes(log + [x], i) == FileNodes(log, i) + (if i == ino then [x] else [])
      {
        FileNodesMore(log, x, i);
      }
      WriteNode(InodeHeader(ino, version, st, isize, offset, dsize, compr, data), data, x);
    }

    method NextInode()
      requires Valid() && ino < 0xffff_ffff
      modifies this`ino
      ensures Valid() && ino == old(ino) + 1 && FileNodes(log, ino) == [] && log == old(log)
    {
      hide EncodeAll, Laid, Tight, Plain, Total, AllGood, FileNodes, Dirents;
      NoNodesYet(log, ino, ino + 1);
      ino := ino + 1;
    }

    // The data as it is stored, in the space there is: what the chosen compressor
    // makes of a beginning of it, or such a beginning itself.
    static method Pack(data: seq<byte>, space: nat, reg: Compressors.Registry, ghost dec: Decompressor)
      returns (kind: byte, packed: seq<byte>, dsize: nat)
      requires reg.Valid() && Sound(reg.list, dec) && 0 < space <= |data|
      ensures 0 < |packed| <= space && 0 < dsize <= |data| && kind == KindOf(reg.mode, reg.list, data, space)
      ensures if kind == Compressors.COMPR_NONE then packed == data[..dsize]
              else dec(kind, packed, dsize) == data[..dsize]
    {
      hide Compressors.Selected, Compressors.Tried, Compressors.Productive, Sound;
      SoundIsProductive(reg.list, dec, data, space);
      var cdata, datalen, cdatalen;
      kind, cdata, datalen, cdatalen := reg.Compress(data, space);
      AnswerIsSound(reg.mode, reg.list, dec, data, space, kind, cdata, datalen, cdatalen);
      var wbuf;
      if kind != 0 {
        wbuf, dsize := cdata, datalen;
      } else {
        wbuf, dsize := data, cdatalen;
      }
      packed := wbuf[..cdatalen];
    }

    // One turn of the loop over the data that was read: a piece of it becomes
    // a node, of at most the room that is left in the block.
    method WritePiece(data: seq<byte>, version: u32, st: Stat, isize: u32, offset: u32, reg: Compressors.Registry,
            ghost dec: Decompressor)
      returns (dsize: nat)
      requires Valid() && reg.Valid() && Sound(reg.list, dec) && 0 < |data| && offset + |data| < 0x1_0000_0000
      modifies this`out, this`log
      ensures Valid() && 0 < dsize <= |data| && log != [] && Dirents(log) == old(Dirents(log))
      ensures var x := log[|log| - 1];
        IsInode(x) && x.csize <= |x.data| && Ino(x) == ino && Version(x) == version && Isize(x) == isize &&
        Offset(x) == offset &&
        Dsize(x) == dsize && Payload(dec, x) == data[..dsize] &&
        (Compr(x) == Compressors.COMPR_NONE ==> x.csize == Dsize(x))
      ensures ChosenFor(reg.mode, reg.list, data, log[|log| - 1]) && Stamped(log[|log| - 1], st)
      ensures forall i: u32 :: FileNodes(log, i) == old(FileNodes(log, i)) + (if i == ino then [log[|log| - 1]] else [])
    {
      hide EncodeAll, Laid, Tight, Plain, Total, UpTo, AllGood, Pos, FileNodes, InodeFields, AllProper, ChosenFor,
        KindOf, Sound;
      PadBlockIfLessThan(INODE_SIZE + MIN_DATA_LEN);
      var space := e - Pos(e, |out|) - INODE_SIZE;
      if space > |data| {
        space := |data|;
      }
      var kind, packed;
      kind, packed, dsize := Pack(data, space, reg, dec);
      WriteInode(version, st, isize, offset, dsize, kind, packed);
      InodeFieldsAre(ino, version, st, isize, offset, |packed|, dsize, kind);
      Tail(packed);
      ItIsStamped(ino, version, st, isize, offset, dsize, kind, packed);
      ItIsChosen(reg.mode, reg.list, data, space, kind, log[|log| - 1]);
    }

    // The nodes of the file so far stand for the data so far, and no other
    // file has changed.
    ghost predicate Growing(dec: Decompressor, st: Stat, isize: nat, done: seq<byte>, before: seq<Node>)
      reads this
    {
      var nodes := FileNodes(log, ino);
      Covers(dec, nodes, ino, isize, done) && |nodes| <= |done| && Productive(nodes) && AllStamped(nodes, st) &&
      Dirents(log) == Dirents(before) &&
      forall i: u32 :: i != ino ==> FileNodes(log, i) == FileNodes(before, i)
    }

    method WriteChunk(chunk: seq<byte>, st: Stat, isize: u32, ver: u32, offset: u32, reg: Compressors.Registry,
            ghost dec: Decompressor, ghost done: seq<byte>, ghost before: seq<Node>)
      returns (version: u32, end: u32)
      requires Valid() && reg.Valid() && Sound(reg.list, dec) && Growing(dec, st, isize, done, before)
      requires offset == |done| && |done| + |chunk| < 0x1_0000_0000 && ver == |FileNodes(log, ino)|
      modifies this`out, this`log
      ensures Valid() && Growing(dec, st, isize, done + chunk, before) && end == |done| + |chunk| &&
        version == |FileNodes(log, ino)|
      ensures old(FileNodes(log, ino)) <= FileNodes(log, ino)
      ensures Chosen(reg.mode, reg.list, FileNodes(log, ino), ver, |done|, done + chunk)
    {
      hide EncodeAll, Laid, Tight, Plain, Total, UpTo, AllGood, FileNodes, Dirents, Covers, Payload, Sound,
        ChosenFor, Chosen, Productive;
      version, end := ver, offset;
      var p := 0;
      assert done + chunk[..0] == done;
      NoneChosen(reg.mode, reg.list, FileNodes(log, ino), |done|, done + chunk);
      while p < |chunk|
        invariant p <= |chunk| && Valid() && Growing(dec, st, isize, done + chunk[..p], before)
        invariant end == offset + p && version == |FileNodes(log, ino)|
        invariant old(FileNodes(log, ino)) <= FileNodes(log, ino)
        invariant Chosen(reg.mode, reg.list, FileNodes(log, ino), ver, |done|, done + chunk)
      {
        ghost var nodes, sofar := FileNodes(log, ino), done + chunk[..p];
        var dsize := WritePiece(chunk[p..], version + 1, st, isize, end, reg, dec);
        ghost var x := log[|log| - 1];
        Sliced(done, chunk, p, dsize);
        CoversMore(dec, nodes, ino, isize, sofar, x, chunk[p..][..dsize]);
        ProductiveMore(nodes, x);
        StampedMore(nodes, x, st);
        assert (done + chunk)[end..] == chunk[p..];
        ChosenMore(reg.mode, reg.list, nodes, ver, |done|, done + chunk, x);
        version, end, p := version + 1, end + dsize, p + dsize;
      }
      assert chunk[..p] == chunk;
    }

    // The whole of a regular file, read in chunks of any size. A file without
    // data gets one node as well.
    method WriteRegularFile(chunks: seq<seq<byte>>, st: Stat, size: nat, name: seq<byte>, pino: u32, dtype: byte,
            reg: Compressors.Registry, ghost dec: Decompressor)
      returns (ok: bool)
      requires Valid() && reg.Valid() && Sound(reg.list, dec) && |name| < 256 && ino < 0xffff_ffff
      requires |Flat(chunks)| < 0x1_0000_0000
      modifies this
      ensures Valid() && ok == (size < 0xffff_ffff)
      ensures !ok ==> log == old(log) && ino == old(ino)
      ensures ok ==>
        ino == old(ino) + 1 && Covers(dec, FileNodes(log, ino), ino, size, Flat(chunks)) && FileNodes(log, ino) != []
      ensures ok ==>
        Dirents(log) == old(Dirents(log)) + [DirentNode(name, pino, old(direntVersion), ino, st.mtime, dtype)]
      ensures old(Counted()) ==> Counted()
      ensures ok ==> StatsWritten(ino, st)
      ensures ok && Flat(chunks) != [] ==> Productive(FileNodes(log, ino))
      ensures ok && Flat(chunks) != [] ==> ChosenInAll(reg.mode, reg.list, chunks, |chunks|, FileNodes(log, ino))
      ensures forall i: u32 :: i != ino ==> FileNodes(log, i) == old(FileNodes(log, i))
    {
      hide EncodeAll, Laid, Tight, Plain, Total, AllGood, FileNodes, Dirents, Covers, Payload, Sound, InodeFields,
        Productive, Flat, InodeNode, UpTo, Numbered, ChosenInAll, Chosen, AllStamped, StatsWritten, Settled;
      NoChunks();
      NoneProductive();
      NoneStamped(st);
      NoneChosenIn(reg.mode, reg.list, chunks);
      if size >= 0xffff_ffff {
        return false;
      }
      NextInode();
      WriteDirent(name, pino, st.mtime, dtype, ino);
      ghost var before := log;
      var ver, offset, n := 0, 0, 0;
      NothingCovered(dec, ino, size);
      while n < |chunks|
        invariant n <= |chunks| && Valid() && ino == old(ino) + 1
        invariant Growing(dec, st, size, Flat(chunks[..n]), before)
        invariant old(Counted()) ==> Numbered(Dirents(before), direntVersion)
        invariant ChosenInAll(reg.mode, reg.list, chunks, n, FileNodes(log, ino))
        invariant offset == |Flat(chunks[..n])| && ver == |FileNodes(log, ino)| &&
          |Flat(chunks[..n])| + |Flat(chunks[n..])| == |Flat(chunks)|
      {
        FlatMore(chunks, n);
        ghost var nodes := FileNodes(log, ino);
        FlatFirst(chunks[n..]);
        assert chunks[n..][1..] == chunks[n + 1..];
        ver, offset := WriteChunk(chunks[n], st, size, ver, offset, reg, dec, Flat(chunks[..n]), before);
        ChosenOn(reg.mode, reg.list, chunks, n, nodes, FileNodes(log, ino));
        n := n + 1;
      }
      assert chunks[..n] == chunks;
      if ver == 0 {
        CoveredByNone(dec, FileNodes(log, ino), ino, size, Flat(chunks));
        PadBlockIfLessThan(INODE_SIZE);
        ghost var nodes := FileNodes(log, ino);
        WriteInode(1, st, size, 0, 0, 0, []);
        ItIsStamped(ino, 1, st, size, 0, 0, 0, []);
        StampedMore(nodes, log[|log| - 1], st);
        EmptyFile(dec, log[|log| - 1], ino, st, size);
      }
      StatsAre(ino, st);
      ok := true;
    }

    // Symbolic links, directories, pipes, sockets and device nodes: one node
    // with all the data there is.
    method WriteSpecialFile(data: seq<byte>, st: Stat, isize: u32, name: seq<byte>, pino: u32, dtype: byte)
      returns (ghost at: nat)
      requires Valid() && |name| < 256 && |data| <= 254 && Lead() + INODE_SIZE + |data| <= e && ino < 0xffff_ffff
      modifies this
      ensures Valid() && ino == old(ino) + 1 &&
        FileNodes(log, ino) == [InodeNode(ino, 1, st, isize, 0, |data|, 0, data)]
      ensures Dirents(log) == old(Dirents(log)) + [DirentNode(name, pino, old(direntVersion), ino, st.mtime, dtype)]
      ensures old(Counted()) ==> Counted()
      ensures |out| == Reach(Reach(old(|out|), DIRENT_SIZE + |name|), INODE_SIZE + |data|)
      ensures StatsWritten(ino, st)
      ensures at < |log| && log[at] == DirentNode(name, pino, old(direntVersion), ino, st.mtime, dtype)
      ensures !addCleanmarkers && old(Pos(e, |out|)) + DIRENT_SIZE + |name| > e ==> at > 0 && log[at - 1].Empty?
      ensures forall i: u32 :: i != ino ==> FileNodes(log, i) == old(FileNodes(log, i))
    {
      hide EncodeAll, Laid, Tight, Plain, Total, AllGood, FileNodes, Dirents, UpTo, Numbered, Padded, InodeNode,
        AllStamped, StatsWritten, Settled;
      PaddedAfter(INODE_SIZE, |data|);
      NextInode();
      WriteDirent(name, pino, st.mtime, dtype, ino);
      at := |log| - 1;
      PadBlockIfLessThan(INODE_SIZE + |data|);
      WriteInode(1, st, isize, 0, |data|, 0, data);
      ItIsStamped(ino, 1, st, isize, 0, |data|, 0, data);
      NoneStamped(st);
      StampedMore([], log[|log| - 1], st);
      assert [] + [log[|log| - 1]] == [log[|log| - 1]];
      StatsAre(ino, st);
    }

    // ---- the bytes of a node ---------------------------------------------------

    // Node i and everything behind it, in the bytes written.
    lemma BytesAt(i: nat)
      requires Valid() && i < |log|
      ensures Good(log[i]) && AllGood(log[i + 1..]) && Total(log[..i]) <= |out|
      ensures out[Total(log[..i])..] == Encode(o, crc, log[i]) + EncodeAll(o, crc, log[i + 1..])
    {
      hide Good, Encode, Laid, Tight, Plain, Settled, UpTo, Total;
      assert log == log[..i] + log[i..] && log[i..][1..] == log[i + 1..];
      EncodeJoin(o, crc, log[..i], log[i..]);
      EncodedTotal(o, crc, log[..i]);
    }

    // An inode node as it stands in the bytes written.
    lemma InodeWritten(i: nat, ino: u32, version: u32, st: Stat, isize: u32, offset: u32, dsize: u32, compr: byte,
                       data: seq<byte>)
      requires Valid() && i < |log| && |data| < 0x7000_0000
      requires log[i] == InodeNode(ino, version, st, isize, offset, dsize, compr, data)
      ensures Total(log[..i]) <= |out|
      ensures var t := out[Total(log[..i])..];
        |t| >= 68 + |data| && Get16(o, t, 0) == 0x1985 && Get16(o, t, 2) == 0xe002 && Get32(o, t, 4) == 68 + |data| &&
        Get32(o, t, 8) == crc(t[..8]) && StatAt(o, t, st) &&
        Get32(o, t, 12) == ino && Get32(o, t, 16) == version && Get32(o, t, 28) == isize &&
        Get32(o, t, 44) == offset && Get32(o, t, 48) == |data| && Get32(o, t, 52) == dsize && t[56] == compr &&
        t[57] == 0 && Get16(o, t, 58) == 0 &&
        Get32(o, t, 60) == crc(data) && Get32(o, t, 64) == crc(t[..60]) && t[68..68 + |data|] == data
    {
      hide *;
      BytesAt(i);
      IsInodeNode(ino, version, st, isize, offset, dsize, compr, data);
      InodeRead(o, crc, log[i], EncodeAll(o, crc, log[i + 1..]));
      InodeReadsAs(o, crc, out[Total(log[..i])..], ino, version, st, isize, offset, dsize, compr, data);
    }

    // A directory entry as it stands there.
    lemma EntryWritten(i: nat, name: seq<byte>, pino: u32, version: u32, target: u32, mctime: u32, dtype: byte)
      requires Valid() && i < |log| && |name| < 256
      requires log[i] == DirentNode(name, pino, version, target, mctime, dtype)
      ensures Total(log[..i]) <= |out|
      ensures var t := out[Total(log[..i])..];
        |t| >= 40 + |name| && Get16(o, t, 0) == 0x1985 && Get16(o, t, 2) == 0xe001 && Get32(o, t, 4) == 40 + |name| &&
        Get32(o, t, 8) == crc(t[..8]) &&
        Get32(o, t, 12) == pino && Get32(o, t, 16) == version && Get32(o, t, 20) == target &&
        Get32(o, t, 24) == mctime && t[28] == |name| && t[29] == dtype && t[30] == t[31] == 0 &&
        Get32(o, t, 32) == crc(t[..32]) && Get32(o, t, 36) == crc(name) && t[40..40 + |name|] == name
    {
      hide *;
      BytesAt(i);
      IsDirentNode(name, pino, version, target, mctime, dtype);
      DirentRead(o, crc, log[i], EncodeAll(o, crc, log[i + 1..]));
      DirentReadsAs(o, crc, out[Total(log[..i])..], name, pino, version, target, mctime, dtype);
    }

    // Every inode node of the file has the owner, mode and times of st in its
    // place.
    ghost predicate StatsWritten(ino: u32, st: Stat)
      reads this
    {
      forall i :: 0 <= i < |log| && IsInode(log[i]) && Ino(log[i]) == ino ==>
        Total(log[..i]) <= |out| && StatAt(o, out[Total(log[..i])..], st)
    }

    lemma StatsAre(ino: u32, st: Stat)
      requires Valid() && AllStamped(FileNodes(log, ino), st)
      ensures StatsWritten(ino, st)
    {
      hide Good, EncodeAll, Total, FileNodes, Encode, InodeFields, StatAt, Valid;
      forall i: nat | i < |log| && IsInode(log[i]) && Ino(log[i]) == ino
        ensures Total(log[..i]) <= |out| && StatAt(o, out[Total(log[..i])..], st)
      {
        AmongFileNodes(log, i);
        var x := log[i];
        assert Stamped(x, st);
        InodeWritten(i, Ino(x), Version(x), st, Isize(x), Offset(x), Dsize(x), Compr(x), x.data[..x.csize]);
      }
    }

    // What was written is an image that converts to the other byte order and
    // back, and its blocks begin as they should.
    lemma ImageIsSound(recalc: bool, b: nat) returns (i: nat)
      requires Valid()
      ensures var r := Converted(o, crc, recalc, out);
        r.Done? && Converted(o.Other(), crc, recalc, r.bytes) == Done(out)
      ensures b * e < |out| ==>
        i < |log| && Total(log[..i]) == b * e && (addCleanmarkers ==> log[i].Marker? && log[i].kind == CLEANMARKER)
    {
      hide Laid, Converted, Good;
      ConvertTwice(o, crc, recalc, log);
      i := 0;
      if b * e < |out| { i := BlocksStart(e, addCleanmarkers, log, b); }
    }

    lemma EmptyFile(dec: Decompressor, x: Node, ino: u32, st: Stat, size: u32)
      requires x == InodeNode(ino, 1, st, size, 0, 0, 0, [])
      ensures Covers(dec, [] + [x], ino, size, [])
    {
      InodeFieldsAre(ino, 1, st, size, 0, 0, 0, 0);
      NothingCovered(dec, ino, size);
      var none: seq<byte> := [];
      assert none + none == none;
      CoversMore(dec, [], ino, size, none, x, none);
    }

    lemma NothingCovered(dec: Decompressor, ino: u32, size: nat)
      ensures Covers(dec, [], ino, size, []) && Flat([]) == []
    {
    }

    lemma NoChunks()
      ensures Flat([]) == []
    {
    }

    lemma NoneProductive()
      ensures Productive([])
    {
    }

    lemma CoveredByNone(dec: Decompressor, nodes: seq<Node>, ino: u32, size: nat, data: seq<byte>)
      requires Covers(dec, nodes, ino, size, data) && nodes == []
      ensures data == []
    {
    }
  }

  lemma PosBehind(e: nat, at: nat, f: nat)
    requires e > 0 && Pos(e, at) + f < 2 * e
    ensures Pos(e, at) < e && Pos(e, at + f) == if Pos(e, at) + f < e then Pos(e, at) + f else Pos(e, at) + f - e
  {
    var q, r := at / e, Pos(e, at);
    var product := q * e;
    assert at == product + r;
    if r + f < e {
      Remainder(e, q, r + f);
    } else {
      assert (q + 1) * e == product + e;
      Remainder(e, q + 1, r + f - e);
    }
  }

  lemma Sliced(done: seq<byte>, chunk: seq<byte>, p: nat, n: nat)
    requires p + n <= |chunk|
    ensures done + chunk[..p] + chunk[p..][..n] == done + chunk[..p + n]
  {
  }

  // What a series of reads returns in all.
  ghost function Flat(chunks: seq<seq<byte>>): seq<byte> {
    if chunks == [] then [] else Flat(chunks[..|chunks| - 1]) + chunks[|chunks| - 1]
  }

  lemma FlatMore(chunks: seq<seq<byte>>, n: nat)
    requires n < |chunks|
    ensures Flat(chunks[..n + 1]) == Flat(chunks[..n]) + chunks[n]
  {
    assert chunks[..n + 1][..n] == chunks[..n];
  }

  lemma {:induction false} FlatFirst(chunks: seq<seq<byte>>)
    requires chunks != []
    ensures |Flat(chunks)| == |chunks[0]| + |Flat(chunks[1..])|
  {
    if |chunks| > 1 {
      var front := chunks[..|chunks| - 1];
      FlatFirst(front);
      assert chunks[1..][..|chunks| - 2] == front[1..];
    } else {
      assert chunks[..0] == [] && chunks[1..] == [];
    }
  }

  // Mode, owner, group and times in the bytes of an inode node.
  ghost predicate StatAt(o: Order, t: seq<byte>, st: Stat) {
    |t| >= INODE_SIZE && Get32(o, t, 20) == st.mode && Get16(o, t, 24) == st.uid && Get16(o, t, 26) == st.gid &&
    Get32(o, t, 32) == st.atime && Get32(o, t, 36) == st.mtime && Get32(o, t, 40) == st.ctime
  }

  lemma InodeReadsAs(o: Order, crc: seq<byte> -> u32, t: seq<byte>, ino: u32, version: u32, st: Stat, isize: u32,
                     offset: u32, dsize: u32, compr: byte, data: seq<byte>)
    requires |data| < 0x7000_0000
    requires var x := InodeNode(ino, version, st, isize, offset, dsize, compr, data);
      x.Inode? && HeadLayout(o, crc, t, INODE, x.totlen) && InodeLayout(o, crc, t, x.mid, x.csize, x.data)
    ensures |t| >= 68 + |data| && StatAt(o, t, st)
    ensures Get16(o, t, 0) == 0x1985 && Get16(o, t, 2) == 0xe002 && Get32(o, t, 4) == 68 + |data|
    ensures Get32(o, t, 8) == crc(t[..8])
    ensures Get32(o, t, 12) == ino && Get32(o, t, 16) == version && Get32(o, t, 28) == isize
    ensures Get32(o, t, 44) == offset && Get32(o, t, 48) == |data| && Get32(o, t, 52) == dsize && t[56] == compr
    ensures t[57] == 0 && Get16(o, t, 58) == 0
    ensures Get32(o, t, 60) == crc(data) && Get32(o, t, 64) == crc(t[..60]) && t[68..68 + |data|] == data
  {
    hide Get16, Get32, InodeFields, Padded, Ones;
    AllFieldsAre(ino, version, st, isize, offset, |data|, dsize, compr);
    var x := InodeNode(ino, version, st, isize, offset, dsize, compr, data);
    assert x.data[..|data|] == data;
    assert t[68..68 + |data|] == t[68..68 + |x.data|][..|data|];
  }

  lemma IsInodeNode(ino: u32, version: u32, st: Stat, isize: u32, offset: u32, dsize: u32, compr: byte, data: seq<byte>)
    requires |data| < 0x7000_0000
    ensures InodeNode(ino, version, st, isize, offset, dsize, compr, data).Inode?
  {
  }

  lemma IsDirentNode(name: seq<byte>, pino: u32, version: u32, target: u32, mctime: u32, dtype: byte)
    requires |name| < 256
    ensures DirentNode(name, pino, version, target, mctime, dtype).Dirent?
  {
  }

  lemma DirentReadsAs(o: Order, crc: seq<byte> -> u32, t: seq<byte>, name: seq<byte>, pino: u32, version: u32,
                      target: u32, mctime: u32, dtype: byte)
    requires |name| < 256
    requires var x := DirentNode(name, pino, version, target, mctime, dtype);
      x.Dirent? && HeadLayout(o, crc, t, DIRENT, x.totlen) && DirentLayout(o, crc, t, x.mid, x.nsize, x.name)
    ensures |t| >= 40 + |name|
    ensures Get16(o, t, 0) == 0x1985 && Get16(o, t, 2) == 0xe001 && Get32(o, t, 4) == 40 + |name|
    ensures Get32(o, t, 8) == crc(t[..8])
    ensures Get32(o, t, 12) == pino && Get32(o, t, 16) == version && Get32(o, t, 20) == target
    ensures Get32(o, t, 24) == mctime && t[28] == |name| && t[29] == dtype && t[30] == t[31] == 0
    ensures Get32(o, t, 32) == crc(t[..32]) && Get32(o, t, 36) == crc(name) && t[40..40 + |name|] == name
  {
    hide Get16, Get32, Padded, Ones;
    var x := DirentNode(name, pino, version, target, mctime, dtype);
    assert x.name[..|name|] == name;
    assert t[40..40 + |name|] == t[40..40 + |x.name|][..|name|];
  }

  // The node was made with st.
  ghost predicate Stamped(x: Node, st: Stat) {
    IsInode(x) && x.csize <= |x.data| && x.csize < 0x7000_0000 && Compr(x) < 256 &&
    x == InodeNode(Ino(x), Version(x), st, Isize(x), Offset(x), Dsize(x), Compr(x), x.data[..x.csize])
  }

  ghost predicate AllStamped(nodes: seq<Node>, st: Stat) {
    forall i :: 0 <= i < |nodes| ==> Stamped(nodes[i], st)
  }

  lemma NoneStamped(st: Stat)
    ensures AllStamped([], st)
  {
  }

  lemma StampedMore(nodes: seq<Node>, x: Node, st: Stat)
    requires AllStamped(nodes, st) && Stamped(x, st)
    ensures AllStamped(nodes + [x], st)
  {
    hide Stamped;
  }

  lemma ItIsStamped(ino: u32, version: u32, st: Stat, isize: u32, offset: u32, dsize: u32, compr: byte, data: seq<byte>)
    requires |data| < 0x7000_0000
    ensures Stamped(InodeNode(ino, version, st, isize, offset, dsize, compr, data), st)
  {
    hide InodeFields, AllProper, Widths;
    AllFieldsAre(ino, version, st, isize, offset, |data|, dsize, compr);
    var x := InodeNode(ino, version, st, isize, offset, dsize, compr, data);
    assert x.data[..|data|] == data;
  }

  // The method that the data goes to with that much space.
  ghost function KindOf(mode: ComprChoice.Mode, list: seq<Compressors.Compressor>, data: seq<byte>, space: nat): byte
    reads list
  {
    var k := Compressors.Selected(mode, list, data, space);
    if k == -1 then Compressors.COMPR_NONE else list[k].kind
  }

  // A node written for the data that is left: its method is the one chosen
  // with space for all of it, or with as much as the block has left.
  ghost predicate ChosenFor(mode: ComprChoice.Mode, list: seq<Compressors.Compressor>, data: seq<byte>, x: Node)
    reads list
  {
    IsInode(x) && exists space: nat ::
      (space == |data| || MIN_DATA_LEN <= space < |data|) && Compr(x) == KindOf(mode, list, data, space)
  }

  lemma ItIsChosen(mode: ComprChoice.Mode, list: seq<Compressors.Compressor>, data: seq<byte>, space: nat, kind: byte,
                   x: Node)
    requires kind == KindOf(mode, list, data, space)
    requires IsInode(x) && Compr(x) == kind && (space == |data| || MIN_DATA_LEN <= space < |data|)
    ensures ChosenFor(mode, list, data, x)
  {
  }

  ghost predicate Chosen(mode: ComprChoice.Mode, list: seq<Compressors.Compressor>, nodes: seq<Node>, from: nat,
                         base: nat, data: seq<byte>)
    reads list
  {
    forall i :: from <= i < |nodes| ==>
      IsInode(nodes[i]) && base <= Offset(nodes[i]) < |data| &&
      ChosenFor(mode, list, data[Offset(nodes[i])..], nodes[i])
  }

  lemma NoneChosen(mode: ComprChoice.Mode, list: seq<Compressors.Compressor>, nodes: seq<Node>, base: nat,
                   data: seq<byte>)
    ensures Chosen(mode, list, nodes, |nodes|, base, data)
  {
  }

  lemma NoneChosenIn(mode: ComprChoice.Mode, list: seq<Compressors.Compressor>, chunks: seq<seq<byte>>)
    ensures ChosenInAll(mode, list, chunks, 0, [])
  {
  }

  lemma ChosenMore(mode: ComprChoice.Mode, list: seq<Compressors.Compressor>, nodes: seq<Node>, from: nat, base: nat,
                   data: seq<byte>, x: Node)
    requires Chosen(mode, list, nodes, from, base, data) && IsInode(x) && base <= Offset(x) < |data|
    requires ChosenFor(mode, list, data[Offset(x)..], x)
    ensures Chosen(mode, list, nodes + [x], from, base, data)
  {
    hide ChosenFor;
  }

  // What is left of the chunk that the node begins in is what it was written for.
  ghost predicate ChosenIn(mode: ComprChoice.Mode, list: seq<Compressors.Compressor>, chunks: seq<seq<byte>>, n: nat,
                           x: Node)
    requires n <= |chunks|
    reads list
  {
    IsInode(x) &&
    exists m: nat ::
      m < n && |Flat(chunks[..m])| <= Offset(x) < |Flat(chunks[..m + 1])| &&
      ChosenFor(mode, list, Flat(chunks[..m + 1])[Offset(x)..], x)
  }

  ghost predicate ChosenInAll(mode: ComprChoice.Mode, list: seq<Compressors.Compressor>, chunks: seq<seq<byte>>,
                              n: nat, nodes: seq<Node>)
    requires n <= |chunks|
    reads list
  {
    forall i :: 0 <= i < |nodes| ==> ChosenIn(mode, list, chunks, n, nodes[i])
  }

  lemma ChosenOn(mode: ComprChoice.Mode, list: seq<Compressors.Compressor>, chunks: seq<seq<byte>>, n: nat,
                 nodes: seq<Node>, nodes': seq<Node>)
    requires n < |chunks| && ChosenInAll(mode, list, chunks, n, nodes) && nodes <= nodes'
    requires Chosen(mode, list, nodes', |nodes|, |Flat(chunks[..n])|, Flat(chunks[..n + 1]))
    ensures ChosenInAll(mode, list, chunks, n + 1, nodes')
  {
    hide ChosenFor, Flat;
    forall i | 0 <= i < |nodes'| ensures ChosenIn(mode, list, chunks, n + 1, nodes'[i]) {
      if i < |nodes| { assert ChosenIn(mode, list, chunks, n, nodes[i]); }
    }
  }

  // Every node stands for some data.
  ghost predicate Productive(nodes: seq<Node>) {
    forall i :: 0 <= i < |nodes| ==> IsInode(nodes[i]) && Dsize(nodes[i]) > 0
  }

  lemma ProductiveMore(nodes: seq<Node>, x: Node)
    requires Productive(nodes) && IsInode(x) && Dsize(x) > 0
    ensures Productive(nodes + [x])
  {
  }

  // What is expected of every compressor, with the decompressor on the other
  // side: on success something is left, it is no longer than the space, and it
  // stands for a beginning of the data.
  ghost predicate SoundOne(x: Compressors.Compressor, dec: Decompressor) {
    x.kind != 0 &&
    forall data: seq<byte>, space: nat :: x.compress(data, space).Coded? ==>
      SoundResult(x.kind, dec, data, space, x.compress(data, space))
  }

  ghost predicate SoundResult(kind: byte, dec: Decompressor, data: seq<byte>, space: nat, r: Compressors.Coded)
    requires r.Coded?
  {
    0 < |r.bytes| <= space && 0 < r.taken <= |data| && dec(kind, r.bytes, r.taken) == data[..r.taken]
  }

  ghost predicate Sound(list: seq<Compressors.Compressor>, dec: Decompressor) {
    forall i :: 0 <= i < |list| ==> SoundOne(list[i], dec)
  }

  lemma SoundIsProductive(list: seq<Compressors.Compressor>, dec: Decompressor, data: seq<byte>, space: nat)
    requires Sound(list, dec)
    ensures Compressors.Productive(list, data, space)
  {
    forall i | 0 <= i < |list| && Compressors.Tried(list[i], data, space).Coded?
      ensures |Compressors.Tried(list[i], data, space).bytes| > 0
    {
      assert SoundOne(list[i], dec);
      assert SoundResult(list[i].kind, dec, data, space, list[i].compress(data, space));
    }
  }

  // Whatever compressor is chosen, or none: what is stored stands for a
  // beginning of the data and fits into the space.
  lemma AnswerIsSound(mode: ComprChoice.Mode, list: seq<Compressors.Compressor>, dec: Decompressor, data: seq<byte>,
          space: nat, kind: byte, cdata: seq<byte>, datalen: nat, cdatalen: nat)
    requires Sound(list, dec) && 0 < space <= |data|
    requires var k := Compressors.Selected(mode, list, data, space);
      if k == -1 then
        kind == 0 && cdata == data && datalen == cdatalen &&
        (cdatalen == space || cdatalen == Compressors.LengthLeft(list, data, space, |list|))
      else
        kind == list[k].kind && cdatalen == |cdata| &&
        Compressors.Coded(datalen, cdata) == Compressors.Tried(list[k], data, space)
    ensures 0 < cdatalen <= space && cdatalen <= |cdata|
    ensures kind == 0 ==> cdata == data
    ensures kind != 0 ==>
      0 < datalen <= |data| && cdata[..cdatalen] == cdata && dec(kind, cdata, datalen) == data[..datalen]
  {
    var pick := Compressors.Selected(mode, list, data, space);
    if pick != -1 {
      assert SoundOne(list[pick], dec);
      assert SoundResult(list[pick].kind, dec, data, space, list[pick].compress(data, space));
    } else if cdatalen != space {
      var i := Compressors.LengthIsSome(list, data, space, |list|);
      assert SoundOne(list[i], dec);
      assert SoundResult(list[i].kind, dec, data, space, list[i].compress(data, space));
    }
  }

  function DirentFields(nsize: byte, pino: u32, version: u32, ino: u32, mctime: u32, dtype: byte): (r: seq<Field>)
    ensures AllProper(r) && |r| == 8 && Widths(r) == DIRENT_WIDTHS
  {
    [Field(4, pino), Field(4, version), Field(4, ino), Field(4, mctime), Field(1, nsize), Field(1, dtype),
      Field(1, 0), Field(1, 0)]
  }

  function DirentNode(name: seq<byte>, pino: u32, version: u32, ino: u32, mctime: u32, dtype: byte): Node
    requires |name| < 256
  {
    Dirent(DIRENT_SIZE + |name|, DirentFields(|name|, pino, version, ino, mctime, dtype), |name|,
      name + Ones(Padded(|name|) - |name|))
  }

  function InodeNode(ino: u32, version: u32, st: Stat, isize: u32, offset: u32, dsize: u32, compr: byte,
          data: seq<byte>): Node
    requires |data| < 0x7000_0000
  {
    Inode(INODE_SIZE + |data|, InodeFields(ino, version, st, isize, offset, |data|, dsize, compr), |data|,
      data + Ones(Padded(|data|) - |data|))
  }
}
