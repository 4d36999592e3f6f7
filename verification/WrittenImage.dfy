// An image of mkfs.jffs2 under the eyes of jffs2reader: which cells it is made
// of, that collectdir comes to an end on it, and what it lists.
module WrittenImages {
  import opened Bytes
  import opened Summaries
  import opened EndianNodes
  import opened EndianImages
  import opened ImageLog
  import Cells = Jffs2Log
  import Jffs2Dir
  import Jffs2Replay
  import Jffs2Reader
  import FileData
  import Mkfs

  // What the reader makes of a node of that length.
  function CellFor(totlen: u32, xs: seq<Entry>): Cells.Cell {
    if xs != [] && xs[0].DirentEntry? then
      Cells.Node(Cells.Dirent(totlen, xs[0].pino, xs[0].version, xs[0].ino, xs[0].dtype, xs[0].name))
    else if xs != [] && xs[0].InodeEntry? then Cells.Node(Cells.Inode(totlen, xs[0].ino, xs[0].version))
    else Cells.Node(Cells.Other(totlen))
  }

  // The cell at the front of t, read through union jffs2_node_union.
  ghost function CellAt(o: Order, t: seq<byte>): Cells.Cell {
    if |t| < UNKNOWN_SIZE || Get16(o, t, 0) != MAGIC then Cells.Filler
    else CellFor(Get32(o, t, 4), Seen(o, t, Get32(o, t, 4), 0))
  }

  ghost function ImageOf(o: Order, bytes: seq<byte>): (r: Cells.Image)
    ensures |r| == |bytes| / 4
  {
    seq(|bytes| / 4, i requires 0 <= i < |bytes| / 4 => CellAt(o, bytes[4 * i..]))
  }

  predicate IsWord(x: Node) {
    x.Empty? || x.WrongBitmask?
  }

  function CellOf(x: Node): Cells.Cell
    requires Good(x)
  {
    if IsWord(x) then Cells.Filler else CellFor(x.totlen, ListedAs(x, 0))
  }

  lemma NodeCell(o: Order, crc: seq<byte> -> u32, x: Node, rest: seq<byte>)
    requires Good(x) && Aligned(x)
    ensures CellAt(o, Encode(o, crc, x) + rest) == CellOf(x)
  {
    hide Encode, Good, Seen, ListedAs, Get16, Get32, Size;
    if IsWord(x) {
      WordScanned(o, crc, x, rest);
    } else {
      TotlenFits(o, crc, x, rest);
      if x.Inode? {
        InodeListed(o, crc, x, rest, 0);
      } else if x.Dirent? {
        DirentListed(o, crc, x, rest, 0);
      } else {
        OtherListed(o, crc, x, rest, 0);
        NotListed(x, 0);
      }
    }
  }

  // A log as it is written: nodes of whole words, without summaries.
  ghost predicate Clean(log: seq<Node>) {
    AllGood(log) && Plain(log) && Total(log) < 0x8000_0000 && forall i :: 0 <= i < |log| ==> Size(log[i]) % 4 == 0
  }

  // Where node i begins, in cells.
  ghost function At(log: seq<Node>, i: nat): nat
    requires i <= |log|
  {
    Total(log[..i]) / 4
  }

  // The next node begins where this one ends, and the image reaches that far.
  lemma AtNext(log: seq<Node>, i: nat)
    requires Clean(log) && i < |log|
    ensures Total(log[..i + 1]) == Total(log[..i]) + Size(log[i]) <= Total(log)
    ensures Total(log[..i]) % 4 == 0 && At(log, i + 1) == At(log, i) + Size(log[i]) / 4 && At(log, i) < At(log, i + 1)
  {
    hide *;
    AllWholeWords(log, i);
    TotalNext(log, i);
    SizeThere(log, i);
    Quarters(Total(log[..i]), Size(log[i]));
    AtIs(log, i);
    AtIs(log, i + 1);
  }

  lemma AtIs(log: seq<Node>, i: nat)
    requires i <= |log|
    ensures At(log, i) == Total(log[..i]) / 4
  {
  }

  lemma TotalNext(log: seq<Node>, i: nat)
    requires i < |log|
    ensures Total(log[..i + 1]) == Total(log[..i]) + Size(log[i]) <= Total(log)
  {
    hide Size;
    assert log[..i + 1][..i] == log[..i];
    assert log == log[..i + 1] + log[i + 1..];
    TotalJoin(log[..i + 1], log[i + 1..]);
  }

  lemma Quarters(a: nat, b: nat)
    requires a % 4 == 0 && b % 4 == 0
    ensures (a + b) / 4 == a / 4 + b / 4 && (b >= 4 ==> b / 4 > 0)
  {
  }

  lemma SizeThere(log: seq<Node>, i: nat)
    requires Clean(log) && i < |log|
    ensures Size(log[i]) % 4 == 0 && Size(log[i]) >= 4
  {
    hide Size, Good;
    GoodSize(log[i]);
  }

  lemma GoodSize(x: Node)
    requires Good(x)
    ensures Size(x) >= 4
  {
  }

  lemma {:induction false} AllWholeWords(log: seq<Node>, i: nat)
    requires Clean(log) && i <= |log|
    ensures Total(log[..i]) % 4 == 0
  {
    hide Size, Good;
    if i > 0 {
      AllWholeWords(log, i - 1);
      assert log[..i][..i - 1] == log[..i - 1];
    }
  }

  // The cell where node i begins is what the reader makes of that node.
  lemma CellThere(o: Order, crc: seq<byte> -> u32, log: seq<Node>, i: nat)
    requires Clean(log) && i < |log|
    ensures var img := ImageOf(o, EncodeAll(o, crc, log));
      |img| == At(log, |log|) && At(log, i) < |img| && img[At(log, i)] == CellOf(log[i])
  {
    hide Good, Size, CellAt, CellOf, Encode, Total;
    var bytes := EncodeAll(o, crc, log);
    EncodedTotal(o, crc, log);
    AtNext(log, i);
    assert log[..|log|] == log;
    AllWholeWords(log, |log|);
    assert log == log[..i] + log[i..] && log[i..][1..] == log[i + 1..];
    EncodeJoin(o, crc, log[..i], log[i..]);
    EncodedTotal(o, crc, log[..i]);
    IsAligned(log, i);
    NodeCell(o, crc, log[i], EncodeAll(o, crc, log[i + 1..]));
    assert bytes[4 * At(log, i)..] == Encode(o, crc, log[i]) + EncodeAll(o, crc, log[i + 1..]);
  }

  lemma IsAligned(log: seq<Node>, i: nat)
    requires Plain(log) && i < |log|
    ensures Aligned(log[i])
  {
  }

  // The nodes that are not words, from i on: their indices and their places.
  ghost function Kept(log: seq<Node>, i: nat): seq<nat>
    requires i <= |log|
    decreases |log| - i
  {
    if i == |log| then [] else (if IsWord(log[i]) then [] else [i]) + Kept(log, i + 1)
  }

  ghost function Places(log: seq<Node>, ks: seq<nat>): (r: seq<nat>)
    requires forall k :: 0 <= k < |ks| ==> ks[k] <= |log|
    ensures |r| == |ks|
  {
    seq(|ks|, k requires 0 <= k < |ks| => At(log, ks[k]))
  }

  lemma {:induction false} KeptIs(log: seq<Node>, i: nat)
    requires i <= |log|
    ensures forall k :: 0 <= k < |Kept(log, i)| ==> i <= Kept(log, i)[k] < |log| && !IsWord(log[Kept(log, i)[k]])
    ensures forall k, m :: 0 <= k < m < |Kept(log, i)| ==> Kept(log, i)[k] < Kept(log, i)[m]
    ensures forall j :: i <= j < |log| && !IsWord(log[j]) ==> j in Kept(log, i)
    decreases |log| - i
  {
    hide IsWord;
    if i < |log| { KeptIs(log, i + 1); }
  }

  lemma KeptNext(log: seq<Node>, i: nat)
    requires i <= |log|
    ensures Kept(log, i) ==
      if i == |log| then [] else if IsWord(log[i]) then Kept(log, i + 1) else [i] + Kept(log, i + 1)
  {
  }

  lemma NoPlaces(log: seq<Node>)
    ensures Places(log, []) == []
  {
  }

  lemma PlacesMore(log: seq<Node>, i: nat, ks: seq<nat>)
    requires i <= |log| && forall k :: 0 <= k < |ks| ==> ks[k] <= |log|
    ensures forall k :: 0 <= k < |[i] + ks| ==> ([i] + ks)[k] <= |log|
    ensures Places(log, [i] + ks) == [At(log, i)] + Places(log, ks)
  {
    hide At;
  }

  // A scan from node i on meets exactly those.
  lemma {:induction false} ScanFrom(o: Order, crc: seq<byte> -> u32, log: seq<Node>, i: nat)
    requires Clean(log) && i <= |log|
    ensures forall k :: 0 <= k < |Kept(log, i)| ==> Kept(log, i)[k] <= |log|
    ensures var img := ImageOf(o, EncodeAll(o, crc, log));
      |img| == At(log, |log|) && Cells.Parses(img, At(log, i)) &&
      Cells.Starts(img, At(log, i)) == Places(log, Kept(log, i))
    decreases |log| - i
  {
    hide ImageOf, EncodeAll, CellOf, AllGood, Good, Plain, Size, At, IsWord, Cells.Parses, Cells.Starts, Kept, Places,
      Total;
    var img := ImageOf(o, EncodeAll(o, crc, log));
    KeptIs(log, i);
    KeptNext(log, i);
    ImageLength(o, crc, log);
    if i == |log| {
      AtTheEnd(img);
      NoPlaces(log);
    } else {
      KeptIs(log, i + 1);
      CellThere(o, crc, log, i);
      AtNext(log, i);
      ScanFrom(o, crc, log, i + 1);
      if IsWord(log[i]) {
        OverWord(o, crc, log, i);
      } else {
        OverNode(o, crc, log, i);
        PlacesMore(log, i, Kept(log, i + 1));
      }
    }
  }

  lemma ImageLength(o: Order, crc: seq<byte> -> u32, log: seq<Node>)
    requires Clean(log)
    ensures |ImageOf(o, EncodeAll(o, crc, log))| == At(log, |log|)
  {
    hide Good, Size;
    EncodedTotal(o, crc, log);
    assert log[..|log|] == log;
  }

  lemma AtTheEnd(img: Cells.Image)
    ensures Cells.Parses(img, |img|) && Cells.Starts(img, |img|) == []
  {
  }

  lemma OverWord(o: Order, crc: seq<byte> -> u32, log: seq<Node>, i: nat)
    requires Clean(log) && i < |log| && IsWord(log[i])
    requires var img := ImageOf(o, EncodeAll(o, crc, log));
      At(log, i) < |img| && img[At(log, i)] == CellOf(log[i]) && Cells.Parses(img, At(log, i + 1))
    ensures var img := ImageOf(o, EncodeAll(o, crc, log));
      Cells.Parses(img, At(log, i)) && Cells.Starts(img, At(log, i)) == Cells.Starts(img, At(log, i + 1))
  {
    hide ImageOf, EncodeAll;
    AtNext(log, i);
  }

  lemma OverNode(o: Order, crc: seq<byte> -> u32, log: seq<Node>, i: nat)
    requires Clean(log) && i < |log| && !IsWord(log[i])
    requires var img := ImageOf(o, EncodeAll(o, crc, log));
      At(log, i) < |img| && img[At(log, i)] == CellOf(log[i]) && Cells.Parses(img, At(log, i + 1))
    ensures var img := ImageOf(o, EncodeAll(o, crc, log));
      Cells.Parses(img, At(log, i)) && Cells.Starts(img, At(log, i)) == [At(log, i)] + Cells.Starts(img, At(log, i + 1))
  {
    hide ImageOf, EncodeAll, Clean, At, Good, ListedAs;
    AtNext(log, i);
    EndThere(log, i);
  }

  // The reader goes on from a node to where the next one begins.
  lemma EndThere(log: seq<Node>, i: nat)
    requires Clean(log) && i < |log| && !IsWord(log[i])
    ensures CellOf(log[i]).Node? && CellOf(log[i]).node.totlen == log[i].totlen
    ensures At(log, i) + Cells.Cells(log[i].totlen) == At(log, i + 1)
  {
    hide ListedAs, At, Total;
    AtNext(log, i);
  }

  // ---- directory entries ------------------------------------------------------

  // The number of the directory entry at node j.
  ghost function Number(log: seq<Node>, j: nat): nat
    requires j <= |log|
  {
    |Dirents(log[..j])|
  }

  lemma {:induction false} DirentAt(log: seq<Node>, j: nat)
    requires j < |log| && log[j].Dirent?
    ensures Number(log, j) < |Dirents(log)| && Dirents(log)[Number(log, j)] == log[j]
    decreases |log|
  {
    var front := log[..|log| - 1];
    if j < |front| {
      DirentAt(front, j);
      assert front[..j] == log[..j];
    }
  }

  lemma {:induction false} NumbersGrow(log: seq<Node>, i: nat, j: nat)
    requires i < j <= |log| && log[i].Dirent?
    ensures Number(log, i) < Number(log, j)
    decreases j
  {
    assert log[..j][..j - 1] == log[..j - 1];
    if i < j - 1 { NumbersGrow(log, i, j - 1); }
  }

  lemma {:induction false} DirentIndex(log: seq<Node>, d: nat) returns (j: nat)
    requires d < |Dirents(log)|
    ensures j < |log| && log[j].Dirent? && Number(log, j) == d
  {
    var front := log[..|log| - 1];
    if d < |Dirents(front)| {
      j := DirentIndex(front, d);
      assert front[..j] == log[..j];
    } else {
      j := |log| - 1;
    }
  }

  // What the reader sees of a numbered entry.
  function Visible(x: Node): Cells.RawNode
    requires x.Dirent? && |x.mid| == 8
  {
    Cells.Dirent(x.totlen, x.mid[0].value, x.mid[1].value, x.mid[2].value, x.mid[5].value, NameOf(x))
  }

  function NameOf(x: Node): seq<byte>
    requires x.Dirent?
  {
    if x.nsize <= |x.name| then x.name[..x.nsize] else x.name
  }

  lemma EntryCell(x: Node, number: nat)
    requires Good(x) && IsEntry(x, number)
    ensures CellOf(x) == Cells.Node(Visible(x)) && Visible(x).version == number % 0x1_0000_0000
  {
  }

  lemma OnlyDirents(x: Node)
    requires Good(x) && CellOf(x).Node? && CellOf(x).node.Dirent?
    ensures x.Dirent?
  {
  }

  // The log as a whole: clean, and its entries numbered without wrapping.
  ghost predicate Sequenced(log: seq<Node>) {
    Clean(log) && |Dirents(log)| < 0xffff_ffff && Numbered(Dirents(log), |Dirents(log)|)
  }

  lemma Scanned(o: Order, crc: seq<byte> -> u32, log: seq<Node>, pino: u32)
    requires Clean(log)
    ensures forall k :: 0 <= k < |Kept(log, 0)| ==> Kept(log, 0)[k] < |log|
    ensures var img := ImageOf(o, EncodeAll(o, crc, log));
      Cells.Parses(img, 0) && Jffs2Reader.LogOf(img, pino).ns == Places(log, Kept(log, 0))
  {
    hide ImageOf, EncodeAll, Good, Size, Cells.Parses, Cells.Starts, Kept;
    KeptIs(log, 0);
    ScanFrom(o, crc, log, 0);
    NothingBefore(log);
  }

  // Node k of the scan is node ks[k] of the log.
  lemma Met(o: Order, crc: seq<byte> -> u32, log: seq<Node>, pino: u32, k: nat)
    requires Clean(log) && k < |Kept(log, 0)|
    ensures Cells.Parses(ImageOf(o, EncodeAll(o, crc, log)), 0)
    ensures var img, j := ImageOf(o, EncodeAll(o, crc, log)), Kept(log, 0)[k];
      var l := Jffs2Reader.LogOf(img, pino);
      j < |log| && k < |l.ns| && l.ns[k] == At(log, j) < |img| && img[l.ns[k]] == CellOf(log[j])
  {
    hide ImageOf, EncodeAll, Good, Size, Cells.Parses, Cells.Starts, Kept, At, CellOf;
    Scanned(o, crc, log, pino);
    CellThere(o, crc, log, Kept(log, 0)[k]);
  }

  // A dirent the scan meets is a directory entry of the log, and its version is
  // its number.
  lemma MetEntry(o: Order, crc: seq<byte> -> u32, log: seq<Node>, pino: u32, k: nat)
    requires Sequenced(log) && k < |Kept(log, 0)|
    ensures Cells.Parses(ImageOf(o, EncodeAll(o, crc, log)), 0)
    ensures var img, j := ImageOf(o, EncodeAll(o, crc, log)), Kept(log, 0)[k];
      var l := Jffs2Reader.LogOf(img, pino);
      k < |l.ns| && l.ns[k] < |img| && j < |log| &&
      (Jffs2Replay.IsDirentOf(img[l.ns[k]], pino) ==>
        log[j].Dirent? && |log[j].mid| == 8 && Number(log, j) < |Dirents(log)| &&
        Dirents(log)[Number(log, j)] == log[j] &&
        img[l.ns[k]] == Cells.Node(Visible(log[j])) && img[l.ns[k]].node.version == Number(log, j))
  {
    hide ImageOf, EncodeAll, Good, Size, Cells.Parses, Cells.Starts, Kept, At, CellOf, NameOf;
    Met(o, crc, log, pino, k);
    var img, j := ImageOf(o, EncodeAll(o, crc, log)), Kept(log, 0)[k];
    var l := Jffs2Reader.LogOf(img, pino);
    if Jffs2Replay.IsDirentOf(img[l.ns[k]], pino) {
      OnlyDirents(log[j]);
      DirentAt(log, j);
      EntryCell(log[j], Number(log, j));
    }
  }

  // Every directory of the image can be read.
  lemma WellFormedImage(o: Order, crc: seq<byte> -> u32, log: seq<Node>, pino: u32)
    requires Sequenced(log)
    ensures Jffs2Reader.WellFormed(ImageOf(o, EncodeAll(o, crc, log)), pino)
  {
    hide ImageOf, EncodeAll, Good, Size, Cells.Parses, Cells.Starts, Cells.Layout, Kept, At, CellOf, NameOf;
    var img := ImageOf(o, EncodeAll(o, crc, log));
    Scanned(o, crc, log, pino);
    KeptIs(log, 0);
    Cells.StartsLayout(img, 0);
    var l := Jffs2Reader.LogOf(img, pino);
    forall k: nat | l.Ours(k)
      ensures l.Version(k) == Number(log, Kept(log, 0)[k]) < 0xffff_ffff && log[Kept(log, 0)[k]].Dirent?
    {
      MetEntry(o, crc, log, pino, k);
    }
    forall k: nat, m: nat | l.Ours(k) && l.Ours(m) && k < m
      ensures l.Version(k) != l.Version(m)
    {
      NumbersGrow(log, Kept(log, 0)[k], Kept(log, 0)[m]);
    }
  }

  // There is fill in front of node j.
  predicate AfterFill(log: seq<Node>, j: nat)
    requires j < |log|
  {
    j > 0 && log[j - 1].Empty?
  }

  // No entry has fill in front of it.
  ghost predicate Compact(log: seq<Node>) {
    forall i :: 0 <= i < |log| && log[i].Dirent? ==> !AfterFill(log, i)
  }

  // With cleanmarkers what follows fill is a cleanmarker.
  lemma MarkersCompact(e: nat, log: seq<Node>)
    requires e > 0 && Laid(e, true, log) && Tight(e, log)
    ensures Compact(log)
  {
    hide Laid, Size, Total;
    forall i | 0 <= i < |log| && log[i].Dirent?
      ensures !AfterFill(log, i)
    {
      LaidAt(e, true, log, i);
    }
  }

  lemma {:induction false} AtGrows(log: seq<Node>, i: nat, j: nat)
    requires Clean(log) && i <= j <= |log|
    ensures At(log, i) <= At(log, j) && (At(log, i) == At(log, j) <==> i == j)
    decreases j
  {
    hide At, Clean;
    if i < j {
      AtGrows(log, i, j - 1);
      AtNext(log, j - 1);
    }
  }

  // Behind the node kept before node j there are only words.
  lemma WordsBetween(log: seq<Node>, k: nat)
    requires k < |Kept(log, 0)|
    ensures forall m :: 0 <= m <= k ==> Kept(log, 0)[m] < |log|
    ensures var j := Kept(log, 0)[k]; var from := if k == 0 then 0 else Kept(log, 0)[k - 1] + 1;
      from <= j && (from < j ==> IsWord(log[j - 1])) && (from == j > 0 ==> !IsWord(log[j - 1]))
  {
    hide Kept;
    KeptIs(log, 0);
    var ks := Kept(log, 0);
    var j := ks[k];
    if j > 0 && !IsWord(log[j - 1]) {
      var m :| 0 <= m < |ks| && ks[m] == j - 1;
    }
  }

  // A node of the scan is flush exactly if there is no fill in front of it.
  lemma FlushExactly(o: Order, crc: seq<byte> -> u32, log: seq<Node>, pino: u32, k: nat)
    requires Clean(log) && k < |Kept(log, 0)|
    ensures Kept(log, 0)[k] < |log| && Cells.Parses(ImageOf(o, EncodeAll(o, crc, log)), 0)
    ensures var l := Jffs2Reader.LogOf(ImageOf(o, EncodeAll(o, crc, log)), pino);
      k < |l.ns| && Cells.Nodes(l.img, l.ns) && (l.Flush(k) <==> !AfterFill(log, Kept(log, 0)[k]))
  {
    hide ImageOf, EncodeAll, AllGood, Size, Cells.Parses, Cells.Starts, Cells.Layout, Kept, At, CellOf;
    var img := ImageOf(o, EncodeAll(o, crc, log));
    Scanned(o, crc, log, pino);
    var l := Jffs2Reader.LogOf(img, pino);
    Cells.StartsLayout(img, 0);
    LayoutNodes(img, l.ns);
    Met(o, crc, log, pino, k);
    WordsBetween(log, k);
    var j := Kept(log, 0)[k];
    if k == 0 {
      NothingBefore(log);
      AtGrows(log, 0, j);
    } else {
      var i := Kept(log, 0)[k - 1];
      Met(o, crc, log, pino, k - 1);
      KeptIs(log, 0);
      EndThere(log, i);
      AtGrows(log, i + 1, j);
    }
  }

  lemma NothingBefore(log: seq<Node>)
    ensures At(log, 0) == 0
  {
    assert log[..0] == [];
  }

  // Every dirent begins where the node before it ends, so collectdir returns.
  lemma CompactReturns(o: Order, crc: seq<byte> -> u32, log: seq<Node>, pino: u32)
    requires Sequenced(log) && Compact(log)
    ensures var img := ImageOf(o, EncodeAll(o, crc, log));
      Jffs2Reader.WellFormed(img, pino) && Jffs2Reader.Returns(img, pino)
  {
    hide ImageOf, EncodeAll, Good, Size, Cells.Parses, Cells.Starts, Cells.Layout, Kept, At, CellOf, NameOf,
      Jffs2Replay.Gapless, Jffs2Replay.Log.IsMax;
    var img := ImageOf(o, EncodeAll(o, crc, log));
    WellFormedImage(o, crc, log, pino);
    Scanned(o, crc, log, pino);
    var l := Jffs2Reader.LogOf(img, pino);
    Jffs2Replay.ValidNodes(l);
    forall w | l.Has(w)
      ensures l.Flush(l.At(w))
    {
      MetEntry(o, crc, log, pino, l.At(w));
      FlushExactly(o, crc, log, pino, l.At(w));
    }
  }

  // All directory entries are in one directory, and node j is the last of them.
  ghost predicate OneDirectory(log: seq<Node>, pino: u32, j: nat) {
    Sequenced(log) && |Dirents(log)| >= 2 && j < |log| && log[j].Dirent? && Number(log, j) == |Dirents(log)| - 1 &&
    forall d :: 0 <= d < |Dirents(log)| ==> Visible(Dirents(log)[d]).pino == pino
  }

  // Where the scan meets entry d.
  lemma MeetsEntry(o: Order, crc: seq<byte> -> u32, log: seq<Node>, pino: u32, j: nat) returns (k: nat)
    requires Sequenced(log) && j < |log| && log[j].Dirent? && Number(log, j) > 0
    requires Number(log, j) < |Dirents(log)| ==> Visible(Dirents(log)[Number(log, j)]).pino == pino
    requires Cells.Parses(ImageOf(o, EncodeAll(o, crc, log)), 0)
    ensures var l := Jffs2Reader.LogOf(ImageOf(o, EncodeAll(o, crc, log)), pino);
      k < |Kept(log, 0)| && Kept(log, 0)[k] == j && l.Ours(k) && l.Version(k) == Number(log, j)
  {
    hide ImageOf, EncodeAll, AllGood, Good, Size, Cells.Parses, Cells.Starts, Kept, At, CellOf, NameOf;
    KeptIs(log, 0);
    DirentAt(log, j);
    assert !IsWord(log[j]);
    k :| 0 <= k < |Kept(log, 0)| && Kept(log, 0)[k] == j;
    Met(o, crc, log, pino, k);
    GoodAt(log, j);
    EntryCell(log[j], Number(log, j));
  }

  lemma GoodAt(log: seq<Node>, j: nat)
    requires AllGood(log) && j < |log|
    ensures Good(log[j])
  {
  }

  // Such a directory is listed if and only if its last entry is not behind fill.
  lemma LastEntryDecides(o: Order, crc: seq<byte> -> u32, log: seq<Node>, pino: u32, j: nat)
    requires OneDirectory(log, pino, j)
    ensures var img := ImageOf(o, EncodeAll(o, crc, log));
      Jffs2Reader.WellFormed(img, pino) && (Jffs2Reader.Returns(img, pino) <==> !AfterFill(log, j))
  {
    hide ImageOf, EncodeAll, AllGood, Good, Size, Cells.Parses, Cells.Starts, Cells.Layout, Kept, At, CellOf, NameOf,
      Visible;
    var img, w := ImageOf(o, EncodeAll(o, crc, log)), |Dirents(log)| - 1;
    WellFormedImage(o, crc, log, pino);
    Scanned(o, crc, log, pino);
    var l := Jffs2Reader.LogOf(img, pino);
    forall v: nat
      ensures l.Has(v) <==> 1 <= v <= w
    {
      VersionsAre(o, crc, log, pino, j, v);
    }
    Jffs2Reader.SequenceReturns(img, pino, w);
    var k := l.At(w);
    MetEntry(o, crc, log, pino, k);
    var i := Kept(log, 0)[k];
    if i < j { NumbersGrow(log, i, j); } else if j < i { NumbersGrow(log, j, i); }
    FlushExactly(o, crc, log, pino, k);
  }

  lemma VersionsAre(o: Order, crc: seq<byte> -> u32, log: seq<Node>, pino: u32, j: nat, v: nat)
    requires OneDirectory(log, pino, j) && Cells.Parses(ImageOf(o, EncodeAll(o, crc, log)), 0)
    ensures Jffs2Reader.LogOf(ImageOf(o, EncodeAll(o, crc, log)), pino).Has(v) <==> 1 <= v <= |Dirents(log)| - 1
  {
    hide ImageOf, EncodeAll, AllGood, Good, Size, Cells.Parses, Cells.Starts, Cells.Layout, Kept, At, CellOf, NameOf,
      Visible;
    Scanned(o, crc, log, pino);
    var l := Jffs2Reader.LogOf(ImageOf(o, EncodeAll(o, crc, log)), pino);
    if l.Has(v) {
      MetEntry(o, crc, log, pino, l.At(v));
    } else if 1 <= v <= |Dirents(log)| - 1 {
      var i := DirentIndex(log, v);
      var k := MeetsEntry(o, crc, log, pino, i);
      Jffs2Replay.HasIt(l, k);
    }
  }

  // Entry d is the last one of its name in its directory.
  ghost predicate LastOfName(log: seq<Node>, d: nat)
    requires Sequenced(log)
  {
    d < |Dirents(log)| &&
    forall i :: d < i < |Dirents(log)| ==>
      !(Visible(Dirents(log)[i]).pino == Visible(Dirents(log)[d]).pino &&
        Visible(Dirents(log)[i]).name == Visible(Dirents(log)[d]).name)
  }

  // What is listed for a name is the last entry written for it, unless that is
  // the very first entry of the image, which is not listed at all.
  lemma EntryListed(o: Order, crc: seq<byte> -> u32, log: seq<Node>, d: nat, r: seq<Jffs2Dir.Entry>)
    requires Sequenced(log) && LastOfName(log, d)
    requires var n := Visible(Dirents(log)[d]);
      Jffs2Reader.WellFormed(ImageOf(o, EncodeAll(o, crc, log)), n.pino) &&
      Jffs2Reader.Listing(ImageOf(o, EncodeAll(o, crc, log)), n.pino, [], r)
    ensures var n := Visible(Dirents(log)[d]);
      Jffs2Dir.Lookup(r, n.name) == Jffs2Reader.AsEntry(n) <==> d > 0 || n.ino == 0
  {
    hide ImageOf, EncodeAll, Good, Size, Cells.Parses, Cells.Starts, Cells.Layout, Kept, At, CellOf,
      Jffs2Reader.Listing, Jffs2Dir.Lookup, Jffs2Reader.WellFormed;
    var img, n := ImageOf(o, EncodeAll(o, crc, log)), Visible(Dirents(log)[d]);
    var j := DirentIndex(log, d);
    Scanned(o, crc, log, n.pino);
    KeptIs(log, 0);
    assert !IsWord(log[j]);
    var k: nat :| k < |Kept(log, 0)| && Kept(log, 0)[k] == j;
    DirentAt(log, j);
    Met(o, crc, log, n.pino, k);
    EntryCell(log[j], d);
    NewestIs(o, crc, log, d, k);
    Jffs2Reader.VersionZeroIsUnseen(img, n.pino, n.name, r, k);
  }

  lemma NewestIs(o: Order, crc: seq<byte> -> u32, log: seq<Node>, d: nat, k: nat)
    requires Sequenced(log) && LastOfName(log, d) && k < |Kept(log, 0)| && Kept(log, 0)[k] < |log|
    requires log[Kept(log, 0)[k]] == Dirents(log)[d] && Number(log, Kept(log, 0)[k]) == d
    ensures var img, n := ImageOf(o, EncodeAll(o, crc, log)), Visible(Dirents(log)[d]);
      Cells.Parses(img, 0) && Jffs2Reader.NewestWritten(Jffs2Reader.LogOf(img, n.pino), n.name, k)
  {
    hide ImageOf, EncodeAll, Good, Size, Cells.Parses, Cells.Starts, Cells.Layout, Kept, At, CellOf;
    var img, n := ImageOf(o, EncodeAll(o, crc, log)), Visible(Dirents(log)[d]);
    Scanned(o, crc, log, n.pino);
    Cells.StartsLayout(img, 0);
    var l := Jffs2Reader.LogOf(img, n.pino);
    assert Cells.Nodes(l.img, l.ns) by { assert Cells.Layout(img, l.ns, 0); LayoutNodes(img, l.ns); }
    Met(o, crc, log, n.pino, k);
    EntryCell(Dirents(log)[d], d);
    forall i | 0 <= i < |l.ns| && Jffs2Reader.Carries(l, n.name, i)
      ensures l.img[l.ns[i]].node.version <= d
    {
      MetEntry(o, crc, log, n.pino, i);
    }
  }

  lemma LayoutNodes(img: Cells.Image, ns: seq<nat>)
    requires Cells.Layout(img, ns, 0)
    ensures Cells.Nodes(img, ns)
  {
  }

  // ---- what mkfs.jffs2 writes --------------------------------------------------

  // collectdir returns on every directory of an image with cleanmarkers.
  lemma WrittenReturns(w: Mkfs.Writer, pino: u32)
    requires w.Valid() && w.Counted() && |w.out| < 0x8000_0000 && |Dirents(w.log)| < 0xffff_ffff
    ensures w.out == EncodeAll(w.o, w.crc, w.log) && Sequenced(w.log)
    ensures Jffs2Reader.WellFormed(ImageOf(w.o, w.out), pino)
    ensures w.addCleanmarkers ==> Jffs2Reader.Returns(ImageOf(w.o, w.out), pino)
  {
    hide ImageOf, EncodeAll, Good, Size, Total, Jffs2Reader.WellFormed, Laid, Tight, Plain, Settled, UpTo, Compact,
      IsEntry;
    forall i | 0 <= i < |w.log|
      ensures Size(w.log[i]) % 4 == 0
    {
      LaidAt(w.e, w.addCleanmarkers, w.log, i);
    }
    WellFormedImage(w.o, w.crc, w.log, pino);
    if w.addCleanmarkers {
      MarkersCompact(w.e, w.log);
      CompactReturns(w.o, w.crc, w.log, pino);
    }
  }

  const DT_FIFO: byte := 1

  // A pipe with a name of 255 bytes takes 364 bytes. 22 of them leave less room
  // in a block than the next entry takes.
  ghost predicate Pipes(w: Mkfs.Writer, i: nat)
    reads w
  {
    w.Valid() && w.Counted() && w.e == 8192 && !w.addCleanmarkers && w.ino == 1 + i &&
    |Dirents(w.log)| == i && AllIn(Dirents(w.log), 1)
  }

  ghost predicate AllIn(ds: seq<Node>, pino: u32) {
    forall d :: 0 <= d < |ds| ==> ds[d].Dirent? && |ds[d].mid| == 8 && ds[d].mid[0].value == pino
  }

  lemma OnePipe(w: Mkfs.Writer, i: nat)
    requires w.e == 8192 && !w.addCleanmarkers && i <= 22
    ensures w.Reach(w.Reach(364 * i, 295), 68) == if i < 22 then 364 * (i + 1) else 8192 + 364
    ensures Pos(8192, 364 * i) + 295 > 8192 <==> i == 22
  {
    assert Padded(295) == 296 && Padded(68) == 68;
    InBlock(364 * i);
    if i < 22 {
      InBlock(364 * i + 296);
    } else {
      assert w.Reach(8008, 295) == 8192 + 296 && Pos(8192, 8488) == 296;
    }
  }

  lemma InBlock(at: nat)
    requires at < 8192
    ensures Pos(8192, at) == at
  {
  }

  lemma PipeEntry(ds: seq<Node>, name: seq<byte>, version: u32, ino: u32, mtime: u32)
    requires AllIn(ds, 1) && |name| < 256
    ensures var x := Mkfs.DirentNode(name, 1, version, ino, mtime, DT_FIFO);
      AllIn(ds + [x], 1) && x.mid[1].value == version
  {
  }

  method WritePipe(w: Mkfs.Writer, i: nat, st: FileData.Stat) returns (ghost at: nat)
    requires Pipes(w, i) && i <= 22 && |w.out| == 364 * i
    modifies w
    ensures Pipes(w, i + 1) && |w.out| == if i < 22 then 364 * (i + 1) else 8192 + 364
    ensures at < |w.log| && w.log[at].Dirent? && |w.log[at].mid| == 8 && w.log[at].mid[1].value == i
    ensures i == 22 ==> at > 0 && w.log[at - 1].Empty?
  {
    hide Mkfs.Writer.Valid, Numbered, Dirents, Pos, AllIn, FileNodes, Mkfs.DirentNode, Mkfs.InodeNode, Padded;
    OnePipe(w, i);
    CountIs(w);
    ghost var ds, version := Dirents(w.log), w.direntVersion;
    var name := [i as byte] + seq(254, _ => 97);
    at := w.WriteSpecialFile([], st, 0, name, 1, DT_FIFO);
    PipeEntry(ds, name, version, w.ino, st.mtime);
    EntryShape(w.log[at], name, version, w.ino, st.mtime);
  }

  lemma CountIs(w: Mkfs.Writer)
    requires w.Counted()
    ensures w.direntVersion == |Dirents(w.log)| % 0x1_0000_0000
  {
  }

  lemma EntryShape(x: Node, name: seq<byte>, version: u32, ino: u32, mtime: u32)
    requires |name| < 256 && x == Mkfs.DirentNode(name, 1, version, ino, mtime, DT_FIFO)
    ensures x.Dirent? && |x.mid| == 8
  {
  }

  // Without cleanmarkers, 23 such pipes in one directory make an image on which
  // collectdir never returns: the last entry follows fill.
  method FillTraps(o: Order, crc: seq<byte> -> u32, st: FileData.Stat) returns (w: Mkfs.Writer)
    requires crc([]) == 0
    ensures Pipes(w, 23) && w.o == o && w.crc == crc
    ensures Jffs2Reader.WellFormed(ImageOf(o, w.out), 1) && !Jffs2Reader.Returns(ImageOf(o, w.out), 1)
  {
    hide Mkfs.Writer.Valid, Numbered, AllIn, EncodeAll, ImageOf, Jffs2Reader.WellFormed, FileNodes, Sequenced;
    w := new Mkfs.Writer(8192, o, crc, false, UNKNOWN_SIZE);
    NoPipes(w);
    var i := 0;
    while i < 22
      invariant i <= 22 && Pipes(w, i) && |w.out| == 364 * i && w.o == o && w.crc == crc && fresh(w)
    {
      ghost var at := WritePipe(w, i, st);
      i := i + 1;
    }
    ghost var at := WritePipe(w, 22, st);
    WrittenReturns(w, 1);
    LastPipe(w.log, at);
    LastEntryDecides(o, crc, w.log, 1, at);
  }

  lemma NoPipes(w: Mkfs.Writer)
    requires w.Valid() && w.Counted() && w.e == 8192 && !w.addCleanmarkers && w.ino == 1 && w.log == []
    ensures Pipes(w, 0)
  {
  }

  lemma LastPipe(log: seq<Node>, at: nat)
    requires Sequenced(log) && |Dirents(log)| == 23 && AllIn(Dirents(log), 1)
    requires at < |log| && log[at].Dirent? && |log[at].mid| == 8 && log[at].mid[1].value == 22
    ensures OneDirectory(log, 1, at)
  {
    DirentAt(log, at);
    assert IsEntry(Dirents(log)[Number(log, at)], Number(log, at));
  }
}
