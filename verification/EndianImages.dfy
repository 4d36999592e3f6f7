// jffs2dump.c, do_endianconvert: what it makes of whole images.
module EndianImages {
  import opened Bytes
  import opened Summaries
  import opened EndianNodes

  function Size(x: Node): nat {
    match x
    case Empty => 4
    case WrongBitmask(_, _) => 4
    case Inode(_, _, _, data) => 68 + |data|
    case Dirent(_, _, _, name) => 40 + |name|
    case Marker(_, _, rest) => UNKNOWN_SIZE + |rest|
    case Summary(totlen, _, _, _, _, _, _) => totlen
  }

  // The size of a node does not depend on the byte order.
  lemma EncodedSize(o: Order, crc: seq<byte> -> u32, x: Node)
    requires Good(x)
    ensures |Encode(o, crc, x)| == Size(x) >= 4
  {
    hide Swap, ConvertHead, Put32, Records, Record, Fields, Head;
    WidthSums();
    match x
    case Empty =>
    case WrongBitmask(a, b) => TwoFields(o, Field(2, a), Field(2, b));
    case Inode(totlen, mid, _, _) => StartReads(o, crc, INODE, totlen, mid, []);
    case Dirent(totlen, mid, _, _) => StartReads(o, crc, DIRENT, totlen, mid, []);
    case Marker(kind, totlen, _) => HeadReads(o, crc, kind, totlen, []);
    case Summary(totlen, clnMkr, padded, entries, _, _, _) =>
      SumDataSlices(o, x);
      StartReads(o, crc, SUMMARY, totlen, SumFields(|entries|, clnMkr, padded), []);
      SumNumReads(o, Head(o, crc, SUMMARY, totlen), |entries|, clnMkr, padded, []);
  }

  // A node that is left out of the result, or that is shorter than its head.
  predicate Foreign(o: Order, t: seq<byte>) {
    |t| >= UNKNOWN_SIZE && Get16(o, t, 0) == MAGIC &&
    var kind := Get16(o, t, 2);
    kind != INODE && kind != DIRENT && kind != SUMMARY && kind != 0xffff &&
    (kind == CLEANMARKER || kind == PADDING ==> Pad32(Get32(o, t, 4)) < UNKNOWN_SIZE)
  }

  lemma {:induction false} SwapRecordsLength(o: Order, t: seq<byte>, n: nat)
    requires SwapRecords(o, t, n).Swapped?
    ensures |SwapRecords(o, t, n).bytes| == |t|
    decreases n
  {
    hide Swap, Sum, Get16;
    WidthSums();
    if n > 0 {
      var kind := Get16(o, t, 0);
      if kind == INODE { SwapRecordsLength(o, t[18..], n - 1); } else { SwapRecordsLength(o, t[24 + t[22]..], n - 1); }
    }
  }

  lemma SummaryLength(o: Order, crc: seq<byte> -> u32, t: seq<byte>, totlen: nat)
    requires 40 <= totlen <= |t| && ConvertSummary(o, crc, t, totlen).Emit?
    ensures |ConvertSummary(o, crc, t, totlen).bytes| == ConvertSummary(o, crc, t, totlen).used == totlen
  {
    hide Swap, Sum, Get16, Get32, Put32, SwapRecords, ConvertHead;
    WidthSums();
    SwapRecordsLength(o, t[32..totlen - 8], Get32(o, t, 12));
  }

  // Every other turn writes as much as it reads.
  lemma TurnLength(o: Order, crc: seq<byte> -> u32, recalc: bool, t: seq<byte>)
    requires Turn(o, crc, recalc, t).Emit? && Turn(o, crc, recalc, t).used > 0
    ensures |Turn(o, crc, recalc, t).bytes| == Turn(o, crc, recalc, t).used <==> !Foreign(o, t)
  {
    hide Swap, Sum, Get16, Get32, Put32, SwapRecords, ConvertHead, ConvertSummary;
    WidthSums();
    if |t| >= UNKNOWN_SIZE && Get16(o, t, 2) == SUMMARY && 40 <= Get32(o, t, 4) <= |t| &&
      ConvertSummary(o, crc, t, Get32(o, t, 4)).Emit? {
      SummaryLength(o, crc, t, Get32(o, t, 4));
    }
  }

  lemma {:induction false} ConvertedImage(o: Order, crc: seq<byte> -> u32, recalc: bool, xs: seq<Node>)
    requires AllGood(xs)
    ensures Converted(o, crc, recalc, EncodeAll(o, crc, xs)) == Done(EncodeAll(o.Other(), crc, xs))
    ensures |EncodeAll(o, crc, xs)| == |EncodeAll(o.Other(), crc, xs)|
  {
    hide Turn, Encode, Good, Size;
    if xs != [] {
      var rest := EncodeAll(o, crc, xs[1..]);
      var t := EncodeAll(o, crc, xs);
      assert t == Encode(o, crc, xs[0]) + rest;
      NodeTurns(o, crc, recalc, xs[0], rest);
      EncodedSize(o, crc, xs[0]);
      EncodedSize(o.Other(), crc, xs[0]);
      ConvertedImage(o, crc, recalc, xs[1..]);
      assert t[|Encode(o, crc, xs[0])|..] == rest;
    }
  }

  // A well-formed image converts to the same nodes in the other byte order,
  // with correct checksums, and converting it back gives the image again.
  lemma ConvertTwice(o: Order, crc: seq<byte> -> u32, recalc: bool, xs: seq<Node>)
    requires AllGood(xs)
    ensures var image := EncodeAll(o, crc, xs);
      var r := Converted(o, crc, recalc, image);
      r.Done? && |r.bytes| == |image| && Converted(o.Other(), crc, recalc, r.bytes) == Done(image)
  {
    ConvertedImage(o, crc, recalc, xs);
    ConvertedImage(o.Other(), crc, recalc, xs);
    assert o.Other().Other() == o;
  }

  // What a reader of the image lists for a node, whichever order it reads.
  function ListedAs(x: Node, at: u32): seq<Entry>
    requires Good(x)
  {
    match x
    case Inode(totlen, mid, _, _) =>
      assert |Widths(mid)| == 15;
      if totlen >= 68 then [InodeEntry(mid[0].value, mid[1].value, at, totlen)] else []
    case Dirent(totlen, mid, nsize, name) =>
      assert |Widths(mid)| == 8 && Widths(mid)[5] == 1 && Proper(mid[4]) && Proper(mid[5]);
      if totlen >= 40 && totlen - 40 >= nsize then
        [DirentEntry(totlen, at, mid[0].value, mid[1].value, mid[2].value, mid[5].value, name[..nsize])]
      else []
    case _ => []
  }

  function ListedAll(xs: seq<Node>, at: nat): seq<Entry>
    requires AllGood(xs)
  {
    if xs == [] || at >= 0x1_0000_0000 then [] else ListedAs(xs[0], at) + ListedAll(xs[1..], at + Size(xs[0]))
  }

  // The i-th field behind the head, at its place in the node.
  lemma MidField(o: Order, head: seq<byte>, mid: seq<Field>, ws: seq<nat>, i: nat, rest: seq<byte>)
    requires |head| == UNKNOWN_SIZE && AllProper(mid) && Widths(mid) == ws && i < |mid|
    ensures var at := UNKNOWN_SIZE + Sum(ws[..i]); var t := head + Fields(o, mid) + rest;
      at + mid[i].width <= |t| && t[at..at + mid[i].width] == Put(o, mid[i])
  {
    hide Fields, Sum, Put, Widths;
    FieldAt(o, mid, i, rest);
    WidthsFront(mid, i);
    assert head + Fields(o, mid) + rest == head + (Fields(o, mid) + rest);
    SkipFirst(head, Fields(o, mid) + rest, Sum(ws[..i]), mid[i].width);
  }

  lemma FirstSums()
    ensures Sum([]) == 0 && Sum([4]) == 4 && Sum([4, 4]) == 8 && Sum([4, 4, 4, 4]) == 16 && Sum([4, 4, 4, 4, 1]) == 17
  {
    SumJoin([4, 4], [4, 4]);
    SumJoin([4, 4, 4, 4], [1]);
  }

  lemma InodeMid(o: Order, head: seq<byte>, mid: seq<Field>, rest: seq<byte>)
    requires |head| == UNKNOWN_SIZE && AllProper(mid) && Widths(mid) == INODE_WIDTHS
    ensures var t := head + Fields(o, mid) + rest;
      |mid| == 15 && |t| >= 28 && Get32(o, t, 12) == mid[0].value && Get32(o, t, 16) == mid[1].value
  {
    hide Get32, Put16, Put32, Fields, Sum;
    var ws := INODE_WIDTHS;
    assert |mid| == |Widths(mid)| && mid[0].width == Widths(mid)[0] && mid[1].width == Widths(mid)[1] &&
      mid[2].width == Widths(mid)[2];
    assert ws[0] == 4 && ws[1] == 4 && ws[2] == 4 && ws[..0] == [] && ws[..1] == [4] && ws[..2] == [4, 4];
    FirstSums();
    WidthSums();
    SwapFields(o, mid, rest);
    MidField(o, head, mid, ws, 0, rest);
    MidField(o, head, mid, ws, 1, rest);
    Read32(o, head + Fields(o, mid) + rest, 12, mid[0].value);
    Read32(o, head + Fields(o, mid) + rest, 16, mid[1].value);
  }

  lemma DirentMid(o: Order, head: seq<byte>, mid: seq<Field>, rest: seq<byte>)
    requires |head| == UNKNOWN_SIZE && AllProper(mid) && Widths(mid) == DIRENT_WIDTHS
    ensures var t := head + Fields(o, mid) + rest;
      |mid| == 8 && |t| >= 32 && Get32(o, t, 12) == mid[0].value && Get32(o, t, 16) == mid[1].value &&
      Get32(o, t, 20) == mid[2].value
  {
    hide Get32, Put16, Put32, Fields, Sum;
    var ws := DIRENT_WIDTHS;
    assert |mid| == |Widths(mid)| && mid[0].width == Widths(mid)[0] && mid[1].width == Widths(mid)[1] &&
      mid[2].width == Widths(mid)[2];
    assert ws[0] == 4 && ws[1] == 4 && ws[2] == 4 && ws[..0] == [] && ws[..1] == [4] && ws[..2] == [4, 4];
    FirstSums();
    WidthSums();
    SwapFields(o, mid, rest);
    MidField(o, head, mid, ws, 0, rest);
    MidField(o, head, mid, ws, 1, rest);
    MidField(o, head, mid, ws, 2, rest);
    Read32(o, head + Fields(o, mid) + rest, 12, mid[0].value);
    Read32(o, head + Fields(o, mid) + rest, 16, mid[1].value);
    Read32(o, head + Fields(o, mid) + rest, 20, mid[2].value);
  }

  lemma DirentBytes(o: Order, head: seq<byte>, mid: seq<Field>, rest: seq<byte>)
    requires |head| == UNKNOWN_SIZE && AllProper(mid) && Widths(mid) == DIRENT_WIDTHS
    ensures var t := head + Fields(o, mid) + rest;
      |mid| == 8 && |t| >= 32 && t[28] == mid[4].value && t[29] == mid[5].value && mid[4].value < 256 &&
      mid[5].value < 256
  {
    hide Get32, Put16, Put32, Fields, Sum;
    var ws, t := DIRENT_WIDTHS, head + Fields(o, mid) + rest;
    assert |mid| == |Widths(mid)| && mid[4].width == Widths(mid)[4] && mid[5].width == Widths(mid)[5];
    assert ws[4] == 1 && ws[5] == 1 && ws[..4] == [4, 4, 4, 4] && ws[..5] == [4, 4, 4, 4, 1];
    FirstSums();
    WidthSums();
    SwapFields(o, mid, rest);
    MidField(o, head, mid, ws, 4, rest);
    MidField(o, head, mid, ws, 5, rest);
    assert t[28] == t[28..29][0] && t[29] == t[29..30][0];
  }

  lemma SameFields(o: Order, raw: seq<byte>, t: seq<byte>, at: nat)
    requires at + 4 <= |raw| <= |t| && raw == t[..|raw|]
    ensures Get16(o, raw, at) == Get16(o, t, at) && Get32(o, raw, at) == Get32(o, t, at)
  {
  }

  // How a node reads, cut off at its length.
  ghost function Seen(o: Order, t: seq<byte>, totlen: u32, at: u32): seq<Entry> {
    if totlen > |t| then [] else match EntryOf(o, t[..totlen], at) case None => [] case Some(y) => [y]
  }

  lemma InodeListed(o: Order, crc: seq<byte> -> u32, x: Node, rest: seq<byte>, at: u32)
    requires Good(x) && x.Inode?
    ensures Seen(o, Encode(o, crc, x) + rest, x.totlen, at) == ListedAs(x, at)
  {
    hide Get16, Get32, Put16, Put32, Fields, Head, Swap, ConvertHead, Sum;
    EncodedSize(o, crc, x);
    var t := Encode(o, crc, x) + rest;
    var raw := t[..x.totlen];
    var start := InodeStart(o, crc, x.totlen, x.mid);
    var tail := Put32(o, crc(x.data[..x.csize])) + Put32(o, crc(start)) + x.data + rest;
    Slices(start, Put32(o, crc(x.data[..x.csize])), Put32(o, crc(start)), x.data, rest, 0);
    assert t == start + tail;
    StartReads(o, crc, INODE, x.totlen, x.mid, tail);
    InodeMid(o, Head(o, crc, INODE, x.totlen), x.mid, tail);
    SameFields(o, raw, t, 2);
    SameFields(o, raw, t, 4);
    SameFields(o, raw, t, 12);
    SameFields(o, raw, t, 16);
  }

  lemma DirentListed(o: Order, crc: seq<byte> -> u32, x: Node, rest: seq<byte>, at: u32)
    requires Good(x) && x.Dirent?
    ensures Seen(o, Encode(o, crc, x) + rest, x.totlen, at) == ListedAs(x, at)
  {
    hide Get16, Get32, Put16, Put32, Fields, Head, Swap, ConvertHead, Sum;
    EncodedSize(o, crc, x);
    var t := Encode(o, crc, x) + rest;
    var raw := t[..x.totlen];
    var start := DirentStart(o, crc, x.totlen, x.mid);
    var tail := Put32(o, crc(start)) + Put32(o, crc(x.name[..x.nsize])) + x.name + rest;
    Slices(start, Put32(o, crc(start)), Put32(o, crc(x.name[..x.nsize])), x.name, rest, x.nsize);
    assert t == start + tail;
    StartReads(o, crc, DIRENT, x.totlen, x.mid, tail);
    DirentMid(o, Head(o, crc, DIRENT, x.totlen), x.mid, tail);
    DirentBytes(o, Head(o, crc, DIRENT, x.totlen), x.mid, tail);
    WidthSums();
    SameFields(o, raw, t, 2);
    SameFields(o, raw, t, 4);
    SameFields(o, raw, t, 12);
    SameFields(o, raw, t, 16);
    SameFields(o, raw, t, 20);
    if 40 <= x.totlen && x.nsize <= x.totlen - 40 { assert raw[40..40 + x.nsize] == t[40..40 + x.nsize]; }
  }

  predicate Aligned(x: Node) {
    x.Summary? ==> x.totlen % 4 == 0
  }

  lemma HeadThenRest(h: seq<byte>, f: seq<byte>, a: seq<byte>, b: seq<byte>, d: seq<byte>, rest: seq<byte>)
    ensures h + f + a + b + d + rest == h + (f + (a + b + d + rest))
  {
  }

  // Every node but a word starts with its head.
  lemma StartsWithHead(o: Order, crc: seq<byte> -> u32, x: Node, rest: seq<byte>) returns (kind: u16, tail: seq<byte>)
    requires Good(x) && !x.Empty? && !x.WrongBitmask?
    ensures Encode(o, crc, x) + rest == Head(o, crc, kind, x.totlen) + tail
    ensures kind == if x.Inode? then INODE else if x.Dirent? then DIRENT else if x.Marker? then x.kind else SUMMARY
  {
    hide Head, Put32, Fields, SumData;
    match x
    case Inode(totlen, mid, csize, data) =>
      kind := INODE;
      var start := InodeStart(o, crc, totlen, mid);
      tail := Fields(o, mid) + (Put32(o, crc(data[..csize])) + Put32(o, crc(start)) + data + rest);
      HeadThenRest(Head(o, crc, INODE, totlen), Fields(o, mid), Put32(o, crc(data[..csize])), Put32(o, crc(start)),
        data, rest);
    case Dirent(totlen, mid, nsize, name) =>
      kind := DIRENT;
      var start := DirentStart(o, crc, totlen, mid);
      tail := Fields(o, mid) + (Put32(o, crc(start)) + Put32(o, crc(name[..nsize])) + name + rest);
      HeadThenRest(Head(o, crc, DIRENT, totlen), Fields(o, mid), Put32(o, crc(start)), Put32(o, crc(name[..nsize])),
        name, rest);
    case Marker(k, totlen, more) =>
      kind, tail := k, more + rest;
    case Summary(totlen, clnMkr, padded, entries, _, _, _) =>
      kind := SUMMARY;
      var mid := SumFields(|entries|, clnMkr, padded);
      var start := Head(o, crc, SUMMARY, totlen) + Fields(o, mid);
      var data := SumData(o, x);
      tail := Fields(o, mid) + (Put32(o, crc(data)) + Put32(o, crc(start)) + data + rest);
      HeadThenRest(Head(o, crc, SUMMARY, totlen), Fields(o, mid), Put32(o, crc(data)), Put32(o, crc(start)), data,
        rest);
  }

  lemma TotlenFits(o: Order, crc: seq<byte> -> u32, x: Node, rest: seq<byte>)
    requires Good(x) && Aligned(x) && !x.Empty? && !x.WrongBitmask?
    ensures var t := Encode(o, crc, x) + rest;
      |t| >= UNKNOWN_SIZE && Get16(o, t, 0) == MAGIC && Get32(o, t, 4) == x.totlen && 0 < x.totlen <= |t| &&
      Padded(x.totlen) == Size(x) >= UNKNOWN_SIZE
  {
    hide Get16, Get32, Head, Encode, Swap, ConvertHead;
    EncodedSize(o, crc, x);
    var kind, tail := StartsWithHead(o, crc, x, rest);
    HeadReads(o, crc, kind, x.totlen, tail);
  }

  lemma OtherListed(o: Order, crc: seq<byte> -> u32, x: Node, rest: seq<byte>, at: u32)
    requires Good(x) && (x.Marker? || x.Summary?)
    ensures Seen(o, Encode(o, crc, x) + rest, x.totlen, at) == []
  {
    hide Get16, Get32, Head, Encode, Swap, ConvertHead;
    var kind, tail := StartsWithHead(o, crc, x, rest);
    HeadReads(o, crc, kind, x.totlen, tail);
    var t := Encode(o, crc, x) + rest;
    if 28 <= x.totlen <= |t| { SameFields(o, t[..x.totlen], t, 2); }
  }

  // How a reader goes on from one node to the next.
  lemma NodeScanned(o: Order, crc: seq<byte> -> u32, x: Node, pre: seq<byte>, rest: seq<byte>)
    requires Good(x) && Aligned(x) && |pre + Encode(o, crc, x) + rest| < 0x1_0000_0000
    ensures var s := pre + Encode(o, crc, x) + rest;
      Scan(o, s, |pre|) == ListedAs(x, |pre|) + Scan(o, s, |pre| + Size(x))
  {
    hide Get16, Get32, Put16, Put32, Fields, Head, Swap, ConvertHead, Sum, Records, SumData, Encode, Good, EntryOf,
      ListedAs;
    var t := Encode(o, crc, x) + rest;
    var s := pre + Encode(o, crc, x) + rest;
    assert s == pre + t;
    EncodedSize(o, crc, x);
    if x.Empty? || x.WrongBitmask? {
      WordScanned(o, crc, x, rest);
      if |t| >= 4 { Shifted(o, pre, t, 0); }
      NotListed(x, |pre|);
    } else {
      TotlenFits(o, crc, x, rest);
      Shifted(o, pre, t, 0);
      Shifted(o, pre, t, 4);
      assert s[|pre|..|pre| + x.totlen] == t[..x.totlen];
      if x.Inode? {
        InodeListed(o, crc, x, rest, |pre|);
      } else if x.Dirent? {
        DirentListed(o, crc, x, rest, |pre|);
      } else {
        OtherListed(o, crc, x, rest, |pre|);
        NotListed(x, |pre|);
      }
    }
  }

  lemma Shifted(o: Order, pre: seq<byte>, t: seq<byte>, i: nat)
    requires i + 4 <= |t|
    ensures Get16(o, pre + t, |pre| + i) == Get16(o, t, i) && Get32(o, pre + t, |pre| + i) == Get32(o, t, i)
  {
  }

  lemma NotListed(x: Node, at: u32)
    requires Good(x) && !x.Inode? && !x.Dirent?
    ensures ListedAs(x, at) == []
  {
  }

  lemma WordScanned(o: Order, crc: seq<byte> -> u32, x: Node, rest: seq<byte>)
    requires Good(x) && (x.Empty? || x.WrongBitmask?)
    ensures |Encode(o, crc, x)| == 4 && Get16(o, Encode(o, crc, x) + rest, 0) != MAGIC
  {
    var t := Encode(o, crc, x) + rest;
    if x.WrongBitmask? {
      TwoFields(o, Field(2, x.a), Field(2, x.b));
      assert t[0..2] == Put16(o, x.a);
      Read16(o, t, 0, x.a);
    }
  }

  lemma {:induction false} ImageScanned(o: Order, crc: seq<byte> -> u32, xs: seq<Node>, pre: seq<byte>)
    requires AllGood(xs) && (forall i :: 0 <= i < |xs| ==> Aligned(xs[i])) &&
      |pre + EncodeAll(o, crc, xs)| < 0x1_0000_0000
    ensures Scan(o, pre + EncodeAll(o, crc, xs), |pre|) == ListedAll(xs, |pre|)
    decreases |xs|
  {
    hide Encode, Good, ListedAs, Size, Get16, Get32, Scan;
    var s := pre + EncodeAll(o, crc, xs);
    if xs == [] {
      NothingScanned(o, s);
    } else {
      EncodedSize(o, crc, xs[0]);
      assert s == pre + Encode(o, crc, xs[0]) + EncodeAll(o, crc, xs[1..]);
      NodeScanned(o, crc, xs[0], pre, EncodeAll(o, crc, xs[1..]));
      ImageScanned(o, crc, xs[1..], pre + Encode(o, crc, xs[0]));
    }
  }

  lemma NothingScanned(o: Order, s: seq<byte>)
    requires |s| < 0x1_0000_0000
    ensures Scan(o, s, |s|) == []
  {
  }

  // A reader of the converted image in its byte order finds the same inode and
  // directory entry nodes at the same places.
  lemma SameListing(o: Order, crc: seq<byte> -> u32, recalc: bool, xs: seq<Node>)
    requires AllGood(xs) && (forall i :: 0 <= i < |xs| ==> Aligned(xs[i])) && |EncodeAll(o, crc, xs)| < 0x1_0000_0000
    ensures var image := EncodeAll(o, crc, xs);
      var r := Converted(o, crc, recalc, image);
      r.Done? && |r.bytes| == |image| && Scan(o.Other(), r.bytes, 0) == Scan(o, image, 0)
  {
    ConvertedImage(o, crc, recalc, xs);
    ImageScanned(o, crc, xs, []);
    ImageScanned(o.Other(), crc, xs, []);
    assert [] + EncodeAll(o, crc, xs) == EncodeAll(o, crc, xs);
    assert [] + EncodeAll(o.Other(), crc, xs) == EncodeAll(o.Other(), crc, xs);
  }

  // A node of type 0xffff is copied as it is: in the other order it does not
  // have the magic bitmask any more, and converting back does not restore it.
  lemma EmptyTypeIsNotConverted(o: Order, crc: seq<byte> -> u32, recalc: bool, t: seq<byte>)
    requires |t| >= UNKNOWN_SIZE && Get16(o, t, 0) == MAGIC && Get16(o, t, 2) == 0xffff
    ensures Turn(o, crc, recalc, t) == Emit(t[..4], 4)
    ensures Get16(o.Other(), t, 0) != MAGIC
    ensures var back := Turn(o.Other(), crc, recalc, t); back.Emit? && back.used == 4 && back.bytes != t[..4]
  {
    assert {t[0], t[1]} == {0x19, 0x85} && t[0] != t[1];
    assert WORD_WIDTHS[0] == 2;
    assert Swap(WORD_WIDTHS, t)[0] == Reversed(t[..2])[0] == t[1];
  }
}
