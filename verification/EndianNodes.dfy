// jffs2dump.c, do_endianconvert: rewriting an image in the other byte order.
module EndianNodes {
  import opened Bytes
  import opened Summaries

  // A field of a node: its width in bytes and its value.
  datatype Field = Field(width: nat, value: u32)

  predicate Proper(f: Field) {
    (f.width == 1 && f.value < 0x100) || (f.width == 2 && f.value < 0x1_0000) || f.width == 4
  }

  predicate AllProper(fs: seq<Field>) {
    forall i :: 0 <= i < |fs| ==> Proper(fs[i])
  }

  function Put(o: Order, f: Field): (r: seq<byte>)
    requires Proper(f)
    ensures |r| == f.width
  {
    if f.width == 1 then [f.value] else if f.width == 2 then Put16(o, f.value) else Put32(o, f.value)
  }

  function Fields(o: Order, fs: seq<Field>): seq<byte>
    requires AllProper(fs)
  {
    if fs == [] then [] else Put(o, fs[0]) + Fields(o, fs[1..])
  }

  function Widths(fs: seq<Field>): seq<nat> {
    seq(|fs|, i requires 0 <= i < |fs| => fs[i].width)
  }

  function Sum(ws: seq<nat>): nat {
    if ws == [] then 0 else ws[0] + Sum(ws[1..])
  }

  // bswap_16 and bswap_32, and a plain copy for single bytes.
  function Reversed(s: seq<byte>): (r: seq<byte>)
    ensures |r| == |s|
  {
    seq(|s|, i requires 0 <= i < |s| => s[|s| - 1 - i])
  }

  function Swap(ws: seq<nat>, s: seq<byte>): (r: seq<byte>)
    ensures |s| >= Sum(ws) ==> |r| == Sum(ws)
  {
    if ws == [] || |s| < ws[0] then [] else Reversed(s[..ws[0]]) + Swap(ws[1..], s[ws[0]..])
  }

  lemma PutReversed(o: Order, f: Field)
    requires Proper(f)
    ensures Reversed(Put(o, f)) == Put(o.Other(), f)
  {
    if f.width == 4 {
      var hi, lo := f.value / 0x1_0000, f.value % 0x1_0000;
      assert Reversed(Put16(o, hi)) == Put16(o.Other(), hi) && Reversed(Put16(o, lo)) == Put16(o.Other(), lo);
    }
  }

  lemma SwapFirst(w: nat, ws: seq<nat>, a: seq<byte>, t: seq<byte>)
    requires |a| == w
    ensures Swap([w] + ws, a + t) == Reversed(a) + Swap(ws, t) && Sum([w] + ws) == w + Sum(ws)
  {
    assert ([w] + ws)[1..] == ws && (a + t)[..w] == a && (a + t)[w..] == t;
  }

  lemma WidthsFirst(fs: seq<Field>)
    requires fs != [] && AllProper(fs)
    ensures Widths(fs) == [fs[0].width] + Widths(fs[1..]) && AllProper(fs[1..]) && Proper(fs[0])
  {
  }

  // Reversing the bytes of each field writes the fields in the other order.
  lemma {:induction false} SwapFields(o: Order, fs: seq<Field>, rest: seq<byte>)
    requires AllProper(fs)
    ensures |Fields(o, fs)| == Sum(Widths(fs))
    ensures Swap(Widths(fs), Fields(o, fs) + rest) == Fields(o.Other(), fs)
    decreases |fs|
  {
    hide Put, Reversed, Widths, AllProper, Proper, Swap, Sum;
    if fs != [] {
      WidthsFirst(fs);
      PutReversed(o, fs[0]);
      SwapFields(o, fs[1..], rest);
      SwapFirst(fs[0].width, Widths(fs[1..]), Put(o, fs[0]), Fields(o, fs[1..]) + rest);
      assert Fields(o, fs) + rest == Put(o, fs[0]) + (Fields(o, fs[1..]) + rest);
      PutLength(o, fs[0]);
    } else {
      NoFields(o, fs, rest);
    }
  }

  lemma PutLength(o: Order, f: Field)
    requires Proper(f)
    ensures |Put(o, f)| == f.width
  {
  }

  lemma NoFields(o: Order, fs: seq<Field>, rest: seq<byte>)
    requires fs == []
    ensures AllProper(fs) && |Fields(o, fs)| == Sum(Widths(fs)) &&
      Swap(Widths(fs), Fields(o, fs) + rest) == Fields(o.Other(), fs)
  {
  }

  lemma {:induction false} SumJoin(a: seq<nat>, b: seq<nat>)
    ensures Sum(a + b) == Sum(a) + Sum(b)
  {
    if a == [] {
      assert a + b == b;
    } else {
      assert (a + b)[1..] == a[1..] + b;
      SumJoin(a[1..], b);
    }
  }

  const HEAD_WIDTHS: seq<nat> := [2, 2, 4]
  const WORD_WIDTHS: seq<nat> := [2, 2]
  const INODE_WIDTHS: seq<nat> := [4, 4, 4, 2, 2] + [4, 4, 4, 4, 4] + [4, 4, 1, 1, 2] // ino .. flags
  const DIRENT_WIDTHS: seq<nat> := [4, 4, 4, 4] + [1, 1, 1, 1] // pino .. unused
  const SUM_WIDTHS: seq<nat> := [4, 4, 4] // sum_num, cln_mkr, padded
  const SUM_INODE_WIDTHS: seq<nat> := [2, 4, 4, 4, 4]
  const SUM_DIRENT_WIDTHS: seq<nat> := [2, 4, 4] + [4, 4, 4] // nodetype .. ino

  lemma WidthSums()
    ensures Sum(HEAD_WIDTHS) == 8 && Sum(WORD_WIDTHS) == 4 && Sum(INODE_WIDTHS) == 48 && Sum(DIRENT_WIDTHS) == 20
    ensures Sum(SUM_WIDTHS) == 12 && Sum(SUM_INODE_WIDTHS) == 18 && Sum(SUM_DIRENT_WIDTHS) == 22
  {
    SumJoin([4, 4, 4, 2, 2] + [4, 4, 4, 4, 4], [4, 4, 1, 1, 2]);
    SumJoin([4, 4, 4, 2, 2], [4, 4, 4, 4, 4]);
    SumJoin([4, 4, 4, 4], [1, 1, 1, 1]);
    SumJoin([2, 4, 4], [4, 4, 4]);
  }

  // The first 12 bytes of every node, with the checksum made anew.
  function ConvertHead(o: Order, crc: seq<byte> -> u32, t: seq<byte>): (r: seq<byte>)
    ensures |t| >= UNKNOWN_SIZE ==> |r| == UNKNOWN_SIZE
  {
    WidthSums();
    var h := Swap(HEAD_WIDTHS, t);
    h + Put32(o.Other(), crc(h))
  }

  // With recalccrc the checksum of the data is made anew as well.
  function ConvertInode(o: Order, crc: seq<byte> -> u32, recalc: bool, t: seq<byte>): (r: seq<byte>)
    requires |t| >= 68 && (recalc ==> |t| - 68 >= Get32(o, t, 48))
  {
    var body := ConvertHead(o, crc, t) + Swap(INODE_WIDTHS, t[12..]);
    var dataCrc := if recalc then Put32(o.Other(), crc(t[68..68 + Get32(o, t, 48)])) else Reversed(t[60..64]);
    body + dataCrc + Put32(o.Other(), crc(body))
  }

  function ConvertDirent(o: Order, crc: seq<byte> -> u32, recalc: bool, t: seq<byte>): (r: seq<byte>)
    requires |t| >= 40 && (recalc ==> |t| - 40 >= t[28])
  {
    var body := ConvertHead(o, crc, t) + Swap(DIRENT_WIDTHS, t[12..]);
    var nameCrc := if recalc then Put32(o.Other(), crc(t[40..40 + t[28]])) else Reversed(t[36..40]);
    body + Put32(o.Other(), crc(body)) + nameCrc
  }

  datatype Swapped = Swapped(bytes: seq<byte>) | UnknownRecord | OutOfBounds

  // The first n records of a summary, and what is behind them as it is.
  function SwapRecords(o: Order, t: seq<byte>, n: nat): Swapped {
    if n == 0 then Swapped(t)
    else if |t| < 2 then OutOfBounds
    else
      var kind := Get16(o, t, 0);
      if kind == INODE then
        if |t| < 18 then OutOfBounds else Behind(Swap(SUM_INODE_WIDTHS, t), SwapRecords(o, t[18..], n - 1))
      else if kind == DIRENT then
        if |t| < 24 || |t| - 24 < t[22] then OutOfBounds
        else Behind(Swap(SUM_DIRENT_WIDTHS, t) + t[22..24 + t[22]], SwapRecords(o, t[24 + t[22]..], n - 1))
      else UnknownRecord
  }

  function Behind(s: seq<byte>, x: Swapped): Swapped {
    if x.Swapped? then Swapped(s + x.bytes) else x
  }

  datatype Step = Emit(bytes: seq<byte>, used: nat) | Exit | Crash

  function ConvertSummary(o: Order, crc: seq<byte> -> u32, t: seq<byte>, totlen: nat): Step
    requires 40 <= totlen <= |t|
  {
    match SwapRecords(o, t[32..totlen - 8], Get32(o, t, 12))
    case OutOfBounds => Crash
    case UnknownRecord => Exit
    case Swapped(records) =>
      var data := records + Reversed(t[totlen - 8..totlen - 4]) + Reversed(t[totlen - 4..totlen]);
      var head := ConvertHead(o, crc, t) + Swap(SUM_WIDTHS, t[12..]);
      Emit(head + Put32(o.Other(), crc(data)) + Put32(o.Other(), crc(head)) + data, totlen)
  }

  // (x + 3) & ~3 on 32-bit numbers.
  function Pad32(x: u32): nat {
    (x + 3) % 0x1_0000_0000 / 4 * 4
  }

  // One turn of the loop at the front of t. It crashes where the program would
  // read outside of the image.
  function Turn(o: Order, crc: seq<byte> -> u32, recalc: bool, t: seq<byte>): Step {
    if |t| < 4 then Crash
    else if Get16(o, t, 0) == 0xffff && Get16(o, t, 2) == 0xffff then Emit(t[..4], 4)
    else if Get16(o, t, 0) != MAGIC then Emit(Swap(WORD_WIDTHS, t), 4)
    else if |t| < UNKNOWN_SIZE then Crash
    else
      var kind, totlen := Get16(o, t, 2), Get32(o, t, 4);
      if kind == INODE then
        if Pad32(totlen) < 68 || |t| < Pad32(totlen) || (recalc && |t| - 68 < Get32(o, t, 48)) then Crash
        else Emit(ConvertInode(o, crc, recalc, t) + t[68..Pad32(totlen)], Pad32(totlen))
      else if kind == DIRENT then
        if Pad32(totlen) < 40 || |t| < Pad32(totlen) || (recalc && |t| - 40 < t[28]) then Crash
        else Emit(ConvertDirent(o, crc, recalc, t) + t[40..Pad32(totlen)], Pad32(totlen))
      else if kind == CLEANMARKER || kind == PADDING then
        if |t| < Pad32(totlen) then Crash
        else Emit(ConvertHead(o, crc, t) +
          (if Pad32(totlen) > UNKNOWN_SIZE then t[UNKNOWN_SIZE..Pad32(totlen)] else []), Pad32(totlen))
      else if kind == SUMMARY then
        if totlen < SUMMARY_SIZE + SUM_MARKER_SIZE || |t| < totlen then Crash else ConvertSummary(o, crc, t, totlen)
      else if kind == 0xffff then Emit(t[..4], 4)
      else Emit([], Pad32(totlen))
  }

  datatype Result = Done(bytes: seq<byte>) | Exited | Crashed

  // The whole loop. A node that takes no space keeps it going for ever.
  function Converted(o: Order, crc: seq<byte> -> u32, recalc: bool, t: seq<byte>): Result {
    if t == [] then Done([]) else
    match Turn(o, crc, recalc, t)
    case Crash => Crashed
    case Exit => Exited
    case Emit(bytes, used) =>
      if used == 0 then Crashed
      else if used >= |t| then Done(bytes)
      else
        var r := Converted(o, crc, recalc, t[used..]);
        if r.Done? then Done(bytes + r.bytes) else r
  }

  // What an image is made of. Data and names carry their padding with them.
  datatype Node =
    | Empty
    | WrongBitmask(a: u16, b: u16)
    | Inode(totlen: u32, mid: seq<Field>, csize: u32, data: seq<byte>)
    | Dirent(totlen: u32, mid: seq<Field>, nsize: u32, name: seq<byte>)
    | Marker(kind: u16, totlen: u32, rest: seq<byte>)
    | Summary(totlen: u32, clnMkr: u32, padded: u32, entries: seq<Entry>, pad: seq<byte>, offset: u32, magic: u32)

  function HeadFields(kind: u16, totlen: u32): (r: seq<Field>)
    ensures AllProper(r)
  {
    [Field(2, MAGIC), Field(2, kind), Field(4, totlen)]
  }

  function Head(o: Order, crc: seq<byte> -> u32, kind: u16, totlen: u32): seq<byte> {
    var h := Fields(o, HeadFields(kind, totlen));
    h + Put32(o, crc(h))
  }

  function InodeStart(o: Order, crc: seq<byte> -> u32, totlen: u32, mid: seq<Field>): seq<byte>
    requires AllProper(mid)
  {
    Head(o, crc, INODE, totlen) + Fields(o, mid)
  }

  function DirentStart(o: Order, crc: seq<byte> -> u32, totlen: u32, mid: seq<Field>): seq<byte>
    requires AllProper(mid)
  {
    Head(o, crc, DIRENT, totlen) + Fields(o, mid)
  }

  function SumFields(num: u32, clnMkr: u32, padded: u32): (r: seq<Field>)
    ensures AllProper(r)
  {
    [Field(4, num), Field(4, clnMkr), Field(4, padded)]
  }

  function SumData(o: Order, x: Node): seq<byte>
    requires x.Summary?
  {
    Records(o, x.entries) + x.pad + Put32(o, x.offset) + Put32(o, x.magic)
  }

  predicate Convertible(xs: seq<Entry>) {
    forall i :: 0 <= i < |xs| ==> xs[i].InodeEntry? || xs[i].DirentEntry?
  }

  // A node as its fields ask for it, with the size it says it has.
  predicate Good(x: Node) {
    match x
    case Empty => true
    case WrongBitmask(a, b) => a != MAGIC && !(a == 0xffff && b == 0xffff)
    case Inode(totlen, mid, csize, data) =>
      AllProper(mid) && Widths(mid) == INODE_WIDTHS && mid[10] == Field(4, csize) && csize <= |data| &&
      totlen < 0x8000_0000 && Padded(totlen) == 68 + |data|
    case Dirent(totlen, mid, nsize, name) =>
      AllProper(mid) && Widths(mid) == DIRENT_WIDTHS && mid[4] == Field(1, nsize) && nsize <= |name| &&
      totlen < 0x8000_0000 && Padded(totlen) == 40 + |name|
    case Marker(kind, totlen, rest) =>
      (kind == CLEANMARKER || kind == PADDING) && totlen < 0x8000_0000 && Padded(totlen) == UNKNOWN_SIZE + |rest|
    case Summary(totlen, _, _, entries, pad, _, _) =>
      totlen == SUMMARY_SIZE + RecordsSize(entries) + |pad| + SUM_MARKER_SIZE && |entries| < 0x1_0000_0000 &&
      Convertible(entries)
  }

  function Encode(o: Order, crc: seq<byte> -> u32, x: Node): seq<byte>
    requires Good(x)
  {
    match x
    case Empty => Ones(4)
    case WrongBitmask(a, b) => Fields(o, [Field(2, a), Field(2, b)])
    case Inode(totlen, mid, csize, data) =>
      var start := InodeStart(o, crc, totlen, mid);
      start + Put32(o, crc(data[..csize])) + Put32(o, crc(start)) + data
    case Dirent(totlen, mid, nsize, name) =>
      var start := DirentStart(o, crc, totlen, mid);
      start + Put32(o, crc(start)) + Put32(o, crc(name[..nsize])) + name
    case Marker(kind, totlen, rest) => Head(o, crc, kind, totlen) + rest
    case Summary(totlen, clnMkr, padded, entries, _, _, _) =>
      var start := Head(o, crc, SUMMARY, totlen) + Fields(o, SumFields(|entries|, clnMkr, padded));
      var data := SumData(o, x);
      start + Put32(o, crc(data)) + Put32(o, crc(start)) + data
  }

  predicate AllGood(xs: seq<Node>) {
    forall i :: 0 <= i < |xs| ==> Good(xs[i])
  }

  function EncodeAll(o: Order, crc: seq<byte> -> u32, xs: seq<Node>): seq<byte>
    requires AllGood(xs)
  {
    if xs == [] then [] else Encode(o, crc, xs[0]) + EncodeAll(o, crc, xs[1..])
  }

  lemma TwoFields(o: Order, a: Field, b: Field)
    requires Proper(a) && Proper(b)
    ensures AllProper([a, b]) && Fields(o, [a, b]) == Put(o, a) + Put(o, b)
  {
    hide Put;
    assert [a, b][1..] == [b] && [b][1..] == [];
    assert Fields(o, [b]) == Put(o, b) + Fields(o, []);
  }

  lemma ThreeFields(o: Order, a: Field, b: Field, c: Field)
    requires Proper(a) && Proper(b) && Proper(c)
    ensures Fields(o, [a, b, c]) == Put(o, a) + Put(o, b) + Put(o, c)
  {
    hide Put;
    TwoFields(o, b, c);
    assert [a, b, c][1..] == [b, c];
  }

  lemma HeadReads(o: Order, crc: seq<byte> -> u32, kind: u16, totlen: u32, rest: seq<byte>)
    ensures var t := Head(o, crc, kind, totlen) + rest;
      |Head(o, crc, kind, totlen)| == UNKNOWN_SIZE && Get16(o, t, 0) == MAGIC && Get16(o, t, 2) == kind &&
      Get32(o, t, 4) == totlen &&
      ConvertHead(o, crc, t) == Head(o.Other(), crc, kind, totlen) && t[UNKNOWN_SIZE..] == rest
  {
    hide Put16, Put32, Get16, Get32, Swap, Sum;
    var fs := HeadFields(kind, totlen);
    var h := Fields(o, fs);
    var t := Head(o, crc, kind, totlen) + rest;
    ThreeFields(o, fs[0], fs[1], fs[2]);
    assert |h| == 8 && h[..2] == Put16(o, MAGIC) && h[2..4] == Put16(o, kind) && h[4..8] == Put32(o, totlen);
    assert t == h + (Put32(o, crc(h)) + rest);
    assert t[0..2] == h[..2] && t[2..4] == h[2..4] && t[4..8] == h[4..8];
    Read16(o, t, 0, MAGIC);
    Read16(o, t, 2, kind);
    Read32(o, t, 4, totlen);
    assert Widths(fs) == HEAD_WIDTHS;
    SwapFields(o, fs, Put32(o, crc(h)) + rest);
  }

  lemma MarkerTurn(o: Order, crc: seq<byte> -> u32, recalc: bool, x: Node, rest: seq<byte>)
    requires Good(x) && x.Marker?
    ensures Turn(o, crc, recalc, Encode(o, crc, x) + rest) == Emit(Encode(o.Other(), crc, x), |Encode(o, crc, x)|)
  {
    hide ConvertHead, Head, Get16, Get32;
    var t := Encode(o, crc, x) + rest;
    assert t == Head(o, crc, x.kind, x.totlen) + (x.rest + rest);
    HeadReads(o, crc, x.kind, x.totlen, x.rest + rest);
    assert t[UNKNOWN_SIZE..Pad32(x.totlen)] == x.rest;
    assert Head(o.Other(), crc, x.kind, x.totlen) + [] == Head(o.Other(), crc, x.kind, x.totlen);
  }

  lemma WordTurn(o: Order, crc: seq<byte> -> u32, recalc: bool, x: Node, rest: seq<byte>)
    requires Good(x) && (x.Empty? || x.WrongBitmask?)
    ensures Turn(o, crc, recalc, Encode(o, crc, x) + rest) == Emit(Encode(o.Other(), crc, x), |Encode(o, crc, x)|)
  {
    var t := Encode(o, crc, x) + rest;
    if x.WrongBitmask? {
      hide Swap, ConvertHead;
      var fs := [Field(2, x.a), Field(2, x.b)];
      TwoFields(o, fs[0], fs[1]);
      assert t[0..2] == Put16(o, x.a) && t[2..4] == Put16(o, x.b);
      Read16(o, t, 0, x.a);
      Read16(o, t, 2, x.b);
      assert Widths(fs) == WORD_WIDTHS;
      SwapFields(o, fs, rest);
      assert |Encode(o, crc, x)| == 4;
    } else {
      assert t[..4] == Ones(4);
    }
  }

  // The fields behind the head, in a node that goes on with rest.
  lemma StartReads(o: Order, crc: seq<byte> -> u32, kind: u16, totlen: u32, mid: seq<Field>, rest: seq<byte>)
    requires AllProper(mid)
    ensures var start := Head(o, crc, kind, totlen) + Fields(o, mid);
      var start' := Head(o.Other(), crc, kind, totlen) + Fields(o.Other(), mid);
      var t := start + rest;
      |Head(o, crc, kind, totlen)| == UNKNOWN_SIZE && |start| == |start'| == UNKNOWN_SIZE + Sum(Widths(mid)) &&
      Get16(o, t, 0) == MAGIC && Get16(o, t, 2) == kind && Get32(o, t, 4) == totlen &&
      ConvertHead(o, crc, t) + Swap(Widths(mid), t[UNKNOWN_SIZE..]) == start'
  {
    hide Head, Get16, Get32, ConvertHead, Swap, Fields;
    var t := Head(o, crc, kind, totlen) + Fields(o, mid) + rest;
    assert t == Head(o, crc, kind, totlen) + (Fields(o, mid) + rest);
    HeadReads(o, crc, kind, totlen, Fields(o, mid) + rest);
    HeadReads(o.Other(), crc, kind, totlen, []);
    SwapFields(o, mid, rest);
    SwapFields(o.Other(), mid, []);
  }

  lemma {:induction false} FieldAt(o: Order, fs: seq<Field>, k: nat, rest: seq<byte>)
    requires AllProper(fs) && k < |fs|
    ensures var at := Sum(Widths(fs[..k])); var s := Fields(o, fs) + rest;
      at + fs[k].width <= |s| && s[at..at + fs[k].width] == Put(o, fs[k])
    decreases k
  {
    hide Put, Proper, Sum, Widths, Fields;
    FieldsMore(o, fs, rest);
    if k > 0 {
      FieldAt(o, fs[1..], k - 1, rest);
      WidthsMore(fs[..k]);
      assert fs[1..][..k - 1] == fs[..k][1..];
      SkipFirst(Put(o, fs[0]), Fields(o, fs[1..]) + rest, Sum(Widths(fs[1..][..k - 1])), fs[k].width);
    } else {
      assert fs[..k] == [];
      NoWidths();
    }
  }

  lemma FieldsMore(o: Order, fs: seq<Field>, rest: seq<byte>)
    requires AllProper(fs) && fs != []
    ensures AllProper(fs[1..]) && |Put(o, fs[0])| == fs[0].width
    ensures Fields(o, fs) + rest == Put(o, fs[0]) + (Fields(o, fs[1..]) + rest)
  {
    hide Put;
  }

  lemma WidthsMore(fs: seq<Field>)
    requires fs != []
    ensures Sum(Widths(fs)) == fs[0].width + Sum(Widths(fs[1..]))
  {
    assert Widths(fs)[1..] == Widths(fs[1..]);
  }

  lemma NoWidths()
    ensures Sum(Widths([])) == 0
  {
  }

  lemma SkipFirst(a: seq<byte>, b: seq<byte>, at: nat, n: nat)
    requires at + n <= |b|
    ensures (a + b)[|a| + at..|a| + at + n] == b[at..at + n]
  {
  }

  lemma WidthsFront(mid: seq<Field>, k: nat)
    requires k <= |mid|
    ensures |Widths(mid)| == |mid| && Widths(mid[..k]) == Widths(mid)[..k]
  {
  }

  lemma FirstTen()
    ensures |INODE_WIDTHS| == 15 && Sum(INODE_WIDTHS[..10]) == 36
  {
    assert INODE_WIDTHS[..10] == [4, 4, 4, 2, 2] + [4, 4, 4, 4, 4];
    SumJoin([4, 4, 4, 2, 2], [4, 4, 4, 4, 4]);
  }

  lemma FirstFour()
    ensures |DIRENT_WIDTHS| == 8 && Sum(DIRENT_WIDTHS[..4]) == 16
  {
    assert DIRENT_WIDTHS[..4] == [4, 4] + [4, 4];
    SumJoin([4, 4], [4, 4]);
  }

  lemma CsizeReads(o: Order, head: seq<byte>, mid: seq<Field>, csize: u32, rest: seq<byte>)
    requires |head| == UNKNOWN_SIZE && AllProper(mid) && Widths(mid) == INODE_WIDTHS && mid[10] == Field(4, csize)
    ensures |mid| == 15 && |Fields(o, mid)| == 48 && Get32(o, head + Fields(o, mid) + rest, 48) == csize
  {
    hide Get32, Put32, Put16, Fields, Swap, Sum;
    WidthSums();
    FirstTen();
    var t := head + Fields(o, mid) + rest;
    WidthsFront(mid, 10);
    FieldAt(o, mid, 10, rest);
    SwapFields(o, mid, []);
    assert t == head + (Fields(o, mid) + rest);
    assert t[48..52] == (Fields(o, mid) + rest)[36..40];
    Read32(o, t, 48, csize);
  }

  lemma NsizeReads(o: Order, head: seq<byte>, mid: seq<Field>, nsize: u32, rest: seq<byte>)
    requires |head| == UNKNOWN_SIZE && AllProper(mid) && Widths(mid) == DIRENT_WIDTHS && mid[4] == Field(1, nsize)
    ensures |mid| == 8 && |Fields(o, mid)| == 20 && (head + Fields(o, mid) + rest)[28] == nsize
  {
    hide Put32, Put16, Fields, Swap, Sum;
    WidthSums();
    FirstFour();
    var t := head + Fields(o, mid) + rest;
    WidthsFront(mid, 4);
    FieldAt(o, mid, 4, rest);
    SwapFields(o, mid, []);
    assert t == head + (Fields(o, mid) + rest);
    assert t[28..29] == (Fields(o, mid) + rest)[16..17];
    assert Put(o, mid[4]) == [nsize];
  }

  lemma InodeConverts(o: Order, crc: seq<byte> -> u32, recalc: bool, t: seq<byte>, start: seq<byte>, data: seq<byte>)
    requires |t| >= 68 + |data| && Get32(o, t, 48) == |data| && t[68..68 + |data|] == data
    requires ConvertHead(o, crc, t) + Swap(INODE_WIDTHS, t[12..]) == start &&
      Reversed(t[60..64]) == Put32(o.Other(), crc(data))
    ensures ConvertInode(o, crc, recalc, t) == start + Put32(o.Other(), crc(data)) + Put32(o.Other(), crc(start))
  {
  }

  lemma DirentConverts(o: Order, crc: seq<byte> -> u32, recalc: bool, t: seq<byte>, start: seq<byte>, name: seq<byte>)
    requires |t| >= 40 + |name| && t[28] == |name| && t[40..40 + |name|] == name
    requires ConvertHead(o, crc, t) + Swap(DIRENT_WIDTHS, t[12..]) == start &&
      Reversed(t[36..40]) == Put32(o.Other(), crc(name))
    ensures ConvertDirent(o, crc, recalc, t) == start + Put32(o.Other(), crc(start)) + Put32(o.Other(), crc(name))
  {
  }

  lemma InodeBranch(o: Order, crc: seq<byte> -> u32, recalc: bool, t: seq<byte>, totlen: u32)
    requires 68 <= Pad32(totlen) <= |t| && Get16(o, t, 0) == MAGIC && Get16(o, t, 2) == INODE &&
      Get32(o, t, 4) == totlen
    requires |t| - 68 >= Get32(o, t, 48)
    ensures Turn(o, crc, recalc, t) == Emit(ConvertInode(o, crc, recalc, t) + t[68..Pad32(totlen)], Pad32(totlen))
  {
    hide ConvertInode, Get16, Get32;
  }

  lemma DirentBranch(o: Order, crc: seq<byte> -> u32, recalc: bool, t: seq<byte>, totlen: u32)
    requires 40 <= Pad32(totlen) <= |t| && Get16(o, t, 0) == MAGIC && Get16(o, t, 2) == DIRENT &&
      Get32(o, t, 4) == totlen
    requires |t| - 40 >= t[28]
    ensures Turn(o, crc, recalc, t) == Emit(ConvertDirent(o, crc, recalc, t) + t[40..Pad32(totlen)], Pad32(totlen))
  {
    hide ConvertDirent, Get16, Get32;
  }

  lemma Slices(start: seq<byte>, a: seq<byte>, b: seq<byte>, data: seq<byte>, rest: seq<byte>, n: nat)
    requires |a| == |b| == 4 && n <= |data|
    ensures var t := start + (a + b + data + rest); var i := |start|;
      t == start + a + b + data + rest && t[i..i + 4] == a && t[i + 4..i + 8] == b &&
      t[i + 8..i + 8 + n] == data[..n] && t[i + 8..i + 8 + |data|] == data
  {
  }

  // What the program reads of an inode node at the front of its input.
  lemma InodeReads(o: Order, crc: seq<byte> -> u32, x: Node, rest: seq<byte>)
    requires Good(x) && x.Inode?
    ensures var t, data := Encode(o, crc, x) + rest, x.data[..x.csize];
      |t| >= 68 + |x.data| && |Encode(o, crc, x)| == 68 + |x.data| && t[68..68 + |x.data|] == x.data &&
      Get16(o, t, 0) == MAGIC && Get16(o, t, 2) == INODE && Get32(o, t, 4) == x.totlen &&
      Get32(o, t, 48) == x.csize && t[68..68 + x.csize] == data &&
      Reversed(t[60..64]) == Put32(o.Other(), crc(data)) &&
      ConvertHead(o, crc, t) + Swap(INODE_WIDTHS, t[12..]) == InodeStart(o.Other(), crc, x.totlen, x.mid)
  {
    hide ConvertHead, Head, Get16, Get32, Put32, Swap, Fields, Reversed, Sum, Widths, AllProper;
    WidthSums();
    var start := InodeStart(o, crc, x.totlen, x.mid);
    var tail := Put32(o, crc(x.data[..x.csize])) + Put32(o, crc(start)) + x.data + rest;
    Slices(start, Put32(o, crc(x.data[..x.csize])), Put32(o, crc(start)), x.data, rest, x.csize);
    assert Encode(o, crc, x) + rest == start + tail;
    StartReads(o, crc, INODE, x.totlen, x.mid, tail);
    CsizeReads(o, Head(o, crc, INODE, x.totlen), x.mid, x.csize, tail);
    PutReversed(o, Field(4, crc(x.data[..x.csize])));
  }

  lemma InodeShape(o: Order, crc: seq<byte> -> u32, x: Node)
    requires Good(x) && x.Inode?
    ensures Pad32(x.totlen) == 68 + |x.data| && x.csize <= |x.data| && AllProper(x.mid)
    ensures var start := InodeStart(o, crc, x.totlen, x.mid);
      Encode(o, crc, x) == start + Put32(o, crc(x.data[..x.csize])) + Put32(o, crc(start)) + x.data
  {
    hide InodeStart, Put32, Widths;
  }

  lemma InodeTurn(o: Order, crc: seq<byte> -> u32, recalc: bool, x: Node, rest: seq<byte>)
    requires Good(x) && x.Inode?
    ensures Turn(o, crc, recalc, Encode(o, crc, x) + rest) == Emit(Encode(o.Other(), crc, x), |Encode(o, crc, x)|)
  {
    hide ConvertHead, Get16, Get32, Put32, Swap, Reversed, AllProper, ConvertInode, Turn, InodeStart, Encode,
      Good, Pad32;
    InodeShape(o.Other(), crc, x);
    var t, start', data := Encode(o, crc, x) + rest, InodeStart(o.Other(), crc, x.totlen, x.mid), x.data[..x.csize];
    InodeReads(o, crc, x, rest);
    InodeConverts(o, crc, recalc, t, start', data);
    InodeBranch(o, crc, recalc, t, x.totlen);
    assert ConvertInode(o, crc, recalc, t) == start' + Put32(o.Other(), crc(data)) + Put32(o.Other(), crc(start'));
  }

  // What the program reads of a directory entry at the front of its input.
  lemma DirentReads(o: Order, crc: seq<byte> -> u32, x: Node, rest: seq<byte>)
    requires Good(x) && x.Dirent?
    ensures var t, name := Encode(o, crc, x) + rest, x.name[..x.nsize];
      |t| >= 40 + |x.name| && |Encode(o, crc, x)| == 40 + |x.name| && t[40..40 + |x.name|] == x.name &&
      Get16(o, t, 0) == MAGIC && Get16(o, t, 2) == DIRENT && Get32(o, t, 4) == x.totlen && t[28] == x.nsize &&
      t[40..40 + x.nsize] == name && Reversed(t[36..40]) == Put32(o.Other(), crc(name)) &&
      ConvertHead(o, crc, t) + Swap(DIRENT_WIDTHS, t[12..]) == DirentStart(o.Other(), crc, x.totlen, x.mid)
  {
    hide ConvertHead, Head, Get16, Get32, Put32, Swap, Fields, Reversed, Sum, Widths, AllProper;
    WidthSums();
    var start := DirentStart(o, crc, x.totlen, x.mid);
    var tail := Put32(o, crc(start)) + Put32(o, crc(x.name[..x.nsize])) + x.name + rest;
    Slices(start, Put32(o, crc(start)), Put32(o, crc(x.name[..x.nsize])), x.name, rest, x.nsize);
    assert Encode(o, crc, x) + rest == start + tail;
    StartReads(o, crc, DIRENT, x.totlen, x.mid, tail);
    NsizeReads(o, Head(o, crc, DIRENT, x.totlen), x.mid, x.nsize, tail);
    PutReversed(o, Field(4, crc(x.name[..x.nsize])));
  }

  lemma DirentTurn(o: Order, crc: seq<byte> -> u32, recalc: bool, x: Node, rest: seq<byte>)
    requires Good(x) && x.Dirent?
    ensures Turn(o, crc, recalc, Encode(o, crc, x) + rest) == Emit(Encode(o.Other(), crc, x), |Encode(o, crc, x)|)
  {
    hide ConvertHead, Get16, Get32, Put32, Swap, Reversed, Widths, AllProper, ConvertDirent, Turn, DirentStart;
    var t, start', name := Encode(o, crc, x) + rest, DirentStart(o.Other(), crc, x.totlen, x.mid), x.name[..x.nsize];
    DirentReads(o, crc, x, rest);
    DirentConverts(o, crc, recalc, t, start', name);
    DirentBranch(o, crc, recalc, t, x.totlen);
    assert ConvertDirent(o, crc, recalc, t) == start' + Put32(o.Other(), crc(start')) + Put32(o.Other(), crc(name));
  }

  lemma FiveFields(o: Order, kind: u16, w: u32, x: u32, y: u32, z: u32)
    ensures var fs := [Field(2, kind), Field(4, w), Field(4, x), Field(4, y), Field(4, z)];
      AllProper(fs) && Fields(o, fs) == Put16(o, kind) + Put32(o, w) + Put32(o, x) + Put32(o, y) + Put32(o, z)
  {
    hide Put16, Put32;
    var fs := [Field(2, kind), Field(4, w), Field(4, x), Field(4, y), Field(4, z)];
    ThreeFields(o, fs[2], fs[3], fs[4]);
    assert fs[1..] == [fs[1], fs[2], fs[3], fs[4]] && fs[1..][1..] == [fs[2], fs[3], fs[4]];
  }

  lemma SixFields(o: Order, kind: u16, v: u32, w: u32, x: u32, y: u32, z: u32)
    ensures var fs := [Field(2, kind), Field(4, v), Field(4, w), Field(4, x), Field(4, y), Field(4, z)];
      AllProper(fs) && Widths(fs) == SUM_DIRENT_WIDTHS &&
      Fields(o, fs) == Put16(o, kind) + Put32(o, v) + Put32(o, w) + Put32(o, x) + Put32(o, y) + Put32(o, z)
  {
    hide Put16, Put32;
    var fs := [Field(2, kind), Field(4, v), Field(4, w), Field(4, x), Field(4, y), Field(4, z)];
    ThreeFields(o, fs[3], fs[4], fs[5]);
    assert fs[1..] == [fs[1], fs[2], fs[3], fs[4], fs[5]] && fs[1..][1..] == [fs[2], fs[3], fs[4], fs[5]];
    assert fs[1..][1..][1..] == [fs[3], fs[4], fs[5]];
    assert Fields(o, fs[1..][1..]) == Put(o, fs[2]) + Fields(o, fs[1..][1..][1..]);
    assert Fields(o, fs[1..]) == Put(o, fs[1]) + Fields(o, fs[1..][1..]);
  }

  lemma InodeRecordSwaps(o: Order, x: Entry, rest: seq<byte>, n: nat)
    requires x.InodeEntry? && n > 0
    ensures SwapRecords(o, Record(o, x) + rest, n) == Behind(Record(o.Other(), x), SwapRecords(o, rest, n - 1))
  {
    hide Put16, Put32, Get16, Get32, Swap, Sum, Fields;
    var fs := [Field(2, INODE), Field(4, x.ino), Field(4, x.version), Field(4, x.offset), Field(4, x.totlen)];
    var t := Record(o, x) + rest;
    FiveFields(o, INODE, x.ino, x.version, x.offset, x.totlen);
    FiveFields(o.Other(), INODE, x.ino, x.version, x.offset, x.totlen);
    FourFields(o, INODE, x.ino, x.version, x.offset, x.totlen, rest);
    assert Widths(fs) == SUM_INODE_WIDTHS;
    SwapFields(o, fs, rest);
    assert t[18..] == rest;
  }

  lemma DirentRecordSwaps(o: Order, x: Entry, rest: seq<byte>, n: nat)
    requires x.DirentEntry? && n > 0
    ensures SwapRecords(o, Record(o, x) + rest, n) == Behind(Record(o.Other(), x), SwapRecords(o, rest, n - 1))
  {
    hide Put16, Put32, Get16, Get32, Swap, Sum, Fields;
    var fs := [Field(2, DIRENT), Field(4, x.totlen), Field(4, x.offset), Field(4, x.pino), Field(4, x.version),
      Field(4, x.ino)];
    var name: seq<byte> := [|x.name|, x.dtype] + x.name;
    var t := Record(o, x) + rest;
    SixFields(o, DIRENT, x.totlen, x.offset, x.pino, x.version, x.ino);
    SixFields(o.Other(), DIRENT, x.totlen, x.offset, x.pino, x.version, x.ino);
    SwapFields(o, fs, name + rest);
    assert t == Fields(o, fs) + (name + rest);
    assert t[0..2] == Put16(o, DIRENT);
    Read16(o, t, 0, DIRENT);
    assert t[22] == |x.name| && t[22..24 + |x.name|] == name && t[24 + |x.name|..] == rest;
    assert Record(o.Other(), x) == Fields(o.Other(), fs) + name;
  }

  lemma {:induction false} RecordsSwap(o: Order, xs: seq<Entry>, rest: seq<byte>)
    requires Convertible(xs)
    ensures SwapRecords(o, Records(o, xs) + rest, |xs|) == Swapped(Records(o.Other(), xs) + rest)
  {
    hide Record, SwapRecords;
    if xs != [] {
      var tail := Records(o, xs[1..]) + rest;
      assert Records(o, xs) + rest == Record(o, xs[0]) + tail;
      if xs[0].InodeEntry? { InodeRecordSwaps(o, xs[0], tail, |xs|); } else { DirentRecordSwaps(o, xs[0], tail, |xs|); }
      RecordsSwap(o, xs[1..], rest);
    } else {
      NoRecords(o, rest);
    }
  }

  lemma NoRecords(o: Order, rest: seq<byte>)
    ensures SwapRecords(o, [] + rest, 0) == Swapped([] + rest)
  {
  }

  lemma SumDataSlices(o: Order, x: Node)
    requires Good(x) && x.Summary?
    ensures var d := SumData(o, x); var n := |d|;
      n == x.totlen - SUMMARY_SIZE >= 8 && d[..n - 8] == Records(o, x.entries) + x.pad &&
      d[n - 8..n - 4] == Put32(o, x.offset) && d[n - 4..n] == Put32(o, x.magic)
  {
    hide Put32, Records, Record;
    ReadAllBack(o, x.entries, []);
  }

  lemma Inside(t: seq<byte>, a: nat, b: nat, i: nat, j: nat)
    requires a <= b <= |t| && i <= j <= b - a
    ensures t[a + i..a + j] == t[a..b][i..j]
  {
    var u := t[a..b];
    forall k | 0 <= k < j - i ensures t[a + i..a + j][k] == u[i..j][k] {
      assert u[i..j][k] == u[i + k];
    }
  }

  // The parts of the data behind a summary's header.
  lemma SummaryParts(o: Order, t: seq<byte>, x: Node)
    requires Good(x) && x.Summary? && |t| >= x.totlen && t[SUMMARY_SIZE..x.totlen] == SumData(o, x)
    ensures SUMMARY_SIZE + 8 <= x.totlen && t[SUMMARY_SIZE..x.totlen - 8] == Records(o, x.entries) + x.pad
    ensures t[x.totlen - 8..x.totlen - 4] == Put32(o, x.offset) && t[x.totlen - 4..x.totlen] == Put32(o, x.magic)
  {
    hide Put32, Records, Record, Convertible;
    SumDataSlices(o, x);
    var d := SumData(o, x);
    hide *;
    Inside(t, SUMMARY_SIZE, x.totlen, 0, |d| - 8);
    Inside(t, SUMMARY_SIZE, x.totlen, |d| - 8, |d| - 4);
    Inside(t, SUMMARY_SIZE, x.totlen, |d| - 4, |d|);
    assert t[SUMMARY_SIZE..x.totlen - 8] == d[0..|d| - 8] == d[..|d| - 8];
  }

  lemma SummaryConverts(o: Order, crc: seq<byte> -> u32, t: seq<byte>, x: Node, start: seq<byte>)
    requires Good(x) && x.Summary? && |t| >= x.totlen && Get32(o, t, 12) == |x.entries|
    requires t[SUMMARY_SIZE..x.totlen] == SumData(o, x) && ConvertHead(o, crc, t) + Swap(SUM_WIDTHS, t[12..]) == start
    ensures var data := SumData(o.Other(), x);
      ConvertSummary(o, crc, t, x.totlen) ==
        Emit(start + Put32(o.Other(), crc(data)) + Put32(o.Other(), crc(start)) + data, x.totlen)
  {
    hide Put32, Get32, Records, Record, SwapRecords, ConvertHead, Swap, Reversed, Convertible;
    SummaryParts(o, t, x);
    RecordsSwap(o, x.entries, x.pad);
    PutReversed(o, Field(4, x.offset));
    PutReversed(o, Field(4, x.magic));
  }

  lemma SummaryBranch(o: Order, crc: seq<byte> -> u32, recalc: bool, t: seq<byte>, totlen: u32)
    requires 40 <= totlen <= |t| && Get16(o, t, 0) == MAGIC && Get16(o, t, 2) == SUMMARY && Get32(o, t, 4) == totlen
    ensures Turn(o, crc, recalc, t) == ConvertSummary(o, crc, t, totlen)
  {
    hide ConvertSummary, Get16, Get32;
  }

  lemma SumNumReads(o: Order, head: seq<byte>, num: u32, clnMkr: u32, padded: u32, rest: seq<byte>)
    requires |head| == UNKNOWN_SIZE
    ensures var fs := SumFields(num, clnMkr, padded);
      |Fields(o, fs)| == 12 && Widths(fs) == SUM_WIDTHS && Get32(o, head + Fields(o, fs) + rest, 12) == num
  {
    hide Put32, Get32;
    var fs := SumFields(num, clnMkr, padded);
    ThreeFields(o, fs[0], fs[1], fs[2]);
    var t := head + Fields(o, fs) + rest;
    assert t[12..16] == Put32(o, num);
    Read32(o, t, 12, num);
  }

  lemma SummaryTurn(o: Order, crc: seq<byte> -> u32, recalc: bool, x: Node, rest: seq<byte>)
    requires Good(x) && x.Summary?
    ensures Turn(o, crc, recalc, Encode(o, crc, x) + rest) == Emit(Encode(o.Other(), crc, x), |Encode(o, crc, x)|)
  {
    hide ConvertHead, Head, Get16, Get32, Put32, Swap, Fields, Sum, Widths, AllProper, ConvertSummary, Turn, SumData,
      Convertible, RecordsSize, SumFields;
    WidthSums();
    var mid := SumFields(|x.entries|, x.clnMkr, x.padded);
    var head := Head(o, crc, SUMMARY, x.totlen);
    var start, data := head + Fields(o, mid), SumData(o, x);
    var tail := Put32(o, crc(data)) + Put32(o, crc(start)) + data + rest;
    var t := Encode(o, crc, x) + rest;
    SumDataSlices(o, x);
    Slices(start, Put32(o, crc(data)), Put32(o, crc(start)), data, rest, |data|);
    assert t == start + tail;
    StartReads(o, crc, SUMMARY, x.totlen, mid, tail);
    SumNumReads(o, head, |x.entries|, x.clnMkr, x.padded, tail);
    var start' := Head(o.Other(), crc, SUMMARY, x.totlen) + Fields(o.Other(), mid);
    SummaryConverts(o, crc, t, x, start');
    SummaryBranch(o, crc, recalc, t, x.totlen);
  }

  // One turn of the loop writes the node it comes upon in the other order.
  lemma NodeTurns(o: Order, crc: seq<byte> -> u32, recalc: bool, x: Node, rest: seq<byte>)
    requires Good(x)
    ensures Turn(o, crc, recalc, Encode(o, crc, x) + rest) == Emit(Encode(o.Other(), crc, x), |Encode(o, crc, x)|)
  {
    hide Turn, Encode, Good;
    if x.Inode? {
      InodeTurn(o, crc, recalc, x, rest);
    } else if x.Dirent? {
      DirentTurn(o, crc, recalc, x, rest);
    } else if x.Marker? {
      MarkerTurn(o, crc, recalc, x, rest);
    } else if x.Summary? {
      SummaryTurn(o, crc, recalc, x, rest);
    } else {
      WordTurn(o, crc, recalc, x, rest);
    }
  }
}
