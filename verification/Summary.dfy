// summary.h and linux/jffs2.h: nodes as bytes of an erase block, and the records
// that a summary node keeps about them.
module Summaries {
  import opened Basics
  import opened Bytes

  const MAGIC: u16 := 0x1985
  const DIRENT: u16 := 0xe001
  const INODE: u16 := 0xe002
  const CLEANMARKER: u16 := 0x2003
  const PADDING: u16 := 0x2004
  const SUMMARY: u16 := 0x2006
  const XATTR: u16 := 0xe008
  const XREF: u16 := 0xe009
  const SUM_MAGIC: u32 := 0x0285_1885

  const UNKNOWN_SIZE: nat := 12 // sizeof(struct jffs2_unknown_node)
  const SUMMARY_SIZE: nat := 32 // sizeof(struct jffs2_raw_summary)
  const SUM_MARKER_SIZE: nat := 8 // sizeof(struct jffs2_sum_marker)

  type Name = s: seq<byte> | |s| < 256

  // A summary record. Offsets count from the start of the erase block.
  datatype Entry =
    | InodeEntry(ino: u32, version: u32, offset: u32, totlen: u32)
    | DirentEntry(totlen: u32, offset: u32, pino: u32, version: u32, ino: u32, dtype: byte, name: Name)
    | XattrEntry(xid: u32, version: u32, offset: u32, totlen: u32)
    | XrefEntry(offset: u32)

  function RecordSize(x: Entry): nat {
    match x
    case InodeEntry(_, _, _, _) => 18
    case DirentEntry(_, _, _, _, _, _, name) => 24 + |name|
    case XattrEntry(_, _, _, _) => 18
    case XrefEntry(_) => 6
  }

  function Record(o: Order, x: Entry): (r: seq<byte>)
    ensures |r| == RecordSize(x)
  {
    match x
    case InodeEntry(ino, version, offset, totlen) =>
      Put16(o, INODE) + Put32(o, ino) + Put32(o, version) + Put32(o, offset) + Put32(o, totlen)
    case DirentEntry(totlen, offset, pino, version, ino, dtype, name) =>
      Put16(o, DIRENT) + Put32(o, totlen) + Put32(o, offset) + Put32(o, pino) + Put32(o, version) + Put32(o, ino) +
      [|name|, dtype] + name
    case XattrEntry(xid, version, offset, totlen) =>
      Put16(o, XATTR) + Put32(o, xid) + Put32(o, version) + Put32(o, offset) + Put32(o, totlen)
    case XrefEntry(offset) =>
      Put16(o, XREF) + Put32(o, offset)
  }

  // The record at the front of s, told apart by its node type.
  function ReadRecord(o: Order, s: seq<byte>): Option<Entry> {
    if |s| < 6 then None else
    var kind := Get16(o, s, 0);
    if kind == INODE && |s| >= 18 then
      Some(InodeEntry(Get32(o, s, 2), Get32(o, s, 6), Get32(o, s, 10), Get32(o, s, 14)))
    else if kind == DIRENT && |s| >= 24 && |s| - 24 >= s[22] then
      Some(DirentEntry(Get32(o, s, 2), Get32(o, s, 6), Get32(o, s, 10), Get32(o, s, 14), Get32(o, s, 18), s[23],
        s[24..24 + s[22]]))
    else if kind == XATTR && |s| >= 18 then
      Some(XattrEntry(Get32(o, s, 2), Get32(o, s, 6), Get32(o, s, 10), Get32(o, s, 14)))
    else if kind == XREF then
      Some(XrefEntry(Get32(o, s, 2)))
    else None
  }

  lemma FourFields(o: Order, kind: u16, w: u32, x: u32, y: u32, z: u32, rest: seq<byte>)
    ensures var s := Put16(o, kind) + Put32(o, w) + Put32(o, x) + Put32(o, y) + Put32(o, z) + rest;
      Get16(o, s, 0) == kind && Get32(o, s, 2) == w && Get32(o, s, 6) == x && Get32(o, s, 10) == y &&
      Get32(o, s, 14) == z
  {
    hide Put32, Put16, Get32, Get16;
    var s := Put16(o, kind) + Put32(o, w) + Put32(o, x) + Put32(o, y) + Put32(o, z) + rest;
    assert s[0..2] == Put16(o, kind);
    Read16(o, s, 0, kind);
    assert s[2..6] == Put32(o, w);
    Read32(o, s, 2, w);
    assert s[6..10] == Put32(o, x);
    Read32(o, s, 6, x);
    assert s[10..14] == Put32(o, y);
    Read32(o, s, 10, y);
    assert s[14..18] == Put32(o, z);
    Read32(o, s, 14, z);
  }

  lemma DirentReadBack(o: Order, x: Entry, rest: seq<byte>)
    requires x.DirentEntry?
    ensures ReadRecord(o, Record(o, x) + rest) == Some(x)
  {
    hide Put32, Put16, Get32, Get16;
    var s := Record(o, x) + rest;
    var end: seq<byte> := [|x.name|, x.dtype] + x.name + rest;
    var tail := Put32(o, x.ino) + end;
    FourFields(o, DIRENT, x.totlen, x.offset, x.pino, x.version, tail);
    var front := Put16(o, DIRENT) + Put32(o, x.totlen) + Put32(o, x.offset) + Put32(o, x.pino) + Put32(o, x.version);
    assert |front| == 18 && s == front + tail;
    assert s[18..22] == Put32(o, x.ino) && s[22..] == end;
    Read32(o, s, 18, x.ino);
    assert s[22] == end[0] && s[23] == end[1] && s[24..24 + |x.name|] == end[2..2 + |x.name|] == x.name;
  }

  lemma ReadBack(o: Order, x: Entry, rest: seq<byte>)
    ensures ReadRecord(o, Record(o, x) + rest) == Some(x)
  {
    hide Put32, Put16, Get32, Get16;
    var s := Record(o, x) + rest;
    match x
    case InodeEntry(ino, version, offset, totlen) =>
      FourFields(o, INODE, ino, version, offset, totlen, rest);
    case DirentEntry(_, _, _, _, _, _, _) =>
      DirentReadBack(o, x, rest);
    case XattrEntry(xid, version, offset, totlen) =>
      FourFields(o, XATTR, xid, version, offset, totlen, rest);
    case XrefEntry(offset) =>
      assert s[0..2] == Put16(o, XREF);
      Read16(o, s, 0, XREF);
      assert s[2..6] == Put32(o, offset);
      Read32(o, s, 2, offset);
  }

  // Where the fields of a record stand.
  lemma RecordBytes(o: Order, x: Entry)
    ensures var r := Record(o, x);
      |r| >= 6 &&
      match x
      case InodeEntry(ino, version, offset, totlen) =>
        |r| == 18 && Get16(o, r, 0) == 0xe002 && Get32(o, r, 2) == ino && Get32(o, r, 6) == version &&
        Get32(o, r, 10) == offset && Get32(o, r, 14) == totlen
      case DirentEntry(totlen, offset, pino, version, ino, dtype, name) =>
        |r| == 24 + |name| && Get16(o, r, 0) == 0xe001 && Get32(o, r, 2) == totlen && Get32(o, r, 6) == offset &&
        Get32(o, r, 10) == pino && Get32(o, r, 14) == version && Get32(o, r, 18) == ino && r[22] == |name| &&
        r[23] == dtype && r[24..] == name
      case XattrEntry(xid, version, offset, totlen) =>
        |r| == 18 && Get16(o, r, 0) == 0xe008 && Get32(o, r, 2) == xid && Get32(o, r, 6) == version &&
        Get32(o, r, 10) == offset && Get32(o, r, 14) == totlen
      case XrefEntry(offset) => |r| == 6 && Get16(o, r, 0) == 0xe009 && Get32(o, r, 2) == offset
  {
    hide Put32, Put16, Get32, Get16;
    var r := Record(o, x);
    assert r + [] == r;
    match x
    case InodeEntry(ino, version, offset, totlen) =>
      FourFields(o, INODE, ino, version, offset, totlen, []);
    case DirentEntry(totlen, offset, pino, version, ino, dtype, name) =>
      DirentRecordBytes(o, totlen, offset, pino, version, ino, dtype, name);
    case XattrEntry(xid, version, offset, totlen) =>
      FourFields(o, XATTR, xid, version, offset, totlen, []);
    case XrefEntry(offset) =>
      assert r[0..2] == Put16(o, XREF) && r[2..6] == Put32(o, offset);
      Read16(o, r, 0, XREF);
      Read32(o, r, 2, offset);
  }

  lemma DirentRecordBytes(o: Order, totlen: u32, offset: u32, pino: u32, version: u32, ino: u32, dtype: byte,
                          name: Name)
    ensures var r := Record(o, DirentEntry(totlen, offset, pino, version, ino, dtype, name));
      |r| == 24 + |name| && Get16(o, r, 0) == 0xe001 && Get32(o, r, 2) == totlen && Get32(o, r, 6) == offset &&
      Get32(o, r, 10) == pino && Get32(o, r, 14) == version && Get32(o, r, 18) == ino && r[22] == |name| &&
      r[23] == dtype && r[24..] == name
  {
    hide Put32, Put16, Get32, Get16;
    var r := Record(o, DirentEntry(totlen, offset, pino, version, ino, dtype, name));
    assert r[0..2] == Put16(o, DIRENT) && r[2..6] == Put32(o, totlen) && r[6..10] == Put32(o, offset);
    assert r[10..14] == Put32(o, pino) && r[14..18] == Put32(o, version) && r[18..22] == Put32(o, ino);
    Read16(o, r, 0, DIRENT);
    Read32(o, r, 2, totlen);
    Read32(o, r, 6, offset);
    Read32(o, r, 10, pino);
    Read32(o, r, 14, version);
    Read32(o, r, 18, ino);
  }

  function Records(o: Order, xs: seq<Entry>): seq<byte> {
    if xs == [] then [] else Record(o, xs[0]) + Records(o, xs[1..])
  }

  function RecordsSize(xs: seq<Entry>): nat {
    if xs == [] then 0 else RecordSize(xs[0]) + RecordsSize(xs[1..])
  }

  // n records in a row.
  function ReadRecords(o: Order, s: seq<byte>, n: nat): Option<seq<Entry>> {
    if n == 0 then Some([]) else
    match ReadRecord(o, s)
    case None => None
    case Some(x) =>
      if |s| < RecordSize(x) then None else
      match ReadRecords(o, s[RecordSize(x)..], n - 1)
      case None => None
      case Some(xs) => Some([x] + xs)
  }

  lemma RecordLength(o: Order, x: Entry)
    ensures |Record(o, x)| == RecordSize(x)
  {
  }

  lemma {:induction false} ReadAllBack(o: Order, xs: seq<Entry>, rest: seq<byte>)
    ensures ReadRecords(o, Records(o, xs) + rest, |xs|) == Some(xs) && |Records(o, xs)| == RecordsSize(xs)
  {
    hide Record, ReadRecord, RecordSize;
    if xs != [] {
      RecordLength(o, xs[0]);
      var tail := Records(o, xs[1..]) + rest;
      var s := Records(o, xs) + rest;
      ReadBack(o, xs[0], tail);
      ReadAllBack(o, xs[1..], rest);
      assert s == Record(o, xs[0]) + tail;
      assert s[RecordSize(xs[0])..] == tail;
      assert [xs[0]] + xs[1..] == xs;
    }
  }

  lemma {:induction false} RecordsMore(o: Order, xs: seq<Entry>, x: Entry)
    ensures Records(o, xs + [x]) == Records(o, xs) + Record(o, x)
    ensures RecordsSize(xs + [x]) == RecordsSize(xs) + RecordSize(x)
  {
    hide Record;
    if xs != [] {
      assert (xs + [x])[1..] == xs[1..] + [x];
      RecordsMore(o, xs[1..], x);
    }
  }

  function Padded(x: nat): (r: nat)
    ensures r % 4 == 0 && x <= r < x + 4
  {
    (x + 3) / 4 * 4
  }

  lemma PaddedIs(x: nat)
    ensures Padded(x) % 4 == 0 && x <= Padded(x) < x + 4
  {
  }

  // What a padding to the next word takes.
  lemma PaddedGap(x: nat)
    ensures Padded(x) - x == if x % 4 == 0 then 0 else 4 - x % 4
  {
    var q := x / 4;
    assert x == 4 * q + x % 4;
  }

  // What the node at the front of raw is listed as in a summary, if it is.
  function EntryOf(o: Order, raw: seq<byte>, offset: u32): Option<Entry> {
    if |raw| < 28 then None else
    var kind := Get16(o, raw, 2);
    if kind == INODE && |raw| >= 68 then
      Some(InodeEntry(Get32(o, raw, 12), Get32(o, raw, 16), offset, Get32(o, raw, 4)))
    else if kind == DIRENT && |raw| >= 40 && |raw| - 40 >= raw[28] then
      Some(DirentEntry(Get32(o, raw, 4), offset, Get32(o, raw, 12), Get32(o, raw, 16), Get32(o, raw, 20), raw[29],
        raw[40..40 + raw[28]]))
    else if kind == XATTR && |raw| >= 32 then
      Some(XattrEntry(Get32(o, raw, 12), Get32(o, raw, 16), offset, Get32(o, raw, 4)))
    else if kind == XREF then
      Some(XrefEntry(offset))
    else None
  }

  // A node as it comes from the input: it is of a listed kind and as long as
  // it says.
  predicate Listed(o: Order, raw: seq<byte>) {
    |raw| < 0x1000_0000 && EntryOf(o, raw, 0).Some? && Get16(o, raw, 0) == MAGIC && Get32(o, raw, 4) == |raw|
  }

  function Listing(o: Order, raw: seq<byte>, offset: u32): (x: Entry)
    requires Listed(o, raw)
    ensures EntryOf(o, raw, offset) == Some(x)
  {
    EntryOf(o, raw, offset).value
  }

  // The listed nodes from at on, found by going from node to node.
  function Scan(o: Order, s: seq<byte>, at: nat): seq<Entry>
    requires |s| < 0x1_0000_0000
    decreases |s| - at
  {
    if at + UNKNOWN_SIZE > |s| then []
    else if Get16(o, s, at) != MAGIC then Scan(o, s, at + 4)
    else
      var totlen := Get32(o, s, at + 4);
      if totlen == 0 || at + totlen > |s| then [] else
      (match EntryOf(o, s[at..at + totlen], at) case None => [] case Some(x) => [x]) + Scan(o, s, at + Padded(totlen))
  }

  // The same from the summary: its marker at the very end says where it is.
  function ScanSummary(o: Order, s: seq<byte>): Option<seq<Entry>> {
    if |s| < SUM_MARKER_SIZE || Get32(o, s, |s| - 4) != SUM_MAGIC then None else
    var at := Get32(o, s, |s| - 8);
    if at + SUMMARY_SIZE > |s| || Get16(o, s, at) != MAGIC || Get16(o, s, at + 2) != SUMMARY then None
    else ReadRecords(o, s[at + SUMMARY_SIZE..], Get32(o, s, at + 12))
  }
}
