// sumtool.c: nodes are packed into erase blocks, each of which is closed with a
// summary of what it holds.
module SummedBlocks {
  import opened Basics
  import opened Bytes
  import opened Summaries

  function PaddedNode(raw: seq<byte>): (r: seq<byte>)
    ensures |r| == Padded(|raw|) && r[..|raw|] == raw
  {
    raw + Ones(Padded(|raw|) - |raw|)
  }

  function Packed(nodes: seq<seq<byte>>): seq<byte> {
    if nodes == [] then [] else PaddedNode(nodes[0]) + Packed(nodes[1..])
  }

  predicate AllListed(o: Order, nodes: seq<seq<byte>>) {
    forall i :: 0 <= i < |nodes| ==> Listed(o, nodes[i])
  }

  // The entries of nodes packed from offset at on.
  function Entries(o: Order, nodes: seq<seq<byte>>, at: nat): (r: seq<Entry>)
    requires AllListed(o, nodes) && at + |Packed(nodes)| < 0x1_0000_0000
  {
    if nodes == [] then [] else
      [Listing(o, nodes[0], at)] + Entries(o, nodes[1..], at + Padded(|nodes[0]|))
  }

  lemma {:induction false} PackedMore(nodes: seq<seq<byte>>, raw: seq<byte>)
    ensures Packed(nodes + [raw]) == Packed(nodes) + PaddedNode(raw)
  {
    if nodes != [] {
      assert (nodes + [raw])[1..] == nodes[1..] + [raw];
      PackedMore(nodes[1..], raw);
    }
  }

  lemma {:induction false} EntriesMore(o: Order, nodes: seq<seq<byte>>, raw: seq<byte>, at: nat)
    requires AllListed(o, nodes) && Listed(o, raw) && at + |Packed(nodes + [raw])| < 0x1_0000_0000
    ensures AllListed(o, nodes + [raw]) && |Packed(nodes + [raw])| == |Packed(nodes)| + Padded(|raw|)
    ensures Entries(o, nodes + [raw], at) == Entries(o, nodes, at) + [Listing(o, raw, at + |Packed(nodes)|)]
  {
    hide EntryOf, Padded, Listed, Listing, PaddedNode;
    PackedMore(nodes, raw);
    if nodes != [] {
      assert (nodes + [raw])[1..] == nodes[1..] + [raw];
      EntriesMore(o, nodes[1..], raw, at + Padded(|nodes[0]|));
    }
  }

  lemma ListingSmaller(o: Order, raw: seq<byte>, at: u32)
    requires Listed(o, raw)
    ensures RecordSize(Listing(o, raw, at)) <= |raw|
  {
  }

  // A summary never takes more room than the nodes it lists.
  lemma {:induction false} EntriesSmaller(o: Order, nodes: seq<seq<byte>>, at: nat)
    requires AllListed(o, nodes) && at + |Packed(nodes)| < 0x1_0000_0000
    ensures RecordsSize(Entries(o, nodes, at)) <= |Packed(nodes)| && |Entries(o, nodes, at)| == |nodes|
  {
    hide EntryOf, Padded, Listed, Listing, RecordSize;
    if nodes != [] {
      EntriesSmaller(o, nodes[1..], at + Padded(|nodes[0]|));
      ListingSmaller(o, nodes[0], at);
    }
  }

  // What stands before the first node: nothing, or a cleanmarker.
  predicate IsLead(o: Order, lead: seq<byte>) {
    lead == [] ||
    (|lead| >= UNKNOWN_SIZE && |lead| < 0x1000_0000 && Get16(o, lead, 0) == MAGIC && Get16(o, lead, 2) == CLEANMARKER &&
     Get32(o, lead, 4) > 0 && Padded(Get32(o, lead, 4)) == |lead|)
  }

  lemma LeadScans(o: Order, lead: seq<byte>, rest: seq<byte>)
    requires IsLead(o, lead) && |lead + rest| < 0x1_0000_0000
    ensures Scan(o, lead + rest, 0) == Scan(o, lead + rest, |lead|)
  {
    var s := lead + rest;
    if lead != [] {
      assert Get16(o, s, 0) == Get16(o, lead, 0) && Get32(o, s, 4) == Get32(o, lead, 4);
      var totlen := Get32(o, s, 4);
      assert s[0..totlen] == lead[..totlen];
      assert EntryOf(o, s[0..totlen], 0) == None;
    }
  }

  lemma NodeScans(o: Order, pre: seq<byte>, raw: seq<byte>, rest: seq<byte>)
    requires Listed(o, raw) && |pre + PaddedNode(raw) + rest| < 0x1_0000_0000
    ensures var s := pre + PaddedNode(raw) + rest;
      Scan(o, s, |pre|) == [Listing(o, raw, |pre|)] + Scan(o, s, |pre| + Padded(|raw|))
  {
    hide Listing, EntryOf, Padded, PaddedNode, Listed, Get16, Get32;
    var s := pre + PaddedNode(raw) + rest;
    ListedFacts(o, raw);
    NodeInside(pre, raw, rest);
    HeaderReads(o, s, |pre|, raw);
    ListedAt(o, raw, |pre|);
  }

  lemma ListedFacts(o: Order, raw: seq<byte>)
    requires Listed(o, raw)
    ensures |raw| >= 28 && Get16(o, raw, 0) == MAGIC && Get32(o, raw, 4) == |raw| &&
      |PaddedNode(raw)| == Padded(|raw|) >= |raw|
  {
  }

  lemma ListedAt(o: Order, raw: seq<byte>, at: u32)
    requires Listed(o, raw)
    ensures EntryOf(o, raw, at) == Some(Listing(o, raw, at))
  {
  }

  lemma NodeInside(pre: seq<byte>, raw: seq<byte>, rest: seq<byte>)
    ensures var s := pre + PaddedNode(raw) + rest; |pre| + |raw| <= |s| && s[|pre|..|pre| + |raw|] == raw
  {
    var s := pre + PaddedNode(raw) + rest;
    assert s == pre + (raw + (Ones(Padded(|raw|) - |raw|) + rest));
  }

  lemma HeaderReads(o: Order, s: seq<byte>, at: nat, raw: seq<byte>)
    requires |raw| >= UNKNOWN_SIZE && at + |raw| <= |s| && s[at..at + |raw|] == raw
    ensures Get16(o, s, at) == Get16(o, raw, 0) && Get16(o, s, at + 2) == Get16(o, raw, 2) &&
      Get32(o, s, at + 4) == Get32(o, raw, 4)
  {
    assert forall i :: 0 <= i < |raw| ==> s[at + i] == raw[i];
  }

  lemma {:induction false} NodesScan(o: Order, pre: seq<byte>, nodes: seq<seq<byte>>, rest: seq<byte>)
    requires AllListed(o, nodes) && |pre + Packed(nodes) + rest| < 0x1_0000_0000
    ensures var s := pre + Packed(nodes) + rest;
      Scan(o, s, |pre|) == Entries(o, nodes, |pre|) + Scan(o, s, |pre| + |Packed(nodes)|)
    decreases |nodes|
  {
    hide Scan, EntryOf, Listed, Padded, PaddedNode;
    if nodes != [] {
      var s := pre + Packed(nodes) + rest;
      assert s == pre + PaddedNode(nodes[0]) + (Packed(nodes[1..]) + rest);
      NodeScans(o, pre, nodes[0], Packed(nodes[1..]) + rest);
      assert s == (pre + PaddedNode(nodes[0])) + Packed(nodes[1..]) + rest;
      NodesScan(o, pre + PaddedNode(nodes[0]), nodes[1..], rest);
    }
  }

  // Room for a summary of that size behind a block filled up to ofs.
  predicate Room(e: nat, ofs: nat, sumSize: nat) {
    ofs + sumSize + SUMMARY_SIZE + SUM_MARKER_SIZE <= e
  }

  // The data behind the summary header: records, padding, marker.
  function SummaryData(o: Order, e: nat, ofs: u32, xs: seq<Entry>): seq<byte>
    requires Room(e, ofs, RecordsSize(xs))
  {
    Records(o, xs) + Ones(e - ofs - SUMMARY_SIZE - SUM_MARKER_SIZE - RecordsSize(xs)) +
    (Put32(o, ofs) + Put32(o, SUM_MAGIC))
  }

  // struct jffs2_raw_summary up to node_crc, and with it.
  function SumHeader(o: Order, crc: seq<byte> -> u32, totlen: u32, num: u32, clnMkr: u32,
          data: seq<byte>): (r: seq<byte>)
    ensures |r| == SUMMARY_SIZE
  {
    var start := Put16(o, MAGIC) + Put16(o, SUMMARY) + Put32(o, totlen);
    var most := start + Put32(o, crc(start)) + Put32(o, num) + Put32(o, clnMkr) + Put32(o, 0);
    most + Put32(o, crc(data)) + Put32(o, crc(most))
  }

  // Nodes that a block holds together with a summary of them.
  predicate Fitting(o: Order, e: u32, lead: seq<byte>, nodes: seq<seq<byte>>) {
    AllListed(o, nodes) && IsLead(o, lead) && |lead + Packed(nodes)| <= e && |nodes| < 0x1_0000_0000 &&
    Room(e, |lead + Packed(nodes)|, RecordsSize(Entries(o, nodes, |lead|)))
  }

  // A block that was filled with nodes up to ofs and then closed.
  function ClosedBlock(o: Order, crc: seq<byte> -> u32, e: u32, clnMkr: u32, lead: seq<byte>,
          nodes: seq<seq<byte>>): seq<byte>
    requires Fitting(o, e, lead, nodes)
  {
    var used := lead + Packed(nodes);
    var data := SummaryData(o, e, |used|, Entries(o, nodes, |lead|));
    used + SumHeader(o, crc, e - |used|, |nodes|, clnMkr, data) + data
  }

  lemma HeaderFields(o: Order, crc: seq<byte> -> u32, totlen: u32, num: u32, clnMkr: u32, data: seq<byte>)
    ensures var h := SumHeader(o, crc, totlen, num, clnMkr, data);
      Get16(o, h, 0) == 0x1985 && Get16(o, h, 2) == 0x2006 && Get32(o, h, 4) == totlen && Get32(o, h, 12) == num &&
      Get32(o, h, 8) == crc(h[..8]) && Get32(o, h, 24) == crc(data) && Get32(o, h, 28) == crc(h[..24]) &&
      Get32(o, h, 16) == clnMkr && Get32(o, h, 20) == 0
  {
    hide Put16, Put32, Get16, Get32;
    var h := SumHeader(o, crc, totlen, num, clnMkr, data);
    var start := Put16(o, MAGIC) + Put16(o, SUMMARY) + Put32(o, totlen);
    var most := start + Put32(o, crc(start)) + Put32(o, num) + Put32(o, clnMkr) + Put32(o, 0);
    assert |start| == 8 && |most| == 24 && h == most + Put32(o, crc(data)) + Put32(o, crc(most));
    assert h[..24] == most && h[..8] == start;
    assert h[0..2] == Put16(o, MAGIC) && h[2..4] == Put16(o, SUMMARY) && h[4..8] == Put32(o, totlen);
    assert h[8..12] == Put32(o, crc(start)) && h[12..16] == Put32(o, num);
    assert h[24..28] == Put32(o, crc(data)) && h[28..32] == Put32(o, crc(most));
    assert h[16..20] == Put32(o, clnMkr) && h[20..24] == Put32(o, 0);
    Read32(o, h, 16, clnMkr);
    Read32(o, h, 20, 0);
    Read16(o, h, 0, MAGIC);
    Read16(o, h, 2, SUMMARY);
    Read32(o, h, 4, totlen);
    Read32(o, h, 8, crc(start));
    Read32(o, h, 12, num);
    Read32(o, h, 24, crc(data));
    Read32(o, h, 28, crc(most));
  }

  lemma FieldsAt(o: Order, pre: seq<byte>, h: seq<byte>, rest: seq<byte>, i: nat)
    requires i + 4 <= |h|
    ensures Get16(o, pre + h + rest, |pre| + i) == Get16(o, h, i) &&
      Get32(o, pre + h + rest, |pre| + i) == Get32(o, h, i)
  {
  }

  // The summary node itself is not listed, and nothing comes behind it.
  lemma SummaryScans(o: Order, crc: seq<byte> -> u32, used: seq<byte>, num: u32, clnMkr: u32, data: seq<byte>)
    requires |used| + SUMMARY_SIZE + |data| < 0x1_0000_0000
    ensures var s := used + SumHeader(o, crc, SUMMARY_SIZE + |data|, num, clnMkr, data) + data;
      Scan(o, s, |used|) == []
  {
    hide SumHeader, Get16, Get32;
    var h := SumHeader(o, crc, SUMMARY_SIZE + |data|, num, clnMkr, data);
    var s := used + h + data;
    HeaderFields(o, crc, SUMMARY_SIZE + |data|, num, clnMkr, data);
    FieldsAt(o, used, h, data, 0);
    FieldsAt(o, used, h, data, 2);
    FieldsAt(o, used, h, data, 4);
    assert s[|used|..|used| + |h| + |data|] == h + data;
    FieldsAt(o, [], h, data, 2);
    assert [] + h + data == h + data;
    assert EntryOf(o, h + data, |used|) == None;
  }

  lemma SumDataEnds(o: Order, e: nat, ofs: u32, xs: seq<Entry>)
    requires Room(e, ofs, RecordsSize(xs))
    ensures var data := SummaryData(o, e, ofs, xs);
      |data| == e - ofs - SUMMARY_SIZE && data[|data| - 8..] == Put32(o, ofs) + Put32(o, SUM_MAGIC) &&
      ReadRecords(o, data, |xs|) == Some(xs)
  {
    hide Put32, Records, ReadRecords;
    var pad := Ones(e - ofs - SUMMARY_SIZE - SUM_MARKER_SIZE - RecordsSize(xs));
    var end := Put32(o, ofs) + Put32(o, SUM_MAGIC);
    ReadAllBack(o, xs, pad + end);
    assert SummaryData(o, e, ofs, xs) == Records(o, xs) + (pad + end);
  }

  // The summary behind the used part of a block reads back as it was written.
  lemma SummaryReads(o: Order, crc: seq<byte> -> u32, e: u32, clnMkr: u32, used: seq<byte>, xs: seq<Entry>)
    requires |used| <= e && Room(e, |used|, RecordsSize(xs)) && |xs| < 0x1_0000_0000
    ensures var data := SummaryData(o, e, |used|, xs);
      var b := used + SumHeader(o, crc, e - |used|, |xs|, clnMkr, data) + data;
      |b| == e && ScanSummary(o, b) == Some(xs) && Get32(o, b, e - 8) == |used| && Get32(o, b, e - 4) == SUM_MAGIC
  {
    hide Put32, Put16, Get16, Get32, Records, SummaryData, SumHeader, ReadRecords, RecordsSize;
    var data := SummaryData(o, e, |used|, xs);
    SumDataEnds(o, e, |used|, xs);
    var h := SumHeader(o, crc, e - |used|, |xs|, clnMkr, data);
    var b := used + h + data;
    assert |b| == e && b[e - 8..] == data[|data| - 8..];
    MarkerReads(o, e, |used|, b);
    HeaderFields(o, crc, e - |used|, |xs|, clnMkr, data);
    FieldsAt(o, used, h, data, 0);
    FieldsAt(o, used, h, data, 2);
    FieldsAt(o, used, h, data, 12);
    assert b[|used| + SUMMARY_SIZE..] == data;
  }

  // In every closed block the summary lists exactly the nodes of the block in
  // their order, the block is full, and its last 8 bytes are the marker.
  lemma SummaryAgrees(o: Order, crc: seq<byte> -> u32, e: u32, clnMkr: u32, lead: seq<byte>, nodes: seq<seq<byte>>)
    requires Fitting(o, e, lead, nodes)
    ensures var b := ClosedBlock(o, crc, e, clnMkr, lead, nodes);
      |b| == e && Scan(o, b, 0) == Entries(o, nodes, |lead|) && ScanSummary(o, b) == Some(Scan(o, b, 0)) &&
      Get32(o, b, e - 8) == |lead + Packed(nodes)| && Get32(o, b, e - 4) == 0x0285_1885
  {
    hide Scan, ScanSummary, Entries, EntryOf, AllListed, IsLead, SumHeader, SummaryData, Get16, Get32, RecordsSize;
    var xs := Entries(o, nodes, |lead|);
    EntriesSmaller(o, nodes, |lead|);
    var used := lead + Packed(nodes);
    SummaryReads(o, crc, e, clnMkr, used, xs);
    var data := SummaryData(o, e, |used|, xs);
    var h := SumHeader(o, crc, e - |used|, |nodes|, clnMkr, data);
    var b := used + h + data;
    assert b == lead + (Packed(nodes) + (h + data));
    LeadScans(o, lead, Packed(nodes) + (h + data));
    assert b == lead + Packed(nodes) + (h + data);
    NodesScan(o, lead, nodes, h + data);
    SummaryScans(o, crc, used, |nodes|, clnMkr, data);
  }

  lemma MarkerReads(o: Order, e: u32, ofs: u32, b: seq<byte>)
    requires |b| == e >= 8 && b[e - 8..] == Put32(o, ofs) + Put32(o, SUM_MAGIC)
    ensures Get32(o, b, e - 8) == ofs && Get32(o, b, e - 4) == SUM_MAGIC
  {
    assert b[e - 8..e - 4] == b[e - 8..][..4] == Put32(o, ofs);
    assert b[e - 4..e] == b[e - 8..][4..] == Put32(o, SUM_MAGIC);
    Read32(o, b, e - 8, ofs);
    Read32(o, b, e - 4, SUM_MAGIC);
  }

  // A record r of the node raw that begins at `at`: the fields are copied, the
  // offset is put in, and a directory entry keeps its name.
  predicate Copies(o: Order, raw: seq<byte>, at: u32, r: seq<byte>) {
    |r| >= 6 && |raw| >= 12 && Get16(o, r, 0) == Get16(o, raw, 2) &&
    var kind := Get16(o, raw, 2);
    if kind == INODE || kind == XATTR then
      |r| == 18 && |raw| >= 20 && Get32(o, r, 2) == Get32(o, raw, 12) && Get32(o, r, 6) == Get32(o, raw, 16) &&
      Get32(o, r, 10) == at && Get32(o, r, 14) == |raw|
    else if kind == DIRENT then CopiesEntry(o, raw, at, r)
    else kind == XREF && |r| == 6 && Get32(o, r, 2) == at
  }

  predicate CopiesEntry(o: Order, raw: seq<byte>, at: u32, r: seq<byte>) {
    |raw| >= 40 &&
    var n: nat := raw[28];
    |raw| >= 40 + n && |r| == 24 + n && Get32(o, r, 2) == |raw| && Get32(o, r, 6) == at &&
    Get32(o, r, 10) == Get32(o, raw, 12) && Get32(o, r, 14) == Get32(o, raw, 16) &&
    Get32(o, r, 18) == Get32(o, raw, 20) && r[22] == raw[28] && r[23] == raw[29] && r[24..] == raw[40..40 + n]
  }

  lemma RecordCopies(o: Order, raw: seq<byte>, at: u32)
    requires Listed(o, raw)
    ensures Copies(o, raw, at, Record(o, Listing(o, raw, at)))
  {
    hide Get16, Get32, Record;
    RecordBytes(o, Listing(o, raw, at));
  }

  // The offset in a record is where the node it describes begins.
  lemma {:induction false} EntryPoints(o: Order, lead: seq<byte>, nodes: seq<seq<byte>>, i: nat)
    requires AllListed(o, nodes) && i < |nodes| && |lead + Packed(nodes)| < 0x1_0000_0000
    ensures var xs := Entries(o, nodes, |lead|);
      |xs| == |nodes| && xs[i].offset + |nodes[i]| <= |lead + Packed(nodes)| &&
      xs[i] == Listing(o, nodes[i], xs[i].offset) &&
      (lead + Packed(nodes))[xs[i].offset..xs[i].offset + |nodes[i]|] == nodes[i]
    decreases i
  {
    hide EntryOf, Listed, Padded;
    EntriesSmaller(o, nodes, |lead|);
    assert lead + Packed(nodes) == lead + PaddedNode(nodes[0]) + Packed(nodes[1..]);
    if i == 0 {
      OffsetListed(o, nodes[0], |lead|);
    } else {
      EntryPoints(o, lead + PaddedNode(nodes[0]), nodes[1..], i - 1);
    }
  }

  lemma OffsetListed(o: Order, raw: seq<byte>, at: u32)
    requires Listed(o, raw)
    ensures Listing(o, raw, at).offset == at
  {
  }

  lemma {:induction false} PackedAligned(nodes: seq<seq<byte>>)
    ensures |Packed(nodes)| % 4 == 0
  {
    hide PaddedNode, Padded;
    if nodes != [] {
      PackedAligned(nodes[1..]);
      AlignedNode(nodes[0]);
    }
  }

  lemma AlignedNode(raw: seq<byte>)
    ensures |PaddedNode(raw)| % 4 == 0
  {
    hide PaddedNode;
    PaddedIs(|raw|);
    PaddedLength(raw);
  }

  lemma PaddedLength(raw: seq<byte>)
    ensures |PaddedNode(raw)| == Padded(|raw|)
  {
  }

  // The space a node takes up in the summary does not depend on its place.
  function Plus(o: Order, raw: seq<byte>): nat
    requires Listed(o, raw)
  {
    RecordSize(Listing(o, raw, 0))
  }

  lemma PlusAnywhere(o: Order, raw: seq<byte>, at: u32)
    requires Listed(o, raw)
    ensures RecordSize(Listing(o, raw, at)) == Plus(o, raw) && 0 < Plus(o, raw) <= |raw|
  {
  }

  lemma {:induction false} FewNodes(o: Order, nodes: seq<seq<byte>>)
    requires AllListed(o, nodes)
    ensures |nodes| <= |Packed(nodes)|
  {
    if nodes != [] { FewNodes(o, nodes[1..]); }
  }

  function Cleanmarker(o: Order, crc: seq<byte> -> u32, size: u32): seq<byte>
    requires size >= UNKNOWN_SIZE
  {
    var start := Put16(o, MAGIC) + Put16(o, CLEANMARKER) + Put32(o, size);
    start + Put32(o, crc(start)) + Ones(Padded(size) - UNKNOWN_SIZE)
  }

  lemma CleanmarkerLeads(o: Order, crc: seq<byte> -> u32, size: u32)
    requires UNKNOWN_SIZE <= size < 0x0fff_fff0
    ensures IsLead(o, Cleanmarker(o, crc, size)) && |Cleanmarker(o, crc, size)| == Padded(size)
  {
    hide Put16, Put32, Get16, Get32;
    var c := Cleanmarker(o, crc, size);
    assert c[0..2] == Put16(o, MAGIC) && c[2..4] == Put16(o, CLEANMARKER) && c[4..8] == Put32(o, size);
    Read16(o, c, 0, MAGIC);
    Read16(o, c, 2, CLEANMARKER);
    Read32(o, c, 4, size);
  }

  // The bytes of a cleanmarker: its head with a checksum, and then 0xff.
  lemma CleanmarkerBytes(o: Order, crc: seq<byte> -> u32, size: u32)
    requires size >= UNKNOWN_SIZE
    ensures var c := Cleanmarker(o, crc, size);
      |c| == Padded(size) && Get16(o, c, 0) == 0x1985 && Get16(o, c, 2) == 0x2003 && Get32(o, c, 4) == size &&
      Get32(o, c, 8) == crc(c[..8]) && forall i :: 12 <= i < |c| ==> c[i] == 0xff
  {
    hide Put16, Put32, Get16, Get32;
    var c := Cleanmarker(o, crc, size);
    var start := Put16(o, MAGIC) + Put16(o, CLEANMARKER) + Put32(o, size);
    assert |start| == 8 && c[..8] == start;
    assert c[0..2] == Put16(o, MAGIC) && c[2..4] == Put16(o, CLEANMARKER) && c[4..8] == Put32(o, size);
    assert c[8..12] == Put32(o, crc(start));
    Read16(o, c, 0, MAGIC);
    Read16(o, c, 2, CLEANMARKER);
    Read32(o, c, 4, size);
    Read32(o, c, 8, crc(start));
  }

  // The comparison of pad_block_if_less_than. It is made on unsigned numbers,
  // although the right-hand side may be negative.
  function DatasizeFor(sumSize: nat, req: nat, plus: nat): nat {
    Padded(req + plus + sumSize + SUMMARY_SIZE + SUM_MARKER_SIZE)
  }

  predicate Closes(e: nat, ofs: nat, sumSize: nat, req: nat, plus: nat) {
    (ofs + req) % 0x1_0000_0000 > (e - DatasizeFor(sumSize, req, plus)) % 0x1_0000_0000
  }

  // Offset and summary size once a node is written; lead is the room that a
  // cleanmarker takes in a new block.
  function AfterWrite(e: nat, lead: nat, ofs: nat, sumSize: nat, req: nat, plus: nat): (nat, nat) {
    var (d, s) := if Closes(e, ofs, sumSize, req, plus) then (0, 0) else (ofs, sumSize);
    ((if d == 0 then lead else d) + Padded(req), s + plus)
  }

  // The summary still fits behind the block exactly when the comparison did
  // not wrap, and the node fits into a new block if it has to go there.
  lemma SpaceIsKept(e: nat, lead: nat, ofs: nat, sumSize: nat, req: nat, plus: nat)
    requires e % 4 == 0 && e < 0x1000_0000 && req <= e && plus <= e && req >= 3
    requires Room(e, ofs, sumSize) && (ofs == 0 ==> sumSize == 0)
    ensures var (d, s) := AfterWrite(e, lead, ofs, sumSize, req, plus);
      Room(e, d, s) <==>
      req + plus + sumSize + 40 <= e &&
      ((ofs == 0 || ofs + req + DatasizeFor(sumSize, req, plus) > e) ==> Room(e, lead + Padded(req), plus))
  {
    hide Padded, Closes, DatasizeFor;
    PaddedIs(req);
    ClosesIs(e, ofs, sumSize, req, plus);
  }

  // The comparison as it was meant, and what it is if the difference is
  // negative.
  lemma ClosesIs(e: nat, ofs: nat, sumSize: nat, req: nat, plus: nat)
    requires e % 4 == 0 && e < 0x1000_0000 && req <= e && plus <= e && sumSize <= e && ofs <= e
    ensures var size := DatasizeFor(sumSize, req, plus);
      (size <= e <==> req + plus + sumSize + 40 <= e) && size >= req + plus + sumSize + 40 &&
      (Closes(e, ofs, sumSize, req, plus) <==> size <= e && ofs + req + size > e)
  {
    hide Padded;
    PaddedIs(req + plus + sumSize + SUMMARY_SIZE + SUM_MARKER_SIZE);
    var size := DatasizeFor(sumSize, req, plus);
    Unsigned(ofs + req);
    if size <= e {
      Unsigned(e - size);
    } else {
      Negative(size - e);
    }
  }

  lemma Unsigned(x: nat)
    requires x < 0x1_0000_0000
    ensures x % 0x1_0000_0000 == x
  {
  }

  lemma Negative(x: int)
    requires 0 < x < 0x8000_0000
    ensures -x % 0x1_0000_0000 == 0x1_0000_0000 - x
  {
  }

  lemma RoomLess(e: nat, ofs: nat, ofs': nat, sumSize: nat, sumSize': nat)
    requires Room(e, ofs, sumSize) && ofs' <= ofs && sumSize' <= sumSize
    ensures Room(e, ofs', sumSize') && ofs' < e
  {
  }

  // For nodes of well under half an erase block it never wraps.
  lemma HalfIsEnough(e: nat, lead: nat, ofs: nat, sumSize: nat, req: nat, plus: nat)
    requires e % 4 == 0 && e < 0x1000_0000 && 3 <= req && plus <= req
    requires Room(e, ofs, sumSize) && sumSize <= ofs
    requires 2 * (req + plus + 23) <= e && Room(e, lead + Padded(req), plus)
    ensures var (d, s) := AfterWrite(e, lead, ofs, sumSize, req, plus); Room(e, d, s) && s <= d
    ensures req + plus + sumSize + 40 <= DatasizeFor(sumSize, req, plus) <= e
  {
    assert req + plus + sumSize + 40 <= e - 3;
    SpaceIsKept(e, lead, ofs, sumSize, req, plus);
  }

  // Two nodes that each nearly fill a block are written over its end.
  lemma LargeNodesOverflow(e: nat)
    requires e % 4 == 0 && 1000 <= e < 0x1000_0000
    ensures var (d, s) := AfterWrite(e, 0, 0, 0, e - 60, 18);
      Room(e, d, s) && AfterWrite(e, 0, d, s, e - 60, 18).0 > e
  {
  }
}

module SumTools {
  import opened Bytes
  import opened Summaries
  import opened SummedBlocks

  // A block that went out with a summary.
  datatype Closed = Closed(clnMkr: u32, lead: seq<byte>, nodes: seq<seq<byte>>)

  ghost predicate AllFitting(o: Order, e: u32, closed: seq<Closed>) {
    forall i :: 0 <= i < |closed| ==> Fitting(o, e, closed[i].lead, closed[i].nodes)
  }

  ghost function BlocksOf(o: Order, crc: seq<byte> -> u32, e: u32, closed: seq<Closed>): (r: seq<byte>)
    requires AllFitting(o, e, closed)
  {
    if closed == [] then [] else
      var c := closed[|closed| - 1];
      BlocksOf(o, crc, e, closed[..|closed| - 1]) + ClosedBlock(o, crc, e, c.clnMkr, c.lead, c.nodes)
  }

  ghost function NodesOf(closed: seq<Closed>): seq<seq<byte>> {
    if closed == [] then [] else NodesOf(closed[..|closed| - 1]) + closed[|closed| - 1].nodes
  }

  // What the scan of the input image comes upon.
  datatype Item = NodeItem(raw: seq<byte>) | CleanmarkerItem(totlen: u32)

  ghost function RawsOf(items: seq<Item>): seq<seq<byte>> {
    if items == [] then [] else
      RawsOf(items[..|items| - 1]) +
      (match items[|items| - 1] case NodeItem(raw) => [raw] case CleanmarkerItem(_) => [])
  }

  // The lengths that decide where the blocks end: the cleanmarker as far as it
  // is known, and what is in the buffer.
  datatype Fill = Fill(found: bool, size: u32, ofs: nat, sum: nat)

  class SumTool {
    const e: u32 // erase_block_size
    const o: Order
    const crc: seq<byte> -> u32
    const addCleanmarkers: bool
    const useInputSize: bool
    var found: bool
    var cleanmarkerSize: u32
    var dataBuffer: seq<byte> // data_buffer up to data_ofs
    var records: seq<Entry>
    var sumSize: nat
    var out: seq<byte>
    ghost var lead: seq<byte>
    ghost var nodes: seq<seq<byte>>
    ghost var closed: seq<Closed>

    // A cleanmarker size given by the caller counts as found.
    constructor (eraseBlockSize: u32, order: Order, crc32: seq<byte> -> u32, cleanmarkers: bool, inputSize: bool,
                 markerSize: u32)
      requires eraseBlockSize % 4 == 0 && 40 <= eraseBlockSize < 0x1000_0000 && UNKNOWN_SIZE <= markerSize < 0x0fff_fff0
      ensures Valid() && Led() && closed == [] && nodes == [] && out == [] && dataBuffer == [] && found == !inputSize
      ensures e == eraseBlockSize && o == order && crc == crc32
      ensures addCleanmarkers == cleanmarkers && useInputSize == inputSize && cleanmarkerSize == markerSize
    {
      e, o, crc, addCleanmarkers, useInputSize := eraseBlockSize, order, crc32, cleanmarkers, inputSize;
      found, cleanmarkerSize, dataBuffer, records, sumSize, out := !inputSize, markerSize, [], [], 0, [];
      lead, nodes, closed := [], [], [];
    }

    function LeadSize(): nat
      reads this
    {
      if addCleanmarkers && found then Padded(cleanmarkerSize) else 0
    }

    ghost predicate Block()
      reads this`lead, this`nodes, this`dataBuffer, this`records, this`sumSize
    {
      Fitting(o, e, lead, nodes) && dataBuffer == lead + Packed(nodes) && |dataBuffer| % 4 == 0 &&
      records == Entries(o, nodes, |lead|) && sumSize == RecordsSize(records) <= |dataBuffer|
    }

    ghost predicate Output()
      reads this`closed, this`out
    {
      AllFitting(o, e, closed) && out == BlocksOf(o, crc, e, closed)
    }

    ghost predicate Sized()
      reads this`cleanmarkerSize
    {
      e % 4 == 0 && 40 <= e < 0x1000_0000 && UNKNOWN_SIZE <= cleanmarkerSize < 0x0fff_fff0
    }

    ghost predicate Leads()
      requires Sized()
      reads this`lead, this`found, this`cleanmarkerSize
    {
      lead != [] ==> addCleanmarkers && found && lead == Cleanmarker(o, crc, cleanmarkerSize)
    }

    // Between two nodes: no cleanmarker without a node behind it.
    ghost predicate Valid()
      reads this
    {
      Sized() && Block() && Output() && Leads() && (nodes == [] ==> lead == [])
    }

    // A block with nodes has a cleanmarker if it should.
    ghost predicate Led()
      reads this
    {
      addCleanmarkers && found && nodes != [] ==> lead != []
    }

    ghost function Written(): seq<seq<byte>>
      reads this
    {
      NodesOf(closed) + nodes
    }

    // The loop that takes the records off the list.
    method TakeRecords() returns (page: seq<byte>)
      modifies this`records
      ensures page == Records(o, old(records)) && records == []
    {
      hide Record;
      page := [];
      while records != []
        invariant page + Records(o, records) == Records(o, old(records))
        decreases |records|
      {
        page := page + Record(o, records[0]);
        records := records[1..];
      }
    }

    method DumpSumRecords()
      requires Sized() && Block()
      modifies this`dataBuffer, this`records, this`sumSize
      ensures old(records) == [] ==> dataBuffer == old(dataBuffer) && sumSize == old(sumSize)
      ensures old(records) != [] ==> dataBuffer == ClosedBlock(o, crc, e, LeadMark(), lead, nodes) && sumSize == 0
      ensures records == []
    {
      hide Records, RecordsSize, SumHeader, Entries, Packed, IsLead, AllListed, Put32;
      if records == [] {
        return;
      }
      EntriesSmaller(o, nodes, |lead|);
      ghost var xs := records;
      var datasize := sumSize + SUM_MARKER_SIZE;
      var infosize := SUMMARY_SIZE + datasize;
      var padsize := e - |dataBuffer| - infosize;
      var offset := |dataBuffer|;
      var num := |records|;
      infosize, datasize := infosize + padsize, datasize + padsize;
      var page := TakeRecords();
      sumSize := 0;
      page := page + Ones(padsize) + (Put32(o, offset) + Put32(o, SUM_MAGIC));
      assert page == SummaryData(o, e, offset, xs);
      dataBuffer := dataBuffer + SumHeader(o, crc, infosize, num, LeadMark(), page) + page;
    }

    function LeadMark(): u32
      reads this
    {
      if addCleanmarkers && found then cleanmarkerSize else 0
    }

    method WriteBuffToFile()
      modifies this`out, this`dataBuffer
      ensures out == old(out) + old(dataBuffer) && dataBuffer == []
    {
      out := out + dataBuffer;
      dataBuffer := [];
    }

    // What goes out if the block is closed now.
    ghost function Current(): Closed
      reads this
    {
      Closed(LeadMark(), lead, nodes)
    }

    // The block goes out with its summary and a new one begins.
    method CloseBlock()
      requires Valid()
      modifies this
      ensures Valid() && nodes == [] && Written() == old(Written()) && Same()
      ensures closed == old(closed) + (if old(nodes) == [] then [] else [old(Current())])
    {
      hide Entries, Packed, IsLead, AllListed, Room, ClosedBlock, NodesOf, BlocksOf, AllFitting, RecordsSize, Padded;
      ghost var done, c := closed, Current();
      NoNodes();
      FewNodes(o, nodes);
      EntriesSmaller(o, nodes, |lead|);
      DumpSumRecords();
      WriteBuffToFile();
      if nodes != [] {
        ClosedMore(done, c);
        closed := done + [c];
      } else {
        assert NodesOf(closed) + nodes == NodesOf(closed);
        assert out + [] == out;
      }
      lead, nodes := [], [];
      assert NodesOf(closed) + [] == NodesOf(closed);
    }

    lemma ClosedMore(done: seq<Closed>, c: Closed)
      requires AllFitting(o, e, done) && Fitting(o, e, c.lead, c.nodes)
      ensures AllFitting(o, e, done + [c]) && NodesOf(done + [c]) == NodesOf(done) + c.nodes
      ensures BlocksOf(o, crc, e, done + [c]) ==
        BlocksOf(o, crc, e, done) + ClosedBlock(o, crc, e, c.clnMkr, c.lead, c.nodes)
    {
      hide Fitting, ClosedBlock;
      assert (done + [c])[..|done|] == done;
    }

    twostate predicate Same()
      reads this
    {
      found == old(found) && cleanmarkerSize == old(cleanmarkerSize)
    }

    lemma NoNodes()
      ensures Packed([]) == [] && AllListed(o, []) && IsLead(o, []) && Entries(o, [], 0) == [] && RecordsSize([]) == 0
      ensures e >= 40 ==> Room(e, 0, 0)
    {
    }

    ghost function Lengths(): Fill
      reads this
    {
      Fill(found, cleanmarkerSize, |dataBuffer|, sumSize)
    }

    function LeadFor(f: Fill): nat {
      if addCleanmarkers && f.found then Padded(f.size) else 0
    }

    // There is room for one more node, and behind it still for the summary.
    predicate Fits(f: Fill, req: nat, plus: nat) {
      3 <= req <= e && plus <= req &&
      var (d, s) := AfterWrite(e, LeadFor(f), f.ofs, f.sum, req, plus); Room(e, d, s)
    }

    // The item can be taken up without writing over the end of the block.
    predicate Suits(f: Fill, x: Item) {
      match x
      case NodeItem(raw) => Listed(o, raw) && Fits(f, |raw|, Plus(o, raw))
      case CleanmarkerItem(totlen) => UNKNOWN_SIZE <= totlen < 0x0fff_fff0
    }

    // What an item does to the lengths.
    function Turned(f: Fill, x: Item): Fill
      requires Suits(f, x)
    {
      match x
      case NodeItem(raw) =>
        var (d, s) := AfterWrite(e, LeadFor(f), f.ofs, f.sum, |raw|, Plus(o, raw)); f.(ofs := d, sum := s)
      case CleanmarkerItem(totlen) =>
        if f.found then f else f.(found := true, size := if addCleanmarkers && useInputSize then totlen else f.size)
    }

    // All items can be taken up, one after the other.
    predicate AllSuit(f: Fill, items: seq<Item>)
      decreases |items|
    {
      items == [] || (Suits(f, items[0]) && AllSuit(Turned(f, items[0]), items[1..]))
    }

    function AllTurned(f: Fill, items: seq<Item>): Fill
      requires AllSuit(f, items)
      decreases |items|
    {
      if items == [] then f else AllTurned(Turned(f, items[0]), items[1..])
    }

    // Nodes of well under half an erase block, and cleanmarkers of at most
    // limit bytes.
    predicate Modest(limit: nat, x: Item) {
      match x
      case NodeItem(raw) =>
        Listed(o, raw) && 3 <= |raw| && 2 * (|raw| + Plus(o, raw) + 23) <= e &&
        Room(e, limit + Padded(|raw|), Plus(o, raw))
      case CleanmarkerItem(totlen) => UNKNOWN_SIZE <= totlen < 0x0fff_fff0 && Padded(totlen) <= limit
    }

    // Such items can always be taken up.
    lemma {:induction false} ModestSuit(f: Fill, items: seq<Item>, limit: nat)
      requires Sized() && Room(e, f.ofs, f.sum) && f.sum <= f.ofs && Padded(f.size) <= limit
      requires forall i :: 0 <= i < |items| ==> Modest(limit, items[i])
      ensures AllSuit(f, items)
      decreases |items|
    {
      hide Padded, Room, AfterWrite, Listed, Plus;
      if items != [] {
        assert Modest(limit, items[0]);
        match items[0] {
          case NodeItem(raw) =>
            PlusAnywhere(o, raw, 0);
            RoomLess(e, limit + Padded(|raw|), LeadFor(f) + Padded(|raw|), Plus(o, raw), Plus(o, raw));
            HalfIsEnough(e, LeadFor(f), f.ofs, f.sum, |raw|, Plus(o, raw));
          case CleanmarkerItem(_) =>
        }
        ModestSuit(Turned(f, items[0]), items[1..], limit);
      }
    }

    ghost predicate Opened()
      reads this
    {
      Sized() && Block() && Output() && Leads() && |dataBuffer| < e
    }

    method StartBlock()
      requires Valid() && (|dataBuffer| == 0 ==> LeadSize() < e && Room(e, LeadSize(), 0))
      modifies this`dataBuffer, this`lead
      ensures Opened() && |dataBuffer| == if old(|dataBuffer|) == 0 then LeadSize() else old(|dataBuffer|)
      ensures old(Led()) && addCleanmarkers && found ==> lead != []
      ensures lead ==
        if old(|dataBuffer|) == 0 && addCleanmarkers && found then Cleanmarker(o, crc, cleanmarkerSize) else old(lead)
    {
      hide Entries, Packed, IsLead, AllListed, RecordsSize, Cleanmarker;
      NoNodes();
      FewNodes(o, nodes);
      EntriesSmaller(o, nodes, |lead|);
      if addCleanmarkers && found {
        if |dataBuffer| == 0 {
          CleanmarkerLeads(o, crc, cleanmarkerSize);
          dataBuffer := Cleanmarker(o, crc, cleanmarkerSize);
          lead := dataBuffer;
          assert lead + [] == lead;
          NoEntries(|lead|);
        }
      }
    }

    lemma NoEntries(at: nat)
      requires at < 0x1_0000_0000
      ensures Packed([]) == [] && AllListed(o, []) && Entries(o, [], at) == []
    {
    }

    method PadBlockIfLessThan(req: nat, plus: nat)
      requires Valid() && Fits(Lengths(), req, plus)
      modifies this
      ensures Opened() && Written() == old(Written()) && Same()
      ensures old(Led()) && addCleanmarkers && found ==> lead != []
      ensures (|dataBuffer| + Padded(req), sumSize + plus) ==
        old(AfterWrite(e, LeadSize(), |dataBuffer|, sumSize, req, plus))
      ensures Room(e, |dataBuffer| + Padded(req), sumSize + plus)
      ensures if old(Closes(e, |dataBuffer|, sumSize, req, plus)) && old(nodes) != []
              then closed == old(closed) + [old(Current())] && nodes == []
              else closed == old(closed) && nodes == old(nodes)
    {
      hide Block, Output, Closes, DatasizeFor, Padded, Room;
      SmallSum();
      ghost var first := |dataBuffer| == 0 || Closes(e, |dataBuffer|, sumSize, req, plus);
      if Closes(e, |dataBuffer|, sumSize, req, plus) {
        CloseBlock();
        SmallSum();
      }
      if first { RoomLess(e, LeadSize() + Padded(req), LeadSize(), plus, 0); }
      StartBlock();
    }

    lemma SmallSum()
      requires Valid()
      ensures sumSize <= |dataBuffer| && Room(e, |dataBuffer|, sumSize) &&
        (nodes == [] ==> |dataBuffer| == 0 && sumSize == 0)
    {
      EntriesSmaller(o, nodes, |lead|);
    }

    method PadWord()
      modifies this`dataBuffer
      ensures dataBuffer == old(dataBuffer) + Ones(Padded(|old(dataBuffer)|) - |old(dataBuffer)|)
    {
      hide Padded;
      PaddedGap(|dataBuffer|);
      if |dataBuffer| % 4 != 0 {
        dataBuffer := dataBuffer + Ones(4 - |dataBuffer| % 4);
      } else {
        assert dataBuffer + Ones(0) == dataBuffer;
      }
    }

    method Append(raw: seq<byte>)
      requires Opened() && Listed(o, raw) && Room(e, |dataBuffer| + Padded(|raw|), sumSize + Plus(o, raw))
      modifies this`records, this`sumSize, this`dataBuffer, this`nodes
      ensures Valid() && nodes == old(nodes) + [raw]
      ensures |dataBuffer| == old(|dataBuffer|) + Padded(|raw|) && sumSize == old(sumSize) + Plus(o, raw)
    {
      hide Entries, Packed, IsLead, AllListed, RecordsSize, Listed, Listing, Fitting, Room, Padded, RecordSize,
        Output, EntryOf, Plus, PaddedNode, Ones, Cleanmarker;
      ghost var before := dataBuffer;
      var x := Listing(o, raw, |dataBuffer|);
      PlusAnywhere(o, raw, |dataBuffer|);
      NodeFits(raw);
      records := records + [x];
      sumSize := sumSize + RecordSize(x);
      dataBuffer := dataBuffer + raw;
      PadWord();
      PaddedEnd(before, raw);
      nodes := nodes + [raw];
    }

    lemma PaddedEnd(before: seq<byte>, raw: seq<byte>)
      requires |before| % 4 == 0
      ensures before + raw + Ones(Padded(|before + raw|) - |before + raw|) == before + PaddedNode(raw)
      ensures |before + PaddedNode(raw)| % 4 == 0 && |before + PaddedNode(raw)| == |before| + Padded(|raw|)
    {
      hide Padded, Ones;
      PaddedBehind(|before|, |raw|);
      PaddedIs(|raw|);
      PaddedLength(raw);
    }

    lemma PaddedBehind(before: nat, n: nat)
      requires before % 4 == 0
      ensures Padded(before + n) == before + Padded(n)
    {
    }

    // write_inode_to_buff, write_dirent_to_buff, write_xattr_to_buff and
    // write_xref_to_buff.
    method WriteNode(raw: seq<byte>)
      requires Valid() && Suits(Lengths(), NodeItem(raw))
      modifies this
      ensures Valid() && Written() == old(Written()) + [raw] && Same()
      ensures Lengths() == Turned(old(Lengths()), NodeItem(raw))
      ensures old(Led()) ==> Led()
      ensures if old(Closes(e, |dataBuffer|, sumSize, |raw|, Plus(o, raw))) && old(nodes) != []
              then closed == old(closed) + [old(Current())] && nodes == [raw]
              else closed == old(closed) && nodes == old(nodes) + [raw]
    {
      hide Listed, Plus, Valid, Opened, Room, AfterWrite;
      PadBlockIfLessThan(|raw|, Plus(o, raw));
      Append(raw);
    }

    lemma NodeFits(raw: seq<byte>)
      requires Sized() && Fitting(o, e, lead, nodes) && Listed(o, raw)
      requires Room(e, |lead + Packed(nodes)| + Padded(|raw|), RecordsSize(Entries(o, nodes, |lead|)) + Plus(o, raw))
      ensures Fitting(o, e, lead, nodes + [raw]) && Packed(nodes + [raw]) == Packed(nodes) + PaddedNode(raw)
      ensures Entries(o, nodes + [raw], |lead|) == Entries(o, nodes, |lead|) + [Listing(o, raw, |lead + Packed(nodes)|)]
      ensures RecordsSize(Entries(o, nodes + [raw], |lead|)) == RecordsSize(Entries(o, nodes, |lead|)) + Plus(o, raw)
      ensures RecordsSize(Entries(o, nodes + [raw], |lead|)) <= |lead + Packed(nodes + [raw])|
    {
      hide *;
      var at := |lead|;
      FittingOpens(e, lead, nodes);
      PackedMore(nodes, raw);
      PaddedLength(raw);
      RoomIs(e, |lead + Packed(nodes)| + Padded(|raw|), RecordsSize(Entries(o, nodes, at)) + Plus(o, raw));
      assert |lead + Packed(nodes)| == at + |Packed(nodes)| &&
        |lead + Packed(nodes + [raw])| == at + |Packed(nodes + [raw])|;
      EntriesMore(o, nodes, raw, at);
      RecordsMore(o, Entries(o, nodes, at), Listing(o, raw, at + |Packed(nodes)|));
      PlusAnywhere(o, raw, at + |Packed(nodes)|);
      EntriesSmaller(o, nodes + [raw], at);
      FewNodes(o, nodes + [raw]);
      FittingCloses(e, lead, nodes + [raw]);
    }

    lemma FittingOpens(e: u32, lead: seq<byte>, nodes: seq<seq<byte>>)
      requires Fitting(o, e, lead, nodes)
      ensures AllListed(o, nodes) && IsLead(o, lead) && |lead + Packed(nodes)| <= e
    {
      hide AllListed, IsLead;
    }

    lemma FittingCloses(e: u32, lead: seq<byte>, nodes: seq<seq<byte>>)
      requires AllListed(o, nodes) && IsLead(o, lead) && |lead + Packed(nodes)| <= e && |nodes| <= |Packed(nodes)|
      requires |lead + Packed(nodes)| + RecordsSize(Entries(o, nodes, |lead|)) + 40 <= e
      ensures Fitting(o, e, lead, nodes)
    {
      hide AllListed, IsLead, Entries, RecordsSize, Packed;
    }

    lemma RoomIs(e: nat, ofs: nat, sumSize: nat)
      requires Room(e, ofs, sumSize)
      ensures ofs + sumSize + 40 <= e
    {
    }

    // The buffer happens to be as long as a cleanmarker without starting with
    // one, and is taken for an empty block.
    ghost predicate Dropped()
      reads this
    {
      nodes != [] && addCleanmarkers && found && |dataBuffer| == cleanmarkerSize
    }

    // That takes a block that was begun before the first cleanmarker was seen.
    lemma DroppedWithoutLead()
      requires Valid() && Dropped()
      ensures lead == [] && !Led()
    {
      FewNodes(o, nodes);
      if lead != [] { CleanmarkerLeads(o, crc, cleanmarkerSize); }
    }

    // There is no room for an inode node with twice the least data any more.
    predicate NearlyFull()
      reads this`dataBuffer, this`sumSize
    {
      |dataBuffer| + 68 + 2 * 128 > e - Padded(sumSize + SUMMARY_SIZE + SUM_MARKER_SIZE)
    }

    // That is, an inode node of 324 bytes and the summary of what there is now
    // would reach past the end of the block.
    lemma NearlyFullIs()
      requires Valid()
      ensures var summary := sumSize + 40;
        NearlyFull() <==> |dataBuffer| + 324 + summary + (if summary % 4 == 0 then 0 else 4 - summary % 4) > e
    {
      hide Block, Output;
      PaddedGap(sumSize + 40);
    }

    // The tail of the image: the last block is closed if it is nearly full,
    // and goes out as it is otherwise.
    method FlushBuffers(padto: bool) returns (ghost tail: seq<byte>)
      requires Valid()
      modifies this
      ensures AllFitting(o, e, closed) && out == BlocksOf(o, crc, e, closed) + tail && |tail| <= e
      ensures old(Dropped()) ==> tail == [] && closed == old(closed) && nodes == old(nodes) && lead == old(lead)
      ensures Same() && old(Dropped()) == Dropped()
      ensures old(Dropped()) ==> Written() == old(Written())
      ensures !old(Dropped()) ==> Written() == old(Written()) && (nodes == [] || lead + Packed(nodes) <= tail)
      ensures padto && nodes != [] && !old(Dropped()) ==> |tail| == e
      ensures !old(Dropped()) ==>
        closed == old(closed) + (if old(NearlyFull()) && old(nodes) != [] then [old(Current())] else [])
      ensures !old(Dropped()) && !old(NearlyFull()) && !padto ==> tail == old(dataBuffer)
      ensures !old(Dropped()) && !old(NearlyFull()) && padto && (old(nodes) != [] || (addCleanmarkers && found)) ==>
        |old(dataBuffer)| <= e && tail == old(dataBuffer) + Ones(e - |old(dataBuffer)|)
    {
      hide Entries, Packed, IsLead, AllListed, RecordsSize, AllFitting, BlocksOf, NodesOf, Cleanmarker;
      tail := [];
      assert out + [] == out;
      SmallSum();
      NoNodes();
      FewNodes(o, nodes);
      if |dataBuffer| != (if addCleanmarkers && found then cleanmarkerSize else 0) {
        if NearlyFull() {
          CloseBlock();
          assert out + [] == out;
        } else {
          if padto {
            dataBuffer := dataBuffer + Ones(e - |dataBuffer|);
          }
          tail := dataBuffer;
          WriteBuffToFile();
        }
      }
    }

    // Where the dropped block comes from: the buffer ends up as long as the
    // cleanmarker.
    predicate Lost(f: Fill) {
      addCleanmarkers && f.found && f.ofs == f.size
    }

    // A whole run: every node goes out once and in its order, in blocks that
    // are each closed with their summary and one last block that may not be,
    // unless that last one is dropped.
    method Run(items: seq<Item>, padto: bool) returns (ghost dropped: bool, ghost tail: seq<byte>)
      requires Valid() && closed == [] && nodes == [] && AllSuit(Lengths(), items)
      modifies this
      ensures AllFitting(o, e, closed) && out == BlocksOf(o, crc, e, closed) + tail && |tail| <= e
      ensures Written() == RawsOf(items)
      ensures !dropped ==> nodes == [] || lead + Packed(nodes) <= tail
      ensures dropped <==> Lost(AllTurned(old(Lengths()), items))
      ensures dropped <==> Dropped()
      ensures dropped ==> tail == [] && lead == [] && nodes != [] && |Packed(nodes)| == cleanmarkerSize
      ensures (items != [] && items[0].CleanmarkerItem?) || old(found) || !addCleanmarkers ==> !dropped
    {
      hide Valid, AllFitting, BlocksOf, Suits, Turned, NodesOf, Dropped, Packed, Padded, Lost;
      NothingWritten();
      ghost var early := (items != [] && items[0].CleanmarkerItem?) || found || !addCleanmarkers;
      var i := 0;
      assert items[0..] == items;
      while i < |items|
        invariant i <= |items| && Valid() && Written() == RawsOf(items[..i])
        invariant AllSuit(Lengths(), items[i..]) && AllTurned(Lengths(), items[i..]) == AllTurned(old(Lengths()), items)
        invariant old(found) ==> found
        invariant i == 0 ==> nodes == []
        invariant early ==> Led() && (i > 0 && addCleanmarkers ==> found)
      {
        assert items[..i + 1][..i] == items[..i];
        assert items[i..][1..] == items[i + 1..];
        match items[i] {
          case NodeItem(raw) =>
            WriteNode(raw);
          case CleanmarkerItem(totlen) =>
            assert Written() + [] == Written();
            FindCleanmarker(totlen);
        }
        i := i + 1;
      }
      assert items[..i] == items;
      dropped := Dropped();
      DroppedIsLost();
      if dropped { DroppedWithoutLead(); }
      tail := FlushBuffers(padto);
    }

    lemma DroppedIsLost()
      requires Valid()
      ensures Dropped() <==> Lost(Lengths())
      ensures Dropped() ==> |lead + Packed(nodes)| == cleanmarkerSize
    {
      hide Entries, IsLead, AllListed, RecordsSize, Padded;
      if nodes == [] { NoNodes(); assert lead + [] == []; }
    }

    lemma NothingWritten()
      requires closed == [] && nodes == []
      ensures Written() == []
    {
    }

    // The first cleanmarker of the input says how long cleanmarkers are.
    method FindCleanmarker(totlen: u32)
      requires Valid() && Suits(Lengths(), CleanmarkerItem(totlen))
      modifies this`found, this`cleanmarkerSize
      ensures Valid() && found && Lengths() == Turned(old(Lengths()), CleanmarkerItem(totlen))
      ensures cleanmarkerSize == if !old(found) && addCleanmarkers && useInputSize then totlen else old(cleanmarkerSize)
    {
      hide Fitting, BlocksOf, Cleanmarker, Entries, Records;
      if !found {
        found := true;
        if addCleanmarkers && useInputSize {
          cleanmarkerSize := totlen;
        }
      }
    }
  }

  // A node of n bytes, then a cleanmarker of n bytes: the node is gone.
  method LoneNodeIsLost(e: u32, o: Order, crc: seq<byte> -> u32, raw: seq<byte>, padto: bool) returns (out: seq<byte>)
    requires e % 4 == 0 && 40 <= e < 0x1000_0000 && Listed(o, raw) && |raw| % 4 == 0 && UNKNOWN_SIZE <= |raw|
    requires Room(e, |raw|, Plus(o, raw))
    ensures out == []
  {
    hide Listed, Plus, SumTool.Valid;
    var t := new SumTool(e, o, crc, true, true, UNKNOWN_SIZE);
    LoneNodeSuits(t, raw);
    t.WriteNode(raw);
    t.FindCleanmarker(|raw|);
    ghost var tail := t.FlushBuffers(padto);
    out := t.out;
  }

  lemma LoneNodeSuits(t: SumTool, raw: seq<byte>)
    requires t.Valid() && !t.found && t.nodes == [] && Listed(t.o, raw) && |raw| % 4 == 0 && UNKNOWN_SIZE <= |raw|
    requires Room(t.e, |raw|, Plus(t.o, raw))
    ensures t.Suits(t.Lengths(), NodeItem(raw)) && t.Lengths().ofs == 0
    ensures t.Turned(t.Lengths(), NodeItem(raw)).ofs == |raw|
  {
    hide SumTool.Valid, AfterWrite, Listed, Plus;
    t.SmallSum();
    PlusAnywhere(t.o, raw, 0);
    FirstWrite(t.e, |raw|, Plus(t.o, raw));
  }

  lemma FirstWrite(e: nat, req: nat, plus: nat)
    requires req % 4 == 0
    ensures AfterWrite(e, 0, 0, 0, req, plus) == (req, plus)
  {
    hide Closes, Padded;
    PaddedIs(req);
  }
}
