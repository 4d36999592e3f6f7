// recv_image.c: packets of an erase block are journalled to flash through a
// 4096-byte write buffer until enough of them are there to decode the block.
module PacketJournal {
  import opened Basics
  import opened Bytes

  const PKT_SIZE: nat := 2820
  const WBUF_SIZE: nat := 4096

  type Payload = seq<byte>

  // struct eraseblock. pktIndices holds the entries in use.
  datatype EraseBlock = EraseBlock(flashOffset: nat, wbuf: seq<byte>, wbufOfs: nat, nrPkts: nat,
                                   pktIndices: seq<nat>, crc: nat)

  function Concat(ps: seq<Payload>): seq<byte> {
    if ps == [] then [] else Concat(ps[..|ps| - 1]) + ps[|ps| - 1]
  }

  predicate Whole(ps: seq<Payload>) {
    forall i :: 0 <= i < |ps| ==> |ps[i]| == PKT_SIZE
  }

  lemma {:induction false} ConcatLength(ps: seq<Payload>)
    requires Whole(ps)
    ensures |Concat(ps)| == PKT_SIZE * |ps|
  {
    if ps != [] { ConcatLength(ps[..|ps| - 1]); }
  }

  // Packet i of the concatenation starts at i * PKT_SIZE.
  lemma {:induction false} ConcatSlice(ps: seq<Payload>, i: nat)
    requires Whole(ps) && i < |ps|
    ensures |Concat(ps)| == PKT_SIZE * |ps| && Concat(ps)[i * PKT_SIZE..(i + 1) * PKT_SIZE] == ps[i]
  {
    var front := ps[..|ps| - 1];
    ConcatLength(ps);
    ConcatLength(front);
    if i < |ps| - 1 {
      ConcatSlice(front, i);
      assert Concat(ps)[i * PKT_SIZE..(i + 1) * PKT_SIZE] == Concat(front)[i * PKT_SIZE..(i + 1) * PKT_SIZE];
    }
  }

  lemma ConcatMore(ps: seq<Payload>, data: Payload)
    ensures Concat(ps + [data]) == Concat(ps) + data
  {
    assert (ps + [data])[..|ps|] == ps;
  }

  // The geometry of the device: erase blocks are whole numbers of write
  // buffers, and k packets are just enough to cover one.
  ghost predicate Geometry(e: nat, k: nat) {
    e > 0 && e % WBUF_SIZE == 0 && k == (e + PKT_SIZE - 1) / PKT_SIZE
  }

  // The bytes on flash for a block whose journal starts at base.
  ghost function OnFlash(flash: seq<byte>, base: nat, end: nat): seq<byte> {
    if base < end <= |flash| then flash[base..end] else []
  }

  // What was journalled for a block is on flash from its base on, followed by
  // the used part of the write buffer.
  ghost predicate Stored(flash: seq<byte>, b: EraseBlock, base: nat, ps: seq<Payload>) {
    |b.wbuf| == WBUF_SIZE && b.wbufOfs < WBUF_SIZE &&
    Concat(ps) == OnFlash(flash, base, b.flashOffset) + b.wbuf[..b.wbufOfs]
  }

  // Each packet of the block is kept once, and only as many as are needed.
  ghost predicate Counted(k: nat, b: EraseBlock, ps: seq<Payload>) {
    Whole(ps) && |ps| == |b.pktIndices| <= k && NoRepeat(b.pktIndices) &&
    (if |ps| < k then b.nrPkts == |ps| else b.nrPkts >= k)
  }

  ghost predicate Journal(e: nat, k: nat, flash: seq<byte>, b: EraseBlock, base: nat, ps: seq<Payload>) {
    Counted(k, b, ps) && Stored(flash, b, base, ps) &&
    base <= b.flashOffset <= base + e && (b.flashOffset - base) % WBUF_SIZE == 0 &&
    (base < b.flashOffset ==> base + e <= |flash|)
  }

  // n packets make j full write buffers and a rest.
  lemma Steps(e: nat, k: nat, n: nat, d: nat, rest: nat)
    requires Geometry(e, k) && n <= k && d % WBUF_SIZE == 0 && n * PKT_SIZE == d + rest && rest < WBUF_SIZE
    ensures n == k ==> d == e
    ensures n < k ==> d + WBUF_SIZE <= e
    ensures k >= 2 && (k - 1) * PKT_SIZE < e <= k * PKT_SIZE
  {
    var m, j := e / WBUF_SIZE, d / WBUF_SIZE;
    assert e == m * 4096 && d == j * 4096;
  }

  lemma OnFlashLength(e: nat, k: nat, flash: seq<byte>, b: EraseBlock, base: nat, ps: seq<Payload>)
    requires Journal(e, k, flash, b, base, ps) && Geometry(e, k)
    ensures |ps| * PKT_SIZE == b.flashOffset - base + b.wbufOfs
    ensures |ps| == k ==> b.flashOffset == base + e
    ensures |ps| < k ==> b.flashOffset + WBUF_SIZE <= base + e
  {
    ConcatLength(ps);
    Steps(e, k, |ps|, b.flashOffset - base, b.wbufOfs);
  }

  // A full block has filled exactly one erase block of flash: subtracting the
  // erase size from its offset finds where its journal starts.
  lemma FullJournal(e: nat, k: nat, flash: seq<byte>, b: EraseBlock, base: nat, ps: seq<Payload>)
    requires Journal(e, k, flash, b, base, ps) && |ps| == k && Geometry(e, k)
    ensures b.flashOffset == base + e <= |flash| && e + b.wbufOfs == k * PKT_SIZE
    ensures flash[base..base + e] + b.wbuf[..b.wbufOfs] == Concat(ps)
  {
    OnFlashLength(e, k, flash, b, base, ps);
  }

  // A write that stays out of the erase block at base leaves its journal alone.
  lemma JournalElsewhere(e: nat, k: nat, flash: seq<byte>, flash': seq<byte>, b: EraseBlock, base: nat,
          ps: seq<Payload>)
    requires Journal(e, k, flash, b, base, ps) && |flash'| == |flash|
    requires forall i :: base <= i < base + e && i < |flash| ==> flash'[i] == flash[i]
    ensures Journal(e, k, flash', b, base, ps)
  {
    assert OnFlash(flash', base, b.flashOffset) == OnFlash(flash, base, b.flashOffset);
  }

  function Write(flash: seq<byte>, at: nat, data: seq<byte>): (r: seq<byte>)
    ensures |r| == |flash|
    ensures forall i :: 0 <= i < |flash| && !(at <= i < at + |data|) ==> r[i] == flash[i]
    ensures forall i :: at <= i < at + |data| && i < |flash| ==> r[i] == data[i - at]
  {
    seq(|flash|, i requires 0 <= i < |flash| => if at <= i < at + |data| then data[i - at] else flash[i])
  }

  // The packet does not fill the write buffer.
  function Buffered(b: EraseBlock, data: Payload, pktNr: nat): EraseBlock
    requires |b.wbuf| == WBUF_SIZE && b.wbufOfs + PKT_SIZE < WBUF_SIZE && |data| == PKT_SIZE
  {
    b.(wbuf := b.wbuf[..b.wbufOfs] + data + b.wbuf[b.wbufOfs + PKT_SIZE..], wbufOfs := b.wbufOfs + PKT_SIZE,
       nrPkts := b.nrPkts + 1, pktIndices := b.pktIndices + [pktNr])
  }

  function Filled(b: EraseBlock, data: Payload): (r: seq<byte>)
    requires |b.wbuf| == WBUF_SIZE && b.wbufOfs < WBUF_SIZE <= b.wbufOfs + PKT_SIZE && |data| == PKT_SIZE
    ensures |r| == WBUF_SIZE
  {
    b.wbuf[..b.wbufOfs] + data[..WBUF_SIZE - b.wbufOfs]
  }

  // The packet fills the write buffer: WBUF_SIZE bytes go to flash, the rest
  // of the packet stays behind.
  function Spilled(b: EraseBlock, data: Payload, pktNr: nat): EraseBlock
    requires |b.wbuf| == WBUF_SIZE && b.wbufOfs < WBUF_SIZE <= b.wbufOfs + PKT_SIZE && |data| == PKT_SIZE
  {
    var fits := WBUF_SIZE - b.wbufOfs;
    b.(flashOffset := b.flashOffset + WBUF_SIZE, wbuf := data[fits..] + Filled(b, data)[PKT_SIZE - fits..],
       wbufOfs := PKT_SIZE - fits, nrPkts := b.nrPkts + 1, pktIndices := b.pktIndices + [pktNr])
  }

  lemma CountedMore(k: nat, b: EraseBlock, b': EraseBlock, ps: seq<Payload>, data: Payload, pktNr: nat)
    requires Counted(k, b, ps) && |ps| < k && |data| == PKT_SIZE && pktNr !in b.pktIndices
    requires b'.nrPkts == b.nrPkts + 1 && b'.pktIndices == b.pktIndices + [pktNr]
    ensures Counted(k, b', ps + [data])
  {
  }

  lemma BufferedJournal(e: nat, k: nat, flash: seq<byte>, b: EraseBlock, base: nat, ps: seq<Payload>, data: Payload,
          pktNr: nat)
    requires Journal(e, k, flash, b, base, ps) && |ps| < k && |data| == PKT_SIZE && pktNr !in b.pktIndices
    requires b.wbufOfs + PKT_SIZE < WBUF_SIZE
    ensures Journal(e, k, flash, Buffered(b, data, pktNr), base, ps + [data])
  {
    hide Concat, Counted;
    ConcatMore(ps, data);
    var r := Buffered(b, data, pktNr);
    CountedMore(k, b, r, ps, data, pktNr);
    assert r.wbuf[..r.wbufOfs] == b.wbuf[..b.wbufOfs] + data;
  }

  lemma FlashMore(flash: seq<byte>, base: nat, at: nat, data: seq<byte>)
    requires base <= at && at + |data| <= |flash| && |data| > 0
    ensures OnFlash(Write(flash, at, data), base, at + |data|) == OnFlash(flash, base, at) + data
  {
  }

  lemma SpilledStored(flash: seq<byte>, b: EraseBlock, base: nat, ps: seq<Payload>, data: Payload, pktNr: nat)
    requires Stored(flash, b, base, ps) && |data| == PKT_SIZE && WBUF_SIZE <= b.wbufOfs + PKT_SIZE
    requires base <= b.flashOffset && b.flashOffset + WBUF_SIZE <= |flash|
    ensures Stored(Write(flash, b.flashOffset, Filled(b, data)), Spilled(b, data, pktNr), base, ps + [data])
  {
    hide Concat, OnFlash, Write;
    var fits := WBUF_SIZE - b.wbufOfs;
    var r := Spilled(b, data, pktNr);
    ConcatMore(ps, data);
    FlashMore(flash, base, b.flashOffset, Filled(b, data));
    assert r.wbuf[..r.wbufOfs] == data[fits..];
    assert data == data[..fits] + data[fits..];
    var before := OnFlash(flash, base, b.flashOffset);
    assert before + b.wbuf[..b.wbufOfs] + data == before + Filled(b, data) + data[fits..];
  }

  lemma SpilledJournal(e: nat, k: nat, flash: seq<byte>, b: EraseBlock, base: nat, ps: seq<Payload>, data: Payload,
          pktNr: nat)
    requires Journal(e, k, flash, b, base, ps) && |ps| < k && |data| == PKT_SIZE && pktNr !in b.pktIndices
    requires Geometry(e, k) && base + e <= |flash| && WBUF_SIZE <= b.wbufOfs + PKT_SIZE
    ensures b.flashOffset + WBUF_SIZE <= base + e
    ensures Journal(e, k, Write(flash, b.flashOffset, Filled(b, data)), Spilled(b, data, pktNr), base, ps + [data])
  {
    hide Counted, Stored, Filled, Write, Concat, Geometry, Spilled;
    OnFlashLength(e, k, flash, b, base, ps);
    Shape(flash, b, base, ps);
    SpilledFields(b, data, pktNr);
    CountedMore(k, b, Spilled(b, data, pktNr), ps, data, pktNr);
    SpilledStored(flash, b, base, ps, data, pktNr);
    WriteLength(flash, b.flashOffset, Filled(b, data));
    AlignedOn(b.flashOffset - base);
  }

  lemma AlignedOn(d: nat)
    requires d % WBUF_SIZE == 0
    ensures (d + WBUF_SIZE) % WBUF_SIZE == 0
  {
  }

  lemma SpilledFields(b: EraseBlock, data: Payload, pktNr: nat)
    requires |b.wbuf| == WBUF_SIZE && b.wbufOfs < WBUF_SIZE <= b.wbufOfs + PKT_SIZE && |data| == PKT_SIZE
    ensures var r := Spilled(b, data, pktNr);
      r.flashOffset == b.flashOffset + WBUF_SIZE && r.nrPkts == b.nrPkts + 1 && r.pktIndices == b.pktIndices + [pktNr]
  {
  }

  lemma Shape(flash: seq<byte>, b: EraseBlock, base: nat, ps: seq<Payload>)
    requires Stored(flash, b, base, ps)
    ensures |b.wbuf| == WBUF_SIZE && b.wbufOfs < WBUF_SIZE
  {
  }

  lemma WriteLength(flash: seq<byte>, at: nat, data: seq<byte>)
    ensures |Write(flash, at, data)| == |flash|
  {
  }

  // A block that has no packets yet.
  lemma EmptyJournal(e: nat, k: nat, flash: seq<byte>, b: EraseBlock, base: nat)
    requires Geometry(e, k) && |b.wbuf| == WBUF_SIZE
    requires b.flashOffset == base && b.wbufOfs == 0 && b.nrPkts == 0 && b.pktIndices == []
    ensures Journal(e, k, flash, b, base, [])
  {
    Steps(e, k, 0, 0, 0);
    assert Whole([]);
  }

  // The packets as they are cut out of the buffer they were read back into.
  function Cut(buf: seq<byte>, k: nat): (ps: seq<Payload>)
    requires |buf| == k * PKT_SIZE
    ensures |ps| == k && Whole(ps)
  {
    seq(k, i requires 0 <= i < k => buf[i * PKT_SIZE..(i + 1) * PKT_SIZE])
  }

  lemma CutConcat(ps: seq<Payload>)
    requires Whole(ps)
    ensures |Concat(ps)| == |ps| * PKT_SIZE && Cut(Concat(ps), |ps|) == ps
  {
    ConcatLength(ps);
    forall i: nat | i < |ps| ensures Cut(Concat(ps), |ps|)[i] == ps[i] { ConcatSlice(ps, i); }
  }

  lemma {:induction false} ConcatCut(buf: seq<byte>, k: nat)
    requires |buf| == k * PKT_SIZE
    ensures Concat(Cut(buf, k)) == buf
  {
    if k > 0 {
      var front := buf[..(k - 1) * PKT_SIZE];
      ConcatCut(front, k - 1);
      forall i: nat | i < k - 1 ensures Cut(buf, k)[i] == Cut(front, k - 1)[i] {
        assert (i + 1) * PKT_SIZE <= (k - 1) * PKT_SIZE;
        assert front[i * PKT_SIZE..(i + 1) * PKT_SIZE] == buf[i * PKT_SIZE..(i + 1) * PKT_SIZE];
      }
      assert Cut(buf, k)[..k - 1] == Cut(front, k - 1);
      assert buf == front + buf[(k - 1) * PKT_SIZE..];
    }
  }
}
