// recv_image.c: the journals of all blocks of an image side by side on one
// device, and what arrives for them.
module ReceiverState {
  import opened Arithmetic
  import opened Bytes
  import opened PacketJournal

  datatype Packet = Packet(totcrc: nat, blockNr: nat, pktNr: nat, data: Payload, thiscrc: nat, blockCrc: nat)

  // How the device answers while one packet is handled: whether the write and
  // the erase succeed, and what a failed write leaves behind.
  datatype Device = Device(writeOk: bool, junk: seq<byte>, eraseOk: bool)

  datatype Delivery = Delivery(packet: Packet, dev: Device)

  datatype Outcome = Continue | Complete | Abort

  function Total(blocks: seq<EraseBlock>): nat {
    if blocks == [] then 0 else Total(blocks[..|blocks| - 1]) + |blocks[|blocks| - 1].pktIndices|
  }

  lemma {:induction false} TotalUpdate(blocks: seq<EraseBlock>, i: nat, b: EraseBlock)
    requires i < |blocks|
    ensures Total(blocks[i := b]) == Total(blocks) - |blocks[i].pktIndices| + |b.pktIndices|
  {
    var last := |blocks| - 1;
    if i < last {
      TotalUpdate(blocks[..last], i, b);
      assert blocks[i := b][..last] == blocks[..last][i := b];
    } else {
      assert blocks[i := b][..last] == blocks[..last];
    }
  }

  lemma TotalMore(blocks: seq<EraseBlock>, b: EraseBlock)
    ensures Total(blocks + [b]) == Total(blocks) + |b.pktIndices|
  {
    assert (blocks + [b])[..|blocks|] == blocks;
  }

  ghost predicate Full(k: nat, blocks: seq<EraseBlock>) {
    forall i :: 0 <= i < |blocks| ==> |blocks[i].pktIndices| == k
  }

  // The count of packets reaches its maximum exactly when every block is full.
  lemma {:induction false} TotalFull(k: nat, blocks: seq<EraseBlock>)
    requires forall i :: 0 <= i < |blocks| ==> |blocks[i].pktIndices| <= k
    ensures Total(blocks) <= |blocks| * k
    ensures Total(blocks) == |blocks| * k <==> Full(k, blocks)
  {
    if blocks != [] {
      var front := blocks[..|blocks| - 1];
      TotalFull(k, front);
      assert |blocks| * k == |front| * k + k;
      assert blocks == front + [blocks[|blocks| - 1]];
      if Full(k, front) && |blocks[|blocks| - 1].pktIndices| == k { assert Full(k, blocks); }
      if Full(k, blocks) { assert forall i :: 0 <= i < |front| ==> front[i] == blocks[i]; }
    }
  }

  // The journals of different blocks use different erase blocks of the device.
  ghost predicate Placed(top: nat, slots: seq<nat>) {
    (forall i :: 0 <= i < |slots| ==> slots[i] < top) &&
    (forall i, j :: 0 <= i < j < |slots| ==> slots[i] != slots[j])
  }

  // Masking out the bits below the erase size finds the start of the block.
  lemma Rounded(e: nat, slot: nat, d: nat)
    requires d < e
    ensures slot * e + d - (slot * e + d) % e == slot * e
  {
    Remainder(e, slot, d);
  }

  // Block i has its journal in erase block slots[i] of the device.
  ghost predicate JournalAt(e: nat, k: nat, flash: seq<byte>, blocks: seq<EraseBlock>, slots: seq<nat>,
          payloads: seq<seq<Payload>>, i: nat) {
    i < |blocks| && |blocks| == |slots| == |payloads| && Journal(e, k, flash, blocks[i], slots[i] * e, payloads[i])
  }

  // Every block but the one left out, if any, has its journal on flash.
  ghost predicate AllJournals(e: nat, k: nat, flash: seq<byte>, blocks: seq<EraseBlock>, slots: seq<nat>,
          payloads: seq<seq<Payload>>, except: int) {
    forall i: nat :: i < |blocks| && i != except ==> JournalAt(e, k, flash, blocks, slots, payloads, i)
  }

  ghost predicate OnlyAt<T>(s: seq<T>, s': seq<T>, n: nat) {
    |s| == |s'| && forall i :: 0 <= i < |s| && i != n ==> s[i] == s'[i]
  }

  ghost predicate OnlyIn(flash: seq<byte>, flash': seq<byte>, from: nat, to: nat) {
    |flash| == |flash'| && forall i :: 0 <= i < |flash| && !(from <= i < to) ==> flash[i] == flash'[i]
  }

  // Changing one block and its erase block on flash leaves the others alone.
  lemma JournalsElsewhere(e: nat, k: nat, top: nat, flash: seq<byte>, flash': seq<byte>, blocks: seq<EraseBlock>,
          blocks': seq<EraseBlock>, slots: seq<nat>, slots': seq<nat>, payloads: seq<seq<Payload>>,
          payloads': seq<seq<Payload>>, n: nat)
    requires Placed(top, slots) && AllJournals(e, k, flash, blocks, slots, payloads, n)
    requires n < |blocks| == |slots| == |payloads|
    requires OnlyIn(flash, flash', slots[n] * e, slots[n] * e + e)
    requires OnlyAt(blocks, blocks', n) && OnlyAt(slots, slots', n) && OnlyAt(payloads, payloads', n)
    ensures AllJournals(e, k, flash', blocks', slots', payloads', n)
  {
    hide Journal;
    forall i: nat | i < |blocks| && i != n ensures JournalAt(e, k, flash', blocks', slots', payloads', i) {
      assert JournalAt(e, k, flash, blocks, slots, payloads, i);
      if slots[i] < slots[n] { Apart(e, slots[i], slots[n]); } else { Apart(e, slots[n], slots[i]); }
      JournalElsewhere(e, k, flash, flash', blocks[i], slots[i] * e, payloads[i]);
    }
  }

  // The first erase block from at on that is not marked bad.
  function NextGood(count: nat, bad: set<nat>, at: nat): (r: nat)
    ensures at <= r && (r >= count || r !in bad)
    ensures forall x :: at <= x < r ==> x in bad
    decreases count - at
  {
    if at < count && at in bad then NextGood(count, bad, at + 1) else at
  }

  // One block and its erase block change; the others keep their journals.
  lemma JournalsUpdate(e: nat, k: nat, top: nat, flash: seq<byte>, flash': seq<byte>, blocks: seq<EraseBlock>,
          b: EraseBlock, slots: seq<nat>, slot: nat, payloads: seq<seq<Payload>>, ps: seq<Payload>, n: nat)
    requires Placed(top, slots) && AllJournals(e, k, flash, blocks, slots, payloads, n)
    requires n < |blocks| == |slots| == |payloads|
    requires OnlyIn(flash, flash', slots[n] * e, slots[n] * e + e)
    requires Journal(e, k, flash', b, slot * e, ps)
    ensures AllJournals(e, k, flash', blocks[n := b], slots[n := slot], payloads[n := ps], -1)
  {
    hide Journal;
    JournalsElsewhere(e, k, top, flash, flash', blocks, blocks[n := b], slots, slots[n := slot], payloads,
      payloads[n := ps], n);
    assert JournalAt(e, k, flash', blocks[n := b], slots[n := slot], payloads[n := ps], n);
  }

  // What is known of a block that still takes packets.
  lemma Opened(e: nat, k: nat, count: nat, flash: seq<byte>, blocks: seq<EraseBlock>, slots: seq<nat>,
          payloads: seq<seq<Payload>>, n: nat)
    requires Geometry(e, k) && |flash| == count * e && n < |blocks| == |slots| == |payloads| &&
      |blocks[n].pktIndices| < k
    requires AllJournals(e, k, flash, blocks, slots, payloads, -1)
    ensures var b := blocks[n];
      |b.wbuf| == WBUF_SIZE && b.wbufOfs < WBUF_SIZE && |payloads[n]| == |b.pktIndices| == b.nrPkts &&
      slots[n] * e <= b.flashOffset <= slots[n] * e + e - WBUF_SIZE &&
      (slots[n] < count <==> b.flashOffset + WBUF_SIZE <= |flash|) &&
      (slots[n] < count <==> slots[n] * e + e <= |flash|)
    ensures AllJournals(e, k, flash, blocks, slots, payloads, n)
    ensures Journal(e, k, flash, blocks[n], slots[n] * e, payloads[n])
  {
    assert JournalAt(e, k, flash, blocks, slots, payloads, n);
    OnFlashLength(e, k, flash, blocks[n], slots[n] * e, payloads[n]);
    if slots[n] < count { Apart(e, slots[n], count); } else if count < slots[n] { Apart(e, count, slots[n]); }
  }

  // The packet is new, its block still needs it, and it arrived intact.
  ghost predicate Wanted(k: nat, crc: seq<byte> -> nat, b: EraseBlock, p: Packet) {
    Takes(k, crc, b.pktIndices, p)
  }

  lemma WriteOnlyIn(flash: seq<byte>, at: nat, data: seq<byte>, from: nat, to: nat)
    requires from <= at && at + |data| <= to
    ensures OnlyIn(flash, Write(flash, at, data), from, to)
  {
  }

  // A block that starts over in an erase block of its own.
  lemma Restarted(e: nat, k: nat, top: nat, flash: seq<byte>, flash': seq<byte>, blocks: seq<EraseBlock>, b: EraseBlock,
                  slots: seq<nat>, slot: nat, payloads: seq<seq<Payload>>, n: nat)
    requires Placed(top, slots) && AllJournals(e, k, flash, blocks, slots, payloads, n) && Geometry(e, k)
    requires n < |blocks| == |slots| == |payloads| && top <= slot
    requires OnlyIn(flash, flash', slots[n] * e, slots[n] * e + e)
    requires |b.wbuf| == WBUF_SIZE && b.flashOffset == slot * e && b.wbufOfs == 0 && b.nrPkts == 0 && b.pktIndices == []
    ensures AllJournals(e, k, flash', blocks[n := b], slots[n := slot], payloads[n := []], -1)
    ensures Placed(slot + 1, slots[n := slot])
  {
    EmptyJournal(e, k, flash', b, slot * e);
    JournalsUpdate(e, k, top, flash, flash', blocks, b, slots, slot, payloads, [], n);
  }

  lemma IgnoredJournals(e: nat, k: nat, flash: seq<byte>, blocks: seq<EraseBlock>, slots: seq<nat>,
          payloads: seq<seq<Payload>>, n: nat)
    requires n < |blocks| && AllJournals(e, k, flash, blocks, slots, payloads, -1) && |blocks[n].pktIndices| == k
    ensures AllJournals(e, k, flash, blocks[n := blocks[n].(nrPkts := blocks[n].nrPkts + 1)], slots, payloads, -1)
  {
    var blocks' := blocks[n := blocks[n].(nrPkts := blocks[n].nrPkts + 1)];
    forall i: nat | i < |blocks'| ensures JournalAt(e, k, flash, blocks', slots, payloads, i) {
      assert JournalAt(e, k, flash, blocks, slots, payloads, i);
    }
  }

  lemma CrcJournals(e: nat, k: nat, flash: seq<byte>, blocks: seq<EraseBlock>, slots: seq<nat>,
          payloads: seq<seq<Payload>>, n: nat, c: nat)
    requires n < |blocks| && AllJournals(e, k, flash, blocks, slots, payloads, -1)
    ensures AllJournals(e, k, flash, blocks[n := blocks[n].(crc := c)], slots, payloads, -1)
  {
    var blocks' := blocks[n := blocks[n].(crc := c)];
    forall i: nat | i < |blocks'| ensures JournalAt(e, k, flash, blocks', slots, payloads, i) {
      assert JournalAt(e, k, flash, blocks, slots, payloads, i);
    }
  }

  lemma JournalsMore(e: nat, k: nat, flash: seq<byte>, blocks: seq<EraseBlock>, b: EraseBlock, slots: seq<nat>,
          slot: nat, payloads: seq<seq<Payload>>)
    requires AllJournals(e, k, flash, blocks, slots, payloads, -1) && |blocks| == |slots| == |payloads|
    requires Journal(e, k, flash, b, slot * e, [])
    ensures AllJournals(e, k, flash, blocks + [b], slots + [slot], payloads + [[]], -1)
  {
    hide Journal;
    forall i: nat | i < |blocks| + 1 ensures JournalAt(e, k, flash, blocks + [b], slots + [slot], payloads + [[]], i) {
      if i < |blocks| { assert JournalAt(e, k, flash, blocks, slots, payloads, i); }
    }
  }

  // The packets of block i that arrived intact.
  ghost function Arrived(crc: seq<byte> -> nat, ds: seq<Delivery>, i: nat): set<nat> {
    if ds == [] then {} else
      var p := ds[|ds| - 1].packet;
      Arrived(crc, ds[..|ds| - 1], i) + (if p.blockNr == i && crc(p.data) == p.thiscrc then {p.pktNr} else {})
  }

  ghost function Elements(s: seq<nat>): set<nat> {
    set x | x in s
  }

  lemma {:induction false} FewElements(s: seq<nat>)
    ensures |Elements(s)| <= |s|
  {
    if s != [] {
      var front, last := s[..|s| - 1], s[|s| - 1];
      FewElements(front);
      assert Elements(s) == Elements(front) + {last};
    } else {
      assert Elements(s) == {};
    }
  }

  // Each stored packet is the one that was sent under its number.
  ghost predicate Faithful(k: nat, n: nat, sent: (nat, nat) -> Payload, crcs: nat -> nat, blocks: seq<EraseBlock>,
          payloads: seq<seq<Payload>>) {
    |blocks| == |payloads| &&
    (forall i: nat :: i < |blocks| ==> FaithfulAt(k, n, sent, crcs, blocks[i], payloads[i], i))
  }

  ghost predicate FaithfulAt(k: nat, n: nat, sent: (nat, nat) -> Payload, crcs: nat -> nat, b: EraseBlock,
          ps: seq<Payload>, i: nat) {
    |b.pktIndices| == |ps| &&
    (forall j :: 0 <= j < |ps| ==> ps[j] == sent(i, b.pktIndices[j]) && b.pktIndices[j] < n) &&
    (|ps| == k ==> b.crc == crcs(i))
  }

  // An intact packet is one that was sent.
  ghost predicate Genuine(n: nat, sent: (nat, nat) -> Payload, crcs: nat -> nat, crc: seq<byte> -> nat, p: Packet) {
    |p.data| == PKT_SIZE &&
    (crc(p.data) == p.thiscrc ==> p.data == sent(p.blockNr, p.pktNr) && p.pktNr < n && p.blockCrc == crcs(p.blockNr))
  }

  // ---- what a run of deliveries comes to ---------------------------------------

  // A block that has these packets takes p.
  ghost predicate Takes(k: nat, crc: seq<byte> -> nat, indices: seq<nat>, p: Packet) {
    p.pktNr !in indices && |indices| < k && crc(p.data) == p.thiscrc
  }

  // With m packets stored the next one fills the write buffer.
  predicate Spills(m: nat) {
    m * PKT_SIZE % WBUF_SIZE + PKT_SIZE >= WBUF_SIZE
  }

  // The packets block i has after these deliveries: a failed write leaves the
  // one that could not be written.
  ghost function Collected(k: nat, crc: seq<byte> -> nat, ds: seq<Delivery>, i: nat): (r: seq<nat>)
    ensures k > 0 ==> |r| <= k
  {
    if ds == [] then [] else
      var d, before := ds[|ds| - 1], Collected(k, crc, ds[..|ds| - 1], i);
      if d.packet.blockNr != i || !Takes(k, crc, before, d.packet) then before
      else if Spills(|before|) && !d.dev.writeOk then [d.packet.pktNr]
      else before + [d.packet.pktNr]
  }

  ghost predicate AllCollected(k: nat, crc: seq<byte> -> nat, ds: seq<Delivery>, nr: nat) {
    forall i: nat :: i < nr ==> |Collected(k, crc, ds, i)| == k
  }

  // Delivery t makes the write buffer go to flash, and that fails.
  ghost predicate FailsAt(k: nat, crc: seq<byte> -> nat, ds: seq<Delivery>, t: nat)
    requires t < |ds|
  {
    var p := ds[t].packet;
    var before := Collected(k, crc, ds[..t], p.blockNr);
    Takes(k, crc, before, p) && Spills(|before|) && !ds[t].dev.writeOk
  }

  ghost function Failures(k: nat, crc: seq<byte> -> nat, ds: seq<Delivery>): nat {
    if ds == [] then 0
    else Failures(k, crc, ds[..|ds| - 1]) + if FailsAt(k, crc, ds, |ds| - 1) then 1 else 0
  }

  lemma CollectedMore(k: nat, crc: seq<byte> -> nat, ds: seq<Delivery>, t: nat, i: nat)
    requires t < |ds|
    ensures var before := Collected(k, crc, ds[..t], i);
      Collected(k, crc, ds[..t + 1], i) ==
        if ds[t].packet.blockNr != i || !Takes(k, crc, before, ds[t].packet) then before
        else if FailsAt(k, crc, ds, t) then [ds[t].packet.pktNr]
        else before + [ds[t].packet.pktNr]
    ensures Failures(k, crc, ds[..t + 1]) ==
      Failures(k, crc, ds[..t]) + if FailsAt(k, crc, ds, t) then 1 else 0
  {
    assert ds[..t + 1][..t] == ds[..t];
    assert FailsAt(k, crc, ds[..t + 1], t) == FailsAt(k, crc, ds, t);
  }

  lemma {:induction false} FailuresGrow(k: nat, crc: seq<byte> -> nat, ds: seq<Delivery>, t: nat, u: nat)
    requires t <= u <= |ds|
    ensures Failures(k, crc, ds[..t]) <= Failures(k, crc, ds[..u])
    ensures t < u && FailsAt(k, crc, ds, t) ==> Failures(k, crc, ds[..t]) < Failures(k, crc, ds[..u])
    decreases u
  {
    hide FailsAt, Failures;
    if t < u {
      FailuresGrow(k, crc, ds, t, u - 1);
      CollectedMore(k, crc, ds, u - 1, 0);
    }
  }

  // A block that is full stays as it is.
  lemma {:induction false} FullStays(k: nat, crc: seq<byte> -> nat, ds: seq<Delivery>, i: nat, t: nat, u: nat)
    requires t <= u <= |ds| && |Collected(k, crc, ds[..t], i)| == k
    ensures Collected(k, crc, ds[..u], i) == Collected(k, crc, ds[..t], i)
    decreases u
  {
    hide Collected, FailsAt;
    if t < u {
      FullStays(k, crc, ds, i, t, u - 1);
      CollectedMore(k, crc, ds, u - 1, i);
    }
  }

  lemma OneMore(k: nat, crc: seq<byte> -> nat, ds: seq<Delivery>, t: nat, had: seq<nat>)
    requires t < |ds| && Collected(k, crc, ds[..t], ds[t].packet.blockNr) == had && Takes(k, crc, had, ds[t].packet)
    ensures Collected(k, crc, ds[..t + 1], ds[t].packet.blockNr) ==
      if Spills(|had|) && !ds[t].dev.writeOk then [ds[t].packet.pktNr] else had + [ds[t].packet.pktNr]
    ensures FailsAt(k, crc, ds, t) <==> Spills(|had|) && !ds[t].dev.writeOk
  {
    hide Collected, Takes, Spills;
    CollectedMore(k, crc, ds, t, ds[t].packet.blockNr);
  }

  // Packet 0, then packet 1, whose write fails, then both others: the block starts
  // over with packet 1 and is full in the end.
  lemma StartsOver(crc: seq<byte> -> nat, ds: seq<Delivery>)
    requires |ds| == 4
    requires forall t :: 0 <= t < 4 ==> ds[t].packet.blockNr == 0 && crc(ds[t].packet.data) == ds[t].packet.thiscrc
    requires ds[0].packet.pktNr == ds[2].packet.pktNr == 0 && ds[1].packet.pktNr == 1 && ds[3].packet.pktNr == 2
    requires !ds[1].dev.writeOk && ds[2].dev.writeOk && ds[3].dev.writeOk
    ensures Collected(3, crc, ds, 0) == [1, 0, 2] && FailsAt(3, crc, ds, 1)
  {
    assert !Spills(0) && Spills(1);
    assert ds[..0] == [] && ds[..4] == ds;
    assert Collected(3, crc, [], 0) == [];
    hide Collected, FailsAt, Spills;
    OneMore(3, crc, ds, 0, []);
    OneMore(3, crc, ds, 1, [0]);
    OneMore(3, crc, ds, 2, [1]);
    OneMore(3, crc, ds, 3, [1, 0]);
  }

  // From delivery a on, no write of block i fails but that of delivery a itself.
  ghost predicate NoFailureBehind(k: nat, crc: seq<byte> -> nat, ds: seq<Delivery>, i: nat, a: nat) {
    forall t :: a < t < |ds| && ds[t].packet.blockNr == i ==> !FailsAt(k, crc, ds, t)
  }

  // What arrives intact from there on is kept until the block is full.
  lemma {:induction false} KeptFrom(k: nat, crc: seq<byte> -> nat, ds: seq<Delivery>, i: nat, a: nat, u: nat)
    requires k > 0 && a <= u <= |ds| && NoFailureBehind(k, crc, ds, i, a)
    ensures |Collected(k, crc, ds[..u], i)| == k || Arrived(crc, ds[a..u], i) <= Elements(Collected(k, crc, ds[..u], i))
    decreases u
  {
    hide Collected, FailsAt;
    if a < u {
      KeptFrom(k, crc, ds, i, a, u - 1);
      CollectedMore(k, crc, ds, u - 1, i);
      NeverMore(k, crc, ds[..u - 1], i);
      assert ds[a..u][..u - 1 - a] == ds[a..u - 1] && ds[a..u][u - 1 - a] == ds[u - 1];
      if u - 1 == a {
        assert ds[a..a] == [] && Arrived(crc, ds[a..a], i) == {};
      } else {
        assert ds[u - 1].packet.blockNr == i ==> !FailsAt(k, crc, ds, u - 1);
      }
    } else {
      assert ds[a..u] == [];
    }
  }

  lemma NeverMore(k: nat, crc: seq<byte> -> nat, ds: seq<Delivery>, i: nat)
    requires k > 0
    ensures |Collected(k, crc, ds, i)| <= k
  {
  }

  // k different intact packets of block i arrive from its last failed write on.
  ghost predicate Supplied(k: nat, crc: seq<byte> -> nat, ds: seq<Delivery>, i: nat) {
    exists a: nat :: a <= |ds| && NoFailureBehind(k, crc, ds, i, a) && |Arrived(crc, ds[a..], i)| >= k
  }

  // So k different intact packets from its last failed write on fill a block.
  lemma KeptFills(k: nat, crc: seq<byte> -> nat, ds: seq<Delivery>, i: nat)
    requires k > 0 && Supplied(k, crc, ds, i)
    ensures |Collected(k, crc, ds, i)| == k
  {
    hide Collected, NoFailureBehind;
    var a: nat :| a <= |ds| && NoFailureBehind(k, crc, ds, i, a) && |Arrived(crc, ds[a..], i)| >= k;
    KeptFrom(k, crc, ds, i, a, |ds|);
    assert ds[a..|ds|] == ds[a..] && ds[..|ds|] == ds;
    if |Collected(k, crc, ds, i)| != k {
      FewElements(Collected(k, crc, ds, i));
      SubsetSize(Arrived(crc, ds[a..], i), Elements(Collected(k, crc, ds, i)));
    }
  }

  // The good erase blocks from at on.
  function GoodFrom(count: nat, bad: set<nat>, at: nat): nat
    decreases count - at
  {
    if at >= count then 0 else (if at in bad then 0 else 1) + GoodFrom(count, bad, at + 1)
  }

  lemma {:induction false} NextGoodIs(count: nat, bad: set<nat>, at: nat)
    ensures var good := NextGood(count, bad, at);
      (good < count <==> GoodFrom(count, bad, at) > 0) &&
      (good < count ==> GoodFrom(count, bad, good + 1) == GoodFrom(count, bad, at) - 1)
    decreases count - at
  {
    if at < count && at in bad { NextGoodIs(count, bad, at + 1); }
  }

  // With delivery t the reception is over: it is of another image, or a write
  // fails and there is no way to start the block over.
  ghost predicate Hopeless(k: nat, crc: seq<byte> -> nat, count: nat, bad: set<nat>, totcrc: nat, slots: seq<nat>,
                           top: nat, ds: seq<Delivery>, t: nat)
    requires t < |ds|
  {
    var p, dev := ds[t].packet, ds[t].dev;
    p.totcrc != totcrc || p.blockNr >= |slots| ||
    (var before := Collected(k, crc, ds[..t], p.blockNr);
     Takes(k, crc, before, p) && Spills(|before|) &&
     (slots[p.blockNr] >= count ||
      (!dev.writeOk && !(dev.eraseOk && Failures(k, crc, ds[..t]) < GoodFrom(count, bad, top)))))
  }

  // All blocks are full after t deliveries, and not before, and none of these was
  // hopeless.
  ghost predicate CompleteAt(k: nat, crc: seq<byte> -> nat, count: nat, bad: set<nat>, totcrc: nat, slots: seq<nat>,
                             top: nat, ds: seq<Delivery>, t: nat) {
    t <= |ds| && AllCollected(k, crc, ds[..t], |slots|) &&
    forall u: nat :: u < t ==>
      !Hopeless(k, crc, count, bad, totcrc, slots, top, ds, u) && !AllCollected(k, crc, ds[..u], |slots|)
  }

  // It is then complete once and for all.
  lemma CompleteOnce(k: nat, crc: seq<byte> -> nat, count: nat, bad: set<nat>, totcrc: nat, slots: seq<nat>, top: nat,
                     ds: seq<Delivery>, t: nat)
    requires CompleteAt(k, crc, count, bad, totcrc, slots, top, ds, t)
    ensures AllCollected(k, crc, ds, |slots|)
    ensures forall u: nat :: u < |ds| && Hopeless(k, crc, count, bad, totcrc, slots, top, ds, u) ==>
      AllCollected(k, crc, ds[..u], |slots|)
    ensures forall u: nat :: CompleteAt(k, crc, count, bad, totcrc, slots, top, ds, u) ==> u == t
  {
    hide Collected, Hopeless;
    assert ds[..|ds|] == ds;
    forall u: nat | t <= u <= |ds| ensures AllCollected(k, crc, ds[..u], |slots|) {
      forall i: nat | i < |slots| ensures |Collected(k, crc, ds[..u], i)| == k { FullStays(k, crc, ds, i, t, u); }
    }
  }

  // All packets are of this image, every failed write can be erased, and there
  // are as many good erase blocks left as writes that fail.
  ghost predicate Survives(k: nat, crc: seq<byte> -> nat, count: nat, bad: set<nat>, totcrc: nat, slots: seq<nat>,
                           top: nat, ds: seq<Delivery>) {
    (forall i :: 0 <= i < |slots| ==> slots[i] < count) &&
    (forall t :: 0 <= t < |ds| ==> ds[t].packet.totcrc == totcrc && ds[t].packet.blockNr < |slots|) &&
    (forall t :: 0 <= t < |ds| && FailsAt(k, crc, ds, t) ==> ds[t].dev.eraseOk) &&
    Failures(k, crc, ds) <= GoodFrom(count, bad, top)
  }

  lemma SurvivesAll(k: nat, crc: seq<byte> -> nat, count: nat, bad: set<nat>, totcrc: nat, slots: seq<nat>, top: nat,
                    ds: seq<Delivery>, t: nat)
    requires Survives(k, crc, count, bad, totcrc, slots, top, ds) && t < |ds|
    ensures !Hopeless(k, crc, count, bad, totcrc, slots, top, ds, t)
  {
    hide Collected, Failures;
    assert ds[..|ds|] == ds;
    FailuresGrow(k, crc, ds, t, |ds|);
    assert FailsAt(k, crc, ds, t) ==> ds[t].dev.eraseOk;
  }

  lemma {:induction false} SubsetSize(a: set<nat>, b: set<nat>)
    requires a <= b
    ensures |a| <= |b|
  {
    if a != {} {
      var x :| x in a;
      SubsetSize(a - {x}, b - {x});
    }
  }

  lemma FaithfulMore(k: nat, n: nat, sent: (nat, nat) -> Payload, crcs: nat -> nat, crc: seq<byte> -> nat, p: Packet,
                     blocks: seq<EraseBlock>, blocks': seq<EraseBlock>, payloads: seq<seq<Payload>>,
                     payloads': seq<seq<Payload>>)
    requires Faithful(k, n, sent, crcs, blocks, payloads) && Genuine(n, sent, crcs, crc, p)
    requires p.blockNr < |blocks| && OnlyAt(blocks, blocks', p.blockNr) && OnlyAt(payloads, payloads', p.blockNr) &&
      k >= 2
    requires var b, b', ps, ps' := blocks[p.blockNr], blocks'[p.blockNr], payloads[p.blockNr], payloads'[p.blockNr];
      (b'.pktIndices == b.pktIndices && ps' == ps && b'.crc == b.crc) ||
      (crc(p.data) == p.thiscrc && (|ps'| == k ==> b'.crc == p.blockCrc) &&
       ((b'.pktIndices == b.pktIndices + [p.pktNr] && ps' == ps + [p.data]) ||
        (b'.pktIndices == [p.pktNr] && ps' == [p.data])))
    ensures Faithful(k, n, sent, crcs, blocks', payloads')
  {
    forall i: nat | i < |blocks'| ensures FaithfulAt(k, n, sent, crcs, blocks'[i], payloads'[i], i) {
      assert FaithfulAt(k, n, sent, crcs, blocks[i], payloads[i], i);
    }
  }

  type Decoder = (seq<Payload>, seq<nat>) -> seq<Payload>

  // A decoder hands back as many packets as it is given.
  ghost predicate Shaped(dec: Decoder) {
    forall ps: seq<Payload>, indices: seq<nat> :: Whole(ps) ==> |dec(ps, indices)| == |ps| && Whole(dec(ps, indices))
  }

  // The erase block that a set of packets decodes to.
  ghost function Rebuilt(dec: Decoder, e: nat, ps: seq<Payload>, indices: seq<nat>): seq<byte> {
    var data := Concat(dec(ps, indices));
    if e <= |data| then data[..e] else data
  }

  ghost predicate Holds(flash: seq<byte>, at: nat, data: seq<byte>) {
    at + |data| <= |flash| && flash[at..at + |data|] == data
  }

  lemma HoldsElsewhere(flash: seq<byte>, flash': seq<byte>, at: nat, data: seq<byte>, e: nat, a: nat, b: nat)
    requires Holds(flash, at, data) && OnlyInEither(flash, flash', e, a, b)
    requires (at + |data| <= a * e || a * e + e <= at) && (at + |data| <= b * e || b * e + e <= at)
    ensures Holds(flash', at, data)
  {
  }

  lemma HeldOnce(flash: seq<byte>, at: nat, x: seq<byte>, y: seq<byte>)
    requires Holds(flash, at, x) && |x| == |y|
    ensures Holds(flash, at, y) <==> x == y
  {
  }

  lemma WriteHolds(flash: seq<byte>, at: nat, data: seq<byte>)
    requires at + |data| <= |flash|
    ensures Holds(Write(flash, at, data), at, data)
  {
  }

  // ---- the second phase -------------------------------------------------------

  // How the device answers while one block is put in place: to the erase of
  // its packets, and to each attempt at writing it.
  datatype Finale = Finale(eraseOk: bool, tries: nat -> Device)

  // Attempt t is the last one: it succeeds, or what it left cannot be erased.
  ghost predicate Ends(tries: nat -> Device, t: nat) {
    (tries(t).writeOk || !tries(t).eraseOk) && forall u: nat :: u < t ==> !tries(u).writeOk && tries(u).eraseOk
  }

  // The device does not fail every write and then erase it without a fault.
  ghost predicate Settles(fin: Finale) {
    exists t: nat :: Ends(fin.tries, t)
  }

  ghost predicate Succeeds(fin: Finale) {
    exists t: nat :: Ends(fin.tries, t) && fin.tries(t).writeOk
  }

  // The first attempt fails: the block moves to another erase block.
  predicate Moved(fin: Finale) {
    !fin.tries(0).writeOk
  }

  // Erased and then written, there being an erase block to move to if need be.
  ghost predicate Lands(fin: Finale, count: nat, bad: set<nat>, top: nat) {
    fin.eraseOk && Succeeds(fin) && (Moved(fin) ==> NextGood(count, bad, top) < count)
  }

  ghost predicate IsLastMoved(fins: seq<Finale>, l: nat) {
    l < |fins| && Moved(fins[l]) && forall j :: l < j < |fins| ==> !Moved(fins[j])
  }

  // The last of the first n blocks that moved, or none.
  ghost predicate LastBefore(fins: seq<Finale>, n: nat, last: int) {
    n <= |fins| && last < n && (last >= 0 ==> Moved(fins[last])) && forall i: nat :: last < i < n ==> !Moved(fins[i])
  }

  lemma LastBeforeMore(fins: seq<Finale>, n: nat, last: int)
    requires LastBefore(fins, n, last) && n < |fins|
    ensures LastBefore(fins, n + 1, if Moved(fins[n]) then n else last)
  {
  }

  // All blocks before n that had to move went to the same erase block.
  ghost predicate FinalSlots(fins: seq<Finale>, slots: seq<nat>, slots0: seq<nat>, n: nat, spare: nat) {
    |slots| == |slots0| == |fins| &&
    forall i :: 0 <= i < |slots| ==> slots[i] == if i < n && Moved(fins[i]) then spare else slots0[i]
  }

  // Two blocks are in different places, unless both had to move.
  lemma FinalApart(fins: seq<Finale>, slots: seq<nat>, slots0: seq<nat>, top: nat, spare: nat, n: nat, i: nat)
    requires Placed(top, slots0) && top <= spare && n < |slots0| && i < |slots0| && i != n
    requires FinalSlots(fins, slots, slots0, n + 1, spare)
    ensures slots[i] != slots0[n]
    ensures !(i < n && Moved(fins[i]) && Moved(fins[n])) ==> slots[i] != slots[n]
  {
  }

  // Only erase blocks a and b have been written to.
  ghost predicate OnlyInEither(flash: seq<byte>, flash': seq<byte>, e: nat, a: nat, b: nat) {
    |flash| == |flash'| &&
    forall i :: 0 <= i < |flash| && !(a * e <= i < a * e + e) && !(b * e <= i < b * e + e) ==> flash[i] == flash'[i]
  }

  lemma WriteOnlyInEither(flash0: seq<byte>, flash: seq<byte>, e: nat, a: nat, b: nat, at: nat, data: seq<byte>)
    requires OnlyInEither(flash0, flash, e, a, b) && |data| <= e && (at == a || at == b)
    ensures OnlyInEither(flash0, Write(flash, at * e, data), e, a, b)
  {
  }

  lemma EitherMore(flash0: seq<byte>, flash: seq<byte>, e: nat, a: nat, b: nat, c: nat)
    requires OnlyInEither(flash0, flash, e, a, b) && (b == a || b == c)
    ensures OnlyInEither(flash0, flash, e, a, c)
  {
  }

  lemma NextGoodStays(count: nat, bad: set<nat>, at: nat)
    ensures var good := NextGood(count, bad, at);
      at <= good && (good < count ==> NextGood(count, bad, good) == good)
  {
  }
}
