// serve_image.c: what the sender transmits in one cycle, and what the receiver
// of recv_image.c makes of it.
module Transfers {
  import opened Arithmetic
  import opened Basics
  import opened Bytes
  import opened PacketJournal
  import opened ReceiverState
  import opened Receivers

  type Encoder = (seq<Payload>, nat) -> Payload

  lemma TwoBlocks(e: nat, k: nat, nr: nat, i: nat)
    requires Geometry(e, k) && i < nr
    ensures i * e + e <= nr * e && e <= k * PKT_SIZE
    ensures i + 1 < nr ==> i * e + k * PKT_SIZE <= nr * e
  {
    Apart(e, i, nr);
    if i + 1 < nr {
      Apart(e, i, i + 1);
      Apart(e, i + 1, nr);
    }
  }

  // The image as it is sent: nr blocks of e bytes in n packets each, any k of
  // which are enough.
  datatype Sender = Sender(image: seq<byte>, e: nat, k: nat, nr: nat, n: nat, enc: Encoder, crc: seq<byte> -> nat) {
    ghost predicate Valid() {
      Geometry(e, k) && |image| == nr * e && nr > 0 && k <= n &&
      (forall src: seq<Payload>, i: nat :: |src| == k && Whole(src) ==> |enc(src, i)| == PKT_SIZE)
    }

    // The data the packets of a block are made of reads on into the next
    // block; behind the last block there are zeros.
    function Source(i: nat): (r: seq<byte>)
      requires Valid() && i < nr
      ensures |r| == k * PKT_SIZE
    {
      TwoBlocks(e, k, nr, i);
      if i + 1 < nr then image[i * e..i * e + k * PKT_SIZE]
      else image[i * e..i * e + e] + seq(k * PKT_SIZE - e, _ => 0)
    }

    function Block(i: nat): seq<byte>
      requires Valid() && i < nr
    {
      TwoBlocks(e, k, nr, i);
      image[i * e..i * e + e]
    }

    lemma SourceStarts(i: nat)
      requires Valid() && i < nr
      ensures e <= k * PKT_SIZE && Source(i)[..e] == Block(i) && |Block(i)| == e
    {
      TwoBlocks(e, k, nr, i);
    }

    function Data(i: nat, pktNr: nat): Payload
      requires Valid()
    {
      if i < nr then enc(Cut(Source(i), k), pktNr) else []
    }

    function BlockCrc(i: nat): nat
      requires Valid()
    {
      if i < nr then crc(Block(i)) else 0
    }

    function PacketOf(i: nat, pktNr: nat): Packet
      requires Valid()
    {
      Packet(crc(image), i, pktNr, Data(i, pktNr), crc(Data(i, pktNr)), BlockCrc(i))
    }

    // Odd blocks are sent from their first packet on, even ones from the last.
    function Actual(i: nat, pktNr: nat): (r: nat)
      requires pktNr < n
      ensures r < n
    {
      if i % 2 == 1 then pktNr else n - 1 - pktNr
    }

    // The packets of one round, and those of the rounds before round a.
    ghost function Round(a: nat, m: nat): seq<Packet>
      requires Valid() && a < n && m <= nr
    {
      if m == 0 then [] else Round(a, m - 1) + [PacketOf(m - 1, Actual(m - 1, a))]
    }

    ghost function Rounds(a: nat): seq<Packet>
      requires Valid() && a <= n
    {
      if a == 0 then [] else Rounds(a - 1) + Round(a - 1, nr)
    }

    // One cycle of the transmission loop.
    method Cycle() returns (sent: seq<Packet>)
      requires Valid()
      ensures sent == Rounds(n)
    {
      hide PacketOf, Valid;
      sent := [];
      var pktNr := 0;
      while pktNr < n
        invariant pktNr <= n && sent == Rounds(pktNr)
      {
        var blockNr := 0;
        while blockNr < nr
          invariant blockNr <= nr && sent == Rounds(pktNr) + Round(pktNr, blockNr)
        {
          var actualPkt := if blockNr % 2 == 1 then pktNr else n - 1 - pktNr;
          sent := sent + [PacketOf(blockNr, actualPkt)];
          blockNr := blockNr + 1;
        }
        pktNr := pktNr + 1;
      }
    }

    static ghost function Count(ps: seq<Packet>, i: nat, pktNr: nat): nat {
      if ps == [] then 0 else
        var p := ps[|ps| - 1];
        Count(ps[..|ps| - 1], i, pktNr) + if p.blockNr == i && p.pktNr == pktNr then 1 else 0
    }

    static lemma {:induction false} CountJoin(ps: seq<Packet>, qs: seq<Packet>, i: nat, pktNr: nat)
      ensures Count(ps + qs, i, pktNr) == Count(ps, i, pktNr) + Count(qs, i, pktNr)
    {
      if qs == [] {
        assert ps + qs == ps;
      } else {
        assert (ps + qs)[..|ps + qs| - 1] == ps + qs[..|qs| - 1];
        CountJoin(ps, qs[..|qs| - 1], i, pktNr);
      }
    }

    lemma {:induction false} RoundCount(a: nat, m: nat, i: nat, pktNr: nat)
      requires Valid() && a < n && m <= nr && pktNr < n
      ensures Count(Round(a, m), i, pktNr) == if i < m && Actual(i, pktNr) == a then 1 else 0
    {
      hide Valid, Data, BlockCrc, Count, Actual;
      if m > 0 {
        RoundCount(a, m - 1, i, pktNr);
        CountMore(Round(a, m - 1), PacketOf(m - 1, Actual(m - 1, a)), i, pktNr);
        ActualBack(m - 1, a, pktNr);
      } else {
        CountNone(i, pktNr);
      }
    }

    static lemma CountMore(ps: seq<Packet>, p: Packet, i: nat, pktNr: nat)
      ensures Count(ps + [p], i, pktNr) == Count(ps, i, pktNr) + if p.blockNr == i && p.pktNr == pktNr then 1 else 0
    {
      assert (ps + [p])[..|ps|] == ps;
    }

    static lemma CountNone(i: nat, pktNr: nat)
      ensures Count([], i, pktNr) == 0
    {
    }

    // Counting up or down, a round sends a different packet of each block.
    lemma ActualBack(i: nat, a: nat, pktNr: nat)
      requires a < n && pktNr < n
      ensures Actual(i, a) == pktNr <==> Actual(i, pktNr) == a
    {
    }

    lemma {:induction false} RoundsCount(a: nat, i: nat, pktNr: nat)
      requires Valid() && a <= n && i < nr && pktNr < n
      ensures Count(Rounds(a), i, pktNr) == if Actual(i, pktNr) < a then 1 else 0
    {
      hide Valid, PacketOf, Round;
      if a > 0 {
        RoundsCount(a - 1, i, pktNr);
        RoundCount(a - 1, nr, i, pktNr);
        CountJoin(Rounds(a - 1), Round(a - 1, nr), i, pktNr);
      }
    }

    // A cycle sends every packet of every block exactly once.
    lemma CycleSendsOnce(i: nat, pktNr: nat)
      requires Valid() && i < nr && pktNr < n
      ensures Count(Rounds(n), i, pktNr) == 1
    {
      RoundsCount(n, i, pktNr);
    }

    // Packet i of round a: odd blocks go up, even ones down.
    lemma {:induction false} RoundAt(a: nat, m: nat, i: nat)
      requires Valid() && a < n && i < m <= nr
      ensures |Round(a, m)| == m && Round(a, m)[i] == PacketOf(i, if i % 2 == 1 then a else n - 1 - a)
    {
      hide Valid, PacketOf;
      if m > 1 { RoundAt(a, m - 1, if i < m - 1 then i else 0); }
    }

    lemma {:induction false} CycleAt(b: nat, a: nat, i: nat)
      requires Valid() && a < b <= n && i < nr
      ensures a * nr + i < |Rounds(b)| == b * nr
      ensures Rounds(b)[a * nr + i] == PacketOf(i, if i % 2 == 1 then a else n - 1 - a)
    {
      hide Valid, PacketOf, Round;
      RoundAt(b - 1, nr, i);
      assert b * nr == (b - 1) * nr + nr;
      if a < b - 1 {
        CycleAt(b - 1, a, i);
      } else if b > 1 {
        CycleAt(b - 1, b - 2, 0);
      }
    }

    // And it sends nothing else.
    lemma {:induction false} RoundsGenuine(a: nat, m: nat, p: Packet)
      requires Valid() && a <= n && m <= nr && (a < n || m == 0)
      requires p in (if m == 0 then Rounds(a) else Rounds(a) + Round(a, m))
      ensures p.blockNr < nr && p.pktNr < n && p == PacketOf(p.blockNr, p.pktNr)
      decreases a, m
    {
      hide Valid, Data, BlockCrc;
      if m > 0 {
        if p != PacketOf(m - 1, Actual(m - 1, a)) {
          RoundsGenuine(a, m - 1, p);
        }
      } else if a > 0 {
        RoundsGenuine(a - 1, nr, p);
      }
    }
  }

  ghost function Encoded(enc: Encoder, src: seq<Payload>, indices: seq<nat>): (r: seq<Payload>)
    ensures |r| == |indices|
  {
    seq(|indices|, j requires 0 <= j < |indices| => enc(src, indices[j]))
  }

  // What the erasure code promises: any k different packets of n give the k
  // source packets back.
  ghost predicate Code(enc: Encoder, dec: Decoder, k: nat, n: nat) {
    Shaped(dec) &&
    (forall src: seq<Payload>, i: nat :: |src| == k && Whole(src) ==> |enc(src, i)| == PKT_SIZE) &&
    (forall src: seq<Payload>, indices: seq<nat> :: Decodable(src, indices, k, n) ==>
      dec(Encoded(enc, src, indices), indices) == src)
  }

  ghost predicate Decodable(src: seq<Payload>, indices: seq<nat>, k: nat, n: nat) {
    |src| == k && Whole(src) && |indices| == k && NoRepeat(indices) && (forall j :: 0 <= j < k ==> indices[j] < n)
  }

  // Whatever arrives intact is one of the sender's packets.
  ghost predicate FromSender(s: Sender, ds: seq<Delivery>)
    requires s.Valid()
  {
    forall t :: 0 <= t < |ds| ==>
      |ds[t].packet.data| == PKT_SIZE &&
      (s.crc(ds[t].packet.data) == ds[t].packet.thiscrc ==> ds[t].packet in s.Rounds(s.n))
  }

  // The packets of block i that never arrive.
  ghost function Lost(s: Sender, ds: seq<Delivery>, i: nat): set<nat>
    requires s.Valid()
  {
    set pktNr: nat | pktNr in Numbers(s.n) && !Delivered(ds, s.PacketOf(i, pktNr))
  }

  ghost predicate Delivered(ds: seq<Delivery>, p: Packet) {
    exists t :: 0 <= t < |ds| && ds[t].packet == p
  }

  lemma {:induction false} DeliveredArrives(crc: seq<byte> -> nat, ds: seq<Delivery>, p: Packet)
    requires Delivered(ds, p) && crc(p.data) == p.thiscrc
    ensures p.pktNr in Arrived(crc, ds, p.blockNr)
  {
    var t :| 0 <= t < |ds| && ds[t].packet == p;
    if t < |ds| - 1 {
      assert ds[..|ds| - 1][t].packet == p;
      DeliveredArrives(crc, ds[..|ds| - 1], p);
    }
  }

  ghost function Numbers(n: nat): (r: set<nat>)
    ensures |r| == n && forall x: nat :: x in r <==> x < n
  {
    if n == 0 then {} else Numbers(n - 1) + {n - 1}
  }

  // Losing at most n - k packets of a block leaves enough of them.
  lemma LossLeavesEnough(s: Sender, ds: seq<Delivery>, i: nat)
    requires s.Valid() && |Lost(s, ds, i)| <= s.n - s.k
    ensures |Arrived(s.crc, ds, i)| >= s.k
  {
    hide Sender.Valid, Sender.Data, Sender.BlockCrc, Arrived;
    forall pktNr: nat | pktNr in Numbers(s.n) - Lost(s, ds, i) ensures pktNr in Arrived(s.crc, ds, i) {
      DeliveredArrives(s.crc, ds, s.PacketOf(i, pktNr));
    }
    assert Lost(s, ds, i) <= Numbers(s.n);
    SubsetSize(Numbers(s.n) - Lost(s, ds, i), Arrived(s.crc, ds, i));
  }

  ghost function SentBy(s: Sender): (nat, nat) -> Payload
    requires s.Valid()
  {
    (i: nat, pktNr: nat) => s.Data(i, pktNr)
  }

  ghost function CrcsOf(s: Sender): nat -> nat
    requires s.Valid()
  {
    (i: nat) => s.BlockCrc(i)
  }

  // What the receiver stored of a full block decodes to that block.
  lemma FaithfulDecodes(s: Sender, dec: Decoder, b: EraseBlock, ps: seq<Payload>, i: nat)
    requires s.Valid() && Code(s.enc, dec, s.k, s.n) && i < s.nr && |ps| == s.k && NoRepeat(b.pktIndices)
    requires FaithfulAt(s.k, s.n, SentBy(s), CrcsOf(s), b, ps, i)
    ensures Rebuilt(dec, s.e, ps, b.pktIndices) == s.Block(i) && s.crc(s.Block(i)) == b.crc
  {
    hide Concat, NoRepeat, Geometry;
    var src := Cut(s.Source(i), s.k);
    forall j | 0 <= j < s.k ensures ps[j] == Encoded(s.enc, src, b.pktIndices)[j] {
      assert s.Data(i, b.pktIndices[j]) == s.enc(src, b.pktIndices[j]);
    }
    assert ps == Encoded(s.enc, src, b.pktIndices);
    assert Decodable(src, b.pktIndices, s.k, s.n);
    ConcatCut(s.Source(i), s.k);
    s.SourceStarts(i);
  }

  // An intact packet of the sender is what the receiver takes it for.
  lemma SenderIsGenuine(s: Sender, ds: seq<Delivery>, t: nat)
    requires s.Valid() && FromSender(s, ds) && t < |ds|
    ensures Genuine(s.n, SentBy(s), CrcsOf(s), s.crc, ds[t].packet)
  {
    hide Sender.Data, Sender.BlockCrc;
    var p := ds[t].packet;
    if s.crc(p.data) == p.thiscrc {
      s.RoundsGenuine(s.n, 0, p);
    }
  }

  lemma FullBlocksDistinct(recv: Receiver, i: nat)
    requires recv.Valid() && i < |recv.blocks|
    ensures NoRepeat(recv.blocks[i].pktIndices) && |recv.payloads[i]| == |recv.blocks[i].pktIndices|
  {
    assert JournalAt(recv.e, recv.k, recv.flash, recv.blocks, recv.slots, recv.payloads, i);
  }

  ghost predicate Paired(recv: Receiver, s: Sender)
    requires s.Valid()
    reads recv
  {
    recv.e == s.e && recv.k == s.k && recv.crc == s.crc && |recv.blocks| == s.nr
  }

  // From its last failed write on, no more packets of a block are lost than the
  // code can make up for.
  ghost predicate LosesFew(s: Sender, ds: seq<Delivery>, i: nat)
    requires s.Valid()
  {
    exists a: nat :: a <= |ds| && NoFailureBehind(s.k, s.crc, ds, i, a) && |Lost(s, ds[a..], i)| <= s.n - s.k
  }

  lemma LosesFewIsSupplied(s: Sender, ds: seq<Delivery>, i: nat)
    requires s.Valid() && LosesFew(s, ds, i)
    ensures Supplied(s.k, s.crc, ds, i)
  {
    hide Sender.Valid, NoFailureBehind, Lost, Arrived;
    var a: nat :| a <= |ds| && NoFailureBehind(s.k, s.crc, ds, i, a) && |Lost(s, ds[a..], i)| <= s.n - s.k;
    LossLeavesEnough(s, ds[a..], i);
  }

  // Every packet is of this image, what a failed write leaves can be erased, good
  // erase blocks are left for as many blocks as have to move, and few enough
  // packets are lost.
  ghost predicate Favourable(recv: Receiver, s: Sender, ds: seq<Delivery>, fins: seq<Finale>)
    requires s.Valid()
    reads recv
  {
    Survives(s.k, s.crc, recv.count, recv.bad, s.crc(s.image), recv.slots, recv.next, ds) &&
    (forall i :: 0 <= i < |fins| ==>
      fins[i].eraseOk && Succeeds(fins[i]) &&
      (Moved(fins[i]) ==> Failures(s.k, s.crc, ds) < GoodFrom(recv.count, recv.bad, recv.next))) &&
    (forall i: nat :: i < s.nr ==> LosesFew(s, ds, i))
  }

  // The image is on flash, block by block.
  ghost predicate InPlace(recv: Receiver, s: Sender)
    requires s.Valid()
    reads recv
  {
    |recv.slots| == s.nr && forall i: nat :: i < s.nr ==> Holds(recv.flash, recv.slots[i] * s.e, s.Block(i))
  }

  // Of the blocks whose first write failed in the second phase, all hold the
  // same data.
  ghost predicate MovedAlike(s: Sender, fins: seq<Finale>)
    requires s.Valid() && |fins| == s.nr
  {
    forall i: nat, l: nat :: i < s.nr && IsLastMoved(fins, l) && Moved(fins[i]) ==> s.Block(i) == s.Block(l)
  }

  ghost predicate OneMovedAtMost(fins: seq<Finale>) {
    forall i, j :: 0 <= i < j < |fins| ==> !(Moved(fins[i]) && Moved(fins[j]))
  }

  // What was stored of every block decodes to that block of the image.
  lemma AllDecode(recv: Receiver, s: Sender, dec: Decoder)
    requires s.Valid() && Code(s.enc, dec, s.k, s.n) && recv.Valid() && Paired(recv, s) && Full(s.k, recv.blocks)
    requires Faithful(s.k, s.n, SentBy(s), CrcsOf(s), recv.blocks, recv.payloads)
    ensures forall i: nat :: i < s.nr ==>
      recv.Image(dec, recv.blocks, i) == s.Block(i) && s.crc(s.Block(i)) == recv.blocks[i].crc
  {
    hide Sender.Block, AllJournals, Total, Rebuilt, FaithfulAt;
    forall i: nat | i < s.nr
      ensures recv.Image(dec, recv.blocks, i) == s.Block(i) && s.crc(s.Block(i)) == recv.blocks[i].crc
    {
      FullBlocksDistinct(recv, i);
      FaithfulDecodes(s, dec, recv.blocks[i], recv.payloads[i], i);
    }
  }

  // The second phase, once enough of every block is stored.
  method Rebuild(recv: Receiver, ghost s: Sender, dec: Decoder, fins: seq<Finale>) returns (ok: bool)
    requires s.Valid() && Code(s.enc, dec, s.k, s.n) && recv.Valid() && Paired(recv, s) && Full(s.k, recv.blocks)
    requires Faithful(s.k, s.n, SentBy(s), CrcsOf(s), recv.blocks, recv.payloads)
    requires |fins| == s.nr && forall i :: 0 <= i < |fins| ==> Settles(fins[i])
    modifies recv
    ensures ok <==> forall i :: 0 <= i < |fins| ==> Lands(fins[i], recv.count, recv.bad, old(recv.next))
    ensures ok ==> |recv.slots| == s.nr && forall i: nat :: i < s.nr ==>
      (Holds(recv.flash, recv.slots[i] * s.e, s.Block(i)) <==>
       forall l: nat :: IsLastMoved(fins, l) && Moved(fins[i]) ==> s.Block(i) == s.Block(l))
    ensures ok ==> FinalSlots(fins, recv.slots, old(recv.slots), s.nr, NextGood(recv.count, recv.bad, old(recv.next)))
    ensures ok && OneMovedAtMost(fins) ==> NoRepeat(recv.slots)
  {
    hide Sender.Block, JournalAt, AllJournals, Total, Rebuilt, Holds, Faithful, Moved, Settles, Lands,
      NextGood, FinalSlots, OneMovedAtMost, NoRepeat, Code, Sender.Valid, Geometry;
    AllDecode(recv, s, dec);
    SenderShape(s, dec);
    ghost var top, slots0 := recv.next, recv.slots;
    ok := recv.Reassemble(dec, fins);
    assert forall i: nat :: i < s.nr ==> recv.Image(dec, recv.blocks, i) == s.Block(i);
    if ok && OneMovedAtMost(fins) {
      NextGoodStays(recv.count, recv.bad, top);
      StillApart(fins, recv.slots, slots0, top, NextGood(recv.count, recv.bad, top));
    }
  }

  lemma SenderShape(s: Sender, dec: Decoder)
    requires s.Valid() && Code(s.enc, dec, s.k, s.n)
    ensures Geometry(s.e, s.k) && s.nr > 0 && Shaped(dec)
  {
  }

  // The reception is complete after t deliveries, and every block can be put in
  // place then, there being an erase block left if one has to move.
  ghost predicate Ready(k: nat, crc: seq<byte> -> nat, count: nat, bad: set<nat>, totcrc: nat, slots: seq<nat>,
                        top: nat, ds: seq<Delivery>, fins: seq<Finale>, t: nat) {
    t <= |ds| && CompleteAt(k, crc, count, bad, totcrc, slots, top, ds, t) &&
    forall i :: 0 <= i < |fins| ==>
      fins[i].eraseOk && Succeeds(fins[i]) &&
      (Moved(fins[i]) ==> Failures(k, crc, ds[..t]) < GoodFrom(count, bad, top))
  }

  lemma ReadyAt(k: nat, crc: seq<byte> -> nat, count: nat, bad: set<nat>, totcrc: nat, slots: seq<nat>, top: nat,
                ds: seq<Delivery>, fins: seq<Finale>, t: nat, next: nat)
    requires t <= |ds| && CompleteAt(k, crc, count, bad, totcrc, slots, top, ds, t)
    requires GoodFrom(count, bad, next) + Failures(k, crc, ds[..t]) == GoodFrom(count, bad, top)
    ensures (forall i :: 0 <= i < |fins| ==> Lands(fins[i], count, bad, next)) <==>
      exists u: nat :: Ready(k, crc, count, bad, totcrc, slots, top, ds, fins, u)
  {
    hide CompleteAt, Failures, GoodFrom, NextGood, Moved, Succeeds;
    CompleteOnce(k, crc, count, bad, totcrc, slots, top, ds, t);
    NextGoodIs(count, bad, next);
    if forall i :: 0 <= i < |fins| ==> Lands(fins[i], count, bad, next) {
      assert Ready(k, crc, count, bad, totcrc, slots, top, ds, fins, t);
    }
    if u: nat :| Ready(k, crc, count, bad, totcrc, slots, top, ds, fins, u) {
      assert u == t;
    }
  }

  // Whatever the channel loses, repeats, reorders or damages, and whichever
  // writes fail: a transfer that ends well has put the image on flash, unless
  // blocks of different contents had to move at the very end.
  method Transfer(recv: Receiver, ghost s: Sender, dec: Decoder, ds: seq<Delivery>, fins: seq<Finale>)
    returns (ok: bool)
    requires s.Valid() && Code(s.enc, dec, s.k, s.n) && FromSender(s, ds)
    requires recv.Valid() && recv.NothingStored() && Paired(recv, s) && recv.imageCrc == s.crc(s.image)
    requires |fins| == s.nr && forall i :: 0 <= i < |fins| ==> Settles(fins[i])
    modifies recv
    ensures ok <==> exists t: nat :: Ready(recv.k, recv.crc, recv.count, recv.bad, old(recv.imageCrc),
      old(recv.slots), old(recv.next), ds, fins, t)
    ensures ok ==> (InPlace(recv, s) <==> MovedAlike(s, fins))
    ensures ok && OneMovedAtMost(fins) ==> InPlace(recv, s) && NoRepeat(recv.slots)
    ensures old(Favourable(recv, s, ds, fins)) ==> ok
  {
    hide Sender.Data, Sender.BlockCrc, Sender.Block, Lost, Arrived, JournalAt, AllJournals, Total, Holds, Placed,
      FaithfulAt, Genuine, Moved, Settles, NextGood, GoodFrom, IsLastMoved, OneMovedAtMost, NoRepeat, Survives,
      Supplied, LosesFew, Collected, Hopeless, Failures, Succeeds, CompleteAt;
    ghost var sent, crcs := SentBy(s), CrcsOf(s);
    forall t | 0 <= t < |ds| ensures Genuine(s.n, sent, crcs, s.crc, ds[t].packet) { SenderIsGenuine(s, ds, t); }
    if Favourable(recv, s, ds, fins) {
      forall i: nat | i < s.nr ensures Supplied(s.k, s.crc, ds, i) { LosesFewIsSupplied(s, ds, i); }
      assert recv.Enough(ds);
    }
    ghost var totcrc, slots, top := recv.imageCrc, recv.slots, recv.next;
    var r := recv.Receive(ds, s.n, sent, crcs);
    forall t: nat | CompleteAt(recv.k, recv.crc, recv.count, recv.bad, totcrc, slots, top, ds, t)
      ensures r == Complete
    {
      CompleteOnce(recv.k, recv.crc, recv.count, recv.bad, totcrc, slots, top, ds, t);
    }
    if r != Complete {
      return false;
    }
    ghost var next := recv.next;
    NextGoodIs(recv.count, recv.bad, next);
    ghost var t: nat :| t <= |ds| && CompleteAt(recv.k, recv.crc, recv.count, recv.bad, totcrc, slots, top, ds, t) &&
      GoodFrom(recv.count, recv.bad, recv.next) + Failures(recv.k, recv.crc, ds[..t]) ==
        GoodFrom(recv.count, recv.bad, top);
    CompleteOnce(recv.k, recv.crc, recv.count, recv.bad, totcrc, slots, top, ds, t);
    ok := Rebuild(recv, s, dec, fins);
    ReadyAt(recv.k, recv.crc, recv.count, recv.bad, totcrc, slots, top, ds, fins, t, next);
    if OneMovedAtMost(fins) { OneIsAlike(s, fins); }
  }

  // The first write fails, what it left is erased, and the second succeeds.
  function FailsOnce(): Finale {
    Finale(true, t => Device(t > 0, [], true))
  }

  lemma FailsOnceLands(count: nat, bad: set<nat>, top: nat)
    requires NextGood(count, bad, top) < count
    ensures Settles(FailsOnce()) && Moved(FailsOnce()) && Lands(FailsOnce(), count, bad, top)
  {
    assert Ends(FailsOnce().tries, 1);
  }

  // Two different blocks whose first write fails end up in the same erase
  // block: the receiver reports success and the first of them is gone.
  method TwoMovesLoseOne(recv: Receiver, ghost s: Sender, dec: Decoder) returns (ok: bool)
    requires s.Valid() && Code(s.enc, dec, s.k, s.n) && recv.Valid() && Paired(recv, s) && Full(s.k, recv.blocks)
    requires Faithful(s.k, s.n, SentBy(s), CrcsOf(s), recv.blocks, recv.payloads)
    requires s.nr == 2 && s.Block(0) != s.Block(1) && NextGood(recv.count, recv.bad, recv.next) < recv.count
    modifies recv
    ensures ok && |recv.slots| == 2 && recv.slots[0] == recv.slots[1]
    ensures Holds(recv.flash, recv.slots[1] * s.e, s.Block(1)) && !Holds(recv.flash, recv.slots[0] * s.e, s.Block(0))
  {
    hide Sender.Block, JournalAt, AllJournals, Total, Holds, Faithful, Code, Geometry, Settles, Lands, NextGood, Placed;
    FailsOnceLands(recv.count, recv.bad, recv.next);
    ghost var fins := [FailsOnce(), FailsOnce()];
    assert IsLastMoved(fins, 1);
    ok := Rebuild(recv, s, dec, [FailsOnce(), FailsOnce()]);
  }

  lemma OneIsAlike(s: Sender, fins: seq<Finale>)
    requires s.Valid() && |fins| == s.nr && OneMovedAtMost(fins)
    ensures MovedAlike(s, fins)
  {
    forall i: nat, l: nat | i < s.nr && IsLastMoved(fins, l) && Moved(fins[i])
      ensures i == l
    {
    }
  }

  lemma StillApart(fins: seq<Finale>, slots: seq<nat>, slots0: seq<nat>, top: nat, spare: nat)
    requires OneMovedAtMost(fins) && Placed(top, slots0) && top <= spare &&
      FinalSlots(fins, slots, slots0, |fins|, spare)
    ensures NoRepeat(slots)
  {
  }
}
