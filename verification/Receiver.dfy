// recv_image.c: the reception loop, its recovery from failed writes, and the
// reassembly of the blocks once enough packets of each are on flash.
module Receivers {
  import opened Arithmetic
  import opened Bytes
  import opened PacketJournal
  import opened ReceiverState

  class Receiver {
    const e: nat
    const k: nat
    const count: nat // erase blocks on the device
    const bad: set<nat> // those marked bad
    const crc: seq<byte> -> nat
    var flash: seq<byte>
    var blocks: seq<EraseBlock>
    var next: nat // mtdoffset, in erase blocks
    var totalPkts: int
    var imageCrc: nat
    ghost var slots: seq<nat>
    ghost var payloads: seq<seq<Payload>>

    constructor (eraseSize: nat, pktsPerBlock: nat, eraseBlocks: nat, marked: set<nat>, crc32: seq<byte> -> nat,
                 contents: seq<byte>)
      requires Geometry(eraseSize, pktsPerBlock) && |contents| == eraseBlocks * eraseSize
      ensures Fresh() && flash == contents && e == eraseSize && k == pktsPerBlock && count == eraseBlocks
      ensures bad == marked && crc == crc32
    {
      e, k, count, bad, crc := eraseSize, pktsPerBlock, eraseBlocks, marked, crc32;
      flash, blocks, next, totalPkts, imageCrc := contents, [], 0, 0, 0;
      slots, payloads := [], [];
    }

    ghost predicate Bounded()
      reads this
    {
      Geometry(e, k) && |flash| == count * e && |blocks| == |slots| == |payloads| &&
      Placed(next, slots) && totalPkts == Total(blocks)
    }

    ghost predicate Valid()
      reads this
    {
      Bounded() && AllJournals(e, k, flash, blocks, slots, payloads, -1)
    }

    // Storing the packet makes the write buffer go to flash, and that fails.
    ghost predicate WriteFails(n: nat, dev: Device)
      requires n < |blocks| && n < |slots|
      reads this
    {
      blocks[n].wbufOfs + PKT_SIZE >= WBUF_SIZE && !(dev.writeOk && slots[n] < count)
    }

    // A write failed in block n, whose journal is lost.
    ghost predicate Broken(n: nat)
      reads this
    {
      Bounded() && n < |blocks| && AllJournals(e, k, flash, blocks, slots, payloads, n) &&
      |blocks[n].wbuf| == WBUF_SIZE && blocks[n].nrPkts == |blocks[n].pktIndices| &&
      slots[n] * e <= blocks[n].flashOffset < slots[n] * e + e
    }

    method Journalise(p: Packet, dev: Device) returns (stored: bool)
      requires Valid() && p.blockNr < |blocks| && |p.data| == PKT_SIZE
      requires |blocks[p.blockNr].pktIndices| < k && p.pktNr !in blocks[p.blockNr].pktIndices
      modifies this`flash, this`blocks, this`totalPkts, this`payloads
      ensures stored <==> !old(WriteFails(p.blockNr, dev))
      ensures OnlyAt(old(blocks), blocks, p.blockNr)
      ensures stored ==> Valid()
      ensures stored ==> payloads == old(payloads)[p.blockNr := old(payloads[p.blockNr]) + [p.data]]
      ensures stored ==> blocks[p.blockNr].pktIndices == old(blocks[p.blockNr].pktIndices) + [p.pktNr]
      ensures stored ==> blocks[p.blockNr].nrPkts == old(blocks[p.blockNr].nrPkts) + 1
      ensures OnlyIn(old(flash), flash, slots[p.blockNr] * e, slots[p.blockNr] * e + e)
      ensures old(blocks[p.blockNr].wbufOfs) + PKT_SIZE < WBUF_SIZE ==> flash == old(flash)
      ensures !stored ==> Broken(p.blockNr) && payloads == old(payloads)
    {
      hide Journal, Total, Placed, Write, AllJournals;
      ghost var n, ps := p.blockNr, payloads[p.blockNr];
      ghost var base := slots[n] * e;
      Opened(e, k, count, flash, blocks, slots, payloads, n);
      var b := blocks[p.blockNr];
      assert slots[n := slots[n]] == slots;
      totalPkts := totalPkts + 1;
      if b.wbufOfs + PKT_SIZE < WBUF_SIZE {
        BufferedJournal(e, k, flash, b, base, ps, p.data, p.pktNr);
        b := Buffered(b, p.data, p.pktNr);
        JournalsUpdate(e, k, next, flash, flash, blocks, b, slots, slots[n], payloads, ps + [p.data], n);
        stored := true;
      } else {
        stored := dev.writeOk && b.flashOffset + WBUF_SIZE <= |flash|;
        if stored {
          ghost var flash' := Write(flash, b.flashOffset, Filled(b, p.data));
          SpilledJournal(e, k, flash, b, base, ps, p.data, p.pktNr);
          WriteOnlyIn(flash, b.flashOffset, Filled(b, p.data), base, base + e);
          JournalsUpdate(e, k, next, flash, flash', blocks, Spilled(b, p.data, p.pktNr), slots, slots[n], payloads,
            ps + [p.data], n);
          flash := Write(flash, b.flashOffset, Filled(b, p.data));
          b := Spilled(b, p.data, p.pktNr);
        } else {
          var junk := if |dev.junk| > WBUF_SIZE then dev.junk[..WBUF_SIZE] else dev.junk;
          ghost var flash' := Write(flash, b.flashOffset, junk);
          WriteOnlyIn(flash, b.flashOffset, junk, base, base + e);
          b := b.(wbuf := Filled(b, p.data), nrPkts := b.nrPkts + 1, pktIndices := b.pktIndices + [p.pktNr]);
          JournalsElsewhere(e, k, next, flash, flash', blocks, blocks[n := b], slots, slots, payloads, payloads, n);
          flash := Write(flash, b.flashOffset, junk);
        }
      }
      TotalUpdate(blocks, n, b);
      blocks := blocks[p.blockNr := b];
      if stored { payloads := payloads[n := ps + [p.data]]; }
    }

    // The device is at the first erase block and nothing is allocated yet.
    ghost predicate Fresh()
      reads this
    {
      Geometry(e, k) && |flash| == count * e && next == 0
    }

    ghost predicate NothingStored()
      reads this
    {
      |payloads| == |blocks| && forall i :: 0 <= i < |blocks| ==> payloads[i] == [] && blocks[i].pktIndices == []
    }

    // The blocks have the good erase blocks of the device in a row. Only the last
    // one can have been put behind the end of it.
    ghost predicate Allotted()
      reads this
    {
      (forall i :: 0 <= i < |slots| ==>
        slots[i] == NextGood(count, bad, if i == 0 then 0 else slots[i - 1] + 1)) &&
      (slots == [] ==> next == 0) &&
      (forall i :: 0 <= i < |slots| ==> slots[i] !in bad || slots[i] >= count) &&
      (forall i :: 0 <= i < |slots| - 1 ==> slots[i] < count) &&
      (|slots| > 0 ==> next == slots[|slots| - 1] + 1)
    }

    method Allocate(scratch: seq<byte>)
      requires Valid() && NothingStored() && Allotted() && next < count && |scratch| == WBUF_SIZE
      modifies this
      ensures Valid() && NothingStored() && Allotted() && |blocks| == old(|blocks|) + 1
      ensures imageCrc == old(imageCrc) && flash == old(flash)
    {
      hide Journal, Total, AllJournals, NextGood;
      SkipBad();
      var b := EraseBlock(next * e, scratch, 0, 0, [], 0);
      EmptyJournal(e, k, flash, b, next * e);
      JournalsMore(e, k, flash, blocks, b, slots, next, payloads);
      TotalMore(blocks, b);
      blocks := blocks + [b];
      slots, payloads := slots + [next], payloads + [[]];
      next := next + 1;
    }

    // The first packet to arrive says how many blocks the image has.
    method Start(nr: nat, totcrc: nat, scratch: seq<byte>) returns (ok: bool)
      requires Fresh() && |scratch| == WBUF_SIZE
      modifies this
      ensures ok ==>
        Valid() && NothingStored() && Allotted() && |blocks| == nr && imageCrc == totcrc && flash == old(flash)
      ensures !ok ==> |blocks| < nr && next >= count
    {
      hide Journal, Total, AllJournals, NextGood;
      imageCrc := totcrc;
      blocks, slots, payloads, totalPkts := [], [], [], 0;
      TotalNone();
      JournalsNone();
      while |blocks| < nr
        invariant Valid() && NothingStored() && Allotted() && |blocks| <= nr
        invariant imageCrc == totcrc && flash == old(flash)
        decreases nr - |blocks|
      {
        if next >= count {
          return false;
        }
        Allocate(scratch);
      }
      ok := true;
    }

    lemma NothingWritten(f: seq<byte>, from: nat, to: nat)
      ensures OnlyIn(f, f, from, to)
    {
    }

    lemma TotalNone()
      ensures Total([]) == 0
    {
    }

    lemma JournalsNone()
      ensures AllJournals(e, k, flash, [], [], [], -1)
    {
    }

    method SkipBad()
      modifies this`next
      ensures next == NextGood(count, bad, old(next))
    {
      while next < count && next in bad
        invariant NextGood(count, bad, next) == NextGood(count, bad, old(next))
        decreases count - next
      {
        next := next + 1;
      }
    }

    // The erase block of the failed write is erased and the next good one
    // takes over.
    method Relocate(n: nat, dev: Device) returns (ok: bool)
      requires Broken(n)
      modifies this
      ensures imageCrc == old(imageCrc) && OnlyAt(old(blocks), blocks, n) && OnlyAt(old(slots), slots, n)
      ensures ok <==> dev.eraseOk && old(slots[n]) < count && NextGood(count, bad, old(next)) < count
      ensures ok ==> Valid() && payloads == old(payloads)[n := []] && next == slots[n] + 1
      ensures ok ==> slots[n] == NextGood(count, bad, old(next)) && slots[n] !in bad
      ensures ok ==> blocks[n].pktIndices == [] && blocks[n].wbufOfs == 0 && blocks[n].nrPkts == 0
      ensures OnlyIn(old(flash), flash, old(slots[n]) * e, old(slots[n]) * e + e)
      ensures dev.eraseOk && old(slots[n]) < count ==> Holds(flash, old(slots[n]) * e, Ones(e))
    {
      hide Journal, Total, Placed, Write, AllJournals, NextGood, Holds, OnlyIn;
      var b := blocks[n];
      ghost var base := slots[n] * e;
      NothingWritten(flash, base, base + e);
      var start := b.flashOffset - b.flashOffset % e;
      Rounded(e, slots[n], b.flashOffset - base);
      if slots[n] < count { Apart(e, slots[n], count); } else if count < slots[n] { Apart(e, count, slots[n]); }
      if !(dev.eraseOk && start + e <= |flash|) {
        return false;
      }
      ghost var flash0 := flash;
      flash := Write(flash, start, Ones(e));
      WriteOnlyIn(flash0, start, Ones(e), base, base + e);
      WriteHolds(flash0, start, Ones(e));
      if next >= count {
        return false;
      }
      ghost var top := next;
      SkipBad();
      if next >= count {
        return false;
      }
      b := b.(flashOffset := next * e, nrPkts := 0, pktIndices := [], wbufOfs := 0);
      Restarted(e, k, top, flash0, flash, blocks, b, slots, next, payloads, n);
      TotalUpdate(blocks, n, b);
      totalPkts := totalPkts - blocks[n].nrPkts;
      blocks := blocks[n := b];
      slots, payloads := slots[n := next], payloads[n := []];
      next := next + 1;
      ok := true;
    }

    // The packet cannot be handled at all.
    ghost predicate Doomed(p: Packet, dev: Device)
      requires |slots| == |blocks|
      reads this
    {
      p.totcrc != imageCrc || p.blockNr >= |blocks| ||
      (Wanted(k, crc, blocks[p.blockNr], p) && WriteFails(p.blockNr, dev) &&
       !(dev.eraseOk && slots[p.blockNr] < count && NextGood(count, bad, next) < count))
    }

    // From the label pkt_again on: a packet whose write failed starts the
    // block over, and is then the first one in the write buffer.
    method Store(p: Packet, dev: Device) returns (ok: bool)
      requires Valid() && p.blockNr < |blocks| && |p.data| == PKT_SIZE
      requires |blocks[p.blockNr].pktIndices| < k && p.pktNr !in blocks[p.blockNr].pktIndices
      requires blocks[p.blockNr].nrPkts == |blocks[p.blockNr].pktIndices|
      modifies this
      ensures ok <==> !old(WriteFails(p.blockNr, dev)) ||
                      (dev.eraseOk && old(slots[p.blockNr]) < count && NextGood(count, bad, old(next)) < count)
      ensures imageCrc == old(imageCrc) && OnlyAt(old(blocks), blocks, p.blockNr) &&
        OnlyAt(old(slots), slots, p.blockNr)
      ensures ok ==> Valid()
      ensures ok && !old(WriteFails(p.blockNr, dev)) ==>
        slots == old(slots) && payloads == old(payloads)[p.blockNr := old(payloads[p.blockNr]) + [p.data]] &&
        blocks[p.blockNr].pktIndices == old(blocks[p.blockNr].pktIndices) + [p.pktNr] && next == old(next)
      ensures ok && old(WriteFails(p.blockNr, dev)) ==>
        slots[p.blockNr] == NextGood(count, bad, old(next)) && payloads == old(payloads)[p.blockNr := [p.data]] &&
        blocks[p.blockNr].pktIndices == [p.pktNr] && next == slots[p.blockNr] + 1
      ensures ok ==> blocks[p.blockNr].nrPkts == |blocks[p.blockNr].pktIndices|
      ensures OnlyIn(old(flash), flash, old(slots[p.blockNr]) * e, old(slots[p.blockNr]) * e + e)
      ensures ok && old(WriteFails(p.blockNr, dev)) ==> Holds(flash, old(slots[p.blockNr]) * e, Ones(e))
    {
      hide Journal, Total, Placed, AllJournals, NextGood, Geometry, Holds;
      AtLeastTwo();
      var stored := Journalise(p, dev);
      ok := true;
      if !stored {
        ok := Relocate(p.blockNr, dev);
        if ok {
          stored := Journalise(p, dev);
          assert [] + [p.data] == [p.data];
          assert payloads == old(payloads)[p.blockNr := [p.data]];
        }
      }
    }

    // A block that has all its packets notes its checksum, and the last one
    // ends the reception.
    method Close(p: Packet) returns (r: Outcome)
      requires Valid() && p.blockNr < |blocks| && blocks[p.blockNr].nrPkts == |blocks[p.blockNr].pktIndices|
      modifies this`blocks
      ensures Valid() && OnlyAt(old(blocks), blocks, p.blockNr)
      ensures |blocks[p.blockNr].pktIndices| == k ==> blocks[p.blockNr].crc == p.blockCrc
      ensures blocks[p.blockNr].pktIndices == old(blocks[p.blockNr].pktIndices)
      ensures r == if Full(k, blocks) then Complete else Continue
    {
      hide Journal, Total, Placed, AllJournals;
      ghost var n := p.blockNr;
      r := Continue;
      if blocks[p.blockNr].nrPkts == k {
        CrcJournals(e, k, flash, blocks, slots, payloads, n, p.blockCrc);
        TotalUpdate(blocks, n, blocks[n].(crc := p.blockCrc));
        blocks := blocks[p.blockNr := blocks[p.blockNr].(crc := p.blockCrc)];
        AllCounted();
        if totalPkts == |blocks| * k {
          r := Complete;
        }
      }
    }

    method OnPacket(p: Packet, dev: Device) returns (r: Outcome)
      requires Valid() && |p.data| == PKT_SIZE
      modifies this
      ensures r == Abort <==> old(Doomed(p, dev))
      ensures imageCrc == old(imageCrc)
      ensures r != Abort ==> Valid() && OnlyAt(old(blocks), blocks, p.blockNr) && OnlyAt(old(slots), slots, p.blockNr)
      ensures r != Abort && !Wanted(k, crc, old(blocks[p.blockNr]), p) ==>
        r == Continue && payloads == old(payloads) && slots == old(slots) && flash == old(flash) && next == old(next)
      ensures r != Abort && !Wanted(k, crc, old(blocks[p.blockNr]), p) ==>
        var b := old(blocks[p.blockNr]);
        blocks[p.blockNr] == b.(nrPkts := b.nrPkts + (if p.pktNr !in b.pktIndices && |b.pktIndices| == k then 1 else 0))
      ensures r != Abort && Wanted(k, crc, old(blocks[p.blockNr]), p) && !old(WriteFails(p.blockNr, dev)) ==>
        slots == old(slots) && payloads == old(payloads)[p.blockNr := old(payloads[p.blockNr]) + [p.data]] &&
        blocks[p.blockNr].pktIndices == old(blocks[p.blockNr].pktIndices) + [p.pktNr] && next == old(next)
      ensures r != Abort && Wanted(k, crc, old(blocks[p.blockNr]), p) && old(WriteFails(p.blockNr, dev)) ==>
        slots[p.blockNr] == NextGood(count, bad, old(next)) && payloads == old(payloads)[p.blockNr := [p.data]] &&
        blocks[p.blockNr].pktIndices == [p.pktNr] && next == slots[p.blockNr] + 1
      ensures p.blockNr < old(|blocks|) ==>
        OnlyIn(old(flash), flash, old(slots[p.blockNr]) * e, old(slots[p.blockNr]) * e + e)
      ensures r != Abort && Wanted(k, crc, old(blocks[p.blockNr]), p) && old(WriteFails(p.blockNr, dev)) ==>
        Holds(flash, old(slots[p.blockNr]) * e, Ones(e))
      ensures r != Abort && Wanted(k, crc, old(blocks[p.blockNr]), p) ==> (r == Complete <==> Full(k, blocks))
      ensures r != Abort && Wanted(k, crc, old(blocks[p.blockNr]), p) && |blocks[p.blockNr].pktIndices| == k ==>
        blocks[p.blockNr].crc == p.blockCrc
    {
      hide Journal, Total, Placed, AllJournals, NextGood, Holds;
      if imageCrc != p.totcrc {
        return Abort;
      }
      if p.blockNr >= |blocks| {
        return Abort;
      }
      var i, n := 0, p.blockNr;
      while i < |blocks[n].pktIndices| && blocks[n].pktIndices[i] != p.pktNr
        invariant i <= |blocks[n].pktIndices| && p.pktNr !in blocks[n].pktIndices[..i]
      {
        i := i + 1;
      }
      if i < |blocks[n].pktIndices| {
        return Continue;
      }
      FullOrNot(n);
      if blocks[n].nrPkts >= k {
        IgnoredJournals(e, k, flash, blocks, slots, payloads, n);
        TotalUpdate(blocks, n, blocks[n].(nrPkts := blocks[n].nrPkts + 1));
        blocks := blocks[n := blocks[n].(nrPkts := blocks[n].nrPkts + 1)];
        return Continue;
      }
      if crc(p.data) != p.thiscrc {
        return Continue;
      }
      var ok := Store(p, dev);
      if !ok {
        return Abort;
      }
      r := Close(p);
    }

    lemma AtLeastTwo()
      requires Geometry(e, k)
      ensures k >= 2
    {
    }

    // The count of a block reaches k exactly when it has all its packets.
    lemma FullOrNot(n: nat)
      requires Valid() && n < |blocks|
      ensures blocks[n].nrPkts >= k <==> |blocks[n].pktIndices| == k
      ensures |blocks[n].pktIndices| <= k && |payloads[n]| == |blocks[n].pktIndices|
      ensures blocks[n].nrPkts < k ==> blocks[n].nrPkts == |blocks[n].pktIndices|
    {
      assert JournalAt(e, k, flash, blocks, slots, payloads, n);
    }

    lemma AllCounted()
      requires Valid()
      ensures totalPkts == |blocks| * k <==> Full(k, blocks)
    {
      forall i | 0 <= i < |blocks| ensures |blocks[i].pktIndices| <= k { FullOrNot(i); }
      TotalFull(k, blocks);
    }

    // The next packet of the block fills the write buffer.
    lemma SpillsIs(n: nat)
      requires Valid() && n < |blocks| && |blocks[n].pktIndices| < k
      ensures Spills(|blocks[n].pktIndices|) <==> blocks[n].wbufOfs + PKT_SIZE >= WBUF_SIZE
    {
      assert JournalAt(e, k, flash, blocks, slots, payloads, n);
      OnFlashLength(e, k, flash, blocks[n], slots[n] * e, payloads[n]);
      RestIs(blocks[n].flashOffset - slots[n] * e, blocks[n].wbufOfs);
    }

    lemma RestIs(d: nat, rest: nat)
      requires d % WBUF_SIZE == 0 && rest < WBUF_SIZE
      ensures (d + rest) % WBUF_SIZE == rest
    {
    }

    // Where the reception stands after the first t deliveries.
    ghost predicate Received(ds: seq<Delivery>, t: nat, slots0: seq<nat>, top: nat)
      requires t <= |ds|
      reads this
    {
      |slots| == |slots0| == |blocks| &&
      (forall i: nat :: i < |blocks| ==> blocks[i].pktIndices == Collected(k, crc, ds[..t], i)) &&
      (forall i :: 0 <= i < |slots| ==> (slots[i] < count <==> slots0[i] < count)) &&
      GoodFrom(count, bad, next) + Failures(k, crc, ds[..t]) == GoodFrom(count, bad, top)
    }

    lemma NothingReceived(ds: seq<Delivery>)
      requires Bounded() && NothingStored()
      ensures Received(ds, 0, slots, next)
    {
      assert ds[..0] == [];
    }

    // The packet cannot be handled exactly if that is hopeless from the start.
    lemma DoomedIs(ds: seq<Delivery>, t: nat, slots0: seq<nat>, top: nat)
      requires Valid() && t < |ds| && Received(ds, t, slots0, top)
      ensures Doomed(ds[t].packet, ds[t].dev) <==> Hopeless(k, crc, count, bad, imageCrc, slots0, top, ds, t)
      ensures !Doomed(ds[t].packet, ds[t].dev) ==>
        ds[t].packet.blockNr < |blocks| &&
        (Wanted(k, crc, blocks[ds[t].packet.blockNr], ds[t].packet) && WriteFails(ds[t].packet.blockNr, ds[t].dev) <==>
         FailsAt(k, crc, ds, t))
      ensures !Doomed(ds[t].packet, ds[t].dev) && FailsAt(k, crc, ds, t) ==>
        slots[ds[t].packet.blockNr] < count && NextGood(count, bad, next) < count
    {
      hide Collected, Failures, Spills, NextGood, GoodFrom, AllJournals, Placed, Total, Geometry;
      var p := ds[t].packet;
      if p.blockNr < |blocks| {
        if |blocks[p.blockNr].pktIndices| < k { SpillsIs(p.blockNr); }
        NextGoodIs(count, bad, next);
      }
    }

    // The reception over whatever the channel delivers can go on to its end.
    ghost predicate Enough(ds: seq<Delivery>)
      reads this
    {
      Survives(k, crc, count, bad, imageCrc, slots, next, ds) &&
      forall i: nat :: i < |blocks| ==> Supplied(k, crc, ds, i)
    }

    lemma EnoughIs(ds: seq<Delivery>)
      requires Enough(ds) && k > 0 && |slots| == |blocks|
      ensures forall t :: 0 <= t < |ds| ==> !Hopeless(k, crc, count, bad, imageCrc, slots, next, ds, t)
      ensures AllCollected(k, crc, ds, |blocks|)
    {
      hide Hopeless, Survives, Collected, Supplied;
      forall t | 0 <= t < |ds| ensures !Hopeless(k, crc, count, bad, imageCrc, slots, next, ds, t) {
        SurvivesAll(k, crc, count, bad, imageCrc, slots, next, ds, t);
      }
      forall i: nat | i < |blocks| ensures |Collected(k, crc, ds, i)| == k {
        KeptFills(k, crc, ds, i);
      }
    }

    // One delivery of those that are not hopeless.
    lemma ReceivedMore(ds: seq<Delivery>, t: nat, slots0: seq<nat>, top: nat, blocks0: seq<EraseBlock>,
                       slots1: seq<nat>, next1: nat, failed: bool)
      requires t < |ds| && |slots1| == |slots0| == |blocks0| && OnlyAt(blocks0, blocks, ds[t].packet.blockNr) &&
        OnlyAt(slots1, slots, ds[t].packet.blockNr) && ds[t].packet.blockNr < |blocks0|
      requires forall i: nat :: i < |blocks0| ==> blocks0[i].pktIndices == Collected(k, crc, ds[..t], i)
      requires forall i :: 0 <= i < |slots1| ==> (slots1[i] < count <==> slots0[i] < count)
      requires GoodFrom(count, bad, next1) + Failures(k, crc, ds[..t]) == GoodFrom(count, bad, top)
      requires var n := ds[t].packet.blockNr; var p := ds[t].packet;
        var wanted := Takes(k, crc, blocks0[n].pktIndices, p);
        (failed <==> FailsAt(k, crc, ds, t)) && (failed ==> wanted) &&
        blocks[n].pktIndices ==
          (if !wanted then blocks0[n].pktIndices
           else if failed then [p.pktNr]
           else blocks0[n].pktIndices + [p.pktNr]) &&
        (if failed then slots1[n] < count && slots[n] == NextGood(count, bad, next1) < count && next == slots[n] + 1
         else slots == slots1 && next == next1)
      ensures Received(ds, t + 1, slots0, top)
    {
      hide Collected, Failures, FailsAt, NextGood, GoodFrom, Takes;
      NextGoodIs(count, bad, next1);
      forall i: nat | i < |blocks| ensures blocks[i].pktIndices == Collected(k, crc, ds[..t + 1], i) {
        CollectedMore(k, crc, ds, t, i);
      }
      CollectedMore(k, crc, ds, t, 0);
    }

    // The reception loop over whatever the channel delivers: it aborts at the
    // first hopeless delivery before all blocks are full, it is complete once
    // they are, and otherwise has what the deliveries come to.
    method Receive(ds: seq<Delivery>, ghost n: nat, ghost sent: (nat, nat) -> Payload, ghost crcs: nat -> nat)
      returns (r: Outcome)
      requires Valid() && |blocks| > 0
      requires NothingStored()
      requires forall t :: 0 <= t < |ds| ==> Genuine(n, sent, crcs, crc, ds[t].packet)
      modifies this
      ensures r == Abort <==>
        exists t: nat ::
          t < |ds| && !AllCollected(k, crc, ds[..t], old(|blocks|)) &&
          Hopeless(k, crc, count, bad, old(imageCrc), old(slots), old(next), ds, t)
      ensures r == Complete <==> (r != Abort && AllCollected(k, crc, ds, old(|blocks|)))
      ensures r != Abort ==> |blocks| == old(|blocks|) && forall i: nat :: i < |blocks| ==>
        blocks[i].pktIndices == Collected(k, crc, ds, i)
      ensures r != Abort ==> Valid() && |blocks| == old(|blocks|) && Faithful(k, n, sent, crcs, blocks, payloads)
      ensures r == Complete <==> (r != Abort && Full(k, blocks))
      ensures r != Abort ==>
        GoodFrom(count, bad, next) + Failures(k, crc, ds) >= GoodFrom(count, bad, old(next))
      ensures r == Complete ==>
        exists t: nat ::
          t <= |ds| && CompleteAt(k, crc, count, bad, old(imageCrc), old(slots), old(next), ds, t) &&
          GoodFrom(count, bad, next) + Failures(k, crc, ds[..t]) == GoodFrom(count, bad, old(next))
      ensures old(Enough(ds)) ==> r == Complete
    {
      hide Valid, GoodFrom, Collected, Failures, Hopeless, Enough, Faithful, Received, Genuine, Hopeless;
      r := Continue;
      ghost var slots0, top := slots, next;
      NoneFaithful(n, sent, crcs);
      NothingReceived(ds);
      if Enough(ds) { EnoughIs(ds); }
      var t := 0;
      while t < |ds|
        invariant t <= |ds| && r == Continue && Valid() && |blocks| == old(|blocks|) && !Full(k, blocks) &&
          imageCrc == old(imageCrc)
        invariant Faithful(k, n, sent, crcs, blocks, payloads) && Received(ds, t, slots0, top)
        invariant forall u: nat :: u < t ==>
          !Hopeless(k, crc, count, bad, imageCrc, slots0, top, ds, u) && !AllCollected(k, crc, ds[..u], |slots0|)
      {
        FullWhenCollected(ds, t, slots0, top);
        r := Deliver(ds, t, slots0, top, n, sent, crcs);
        if r == Abort {
          return;
        }
        t := t + 1;
        if r == Complete {
          CompleteStays(ds, t, slots0, top);
          GoodLeft(ds, t, slots0, top);
          assert CompleteAt(k, crc, count, bad, imageCrc, slots0, top, ds, t);
          return;
        }
      }
      assert ds[..t] == ds;
      GoodLeft(ds, t, slots0, top);
      FullWhenCollected(ds, t, slots0, top);
      AtTheEnd(ds, slots0, top);
    }

    lemma GoodLeft(ds: seq<Delivery>, t: nat, slots0: seq<nat>, top: nat)
      requires t <= |ds| && Received(ds, t, slots0, top)
      ensures GoodFrom(count, bad, next) + Failures(k, crc, ds) >= GoodFrom(count, bad, top)
      ensures GoodFrom(count, bad, next) + Failures(k, crc, ds[..t]) == GoodFrom(count, bad, top)
      ensures |slots0| == |blocks|
    {
      hide Collected, Failures, GoodFrom;
      assert ds[..|ds|] == ds;
      FailuresGrow(k, crc, ds, t, |ds|);
    }

    lemma AtTheEnd(ds: seq<Delivery>, slots0: seq<nat>, top: nat)
      requires Received(ds, |ds|, slots0, top)
      ensures forall i: nat :: i < |blocks| ==> blocks[i].pktIndices == Collected(k, crc, ds, i)
    {
      hide Collected, Failures, GoodFrom;
      assert ds[..|ds|] == ds;
    }

    // Nothing stored, nothing unfaithful; and no block is full.
    lemma NoneFaithful(n: nat, sent: (nat, nat) -> Payload, crcs: nat -> nat)
      requires Valid() && NothingStored() && |blocks| > 0
      ensures Faithful(k, n, sent, crcs, blocks, payloads) && !Full(k, blocks) && k > 0 && Bounded()
    {
      hide Journal, Total, Placed, AllJournals;
      AtLeastTwo();
      assert blocks[0].pktIndices == [];
    }

    // One turn of the reception loop.
    method Deliver(ds: seq<Delivery>, t: nat, ghost slots0: seq<nat>, ghost top: nat, ghost n: nat,
                   ghost sent: (nat, nat) -> Payload, ghost crcs: nat -> nat)
      returns (r: Outcome)
      requires Valid() && t < |ds| && Received(ds, t, slots0, top) && !Full(k, blocks)
      requires Faithful(k, n, sent, crcs, blocks, payloads) && Genuine(n, sent, crcs, crc, ds[t].packet)
      modifies this
      ensures r == Abort <==> Hopeless(k, crc, count, bad, old(imageCrc), slots0, top, ds, t)
      ensures r != Abort ==> Valid() && |blocks| == old(|blocks|) && imageCrc == old(imageCrc)
      ensures r != Abort ==> Received(ds, t + 1, slots0, top) && Faithful(k, n, sent, crcs, blocks, payloads)
      ensures r != Abort ==> (r == Complete <==> Full(k, blocks))
    {
      hide Journal, Total, Placed, AllJournals, NextGood, GoodFrom, Collected, Failures, Hopeless, Doomed,
        WriteFails, FailsAt, Geometry;
      var d := ds[t];
      ghost var blocks0, payloads0, slots1, next1 := blocks, payloads, slots, next;
      ghost var failed := d.packet.blockNr < |blocks| && Wanted(k, crc, blocks[d.packet.blockNr], d.packet) &&
        WriteFails(d.packet.blockNr, d.dev);
      AtLeastTwo();
      if d.packet.blockNr < |blocks| { FullOrNot(d.packet.blockNr); }
      DoomedIs(ds, t, slots0, top);
      r := OnPacket(d.packet, d.dev);
      if r != Abort {
        FaithfulMore(k, n, sent, crcs, crc, d.packet, blocks0, blocks, payloads0, payloads);
        ReceivedMore(ds, t, slots0, top, blocks0, slots1, next1, failed);
        if r == Continue && !Wanted(k, crc, blocks0[d.packet.blockNr], d.packet) {
          StillNotFull(blocks0, blocks, d.packet.blockNr);
        }
      }
    }

    lemma StillNotFull(blocks0: seq<EraseBlock>, blocks1: seq<EraseBlock>, n: nat)
      requires OnlyAt(blocks0, blocks1, n) && n < |blocks0| && blocks1[n].pktIndices == blocks0[n].pktIndices
      requires !Full(k, blocks0)
      ensures !Full(k, blocks1)
    {
      var i :| 0 <= i < |blocks0| && |blocks0[i].pktIndices| != k;
      assert blocks1[i].pktIndices == blocks0[i].pktIndices;
    }

    lemma FullWhenCollected(ds: seq<Delivery>, t: nat, slots0: seq<nat>, top: nat)
      requires t <= |ds| && Received(ds, t, slots0, top)
      ensures AllCollected(k, crc, ds[..t], |blocks|) <==> Full(k, blocks)
    {
      hide Collected, Failures, GoodFrom;
    }

    lemma CompleteStays(ds: seq<Delivery>, t: nat, slots0: seq<nat>, top: nat)
      requires t <= |ds| && Received(ds, t, slots0, top) && Full(k, blocks)
      ensures forall u: nat, i: nat :: t <= u <= |ds| && i < |blocks| ==>
        Collected(k, crc, ds[..u], i) == blocks[i].pktIndices
      ensures forall i: nat :: i < |blocks| ==> Collected(k, crc, ds, i) == blocks[i].pktIndices
      ensures forall u: nat :: t <= u <= |ds| ==> AllCollected(k, crc, ds[..u], |blocks|)
    {
      hide Collected, Failures, GoodFrom;
      assert ds[..|ds|] == ds;
      forall u: nat, i: nat | t <= u <= |ds| && i < |blocks|
        ensures Collected(k, crc, ds[..u], i) == blocks[i].pktIndices
      {
        FullStays(k, crc, ds, i, t, u);
      }
      forall u: nat | t <= u <= |ds| ensures AllCollected(k, crc, ds[..u], |blocks|) {
        forall i: nat | i < |blocks| ensures |Collected(k, crc, ds[..u], i)| == k {
          assert Collected(k, crc, ds[..u], i) == blocks[i].pktIndices;
        }
      }
    }

    // Read one block back and decode it.
    method ReadBack(n: nat, dec: Decoder) returns (data: seq<byte>)
      requires JournalAt(e, k, flash, blocks, slots, payloads, n) && |blocks[n].pktIndices| == k && Geometry(e, k)
      requires Shaped(dec)
      modifies this`blocks
      ensures OnlyAt(old(blocks), blocks, n) && blocks[n] == old(blocks[n]).(flashOffset := slots[n] * e)
      ensures data == Rebuilt(dec, e, payloads[n], blocks[n].pktIndices) && |data| == e
      ensures slots[n] * e + e <= |flash|
    {
      hide Journal, Concat, Whole, Cut;
      var b := blocks[n];
      Readable(n);
      b := b.(flashOffset := b.flashOffset - e);
      blocks := blocks[n := b];
      var ebBuf := flash[b.flashOffset..b.flashOffset + e] + b.wbuf[..b.wbufOfs];
      var decoded := dec(Cut(ebBuf, k), b.pktIndices);
      DecodedSize(decoded);
      data := Concat(decoded)[..e];
    }

    // From the label write_again on: what a failed write left is erased and the
    // next good erase block tried, without mtdoffset being moved behind it.
    method Rewrite(n: nat, data: seq<byte>, fin: Finale) returns (ok: bool)
      requires n < |blocks| == |slots| && blocks[n].flashOffset == slots[n] * e && slots[n] < count
      requires |data| == e && |flash| == count * e && Settles(fin)
      modifies this`flash, this`blocks, this`slots, this`next
      ensures OnlyAt(old(slots), slots, n) && OnlyAt(old(blocks), blocks, n)
      ensures blocks[n] == old(blocks[n]).(flashOffset := slots[n] * e)
      ensures ok <==> Succeeds(fin) && (Moved(fin) ==> NextGood(count, bad, old(next)) < count)
      ensures ok ==> slots[n] == (if Moved(fin) then NextGood(count, bad, old(next)) else old(slots[n]))
      ensures ok ==> next == (if Moved(fin) then NextGood(count, bad, old(next)) else old(next))
      ensures ok ==> Holds(flash, slots[n] * e, data)
      ensures ok && Moved(fin) && slots[n] != old(slots[n]) ==> Holds(flash, old(slots[n]) * e, Ones(e))
      ensures OnlyInEither(old(flash), flash, e, old(slots[n]), slots[n])
    {
      hide Write, Holds, OnlyInEither, NextGood;
      ghost var last: nat :| Ends(fin.tries, last);
      ghost var slot0, spare := slots[n], NextGood(count, bad, next);
      var t: nat := 0;
      SameEither(flash, slot0);
      NextGoodStays(count, bad, next);
      while !fin.tries(t).writeOk
        invariant OnlyAt(old(slots), slots, n) && OnlyAt(old(blocks), blocks, n)
        invariant blocks[n] == old(blocks[n]).(flashOffset := slots[n] * e) && slots[n] < count
        invariant |flash| == count * e && OnlyInEither(old(flash), flash, e, slot0, slots[n])
        invariant forall u: nat :: u < t ==> !fin.tries(u).writeOk && fin.tries(u).eraseOk
        invariant t > 0 && slots[n] != slot0 ==> Holds(flash, slot0 * e, Ones(e))
        invariant if t == 0 then slots[n] == slot0 && next == old(next) else slots[n] == next == spare < count
        invariant t <= last
        decreases last - t
      {
        var erased := EraseAfter(n, fin.tries(t), slot0, old(flash));
        if !erased {
          NoSuccess(fin, t);
          return false;
        }
        if next >= count {
          return false;
        }
        SkipBad();
        if next >= count {
          return false;
        }
        EitherMore(old(flash), flash, e, slot0, slots[n], next);
        blocks := blocks[n := blocks[n].(flashOffset := next * e)];
        slots := slots[n := next];
        t := t + 1;
      }
      assert Ends(fin.tries, t);
      WriteOnlyInEither(old(flash), flash, e, slot0, slots[n], slots[n], data);
      Apart(e, slots[n], count);
      WriteHolds(flash, slots[n] * e, data);
      StaysErased(flash, slot0, slots[n], data);
      flash := Write(flash, blocks[n].flashOffset, data);
      ok := true;
    }

    // What a failed attempt leaves, and its erase.
    method EraseAfter(n: nat, dev: Device, ghost slot0: nat, ghost flash0: seq<byte>) returns (ok: bool)
      requires n < |blocks| == |slots| && blocks[n].flashOffset == slots[n] * e && slots[n] < count
      requires |flash| == count * e && OnlyInEither(flash0, flash, e, slot0, slots[n])
      modifies this`flash
      ensures ok == dev.eraseOk && |flash| == count * e && OnlyInEither(flash0, flash, e, slot0, slots[n])
      ensures ok ==> Holds(flash, slots[n] * e, Ones(e))
      ensures slot0 != slots[n] && Holds(old(flash), slot0 * e, Ones(e)) ==> Holds(flash, slot0 * e, Ones(e))
    {
      hide Write, Holds, OnlyInEither;
      var junk := if |dev.junk| > e then dev.junk[..e] else dev.junk;
      WriteOnlyInEither(flash0, flash, e, slot0, slots[n], slots[n], junk);
      WriteLength(flash, blocks[n].flashOffset, junk);
      StaysErased(flash, slot0, slots[n], junk);
      flash := Write(flash, blocks[n].flashOffset, junk);
      ok := dev.eraseOk;
      if ok {
        WriteOnlyInEither(flash0, flash, e, slot0, slots[n], slots[n], Ones(e));
        WriteLength(flash, blocks[n].flashOffset, Ones(e));
        StaysErased(flash, slot0, slots[n], Ones(e));
        Apart(e, slots[n], count);
        WriteHolds(flash, slots[n] * e, Ones(e));
        flash := Write(flash, blocks[n].flashOffset, Ones(e));
      }
    }

    // A write to another erase block leaves an erased one as it is.
    lemma StaysErased(f: seq<byte>, a: nat, b: nat, data: seq<byte>)
      requires |data| <= e
      ensures a != b && Holds(f, a * e, Ones(e)) ==> Holds(Write(f, b * e, data), a * e, Ones(e))
    {
      if a != b && Holds(f, a * e, Ones(e)) {
        hide Write, Holds;
        SameEither(f, b);
        WriteOnlyInEither(f, f, e, b, b, b, data);
        OneApart(a, b);
        HoldsElsewhere(f, Write(f, b * e, data), a * e, Ones(e), e, b, b);
      }
    }

    lemma SameEither(f: seq<byte>, slot: nat)
      ensures OnlyInEither(f, f, e, slot, slot)
    {
    }

    lemma NoSuccess(fin: Finale, t: nat)
      requires !fin.tries(t).eraseOk && !fin.tries(t).writeOk
      requires forall u: nat :: u < t ==> !fin.tries(u).writeOk && fin.tries(u).eraseOk
      ensures !Succeeds(fin)
    {
    }

    // Read one block back, decode it and put the decoded data in its place, or
    // in another one if that fails.
    method Finish(n: nat, dec: Decoder, fin: Finale) returns (ok: bool)
      requires JournalAt(e, k, flash, blocks, slots, payloads, n) && |blocks[n].pktIndices| == k && Geometry(e, k)
      requires Shaped(dec) && |flash| == count * e && Settles(fin)
      modifies this`flash, this`blocks, this`slots, this`next
      ensures OnlyAt(old(slots), slots, n) && OnlyAt(old(blocks), blocks, n)
      ensures blocks[n] == old(blocks[n]).(flashOffset := slots[n] * e)
      ensures ok <==> Fine(dec, fin, blocks, n, old(next))
      ensures ok ==> slots[n] == (if Moved(fin) then NextGood(count, bad, old(next)) else old(slots[n]))
      ensures ok ==> next == (if Moved(fin) then NextGood(count, bad, old(next)) else old(next))
      ensures ok ==> Holds(flash, slots[n] * e, Image(dec, blocks, n))
      ensures OnlyInEither(old(flash), flash, e, old(slots[n]), slots[n])
    {
      hide Journal, Concat, Write, Ones, Holds, OnlyInEither, NextGood, Rebuilt, Ends;
      SameEither(flash, slots[n]);
      var decodeBuf := ReadBack(n, dec);
      if crc(decodeBuf) != blocks[n].crc {
        return false;
      }
      if !fin.eraseOk {
        return false;
      }
      ghost var flash0, slot0 := flash, slots[n];
      WriteOnlyInEither(flash0, flash, e, slot0, slot0, slot0, Ones(e));
      WriteLength(flash, slot0 * e, Ones(e));
      WithinDevice(slot0);
      flash := Write(flash, blocks[n].flashOffset, Ones(e));
      ghost var flash1 := flash;
      ok := Rewrite(n, decodeBuf, fin);
      EitherTwice(flash0, flash1, flash, slot0, slots[n]);
    }

    lemma WithinDevice(slot: nat)
      requires slot * e + e <= |flash| == count * e && e > 0
      ensures slot < count
    {
      if count < slot { Apart(e, count, slot); }
    }

    lemma EitherTwice(flash0: seq<byte>, flash1: seq<byte>, flash2: seq<byte>, a: nat, b: nat)
      requires OnlyInEither(flash0, flash1, e, a, a) && OnlyInEither(flash1, flash2, e, a, b)
      ensures OnlyInEither(flash0, flash2, e, a, b)
    {
    }

    // What was received of block i matches its checksum, and can be put in place.
    ghost predicate Fine(dec: Decoder, fin: Finale, bs: seq<EraseBlock>, i: nat, top: nat)
      requires i < |bs| == |payloads|
      reads this`payloads
    {
      crc(Image(dec, bs, i)) == bs[i].crc && Lands(fin, count, bad, top)
    }

    ghost function Image(dec: Decoder, bs: seq<EraseBlock>, i: nat): seq<byte>
      requires i < |bs| == |payloads|
      reads this`payloads
    {
      Rebuilt(dec, e, payloads[i], bs[i].pktIndices)
    }

    // The image of block i is in the place the receiver has noted for it.
    ghost predicate Done(dec: Decoder, i: nat)
      requires i < |blocks| == |payloads| == |slots|
      reads this
    {
      Holds(flash, slots[i] * e, Image(dec, blocks, i))
    }

    // Blocks before n are in place, the others still have their journals. Of
    // those that moved only the last one is sure to be there.
    ghost predicate HalfwayOf(f: seq<byte>, bs: seq<EraseBlock>, ss: seq<nat>, nx: nat, dec: Decoder,
                              fins: seq<Finale>, n: nat, last: int, top: nat, slots0: seq<nat>)
      reads this`payloads
    {
      Geometry(e, k) && |bs| == |ss| == |payloads| == |fins| && |f| == count * e && Full(k, bs) &&
      n <= |bs| && Placed(top, slots0) && FinalSlots(fins, ss, slots0, n, NextGood(count, bad, top)) &&
      NextGood(count, bad, nx) == NextGood(count, bad, top) && LastBefore(fins, n, last) &&
      (forall i: nat :: i < n ==> |Image(dec, bs, i)| == e && bs[i].flashOffset == ss[i] * e) &&
      (forall i: nat :: i < n && (Moved(fins[i]) ==> i == last) ==> Holds(f, ss[i] * e, Image(dec, bs, i))) &&
      (forall i: nat :: i < n ==> Fine(dec, fins[i], bs, i, top)) &&
      (forall i: nat :: n <= i < |bs| ==> JournalAt(e, k, f, bs, ss, payloads, i))
    }

    ghost predicate Halfway(dec: Decoder, fins: seq<Finale>, n: nat, last: int, top: nat, slots0: seq<nat>)
      reads this
    {
      HalfwayOf(flash, blocks, slots, next, dec, fins, n, last, top, slots0)
    }

    // Block n is finished.
    lemma HalfwayOn(f: seq<byte>, bs: seq<EraseBlock>, ss: seq<nat>, nx: nat, dec: Decoder, fins: seq<Finale>, n: nat,
                    last: int, top: nat, slots0: seq<nat>)
      requires HalfwayOf(f, bs, ss, nx, dec, fins, n, last, top, slots0) && n < |bs|
      requires OnlyAt(ss, slots, n) && OnlyAt(bs, blocks, n)
      requires blocks[n] == bs[n].(flashOffset := slots[n] * e) && |Image(dec, blocks, n)| == e
      requires Fine(dec, fins[n], blocks, n, top) && Holds(flash, slots[n] * e, Image(dec, blocks, n))
      requires slots[n] == (if Moved(fins[n]) then NextGood(count, bad, top) else ss[n])
      requires next == (if Moved(fins[n]) then NextGood(count, bad, top) else nx)
      requires OnlyInEither(f, flash, e, ss[n], slots[n])
      ensures Halfway(dec, fins, n + 1, if Moved(fins[n]) then n else last, top, slots0)
    {
      hide JournalAt, Rebuilt, Holds, Geometry, Placed, NextGood, Succeeds, Moved, OnlyInEither, LastBefore;
      var spare := NextGood(count, bad, top);
      NextGoodStays(count, bad, top);
      LastBeforeMore(fins, n, last);
      OnlyEitherLength(f, flash, ss[n], slots[n]);
      assert FinalSlots(fins, slots, slots0, n + 1, spare);
      forall i: nat | i < n && (Moved(fins[i]) ==> i == last && !Moved(fins[n]))
        ensures Holds(flash, slots[i] * e, Image(dec, blocks, i))
      {
        FinalApart(fins, slots, slots0, top, spare, n, i);
        Untouched(f, slots[i], Image(dec, blocks, i), ss[n], slots[n]);
      }
      forall i: nat | n < i < |blocks| ensures JournalAt(e, k, flash, blocks, slots, payloads, i) {
        FinalApart(fins, slots, slots0, top, spare, n, i);
        Unread(f, bs, ss, i, ss[n], slots[n]);
      }
    }

    lemma OnlyEitherLength(flash0: seq<byte>, flash1: seq<byte>, a: nat, b: nat)
      requires OnlyInEither(flash0, flash1, e, a, b)
      ensures |flash0| == |flash1|
    {
    }

    // Of the blocks that moved, exactly those are there that have the contents
    // of the last one.
    lemma WholeWay(dec: Decoder, fins: seq<Finale>, last: int, top: nat, slots0: seq<nat>, i: nat)
      requires Halfway(dec, fins, |fins|, last, top, slots0) && i < |fins|
      ensures Done(dec, i) <==> forall l: nat :: IsLastMoved(fins, l) && Moved(fins[i]) ==>
        Image(dec, blocks, i) == Image(dec, blocks, l)
    {
      hide JournalAt, Rebuilt, Holds, Geometry, Placed, NextGood, Succeeds, Moved;
      if Moved(fins[i]) {
        assert IsLastMoved(fins, last);
        HeldOnce(flash, slots[i] * e, Image(dec, blocks, last), Image(dec, blocks, i));
      }
    }

    // One turn of the loop over the blocks.
    method FinishNext(n: nat, dec: Decoder, fins: seq<Finale>, ghost last: int, ghost top: nat, ghost slots0: seq<nat>)
      returns (ok: bool)
      requires n < |fins| && Halfway(dec, fins, n, last, top, slots0) && Shaped(dec) && Settles(fins[n])
      modifies this`flash, this`blocks, this`slots, this`next
      ensures OnlyAt(old(slots), slots, n) && OnlyAt(old(blocks), blocks, n)
      ensures blocks[n] == old(blocks[n]).(flashOffset := slots[n] * e)
      ensures ok <==> Fine(dec, fins[n], blocks, n, top)
      ensures ok ==> Halfway(dec, fins, n + 1, if Moved(fins[n]) then n else last, top, slots0)
    {
      hide HalfwayOf, Succeeds, JournalAt, Moved, NextGood, OnlyInEither, Rebuilt, Holds, Geometry, Settles;
      ghost var f, bs, ss, nx := flash, blocks, slots, next;
      NextBlock(dec, fins, n, last, top, slots0);
      ok := Finish(n, dec, fins[n]);
      if ok { HalfwayOn(f, bs, ss, nx, dec, fins, n, last, top, slots0); }
    }

    // Every block is read back, decoded and put in place. A block whose first
    // write failed is there in the end only if no later one of other contents
    // had to move as well.
    method Reassemble(dec: Decoder, fins: seq<Finale>) returns (ok: bool)
      requires Valid() && Full(k, blocks) && |fins| == |blocks| && Shaped(dec)
      requires forall i :: 0 <= i < |fins| ==> Settles(fins[i])
      modifies this`flash, this`blocks, this`slots, this`next
      ensures |blocks| == old(|blocks|) && |slots| == old(|slots|)
      ensures forall i: nat :: i < |blocks| ==>
        blocks[i].pktIndices == old(blocks[i].pktIndices) && blocks[i].crc == old(blocks[i].crc)
      ensures ok <==> forall i: nat :: i < |blocks| ==> Fine(dec, fins[i], blocks, i, old(next))
      ensures ok ==> FinalSlots(fins, slots, old(slots), |fins|, NextGood(count, bad, old(next)))
      ensures ok ==> forall i: nat :: i < |blocks| ==>
        |Image(dec, blocks, i)| == e && blocks[i].flashOffset == slots[i] * e
      ensures ok ==> forall i: nat :: i < |blocks| ==>
        (Done(dec, i) <==> forall l: nat :: IsLastMoved(fins, l) && Moved(fins[i]) ==>
          Image(dec, blocks, i) == Image(dec, blocks, l))
    {
      hide Halfway, Done, Fine, Holds, JournalAt, Moved, NextGood, OnlyInEither, Total, Rebuilt;
      ghost var top, slots0, last := next, slots, -1;
      HalfwayStart(dec, fins);
      var n := 0;
      while n < |blocks|
        invariant |blocks| == |slots| == |fins| && n <= |fins| && Halfway(dec, fins, n, last, top, slots0)
        invariant forall i: nat :: i < |blocks| ==>
          blocks[i].pktIndices == old(blocks[i].pktIndices) && blocks[i].crc == old(blocks[i].crc)
      {
        ok := FinishNext(n, dec, fins, last, top, slots0);
        if !ok {
          return;
        }
        if Moved(fins[n]) { last := n; }
        n := n + 1;
      }
      ok := true;
      forall i: nat | i < |blocks|
        ensures Done(dec, i) <==> forall l: nat :: IsLastMoved(fins, l) && Moved(fins[i]) ==>
          Image(dec, blocks, i) == Image(dec, blocks, l)
      {
        WholeWay(dec, fins, last, top, slots0, i);
      }
      AllFine(dec, fins, last, top, slots0);
    }

    lemma HalfwayStart(dec: Decoder, fins: seq<Finale>)
      requires Valid() && Full(k, blocks) && |fins| == |blocks|
      ensures Halfway(dec, fins, 0, -1, next, slots)
    {
      hide JournalAt;
    }

    lemma NextBlock(dec: Decoder, fins: seq<Finale>, n: nat, last: int, top: nat, slots0: seq<nat>)
      requires Halfway(dec, fins, n, last, top, slots0) && n < |fins| && Shaped(dec)
      ensures |blocks| == |fins| && JournalAt(e, k, flash, blocks, slots, payloads, n) &&
        |blocks[n].pktIndices| == k && Geometry(e, k)
      ensures |flash| == count * e && |payloads| == |blocks| == |slots| && |Image(dec, blocks, n)| == e
      ensures NextGood(count, bad, next) == NextGood(count, bad, top)
    {
      hide JournalAt, Geometry, NextGood;
      RebuiltSize(dec, n);
    }

    lemma AllFine(dec: Decoder, fins: seq<Finale>, last: int, top: nat, slots0: seq<nat>)
      requires Halfway(dec, fins, |fins|, last, top, slots0)
      ensures |blocks| == |payloads| == |slots| && FinalSlots(fins, slots, slots0, |fins|, NextGood(count, bad, top))
      ensures forall i: nat :: i < |blocks| ==> |Image(dec, blocks, i)| == e && blocks[i].flashOffset == slots[i] * e
      ensures forall i: nat :: i < |blocks| ==> Fine(dec, fins[i], blocks, i, top)
    {
      hide JournalAt, Geometry, NextGood, Fine, Rebuilt;
    }

    lemma RebuiltSize(dec: Decoder, i: nat)
      requires JournalAt(e, k, flash, blocks, slots, payloads, i) && Full(k, blocks) && Shaped(dec) && Geometry(e, k)
      ensures |Image(dec, blocks, i)| == e
    {
      DecodedSize(dec(payloads[i], blocks[i].pktIndices));
    }

    lemma Untouched(f: seq<byte>, slot: nat, data: seq<byte>, a: nat, b: nat)
      requires slot != a && slot != b && |data| == e && OnlyInEither(f, flash, e, a, b) && Holds(f, slot * e, data)
      ensures Holds(flash, slot * e, data)
    {
      OneApart(slot, a);
      OneApart(slot, b);
      HoldsElsewhere(f, flash, slot * e, data, e, a, b);
    }

    lemma OneApart(i: nat, a: nat)
      requires i != a
      ensures i * e + e <= a * e || a * e + e <= i * e
    {
      if i < a { Apart(e, i, a); } else { Apart(e, a, i); }
    }

    lemma Unread(flash0: seq<byte>, blocks0: seq<EraseBlock>, slots0: seq<nat>, i: nat, a: nat, b: nat)
      requires i < |blocks| == |blocks0| == |slots0| && |blocks| == |slots| == |payloads| && slots[i] != a &&
        slots[i] != b
      requires blocks[i] == blocks0[i] && slots[i] == slots0[i] && OnlyInEither(flash0, flash, e, a, b)
      requires JournalAt(e, k, flash0, blocks0, slots0, payloads, i)
      ensures JournalAt(e, k, flash, blocks, slots, payloads, i)
    {
      OneApart(slots[i], a);
      OneApart(slots[i], b);
      JournalElsewhere(e, k, flash0, flash, blocks[i], slots[i] * e, payloads[i]);
    }

    // k packets cover an erase block.
    lemma DecodedSize(decoded: seq<Payload>)
      requires Geometry(e, k) && Whole(decoded) && |decoded| == k
      ensures |Concat(decoded)| >= e
    {
      ConcatLength(decoded);
    }

    lemma Readable(n: nat)
      requires JournalAt(e, k, flash, blocks, slots, payloads, n) && |blocks[n].pktIndices| == k && Geometry(e, k)
      ensures var b := blocks[n];
        b.flashOffset == slots[n] * e + e <= |flash| && b.wbufOfs <= |b.wbuf| && |payloads[n]| == k &&
        Whole(payloads[n]) &&
        |flash[slots[n] * e..slots[n] * e + e] + b.wbuf[..b.wbufOfs]| == k * PKT_SIZE &&
        Cut(flash[slots[n] * e..slots[n] * e + e] + b.wbuf[..b.wbufOfs], k) == payloads[n]
    {
      FullJournal(e, k, flash, blocks[n], slots[n] * e, payloads[n]);
      CutConcat(payloads[n]);
    }
  }
}
