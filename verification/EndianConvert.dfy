// jffs2dump.c, do_endianconvert: the loop over the image. Summary records are
// swapped in place before they are written out.
module EndianConverter {
  import opened Bytes
  import opened Summaries
  import opened EndianNodes
  import opened EndianImages

  // x = cnv_e16(x) or x = cnv_e32(x).
  method SwapField(data: array<byte>, at: nat, width: nat)
    requires at + width <= data.Length
    modifies data
    ensures data[..] == old(data[..at]) + Reversed(old(data[at..at + width])) + old(data[at + width..])
  {
    var field := Reversed(data[at..at + width]);
    forall k | 0 <= k < width {
      data[at + k] := field[k];
    }
    assert data[at..at + width] == field;
    assert data[..at] == old(data[..at]) && data[at + width..] == old(data[at + width..]);
    assert data[..] == data[..at] + data[at..at + width] + data[at + width..];
  }

  lemma SwapStep(ws: seq<nat>, i: nat, s: seq<byte>)
    requires i < |ws| && |s| >= Sum(ws[i..])
    ensures Sum(ws[i..]) == ws[i] + Sum(ws[i + 1..]) &&
      Swap(ws[i..], s) == Reversed(s[..ws[i]]) + Swap(ws[i + 1..], s[ws[i]..])
  {
    assert ws[i..][1..] == ws[i + 1..];
  }

  lemma Replace(pre: seq<byte>, done: seq<byte>, rest: seq<byte>, width: nat, s: seq<byte>)
    requires s == pre + done + rest && width <= |rest|
    ensures var at := |pre| + |done|; var field := Reversed(rest[..width]);
      at + width <= |s| && s[at..at + width] == rest[..width] &&
      s[..at] + Reversed(s[at..at + width]) + s[at + width..] == pre + (done + field) + rest[width..]
  {
    assert s[|pre| + |done|..|pre| + |done| + width] == rest[..width];
  }

  method SwapNext(data: array<byte>, at: nat, width: nat, ghost pre: seq<byte>, ghost done: seq<byte>,
          ghost rest: seq<byte>)
    requires data[..] == pre + done + rest && at == |pre| + |done| && width <= |rest|
    modifies data
    ensures data[..] == pre + (done + Reversed(rest[..width])) + rest[width..]
  {
    hide Reversed;
    Replace(pre, done, rest, width, data[..]);
    SwapField(data, at, width);
  }

  // One field after the other.
  method SwapInPlace(data: array<byte>, at: nat, ws: seq<nat>)
    requires at + Sum(ws) <= data.Length
    modifies data
    ensures data[..] == old(data[..at]) + Swap(ws, old(data[at..])) + old(data[at + Sum(ws)..])
  {
    hide Swap, Sum, Reversed;
    var i, p := 0, at;
    ghost var pre, done, rest, s := data[..at], [], data[at..], data[at..];
    AllWidths(ws, s);
    while i < |ws|
      invariant i <= |ws| && p == |pre| + |done| && Sum(ws[i..]) <= |rest|
      invariant data[..] == pre + done + rest
      invariant done + Swap(ws[i..], rest) == Swap(ws, s)
      invariant rest[Sum(ws[i..])..] == s[Sum(ws)..]
    {
      SwapStep(ws, i, rest);
      SwapNext(data, p, ws[i], pre, done, rest);
      Associate(done, Reversed(rest[..ws[i]]), Swap(ws[i + 1..], rest[ws[i]..]));
      DropTwice(rest, ws[i], Sum(ws[i + 1..]));
      done, rest := done + Reversed(rest[..ws[i]]), rest[ws[i]..];
      i, p := i + 1, p + ws[i];
    }
    NothingSwapped(ws[i..], rest);
    assert done + [] == done && rest[0..] == rest;
  }

  lemma Associate(a: seq<byte>, b: seq<byte>, c: seq<byte>)
    ensures a + (b + c) == (a + b) + c
  {
  }

  lemma DropTwice(s: seq<byte>, m: nat, n: nat)
    requires m + n <= |s|
    ensures s[m..][n..] == s[m + n..]
  {
  }

  lemma AllWidths(ws: seq<nat>, s: seq<byte>)
    requires |s| >= Sum(ws)
    ensures ws[0..] == ws && |Swap(ws, s)| == Sum(ws)
  {
  }

  lemma NothingSwapped(ws: seq<nat>, s: seq<byte>)
    requires ws == []
    ensures Swap(ws, s) == [] && Sum(ws) == 0
  {
  }

  lemma {:induction false} SwapPrefix(ws: seq<nat>, s: seq<byte>, tail: seq<byte>)
    requires |s| >= Sum(ws)
    ensures Swap(ws, s + tail) == Swap(ws, s)
    decreases |ws|
  {
    if ws != [] {
      assert (s + tail)[..ws[0]] == s[..ws[0]] && (s + tail)[ws[0]..] == s[ws[0]..] + tail;
      SwapPrefix(ws[1..], s[ws[0]..], tail);
    }
  }

  lemma RecordStep(front: seq<byte>, rest: seq<byte>, tail: seq<byte>, ws: seq<nat>, size: nat)
    requires Sum(ws) <= size <= |rest|
    ensures Swap(ws, rest + tail) == Swap(ws, rest)
    ensures front + Swap(ws, rest) + (rest + tail)[Sum(ws)..] ==
            front + (Swap(ws, rest) + rest[Sum(ws)..size]) + (rest[size..] + tail)
  {
    hide Swap, Sum;
    SwapPrefix(ws, rest, tail);
    assert (rest + tail)[Sum(ws)..] == rest[Sum(ws)..size] + (rest[size..] + tail);
  }

  // One record with the bytes of its name behind it, which stay.
  method SwapRecord(data: array<byte>, at: nat, ws: seq<nat>, ghost front: seq<byte>, ghost rest: seq<byte>,
          ghost tail: seq<byte>, ghost size: nat)
    requires data[..] == front + (rest + tail) && at == |front| && Sum(ws) <= size <= |rest|
    modifies data
    ensures data[..] == front + (Swap(ws, rest) + rest[Sum(ws)..size]) + (rest[size..] + tail)
  {
    hide Swap, Sum;
    ghost var all := data[..];
    assert all[at..] == rest + tail && all[..at] == front && all[at + Sum(ws)..] == (rest + tail)[Sum(ws)..];
    RecordStep(front, rest, tail, ws, size);
    SwapInPlace(data, at, ws);
  }

  lemma Turned(o: Order, rest: seq<byte>, n: nat)
    requires n > 0 && SwapRecords(o, rest, n) != OutOfBounds
    ensures |rest| >= 2
    ensures var kind := Get16(o, rest, 0);
      (kind == INODE ==>
        |rest| >= 18 && SwapRecords(o, rest, n) ==
        Behind(Swap(SUM_INODE_WIDTHS, rest) + rest[18..18], SwapRecords(o, rest[18..], n - 1))) &&
      (kind == DIRENT ==> |rest| >= 24 && |rest| - 24 >= rest[22]) &&
      (kind == DIRENT ==>
        SwapRecords(o, rest, n) == Behind(Swap(SUM_DIRENT_WIDTHS, rest) + rest[22..24 + rest[22]],
        SwapRecords(o, rest[24 + rest[22]..], n - 1))) &&
      (kind != INODE && kind != DIRENT ==> SwapRecords(o, rest, n) == UnknownRecord)
  {
    hide Swap, Sum, Get16;
    if |rest| >= 18 { assert Swap(SUM_INODE_WIDTHS, rest) + rest[18..18] == Swap(SUM_INODE_WIDTHS, rest); }
  }

  lemma BehindBehind(a: seq<byte>, b: seq<byte>, x: Swapped)
    ensures Behind(a, Behind(b, x)) == Behind(a + b, x) && Behind([], x) == x
  {
    if x.Swapped? {
      assert a + (b + x.bytes) == a + b + x.bytes && [] + x.bytes == x.bytes;
    }
  }

  // The record loop. It gives up on a record of a type it does not know.
  method SwapSummary(data: array<byte>, o: Order, at: nat, end: nat, num: nat) returns (ok: bool)
    requires at <= end <= data.Length && SwapRecords(o, data[at..end], num) != OutOfBounds
    modifies data
    ensures ok == old(SwapRecords(o, data[at..end], num)).Swapped?
    ensures ok ==> data[..] == old(data[..at]) + old(SwapRecords(o, data[at..end], num)).bytes + old(data[end..])
  {
    hide Swap, Sum, SwapRecords, Behind, Get16;
    WidthSums();
    var i, p := 0, at;
    ghost var pre, done, rest, tail, s := data[..at], [], data[at..end], data[end..], data[at..end];
    BehindBehind([], [], SwapRecords(o, s, num));
    assert data[..] == pre + [] + (rest + tail);
    while i < num
      invariant i <= num && p == |pre| + |done|
      invariant data[..] == pre + done + (rest + tail)
      invariant SwapRecords(o, s, num) == Behind(done, SwapRecords(o, rest, num - i))
    {
      NotBehind(done, SwapRecords(o, rest, num - i));
      Turned(o, rest, num - i);
      ReadsSame(o, data[..], pre + done, rest, tail);
      var kind := Get16(o, data[..], p);
      if kind != INODE && kind != DIRENT {
        return false;
      }
      var nsize := if kind == DIRENT then data[p + 22] else 0;
      var size := if kind == DIRENT then 24 + nsize as int else 18;
      var ws := if kind == DIRENT then SUM_DIRENT_WIDTHS else SUM_INODE_WIDTHS;
      SwapRecord(data, p, ws, pre + done, rest, tail, size);
      ghost var more := Swap(ws, rest) + rest[Sum(ws)..size];
      BehindBehind(done, more, SwapRecords(o, rest[size..], num - i - 1));
      Associate(pre, done, more);
      done, rest := done + more, rest[size..];
      i, p := i + 1, p + size;
    }
    NoneLeft(o, rest, done);
    Associate(pre + done, rest, tail);
    Associate(pre, done, rest);
    ok := true;
  }

  lemma NotBehind(a: seq<byte>, x: Swapped)
    ensures (Behind(a, x) == OutOfBounds <==> x == OutOfBounds) && (x == UnknownRecord ==> Behind(a, x) == x)
  {
  }

  lemma NoneLeft(o: Order, rest: seq<byte>, done: seq<byte>)
    ensures Behind(done, SwapRecords(o, rest, 0)) == Swapped(done + rest)
  {
  }

  lemma ReadsSame(o: Order, s: seq<byte>, front: seq<byte>, rest: seq<byte>, tail: seq<byte>)
    requires s == front + (rest + tail) && |rest| >= 2
    ensures var p := |front|;
      p + |rest| <= |s| && Get16(o, s, p) == Get16(o, rest, 0) && (|rest| > 22 ==> s[p + 22] == rest[22])
  {
  }

  function Before(out: seq<byte>, r: Result): Result {
    if r.Done? then Done(out + r.bytes) else r
  }

  lemma Unrolled(o: Order, crc: seq<byte> -> u32, recalc: bool, out: seq<byte>, t: seq<byte>, bytes: seq<byte>,
          used: nat)
    requires t != [] && Turn(o, crc, recalc, t) == Emit(bytes, used) && used > 0
    ensures Before(out, Converted(o, crc, recalc, t)) ==
      Before(out + bytes, Converted(o, crc, recalc, if used >= |t| then [] else t[used..]))
  {
    hide Turn;
    var r := Converted(o, crc, recalc, if used >= |t| then [] else t[used..]);
    if r.Done? { assert out + (bytes + r.bytes) == out + bytes + r.bytes && bytes + [] == bytes; }
  }

  lemma Aborted(o: Order, crc: seq<byte> -> u32, recalc: bool, out: seq<byte>, t: seq<byte>)
    requires t != [] && Before(out, Converted(o, crc, recalc, t)) != Crashed
    ensures Turn(o, crc, recalc, t) != Crash
    ensures Turn(o, crc, recalc, t) == Exit ==> Before(out, Converted(o, crc, recalc, t)) == Exited
    ensures Turn(o, crc, recalc, t).Emit? ==> Turn(o, crc, recalc, t).used > 0
  {
  }

  // The two fields of the marker behind the records.
  method SwapMarker(data: array<byte>, at: nat, ghost front: seq<byte>, ghost tail: seq<byte>)
    requires data[..] == front + tail && at == |front| && |tail| >= 8
    modifies data
    ensures data[..] == front + (Reversed(tail[..4]) + Reversed(tail[4..8]) + tail[8..])
  {
    hide Reversed;
    assert front + tail == front + [] + tail && front + [] == front;
    SwapNext(data, at, 4, front, [], tail);
    assert [] + Reversed(tail[..4]) == Reversed(tail[..4]);
    SwapNext(data, at + 4, 4, front, Reversed(tail[..4]), tail[4..]);
    assert tail[4..][..4] == tail[4..8] && tail[4..][4..] == tail[8..];
    Associate(front, Reversed(tail[..4]) + Reversed(tail[4..8]), tail[8..]);
  }

  function Marker(t: seq<byte>, totlen: nat): seq<byte>
    requires 8 <= totlen <= |t|
  {
    Reversed(t[totlen - 8..totlen - 4]) + Reversed(t[totlen - 4..totlen])
  }

  lemma MarkerOf(t: seq<byte>, totlen: nat)
    requires 8 <= totlen <= |t|
    ensures var tail := t[totlen - 8..];
      Reversed(tail[..4]) + Reversed(tail[4..8]) == Marker(t, totlen) && tail[8..] == t[totlen..]
  {
    var tail := t[totlen - 8..];
    assert tail[..4] == t[totlen - 8..totlen - 4] && tail[4..8] == t[totlen - 4..totlen];
  }

  // The data of the summary node at p, swapped in place.
  method SwapSumData(data: array<byte>, p: nat, o: Order, totlen: nat) returns (ok: bool)
    requires 40 <= totlen && p + totlen <= data.Length
    requires SwapRecords(o, data[p..][SUMMARY_SIZE..totlen - 8], Get32(o, data[p..], 12)) != OutOfBounds
    modifies data
    ensures ok == old(SwapRecords(o, data[p..][SUMMARY_SIZE..totlen - 8], Get32(o, data[p..], 12))).Swapped?
    ensures ok ==>
      data[p + SUMMARY_SIZE..p + totlen] ==
      old(SwapRecords(o, data[p..][SUMMARY_SIZE..totlen - 8], Get32(o, data[p..], 12))).bytes +
      old(Marker(data[p..], totlen))
    ensures ok ==> data[p + totlen..] == old(data[p + totlen..])
  {
    hide Swap, Sum, SwapRecords, Get32, Reversed, Marker;
    ghost var t, pre := data[p..], data[..p + SUMMARY_SIZE];
    var num := Get32(o, data[p..], 12);
    var sumLen := totlen - SUMMARY_SIZE - SUM_MARKER_SIZE;
    assert data[p + SUMMARY_SIZE..p + SUMMARY_SIZE + sumLen] == t[SUMMARY_SIZE..totlen - 8];
    ghost var records := SwapRecords(o, t[SUMMARY_SIZE..totlen - 8], num);
    ghost var tail := data[p + totlen - 8..];
    assert tail == t[totlen - 8..] && t[totlen..] == data[p + totlen..];
    ok := SwapSummary(data, o, p + SUMMARY_SIZE, p + SUMMARY_SIZE + sumLen, num);
    if ok {
      SwapRecordsLength(o, t[SUMMARY_SIZE..totlen - 8], num);
      SwapMarker(data, p + totlen - 8, pre + records.bytes, tail);
      MarkerOf(t, totlen);
      Placed(data[..], pre, records.bytes, Marker(t, totlen), tail[8..]);
    }
  }

  lemma Placed(s: seq<byte>, pre: seq<byte>, a: seq<byte>, b: seq<byte>, rest: seq<byte>)
    requires s == pre + a + (b + rest)
    ensures s[|pre|..|pre| + |a| + |b|] == a + b && s[|pre| + |a| + |b|..] == rest
  {
  }

  // A summary node: the checksum over its data is made after swapping.
  method ConvertSummaryNode(data: array<byte>, p: nat, o: Order, crc: seq<byte> -> u32, totlen: nat)
    returns (ok: bool, bytes: seq<byte>)
    requires 40 <= totlen && p + totlen <= data.Length && ConvertSummary(o, crc, data[p..], totlen) != Crash
    modifies data
    ensures ok == old(ConvertSummary(o, crc, data[p..], totlen)).Emit?
    ensures ok ==> old(ConvertSummary(o, crc, data[p..], totlen)) == Emit(bytes, totlen)
    ensures ok ==> data[p + totlen..] == old(data[p + totlen..])
  {
    hide Swap, Sum, SwapRecords, ConvertHead, Get32, Put32, Reversed;
    assert data[p..][12..] == data[p + 12..];
    var head := ConvertHead(o, crc, data[p..]) + Swap(SUM_WIDTHS, data[p + 12..]);
    ok := SwapSumData(data, p, o, totlen);
    bytes := [];
    if ok {
      var body := data[p + SUMMARY_SIZE..p + totlen];
      Associate(old(SwapRecords(o, data[p..][SUMMARY_SIZE..totlen - 8], Get32(o, data[p..], 12))).bytes,
                old(Reversed(data[p..][totlen - 8..totlen - 4])), old(Reversed(data[p..][totlen - 4..totlen])));
      bytes := head + Put32(o.Other(), crc(body)) + Put32(o.Other(), crc(head)) + body;
    }
  }

  // The conversion as a whole.
  method DoEndianConvert(data: array<byte>, o: Order, crc: seq<byte> -> u32, recalc: bool)
    returns (done: bool, out: seq<byte>)
    requires Converted(o, crc, recalc, data[..]) != Crashed
    modifies data
    ensures done == old(Converted(o, crc, recalc, data[..])).Done?
    ensures done ==> out == old(Converted(o, crc, recalc, data[..])).bytes
  {
    hide Get16, Get32, ConvertHead, ConvertInode, ConvertDirent, ConvertSummary, Swap, Converted, Turn;
    out := [];
    var p := 0;
    ghost var r := Converted(o, crc, recalc, data[..]);
    assert data[0..] == data[..] && Before([], r) == r by { if r.Done? { assert [] + r.bytes == r.bytes; } }
    while p < data.Length
      invariant Before(out, Converted(o, crc, recalc, if p < data.Length then data[p..] else [])) == r
      decreases data.Length - p
    {
      ghost var t, out0 := data[p..], out;
      Aborted(o, crc, recalc, out, t);
      var used;
      done, out, used := OneTurn(data, p, o, crc, recalc, out);
      if !done {
        return;
      }
      Unrolled(o, crc, recalc, out0, t, Turn(o, crc, recalc, t).bytes, used);
      if used < |t| { assert t[used..] == data[p + used..]; }
      p := p + used;
    }
    NothingLeft(o, crc, recalc, out);
    done := true;
  }

  lemma NothingLeft(o: Order, crc: seq<byte> -> u32, recalc: bool, out: seq<byte>)
    ensures Before(out, Converted(o, crc, recalc, [])) == Done(out)
  {
    assert out + [] == out;
  }

  method OneTurn(data: array<byte>, p: nat, o: Order, crc: seq<byte> -> u32, recalc: bool, written: seq<byte>)
    returns (ok: bool, out: seq<byte>, used: nat)
    requires p < data.Length && Turn(o, crc, recalc, data[p..]) != Crash
    modifies data
    ensures ok == old(Turn(o, crc, recalc, data[p..])).Emit?
    ensures ok ==> exists bytes :: old(Turn(o, crc, recalc, data[p..])) == Emit(bytes, used) && out == written + bytes
    ensures ok && p + used <= data.Length ==> data[p + used..] == old(data[p + used..])
  {
    hide Get16, Get32, ConvertHead, ConvertInode, ConvertDirent, ConvertSummary, Swap;
    var node := data[p..];
    ok, out, used := true, written, 4;
    if Get16(o, node, 0) == 0xffff && Get16(o, node, 2) == 0xffff {
      out := out + node[..4];
      return;
    }
    if Get16(o, node, 0) != MAGIC {
      out := out + Swap(WORD_WIDTHS, node);
      return;
    }
    var kind, totlen := Get16(o, node, 2), Get32(o, node, 4);
    used := Pad32(totlen);
    if kind == INODE {
      out := out + (ConvertInode(o, crc, recalc, node) + node[68..used]);
    } else if kind == DIRENT {
      out := out + (ConvertDirent(o, crc, recalc, node) + node[40..used]);
    } else if kind == CLEANMARKER || kind == PADDING {
      out := out + (ConvertHead(o, crc, node) + (if used > UNKNOWN_SIZE then node[UNKNOWN_SIZE..used] else []));
    } else if kind == SUMMARY {
      var bytes;
      ok, bytes := ConvertSummaryNode(data, p, o, crc, totlen);
      out := out + bytes;
      used := totlen;
    } else if kind == 0xffff {
      out := out + node[..4];
      used := 4;
    } else {
      out := out + [];
    }
  }
}
