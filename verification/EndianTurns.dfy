// jffs2dump.c, do_endianconvert: exactly which heads one turn of the loop carries
// over, and exactly when turning back restores the bytes.
module EndianTurns {
  import opened Bytes
  import opened Summaries
  import opened EndianNodes
  import opened EndianImages

  // ---- swapping fields twice ----------------------------------------------

  lemma ReversedTwice(s: seq<byte>)
    ensures Reversed(Reversed(s)) == s
  {
  }

  lemma {:induction false} SwapTwice(ws: seq<nat>, t: seq<byte>, rest: seq<byte>)
    requires |t| >= Sum(ws)
    ensures |Swap(ws, t)| == Sum(ws) && Swap(ws, Swap(ws, t) + rest) == t[..Sum(ws)]
  {
    hide Reversed, Swap, Sum;
    if ws == [] {
      SwapNone(t);
      SwapNone(Swap([], t) + rest);
    } else {
      SumNext(ws);
      var a, more := t[..ws[0]], t[ws[0]..];
      assert t == a + more;
      SwapNext(ws, a, more);
      SwapTwice(ws[1..], more, rest);
      ReversedTwice(a);
      assert Swap(ws, t) + rest == Reversed(a) + (Swap(ws[1..], more) + rest);
      SwapNext(ws, Reversed(a), Swap(ws[1..], more) + rest);
      assert t[..Sum(ws)] == a + more[..Sum(ws[1..])];
    }
  }

  lemma SwapNone(t: seq<byte>)
    ensures Swap([], t) == [] && Sum([]) == 0
  {
  }

  lemma SwapNext(ws: seq<nat>, a: seq<byte>, t: seq<byte>)
    requires ws != [] && |a| == ws[0]
    ensures Swap(ws, a + t) == Reversed(a) + Swap(ws[1..], t)
  {
    hide Reversed;
    assert (a + t)[..ws[0]] == a && (a + t)[ws[0]..] == t;
  }

  // Field i is reversed at its place.
  lemma {:induction false} SwapAt(ws: seq<nat>, t: seq<byte>, i: nat)
    requires |t| >= Sum(ws) && i < |ws|
    ensures var at := Sum(ws[..i]);
      at + ws[i] <= Sum(ws) == |Swap(ws, t)| && Swap(ws, t)[at..at + ws[i]] == Reversed(t[at..at + ws[i]])
    decreases i
  {
    hide Reversed, Swap, Sum;
    SumNext(ws);
    var a, more := t[..ws[0]], t[ws[0]..];
    assert t == a + more;
    SwapNext(ws, a, more);
    SwapTwice(ws[1..], more, []);
    if i > 0 {
      SwapAt(ws[1..], more, i - 1);
      SumNext(ws[..i]);
      assert ws[..i][1..] == ws[1..][..i - 1];
      var at := Sum(ws[1..][..i - 1]);
      SkipFirst(Reversed(a), Swap(ws[1..], more), at, ws[i]);
      SkipFirst(a, more, at, ws[i]);
    } else {
      assert ws[..0] == [];
      SumNone();
      assert (Reversed(a) + Swap(ws[1..], more))[..ws[0]] == Reversed(a);
    }
  }

  lemma SumNone()
    ensures Sum([]) == 0
  {
  }

  lemma SumNext(ws: seq<nat>)
    requires ws != []
    ensures Sum(ws) == ws[0] + Sum(ws[1..])
  {
  }

  lemma ReadReversed(o: Order, s: seq<byte>, at: nat, t: seq<byte>, from: nat)
    ensures at + 2 <= |s| && from + 2 <= |t| && s[at..at + 2] == Reversed(t[from..from + 2]) ==>
      Get16(o.Other(), s, at) == Get16(o, t, from)
    ensures at + 4 <= |s| && from + 4 <= |t| && s[at..at + 4] == Reversed(t[from..from + 4]) ==>
      Get32(o.Other(), s, at) == Get32(o, t, from)
  {
    if at + 2 <= |s| && from + 2 <= |t| && s[at..at + 2] == Reversed(t[from..from + 2]) {
      assert s[at] == s[at..at + 2][0] && s[at + 1] == s[at..at + 2][1];
    }
    if at + 4 <= |s| && from + 4 <= |t| && s[at..at + 4] == Reversed(t[from..from + 4]) {
      var u := s[at..at + 4];
      assert s[at] == u[0] && s[at + 1] == u[1] && s[at + 2] == u[2] && s[at + 3] == u[3];
    }
  }

  // ---- the head --------------------------------------------------------------

  // The first 12 bytes in the other order read as they did.
  lemma HeadCarried(o: Order, crc: seq<byte> -> u32, t: seq<byte>, r: seq<byte>)
    requires |t| >= UNKNOWN_SIZE && |r| >= UNKNOWN_SIZE && r[..UNKNOWN_SIZE] == ConvertHead(o, crc, t)
    ensures Get16(o.Other(), r, 0) == Get16(o, t, 0) && Get16(o.Other(), r, 2) == Get16(o, t, 2)
    ensures Get32(o.Other(), r, 4) == Get32(o, t, 4)
    ensures ConvertHead(o.Other(), crc, r) == t[..8] + Put32(o, crc(t[..8]))
  {
    hide Get16, Get32, Put32, Reversed, Swap, Sum;
    WidthSums();
    HeadOffsets();
    var h := Swap(HEAD_WIDTHS, t);
    var rest := r[8..];
    SwapTwice(HEAD_WIDTHS, t, rest);
    assert h == ConvertHead(o, crc, t)[..8] == r[..8];
    assert r == h + rest;
    SwapAt(HEAD_WIDTHS, t, 0);
    SwapAt(HEAD_WIDTHS, t, 1);
    SwapAt(HEAD_WIDTHS, t, 2);
    assert r[0..2] == h[0..2] && r[2..4] == h[2..4] && r[4..8] == h[4..8];
    ReadReversed(o, r, 0, t, 0);
    ReadReversed(o, r, 2, t, 2);
    ReadReversed(o, r, 4, t, 4);
  }

  lemma HeadOffsets()
    ensures Sum(HEAD_WIDTHS[..0]) == 0 && Sum(HEAD_WIDTHS[..1]) == 2 && Sum(HEAD_WIDTHS[..2]) == 4
    ensures |HEAD_WIDTHS| == 3 && HEAD_WIDTHS[0] == HEAD_WIDTHS[1] == 2 && HEAD_WIDTHS[2] == 4
  {
    assert HEAD_WIDTHS[..0] == [] && HEAD_WIDTHS[..1] == [2] && HEAD_WIDTHS[..2] == [2, 2];
    assert Sum([2]) == 2 && Sum([2, 2]) == 4;
  }

  // A known type, and not a marker shorter than its head.
  predicate KnownType(o: Order, t: seq<byte>)
    requires |t| >= UNKNOWN_SIZE
  {
    Get16(o, t, 2) != 0xffff && !Foreign(o, t)
  }

  // The bytes of such a turn begin with the converted head.
  lemma HeadFirst(o: Order, crc: seq<byte> -> u32, recalc: bool, t: seq<byte>)
    requires |t| >= UNKNOWN_SIZE && Get16(o, t, 0) == MAGIC && KnownType(o, t) && Turn(o, crc, recalc, t).Emit?
    ensures var x := Turn(o, crc, recalc, t);
      |x.bytes| >= UNKNOWN_SIZE && x.bytes[..UNKNOWN_SIZE] == ConvertHead(o, crc, t) && x.used >= UNKNOWN_SIZE
  {
    hide Swap, Sum, Get16, Get32, Put32, SwapRecords, ConvertHead;
    WidthSums();
  }

  // A turn carries over magic, type, length and size of a node if and only if
  // the type is known and not 0xffff, and no marker is shorter than its head.
  lemma HeadTurns(o: Order, crc: seq<byte> -> u32, recalc: bool, t: seq<byte>)
    requires |t| >= UNKNOWN_SIZE && Get16(o, t, 0) == MAGIC
    requires Turn(o, crc, recalc, t).Emit? && Turn(o, crc, recalc, t).used > 0
    ensures var x := Turn(o, crc, recalc, t);
      |x.bytes| == x.used && x.used >= 8 && Get16(o.Other(), x.bytes, 0) == MAGIC &&
      Get16(o.Other(), x.bytes, 2) == Get16(o, t, 2) && Get32(o.Other(), x.bytes, 4) == Get32(o, t, 4)
      <==> KnownType(o, t)
  {
    hide Get16, Get32, ConvertHead, ConvertInode, ConvertDirent, ConvertSummary;
    TurnLength(o, crc, recalc, t);
    if KnownType(o, t) {
      HeadFirst(o, crc, recalc, t);
      HeadCarried(o, crc, t, Turn(o, crc, recalc, t).bytes);
    }
  }

  // ---- the whole node ----------------------------------------------------------

  predicate HeadChecked(o: Order, crc: seq<byte> -> u32, t: seq<byte>)
    requires |t| >= UNKNOWN_SIZE
  {
    t[8..12] == Put32(o, crc(t[..8]))
  }

  // The checksums of an inode node are those of what they cover. With recalccrc
  // the data has to lie in the node.
  predicate InodeChecked(o: Order, crc: seq<byte> -> u32, recalc: bool, t: seq<byte>)
    requires |t| >= 68
  {
    HeadChecked(o, crc, t) && t[64..68] == Put32(o, crc(t[..60])) &&
    (recalc ==>
      68 + Get32(o, t, 48) <= |t| && t[60..64] == Put32(o, crc(t[68..68 + Get32(o, t, 48)])))
  }

  predicate DirentChecked(o: Order, crc: seq<byte> -> u32, recalc: bool, t: seq<byte>)
    requires |t| >= 40
  {
    HeadChecked(o, crc, t) && t[32..36] == Put32(o, crc(t[..32])) &&
    (recalc ==> 40 + t[28] <= |t| && t[36..40] == Put32(o, crc(t[40..40 + t[28]])))
  }

  predicate SummaryChecked(o: Order, crc: seq<byte> -> u32, t: seq<byte>)
    requires |t| >= SUMMARY_SIZE
  {
    HeadChecked(o, crc, t) && t[24..28] == Put32(o, crc(t[SUMMARY_SIZE..])) && t[28..32] == Put32(o, crc(t[..24]))
  }

  // All checksums of the node that fills t are right.
  predicate Checked(o: Order, crc: seq<byte> -> u32, recalc: bool, t: seq<byte>) {
    |t| >= UNKNOWN_SIZE &&
    var kind := Get16(o, t, 2);
    if kind == INODE then |t| >= 68 && InodeChecked(o, crc, recalc, t)
    else if kind == DIRENT then |t| >= 40 && DirentChecked(o, crc, recalc, t)
    else if kind == SUMMARY then |t| >= SUMMARY_SIZE && SummaryChecked(o, crc, t)
    else HeadChecked(o, crc, t)
  }

  // Head and body swapped back, the head with its checksum made anew.
  lemma BodyBack(o: Order, crc: seq<byte> -> u32, ws: seq<nat>, t: seq<byte>, r: seq<byte>)
    requires |t| >= UNKNOWN_SIZE + Sum(ws) && |r| >= UNKNOWN_SIZE + Sum(ws)
    requires r[..UNKNOWN_SIZE + Sum(ws)] == ConvertHead(o, crc, t) + Swap(ws, t[UNKNOWN_SIZE..])
    ensures var n := UNKNOWN_SIZE + Sum(ws); var back := ConvertHead(o.Other(), crc, r) + Swap(ws, r[UNKNOWN_SIZE..]);
      back == t[..8] + Put32(o, crc(t[..8])) + t[UNKNOWN_SIZE..n] && |back| == n
    ensures var n := UNKNOWN_SIZE + Sum(ws); var back := ConvertHead(o.Other(), crc, r) + Swap(ws, r[UNKNOWN_SIZE..]);
      back == t[..n] <==> HeadChecked(o, crc, t)
    ensures Get16(o.Other(), r, 0) == Get16(o, t, 0) && Get16(o.Other(), r, 2) == Get16(o, t, 2)
    ensures Get32(o.Other(), r, 4) == Get32(o, t, 4)
  {
    hide Get16, Get32, Put32, Reversed, Swap, Sum, ConvertHead;
    var head, body := ConvertHead(o, crc, t), Swap(ws, t[UNKNOWN_SIZE..]);
    SwapTwice(ws, t[UNKNOWN_SIZE..], r[UNKNOWN_SIZE + Sum(ws)..]);
    assert r[..UNKNOWN_SIZE] == head;
    assert r[UNKNOWN_SIZE..] == body + r[UNKNOWN_SIZE + Sum(ws)..];
    HeadCarried(o, crc, t, r);
    Middle(t, Put32(o, crc(t[..8])), UNKNOWN_SIZE + Sum(ws));
  }

  lemma Middle(t: seq<byte>, c: seq<byte>, n: nat)
    requires 12 <= n <= |t| && |c| == 4
    ensures t[12..n] == t[12..][..n - 12] && |t[..8] + c + t[12..n]| == n
    ensures t[..8] + c + t[12..n] == t[..n] <==> t[8..12] == c
  {
    var u := t[..8] + c + t[12..n];
    assert u[8..12] == c && t[..n][8..12] == t[8..12];
    if t[8..12] == c { assert t[..n] == t[..8] + t[8..12] + t[12..n]; }
  }

  // Three parts and the rest.
  lemma Parts(t: seq<byte>, a: seq<byte>, b: seq<byte>, c: seq<byte>, n: nat)
    requires |a| + |b| + |c| <= n <= |t|
    ensures var i, j := |a|, |a| + |b|;
      a + b + c + t[j + |c|..n] == t[..n] <==> a == t[..i] && b == t[i..j] && c == t[j..j + |c|]
  {
    var i, j, k := |a|, |a| + |b|, |a| + |b| + |c|;
    var u := a + b + c + t[k..n];
    assert u[..i] == a && u[i..j] == b && u[j..k] == c;
    assert t[..n][..i] == t[..i] && t[..n][i..j] == t[i..j] && t[..n][j..k] == t[j..k];
    assert t[..n] == t[..i] + t[i..j] + t[j..k] + t[k..n];
  }

  // ---- inode nodes -------------------------------------------------------------

  // What the turn writes, in its parts.
  lemma InodeParts(o: Order, crc: seq<byte> -> u32, recalc: bool, t: seq<byte>, p: nat, r: seq<byte>)
    requires 68 <= p <= |t| && (recalc ==> |t| - 68 >= Get32(o, t, 48))
    requires r == ConvertInode(o, crc, recalc, t) + t[68..p]
    ensures |r| == p && r[..60] == ConvertHead(o, crc, t) + Swap(INODE_WIDTHS, t[12..]) && r[68..] == t[68..p]
    ensures r[60..64] ==
      if recalc then Put32(o.Other(), crc(t[68..68 + Get32(o, t, 48)])) else Reversed(t[60..64])
    ensures Get32(o.Other(), r, 48) == Get32(o, t, 48)
  {
    hide Get16, Get32, Put32, Reversed, Swap, Sum, ConvertHead;
    WidthSums();
    FirstTen();
    var head, body := ConvertHead(o, crc, t), Swap(INODE_WIDTHS, t[12..]);
    SwapTwice(INODE_WIDTHS, t[12..], []);
    SwapAt(INODE_WIDTHS, t[12..], 10);
    assert r[..60] == head + body && r[48..52] == body[36..40] && t[48..52] == t[12..][36..40];
    ReadReversed(o, r, 48, t, 48);
  }

  lemma InodeBack(o: Order, crc: seq<byte> -> u32, recalc: bool, t: seq<byte>, p: nat, r: seq<byte>)
    requires 68 <= p <= |t| && (recalc ==> |t| - 68 >= Get32(o, t, 48))
    requires r == ConvertInode(o, crc, recalc, t) + t[68..p]
    ensures |r| == p
    ensures
      if recalc && p - 68 < Get32(o, t, 48) then
        p - 68 < Get32(o.Other(), r, 48) && !InodeChecked(o, crc, recalc, t[..p])
      else (recalc ==> |r| - 68 >= Get32(o.Other(), r, 48)) &&
           (ConvertInode(o.Other(), crc, recalc, r) + r[68..] == t[..p] <==> InodeChecked(o, crc, recalc, t[..p]))
  {
    hide Get16, Put32, Reversed, Swap, Sum, ConvertHead, Get32;
    InodeParts(o, crc, recalc, t, p, r);
    SameField(o, t, p, 48);
    InodeSlices(o, crc, recalc, t, p);
    if !(recalc && p - 68 < Get32(o, t, 48)) {
      WidthSums();
      BodyBack(o, crc, INODE_WIDTHS, t, r);
      var body := ConvertHead(o.Other(), crc, r) + Swap(INODE_WIDTHS, r[12..]);
      var dataCrc := if recalc then Put32(o, crc(t[68..68 + Get32(o, t, 48)])) else t[60..64];
      ReversedTwice(t[60..64]);
      if recalc { assert r[68..68 + Get32(o, t, 48)] == r[68..][..Get32(o, t, 48)] == t[68..68 + Get32(o, t, 48)]; }
      assert ConvertInode(o.Other(), crc, recalc, r) == body + dataCrc + Put32(o, crc(body));
      Parts(t, body, dataCrc, Put32(o, crc(body)), p);
    }
  }

  lemma InodeSlices(o: Order, crc: seq<byte> -> u32, recalc: bool, t: seq<byte>, p: nat)
    requires 68 <= p <= |t|
    ensures InodeChecked(o, crc, recalc, t[..p]) <==>
      HeadChecked(o, crc, t) && t[64..68] == Put32(o, crc(t[..60])) &&
      (recalc ==> 68 + Get32(o, t, 48) <= p && t[60..64] == Put32(o, crc(t[68..68 + Get32(o, t, 48)])))
  {
    hide Get32, Put32;
    SameField(o, t, p, 48);
    var u := t[..p];
    assert u[8..12] == t[8..12] && u[..8] == t[..8] && u[64..68] == t[64..68] && u[..60] == t[..60];
    assert u[60..64] == t[60..64];
    if 68 + Get32(o, t, 48) <= p { assert u[68..68 + Get32(o, t, 48)] == t[68..68 + Get32(o, t, 48)]; }
  }

  lemma SameField(o: Order, t: seq<byte>, p: nat, at: nat)
    requires at + 4 <= p <= |t|
    ensures Get32(o, t[..p], at) == Get32(o, t, at)
  {
  }

  // ---- directory entries -------------------------------------------------------

  lemma DirentParts(o: Order, crc: seq<byte> -> u32, recalc: bool, t: seq<byte>, p: nat, r: seq<byte>)
    requires 40 <= p <= |t| && (recalc ==> |t| - 40 >= t[28])
    requires r == ConvertDirent(o, crc, recalc, t) + t[40..p]
    ensures |r| == p && r[..32] == ConvertHead(o, crc, t) + Swap(DIRENT_WIDTHS, t[12..]) && r[40..] == t[40..p]
    ensures r[36..40] == if recalc then Put32(o.Other(), crc(t[40..40 + t[28]])) else Reversed(t[36..40])
    ensures r[28] == t[28]
  {
    hide Get16, Get32, Put32, Swap, Sum, ConvertHead;
    WidthSums();
    FirstFour();
    var head, body := ConvertHead(o, crc, t), Swap(DIRENT_WIDTHS, t[12..]);
    SwapTwice(DIRENT_WIDTHS, t[12..], []);
    SwapAt(DIRENT_WIDTHS, t[12..], 4);
    assert r[..32] == head + body && r[28..29] == body[16..17] && t[28..29] == t[12..][16..17];
    assert r[28] == r[28..29][0] && t[28] == t[28..29][0];
  }

  lemma DirentBack(o: Order, crc: seq<byte> -> u32, recalc: bool, t: seq<byte>, p: nat, r: seq<byte>)
    requires 40 <= p <= |t| && (recalc ==> |t| - 40 >= t[28])
    requires r == ConvertDirent(o, crc, recalc, t) + t[40..p]
    ensures |r| == p
    ensures
      if recalc && p - 40 < t[28] then p - 40 < r[28] && !DirentChecked(o, crc, recalc, t[..p])
      else (recalc ==> |r| - 40 >= r[28]) &&
           (ConvertDirent(o.Other(), crc, recalc, r) + r[40..] == t[..p] <==> DirentChecked(o, crc, recalc, t[..p]))
  {
    hide Get16, Put32, Reversed, Swap, Sum, ConvertHead, Get32;
    DirentParts(o, crc, recalc, t, p, r);
    DirentSlices(o, crc, recalc, t, p);
    if !(recalc && p - 40 < t[28]) {
      WidthSums();
      BodyBack(o, crc, DIRENT_WIDTHS, t, r);
      var body := ConvertHead(o.Other(), crc, r) + Swap(DIRENT_WIDTHS, r[12..]);
      var nameCrc := if recalc then Put32(o, crc(t[40..40 + t[28]])) else t[36..40];
      ReversedTwice(t[36..40]);
      if recalc { assert r[40..40 + t[28]] == r[40..][..t[28]] == t[40..40 + t[28]]; }
      assert ConvertDirent(o.Other(), crc, recalc, r) == body + Put32(o, crc(body)) + nameCrc;
      Parts(t, body, Put32(o, crc(body)), nameCrc, p);
    }
  }

  lemma DirentSlices(o: Order, crc: seq<byte> -> u32, recalc: bool, t: seq<byte>, p: nat)
    requires 40 <= p <= |t|
    ensures DirentChecked(o, crc, recalc, t[..p]) <==>
      HeadChecked(o, crc, t) && t[32..36] == Put32(o, crc(t[..32])) &&
      (recalc ==> 40 + t[28] <= p && t[36..40] == Put32(o, crc(t[40..40 + t[28]])))
  {
    hide Put32;
    var u := t[..p];
    assert u[8..12] == t[8..12] && u[..8] == t[..8] && u[32..36] == t[32..36] && u[..32] == t[..32];
    assert u[36..40] == t[36..40];
    if 40 + t[28] <= p { assert u[40..40 + t[28]] == t[40..40 + t[28]]; }
  }

  // ---- cleanmarkers and padding ------------------------------------------------

  lemma MarkerBack(o: Order, crc: seq<byte> -> u32, t: seq<byte>, p: nat, r: seq<byte>)
    requires UNKNOWN_SIZE <= p <= |t| && r == ConvertHead(o, crc, t) + t[UNKNOWN_SIZE..p]
    ensures |r| == p && (ConvertHead(o.Other(), crc, r) + r[UNKNOWN_SIZE..] == t[..p] <==> HeadChecked(o, crc, t[..p]))
  {
    hide Put32, Swap, Sum, ConvertHead;
    assert r[..UNKNOWN_SIZE] == ConvertHead(o, crc, t) && r[UNKNOWN_SIZE..] == t[UNKNOWN_SIZE..p];
    HeadCarried(o, crc, t, r);
    Middle(t, Put32(o, crc(t[..8])), p);
    assert t[..p][8..12] == t[8..12] && t[..p][..8] == t[..8];
  }

  // ---- summaries ---------------------------------------------------------------

  lemma {:induction false} RecordsTwice(o: Order, t: seq<byte>, n: nat)
    requires SwapRecords(o, t, n).Swapped?
    ensures |SwapRecords(o, t, n).bytes| == |t|
    ensures SwapRecords(o.Other(), SwapRecords(o, t, n).bytes, n) == Swapped(t)
    decreases n
  {
    hide Swap, Sum, Get16;
    if n > 0 {
      var r := SwapRecords(o, t, n).bytes;
      if Get16(o, t, 0) == INODE {
        RecordsTwice(o, t[18..], n - 1);
        InodeRecordBack(o, t, SwapRecords(o, t[18..], n - 1).bytes);
      } else {
        RecordsTwice(o, t[24 + t[22]..], n - 1);
        DirentRecordBack(o, t, SwapRecords(o, t[24 + t[22]..], n - 1).bytes);
      }
    }
  }

  lemma InodeRecordBack(o: Order, t: seq<byte>, rest: seq<byte>)
    requires |t| >= 18
    ensures var r := Swap(SUM_INODE_WIDTHS, t) + rest;
      |r| == 18 + |rest| && Get16(o.Other(), r, 0) == Get16(o, t, 0) && r[18..] == rest &&
      Swap(SUM_INODE_WIDTHS, r) + t[18..] == t
  {
    hide Swap, Sum, Get16, Get32, Reversed;
    WidthSums();
    SwapTwice(SUM_INODE_WIDTHS, t, rest);
    SwapAt(SUM_INODE_WIDTHS, t, 0);
    assert SUM_INODE_WIDTHS[..0] == [];
    SumNone();
    var a := Swap(SUM_INODE_WIDTHS, t);
    assert (a + rest)[0..2] == a[0..2];
    ReadReversed(o, a + rest, 0, t, 0);
  }

  lemma DirentRecordBack(o: Order, t: seq<byte>, rest: seq<byte>)
    requires |t| >= 24 && |t| - 24 >= t[22]
    ensures var r := Swap(SUM_DIRENT_WIDTHS, t) + t[22..24 + t[22]] + rest; var k: nat := t[22]; var n := 24 + k;
      |r| == n + |rest| && Get16(o.Other(), r, 0) == Get16(o, t, 0) && r[22] == t[22] && r[n..] == rest &&
      Swap(SUM_DIRENT_WIDTHS, r) + r[22..n] + t[n..] == t
  {
    hide Swap, Sum, Get16, Get32, Reversed;
    WidthSums();
    var k: nat := t[22];
    var n := 24 + k;
    var a, b := Swap(SUM_DIRENT_WIDTHS, t), t[22..n];
    SwapTwice(SUM_DIRENT_WIDTHS, t, b + rest);
    SwapAt(SUM_DIRENT_WIDTHS, t, 0);
    assert SUM_DIRENT_WIDTHS[..0] == [];
    SumNone();
    var r := a + b + rest;
    assert r == a + (b + rest) && r[0..2] == a[0..2] && r[22..n] == b;
    assert r[22] == b[0] == t[22];
    ReadReversed(o, r, 0, t, 0);
    assert t[..22] + b + t[n..] == t;
  }

  // What is written for a summary, in its parts.
  lemma SummaryWritten(o: Order, crc: seq<byte> -> u32, t: seq<byte>, totlen: nat, records: seq<byte>, r: seq<byte>)
    requires 40 <= totlen <= |t| && |records| == totlen - 40
    requires SwapRecords(o, t[32..totlen - 8], Get32(o, t, 12)) == Swapped(records)
    requires ConvertSummary(o, crc, t, totlen) == Emit(r, totlen)
    ensures |r| == totlen && r[..24] == ConvertHead(o, crc, t) + Swap(SUM_WIDTHS, t[12..])
    ensures r[32..totlen - 8] == records && Get32(o.Other(), r, 12) == Get32(o, t, 12)
    ensures r[totlen - 8..totlen - 4] == Reversed(t[totlen - 8..totlen - 4])
    ensures r[totlen - 4..totlen] == Reversed(t[totlen - 4..totlen])
  {
    hide Get16, Get32, Put32, Swap, Sum, ConvertHead, SwapRecords, Reversed;
    WidthSums();
    var a, b := Reversed(t[totlen - 8..totlen - 4]), Reversed(t[totlen - 4..totlen]);
    var head, body := ConvertHead(o, crc, t), Swap(SUM_WIDTHS, t[12..]);
    SwapTwice(SUM_WIDTHS, t[12..], []);
    SwapAt(SUM_WIDTHS, t[12..], 0);
    assert SUM_WIDTHS[..0] == [];
    SumNone();
    var data := records + a + b;
    var front := head + body + Put32(o.Other(), crc(data)) + Put32(o.Other(), crc(head + body));
    assert r == front + data;
    Slots(front, records, a, b);
    assert r[..24] == head + body && r[12..16] == body[0..4] && t[12..16] == t[12..][0..4];
    ReadReversed(o, r, 12, t, 12);
  }

  lemma Slots(front: seq<byte>, records: seq<byte>, a: seq<byte>, b: seq<byte>)
    requires |front| == 32 && |a| == |b| == 4
    ensures var r := front + (records + a + b); var n := |r|;
      n == 40 + |records| && r[32..n - 8] == records && r[n - 8..n - 4] == a && r[n - 4..n] == b
  {
  }

  lemma SummaryBack(o: Order, crc: seq<byte> -> u32, t: seq<byte>, totlen: nat, r: seq<byte>)
    requires 40 <= totlen <= |t| && ConvertSummary(o, crc, t, totlen) == Emit(r, totlen)
    ensures |r| == totlen && ConvertSummary(o.Other(), crc, r, totlen).Emit?
    ensures ConvertSummary(o.Other(), crc, r, totlen) == Emit(t[..totlen], totlen) <==>
      SummaryChecked(o, crc, t[..totlen])
  {
    hide Get16, Get32, Put32, Swap, Sum, ConvertHead, SwapRecords, Reversed;
    var records := SwapRecords(o, t[32..totlen - 8], Get32(o, t, 12)).bytes;
    RecordsTwice(o, t[32..totlen - 8], Get32(o, t, 12));
    SummaryWritten(o, crc, t, totlen, records, r);
    ReversedTwice(t[totlen - 8..totlen - 4]);
    ReversedTwice(t[totlen - 4..totlen]);
    assert t[32..totlen - 8] + t[totlen - 8..totlen - 4] + t[totlen - 4..totlen] == t[32..totlen];
    WidthSums();
    BodyBack(o, crc, SUM_WIDTHS, t, r);
    var head := ConvertHead(o.Other(), crc, r) + Swap(SUM_WIDTHS, r[12..]);
    assert ConvertSummary(o.Other(), crc, r, totlen) ==
      Emit(head + Put32(o, crc(t[32..totlen])) + Put32(o, crc(head)) + t[32..totlen], totlen);
    Parts(t, head, Put32(o, crc(t[32..totlen])), Put32(o, crc(head)), totlen);
    SummarySlices(o, crc, t, totlen);
  }

  lemma SummarySlices(o: Order, crc: seq<byte> -> u32, t: seq<byte>, p: nat)
    requires 40 <= p <= |t|
    ensures SummaryChecked(o, crc, t[..p]) <==>
      HeadChecked(o, crc, t) && t[24..28] == Put32(o, crc(t[32..p])) && t[28..32] == Put32(o, crc(t[..24]))
  {
    hide Put32;
    var u := t[..p];
    assert u[8..12] == t[8..12] && u[..8] == t[..8] && u[24..28] == t[24..28] && u[28..32] == t[28..32];
    assert u[32..] == t[32..p] && u[..24] == t[..24];
  }

  // ---- any turn ------------------------------------------------------------------

  // What a turn takes in comes back from what it writes.
  ghost predicate ComesBack(o: Order, crc: seq<byte> -> u32, recalc: bool, t: seq<byte>)
    requires Turn(o, crc, recalc, t).Emit?
  {
    var x := Turn(o, crc, recalc, t);
    x.used <= |t| && Turn(o.Other(), crc, recalc, x.bytes) == Emit(t[..x.used], x.used)
  }

  lemma WordBack(o: Order, crc: seq<byte> -> u32, recalc: bool, t: seq<byte>)
    requires |t| >= 4 && Get16(o, t, 0) != MAGIC && Turn(o, crc, recalc, t).used <= |t|
    ensures Turn(o, crc, recalc, t).Emit? && ComesBack(o, crc, recalc, t)
  {
    hide Get16, Get32, Swap, Sum, Reversed;
    WidthSums();
    var r := Turn(o, crc, recalc, t).bytes;
    if Get16(o, t, 0) == 0xffff && Get16(o, t, 2) == 0xffff {
      AllOnes(o, t);
    } else {
      SwapTwice(WORD_WIDTHS, t, []);
      assert Swap(WORD_WIDTHS, t) + [] == Swap(WORD_WIDTHS, t);
      SwapAt(WORD_WIDTHS, t, 0);
      SwapAt(WORD_WIDTHS, t, 1);
      assert WORD_WIDTHS[..0] == [] && WORD_WIDTHS[..1] == [2];
      SumNone();
      SumNext([2]);
      ReadReversed(o, r, 0, t, 0);
      ReadReversed(o, r, 2, t, 2);
    }
  }

  lemma AllOnes(o: Order, t: seq<byte>)
    requires |t| >= 4 && Get16(o, t, 0) == 0xffff && Get16(o, t, 2) == 0xffff
    ensures Get16(o.Other(), t[..4], 0) == 0xffff && Get16(o.Other(), t[..4], 2) == 0xffff && t[..4][..4] == t[..4]
  {
  }

  lemma ForeignLost(o: Order, crc: seq<byte> -> u32, recalc: bool, t: seq<byte>)
    requires |t| >= UNKNOWN_SIZE && Get16(o, t, 0) == MAGIC && !KnownType(o, t)
    requires Turn(o, crc, recalc, t).Emit? && 0 < Turn(o, crc, recalc, t).used <= |t|
    ensures !ComesBack(o, crc, recalc, t)
  {
    if Get16(o, t, 2) == 0xffff {
      EmptyTypeIsNotConverted(o, crc, recalc, t);
      HalvesDiffer(o, t[..4]);
    } else if Get16(o, t, 2) == CLEANMARKER || Get16(o, t, 2) == PADDING {
      ShortMarkerLost(o, crc, recalc, t, Get16(o, t, 2), Get32(o, t, 4));
    } else {
      hide Get16, Get32;
      assert Turn(o, crc, recalc, t).bytes == [];
    }
  }

  lemma ShortMarkerLost(o: Order, crc: seq<byte> -> u32, recalc: bool, t: seq<byte>, kind: u16, totlen: u32)
    requires Reads(o, t, kind, totlen) && (kind == CLEANMARKER || kind == PADDING) && Turn(o, crc, recalc, t).Emit?
    requires Pad32(totlen) < UNKNOWN_SIZE
    ensures !ComesBack(o, crc, recalc, t)
  {
    hide Get16, Get32, ConvertHead, Turn, Pad32;
    MarkerTurned(o, crc, recalc, t, kind, totlen);
    var r := Turn(o, crc, recalc, t).bytes;
    HeadLength(o, crc, t);
    HeadLength(o.Other(), crc, r);
    assert r[..UNKNOWN_SIZE] == r;
    HeadCarried(o, crc, t, r);
    MarkerTurned(o.Other(), crc, recalc, r, kind, totlen);
    var back := Turn(o.Other(), crc, recalc, r);
    if back.Emit? && Pad32(totlen) <= |t| { assert |back.bytes| != |t[..Pad32(totlen)]|; }
  }

  lemma HeadLength(o: Order, crc: seq<byte> -> u32, t: seq<byte>)
    ensures |t| >= UNKNOWN_SIZE ==> |ConvertHead(o, crc, t)| == UNKNOWN_SIZE
  {
  }

  lemma HalvesDiffer(o: Order, t: seq<byte>)
    requires |t| == 4 && Get16(o, t, 0) == MAGIC
    ensures Get16(o.Other(), t, 0) != MAGIC && Get16(o.Other(), t, 0) != 0xffff && Swap(WORD_WIDTHS, t) != t
  {
    assert {t[0], t[1]} == {0x19, 0x85} && t[0] != t[1];
    assert WORD_WIDTHS[0] == 2;
    assert Swap(WORD_WIDTHS, t)[0] == Reversed(t[..2])[0] == t[1];
  }

  lemma SameKind(o: Order, t: seq<byte>, p: nat)
    requires 4 <= p <= |t|
    ensures Get16(o, t[..p], 2) == Get16(o, t, 2)
  {
  }

  // A summary is taken in at its length.
  lemma SummaryUsed(o: Order, crc: seq<byte> -> u32, recalc: bool, t: seq<byte>)
    requires |t| >= UNKNOWN_SIZE && Get16(o, t, 0) == MAGIC && Get16(o, t, 2) == SUMMARY
    requires Turn(o, crc, recalc, t).Emit?
    ensures var x := Turn(o, crc, recalc, t);
      40 <= x.used <= |t| && x.used == Get32(o, t, 4) && ConvertSummary(o, crc, t, x.used) == x
  {
    hide Get16, Get32, ConvertHead, ConvertInode, ConvertDirent, SwapRecords;
  }

  // What the turn back sees: the same type and length in as many bytes.
  ghost predicate Reads(o: Order, r: seq<byte>, kind: u16, totlen: u32) {
    |r| >= UNKNOWN_SIZE && Get16(o, r, 0) == MAGIC && Get16(o, r, 2) == kind && Get32(o, r, 4) == totlen
  }

  lemma InodeTurned(o: Order, crc: seq<byte> -> u32, recalc: bool, r: seq<byte>, totlen: u32)
    requires Reads(o, r, INODE, totlen)
    ensures Turn(o, crc, recalc, r) ==
      if Pad32(totlen) < 68 || |r| < Pad32(totlen) || (recalc && |r| - 68 < Get32(o, r, 48)) then Crash
      else Emit(ConvertInode(o, crc, recalc, r) + r[68..Pad32(totlen)], Pad32(totlen))
  {
    hide Get16, Get32, ConvertInode;
  }

  lemma DirentTurned(o: Order, crc: seq<byte> -> u32, recalc: bool, r: seq<byte>, totlen: u32)
    requires Reads(o, r, DIRENT, totlen)
    ensures Turn(o, crc, recalc, r) ==
      if Pad32(totlen) < 40 || |r| < Pad32(totlen) || (recalc && |r| - 40 < r[28]) then Crash
      else Emit(ConvertDirent(o, crc, recalc, r) + r[40..Pad32(totlen)], Pad32(totlen))
  {
    hide Get16, Get32, ConvertDirent;
  }

  lemma SummaryTurned(o: Order, crc: seq<byte> -> u32, recalc: bool, r: seq<byte>, totlen: u32)
    requires Reads(o, r, SUMMARY, totlen)
    ensures Turn(o, crc, recalc, r) == if totlen < 40 || |r| < totlen then Crash else ConvertSummary(o, crc, r, totlen)
  {
    hide Get16, Get32, ConvertSummary;
  }

  lemma MarkerTurned(o: Order, crc: seq<byte> -> u32, recalc: bool, r: seq<byte>, kind: u16, totlen: u32)
    requires Reads(o, r, kind, totlen) && (kind == CLEANMARKER || kind == PADDING)
    ensures Turn(o, crc, recalc, r) ==
      if |r| < Pad32(totlen) then Crash
      else Emit(ConvertHead(o, crc, r) + (if Pad32(totlen) > UNKNOWN_SIZE then r[UNKNOWN_SIZE..Pad32(totlen)] else []),
                Pad32(totlen))
  {
    hide Get16, Get32, ConvertHead;
  }

  lemma InodeComesBack(o: Order, crc: seq<byte> -> u32, recalc: bool, t: seq<byte>, totlen: u32)
    requires Reads(o, t, INODE, totlen) && Turn(o, crc, recalc, t).Emit?
    requires Reads(o.Other(), Turn(o, crc, recalc, t).bytes, INODE, totlen)
    ensures ComesBack(o, crc, recalc, t) <==> InodeChecked(o, crc, recalc, t[..Turn(o, crc, recalc, t).used])
    ensures 68 <= Turn(o, crc, recalc, t).used <= |t|
  {
    hide Get16, Get32, ConvertInode, InodeChecked, Turn, Pad32;
    InodeTurned(o, crc, recalc, t, totlen);
    var r, p := Turn(o, crc, recalc, t).bytes, Pad32(totlen);
    InodeBack(o, crc, recalc, t, p, r);
    InodeTurned(o.Other(), crc, recalc, r, totlen);
    assert r[68..p] == r[68..];
  }

  lemma DirentComesBack(o: Order, crc: seq<byte> -> u32, recalc: bool, t: seq<byte>, totlen: u32)
    requires Reads(o, t, DIRENT, totlen) && Turn(o, crc, recalc, t).Emit?
    requires Reads(o.Other(), Turn(o, crc, recalc, t).bytes, DIRENT, totlen)
    ensures ComesBack(o, crc, recalc, t) <==> DirentChecked(o, crc, recalc, t[..Turn(o, crc, recalc, t).used])
    ensures 40 <= Turn(o, crc, recalc, t).used <= |t|
  {
    hide Get16, Get32, ConvertDirent, DirentChecked, Turn, Pad32;
    DirentTurned(o, crc, recalc, t, totlen);
    var r, p := Turn(o, crc, recalc, t).bytes, Pad32(totlen);
    DirentBack(o, crc, recalc, t, p, r);
    DirentTurned(o.Other(), crc, recalc, r, totlen);
    assert r[40..p] == r[40..];
  }

  lemma SummaryComesBack(o: Order, crc: seq<byte> -> u32, recalc: bool, t: seq<byte>, totlen: u32)
    requires Reads(o, t, SUMMARY, totlen) && Turn(o, crc, recalc, t).Emit?
    requires Reads(o.Other(), Turn(o, crc, recalc, t).bytes, SUMMARY, totlen)
    ensures ComesBack(o, crc, recalc, t) <==> SummaryChecked(o, crc, t[..Turn(o, crc, recalc, t).used])
    ensures 40 <= Turn(o, crc, recalc, t).used <= |t|
  {
    hide Get16, Get32, ConvertSummary, SummaryChecked, Turn;
    SummaryUsed(o, crc, recalc, t);
    var r := Turn(o, crc, recalc, t).bytes;
    SummaryBack(o, crc, t, totlen, r);
    SummaryTurned(o.Other(), crc, recalc, r, totlen);
  }

  lemma MarkerComesBack(o: Order, crc: seq<byte> -> u32, recalc: bool, t: seq<byte>, kind: u16, totlen: u32)
    requires Reads(o, t, kind, totlen) && (kind == CLEANMARKER || kind == PADDING) && Turn(o, crc, recalc, t).Emit?
    requires Reads(o.Other(), Turn(o, crc, recalc, t).bytes, kind, totlen) && Pad32(totlen) >= UNKNOWN_SIZE
    ensures ComesBack(o, crc, recalc, t) <==> HeadChecked(o, crc, t[..Turn(o, crc, recalc, t).used])
    ensures UNKNOWN_SIZE <= Turn(o, crc, recalc, t).used <= |t|
  {
    hide Get16, Get32, ConvertHead, HeadChecked, Turn, Pad32;
    MarkerTurned(o, crc, recalc, t, kind, totlen);
    var r, p := Turn(o, crc, recalc, t).bytes, Pad32(totlen);
    var rest := if p > UNKNOWN_SIZE then t[UNKNOWN_SIZE..p] else [];
    assert rest == t[UNKNOWN_SIZE..p];
    MarkerBack(o, crc, t, p, r);
    MarkerTurned(o.Other(), crc, recalc, r, kind, totlen);
    var back := if p > UNKNOWN_SIZE then r[UNKNOWN_SIZE..p] else [];
    assert back == r[UNKNOWN_SIZE..];
  }

  lemma NodeBack(o: Order, crc: seq<byte> -> u32, recalc: bool, t: seq<byte>)
    requires |t| >= UNKNOWN_SIZE && Get16(o, t, 0) == MAGIC && KnownType(o, t)
    requires Turn(o, crc, recalc, t).Emit? && 0 < Turn(o, crc, recalc, t).used <= |t|
    ensures ComesBack(o, crc, recalc, t) <==> Checked(o, crc, recalc, t[..Turn(o, crc, recalc, t).used])
  {
    hide Get16, Get32, ConvertHead, InodeChecked, DirentChecked, SummaryChecked, HeadChecked, Turn, Pad32, ComesBack;
    var kind, totlen := Get16(o, t, 2), Get32(o, t, 4);
    HeadFirst(o, crc, recalc, t);
    HeadCarried(o, crc, t, Turn(o, crc, recalc, t).bytes);
    SameKind(o, t, Turn(o, crc, recalc, t).used);
    if kind == INODE {
      InodeComesBack(o, crc, recalc, t, totlen);
    } else if kind == DIRENT {
      DirentComesBack(o, crc, recalc, t, totlen);
    } else if kind == SUMMARY {
      SummaryComesBack(o, crc, recalc, t, totlen);
    } else {
      MarkerComesBack(o, crc, recalc, t, kind, totlen);
    }
  }

  // Turning back restores the bytes if and only if they are no node, or a node
  // of a known type other than 0xffff with all its checksums right.
  lemma TurnsBack(o: Order, crc: seq<byte> -> u32, recalc: bool, t: seq<byte>)
    requires Turn(o, crc, recalc, t).Emit? && 0 < Turn(o, crc, recalc, t).used <= |t|
    ensures ComesBack(o, crc, recalc, t) <==>
      Get16(o, t, 0) != MAGIC || (KnownType(o, t) && Checked(o, crc, recalc, t[..Turn(o, crc, recalc, t).used]))
  {
    hide Get16, Get32, ConvertHead, ConvertInode, ConvertDirent, ConvertSummary, Checked, Swap;
    if Get16(o, t, 0) != MAGIC {
      WordBack(o, crc, recalc, t);
    } else if !KnownType(o, t) {
      ForeignLost(o, crc, recalc, t);
    } else {
      NodeBack(o, crc, recalc, t);
    }
  }

  // ---- nodes of unknown type ----------------------------------------------------

  // A node of a type the converter does not know, with whatever it holds, up to
  // the next word.
  predicate IsStrange(o: Order, raw: seq<byte>) {
    |raw| >= UNKNOWN_SIZE && Get16(o, raw, 0) == MAGIC && |raw| == Pad32(Get32(o, raw, 4)) &&
    var kind := Get16(o, raw, 2);
    kind != INODE && kind != DIRENT && kind != SUMMARY && kind != CLEANMARKER && kind != PADDING && kind != 0xffff
  }

  datatype Piece = Plain(node: Node) | Strange(raw: seq<byte>)

  predicate AllSound(o: Order, ps: seq<Piece>) {
    forall i :: 0 <= i < |ps| ==> match ps[i] case Plain(x) => Good(x) case Strange(raw) => IsStrange(o, raw)
  }

  function Mixed(o: Order, crc: seq<byte> -> u32, ps: seq<Piece>): seq<byte>
    requires AllSound(o, ps)
  {
    if ps == [] then [] else
      (match ps[0] case Plain(x) => Encode(o, crc, x) case Strange(raw) => raw) + Mixed(o, crc, ps[1..])
  }

  function PlainOnes(ps: seq<Piece>): seq<Node> {
    if ps == [] then [] else (match ps[0] case Plain(x) => [x] case Strange(_) => []) + PlainOnes(ps[1..])
  }

  lemma {:induction false} PlainAreGood(o: Order, ps: seq<Piece>)
    requires AllSound(o, ps)
    ensures AllGood(PlainOnes(ps))
  {
    hide Good, IsStrange;
    if ps != [] { PlainAreGood(o, ps[1..]); }
  }

  // Such a node is gone over as far as it goes, and nothing is written for it.
  lemma StrangeTurns(o: Order, crc: seq<byte> -> u32, recalc: bool, raw: seq<byte>, rest: seq<byte>)
    requires IsStrange(o, raw)
    ensures Turn(o, crc, recalc, raw + rest) == Emit([], |raw|)
  {
    hide Get16, Get32, ConvertInode, ConvertDirent, ConvertSummary, ConvertHead;
    Fronts(o, raw, rest);
  }

  lemma Fronts(o: Order, a: seq<byte>, b: seq<byte>)
    requires |a| >= UNKNOWN_SIZE
    ensures Get16(o, a + b, 0) == Get16(o, a, 0) && Get16(o, a + b, 2) == Get16(o, a, 2)
    ensures Get32(o, a + b, 4) == Get32(o, a, 4)
  {
  }

  // An image with nodes of unknown type anywhere between the others converts to
  // the others alone, in the other order.
  lemma {:induction false} StrangeLeftOut(o: Order, crc: seq<byte> -> u32, recalc: bool, ps: seq<Piece>)
    requires AllSound(o, ps)
    ensures AllGood(PlainOnes(ps))
    ensures Converted(o, crc, recalc, Mixed(o, crc, ps)) == Done(EncodeAll(o.Other(), crc, PlainOnes(ps)))
    decreases |ps|
  {
    hide Turn, Encode, Good, Size, IsStrange;
    PlainAreGood(o, ps);
    if ps != [] {
      var rest := Mixed(o, crc, ps[1..]);
      StrangeLeftOut(o, crc, recalc, ps[1..]);
      match ps[0] {
        case Plain(x) =>
          NodeTurns(o, crc, recalc, x, rest);
          EncodedSize(o, crc, x);
          assert (Encode(o, crc, x) + rest)[|Encode(o, crc, x)|..] == rest;
          assert PlainOnes(ps)[0] == x && PlainOnes(ps)[1..] == PlainOnes(ps[1..]);
        case Strange(raw) =>
          StrangeTurns(o, crc, recalc, raw, rest);
          StrangeLength(o, raw);
          assert (raw + rest)[|raw|..] == rest;
          assert PlainOnes(ps) == PlainOnes(ps[1..]);
          var y := EncodeAll(o.Other(), crc, PlainOnes(ps[1..]));
          assert [] + y == y;
      }
    }
  }

  lemma StrangeLength(o: Order, raw: seq<byte>)
    requires IsStrange(o, raw)
    ensures |raw| > 0
  {
  }
}
