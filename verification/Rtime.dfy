// compr_rtime.c: a byte followed by the length of a run that repeats what came
// after the last literal occurrence of that byte.
module Rtime {
  import opened Bytes

  // The position table holds C shorts, so inputs are limited to 32767 bytes.
  newtype short = x: int | -0x8000 <= x < 0x8000

  // ---- the format ---------------------------------------------------------

  // What coder and decoder agree on between two pairs: the bytes so far, and for
  // every byte value the position after its last literal occurrence.
  datatype State = State(out: seq<byte>, table: seq<nat>)

  ghost predicate InStep(s: State) {
    |s.table| == 256 && forall v :: 0 <= v < 256 ==> s.table[v] <= |s.out|
  }

  // n more bytes, each copied from `from` onwards; source and target may overlap.
  function CopyRun(out: seq<byte>, from: nat, n: nat): (r: seq<byte>)
    requires n > 0 ==> from < |out|
    ensures |r| == |out| + n && out <= r
    decreases n
  {
    if n == 0 then out else CopyRun(out + [out[from]], from + 1, n - 1)
  }

  function Pair(s: State, v: byte, n: byte): (r: State)
    requires InStep(s)
    ensures InStep(r) && |r.out| == |s.out| + 1 + n
  {
    State(CopyRun(s.out + [v], s.table[v], n), s.table[v := |s.out| + 1])
  }

  // The state after the first k pairs of a code.
  function After(code: seq<byte>, k: nat): (r: State)
    requires 2 * k <= |code|
    ensures InStep(r) && k <= |r.out|
  {
    if k == 0 then State([], seq(256, _ => 0)) else Pair(After(code, k - 1), code[2 * k - 2], code[2 * k - 1])
  }

  lemma {:induction false} AfterPrefix(code: seq<byte>, more: seq<byte>, k: nat)
    requires 2 * k <= |code|
    ensures After(code + more, k) == After(code, k)
  {
    if k > 0 { AfterPrefix(code, more, k - 1); }
  }

  lemma {:induction false} AfterGrows(code: seq<byte>, j: nat, k: nat)
    requires j < k && 2 * k <= |code|
    ensures |After(code, j).out| < |After(code, k).out|
    decreases k
  {
    if j < k - 1 { AfterGrows(code, j, k - 1); }
  }

  // ---- the coder ----------------------------------------------------------

  datatype Progress = Progress(code: seq<byte>, pos: nat, table: seq<nat>)

  // How far data[pos..] repeats data[from..], up to 255 bytes in all.
  function RunLength(data: seq<byte>, from: nat, pos: nat, run: nat): (n: nat)
    requires from < pos && run <= 255
    ensures n <= 255 - run && (pos <= |data| ==> pos + n <= |data|)
    decreases 255 - run
  {
    if pos < |data| && data[pos] == data[from] && run < 255
    then 1 + RunLength(data, from + 1, pos + 1, run + 1) else 0
  }

  function CodeOne(data: seq<byte>, p: Progress): (r: Progress)
    requires p.pos < |data| && |p.table| == 256 && forall v :: 0 <= v < 256 ==> p.table[v] <= p.pos
    ensures p.pos < r.pos <= |data| && |r.table| == 256 && forall v :: 0 <= v < 256 ==> r.table[v] <= r.pos
  {
    var v := data[p.pos];
    var n := RunLength(data, p.table[v], p.pos + 1, 0);
    Progress(p.code + [v, n], p.pos + 1 + n, p.table[v := p.pos + 1])
  }

  function CodeAll(data: seq<byte>, room: nat, p: Progress): (r: Progress)
    requires p.pos <= |data| && |p.table| == 256 && forall v :: 0 <= v < 256 ==> p.table[v] <= p.pos
    ensures r.pos <= |data|
    decreases |data| - p.pos
  {
    if p.pos < |data| && |p.code| + 2 <= room then CodeAll(data, room, CodeOne(data, p)) else p
  }

  function Coded(data: seq<byte>, room: nat): Progress {
    CodeAll(data, room, Progress([], 0, seq(256, _ => 0)))
  }

  lemma {:induction false} CodeMatchesPos(data: seq<byte>, room: nat, p: Progress)
    requires p.pos <= |data| && |p.table| == 256 && forall v :: 0 <= v < 256 ==> p.table[v] <= p.pos
    requires p.pos > 0 ==> |p.code| > 0
    ensures CodeAll(data, room, p).pos > 0 ==> |CodeAll(data, room, p).code| > 0
    decreases |data| - p.pos
  {
    hide CodeOne, RunLength;
    if p.pos < |data| && |p.code| + 2 <= room {
      OneGrows(data, p);
      CodeMatchesPos(data, room, CodeOne(data, p));
    }
  }

  lemma OneGrows(data: seq<byte>, p: Progress)
    requires p.pos < |data| && |p.table| == 256 && forall v :: 0 <= v < 256 ==> p.table[v] <= p.pos
    ensures var r := CodeOne(data, p);
      |r.code| > 0 && p.pos < r.pos <= |data| && |r.table| == 256 && forall v :: 0 <= v < 256 ==> r.table[v] <= r.pos
  {
  }

  // Input that was coded leaves some code.
  lemma CodedIsNotEmpty(data: seq<byte>, room: nat)
    ensures Coded(data, room).pos > 0 ==> |Coded(data, room).code| > 0
  {
    CodeMatchesPos(data, room, Progress([], 0, seq(256, _ => 0)));
  }

  // ---- round trip ---------------------------------------------------------

  // The decoder, fed the code so far, has rebuilt the input so far and holds
  // the same table.
  ghost predicate Lockstep(data: seq<byte>, p: Progress) {
    p.pos <= |data| && |p.code| % 2 == 0 && After(p.code, |p.code| / 2) == State(data[..p.pos], p.table)
  }

  lemma {:induction false} CopiesBack(data: seq<byte>, from: nat, pos: nat, run: nat)
    requires from < pos <= |data| && run <= 255
    ensures var n := RunLength(data, from, pos, run); CopyRun(data[..pos], from, n) == data[..pos + n]
    decreases 255 - run
  {
    if pos < |data| && data[pos] == data[from] && run < 255 {
      assert data[..pos] + [data[from]] == data[..pos + 1];
      CopiesBack(data, from + 1, pos + 1, run + 1);
    }
  }

  lemma OneInLockstep(data: seq<byte>, p: Progress)
    requires Lockstep(data, p) && p.pos < |data|
    ensures Lockstep(data, CodeOne(data, p))
  {
    hide After, CopyRun, RunLength;
    var v, k := data[p.pos], |p.code| / 2;
    assert InStep(After(p.code, k));
    var n := RunLength(data, p.table[v], p.pos + 1, 0);
    AfterPrefix(p.code, [v, n], k);
    AfterNext(p.code + [v, n], k);
    assert data[..p.pos] + [v] == data[..p.pos + 1];
    CopiesBack(data, p.table[v], p.pos + 1, 0);
  }

  lemma AfterNext(code: seq<byte>, k: nat)
    requires 2 * k + 2 <= |code|
    ensures After(code, k + 1) == Pair(After(code, k), code[2 * k], code[2 * k + 1])
  {
  }

  lemma {:induction false} AllInLockstep(data: seq<byte>, room: nat, p: Progress)
    requires Lockstep(data, p) && |p.code| <= room
    ensures var r := CodeAll(data, room, p); Lockstep(data, r) && |r.code| <= room
    decreases |data| - p.pos
  {
    if p.pos < |data| && |p.code| + 2 <= room {
      OneInLockstep(data, p);
      AllInLockstep(data, room, CodeOne(data, p));
    }
  }

  // Decoding the pairs of a code rebuilds exactly the prefix that was coded,
  // whatever the data and however little room there was.
  lemma RoundTrip(data: seq<byte>, room: nat)
    ensures var c := Coded(data, room);
      |c.code| % 2 == 0 && |c.code| <= room && c.pos <= |data| && After(c.code, |c.code| / 2).out == data[..c.pos]
  {
    var start := Progress([], 0, seq(256, _ => 0));
    assert Lockstep(data, start);
    AllInLockstep(data, room, start);
  }

  // ---- the format by itself ---------------------------------------------------

  // Where the literal of pair k stands in the output: behind k literals and the
  // runs between them.
  function LiteralAt(code: seq<byte>, k: nat): nat
    requires 2 * k <= |code|
  {
    if k == 0 then 0 else LiteralAt(code, k - 1) + 1 + code[2 * k - 1]
  }

  // Where the run of a pair with value v, k pairs on, is copied from: behind the
  // last earlier literal of that value, or from the start if there is none.
  ghost predicate IsSource(code: seq<byte>, v: byte, k: nat, p: nat)
    requires 2 * k <= |code|
  {
    (p == 0 && forall m :: 0 <= m < k ==> code[2 * m] != v) ||
    exists m :: 0 <= m < k && code[2 * m] == v && p == LiteralAt(code, m) + 1 &&
      forall i :: m < i < k ==> code[2 * i] != v
  }

  lemma {:induction false} SourceIsOne(code: seq<byte>, v: byte, k: nat, p: nat, q: nat)
    requires 2 * k <= |code| && IsSource(code, v, k, p) && IsSource(code, v, k, q)
    ensures p == q
    decreases k
  {
    if k > 0 && code[2 * (k - 1)] != v {
      assert IsSource(code, v, k - 1, p) && IsSource(code, v, k - 1, q);
      SourceIsOne(code, v, k - 1, p, q);
    }
  }

  lemma {:induction false} SourceBefore(code: seq<byte>, v: byte, k: nat, p: nat)
    requires 2 * k <= |code| && IsSource(code, v, k, p)
    ensures p <= LiteralAt(code, k)
    decreases k
  {
    if k > 0 && code[2 * (k - 1)] != v {
      assert IsSource(code, v, k - 1, p);
      SourceBefore(code, v, k - 1, p);
    }
  }

  // The table of the decoder holds these places.
  lemma {:induction false} TableHolds(code: seq<byte>, k: nat, v: byte)
    requires 2 * k <= |code|
    ensures |After(code, k).out| == LiteralAt(code, k) && IsSource(code, v, k, After(code, k).table[v])
    decreases k
  {
    hide CopyRun;
    if k > 0 {
      TableHolds(code, k - 1, v);
      var p := After(code, k - 1).table[v];
      if code[2 * (k - 1)] == v {
        var m := k - 1;
        assert After(code, k).table[v] == LiteralAt(code, m) + 1;
        assert IsSource(code, v, k, LiteralAt(code, m) + 1);
      } else {
        SourceOn(code, v, k - 1, p);
      }
    }
  }

  lemma SourceOn(code: seq<byte>, v: byte, k: nat, p: nat)
    requires 2 * k + 2 <= |code| && IsSource(code, v, k, p) && code[2 * k] != v
    ensures IsSource(code, v, k + 1, p)
  {
    if exists m :: 0 <= m < k && code[2 * m] == v {
      var m :| 0 <= m < k && code[2 * m] == v && p == LiteralAt(code, m) + 1 &&
        forall i :: m < i < k ==> code[2 * i] != v;
      assert forall i :: m < i < k + 1 ==> code[2 * i] != v;
    }
  }

  // Copying forward, byte by byte, makes the run equal to what it repeats.
  lemma {:induction false} CopyRunRepeats(out: seq<byte>, from: nat, n: nat)
    requires n > 0 ==> from < |out|
    ensures var r := CopyRun(out, from, n); n > 0 ==> r[|out|..] == r[from..from + n]
    decreases n
  {
    if n > 0 {
      var more := out + [out[from]];
      var r := CopyRun(more, from + 1, n - 1);
      CopyRunRepeats(more, from + 1, n - 1);
      assert r[|out|] == more[|out|] && r[from] == more[from];
      assert r[|out|..] == [r[|out|]] + r[|more|..];
      assert r[from..from + n] == [r[from]] + r[from + 1..from + n];
    }
  }

  // What a code means, pair by pair: each pair puts out its byte and then as many
  // bytes as it says, which repeat the output from p on, wherever that ends.
  lemma {:induction false} DecodesAs(code: seq<byte>, k: nat, i: nat, p: nat)
    requires i < k && 2 * k <= |code| && IsSource(code, code[2 * i], i, p)
    ensures |After(code, k).out| == LiteralAt(code, k)
    ensures PutOut(After(code, k).out, LiteralAt(code, i), p, code[2 * i], code[2 * i + 1])
    decreases k
  {
    hide *;
    OutNext(code, k - 1);
    if i == k - 1 {
      LastPair(code, i, p);
    } else {
      DecodesAs(code, k - 1, i, p);
      var v := code[2 * k - 2];
      PairKeeps(After(code, k - 1).out, v, After(code, k - 1).table[v], code[2 * k - 1], LiteralAt(code, i), p,
        code[2 * i], code[2 * i + 1]);
    }
  }

  // The literal stands at its place, and behind it n bytes repeat those from p on.
  ghost predicate PutOut(out: seq<byte>, at: nat, p: nat, v: byte, n: byte) {
    p <= at && at + 1 + n <= |out| && out[at] == v && out[at + 1..at + 1 + n] == out[p..p + n]
  }

  lemma LastPair(code: seq<byte>, i: nat, p: nat)
    requires 2 * i + 2 <= |code| && IsSource(code, code[2 * i], i, p)
    ensures PutOut(After(code, i + 1).out, LiteralAt(code, i), p, code[2 * i], code[2 * i + 1])
  {
    hide CopyRun, IsSource, After, LiteralAt;
    OutNext(code, i);
    var s, v, n := After(code, i).out, code[2 * i], code[2 * i + 1];
    SourceBefore(code, v, i, p);
    TableHolds(code, i, v);
    SourceIsOne(code, v, i, p, After(code, i).table[v]);
    CopyRunRepeats(s + [v], p, n);
    PairPut(s, v, p, n);
  }

  lemma OutNext(code: seq<byte>, k: nat)
    requires 2 * k + 2 <= |code|
    ensures |After(code, k).table| == 256 && |After(code, k).out| == LiteralAt(code, k)
    ensures |After(code, k + 1).out| == LiteralAt(code, k + 1) == LiteralAt(code, k) + 1 + code[2 * k + 1]
    ensures var v := code[2 * k];
      After(code, k).table[v] <= |After(code, k).out| &&
      After(code, k + 1).out == CopyRun(After(code, k).out + [v], After(code, k).table[v], code[2 * k + 1])
  {
    hide CopyRun;
    AfterNext(code, k);
    TableHolds(code, k, code[2 * k]);
    TableHolds(code, k + 1, code[2 * k]);
    assert InStep(After(code, k));
  }

  lemma PairPut(out: seq<byte>, v: byte, p: nat, n: nat)
    requires p <= |out| && (n > 0 ==> CopyRun(out + [v], p, n)[|out| + 1..] == CopyRun(out + [v], p, n)[p..p + n])
    ensures var r := CopyRun(out + [v], p, n);
      |r| == |out| + 1 + n && r[|out|] == v && r[|out| + 1..|out| + 1 + n] == r[p..p + n]
  {
    hide CopyRun;
    Grows(out + [v], p, n);
    var r := CopyRun(out + [v], p, n);
    assert r[|out|] == (out + [v])[|out|];
  }

  lemma Grows(out: seq<byte>, p: nat, n: nat)
    requires n > 0 ==> p < |out|
    ensures |CopyRun(out, p, n)| == |out| + n && out <= CopyRun(out, p, n)
  {
  }

  lemma PairKeeps(out: seq<byte>, v: byte, q: nat, n: nat, at: nat, p: nat, w: byte, m: byte)
    requires q <= |out| && PutOut(out, at, p, w, m)
    ensures PutOut(CopyRun(out + [v], q, n), at, p, w, m)
  {
    hide CopyRun;
    Grows(out + [v], q, n);
    var r := CopyRun(out + [v], q, n);
    assert r[..|out|] == r[..|out| + 1][..|out|] == out;
    assert r[at + 1..at + 1 + m] == r[..|out|][at + 1..at + 1 + m] && r[p..p + m] == r[..|out|][p..p + m];
    assert r[at] == r[..|out|][at];
  }

  // a and b, and then the two bytes behind the first a.
  lemma Abab()
    ensures After([97, 0, 98, 0, 97, 1], 3).out == [97, 98, 97, 98]
  {
    var code: seq<byte> := [97, 0, 98, 0, 97, 1];
    assert LiteralAt(code, 0) == 0 && LiteralAt(code, 1) == 1 && LiteralAt(code, 2) == 2 && LiteralAt(code, 3) == 4;
    assert IsSource(code, 97, 0, 0) && IsSource(code, 98, 1, 0);
    var m := 0;
    assert code[2 * m] == 97 && 1 == LiteralAt(code, m) + 1 && IsSource(code, 97, 2, 1);
    hide *;
    DecodesAs(code, 3, 0, 0);
    DecodesAs(code, 3, 1, 0);
    DecodesAs(code, 3, 2, 1);
    FourBytes(After(code, 3).out);
  }

  lemma FourBytes(out: seq<byte>)
    requires |out| == 4 && PutOut(out, 0, 0, 97, 0) && PutOut(out, 1, 0, 98, 0) && PutOut(out, 2, 1, 97, 1)
    ensures out == [97, 98, 97, 98]
  {
    assert out[3] == out[3..4][0] == out[1..2][0];
  }

  // The run of pair i is the longest there is, up to 255 bytes.
  ghost predicate Longest(data: seq<byte>, code: seq<byte>, i: nat)
    requires 2 * i + 2 <= |code|
  {
    var at, n := LiteralAt(code, i), code[2 * i + 1];
    n == 255 || at + 1 + n == |data| ||
    (at + 1 + n < |data| &&
     forall p: nat :: IsSource(code, code[2 * i], i, p) ==> p + n < |data| && data[at + 1 + n] != data[p + n])
  }

  lemma {:induction false} RunIsLongest(data: seq<byte>, from: nat, pos: nat, run: nat)
    requires from < pos <= |data| && run <= 255
    ensures var n := RunLength(data, from, pos, run);
      run + n < 255 && pos + n < |data| ==> data[pos + n] != data[from + n]
    decreases 255 - run
  {
    if pos < |data| && data[pos] == data[from] && run < 255 { RunIsLongest(data, from + 1, pos + 1, run + 1); }
  }

  ghost predicate AllLongest(data: seq<byte>, p: Progress) {
    Lockstep(data, p) && forall i :: 0 <= i < |p.code| / 2 ==> Longest(data, p.code, i)
  }

  // More code does not change what the pairs before it mean.
  lemma {:induction false} LiteralStays(code: seq<byte>, more: seq<byte>, k: nat)
    requires 2 * k <= |code|
    ensures LiteralAt(code + more, k) == LiteralAt(code, k)
  {
    if k > 0 { LiteralStays(code, more, k - 1); }
  }

  lemma {:induction false} SourceStays(code: seq<byte>, more: seq<byte>, v: byte, k: nat, p: nat)
    requires 2 * k <= |code| && IsSource(code + more, v, k, p)
    ensures IsSource(code, v, k, p)
  {
    forall m: nat | m < k ensures LiteralAt(code + more, m) == LiteralAt(code, m) { LiteralStays(code, more, m); }
    if !(p == 0 && forall m :: 0 <= m < k ==> (code + more)[2 * m] != v) {
      var m :| 0 <= m < k && (code + more)[2 * m] == v && p == LiteralAt(code + more, m) + 1 &&
        forall i :: m < i < k ==> (code + more)[2 * i] != v;
      assert code[2 * m] == v && forall i :: m < i < k ==> code[2 * i] == (code + more)[2 * i];
    } else {
      assert forall m :: 0 <= m < k ==> code[2 * m] == (code + more)[2 * m];
    }
  }

  lemma OneIsLongest(data: seq<byte>, p: Progress)
    requires AllLongest(data, p) && p.pos < |data|
    ensures AllLongest(data, CodeOne(data, p))
  {
    hide After, RunLength, IsSource, Longest, LiteralAt;
    OneInLockstep(data, p);
    var r, k, v := CodeOne(data, p), |p.code| / 2, data[p.pos];
    assert InStep(After(p.code, k));
    var n := RunLength(data, p.table[v], p.pos + 1, 0);
    TableHolds(p.code, k, v);
    RunIsLongest(data, p.table[v], p.pos + 1, 0);
    forall i | 0 <= i < |r.code| / 2 ensures Longest(data, r.code, i) {
      if i < k {
        LongestStays(data, p.code, [v, n], i);
      } else {
        LongestHere(data, p.code, v, n, k, p.table[v]);
      }
    }
  }

  lemma LongestStays(data: seq<byte>, code: seq<byte>, more: seq<byte>, i: nat)
    requires 2 * i + 2 <= |code| && Longest(data, code, i)
    ensures Longest(data, code + more, i)
  {
    hide IsSource;
    LiteralStays(code, more, i);
    forall p: nat | IsSource(code + more, code[2 * i], i, p) ensures IsSource(code, code[2 * i], i, p) {
      SourceStays(code, more, code[2 * i], i, p);
    }
  }

  lemma LongestHere(data: seq<byte>, code: seq<byte>, v: byte, n: byte, k: nat, p: nat)
    requires |code| == 2 * k && IsSource(code, v, k, p) && p <= LiteralAt(code, k)
    requires LiteralAt(code, k) + 1 + n <= |data|
    requires var at := LiteralAt(code, k); n < 255 && at + 1 + n < |data| ==> data[at + 1 + n] != data[p + n]
    ensures Longest(data, code + [v, n], k)
  {
    hide IsSource;
    LiteralStays(code, [v, n], k);
    forall q: nat | IsSource(code + [v, n], v, k, q) ensures q == p {
      SourceStays(code, [v, n], v, k, q);
      SourceIsOne(code, v, k, p, q);
    }
  }

  lemma {:induction false} AllRunsLongest(data: seq<byte>, room: nat, p: Progress)
    requires AllLongest(data, p)
    ensures var r := CodeAll(data, room, p); AllLongest(data, r) && (r.pos == |data| || |r.code| + 2 > room)
    decreases |data| - p.pos
  {
    hide Longest;
    if p.pos < |data| && |p.code| + 2 <= room {
      OneIsLongest(data, p);
      AllRunsLongest(data, room, CodeOne(data, p));
    }
  }

  // The coder stops at the end of the data or for want of room, and each of its
  // runs is the longest the format has.
  lemma CoderIsGreedy(data: seq<byte>, room: nat, i: nat)
    ensures var c := Coded(data, room);
      (c.pos == |data| || |c.code| + 2 > room) && |c.code| % 2 == 0 &&
      c.pos == LiteralAt(c.code, |c.code| / 2) && (2 * i + 2 <= |c.code| ==> Longest(data, c.code, i))
  {
    hide Longest, IsSource;
    var start := Progress([], 0, seq(256, _ => 0));
    assert Lockstep(data, start);
    AllRunsLongest(data, room, start);
    var c := Coded(data, room);
    TableHolds(c.code, |c.code| / 2, 0);
  }

  // ---- the two loops ------------------------------------------------------

  lemma {:induction false} CopyDisjoint(out: seq<byte>, from: nat, n: nat)
    requires from + n <= |out|
    ensures CopyRun(out, from, n) == out + out[from..from + n]
    decreases n
  {
    if n > 0 {
      CopyDisjoint(out + [out[from]], from + 1, n - 1);
      assert (out + [out[from]])[from + 1..from + n] == out[from + 1..from + n];
      assert out[from..from + n] == [out[from]] + out[from + 1..from + n];
    }
  }

  predicate Positions(a: array<short>, table: seq<nat>)
    reads a
  {
    a.Length == 256 == |table| && forall v :: 0 <= v < 256 ==> a[v] as int == table[v]
  }

  // The inner loop of the coder.
  method CountRun(data: seq<byte>, backpos: nat, start: nat) returns (pos: nat, runlen: byte)
    requires backpos < start <= |data|
    ensures runlen == RunLength(data, backpos, start, 0) && pos == start + runlen
  {
    var back := backpos;
    pos, runlen := start, 0;
    while back < pos && pos < |data| && data[pos] == data[back] && runlen < 255
      invariant 0 <= back < pos == start + runlen <= |data|
      invariant runlen + RunLength(data, back, pos, runlen) == RunLength(data, backpos, start, 0)
      decreases |data| - pos
    {
      back := back + 1;
      pos := pos + 1;
      runlen := runlen + 1;
    }
  }

  // jffs2_rtime_compress: ret, *sourcelen and *dstlen on return.
  method Compress(data: seq<byte>, cpageOut: array<byte>, dstlen: nat) returns (ret: int, slen: nat, dlen: nat)
    requires |data| <= 0x7fff && dstlen <= cpageOut.Length
    modifies cpageOut
    ensures var c := Coded(data, dstlen);
      |c.code| <= dstlen && cpageOut[..|c.code|] == c.code &&
      (forall j :: |c.code| <= j < cpageOut.Length ==> cpageOut[j] == old(cpageOut[j])) &&
      (ret, slen, dlen) == if |c.code| >= c.pos then (-1, |data|, dstlen) else (0, c.pos, |c.code|)
  {
    hide RunLength;
    var positions := new short[256](_ => 0);
    var outpos, pos := 0, 0;
    ghost var p := Progress([], 0, seq(256, _ => 0));
    while pos < |data| && outpos + 2 <= dstlen
      invariant pos == p.pos <= |data| && outpos == |p.code| <= dstlen
      invariant cpageOut[..outpos] == p.code && forall j :: outpos <= j < cpageOut.Length ==>
        cpageOut[j] == old(cpageOut[j])
      invariant Positions(positions, p.table) && forall v :: 0 <= v < 256 ==> p.table[v] <= p.pos
      invariant CodeAll(data, dstlen, p) == Coded(data, dstlen)
      decreases |data| - pos
    {
      var value := data[pos];
      cpageOut[outpos] := value;
      pos := pos + 1;
      outpos := outpos + 1;
      var backpos, runlen := positions[value] as int, 0;
      positions[value] := pos as short;
      pos, runlen := CountRun(data, backpos, pos);
      cpageOut[outpos] := runlen;
      outpos := outpos + 1;
      assert cpageOut[..outpos] == p.code + [value, runlen];
      p := CodeOne(data, p);
    }
    if outpos >= pos {
      return -1, |data|, dstlen;
    }
    return 0, pos, outpos;
  }

  // Overlapping source and target: byte by byte.
  method CopyForward(out: array<byte>, start: nat, from: nat, n: nat)
    requires from < start && start + n <= out.Length
    modifies out
    ensures out[..start + n] == CopyRun(old(out[..start]), from, n)
    ensures forall j :: start + n <= j < out.Length ==> out[j] == old(out[j])
  {
    var outpos, backoffs, repeat := start, from, n;
    while repeat != 0
      invariant 0 <= repeat <= n && outpos + repeat == start + n && 0 <= backoffs < outpos
      invariant CopyRun(out[..outpos], backoffs, repeat) == CopyRun(old(out[..start]), from, n)
      invariant forall j :: outpos <= j < out.Length ==> out[j] == old(out[j])
      decreases repeat
    {
      ghost var before := out[..outpos];
      out[outpos] := out[backoffs];
      outpos := outpos + 1;
      backoffs := backoffs + 1;
      repeat := repeat - 1;
      assert out[..outpos] == before + [before[backoffs - 1]];
    }
  }

  // memcpy
  method CopyBlock(out: array<byte>, start: nat, from: nat, n: nat)
    requires from + n <= start && start + n <= out.Length
    modifies out
    ensures out[..start + n] == CopyRun(old(out[..start]), from, n)
    ensures forall j :: start + n <= j < out.Length ==> out[j] == old(out[j])
  {
    CopyDisjoint(out[..start], from, n);
    forall j | 0 <= j < n {
      out[start + j] := out[from + j];
    }
    assert out[..start + n] == old(out[..start]) + old(out[..start])[from..from + n];
  }

  method CopyOut(out: array<byte>, start: nat, from: nat, n: nat)
    requires from < start && start + n <= out.Length
    modifies out
    ensures out[..start + n] == CopyRun(old(out[..start]), from, n)
    ensures forall j :: start + n <= j < out.Length ==> out[j] == old(out[j])
  {
    if n != 0 {
      if from + n >= start {
        CopyForward(out, start, from, n);
      } else {
        CopyBlock(out, start, from, n);
      }
    }
  }

  // jffs2_rtime_decompress on a code whose first k pairs make up destlen bytes.
  method Decompress(code: seq<byte>, cpageOut: array<byte>, destlen: nat, ghost k: nat) returns (consumed: nat)
    requires destlen <= 0x7fff && destlen <= cpageOut.Length
    requires 2 * k <= |code| && |After(code, k).out| == destlen
    modifies cpageOut
    ensures consumed == 2 * k
    ensures cpageOut[..destlen] == After(code, k).out
    ensures forall j :: destlen <= j < cpageOut.Length ==> cpageOut[j] == old(cpageOut[j])
  {
    hide CopyRun, After;
    var positions := new short[256](_ => 0);
    var outpos, pos := 0, 0;
    ghost var i, s := 0, State([], seq(256, _ => 0));
    AfterNone(code);
    while outpos < destlen
      invariant i <= k && pos == 2 * i && s == After(code, i) && outpos == |s.out| <= destlen
      invariant cpageOut[..outpos] == s.out && forall j :: outpos <= j < cpageOut.Length ==>
        cpageOut[j] == old(cpageOut[j])
      invariant Positions(positions, s.table)
      decreases destlen - outpos
    {
      AfterNext(code, i);
      if i + 1 < k { AfterGrows(code, i + 1, k); }
      ghost var was := s;
      s := Pair(was, code[2 * i], code[2 * i + 1]);
      var value := code[pos];
      cpageOut[outpos] := value;
      outpos := outpos + 1;
      var repeat := code[pos + 1];
      pos := pos + 2;
      var backoffs := positions[value] as int;
      positions[value] := outpos as short;
      assert cpageOut[..outpos] == was.out + [value];
      CopyOut(cpageOut, outpos, backoffs, repeat);
      outpos := outpos + repeat;
      i := i + 1;
    }
    if i < k { AfterGrows(code, i, k); }
    return pos;
  }

  lemma AfterNone(code: seq<byte>)
    ensures After(code, 0) == State([], seq(256, _ => 0))
  {
  }
}
