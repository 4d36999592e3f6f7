// logwrapper.c, parent: lines are cut out of whatever the reads deliver.
module LineSplitter {
  import opened Bytes

  const SIZE: nat := 4096 // sizeof(buffer)
  const LIMIT: nat := 4095 // the longest line
  const CR: byte := 13
  const LF: byte := 10

  function Clean(c: byte): byte {
    if c == CR then 0 else c
  }

  function CleanAll(s: seq<byte>): (r: seq<byte>)
    ensures |r| == |s|
  {
    seq(|s|, i requires 0 <= i < |s| => Clean(s[i]))
  }

  // The first newline among the first n bytes, or n.
  function FindLF(s: seq<byte>, n: nat): (k: nat)
    requires n <= |s|
    ensures k <= n && LF !in s[..k] && (k < n ==> s[k] == LF)
  {
    if n == 0 then 0 else
      var k := FindLF(s, n - 1);
      if k < n - 1 || s[n - 1] == LF then k else n
  }

  // The lines of a stream: up to each newline, and after LIMIT bytes without
  // one. What is left at the end is a line if there is any.
  function Split(s: seq<byte>): seq<seq<byte>>
    decreases |s|
  {
    if s == [] then [] else
      var n := if |s| < LIMIT then |s| else LIMIT;
      var k := FindLF(s, n);
      [CleanAll(s[..k])] + Split(if k < n then s[k + 1..] else s[k..])
  }

  lemma SplitStep(s: seq<byte>) returns (k: nat, m: nat)
    requires s != []
    ensures k <= m <= |s| && 0 < m && k <= LIMIT && LF !in s[..k]
    ensures (m == k && (k == LIMIT || k == |s|)) || (m == k + 1 && k < LIMIT && s[k] == LF)
    ensures Split(s) == [CleanAll(s[..k])] + Split(s[m..])
  {
    hide CleanAll, FindLF;
    var n := if |s| < LIMIT then |s| else LIMIT;
    k := FindLF(s, n);
    FindLFIs(s, n);
    m := if k < n then k + 1 else k;
  }

  lemma FindLFIs(s: seq<byte>, n: nat)
    requires n <= |s|
    ensures var k := FindLF(s, n); k <= n && LF !in s[..k] && (k < n ==> s[k] == LF)
  {
  }

  // The line that is being collected, and those that are logged.
  datatype State = State(pending: seq<byte>, lines: seq<seq<byte>>)

  function Feed(s: State, c: byte): State {
    if c == LF then State([], s.lines + [s.pending]) else State(s.pending + [Clean(c)], s.lines)
  }

  function FeedAll(s: State, cs: seq<byte>): State {
    if cs == [] then s else Feed(FeedAll(s, cs[..|cs| - 1]), cs[|cs| - 1])
  }

  function Flush(s: State): State {
    if |s.pending| == LIMIT then State([], s.lines + [s.pending]) else s
  }

  function Last(s: State): seq<seq<byte>> {
    if s.pending == [] then s.lines else s.lines + [s.pending]
  }

  // Byte after byte, flushing as soon as the line is full.
  function Run(s: State, cs: seq<byte>): State {
    if cs == [] then s else Flush(Feed(Run(s, cs[..|cs| - 1]), cs[|cs| - 1]))
  }

  lemma {:induction false} RunJoin(s: State, a: seq<byte>, b: seq<byte>)
    ensures Run(s, a + b) == Run(Run(s, a), b)
  {
    if b == [] {
      assert a + b == a;
    } else {
      assert (a + b)[..|a + b| - 1] == a + b[..|b| - 1];
      RunJoin(s, a, b[..|b| - 1]);
    }
  }

  // As long as the buffer does not overflow, flushing can wait until the end.
  lemma {:induction false} FlushLater(s: State, cs: seq<byte>)
    requires |s.pending| < LIMIT && |s.pending| + |cs| <= LIMIT
    ensures Run(s, cs) == Flush(FeedAll(s, cs)) && |FeedAll(s, cs).pending| <= |s.pending| + |cs|
  {
    if cs != [] { FlushLater(s, cs[..|cs| - 1]); }
  }

  lemma {:induction false} NoNewline(cs: seq<byte>, p: seq<byte>, lines: seq<seq<byte>>)
    requires LF !in cs && |p| < LIMIT && |p| + |cs| <= LIMIT
    ensures FeedAll(State(p, lines), cs) == State(p + CleanAll(cs), lines)
  {
    if cs != [] {
      var front := cs[..|cs| - 1];
      NoNewline(front, p, lines);
      assert CleanAll(cs) == CleanAll(front) + [Clean(cs[|cs| - 1])];
    } else {
      assert p + CleanAll(cs) == p;
    }
  }

  lemma LineRuns(s: seq<byte>, k: nat, lines: seq<seq<byte>>)
    requires k <= |s| && k <= LIMIT && LF !in s[..k]
    ensures k < LIMIT ==> Run(State([], lines), s[..k]) == State(CleanAll(s[..k]), lines)
    ensures k == LIMIT ==> Run(State([], lines), s[..k]) == State([], lines + [CleanAll(s[..k])])
    ensures k < LIMIT && k < |s| && s[k] == LF ==>
      Run(State([], lines), s[..k + 1]) == State([], lines + [CleanAll(s[..k])])
  {
    FlushLater(State([], lines), s[..k]);
    NoNewline(s[..k], [], lines);
    assert [] + CleanAll(s[..k]) == CleanAll(s[..k]);
    if k < |s| { assert s[..k + 1][..k] == s[..k]; }
  }

  // Run, line by line.
  lemma {:induction false} RunSplits(s: seq<byte>, lines: seq<seq<byte>>)
    ensures Last(Run(State([], lines), s)) == lines + Split(s)
    decreases |s|
  {
    hide CleanAll, FindLF, Run, Split;
    if s != [] {
      var k, m := SplitStep(s);
      var line := CleanAll(s[..k]);
      LineRuns(s, k, lines);
      assert s[..m] + s[m..] == s;
      if m > k || k == LIMIT {
        RunJoin(State([], lines), s[..m], s[m..]);
        RunSplits(s[m..], lines + [line]);
        assert lines + [line] + Split(s[m..]) == lines + ([line] + Split(s[m..]));
      } else {
        CleanLength(s);
        NothingSplit();
        assert s[..k] == s && s[k..] == [];
        assert [line] + [] == [line];
      }
    } else {
      NothingRuns(lines);
    }
  }

  lemma NothingSplit()
    ensures Split([]) == []
  {
  }

  lemma NothingRuns(lines: seq<seq<byte>>)
    ensures Last(Run(State([], lines), [])) == lines + Split([])
  {
  }

  lemma CleanLength(s: seq<byte>)
    ensures |CleanAll(s)| == |s|
  {
  }

  function Joined(lines: seq<seq<byte>>): seq<byte> {
    if lines == [] then [] else lines[0] + Joined(lines[1..])
  }

  function WithoutLF(s: seq<byte>): seq<byte> {
    if s == [] then [] else WithoutLF(s[..|s| - 1]) + (if s[|s| - 1] == LF then [] else [s[|s| - 1]])
  }

  lemma {:induction false} WithoutLFJoin(a: seq<byte>, b: seq<byte>)
    ensures WithoutLF(a + b) == WithoutLF(a) + WithoutLF(b)
  {
    if b == [] {
      assert a + b == a;
    } else {
      assert (a + b)[..|a + b| - 1] == a + b[..|b| - 1];
      WithoutLFJoin(a, b[..|b| - 1]);
    }
  }

  lemma {:induction false} NoLF(s: seq<byte>)
    requires LF !in s
    ensures WithoutLF(s) == s
  {
    if s != [] { NoLF(s[..|s| - 1]); }
  }

  lemma CleanJoin(a: seq<byte>, b: seq<byte>)
    ensures CleanAll(a + b) == CleanAll(a) + CleanAll(b)
  {
  }

  lemma LeadingLF(s: seq<byte>, rest: seq<byte>)
    requires s == [LF] + rest
    ensures WithoutLF(s) == WithoutLF(rest)
  {
    WithoutLFJoin([LF], rest);
    assert [LF][..0] == [];
  }

  // A line and the newline behind it, if there is one.
  lemma OneLine(s: seq<byte>, k: nat, m: nat)
    requires k <= m <= |s| && LF !in s[..k] && (m == k || (m == k + 1 && s[k] == LF))
    ensures WithoutLF(s) == s[..k] + WithoutLF(s[m..])
  {
    hide WithoutLF;
    NoLF(s[..k]);
    WithoutLFJoin(s[..k], s[k..]);
    assert s[..k] + s[k..] == s;
    if m > k { LeadingLF(s[k..], s[m..]); }
  }

  // No byte but the newlines is lost or repeated, and no line is too long.
  lemma {:induction false} SplitKeepsAll(s: seq<byte>)
    ensures Joined(Split(s)) == CleanAll(WithoutLF(s)) && forall i :: 0 <= i < |Split(s)| ==> |Split(s)[i]| <= LIMIT
    decreases |s|
  {
    hide CleanAll, FindLF;
    if s == [] {
      CleanJoin([], []);
    } else {
      var k, m := SplitStep(s);
      SplitKeepsAll(s[m..]);
      OneLine(s, k, m);
      CleanJoin(s[..k], WithoutLF(s[m..]));
      CleanLength(s[..k]);
      assert Split(s)[1..] == Split(s[m..]);
    }
  }

  // What %s prints of a line.
  function Text(s: seq<byte>): seq<byte> {
    if s == [] || s[0] == 0 then [] else [s[0]] + Text(s[1..])
  }

  function Texts(lines: seq<seq<byte>>): seq<seq<byte>> {
    seq(|lines|, i requires 0 <= i < |lines| => Text(lines[i]))
  }

  // What is printed of a line: the stream's own bytes up to the first carriage
  // return or zero byte.
  lemma {:induction false} PrintedIs(p: seq<byte>) returns (m: nat)
    ensures m <= |p| && Text(CleanAll(p)) == p[..m]
    ensures (forall i :: 0 <= i < m ==> p[i] != 13 && p[i] != 0) && (m < |p| ==> p[m] == 13 || p[m] == 0)
  {
    if p == [] || Clean(p[0]) == 0 {
      m := 0;
    } else {
      var n := PrintedIs(p[1..]);
      m := n + 1;
      assert CleanAll(p)[1..] == CleanAll(p[1..]);
      assert p[..m] == [p[0]] + p[1..][..n];
    }
  }

  predicate Cleaned(s: seq<byte>) {
    LF !in s && CR !in s
  }

  lemma {:induction false} FeedCleaned(s: State, cs: seq<byte>)
    requires Cleaned(s.pending)
    ensures Cleaned(FeedAll(s, cs).pending)
  {
    if cs != [] { FeedCleaned(s, cs[..|cs| - 1]); }
  }

  // What the scan has found up to b: nothing in the left-overs, and then what
  // feeding the chunk gives.
  ghost predicate Scanned(pending: seq<byte>, chunk: seq<byte>, b: nat, line: seq<byte>, lines: seq<seq<byte>>) {
    if b <= |pending| then lines == [] && line == pending[..b]
    else b - |pending| <= |chunk| && FeedAll(State(pending, []), chunk[..b - |pending|]) == State(line, lines)
  }

  lemma ScannedMore(pending: seq<byte>, chunk: seq<byte>, b: nat, line: seq<byte>, lines: seq<seq<byte>>)
    requires Scanned(pending, chunk, b, line, lines) && b < |pending + chunk| && Cleaned(pending)
    ensures var c := (pending + chunk)[b];
      if c == LF then Scanned(pending, chunk, b + 1, [], lines + [line])
      else Scanned(pending, chunk, b + 1, line + [Clean(c)], lines)
  {
    var c := (pending + chunk)[b];
    if b < |pending| {
      assert pending[b] in pending;
      assert pending[..b + 1] == pending[..b] + [c];
    } else {
      var n := b - |pending|;
      assert chunk[..n + 1][..n] == chunk[..n] && c == chunk[n];
      if n == 0 { assert pending[..b] == pending && chunk[..0] == []; }
    }
  }

  lemma ScannedAll(pending: seq<byte>, chunk: seq<byte>, line: seq<byte>, lines: seq<seq<byte>>)
    requires Scanned(pending, chunk, |pending| + |chunk|, line, lines)
    ensures FeedAll(State(pending, []), chunk) == State(line, lines)
  {
    assert chunk[..|chunk|] == chunk && pending[..|pending|] == pending;
    if chunk == [] { assert FeedAll(State(pending, []), chunk) == State(pending, []); }
  }

  lemma NothingScanned(pending: seq<byte>, chunk: seq<byte>)
    ensures Scanned(pending, chunk, 0, [], [])
  {
  }

  // The loop over the buffer: what was left over, then what was read.
  method Scan(buffer: array<byte>, sz: nat, ghost pending: seq<byte>, ghost chunk: seq<byte>)
    returns (a: nat, texts: seq<seq<byte>>, ghost lines: seq<seq<byte>>)
    requires sz <= buffer.Length && buffer[..sz] == pending + chunk && Cleaned(pending)
    modifies buffer
    ensures a <= sz && FeedAll(State(pending, []), chunk) == State(buffer[a..sz], lines)
    ensures texts == Texts(lines) && (a == 0 <==> lines == [])
  {
    hide Scanned, FeedAll, Text, Cleaned;
    ghost var all := pending + chunk;
    var b := 0;
    a, texts, lines := 0, [], [];
    NothingScanned(pending, chunk);
    while b < sz
      invariant a <= b <= sz && buffer[b..sz] == all[b..] && (a == 0 <==> lines == []) && texts == Texts(lines)
      invariant Scanned(pending, chunk, b, buffer[a..b], lines)
    {
      ghost var was, line := buffer[..], buffer[a..b];
      assert buffer[b] == buffer[b..sz][0] == all[b];
      ScannedMore(pending, chunk, b, line, lines);
      if buffer[b] == CR {
        buffer[b] := 0;
      } else if buffer[b] == LF {
        buffer[b] := 0;
        assert buffer[a..b] == line;
        texts := texts + [Text(buffer[a..b])];
        lines := lines + [line];
        a := b + 1;
      }
      assert buffer[b + 1..sz] == was[b + 1..sz] == was[b..sz][1..];
      assert a <= b ==> buffer[a..b + 1] == line + [Clean(all[b])];
      assert a > b ==> buffer[a..b + 1] == [];
      b := b + 1;
    }
    ScannedAll(pending, chunk, buffer[a..b], lines);
  }

  lemma {:induction false} FeedBase(p: seq<byte>, lines: seq<seq<byte>>, cs: seq<byte>)
    ensures FeedAll(State(p, lines), cs).pending == FeedAll(State(p, []), cs).pending
    ensures FeedAll(State(p, lines), cs).lines == lines + FeedAll(State(p, []), cs).lines
  {
    if cs != [] { FeedBase(p, lines, cs[..|cs| - 1]); }
  }

  // One read: the lines it completes, and what is left over of it.
  lemma ReadRuns(p: seq<byte>, lines: seq<seq<byte>>, chunk: seq<byte>, rest: seq<byte>, more: seq<seq<byte>>)
    requires |p| < LIMIT && |p| + |chunk| <= LIMIT && FeedAll(State(p, []), chunk) == State(rest, more) && Cleaned(p)
    ensures Run(State(p, lines), chunk) ==
      if |rest| == LIMIT then State([], lines + more + [rest]) else State(rest, lines + more)
    ensures |rest| <= LIMIT && Cleaned(rest)
  {
    FlushLater(State(p, lines), chunk);
    FeedBase(p, lines, chunk);
    FeedCleaned(State(p, []), chunk);
  }

  lemma TextsJoin(a: seq<seq<byte>>, b: seq<seq<byte>>)
    ensures Texts(a + b) == Texts(a) + Texts(b)
  {
  }

  // One turn of the loop, once the chunk stands behind the left-overs.
  method Turn(buffer: array<byte>, sz: nat, ghost pending: seq<byte>, ghost chunk: seq<byte>,
          ghost lines: seq<seq<byte>>)
    returns (b: nat, texts: seq<seq<byte>>, ghost lines': seq<seq<byte>>)
    requires buffer.Length == SIZE && |pending| < LIMIT && sz <= LIMIT && buffer[..sz] == pending + chunk &&
      Cleaned(pending)
    modifies buffer
    ensures b < LIMIT && Run(State(pending, lines), chunk) == State(buffer[..b], lines') && Cleaned(buffer[..b])
    ensures Texts(lines') == Texts(lines) + texts
  {
    hide Texts, Text, FeedAll, Run, Cleaned;
    var a;
    ghost var more;
    a, texts, more := Scan(buffer, sz, pending, chunk);
    ghost var rest := buffer[a..sz];
    ReadRuns(pending, lines, chunk, rest, more);
    TextsJoin(lines, more);
    lines' := lines + more;
    if a == 0 && sz == LIMIT {
      buffer[sz] := 0;
      assert buffer[..sz] == rest;
      TextsJoin(lines', [rest]);
      OneText(rest);
      texts := texts + [Text(buffer[..sz])];
      lines' := lines' + [rest];
      b := 0;
      EmptyCleaned(buffer[..b]);
    } else {
      b := sz - a;
      MoveDown(buffer, a, b);
    }
  }

  // The reading loop; how much each read delivers is up to pick. What is
  // logged depends only on the stream.
  method Parent(stream: seq<byte>, pick: nat -> nat) returns (logged: seq<seq<byte>>)
    ensures logged == Texts(Split(stream))
  {
    hide Texts, Text, FeedAll, Run, Split, Cleaned;
    var buffer := new byte[SIZE];
    var b: nat, at: nat, round := 0, 0, 0;
    logged := [];
    ghost var lines := [];
    Begin();
    while at < |stream|
      invariant b < LIMIT && at <= |stream| && Cleaned(buffer[..b])
      invariant Run(State([], []), stream[..at]) == State(buffer[..b], lines) && logged == Texts(lines)
    {
      var most := if |stream| - at < LIMIT - b then |stream| - at else LIMIT - b;
      var n := 1 + pick(round) % most;
      ghost var pending, chunk := buffer[..b], stream[at..at + n];
      ReadInto(buffer, b, stream[at..at + n]);
      RunJoin(State([], []), stream[..at], chunk);
      assert stream[..at] + chunk == stream[..at + n];
      var texts;
      b, texts, lines := Turn(buffer, b + n, pending, chunk, lines);
      logged := logged + texts;
      at, round := at + n, round + 1;
    }
    assert stream[..at] == stream;
    RunSplits(stream, []);
    if b != 0 {
      ghost var rest := buffer[..b];
      TextsJoin(lines, [rest]);
      OneText(rest);
      buffer[b] := 0;
      assert buffer[..b] == rest;
      logged := logged + [Text(buffer[..b])];
    }
    assert [] + Split(stream) == Split(stream);
  }

  method ReadInto(buffer: array<byte>, b: nat, chunk: seq<byte>)
    requires b + |chunk| <= buffer.Length
    modifies buffer
    ensures buffer[..b + |chunk|] == old(buffer[..b]) + chunk
  {
    forall i | 0 <= i < |chunk| {
      buffer[b + i] := chunk[i];
    }
  }

  // memmove of the left-overs to the front.
  method MoveDown(buffer: array<byte>, a: nat, n: nat)
    requires a + n <= buffer.Length
    modifies buffer
    ensures buffer[..n] == old(buffer[a..a + n])
  {
    forall i | 0 <= i < n {
      buffer[i] := buffer[a + i];
    }
  }

  lemma Begin()
    ensures Run(State([], []), []) == State([], []) && Texts([]) == [] && Cleaned([])
  {
  }

  lemma OneText(s: seq<byte>)
    ensures Texts([s]) == [Text(s)]
  {
  }

  lemma EmptyCleaned(s: seq<byte>)
    requires s == []
    ensures Cleaned(s)
  {
  }
}
