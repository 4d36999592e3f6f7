// iatomic.h: one writer and a reader that finds out afterwards whether what it
// read belongs together.
module SeqCounter {
  const WRAP: nat := 0x1_0000_0000 // the counters are unsigned int

  type counter = x: int | 0 <= x < WRAP

  // A read in progress: how many sections had ended when it began, and of
  // which version the fields are that were read so far.
  datatype Reading = Reading(from: nat, got: map<nat, nat>)

  // How many sections have begun and ended, the version of each field that is
  // written in them, and the read in progress.
  datatype State = State(begun: nat, ended: nat, fields: seq<nat>, reading: Reading)

  datatype Step = StepWriteBegin | StepWriteField(i: nat) | StepWriteEnd | StepReadField(j: nat)

  // The single writer keeps to the order of its sections; a step that is not
  // possible leaves the state as it is.
  function Next(s: State, step: Step): State {
    match step
    case StepWriteBegin => if s.begun == s.ended then s.(begun := s.begun + 1) else s
    case StepWriteField(i) => if s.begun > s.ended && i < |s.fields| then s.(fields := s.fields[i := s.begun]) else s
    case StepWriteEnd => if s.begun > s.ended && AllWritten(s) then s.(ended := s.begun) else s
    case StepReadField(j) =>
      if j < |s.fields| then s.(reading := s.reading.(got := s.reading.got[j := s.fields[j]])) else s
  }

  predicate AllWritten(s: State) {
    forall i :: 0 <= i < |s.fields| ==> s.fields[i] == s.begun
  }

  function Run(s: State, steps: seq<Step>): State {
    if steps == [] then s else Next(Run(s, steps[..|steps| - 1]), steps[|steps| - 1])
  }

  function StartRead(s: State): State {
    s.(reading := Reading(s.ended, map[]))
  }

  // The comparison of the two counters as they are stored.
  predicate Passes(s: State) {
    s.reading.from % WRAP == s.begun % WRAP
  }

  // snd_atomic_write_t, and what it shows of the sections written so far.
  class AtomicWrite {
    var begin: counter
    var end: counter

    ghost predicate Shows(s: State)
      reads this
    {
      begin == s.begun % WRAP && end == s.ended % WRAP
    }

    method Init(ghost s: State)
      requires s.begun == s.ended == 0
      modifies this
      ensures Shows(s)
    {
      begin, end := 0, 0;
    }

    method WriteBegin(ghost s: State)
      requires Shows(s) && s.begun == s.ended
      modifies this`begin
      ensures Shows(Next(s, StepWriteBegin))
    {
      CountersFollow(s.begun);
      begin := (begin + 1) % WRAP;
    }

    method WriteEnd(ghost s: State)
      requires Shows(s) && s.begun == s.ended + 1 && AllWritten(s)
      modifies this`end
      ensures Shows(Next(s, StepWriteEnd))
    {
      CountersFollow(s.ended);
      end := (end + 1) % WRAP;
    }
  }

  // snd_atomic_read_t.
  class AtomicRead {
    const write: AtomicWrite
    var end: counter

    constructor (w: AtomicWrite)
      ensures write == w
    {
      write := w;
    }

    method ReadBegin(ghost s: State)
      requires write.Shows(s)
      modifies this`end
      ensures end == StartRead(s).reading.from % WRAP
    {
      end := write.end;
    }

    method ReadOk(ghost s: State) returns (ok: bool)
      requires write.Shows(s) && end == s.reading.from % WRAP
      ensures ok == Passes(s)
    {
      ok := end == write.begin;
    }
  }

  ghost predicate Inv(s: State) {
    s.ended <= s.begun <= s.ended + 1 && s.reading.from <= s.ended &&
    (forall i :: 0 <= i < |s.fields| ==> s.ended <= s.fields[i] <= s.begun) &&
    (forall j :: j in s.reading.got ==> s.reading.from <= s.reading.got[j] <= s.begun)
  }

  lemma {:induction false} RunKeepsInv(s: State, steps: seq<Step>)
    requires Inv(s)
    ensures Inv(Run(s, steps)) && Run(s, steps).reading.from == s.reading.from
    ensures s.begun <= Run(s, steps).begun && s.ended <= Run(s, steps).ended
  {
    if steps != [] { RunKeepsInv(s, steps[..|steps| - 1]); }
  }

  lemma {:induction false} RunJoin(s: State, a: seq<Step>, b: seq<Step>)
    ensures Run(s, a + b) == Run(Run(s, a), b)
  {
    if b == [] {
      assert a + b == a;
    } else {
      assert (a + b)[..|a + b| - 1] == a + b[..|b| - 1];
      RunJoin(s, a, b[..|b| - 1]);
    }
  }

  lemma SameRemainder(a: nat, b: nat)
    requires a <= b
    ensures a % WRAP == b % WRAP <==> (b - a) % WRAP == 0
  {
  }

  // The check succeeds exactly if a whole number of times 2^32 sections have
  // begun since the last one that had ended at the beginning of the read.
  lemma ReadOkExactly(s: State, steps: seq<Step>)
    requires Inv(s)
    ensures var t := Run(StartRead(s), steps); t.begun >= s.ended && (Passes(t) <==> (t.begun - s.ended) % WRAP == 0)
  {
    RunKeepsInv(StartRead(s), steps);
    SameRemainder(s.ended, Run(StartRead(s), steps).begun);
  }

  // With fewer sections than that, a check that succeeds means that the writer
  // was outside its sections all the time, and that every field read is of the
  // version that was complete at the beginning.
  lemma ReadIsConsistent(s: State, steps: seq<Step>, n: nat)
    requires Inv(s) && n <= |steps|
    requires var t := Run(StartRead(s), steps); t.begun - s.ended < WRAP && Passes(t)
    ensures var u := Run(StartRead(s), steps[..n]); u.begun == u.ended == s.ended
    ensures forall j :: j in Run(StartRead(s), steps).reading.got ==> Run(StartRead(s), steps).reading.got[j] == s.ended
  {
    hide Run, Next, Inv;
    var r := StartRead(s);
    BeginKeepsInv(s);
    ReadOkExactly(s, steps);
    SmallMultiple(Run(r, steps).begun - s.ended);
    RunKeepsInv(r, steps);
    RunKeepsInv(r, steps[..n]);
    RunJoin(r, steps[..n], steps[n..]);
    assert steps[..n] + steps[n..] == steps;
    RunKeepsInv(Run(r, steps[..n]), steps[n..]);
    Undisturbed(Run(r, steps[..n]));
    Undisturbed(Run(r, steps));
  }

  lemma BeginKeepsInv(s: State)
    requires Inv(s)
    ensures Inv(StartRead(s))
  {
  }

  lemma SmallMultiple(n: nat)
    requires n % WRAP == 0 && n < WRAP
    ensures n == 0
  {
  }

  lemma Undisturbed(t: State)
    requires Inv(t)
    ensures t.reading.from <= t.ended <= t.begun
    ensures t.begun == t.reading.from ==> forall j :: j in t.reading.got ==> t.reading.got[j] == t.reading.from
  {
  }

  // The stored counters are the numbers of sections, as far as they fit.
  lemma CountersFollow(n: nat)
    ensures (n % WRAP + 1) % WRAP == (n + 1) % WRAP
  {
  }

  // A read during which no section is open succeeds.
  lemma UndisturbedSucceeds(s: State, steps: seq<Step>)
    requires Inv(s) && Run(StartRead(s), steps).begun == s.ended
    ensures Passes(Run(StartRead(s), steps))
  {
    ReadOkExactly(s, steps);
  }

  function Sections(n: nat): seq<Step> {
    if n == 0 then []
    else Sections(n - 1) + [StepWriteBegin] + [StepWriteField(0)] + [StepWriteField(1)] + [StepWriteEnd]
  }

  lemma RunOne(s: State, steps: seq<Step>, step: Step)
    ensures Run(s, steps + [step]) == Next(Run(s, steps), step)
  {
    assert (steps + [step])[..|steps|] == steps;
  }

  // The steps of one section.
  function Section(s: State): State {
    Next(Next(Next(Next(s, StepWriteBegin), StepWriteField(0)), StepWriteField(1)), StepWriteEnd)
  }

  lemma SectionRuns(s: State, steps: seq<Step>)
    ensures Run(s, steps + [StepWriteBegin] + [StepWriteField(0)] + [StepWriteField(1)] + [StepWriteEnd]) ==
      Section(Run(s, steps))
  {
    hide Run, Next;
    RunOne(s, steps, StepWriteBegin);
    RunOne(s, steps + [StepWriteBegin], StepWriteField(0));
    RunOne(s, steps + [StepWriteBegin] + [StepWriteField(0)], StepWriteField(1));
    RunOne(s, steps + [StepWriteBegin] + [StepWriteField(0)] + [StepWriteField(1)], StepWriteEnd);
  }

  lemma {:induction false} ManySections(s: State, n: nat)
    requires s.begun == s.ended && s.fields == [s.begun, s.begun]
    ensures Run(s, Sections(n)) == s.(begun := s.begun + n, ended := s.begun + n, fields := [s.begun + n, s.begun + n])
  {
    hide Run, Section;
    if n > 0 {
      ManySections(s, n - 1);
      SectionRuns(s, Sections(n - 1));
      OneSection(Run(s, Sections(n - 1)));
    } else {
      RunNone(s);
    }
  }

  lemma OneSection(s: State)
    requires s.begun == s.ended && s.fields == [s.begun, s.begun]
    ensures var v := s.begun + 1; Section(s) == s.(begun := v, ended := v, fields := [v, v])
  {
    var v := s.begun + 1;
    assert s.fields[0 := v][1 := v] == [v, v];
  }

  // With n sections between two fields the check succeeds exactly if n is a
  // multiple of 2^32: then it goes unnoticed that the fields do not belong
  // together.
  lemma SplitReads(n: nat)
    ensures var s := State(0, 0, [0, 0], Reading(0, map[]));
      var t := Run(StartRead(s), [StepReadField(0)] + Sections(n) + [StepReadField(1)]);
      Inv(s) && t.reading.got == map[0 := 0, 1 := n] && (Passes(t) <==> n % WRAP == 0)
  {
    hide Run, Sections;
    var s := State(0, 0, [0, 0], Reading(0, map[]));
    var none: seq<Step> := [];
    RunNone(StartRead(s));
    RunOne(StartRead(s), none, StepReadField(0));
    assert none + [StepReadField(0)] == [StepReadField(0)];
    var r := Run(StartRead(s), [StepReadField(0)]);
    ManySections(r, n);
    RunJoin(StartRead(s), [StepReadField(0)], Sections(n));
    RunOne(StartRead(s), [StepReadField(0)] + Sections(n), StepReadField(1));
    assert map[0 := 0][1 := n] == map[0 := 0, 1 := n];
  }

  lemma RunNone(s: State)
    ensures Run(s, []) == s
  {
  }
}
