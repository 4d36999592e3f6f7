// collectdir of jffs2reader, iteration by iteration: which dirents it reads, in
// which order, and exactly when it comes to an end.
module Jffs2Replay {
  import opened Jffs2Log
  import opened Jffs2Dir

  // The dirents of one directory in an image: ns lists the nodes in log order.
  datatype Log = Log(img: Image, ns: seq<nat>, ino: uint32) {
    ghost predicate Valid() {
      Layout(img, ns, 0) &&
      (forall j, k :: Ours(j) && Ours(k) && Version(j) == Version(k) ==> j == k) &&
      (forall k :: Ours(k) ==> Version(k) < NO_VERSION)
    }

    // Node k is a dirent of this directory that the reader can see: the scan
    // starts from version 0 and only takes higher versions.
    predicate Ours(k: nat) {
      k < |ns| && ns[k] < |img| && IsDirentOf(img[ns[k]], ino) && img[ns[k]].node.version > 0
    }

    function Version(k: nat): nat
      requires Ours(k)
    {
      img[ns[k]].node.version
    }

    ghost predicate Has(v: nat) {
      exists k :: Ours(k) && Version(k) == v
    }

    ghost function At(v: nat): (k: nat)
      requires Has(v)
      ensures Ours(k) && Version(k) == v
    {
      var k :| Ours(k) && Version(k) == v;
      k
    }

    ghost predicate IsMax(v: nat) {
      (v == 0 || Has(v)) && forall k :: Ours(k) ==> Version(k) <= v
    }

    function B(k: nat): nat
      requires k <= |ns| && Nodes(img, ns)
    {
      Bound(img, ns, 0, k)
    }

    // Nothing lies between the node before k, or the start of the image, and node k.
    predicate Flush(k: nat)
      requires k < |ns| && Nodes(img, ns)
    {
      B(k) == ns[k]
    }

    // The listing after the dirents of versions 1..v, in that order.
    ghost function ReplayTo(d: seq<Entry>, v: nat): seq<Entry> {
      if v == 0 then d
      else if Has(v) then PutDir(ReplayTo(d, v - 1), img[ns[At(v)]].node)
      else ReplayTo(d, v - 1)
    }

    lemma {:induction false} ReplayGap(d: seq<Entry>, u: nat, v: nat)
      requires u <= v && forall w :: u < w <= v ==> !Has(w)
      ensures ReplayTo(d, v) == ReplayTo(d, u)
      decreases v
    {
      if u < v { ReplayGap(d, u, v - 1); }
    }

    lemma ReplayNext(d: seq<Entry>, u: nat, k: nat)
      requires Valid() && Ours(k) && u < Version(k) && forall w :: u < w < Version(k) ==> !Has(w)
      ensures ReplayTo(d, Version(k)) == PutDir(ReplayTo(d, u), img[ns[k]].node)
    {
      ReplayGap(d, u, Version(k) - 1);
      assert Has(Version(k)) && At(Version(k)) == k;
    }
  }

  predicate IsDirentOf(c: Cell, ino: uint32) {
    c.Node? && c.node.Dirent? && c.node.pino == ino
  }

  // The locals of collectdir; vmin lives only inside the lap test.
  datatype Scan = Scan(n: nat, lr: nat, mp: nat, vmint: nat, vmaxt: nat, vmax: nat, vcur: nat, dir: seq<Entry>)

  function Init(d: seq<Entry>): Scan {
    Scan(0, 0, 0, NO_VERSION, 0, NO_VERSION, 0, d)
  }

  predicate Done(s: Scan) { !(s.vcur < s.vmax) }

  function Max(a: nat, b: nat): nat { if a < b then b else a }

  // The node at m is looked at.
  function Visit(img: Image, ino: uint32, s: Scan, m: nat): Scan
    requires m < |img|
  {
    if !IsDirentOf(img[m], ino) || img[m].node.version <= s.vcur then s
    else
      var v := img[m].node.version;
      if v == s.vcur + 1 then
        s.(vmaxt := Max(s.vmaxt, v), mp := if s.vmint > v then m else s.mp,
           dir := PutDir(s.dir, img[m].node), lr := m, vcur := v, vmint := NO_VERSION)
      else
        s.(vmaxt := Max(s.vmaxt, v), vmint := if s.vmint > v then v else s.vmint,
           mp := if s.vmint > v then m else s.mp)
  }

  function Advance(img: Image, ino: uint32, s: Scan): Scan {
    var m := if s.n <= |img| then Skip(img, s.n) else s.n;
    if m < |img| then Visit(img, ino, s, m).(n := End(img, m)) else s.(n := 0)
  }

  // A whole loop since the last read: take the lowest pending version. The
  // source reads mp without a test; MpThere shows it is then a dirent.
  function Lap(img: Image, s: Scan): Scan {
    if s.lr != s.n then s
    else
      var s' := s.(vmax := s.vmaxt, vmint := NO_VERSION);
      if s.vcur < s.vmaxt && s.vcur < s.vmint && s.mp < |img| && img[s.mp].Node? && img[s.mp].node.Dirent? then
        s'.(dir := PutDir(s.dir, img[s.mp].node), n := End(img, s.mp), lr := End(img, s.mp), vcur := s.vmint)
      else s'
  }

  // One iteration of the do-while loop.
  function Step(img: Image, ino: uint32, s: Scan): Scan {
    Lap(img, Advance(img, ino, s))
  }

  // The state after t iterations, or the final state if the loop ended earlier.
  function Run(img: Image, ino: uint32, s: Scan, t: nat): Scan
    decreases t
  {
    if t == 0 || Done(s) then s else Run(img, ino, Step(img, ino, s), t - 1)
  }

  // ---- one lap ------------------------------------------------------------

  // Where the current lap began: at the boundary before node k0, or, when node
  // j was read in passing, at node j itself, just before k0 == j + 1.
  ghost predicate Origin(l: Log, s: Scan, k0: nat, j: int)
    requires Nodes(l.img, l.ns)
  {
    k0 <= |l.ns| &&
    (j < 0 ==> s.lr == l.B(k0)) &&
    (j >= 0 ==> k0 == j + 1 && l.Ours(j) && l.Version(j) == s.vcur && s.lr == l.ns[j] &&
                (s.vcur == 1 || l.Has(s.vcur - 1)))
  }

  predicate Seen(k0: nat, k: nat, wrapped: bool, i: nat) {
    if wrapped then i >= k0 || i < k else k0 <= i < k
  }

  // What the lap has gathered from the nodes it has seen.
  ghost predicate Gathered(l: Log, s: Scan, k0: nat, k: nat, wrapped: bool) {
    forall i :: l.Ours(i) && Seen(k0, k, wrapped, i) && l.Version(i) > s.vcur ==>
      l.Version(i) != s.vcur + 1 && s.vmint <= l.Version(i) <= s.vmaxt
  }

  // mp is the dirent with the lowest version gathered.
  ghost predicate Pending(l: Log, s: Scan) {
    s.vmint == NO_VERSION ||
    exists i: nat :: l.Ours(i) && l.Version(i) == s.vmint && s.vmint > s.vcur && s.mp == l.ns[i]
  }

  // No version up to v is missing.
  ghost predicate Gapless(l: Log, v: nat) {
    forall u :: 1 <= u <= v ==> l.Has(u)
  }

  // What holds between any two iterations.
  ghost predicate Sound(l: Log, d: seq<Entry>, s: Scan) {
    l.Valid() && s.vcur < NO_VERSION && s.dir == l.ReplayTo(d, s.vcur) &&
    s.vcur <= s.vmaxt && (s.vmaxt == 0 || l.Has(s.vmaxt)) && (s.vcur == 0 || l.Has(s.vcur)) &&
    (s.vmax == NO_VERSION || l.IsMax(s.vmax)) && (s.vmax == NO_VERSION <==> Gapless(l, s.vcur)) && Pending(l, s)
  }

  ghost predicate Sweep(l: Log, d: seq<Entry>, s: Scan, k0: nat, j: int, k: nat, wrapped: bool) {
    Sound(l, d, s) && Origin(l, s, k0, j) && k <= |l.ns| && s.n == l.B(k) &&
    (wrapped ==> k <= (if j < 0 then k0 else j)) && (!wrapped ==> k0 <= k) && Gathered(l, s, k0, k, wrapped)
  }

  // A lap that has just begun.
  ghost predicate Begun(l: Log, d: seq<Entry>, s: Scan, j: int) {
    exists k0 :: Sweep(l, d, s, k0, j, k0, false) && s.vmint == NO_VERSION
  }

  lemma AdvanceAt(l: Log, s: Scan, k: nat)
    requires Layout(l.img, l.ns, 0) && k <= |l.ns| && s.n == l.B(k)
    ensures Nodes(l.img, l.ns)
    ensures k < |l.ns| ==> l.ns[k] < |l.img| && l.img[l.ns[k]].Node?
    ensures k < |l.ns| ==> Advance(l.img, l.ino, s) == Visit(l.img, l.ino, s, l.ns[k]).(n := l.B(k + 1))
    ensures k == |l.ns| ==> Advance(l.img, l.ino, s) == s.(n := 0)
  {
    hide Skip;
    assert Placed(l.img, l.ns, 0, k);
  }

  // Node k is not the next version: it is only gathered.
  lemma Pass(l: Log, d: seq<Entry>, s: Scan, k0: nat, j: int, k: nat, wrapped: bool)
    requires Sweep(l, d, s, k0, j, k, wrapped) && k < |l.ns|
    requires wrapped ==> k < if j < 0 then k0 else j
    requires !(l.Ours(k) && l.Version(k) == s.vcur + 1)
    ensures var s' := Advance(l.img, l.ino, s);
      Sweep(l, d, s', k0, j, k + 1, wrapped) && s'.vcur == s.vcur && s'.vmax == s.vmax
  {
    hide Skip, Log.ReplayTo, Layout, Log.B, Advance, Log.Has, Log.IsMax, Gapless;
    AdvanceAt(l, s, k);
    var s' := Visit(l.img, l.ino, s, l.ns[k]);
    if l.Ours(k) && l.Version(k) > s.vcur {
      HasIt(l, k);
    }
    forall i | l.Ours(i) && Seen(k0, k + 1, wrapped, i) && l.Version(i) > s.vcur
      ensures l.Version(i) != s.vcur + 1 && s'.vmint <= l.Version(i) <= s'.vmaxt
    {
      assert Seen(k0, k, wrapped, i) || i == k;
    }
  }

  lemma HasIt(l: Log, k: nat)
    requires l.Ours(k)
    ensures l.Has(l.Version(k))
  {
  }

  // Node k is the next version: it is replayed and a new lap begins at it.
  lemma Take(l: Log, d: seq<Entry>, s: Scan, k0: nat, j: int, k: nat, wrapped: bool)
    requires Sweep(l, d, s, k0, j, k, wrapped) && k < |l.ns| && l.Ours(k) && l.Version(k) == s.vcur + 1
    ensures var s' := Step(l.img, l.ino, s);
      Sweep(l, d, s', k + 1, k, k + 1, false) && s'.vmint == NO_VERSION && s'.vcur == s.vcur + 1 && s'.vmax == s.vmax
  {
    hide Skip, Layout, Log.B, Advance, Log.IsMax, Gathered;
    AdvanceAt(l, s, k);
    BoundsApart(l, k);
    HasIt(l, k);
    l.ReplayNext(d, s.vcur, k);
    var s' := Visit(l.img, l.ino, s, l.ns[k]).(n := l.B(k + 1));
    assert Step(l.img, l.ino, s) == s';
    NothingSeen(l, s', k + 1);
    assert Gapless(l, s'.vcur) <==> Gapless(l, s.vcur);
  }

  lemma NothingSeen(l: Log, s: Scan, k0: nat)
    ensures Gathered(l, s, k0, k0, false)
  {
  }

  lemma BoundsApart(l: Log, j: nat)
    requires Layout(l.img, l.ns, 0) && j < |l.ns|
    ensures l.B(j) <= l.ns[j]
    ensures forall k :: j < k <= |l.ns| ==> l.ns[j] < l.B(k)
    ensures forall k :: 0 <= k <= j ==> l.B(k) <= l.B(j) && (k < j ==> l.B(k) < l.B(j))
  {
    forall k | j < k <= |l.ns| ensures l.ns[j] < l.B(k) {
      BoundsIncrease(l.img, l.ns, 0, j, k);
    }
    forall k | 0 <= k < j ensures l.B(k) < l.B(j) {
      BoundsIncrease(l.img, l.ns, 0, k, j);
    }
    BoundsIncrease(l.img, l.ns, 0, j, j + 1);
  }

  // v is the lowest version above u.
  ghost predicate NextUp(l: Log, u: nat, v: nat) {
    u < v && l.Has(v) && forall w :: u < w < v ==> !l.Has(w)
  }

  // The lap ends and everything is read.
  lemma CloseLast(l: Log, d: seq<Entry>, s: Scan, k0: nat, j: int, k: nat, wrapped: bool)
    requires Sweep(l, d, s, k0, j, k, wrapped) && s.lr == s.n && l.IsMax(s.vcur)
    requires forall i :: l.Ours(i) && l.Version(i) > s.vcur ==> Seen(k0, k, wrapped, i)
    ensures var s' := Lap(l.img, s); Done(s') && s'.vcur == s.vcur && s'.dir == s.dir
  {
    hide Log.B, Layout, Skip, Log.ReplayTo, Gapless, Origin;
    MaxSeen(l, s, k0, k, wrapped);
  }

  // The lap ends with no next version in sight: the lowest pending version is
  // taken and a new lap begins behind it.
  lemma CloseGap(l: Log, d: seq<Entry>, s: Scan, k0: nat, j: int, k: nat, wrapped: bool)
    requires Sweep(l, d, s, k0, j, k, wrapped) && s.lr == s.n && !l.IsMax(s.vcur)
    requires forall i :: l.Ours(i) && l.Version(i) > s.vcur ==> Seen(k0, k, wrapped, i)
    ensures var s' := Lap(l.img, s); NextUp(l, s.vcur, s'.vcur) && Begun(l, d, s', -1) && l.IsMax(s'.vmax)
  {
    hide Log.B, Layout, Skip, Log.ReplayTo, Gathered, Log.Has, Seen, Log.IsMax;
    MaxSeen(l, s, k0, k, wrapped);
    var i: nat :| l.Ours(i) && l.Version(i) == s.vmint && s.vmint > s.vcur && s.mp == l.ns[i];
    HasIt(l, i);
    BoundAfter(l, i);
    assert NextUp(l, s.vcur, s.vmint);
    l.ReplayNext(d, s.vcur, i);
    var s' := Lap(l.img, s);
    NothingSeen(l, s', i + 1);
    GapBelow(l, s.vcur, s.vmint);
    assert s'.lr == s'.n == l.B(i + 1) && s'.vmint == NO_VERSION;
    assert Sound(l, d, s');
    assert Sweep(l, d, s', i + 1, -1, i + 1, false);
  }

  lemma GapBelow(l: Log, u: nat, v: nat)
    requires NextUp(l, u, v) && !l.Has(u + 1)
    ensures !Gapless(l, v)
  {
  }

  lemma BoundAfter(l: Log, i: nat)
    requires l.Valid() && l.Ours(i)
    ensures Nodes(l.img, l.ns) && l.B(i + 1) == End(l.img, l.ns[i]) && l.Version(i) < NO_VERSION
  {
  }

  lemma MaxSeen(l: Log, s: Scan, k0: nat, k: nat, wrapped: bool)
    requires l.Valid() && s.vcur <= s.vmaxt && (s.vmaxt == 0 || l.Has(s.vmaxt)) && Gathered(l, s, k0, k, wrapped) &&
      Pending(l, s)
    requires forall i :: l.Ours(i) && l.Version(i) > s.vcur ==> Seen(k0, k, wrapped, i)
    ensures s.vmaxt < NO_VERSION && l.IsMax(s.vmaxt) && !l.Has(s.vcur + 1)
    ensures forall w :: s.vcur < w < s.vmint ==> !l.Has(w)
    ensures l.IsMax(s.vcur) ==> s.vmaxt == s.vcur
    ensures !l.IsMax(s.vcur) ==> s.vcur < s.vmaxt && s.vcur < s.vmint <= s.vmaxt
  {
  }

  function Target(k0: nat, j: int): nat { if j < 0 then k0 else j }

  // The lap that began at node j, or at a boundary, can be seen to close.
  predicate Detectable(l: Log, j: int)
    requires j < |l.ns| && Nodes(l.img, l.ns)
  {
    j < 0 || l.Flush(j)
  }

  // n meets lr only when every pending node of the lap has been seen.
  lemma Landing(l: Log, d: seq<Entry>, s: Scan, k0: nat, j: int, k: nat, wrapped: bool)
    requires Sweep(l, d, s, k0, j, k, wrapped) && (!wrapped ==> k0 < k)
    ensures s.n == s.lr ==> wrapped && k == Target(k0, j)
    ensures wrapped && k == Target(k0, j) ==>
      forall i :: l.Ours(i) && l.Version(i) > s.vcur ==> Seen(k0, k, wrapped, i)
    ensures wrapped && k == Target(k0, j) && (Detectable(l, j) || l.Has(s.vcur + 1)) ==> s.n == s.lr
  {
    hide Log.ReplayTo, Layout, Skip, Log.IsMax, Gapless, Pending;
    if j >= 0 {
      BoundsApart(l, j);
    } else {
      if k0 < |l.ns| { BoundsApart(l, k0); }
      if k < |l.ns| { BoundsApart(l, k); }
    }
  }

  // What the lap that begins in a state with version c leads to.
  ghost predicate LapEnds(l: Log, d: seq<Entry>, c: nat, s: Scan) {
    if l.Has(c + 1) then s.vcur == c + 1 && exists j: nat :: Begun(l, d, s, j)
    else if l.IsMax(c) then Done(s) && s.vcur == c && s.dir == l.ReplayTo(d, c)
    else NextUp(l, c, s.vcur) && Begun(l, d, s, -1)
  }

  // One node, or the jump back to the start, that is not the next version.
  lemma Onward(l: Log, d: seq<Entry>, s: Scan, k0: nat, j: int, k: nat, wrapped: bool)
    returns (k': nat, wrapped': bool)
    requires Sweep(l, d, s, k0, j, k, wrapped) && (wrapped ==> k < Target(k0, j))
    requires k < |l.ns| ==> !(l.Ours(k) && l.Version(k) == s.vcur + 1)
    ensures var s' := Advance(l.img, l.ino, s);
      Sweep(l, d, s', k0, j, k', wrapped') && (!wrapped' ==> k0 < k') && s'.vcur == s.vcur && s'.vmax == s.vmax
    ensures (k', wrapped') == if k < |l.ns| then (k + 1, wrapped) else (0, true)
  {
    hide Log.ReplayTo, Layout, Skip, Log.IsMax, Gapless;
    if k < |l.ns| {
      Pass(l, d, s, k0, j, k, wrapped);
      k', wrapped' := k + 1, wrapped;
    } else {
      AdvanceAt(l, s, k);
      k', wrapped' := 0, true;
    }
  }

  function NodesToGo(l: Log, k0: nat, j: int, k: nat, wrapped: bool): int {
    if wrapped then Target(k0, j) - k else |l.ns| - k + 1 + k0
  }

  lemma {:induction false} Walk(l: Log, d: seq<Entry>, s: Scan, k0: nat, j: int, k: nat, wrapped: bool)
    returns (t: nat)
    requires Sweep(l, d, s, k0, j, k, wrapped) && !Done(s) && (wrapped ==> k < Target(k0, j))
    requires Detectable(l, j) || l.Has(s.vcur + 1)
    ensures LapEnds(l, d, s.vcur, Run(l.img, l.ino, s, t))
    decreases NodesToGo(l, k0, j, k, wrapped)
  {
    hide Sweep, Log.ReplayTo, Log.Has, Log.IsMax, Advance, Lap, Begun, NextUp, Log.Valid, LapEnds;
    SweepRange(l, d, s, k0, j, k, wrapped);
    if k < |l.ns| && l.Ours(k) && l.Version(k) == s.vcur + 1 {
      t := 1;
      TakeEnds(l, d, s, k0, j, k, wrapped);
      assert Run(l.img, l.ino, s, 1) == Step(l.img, l.ino, s);
    } else {
      var s' := Advance(l.img, l.ino, s);
      var k', wrapped' := Onward(l, d, s, k0, j, k, wrapped);
      Landing(l, d, s', k0, j, k', wrapped');
      if s'.n == s'.lr {
        t := 1;
        CloseEnds(l, d, s', k0, j, k', wrapped');
        assert Run(l.img, l.ino, s, 1) == Step(l.img, l.ino, s);
      } else {
        NoLap(l.img, s');
        SweepRange(l, d, s', k0, j, k', wrapped');
        var rest := Walk(l, d, s', k0, j, k', wrapped');
        t := rest + 1;
      }
    }
  }

  lemma NoLap(img: Image, s: Scan)
    requires s.n != s.lr
    ensures Lap(img, s) == s
  {
  }

  lemma SweepRange(l: Log, d: seq<Entry>, s: Scan, k0: nat, j: int, k: nat, wrapped: bool)
    requires Sweep(l, d, s, k0, j, k, wrapped)
    ensures k <= |l.ns| && k0 <= |l.ns| && (wrapped ==> k <= Target(k0, j)) && j < |l.ns| && j <= k0
  {
  }

  lemma TakeEnds(l: Log, d: seq<Entry>, s: Scan, k0: nat, j: int, k: nat, wrapped: bool)
    requires Sweep(l, d, s, k0, j, k, wrapped) && k < |l.ns| && l.Ours(k) && l.Version(k) == s.vcur + 1
    ensures LapEnds(l, d, s.vcur, Step(l.img, l.ino, s))
  {
    hide Sweep, Log.ReplayTo;
    Take(l, d, s, k0, j, k, wrapped);
    HasIt(l, k);
    var j': nat := k;
    assert Begun(l, d, Step(l.img, l.ino, s), j');
  }

  lemma CloseEnds(l: Log, d: seq<Entry>, s: Scan, k0: nat, j: int, k: nat, wrapped: bool)
    requires Sweep(l, d, s, k0, j, k, wrapped) && s.n == s.lr
    requires forall i :: l.Ours(i) && l.Version(i) > s.vcur ==> Seen(k0, k, wrapped, i)
    ensures LapEnds(l, d, s.vcur, Lap(l.img, s))
  {
    hide Log.ReplayTo, Lap, Begun, NextUp, Gathered, Log.IsMax, Log.Has, Pending;
    MaxSeen(l, s, k0, k, wrapped);
    if l.IsMax(s.vcur) {
      CloseLast(l, d, s, k0, j, k, wrapped);
    } else {
      CloseGap(l, d, s, k0, j, k, wrapped);
    }
  }

  // ---- the whole run ------------------------------------------------------

  lemma {:induction false} RunOn(img: Image, ino: uint32, s: Scan, a: nat, b: nat)
    ensures Run(img, ino, Run(img, ino, s, a), b) == Run(img, ino, s, a + b)
    decreases a
  {
    hide Step;
    if a > 0 && !Done(s) {
      RunOn(img, ino, Step(img, ino, s), a - 1, b);
    }
  }

  // A version the scan cannot get past. Version w ends a run of consecutive
  // versions and was read in passing, its dirent has a gap in front of it, so n
  // never lands on it again, and the highest version is not known to be w: no
  // earlier lap was closed.
  ghost predicate Trap(l: Log, w: nat)
    requires Nodes(l.img, l.ns)
  {
    l.Has(w) && !l.Has(w + 1) && (w == 1 || l.Has(w - 1)) && !l.Flush(l.At(w)) && (l.IsMax(w) ==> Gapless(l, w))
  }

  // Read to the end: the listing reflects every version.
  ghost predicate ReadAll(l: Log, d: seq<Entry>, s: Scan) {
    Done(s) && l.IsMax(s.vcur) && s.dir == l.ReplayTo(d, s.vcur)
  }

  // Behind a trap.
  ghost predicate Stuck(l: Log, s: Scan, w: nat) {
    l.Valid() && l.Has(w) && !l.Has(w + 1) && !l.Flush(l.At(w)) &&
    s.vcur == w < s.vmax && s.lr == l.ns[l.At(w)] && exists k: nat :: k <= |l.ns| && s.n == l.B(k)
  }

  lemma InitBegun(l: Log, d: seq<Entry>)
    requires l.Valid()
    ensures Begun(l, d, Init(d), -1)
  {
    NothingSeen(l, Init(d), 0);
    assert Sweep(l, d, Init(d), 0, -1, 0, false);
  }

  lemma StartDone(l: Log, d: seq<Entry>, s: Scan, k0: nat, j: int)
    requires Sweep(l, d, s, k0, j, k0, false) && Done(s)
    ensures Nodes(l.img, l.ns) && ReadAll(l, d, s) && !Trap(l, s.vcur)
  {
    hide Log.ReplayTo, Layout, Gathered, Pending, Skip, Gapless, Log.Flush;
    ValidNodes(l);
  }

  lemma StartStuck(l: Log, d: seq<Entry>, s: Scan, k0: nat, j: int)
    requires Sweep(l, d, s, k0, j, k0, false) && !Done(s) && !l.Has(s.vcur + 1) && !Detectable(l, j)
    ensures Trap(l, s.vcur) && Stuck(l, s, s.vcur)
  {
    hide Log.ReplayTo, Layout, Gathered, Pending, Skip;
    HasIt(l, j);
    assert l.At(s.vcur) == j;
    ValidNodes(l);
    var k: nat := k0;
    assert k <= |l.ns| && s.n == l.B(k);
  }

  lemma StartFree(l: Log, d: seq<Entry>, s: Scan, k0: nat, j: int)
    requires Sweep(l, d, s, k0, j, k0, false) && j >= 0 && (l.Has(s.vcur + 1) || Detectable(l, j))
    ensures Nodes(l.img, l.ns) && !Trap(l, s.vcur)
  {
    hide Log.ReplayTo, Layout, Gathered, Pending, Skip, Gapless, Log.IsMax;
    HasIt(l, j);
    ValidNodes(l);
    assert l.At(s.vcur) == j;
  }

  // At the start of a lap: done, stuck for good, or the lap leads on.
  lemma AtLapStart(l: Log, d: seq<Entry>, s: Scan, j: int) returns (t: nat, stuck: bool)
    requires Begun(l, d, s, j)
    ensures Nodes(l.img, l.ns)
    ensures Done(s) ==> ReadAll(l, d, s) && !Trap(l, s.vcur)
    ensures !Done(s) && !stuck ==> LapEnds(l, d, s.vcur, Run(l.img, l.ino, s, t)) && (j >= 0 ==> !Trap(l, s.vcur))
    ensures !Done(s) && stuck ==> Trap(l, s.vcur) && Stuck(l, s, s.vcur)
    ensures s.dir == l.ReplayTo(d, s.vcur) && s.vcur < NO_VERSION
  {
    hide Log.ReplayTo, Skip, Layout, LapEnds, Pending, Gathered, Gapless, Origin, Log.IsMax, Trap, Stuck, Log.Flush;
    t, stuck := 0, false;
    var k0 :| Sweep(l, d, s, k0, j, k0, false) && s.vmint == NO_VERSION;
    ValidNodes(l);
    SweepRange(l, d, s, k0, j, k0, false);
    if Done(s) {
      StartDone(l, d, s, k0, j);
    } else if l.Has(s.vcur + 1) || Detectable(l, j) {
      t := Walk(l, d, s, k0, j, k0, false);
      if j >= 0 { StartFree(l, d, s, k0, j); }
    } else {
      stuck := true;
      StartStuck(l, d, s, k0, j);
    }
  }

  lemma ValidNodes(l: Log)
    requires l.Valid()
    ensures Nodes(l.img, l.ns)
  {
  }

  // Either everything is read in the end, or the scan runs into a trap.
  lemma {:induction false} Outcome(l: Log, d: seq<Entry>, s: Scan, j: int) returns (t: nat, stuck: bool)
    requires Begun(l, d, s, j)
    ensures Nodes(l.img, l.ns)
    ensures var f := Run(l.img, l.ino, s, t);
      if stuck then Trap(l, f.vcur) && Stuck(l, f, f.vcur) else ReadAll(l, d, f)
    ensures !stuck ==> forall w :: w > s.vcur || (w == s.vcur && j >= 0) ==> !Trap(l, w)
    decreases NO_VERSION - s.vcur
  {
    hide Begun, Stuck, Log.Flush, Run, Step, Log.Valid;
    t, stuck := AtLapStart(l, d, s, j);
    if Done(s) {
      stuck := false;
      t := 0;
      RunZero(l.img, l.ino, s);
      NoneAbove(l, s.vcur);
    } else if stuck {
      t := 0;
      RunZero(l.img, l.ino, s);
    } else {
      var s' := Run(l.img, l.ino, s, t);
      if l.Has(s.vcur + 1) {
        var j': nat :| Begun(l, d, s', j');
        var rest;
        rest, stuck := Outcome(l, d, s', j');
        RunOn(l.img, l.ino, s, t, rest);
        t := t + rest;
      } else if l.IsMax(s.vcur) {
        stuck := false;
        NoneAbove(l, s.vcur);
      } else {
        var rest;
        rest, stuck := Outcome(l, d, s', -1);
        RunOn(l.img, l.ino, s, t, rest);
        t := t + rest;
        assert !Trap(l, s'.vcur);
      }
    }
  }

  lemma RunZero(img: Image, ino: uint32, s: Scan)
    ensures Run(img, ino, s, 0) == s
  {
  }

  lemma NoneAbove(l: Log, v: nat)
    requires l.IsMax(v)
    ensures forall w :: w > v ==> !l.Has(w)
  {
  }

  // Behind a trap no next version comes and no lap is ever seen to close.
  lemma StuckStep(l: Log, s: Scan, w: nat)
    requires Stuck(l, s, w)
    ensures Stuck(l, Step(l.img, l.ino, s), w) && !Done(s)
  {
    hide Skip, Layout, Advance;
    ValidNodes(l);
    var k: nat :| k <= |l.ns| && s.n == l.B(k);
    AdvanceAt(l, s, k);
    var j := l.At(w);
    BoundsApart(l, j);
    var k': nat := if k < |l.ns| then k + 1 else 0;
    NeverOn(l, j, k');
    if k < |l.ns| && l.Ours(k) { HasIt(l, k); }
    assert Advance(l.img, l.ino, s).n == l.B(k');
  }

  lemma NeverOn(l: Log, j: nat, k: nat)
    requires Layout(l.img, l.ns, 0) && j < |l.ns| && !l.Flush(j) && k <= |l.ns|
    ensures l.B(k) != l.ns[j]
  {
    BoundsApart(l, j);
  }

  lemma {:induction false} StuckForever(l: Log, s: Scan, w: nat, t: nat)
    requires Stuck(l, s, w)
    ensures !Done(Run(l.img, l.ino, s, t))
    decreases t
  {
    hide Stuck, Step;
    StuckStep(l, s, w);
    if t > 0 { StuckForever(l, Step(l.img, l.ino, s), w, t - 1); }
  }

  lemma {:induction false} DoneStays(img: Image, ino: uint32, s: Scan, t: nat, u: nat)
    requires Done(Run(img, ino, s, t)) && t <= u
    ensures Run(img, ino, s, u) == Run(img, ino, s, t)
    decreases t
  {
    hide Step;
    if t > 0 && !Done(s) { DoneStays(img, ino, Step(img, ino, s), t - 1, u - 1); }
  }

  // collectdir comes to an end if and only if there is no trap, and then the
  // listing is every dirent of the directory in ascending version order.
  lemma EndsIffNoTrap(l: Log, d: seq<Entry>) returns (t: nat)
    requires l.Valid()
    ensures Nodes(l.img, l.ns)
    ensures (forall w :: !Trap(l, w)) ==> ReadAll(l, d, Run(l.img, l.ino, Init(d), t))
    ensures (exists w :: Trap(l, w)) ==> forall u :: !Done(Run(l.img, l.ino, Init(d), u))
  {
    hide Stuck, Run, Step, Trap, Begun, Log.Valid;
    InitBegun(l, d);
    var stuck;
    t, stuck := Outcome(l, d, Init(d), -1);
    TrapAboveZero(l);
    if stuck {
      forall u: nat
        ensures !Done(Run(l.img, l.ino, Init(d), u))
      {
        var f := Run(l.img, l.ino, Init(d), t);
        if u <= t {
          if Done(Run(l.img, l.ino, Init(d), u)) {
            DoneStays(l.img, l.ino, Init(d), u, t);
            StuckForever(l, f, f.vcur, 0);
            RunZero(l.img, l.ino, f);
          }
        } else {
          StuckForever(l, f, f.vcur, u - t);
          RunOn(l.img, l.ino, Init(d), t, u - t);
        }
      }
    }
  }

  lemma TrapAboveZero(l: Log)
    requires Nodes(l.img, l.ns)
    ensures !Trap(l, 0)
  {
  }

  // In every state of every run n is on a boundary, and mp is a dirent of this
  // directory as soon as any version was gathered.
  ghost predicate Based(l: Log, s: Scan) {
    Nodes(l.img, l.ns) && (exists k: nat :: k <= |l.ns| && s.n == l.B(k)) &&
    (s.vmint < NO_VERSION || s.vmaxt > 0 ==> exists i: nat :: l.Ours(i) && s.mp == l.ns[i])
  }

  lemma MpThere(l: Log, s: Scan)
    requires l.Valid() && Based(l, s)
    ensures var s' := Advance(l.img, l.ino, s);
      s'.vmaxt > 0 ==> s'.mp < |l.img| && IsDirentOf(l.img[s'.mp], l.ino)
    ensures Based(l, Advance(l.img, l.ino, s)) && Based(l, Step(l.img, l.ino, s))
  {
    hide Skip, Layout, Advance, Log.B;
    ValidNodes(l);
    var k: nat :| k <= |l.ns| && s.n == l.B(k);
    AdvanceAt(l, s, k);
    var s' := Advance(l.img, l.ino, s);
    if k < |l.ns| {
      assert s'.n == l.B(k + 1);
      BasedVisit(l, s, k);
    } else {
      ZeroBound(l);
    }
    if s'.vmaxt > 0 {
      var i: nat :| l.Ours(i) && s'.mp == l.ns[i];
      BoundAfter(l, i);
    }
  }

  lemma BasedVisit(l: Log, s: Scan, k: nat)
    requires l.Valid() && Based(l, s) && k < |l.ns|
    ensures var v := Visit(l.img, l.ino, s, l.ns[k]);
      v.vmint < NO_VERSION || v.vmaxt > 0 ==> exists i: nat :: l.Ours(i) && v.mp == l.ns[i]
  {
    if l.Ours(k) { BoundAfter(l, k); }
  }

  lemma ZeroBound(l: Log)
    requires l.Valid()
    ensures Nodes(l.img, l.ns) && l.B(0) == 0
  {
  }
}
