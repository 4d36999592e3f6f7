// The directory reader of jffs2reader: listing and lookup by name.
module Jffs2Reader {
  import opened Basics
  import opened Jffs2Log
  import opened Jffs2Dir
  import opened Jffs2Replay

  function LogOf(img: Image, ino: uint32): Log
    requires Parses(img, 0)
  {
    Log(img, Starts(img, 0), ino)
  }

  // Every node lies in the image; the versions in this directory are distinct
  // and below 0xffffffff.
  ghost predicate WellFormed(img: Image, ino: uint32) {
    Parses(img, 0) && LogOf(img, ino).Valid()
  }

  // collectdir returns, on this image, for this directory.
  ghost predicate Returns(img: Image, ino: uint32)
    requires WellFormed(img, ino)
  {
    ValidNodes(LogOf(img, ino));
    forall w :: !Trap(LogOf(img, ino), w)
  }

  // The listing that replays every version in ascending order.
  ghost predicate Listing(img: Image, ino: uint32, d: seq<Entry>, r: seq<Entry>)
    requires Parses(img, 0)
  {
    exists top: nat :: LogOf(img, ino).IsMax(top) && r == LogOf(img, ino).ReplayTo(d, top)
  }

  method CollectDir(img: Image, ino: uint32, dir: DirList)
    requires WellFormed(img, ino) && Returns(img, ino) && dir.Valid()
    modifies dir, dir.nodes
    ensures dir.Valid() && Listing(img, ino, old(dir.contents), dir.contents)
  {
    hide Log.Valid, Trap, Run, Based, Log.IsMax, Log.ReplayTo, Starts, Parses, Skip, DirList.Valid, Advance, Lap;
    ghost var l, d := LogOf(img, ino), dir.contents;
    ghost var total := EndsIffNoTrap(l, d);
    var n: nat, lr: nat, mp: nat := 0, 0, 0;
    var vmin: nat, vmint: nat, vmaxt: nat, vmax: nat, vcur: nat := 0, NO_VERSION, 0, NO_VERSION, 0;
    ghost var t: nat, s := 0, Init(d);
    StartBased(l, d);
    RunZero(img, ino, s);
    while vcur < vmax
      invariant t <= total && s == Run(img, ino, Init(d), t) && Based(l, s)
      invariant s == Scan(n, lr, mp, vmint, vmaxt, vmax, vcur, dir.contents)
      invariant dir.Valid() && forall i :: 0 <= i < |dir.nodes| ==>
        dir.nodes[i] in old(dir.nodes) || fresh(dir.nodes[i])
      decreases total - t
    {
      MpThere(l, s);
      BasedRange(l, s);
      while n < |img| && img[n].Filler?
        invariant s.n <= n <= |img| && Skip(img, n) == Skip(img, s.n)
        invariant dir.Valid() && dir.contents == s.dir
        invariant forall i :: 0 <= i < |dir.nodes| ==> dir.nodes[i] in old(dir.nodes) || fresh(dir.nodes[i])
      {
        SkipOn(img, n);
        n := n + 1;
      }
      SkipOn(img, n);
      if n < |img| {
        if IsDirentOf(img[n], ino) && img[n].node.version > vcur {
          var v := img[n].node.version;
          if vmaxt < v {
            vmaxt := v;
          }
          if vmint > v {
            vmint := v;
            mp := n;
          }
          if v == vcur + 1 {
            dir.Put(img[n].node);
            lr := n;
            vcur := vcur + 1;
            vmint := NO_VERSION;
          }
        }
        n := End(img, n);
      } else {
        n := 0;
      }
      ghost var s1 := Advance(img, ino, s);
      AdvanceIs(img, ino, s);
      assert Scan(n, lr, mp, vmint, vmaxt, vmax, vcur, dir.contents) == s1;
      if lr == n {
        vmax := vmaxt;
        vmin := vmint;
        vmint := NO_VERSION;
        if vcur < vmax && vcur < vmin {
          dir.Put(img[mp].node);
          n := End(img, mp);
          lr := n;
          vcur := vmin;
        }
      }
      LapIs(img, s1);
      RunOn(img, ino, Init(d), t, 1);
      RunOne(img, ino, s);
      NotYet(img, ino, Init(d), t, total);
      t, s := t + 1, Step(img, ino, s);
    }
    DoneStays(img, ino, Init(d), t, total);
    assert s == Run(img, ino, Init(d), total);
    ghost var top := s.vcur;
    assert l.IsMax(top);
  }

  lemma AdvanceIs(img: Image, ino: uint32, s: Scan)
    requires s.n <= |img|
    ensures var m := Skip(img, s.n);
      Advance(img, ino, s) == if m < |img| then Visit(img, ino, s, m).(n := End(img, m)) else s.(n := 0)
  {
  }

  lemma LapIs(img: Image, s: Scan)
    requires s.lr == s.n && s.vcur < s.vmaxt && s.vcur < s.vmint ==>
      s.mp < |img| && img[s.mp].Node? && img[s.mp].node.Dirent?
    ensures Lap(img, s) ==
      if s.lr != s.n then s
      else if s.vcur < s.vmaxt && s.vcur < s.vmint then
        Scan(End(img, s.mp), End(img, s.mp), s.mp, NO_VERSION, s.vmaxt, s.vmaxt, s.vmint, PutDir(s.dir, img[s.mp].node))
      else s.(vmax := s.vmaxt, vmint := NO_VERSION)
  {
  }

  lemma NotYet(img: Image, ino: uint32, s: Scan, t: nat, total: nat)
    requires Done(Run(img, ino, s, total)) && !Done(Run(img, ino, s, t)) && t <= total
    ensures t < total
  {
  }

  lemma RunOne(img: Image, ino: uint32, s: Scan)
    requires !Done(s)
    ensures Run(img, ino, s, 1) == Step(img, ino, s)
  {
  }

  lemma StartBased(l: Log, d: seq<Entry>)
    requires l.Valid()
    ensures Based(l, Init(d))
  {
    ZeroBound(l);
    var k: nat := 0;
    assert k <= |l.ns| && Init(d).n == l.B(k);
  }

  lemma BasedRange(l: Log, s: Scan)
    requires l.Valid() && Based(l, s)
    ensures s.n <= |l.img|
  {
    var k: nat :| k <= |l.ns| && s.n == l.B(k);
    assert Placed(l.img, l.ns, 0, k);
  }

  lemma SkipOn(img: Image, n: nat)
    requires n <= |img|
    ensures Skip(img, n) == if n < |img| && img[n].Filler? then Skip(img, n + 1) else n
  {
  }

  // The criteria of resolvedirent: 0 stands for any inode or any parent.
  predicate Wanted(c: Cell, ino: uint32, pino: uint32, name: Name) {
    c.Node? && c.node.Dirent? && (ino == 0 || c.node.ino == ino) &&
    (pino == 0 || (c.node.pino == pino && c.node.name == name)) && c.node.version > 0
  }

  // The node at ns[b] has the highest version of those wanted among the first
  // k, and is the first such.
  ghost predicate Best(img: Image, ns: seq<nat>, k: nat, ino: uint32, pino: uint32, name: Name, b: nat)
    requires Nodes(img, ns) && k <= |ns|
  {
    b < k && Wanted(img[ns[b]], ino, pino, name) &&
    forall i :: 0 <= i < k && Wanted(img[ns[i]], ino, pino, name) ==>
      img[ns[i]].node.version <= img[ns[b]].node.version &&
      (i < b ==> img[ns[i]].node.version < img[ns[b]].node.version)
  }

  ghost predicate Newest(img: Image, ns: seq<nat>, k: nat, ino: uint32, pino: uint32, name: Name, dd: Option<nat>) {
    Nodes(img, ns) && k <= |ns| &&
    if dd == None then forall i :: 0 <= i < k ==> !Wanted(img[ns[i]], ino, pino, name)
    else exists b :: 0 <= b < k && ns[b] == dd.value && Best(img, ns, k, ino, pino, name, b)
  }

  lemma NewestStart(img: Image, ns: seq<nat>, ino: uint32, pino: uint32, name: Name)
    requires Nodes(img, ns)
    ensures Newest(img, ns, 0, ino, pino, name, None)
  {
  }

  lemma NewestStep(img: Image, ns: seq<nat>, k: nat, ino: uint32, pino: uint32, name: Name, dd: Option<nat>)
    requires Newest(img, ns, k, ino, pino, name, dd) && k < |ns|
    ensures dd.Some? ==> dd.value < |img| && img[dd.value].Node? && img[dd.value].node.Dirent?
    ensures var vmax: nat := if dd == None then 0 else img[dd.value].node.version;
      var hit := Wanted(img[ns[k]], ino, pino, name) && img[ns[k]].node.version > vmax;
      Newest(img, ns, k + 1, ino, pino, name, if hit then Some(ns[k]) else dd)
  {
    if dd == None {
      if Wanted(img[ns[k]], ino, pino, name) { assert Best(img, ns, k + 1, ino, pino, name, k); }
    } else {
      var b :| 0 <= b < k && ns[b] == dd.value && Best(img, ns, k, ino, pino, name, b);
      var newer := Wanted(img[ns[k]], ino, pino, name) && img[ns[k]].node.version > img[dd.value].node.version;
      var best := if newer then k else b;
      assert Best(img, ns, k + 1, ino, pino, name, best);
    }
  }

  method ResolveDirent(img: Image, ino: uint32, pino: uint32, name: Name) returns (dd: Option<nat>)
    requires Parses(img, 0)
    ensures pino == 0 && ino <= 1 ==> dd == None
    ensures !(pino == 0 && ino <= 1) ==> Newest(img, Starts(img, 0), |Starts(img, 0)|, ino, pino, name, dd)
  {
    hide Starts, Parses, Skip, Layout, Newest;
    dd := None;
    if pino == 0 && ino <= 1 {
      return;
    }
    ghost var ns := Starts(img, 0);
    LogLayout(img);
    var vmax: nat := 0;
    var n: nat := 0;
    ghost var k := 0;
    LayoutAt(img, ns, k);
    NewestStart(img, ns, ino, pino, name);
    while true
      invariant k <= |ns| && Placed(img, ns, 0, k) && n == Bound(img, ns, 0, k)
      invariant Newest(img, ns, k, ino, pino, name, dd)
      invariant dd.Some? ==> dd.value < |img| && img[dd.value].Node? && img[dd.value].node.Dirent?
      invariant vmax == if dd == None then 0 else img[dd.value].node.version
      decreases |ns| - k
    {
      ghost var from := n;
      while n < |img| && img[n].Filler?
        invariant from <= n <= |img| && Skip(img, n) == Skip(img, from)
      {
        SkipOn(img, n);
        n := n + 1;
      }
      SkipOn(img, n);
      if n < |img| {
        NewestStep(img, ns, k, ino, pino, name, dd);
        if img[n].node.Dirent? && (ino == 0 || img[n].node.ino == ino) && img[n].node.version > vmax &&
           (pino == 0 || (img[n].node.pino == pino && img[n].node.name == name)) {
          vmax := img[n].node.version;
          dd := Some(n);
        }
        n := End(img, n);
        k := k + 1;
        LayoutAt(img, ns, k);
      } else {
        return;
      }
    }
  }

  lemma LogLayout(img: Image)
    requires Parses(img, 0)
    ensures Layout(img, Starts(img, 0), 0)
  {
    StartsLayout(img, 0);
  }

  lemma LayoutAt(img: Image, ns: seq<nat>, k: nat)
    requires Layout(img, ns, 0) && k <= |ns|
    ensures Nodes(img, ns) && Placed(img, ns, 0, k)
  {
  }

  // ---- listing and lookup agree ---------------------------------------------

  // Node k carries the highest version up to v of that name in the directory.
  ghost predicate Latest(l: Log, v: nat, name: Name, k: nat) {
    l.Ours(k) && l.Version(k) <= v && l.img[l.ns[k]].node.name == name &&
    forall i: nat :: l.Ours(i) && l.Version(i) <= v && l.img[l.ns[i]].node.name == name ==> l.Version(i) <= l.Version(k)
  }

  ghost predicate Unnamed(l: Log, v: nat, name: Name) {
    forall i: nat :: l.Ours(i) && l.Version(i) <= v ==> l.img[l.ns[i]].node.name != name
  }

  // What a dirent leaves in a listing: inode 0 stands for a deleted name.
  function AsEntry(n: RawNode): Option<Entry>
    requires n.Dirent?
  {
    if n.ino == 0 then None else Some(Entry(n.name, n.dtype, n.ino))
  }

  function Found(img: Image, dd: Option<nat>): Option<Entry> {
    if dd.Some? && dd.value < |img| && img[dd.value].Node? && img[dd.value].node.Dirent? then
      AsEntry(img[dd.value].node)
    else None
  }

  // Replaying in version order leaves each name as its latest dirent has it.
  lemma {:induction false} ReplayLookup(l: Log, v: nat, name: Name)
    requires l.Valid()
    ensures UniqueNames(l.ReplayTo([], v))
    ensures Unnamed(l, v, name) ==> Lookup(l.ReplayTo([], v), name) == None
    ensures forall k: nat :: Latest(l, v, name, k) ==> Lookup(l.ReplayTo([], v), name) == AsEntry(l.img[l.ns[k]].node)
    decreases v
  {
    hide Layout, Lookup, PutDir, UniqueNames, AsEntry, Unnamed, Log.Valid;
    if v == 0 {
      NothingListed(name);
    } else {
      ReplayLookup(l, v - 1, name);
      var d := l.ReplayTo([], v - 1);
      if l.Has(v) {
        var n := l.img[l.ns[l.At(v)]].node;
        PutDirNames(d, n);
        PutDirLookup(d, n, name);
        AsEntryIs(n);
      }
      forall k: nat | Latest(l, v, name, k)
        ensures Lookup(l.ReplayTo([], v), name) == AsEntry(l.img[l.ns[k]].node)
      {
        LatestBelow(l, v, name, k);
      }
      UnnamedBelow(l, v, name);
    }
  }

  lemma LatestBelow(l: Log, v: nat, name: Name, k: nat)
    requires l.Valid() && v > 0 && Latest(l, v, name, k)
    ensures l.Ours(k)
    ensures if l.Has(v) && l.img[l.ns[l.At(v)]].node.name == name then k == l.At(v) else Latest(l, v - 1, name, k)
  {
    hide Layout;
  }

  lemma UnnamedBelow(l: Log, v: nat, name: Name)
    requires v > 0
    ensures Unnamed(l, v, name) ==> Unnamed(l, v - 1, name) && (l.Has(v) ==> l.img[l.ns[l.At(v)]].node.name != name)
  {
  }

  lemma AsEntryIs(n: RawNode)
    requires n.Dirent?
    ensures AsEntry(n) == if n.ino == 0 then None else Some(Entry(n.name, n.dtype, n.ino))
  {
  }

  lemma NothingListed(name: Name)
    ensures UniqueNames([]) && Lookup([], name) == None
  {
  }

  // The listing of a directory has a name if and only if looking the name up
  // finds a dirent with a non-zero inode, and then with that inode and type.
  lemma ListingAgreesWithLookup(img: Image, pino: uint32, name: Name, r: seq<Entry>, dd: Option<nat>)
    requires WellFormed(img, pino) && pino != 0 && Listing(img, pino, [], r)
    requires Newest(img, Starts(img, 0), |Starts(img, 0)|, 0, pino, name, dd)
    ensures UniqueNames(r)
    ensures Lookup(r, name) == Found(img, dd)
    ensures dd.Some? ==> dd.value < |img| && IsDirentOf(img[dd.value], pino) && img[dd.value].node.name == name
  {
    hide Starts, Parses, Layout, Lookup, Log.ReplayTo, Log.Valid, UniqueNames, Latest, Best, Wanted, AsEntry,
      Log.Ours, Log.Version;
    var l := LogOf(img, pino);
    var top: nat :| l.IsMax(top) && r == l.ReplayTo([], top);
    ReplayLookup(l, top, name);
    if dd.Some? {
      var b :| 0 <= b < |l.ns| && l.ns[b] == dd.value && Best(img, l.ns, |l.ns|, 0, pino, name, b);
      BestIsLatest(l, top, name, b);
    } else {
      NoneIsUnnamed(l, top, name);
    }
  }

  lemma BestIsLatest(l: Log, top: nat, name: Name, b: nat)
    requires Nodes(l.img, l.ns) && l.ino != 0 && l.IsMax(top) && Best(l.img, l.ns, |l.ns|, 0, l.ino, name, b)
    ensures Latest(l, top, name, b)
    ensures IsDirentOf(l.img[l.ns[b]], l.ino) && l.img[l.ns[b]].node.name == name
  {
  }

  lemma NoneIsUnnamed(l: Log, top: nat, name: Name)
    requires Newest(l.img, l.ns, |l.ns|, 0, l.ino, name, None) && l.ino != 0
    ensures Unnamed(l, top, name)
  {
  }

  // Parent 0 is taken to mean "any": such a lookup finds nothing at all, so it
  // agrees with the listing of directory 0 only where that is empty of the name.
  method ResolveName(img: Image, pino: uint32, name: Name) returns (dd: Option<nat>)
    requires Parses(img, 0)
    ensures if pino == 0 then dd == None
            else Newest(img, Starts(img, 0), |Starts(img, 0)|, 0, pino, name, dd)
  {
    dd := ResolveDirent(img, 0, pino, name);
  }

  // By inode number alone, in whatever directory.
  method ResolveInode(img: Image, ino: uint32) returns (dd: Option<nat>)
    requires Parses(img, 0)
    ensures if ino <= 1 then dd == None else Newest(img, Starts(img, 0), |Starts(img, 0)|, ino, 0, [], dd)
  {
    dd := ResolveDirent(img, ino, 0, []);
  }

  // What that finds: a dirent for this inode with the highest version of all
  // dirents for it, or nothing if none has a version above 0.
  lemma InodeFound(img: Image, ino: uint32, dd: Option<nat>)
    requires Parses(img, 0) && ino > 1 && Newest(img, Starts(img, 0), |Starts(img, 0)|, ino, 0, [], dd)
    ensures Nodes(img, Starts(img, 0))
    ensures dd == None <==>
      forall i :: 0 <= i < |Starts(img, 0)| ==>
        var c := img[Starts(img, 0)[i]]; c.node.Dirent? && c.node.ino == ino ==> c.node.version == 0
    ensures dd.Some? ==>
      dd.value in Starts(img, 0) && dd.value < |img| && img[dd.value].Node? && img[dd.value].node.Dirent? &&
      img[dd.value].node.ino == ino && img[dd.value].node.version > 0 &&
      forall i :: 0 <= i < |Starts(img, 0)| ==>
        var c := img[Starts(img, 0)[i]];
        c.node.Dirent? && c.node.ino == ino ==> c.node.version <= img[dd.value].node.version
  {
    hide Starts, Parses;
  }

  // ---- version 0 ------------------------------------------------------------

  // Node k is the newest dirent of that name in the directory, whatever its
  // version: the reader may not see it.
  ghost predicate NewestWritten(l: Log, name: Name, k: nat) {
    Nodes(l.img, l.ns) && k < |l.ns| && Carries(l, name, k) &&
    forall i :: 0 <= i < |l.ns| && Carries(l, name, i) ==>
      l.img[l.ns[i]].node.version <= l.img[l.ns[k]].node.version
  }

  ghost predicate Carries(l: Log, name: Name, i: nat)
    requires Nodes(l.img, l.ns) && i < |l.ns|
  {
    IsDirentOf(l.img[l.ns[i]], l.ino) && l.img[l.ns[i]].node.name == name
  }

  // A name is listed as its newest dirent has it if and only if that has a
  // version above 0, or deletes the name anyway.
  lemma VersionZeroIsUnseen(img: Image, pino: uint32, name: Name, r: seq<Entry>, k: nat)
    requires WellFormed(img, pino) && Listing(img, pino, [], r) && NewestWritten(LogOf(img, pino), name, k)
    ensures var n := img[LogOf(img, pino).ns[k]].node;
      n.Dirent? && (Lookup(r, name) == AsEntry(n) <==> n.version > 0 || n.ino == 0)
  {
    hide Starts, Parses, Layout, Lookup, Log.ReplayTo, Log.Valid, UniqueNames, Latest, Unnamed, Log.IsMax;
    var l := LogOf(img, pino);
    var top: nat :| l.IsMax(top) && r == l.ReplayTo([], top);
    ReplayLookup(l, top, name);
    NewestIsLatest(l, top, name, k);
  }

  lemma NewestIsLatest(l: Log, top: nat, name: Name, k: nat)
    requires l.IsMax(top) && NewestWritten(l, name, k)
    ensures if l.img[l.ns[k]].node.version > 0 then Latest(l, top, name, k) else Unnamed(l, top, name)
  {
  }

  // ---- directories without a gap ----------------------------------------------

  // With versions 1 to w, none missing, collectdir returns if and only if the
  // last of them begins where the node before it ends.
  lemma SequenceReturns(img: Image, ino: uint32, w: nat)
    requires WellFormed(img, ino) && w > 0
    requires forall v: nat :: LogOf(img, ino).Has(v) <==> 1 <= v <= w
    ensures Nodes(img, LogOf(img, ino).ns)
    ensures Returns(img, ino) <==> LogOf(img, ino).Flush(LogOf(img, ino).At(w))
  {
    hide Starts, Parses, Log.Valid, Log.Has, Log.Flush;
    var l := LogOf(img, ino);
    ValidNodes(l);
    HighestIsMax(l, w);
    assert Gapless(l, w);
    assert Trap(l, w) <==> !l.Flush(l.At(w));
    forall u | u != w
      ensures !Trap(l, u)
    {
    }
  }

  lemma HighestIsMax(l: Log, w: nat)
    requires forall v: nat :: l.Has(v) <==> 1 <= v <= w
    ensures w > 0 ==> l.IsMax(w)
  {
    forall k | l.Ours(k)
      ensures l.Version(k) <= w
    {
      HasIt(l, k);
    }
  }

  // ---- one entry ----------------------------------------------------------------

  // Padding, then a dirent with a name of one byte: 41 bytes, in eleven cells.
  function Lone(gap: nat, version: uint32): Image {
    seq(gap, i => Filler) + [Node(Dirent(41, 1, version, 2, 8, [97]))] + seq(10, i => Filler)
  }

  lemma {:induction false} SkipTo(img: Image, n: nat, m: nat)
    requires n <= m <= |img| && (m == |img| || img[m].Node?) && forall i :: n <= i < m ==> img[i].Filler?
    ensures Skip(img, n) == m
    decreases m - n
  {
    if n < m { SkipTo(img, n + 1, m); }
  }

  lemma LoneStarts(gap: nat, version: uint32)
    ensures var img := Lone(gap, version); Parses(img, 0) && Starts(img, 0) == [gap]
  {
    var img := Lone(gap, version);
    SkipTo(img, 0, gap);
    assert End(img, gap) == |img| && Skip(img, |img|) == |img|;
    assert Parses(img, |img|) && Starts(img, |img|) == [];
  }

  // Directory 1 of an image with a lone dirent of version 1 is well formed.
  // collectdir returns on it if and only if there is no padding before it.
  lemma PaddedDirentTraps(gap: nat)
    ensures WellFormed(Lone(gap, 1), 1) && (Returns(Lone(gap, 1), 1) <==> gap == 0)
  {
    hide Parses, Starts, Layout, Skip, Trap;
    var img := Lone(gap, 1);
    LoneStarts(gap, 1);
    StartsLayout(img, 0);
    var l := LogOf(img, 1);
    assert l.Ours(0) && forall k :: l.Ours(k) ==> k == 0;
    HasIt(l, 0);
    SequenceReturns(img, 1, 1);
    assert l.At(1) == 0;
  }

  // What mkfs.jffs2 writes first has version 0: collectdir returns with nothing.
  lemma FirstEntryIsUnseen(gap: nat)
    ensures WellFormed(Lone(gap, 0), 1) && Returns(Lone(gap, 0), 1) && Listing(Lone(gap, 0), 1, [], [])
    ensures NewestWritten(LogOf(Lone(gap, 0), 1), [97], 0)
  {
    hide Parses, Starts, Layout, Skip;
    var img := Lone(gap, 0);
    LoneStarts(gap, 0);
    StartsLayout(img, 0);
    var l := LogOf(img, 1);
    assert forall k :: !l.Ours(k);
    assert l.IsMax(0) && l.ReplayTo([], 0) == [];
  }
}
