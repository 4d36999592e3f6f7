// putdir of jffs2reader: a directory listing as a linked list edited in place.
module Jffs2Dir {
  import opened Basics
  import opened Jffs2Log

  datatype Entry = Entry(name: Name, dtype: nat, ino: uint32)

  // What one dirent does to a listing. Inode 0 removes the name.
  function PutDir(d: seq<Entry>, n: RawNode): seq<Entry>
    requires n.Dirent?
  {
    if d == [] then (if n.ino != 0 then [Entry(n.name, n.dtype, n.ino)] else [])
    else if d[0].name == n.name then
      (if n.ino != 0 then [Entry(n.name, n.dtype, n.ino)] else []) + d[1..]
    else [d[0]] + PutDir(d[1..], n)
  }

  function Lookup(d: seq<Entry>, name: Name): Option<Entry> {
    if d == [] then None else if d[0].name == name then Some(d[0]) else Lookup(d[1..], name)
  }

  ghost predicate UniqueNames(d: seq<Entry>) {
    forall i, j :: 0 <= i < j < |d| ==> d[i].name != d[j].name
  }

  lemma {:induction false} LookupAbsent(d: seq<Entry>, name: Name)
    ensures Lookup(d, name).None? <==> forall i :: 0 <= i < |d| ==> d[i].name != name
  {
    if d != [] {
      LookupAbsent(d[1..], name);
      assert forall i :: 1 <= i < |d| ==> d[i] == d[1..][i - 1];
    }
  }

  // The listing holds one entry per name, and a dirent changes only its own.
  lemma {:induction false} PutDirNames(d: seq<Entry>, n: RawNode)
    requires n.Dirent? && UniqueNames(d)
    ensures UniqueNames(PutDir(d, n))
    ensures forall e :: e in PutDir(d, n) ==> e.name == n.name || e in d
  {
    if d != [] && d[0].name != n.name {
      PutDirNames(d[1..], n);
      var r := PutDir(d[1..], n);
      forall j | 0 <= j < |r| ensures r[j].name != d[0].name {
        assert r[j] in r;
      }
    }
  }

  lemma {:induction false} PutDirLookup(d: seq<Entry>, n: RawNode, name: Name)
    requires n.Dirent? && UniqueNames(d)
    ensures Lookup(PutDir(d, n), name) ==
      if name != n.name then Lookup(d, name)
      else if n.ino == 0 then None
      else Some(Entry(n.name, n.dtype, n.ino))
  {
    if d != [] {
      if d[0].name == n.name {
        LookupAbsent(d[1..], n.name);
        var put: seq<Entry> := if n.ino != 0 then [Entry(n.name, n.dtype, n.ino)] else [];
        assert (put + d[1..])[|put|..] == d[1..];
      } else {
        PutDirLookup(d[1..], n, name);
        assert ([d[0]] + PutDir(d[1..], n))[1..] == PutDir(d[1..], n);
      }
    }
  }

  function Fresh(n: RawNode): seq<Entry>
    requires n.Dirent?
  {
    if n.ino != 0 then [Entry(n.name, n.dtype, n.ino)] else []
  }

  // The first entry of that name is replaced, or dropped; else one is added.
  lemma {:induction false} PutDirAt(d: seq<Entry>, n: RawNode, i: nat)
    requires n.Dirent? && i <= |d| && forall j :: 0 <= j < i ==> d[j].name != n.name
    requires i < |d| ==> d[i].name == n.name
    ensures PutDir(d, n) == d[..i] + Fresh(n) + (if i < |d| then d[i + 1..] else [])
  {
    if i > 0 {
      PutDirAt(d[1..], n, i - 1);
      assert d[1..][..i - 1] == d[1..i];
      assert d[..i] == [d[0]] + d[1..i];
    }
  }

  // struct dir
  class DirNode {
    var dtype: nat
    var name: Name
    var ino: uint32
    var next: DirNode?

    constructor (n: RawNode)
      requires n.Dirent?
      ensures dtype == n.dtype && name == n.name && ino == n.ino && next == null
    {
      dtype, name, ino, next := n.dtype, n.name, n.ino, null;
    }

    function ToEntry(): Entry
      reads this
    {
      Entry(name, dtype, ino)
    }
  }

  lemma OneOf(nodes: seq<DirNode>, i: nat)
    requires NoRepeat(nodes) && i < |nodes|
    ensures forall k :: 0 <= k < |nodes| && k != i ==> nodes[k] != nodes[i]
  {
  }

  ghost predicate Linked(nodes: seq<DirNode>, d: seq<Entry>, i: nat)
    requires i < |nodes| == |d|
    reads nodes[i]
  {
    nodes[i].next == (if i + 1 < |nodes| then nodes[i + 1] else null) && nodes[i].ToEntry() == d[i]
  }

  // The list from head runs through exactly these nodes, which hold d.
  ghost predicate Chain(head: DirNode?, nodes: seq<DirNode>, d: seq<Entry>)
    reads nodes
  {
    |nodes| == |d| && head == (if nodes == [] then null else nodes[0]) && NoRepeat(nodes) &&
    forall i :: 0 <= i < |nodes| ==> Linked(nodes, d, i)
  }

  lemma ChainAt(head: DirNode?, nodes: seq<DirNode>, d: seq<Entry>, i: nat)
    requires Chain(head, nodes, d) && i < |nodes|
    ensures |nodes| == |d| && Linked(nodes, d, i)
  {
  }

  lemma ChainHead(head: DirNode?, nodes: seq<DirNode>, d: seq<Entry>)
    requires Chain(head, nodes, d)
    ensures |nodes| == |d| && head == (if nodes == [] then null else nodes[0]) && NoRepeat(nodes)
    ensures allocated(nodes)
  {
  }

  // Entry i is bypassed.
  lemma ChainWithout(head: DirNode?, nodes: seq<DirNode>, d: seq<Entry>, i: nat)
    requires 0 < i < |nodes| == |d| && head == nodes[0] && NoRepeat(nodes)
    requires forall k :: 0 <= k < |nodes| && k != i - 1 ==> Linked(nodes, d, k)
    requires nodes[i - 1].next == (if i + 1 < |nodes| then nodes[i + 1] else null)
    requires nodes[i - 1].ToEntry() == d[i - 1]
    ensures Chain(head, nodes[..i] + nodes[i + 1..], d[..i] + d[i + 1..])
  {
    var rest, left := nodes[..i] + nodes[i + 1..], d[..i] + d[i + 1..];
    forall k | 0 <= k < |rest|
      ensures Linked(rest, left, k)
    {
      var at := if k < i then k else k + 1;
      assert rest[k] == nodes[at] && left[k] == d[at] && (at != i - 1 ==> Linked(nodes, d, at));
    }
  }

  lemma ChainTail(head: DirNode, nodes: seq<DirNode>, d: seq<Entry>)
    requires Chain(head, nodes, d)
    ensures nodes != [] && Chain(head.next, nodes[1..], d[1..])
  {
    assert Linked(nodes, d, 0);
    forall k | 0 <= k < |nodes| - 1
      ensures Linked(nodes[1..], d[1..], k)
    {
      assert Linked(nodes, d, k + 1);
    }
  }

  class DirList {
    var head: DirNode?
    ghost var nodes: seq<DirNode>
    ghost var contents: seq<Entry>

    ghost predicate Valid()
      reads this, nodes
    {
      Chain(head, nodes, contents)
    }

    constructor ()
      ensures Valid() && contents == [] && nodes == []
    {
      head, nodes, contents := null, [], [];
    }

    method Overwrite(dd: DirNode, n: RawNode, ghost i: nat)
      requires Valid() && n.Dirent? && i < |nodes| == |contents| && dd == nodes[i] && contents[i].name == n.name
      modifies dd, this`contents
      ensures Valid() && contents == old(contents)[i := Entry(n.name, n.dtype, n.ino)]
    {
      hide NoRepeat;
      ChainHead(head, nodes, contents);
      OneOf(nodes, i);
      assert Linked(nodes, contents, i);
      dd.dtype := n.dtype;
      dd.ino := n.ino;
      contents := contents[i := Entry(n.name, n.dtype, n.ino)];
      forall k | 0 <= k < |nodes| ensures Linked(nodes, contents, k) {
        assert old(Linked(nodes, contents, k));
      }
    }

    method AppendAfter(dd: DirNode?, n: RawNode)
      requires Valid() && n.Dirent?
      requires dd == if nodes == [] then null else nodes[|nodes| - 1]
      modifies this, if dd == null then {} else {dd}
      ensures Valid() && contents == old(contents) + [Entry(n.name, n.dtype, n.ino)]
      ensures |nodes| == |old(nodes)| + 1 && nodes[..|old(nodes)|] == old(nodes) && fresh(nodes[|old(nodes)|])
    {
      ChainHead(head, nodes, contents);
      ghost var last := |nodes|;
      if dd != null { OneOf(nodes, last - 1); }
      var d := new DirNode(n);
      if dd == null {
        head := d;
      } else {
        dd.next := d;
      }
      nodes, contents := nodes + [d], contents + [Entry(n.name, n.dtype, n.ino)];
      forall k | 0 <= k < |nodes| ensures Linked(nodes, contents, k) {
        assert k < last ==> old(Linked(nodes, contents, k));
      }
    }

    // p->next = dd->next
    method Unlink(p: DirNode, dd: DirNode, ghost i: nat)
      requires Valid() && 0 < i < |nodes| == |contents| && p == nodes[i - 1] && dd == nodes[i]
      modifies p, this`nodes, this`contents
      ensures Valid() && contents == old(contents)[..i] + old(contents)[i + 1..]
      ensures nodes == old(nodes)[..i] + old(nodes)[i + 1..]
    {
      hide NoRepeat;
      ChainHead(head, nodes, contents);
      OneOf(nodes, i - 1);
      assert Linked(nodes, contents, i - 1) && Linked(nodes, contents, i);
      p.next := dd.next;
      forall k | 0 <= k < |nodes| && k != i - 1 ensures Linked(nodes, contents, k) {
        assert old(Linked(nodes, contents, k));
      }
      ChainWithout(head, nodes, contents, i);
      nodes, contents := nodes[..i] + nodes[i + 1..], contents[..i] + contents[i + 1..];
    }

    // The entry of that name, or else the last one.
    method Seek(name: Name) returns (dd: DirNode, ghost i: nat)
      requires Valid() && head != null
      ensures Valid() && i < |nodes| == |contents| && dd == nodes[i] && dd.name == contents[i].name
      ensures dd.name == name || i == |nodes| - 1
      ensures forall j :: 0 <= j < i ==> contents[j].name != name
    {
      hide Chain, NoRepeat;
      ChainHead(head, nodes, contents);
      dd, i := head, 0;
      ChainAt(head, nodes, contents, i);
      while dd.name != name && dd.next != null
        invariant Valid() && 0 <= i < |nodes| && dd == nodes[i] && Linked(nodes, contents, i)
        invariant forall j :: 0 <= j < i ==> contents[j].name != name
        decreases |nodes| - i
      {
        dd := dd.next;
        i := i + 1;
        ChainAt(head, nodes, contents, i);
      }
    }

    // n->ino != 0: overwrite the entry of that name or append a new one.
    method Place(n: RawNode)
      requires Valid() && n.Dirent? && n.ino != 0
      modifies this, nodes
      ensures Valid() && contents == PutDir(old(contents), n)
      ensures forall i :: 0 <= i < |nodes| ==> nodes[i] in old(nodes) || fresh(nodes[i])
    {
      hide PutDir, Chain, NoRepeat, Linked;
      ChainHead(head, nodes, contents);
      if head == null {
        PutDirAt(contents, n, 0);
        AppendAfter(null, n);
        return;
      }
      ghost var i;
      var dd;
      dd, i := Seek(n.name);
      if dd.name == n.name {
        PutDirAt(contents, n, i);
        Overwrite(dd, n, i);
      } else {
        PutDirAt(contents, n, i + 1);
        AppendAfter(dd, n);
        assert forall k :: 0 <= k < |old(nodes)| ==> nodes[k] == nodes[..|old(nodes)|][k];
      }
    }

    // n->ino == 0: unlink the entry of that name, if there is one.
    method Remove(n: RawNode)
      requires Valid() && n.Dirent? && n.ino == 0
      modifies this, nodes
      ensures Valid() && contents == PutDir(old(contents), n)
      ensures forall i :: 0 <= i < |nodes| ==> nodes[i] in old(nodes)
    {
      hide PutDir, Chain, NoRepeat;
      ChainHead(head, nodes, contents);
      if head == null {
        PutDirAt(contents, n, 0);
        return;
      }
      ChainAt(head, nodes, contents, 0);
      if n.name == head.name {
        PutDirAt(contents, n, 0);
        ChainTail(head, nodes, contents);
        Behead();
        return;
      }
      var dd: DirNode := head;
      ghost var i := 0;
      while true
        invariant head == old(head) && nodes == old(nodes) && contents == old(contents)
        invariant Valid() && 0 <= i < |nodes| && dd == nodes[i] && Linked(nodes, contents, i)
        invariant forall j :: 0 <= j <= i ==> contents[j].name != n.name
        decreases |nodes| - i
      {
        var p := dd;
        if dd.next == null {
          PutDirAt(contents, n, i + 1);
          return;
        }
        dd := dd.next;
        i := i + 1;
        ChainAt(head, nodes, contents, i);
        if n.name == dd.name {
          PutDirAt(contents, n, i);
          Unlink(p, dd, i);
          return;
        }
      }
    }

    method Behead()
      requires Valid() && head != null
      modifies this
      ensures Valid() && old(nodes) != [] && nodes == old(nodes)[1..]
      ensures old(contents) != [] && contents == old(contents)[1..]
    {
      ChainTail(head, nodes, contents);
      head := head.next;
      nodes, contents := nodes[1..], contents[1..];
    }

    method Put(n: RawNode)
      requires Valid() && n.Dirent?
      modifies this, nodes
      ensures Valid() && contents == PutDir(old(contents), n)
      ensures forall i :: 0 <= i < |nodes| ==> nodes[i] in old(nodes) || fresh(nodes[i])
    {
      if n.ino != 0 {
        Place(n);
      } else {
        Remove(n);
      }
    }
  }
}
