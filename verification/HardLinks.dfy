// find_hardlink of mkfs.jffs2: the one client of the tree.
module HardLinks {
  import opened Basics
  import opened RbNodes
  import opened RbShape
  import opened RbHeap
  import opened RbFix
  import opened RbTree

  // The host (device, inode) pair of a comes before that of b.
  predicate Below(a: RbNode, b: RbNode) {
    a.entry.dev < b.entry.dev || (a.entry.dev == b.entry.dev && a.entry.hostIno < b.entry.hostIno)
  }

  predicate SameFile(a: RbNode, b: RbNode) {
    a.entry.dev == b.entry.dev && a.entry.hostIno == b.entry.hostIno
  }

  // The search goes left from a smaller entry, so the order is descending.
  ghost predicate Descending(s: seq<RbNode>) {
    forall i, j :: 0 <= i < j < |s| ==> Below(s[j], s[i])
  }

  ghost predicate Listed(s: seq<RbNode>, e: RbNode) {
    exists i :: 0 <= i < |s| && SameFile(s[i], e)
  }

  ghost predicate IsWith(s': seq<RbNode>, s: seq<RbNode>, e: RbNode) {
    exists i :: 0 <= i <= |s| && s' == s[..i] + [e] + s[i..]
  }

  lemma WithMembers(s': seq<RbNode>, s: seq<RbNode>, e: RbNode)
    requires IsWith(s', s, e)
    ensures forall j :: 0 <= j < |s'| ==> s'[j] == e || s'[j] in s
  {
  }

  lemma OnlyAt(s: seq<RbNode>, e: RbNode, i: nat, j: nat)
    requires e !in s && i <= |s| && j <= |s| && (s[..i] + [e] + s[i..])[j] == e
    ensures j == i
  {
  }

  lemma CutBack(s: seq<RbNode>, e: RbNode, i: nat)
    requires i <= |s|
    ensures var s1 := s[..i] + [e] + s[i..]; s1[..i] + s1[i + 1..] == s
  {
  }

  // Taking out what was just put in restores the order.
  lemma EraseUndoesInsert(s: seq<RbNode>, s1: seq<RbNode>, s2: seq<RbNode>, e: RbNode)
    requires e !in s && IsWith(s1, s, e) && IsWithout(s2, s1, e)
    ensures s2 == s
  {
    var i :| 0 <= i <= |s| && s1 == s[..i] + [e] + s[i..];
    var j :| 0 <= j < |s1| && s1[j] == e && s2 == s1[..j] + s1[j + 1..];
    hide *;
    OnlyAt(s, e, i, j);
    CutBack(s, e, i);
  }

  lemma EraseKeepsOrder(s: seq<RbNode>, s': seq<RbNode>, e: RbNode)
    requires Descending(s) && IsWithout(s', s, e)
    ensures Descending(s')
  {
  }

  // Every node before the position is above e, every node after it below.
  ghost predicate Between(c: Path, e: RbNode) {
    (forall i :: 0 <= i < |Before(c)| ==> Below(e, Before(c)[i])) &&
    (forall i :: 0 <= i < |After(c)| ==> Below(After(c)[i], e))
  }

  lemma StepDown(c: Path, t: Tree, e: RbNode)
    requires t.Node? && Between(c, e) && Descending(Whole(c, t))
    ensures Below(t.key, e) ==> Between(InLeft(c, t.key, t.red, t.right), e)
    ensures Below(e, t.key) ==> Between(InRight(c, t.key, t.red, t.left), e)
    ensures Whole(InLeft(c, t.key, t.red, t.right), t.left) == Whole(c, t) ==
      Whole(InRight(c, t.key, t.red, t.left), t.right)
    ensures Plug(InLeft(c, t.key, t.red, t.right), t.left) == Plug(c, t) ==
      Plug(InRight(c, t.key, t.red, t.left), t.right)
  {
    WholeUp(InLeft(c, t.key, t.red, t.right), t.left);
    WholeUp(InRight(c, t.key, t.red, t.left), t.right);
    SplitOrder(c, t);
    var pre, post, s := Before(c) + Inorder(t.left), Inorder(t.right) + After(c), Whole(c, t);
    assert s[|pre|] == t.key;
    forall i | 0 <= i < |Inorder(t.left)| ensures Below(t.key, Inorder(t.left)[i]) {
      assert s[|Before(c)| + i] == Inorder(t.left)[i];
    }
    forall i | 0 <= i < |Inorder(t.right)| ensures Below(Inorder(t.right)[i], t.key) {
      assert s[|pre| + 1 + i] == Inorder(t.right)[i];
    }
  }

  lemma InsertedBetween(c: Path, e: RbNode)
    requires Between(c, e) && Descending(Whole(c, Leaf))
    ensures var s := Before(c) + [e] + After(c);
      Descending(s) && IsWith(s, Whole(c, Leaf), e) && !Listed(Whole(c, Leaf), e)
  {
    var s, w, k := Before(c) + [e] + After(c), Whole(c, Leaf), |Before(c)|;
    assert w == Before(c) + After(c);
    assert w[..k] == Before(c) && w[k..] == After(c);
    forall i, j | 0 <= i < j < |s| ensures Below(s[j], s[i]) {
      assert i < k ==> s[i] == w[i];
      assert i > k ==> s[i] == w[i - 1];
      assert j < k ==> s[j] == w[j];
      assert j > k ==> s[j] == w[j - 1];
    }
  }

  // The inode numbers of these entries are what they were.
  twostate predicate NumbersKept(s: seq<RbNode>)
    reads set i | 0 <= i < |s| :: s[i].entry
  {
    forall i :: 0 <= i < |s| ==> s[i].entry.ino == old(s[i].entry.ino)
  }

  // Down the links to an entry for the same file, or to the empty hole for e.
  method Search(hardlinks: RbRoot, e: RbNode)
    returns (hit: RbNode?, parent: RbNode?, onLeft: bool, ghost c: Path)
    requires hardlinks.Valid() && Descending(hardlinks.Contents())
    ensures hardlinks.Valid()
    ensures hit != null ==> hit in hardlinks.Contents() && SameFile(hit, e)
    ensures hit == null ==>
      Zip(c, Leaf, null, hardlinks.node) && Plug(c, Leaf) == hardlinks.tree && Between(c, e) &&
      parent == Owner(c) && (parent != null ==> (onLeft <==> c.InLeft?))
  {
    hide Zip, Nodes, PathNodes, Plug, Inorder, Before, After, Whole, RedBlack, Between, Descending;
    var n := hardlinks.node;
    hit, parent, onLeft := null, null, false;
    ghost var t := hardlinks.tree;
    c := Top;
    TopBetween(t, e);
    while n != null
      invariant hardlinks.Valid() && Zip(c, t, n, hardlinks.node) && Whole(c, t) == hardlinks.Contents() &&
        Plug(c, t) == hardlinks.tree
      invariant parent == Owner(c) && (parent != null ==> (onLeft <==> c.InLeft?)) && Between(c, e)
      decreases t
    {
      parent := n;
      ZipDown(c, t, n, hardlinks.node);
      StepDown(c, t, e);
      if Below(n, e) {
        n, onLeft := n.left, true;
        c, t := InLeft(c, parent, t.red, t.right), t.left;
      } else if Below(e, n) {
        n, onLeft := n.right, false;
        c, t := InRight(c, parent, t.red, t.left), t.right;
      } else {
        SplitOrder(c, t);
        assert hardlinks.Contents()[|Before(c) + Inorder(t.left)|] == n;
        hit := n;
        return;
      }
    }
    ZipFocus(c, t, n, hardlinks.node);
  }

  lemma AllThere(hardlinks: RbRoot)
    ensures var s := hardlinks.Contents();
      forall i :: 0 <= i < |s| ==> allocated(s[i]) && allocated(s[i].entry)
  {
    assert allocated(hardlinks.tree) && allocated(Inorder(hardlinks.tree));
  }

  method FindHardlink(hardlinks: RbRoot, e: RbNode) returns (ino: nat)
    requires hardlinks.Valid() && Descending(hardlinks.Contents()) && e !in hardlinks.Contents()
    modifies hardlinks, hardlinks.Contents(), e
    ensures hardlinks.Valid() && Descending(hardlinks.Contents())
    ensures var s := old(hardlinks.Contents());
      if Listed(s, e)
      then hardlinks.Contents() == s && exists i :: 0 <= i < |s| && SameFile(s[i], e) && ino == s[i].entry.ino
      else ino == 0 && IsWith(hardlinks.Contents(), s, e)
    ensures NumbersKept(old(hardlinks.Contents()) + [e])
  {
    hide Zip, Nodes, PathNodes, Plug, Inorder, Before, After, Whole, RedBlack, Between, Descending, Lawful, IsWith;
    AllThere(hardlinks);
    var hit, parent, onLeft;
    ghost var c;
    hit, parent, onLeft, c := Search(hardlinks, e);
    if hit != null {
      return hit.entry.ino;
    }
    ghost var h := Unplug(c, Leaf);
    LawfulWhole(c, Leaf, h);
    WholeNodes(c, Leaf);
    InsertedBetween(c, e);
    WithMembers(Before(c) + [e] + After(c), Whole(c, Leaf), e);
    LeafLawful(c, h, e);
    hardlinks.LinkNode(e, parent, onLeft, c);
    hardlinks.InsertColor(e, c, Node(Leaf, e, true, Leaf), 0);
    return 0;
  }

  lemma TopBetween(t: Tree, e: RbNode)
    ensures Between(Top, e) && Whole(Top, t) == Inorder(t) && Plug(Top, t) == t
  {
  }

  // An empty hole has black height 0, so a red leaf may be put there.
  lemma LeafLawful(c: Path, h: nat, e: RbNode)
    requires Lawful(c, Leaf, h)
    ensures Inserting(c, Node(Leaf, e, true, Leaf), 0)
    ensures Whole(c, Node(Leaf, e, true, Leaf)) == Before(c) + [e] + After(c)
  {
    assert Inorder(Node(Leaf, e, true, Leaf)) == [e];
  }

  // Two entries for the same file on an ordered list are one.
  lemma OneEntry(s: seq<RbNode>, i: nat, j: nat)
    requires Descending(s) && i < |s| && j < |s| && SameFile(s[i], s[j])
    ensures i == j
  {
  }

  lemma ListedSame(s: seq<RbNode>, e: RbNode, again: RbNode)
    requires e in s && SameFile(again, e) && Descending(s)
    ensures Listed(s, again) && forall i :: 0 <= i < |s| && SameFile(s[i], again) ==> s[i] == e
  {
    var j :| 0 <= j < |s| && s[j] == e;
    assert SameFile(s[j], again);
    forall i | 0 <= i < |s| && SameFile(s[i], again) ensures s[i] == e { OneEntry(s, i, j); }
  }

  lemma StillThere(s': seq<RbNode>, s: seq<RbNode>, x: RbNode, e: RbNode)
    requires IsWith(s', s, x)
    ensures x in s' && (e in s ==> e in s')
  {
    var i :| 0 <= i <= |s| && s' == s[..i] + [x] + s[i..];
    assert s'[i] == x;
    if e in s {
      var j :| 0 <= j < |s| && s[j] == e;
      assert s'[if j < i then j else j + 1] == e;
    }
  }

  // What the writer of a file does to its entry.
  method Number(hardlinks: RbRoot, e: RbNode, number: nat)
    requires hardlinks.Valid() && Descending(hardlinks.Contents())
    modifies e.entry
    ensures hardlinks.Valid() && hardlinks.tree == old(hardlinks.tree) && e.entry.ino == number
    ensures Descending(hardlinks.Contents())
  {
    ghost var nodes := Nodes(hardlinks.tree);
    assert forall n: object :: n in nodes ==> n != e.entry;
    e.entry.ino := number;
  }

  // A new file is filed and gets its number. Whatever other entries are looked
  // up or filed then, an entry for the same file finds that number.
  method NumberFound(hardlinks: RbRoot, e: RbNode, number: nat, others: seq<RbNode>, again: RbNode)
    returns (ino: nat)
    requires hardlinks.Valid() && Descending(hardlinks.Contents()) && !Listed(hardlinks.Contents(), e)
    requires e !in others && again !in others && again != e && NoRepeat(others) && SameFile(again, e)
    requires Outside(hardlinks.Contents(), e) && Outside(hardlinks.Contents(), again)
    requires forall i :: 0 <= i < |others| ==> Outside(hardlinks.Contents(), others[i])
    modifies hardlinks, hardlinks.Contents(), e, e.entry, others, again
    ensures hardlinks.Valid() && Descending(hardlinks.Contents()) && e in hardlinks.Contents()
    ensures ino == number && e.entry.ino == number
  {
    hide RbRoot.Valid, RbRoot.Contents, Descending, IsWith, Listed, From;
    ghost var s0 := hardlinks.Contents();
    var r := FindHardlink(hardlinks, e);
    Filed(hardlinks.Contents(), s0, s0, e, [], e);
    Number(hardlinks, e, number);
    var i := 0;
    assert others[..i] == [];
    while i < |others|
      invariant i <= |others| && hardlinks.Valid() && Descending(hardlinks.Contents()) && e in hardlinks.Contents()
      invariant From(hardlinks.Contents(), s0, e, others[..i]) && e.entry.ino == number
    {
      ghost var s := hardlinks.Contents();
      NotFiled(s, s0, e, others, i);
      r := FindHardlink(hardlinks, others[i]);
      if Listed(s, others[i]) {
        FiledBefore(s, s0, e, others, i);
      } else {
        Filed(hardlinks.Contents(), s, s0, e, others[..i], others[i]);
        assert others[..i + 1] == others[..i] + [others[i]];
      }
      i := i + 1;
    }
    ghost var s := hardlinks.Contents();
    AllFrom(s, s0, e, others, again);
    ListedSame(s, e, again);
    ino := FindHardlink(hardlinks, again);
  }

  ghost predicate Outside(s: seq<RbNode>, x: RbNode) {
    x !in s
  }

  // Every entry filed is an old one, e, or one of those.
  ghost predicate From(s: seq<RbNode>, s0: seq<RbNode>, e: RbNode, done: seq<RbNode>) {
    forall k :: 0 <= k < |s| ==> s[k] == e || s[k] in s0 || s[k] in done
  }

  lemma Filed(s': seq<RbNode>, s: seq<RbNode>, s0: seq<RbNode>, e: RbNode, done: seq<RbNode>, x: RbNode)
    requires IsWith(s', s, x) && (From(s, s0, e, done) || s == s0) && (e in s || x == e)
    ensures From(s', s0, e, done + [x]) && e in s' && (x == e && done == [] ==> From(s', s0, e, []))
  {
    WithMembers(s', s, x);
    StillThere(s', s, x, e);
  }

  lemma NotFiled(s: seq<RbNode>, s0: seq<RbNode>, e: RbNode, others: seq<RbNode>, i: nat)
    requires i < |others| && From(s, s0, e, others[..i]) && NoRepeat(others) && e !in others && Outside(s0, others[i])
    ensures others[i] !in s && forall k :: 0 <= k < |s| ==> s[k] == e || s[k] in s0 || s[k] in others
  {
  }

  lemma FiledBefore(s: seq<RbNode>, s0: seq<RbNode>, e: RbNode, others: seq<RbNode>, i: nat)
    requires i < |others| && From(s, s0, e, others[..i])
    ensures From(s, s0, e, others[..i + 1])
  {
  }

  lemma AllFrom(s: seq<RbNode>, s0: seq<RbNode>, e: RbNode, others: seq<RbNode>, again: RbNode)
    requires From(s, s0, e, others[..|others|]) && again != e && again !in others && Outside(s0, again)
    ensures again !in s && forall k :: 0 <= k < |s| ==> s[k] == e || s[k] in s0 || s[k] in others
  {
  }
}
