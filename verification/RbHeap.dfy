// What a pointer structure must look like to stand for a (path, subtree) pair.
module RbHeap {
  import opened RbNodes
  import opened RbShape
  import opened RbFix

  // The nodes below `n` form t and the parent link of its root is p.
  ghost predicate Sub(t: Tree, n: RbNode?, p: RbNode?)
    reads Nodes(t)
  {
    if t.Leaf? then n == null
    else
      n == t.key && t.key.parent == p && t.key.red == t.red &&
      Sub(t.left, t.key.left, t.key) && Sub(t.right, t.key.right, t.key)
  }

  // The frames of c, from the hole (which holds pointer n) up to the root.
  ghost predicate Up(c: Path, n: RbNode?, root: RbNode?)
    reads PathNodes(c)
  {
    if c.Top? then root == n
    else
      c.key.red == c.red && c.key.parent == Owner(c.up) &&
      (if c.InLeft? then c.key.left == n && Sub(c.sibling, c.key.right, c.key)
       else c.key.right == n && Sub(c.sibling, c.key.left, c.key)) &&
      Up(c.up, c.key, root)
  }

  ghost predicate Apart(c: Path, t: Tree) {
    PathDistinct(c) && Distinct(t) && PathNodes(c) !! Nodes(t)
  }

  ghost predicate Zip(c: Path, t: Tree, n: RbNode?, root: RbNode?)
    reads PathNodes(c), Nodes(t)
  {
    Apart(c, t) && Sub(t, n, Owner(c)) && Up(c, n, root)
  }

  lemma {:induction false} Unzip(c: Path, t: Tree, n: RbNode?, root: RbNode?)
    requires Zip(c, t, n, root)
    ensures Zip(Top, Plug(c, t), root, root)
    ensures Nodes(Plug(c, t)) == PathNodes(c) + Nodes(t)
    decreases c
  {
    PlugNodes(c, t);
    if !c.Top? {
      Unzip(c.up, Join(c, t), c.key, root);
    }
  }

  // The pointer that fills the hole of c in the tree below m.
  lemma {:induction false} Rezip(inner: Path, outer: Path, t: Tree, m: RbNode?, root: RbNode?) returns (n: RbNode?)
    requires Zip(outer, Plug(inner, t), m, root)
    ensures Zip(Append(inner, outer), t, n, root)
    ensures inner.Top? ==> n == m
    decreases inner
  {
    if inner.Top? {
      n := m;
    } else {
      var _ := Rezip(inner.up, outer, Join(inner, t), m, root);
      n := if inner.InLeft? then inner.key.left else inner.key.right;
    }
  }

  // Two nodes and their three subtrees share nothing with each other or with c.
  ghost predicate Flat(c: Path, a: Tree, x: RbNode, b: Tree, y: RbNode, e: Tree) {
    && PathDistinct(c) && Distinct(a) && Distinct(b) && Distinct(e)
    && x != y && x !in PathNodes(c) && y !in PathNodes(c)
    && x !in Nodes(a) && x !in Nodes(b) && x !in Nodes(e)
    && y !in Nodes(a) && y !in Nodes(b) && y !in Nodes(e)
    && Nodes(a) !! Nodes(b) && Nodes(a) !! Nodes(e) && Nodes(b) !! Nodes(e)
    && PathNodes(c) !! Nodes(a) && PathNodes(c) !! Nodes(b) && PathNodes(c) !! Nodes(e)
  }

  lemma FlatLeft(c: Path, a: Tree, x: RbNode, xRed: bool, b: Tree, y: RbNode, yRed: bool, e: Tree)
    ensures Apart(c, Node(Node(a, x, xRed, b), y, yRed, e)) <==> Flat(c, a, x, b, y, e)
  {
    var l := Node(a, x, xRed, b);
    var t := Node(l, y, yRed, e);
    assert Nodes(l) == Nodes(a) + {x} + Nodes(b);
    assert Nodes(t) == Nodes(l) + {y} + Nodes(e);
    if Apart(c, t) {
      assert x in Nodes(l) && Nodes(a) <= Nodes(l) && Nodes(b) <= Nodes(l);
      assert x in Nodes(t) && y in Nodes(t) && Nodes(l) <= Nodes(t) && Nodes(e) <= Nodes(t);
      assert Distinct(l) && Distinct(e) && y !in Nodes(l) && Nodes(l) !! Nodes(e);
      assert PathNodes(c) !! Nodes(l) && PathNodes(c) !! Nodes(e);
    }
    if Flat(c, a, x, b, y, e) {
      assert Distinct(l) && y !in Nodes(l) && Nodes(l) !! Nodes(e);
      assert Distinct(t) && PathNodes(c) !! Nodes(t);
    }
  }

  lemma FlatRight(c: Path, a: Tree, x: RbNode, xRed: bool, b: Tree, y: RbNode, yRed: bool, e: Tree)
    ensures Apart(c, Node(a, x, xRed, Node(b, y, yRed, e))) <==> Flat(c, a, x, b, y, e)
  {
    var r := Node(b, y, yRed, e);
    var t := Node(a, x, xRed, r);
    assert Nodes(r) == Nodes(b) + {y} + Nodes(e);
    assert Nodes(t) == Nodes(a) + {x} + Nodes(r);
    if Apart(c, t) {
      assert y in Nodes(r) && Nodes(b) <= Nodes(r) && Nodes(e) <= Nodes(r);
      assert x in Nodes(t) && y in Nodes(t) && Nodes(a) <= Nodes(t) && Nodes(r) <= Nodes(t);
      assert Distinct(a) && Distinct(r) && x !in Nodes(r) && Nodes(a) !! Nodes(r);
      assert PathNodes(c) !! Nodes(a) && PathNodes(c) !! Nodes(r);
    }
    if Flat(c, a, x, b, y, e) {
      assert Distinct(r) && x !in Nodes(r) && Nodes(a) !! Nodes(r);
      assert Distinct(t) && PathNodes(c) !! Nodes(t);
    }
  }

  // The parts of a position about to be rotated, and the position afterwards.
  lemma OpenRight(c: Path, t: Tree, x: RbNode, root: RbNode?)
    requires Zip(c, t, x, root) && t.Node? && t.right.Node?
    ensures x == t.key && x.right == t.right.key && x.parent == Owner(c) && x.red == t.red
    ensures var y := t.right;
      Flat(c, t.left, x, y.left, y.key, y.right) && y.key.red == y.red &&
      x in Nodes(t) && y.key in Nodes(t) && Nodes(y.left) <= Nodes(t) &&
      Sub(t.left, x.left, x) && Sub(y.left, y.key.left, y.key) && Sub(y.right, y.key.right, y.key)
    ensures Up(c, x, root)
    ensures allocated(PathNodes(c)) && allocated(Nodes(t.left)) &&
            allocated(Nodes(t.right.left)) && allocated(Nodes(t.right.right))
  {
    FlatRight(c, t.left, x, t.red, t.right.left, t.right.key, t.right.red, t.right.right);
    assert Sub(t.right, x.right, x);
    assert t.right.key in Nodes(t.right);
  }

  lemma CloseLeft(c: Path, t: Tree, x: RbNode, y: RbNode, root: RbNode?)
    requires t.Node? && t.right.Node? && x == t.key && y == t.right.key
    requires Flat(c, t.left, x, t.right.left, y, t.right.right)
    requires y.left == x && y.parent == Owner(c) && x.parent == y && x.red == t.red && y.red == t.right.red
    requires Sub(t.left, x.left, x) && Sub(t.right.left, x.right, x) && Sub(t.right.right, y.right, y) && Up(c, y, root)
    ensures Zip(c, RotatedLeft(t), y, root)
  {
    FlatLeft(c, t.left, x, t.red, t.right.left, y, t.right.red, t.right.right);
    assert Sub(RotatedLeft(t).left, x, y);
  }

  lemma OpenLeft(c: Path, t: Tree, x: RbNode, root: RbNode?)
    requires Zip(c, t, x, root) && t.Node? && t.left.Node?
    ensures x == t.key && x.left == t.left.key && x.parent == Owner(c) && x.red == t.red
    ensures var y := t.left;
      Flat(c, y.left, y.key, y.right, x, t.right) && y.key.red == y.red &&
      x in Nodes(t) && y.key in Nodes(t) && Nodes(y.right) <= Nodes(t) &&
      Sub(t.right, x.right, x) && Sub(y.left, y.key.left, y.key) && Sub(y.right, y.key.right, y.key)
    ensures Up(c, x, root)
    ensures allocated(PathNodes(c)) && allocated(Nodes(t.right)) &&
            allocated(Nodes(t.left.left)) && allocated(Nodes(t.left.right))
  {
    FlatLeft(c, t.left.left, t.left.key, t.left.red, t.left.right, x, t.red, t.right);
    assert Sub(t.left, x.left, x);
    assert t.left.key in Nodes(t.left);
  }

  lemma CloseRight(c: Path, t: Tree, x: RbNode, y: RbNode, root: RbNode?)
    requires t.Node? && t.left.Node? && x == t.key && y == t.left.key
    requires Flat(c, t.left.left, y, t.left.right, x, t.right)
    requires y.right == x && y.parent == Owner(c) && x.parent == y && x.red == t.red && y.red == t.left.red
    requires Sub(t.right, x.right, x) && Sub(t.left.right, x.left, x) && Sub(t.left.left, y.left, y) && Up(c, y, root)
    ensures Zip(c, RotatedRight(t), y, root)
  {
    FlatRight(c, t.left.left, y, t.left.red, t.left.right, x, t.red, t.right);
    assert Sub(RotatedRight(t).right, x, y);
  }

  // A position owns exactly the nodes listed in order.
  lemma {:induction false} InorderNodes(t: Tree)
    ensures forall n :: n in Nodes(t) <==> n in Inorder(t)
  {
    if t.Node? {
      InorderNodes(t.left);
      InorderNodes(t.right);
    }
  }

  lemma {:induction false} PathOrderNodes(c: Path)
    ensures forall n :: n in PathNodes(c) <==> n in Before(c) || n in After(c)
  {
    if !c.Top? {
      PathOrderNodes(c.up);
      InorderNodes(c.sibling);
    }
  }

  lemma WholeNodes(c: Path, t: Tree)
    ensures forall n :: n in PathNodes(c) || n in Nodes(t) <==> n in Whole(c, t)
  {
    PathOrderNodes(c);
    InorderNodes(t);
  }

  lemma ZipUp(c: Path, t: Tree, n: RbNode?, root: RbNode?)
    requires Zip(c, t, n, root) && !c.Top?
    ensures Zip(c.up, Join(c, t), c.key, root)
    ensures c.key.red == c.red && c.key.parent == Owner(c.up)
    ensures if c.InLeft? then n == c.key.left && Sub(c.sibling, c.key.right, c.key)
            else n == c.key.right && Sub(c.sibling, c.key.left, c.key)
  {
  }

  lemma ZipDown(c: Path, t: Tree, n: RbNode, root: RbNode?)
    requires Zip(c, t, n, root)
    ensures t.Node? && t.key == n && t.red == n.red && n.parent == Owner(c)
    ensures n in Nodes(t) && (n.left == null <==> t.left.Leaf?) && (n.right == null <==> t.right.Leaf?)
    ensures Nodes(t.left) <= Nodes(t) && Nodes(t.right) <= Nodes(t)
    ensures Zip(InLeft(c, n, t.red, t.right), t.left, n.left, root)
    ensures Zip(InRight(c, n, t.red, t.left), t.right, n.right, root)
  {
    assert Sub(t.left, n.left, n) && Sub(t.right, n.right, n);
  }

  lemma ZipFocus(c: Path, t: Tree, n: RbNode?, root: RbNode?)
    requires Zip(c, t, n, root)
    ensures n == null <==> t.Leaf?
    ensures n != null ==> n in Nodes(t) && n == t.key && n.red == t.red && n.parent == Owner(c)
    ensures !c.Top? ==> c.key.red == c.red && c.key.parent == Owner(c.up)
    ensures !c.Top? ==> n != c.key
  {
  }

  // Which child of its owner a position is, and what the other child looks like.
  lemma Sides(c: Path, t: Tree, n: RbNode?, root: RbNode?)
    requires Zip(c, t, n, root) && !c.Top? && (t.Node? || c.sibling.Node?)
    ensures c.InLeft? <==> c.key.left == n
    ensures c.InRight? <==> c.key.right == n
    ensures var s := if c.InLeft? then c.key.right else c.key.left;
      (s == null <==> c.sibling.Leaf?) && (s != null ==> s == c.sibling.key && s.red == c.sibling.red)
  {
    var s := if c.InLeft? then c.key.right else c.key.left;
    assert s != null ==> s in Nodes(c.sibling);
    assert n != null ==> n in Nodes(t);
    assert Nodes(c.sibling) <= PathNodes(c);
  }

  // The same node seen from the hole next to it.
  lemma ZipAcross(c: Path, t: Tree, n: RbNode?, root: RbNode?)
    requires Zip(c, t, n, root) && !c.Top?
    ensures Zip(Across(c, t), c.sibling, if c.InLeft? then c.key.right else c.key.left, root)
  {
  }

  lemma {:induction false} RootIsTop(c: Path, t: Tree, n: RbNode?, root: RbNode?)
    requires Zip(c, t, n, root)
    ensures c.Top? <==> n == root
  {
    if !c.Top? {
      RootInPath(c, n, root);
      assert n != null ==> n in Nodes(t);
    }
  }

  lemma {:induction false} RootInPath(c: Path, n: RbNode?, root: RbNode?)
    requires Up(c, n, root) && !c.Top?
    ensures root in PathNodes(c)
    decreases c
  {
    if !c.up.Top? { RootInPath(c.up, c.key, root); }
  }

  // The sibling and its children, as the pointers show them.
  lemma Nephews(c: Path, t: Tree, n: RbNode?, root: RbNode?)
    requires Zip(c, t, n, root) && !c.Top? && c.sibling.Node?
    ensures var s := if c.InLeft? then c.key.right else c.key.left;
      s == c.sibling.key && s.red == c.sibling.red &&
      (IsRed(c.sibling.left) <==> s.left != null && s.left.red) &&
      (IsRed(c.sibling.right) <==> s.right != null && s.right.red)
  {
    hide Zip;
    var s := if c.InLeft? then c.key.right else c.key.left;
    ZipAcross(c, t, n, root);
    var c' := Across(c, t);
    ZipFocus(c', c.sibling, s, root);
    ZipDown(c', c.sibling, s, root);
    ZipFocus(InLeft(c', s, c.sibling.red, c.sibling.right), c.sibling.left, s.left, root);
    ZipFocus(InRight(c', s, c.sibling.red, c.sibling.left), c.sibling.right, s.right, root);
  }

  lemma {:induction false} UnzipTo(inner: Path, outer: Path, t: Tree, n: RbNode?, root: RbNode?) returns (m: RbNode?)
    requires Zip(Append(inner, outer), t, n, root)
    ensures Zip(outer, Plug(inner, t), m, root)
    decreases inner
  {
    if inner.Top? {
      m := n;
    } else {
      ZipUp(Append(inner, outer), t, n, root);
      assert Join(Append(inner, outer), t) == Join(inner, t);
      m := UnzipTo(inner.up, outer, Join(inner, t), inner.key, root);
    }
  }

  lemma ZipAt(c: Path, t: Tree, root: RbNode?) returns (n: RbNode?)
    requires Zip(Top, Plug(c, t), root, root)
    ensures Zip(c, t, n, root)
  {
    AppendTop(c);
    n := Rezip(c, Top, t, root, root);
  }

  // A position whose root is about to be exchanged for y, and afterwards.
  lemma OpenRoot(c: Path, t: Tree, x: RbNode, root: RbNode?)
    requires Zip(c, t, x, root)
    ensures t.Node? && x == t.key && x.red == t.red && x.parent == Owner(c)
    ensures Sub(t.left, x.left, x) && Sub(t.right, x.right, x) && Up(c, x, root)
    ensures (x.left == null <==> t.left.Leaf?) && (x.right == null <==> t.right.Leaf?)
    ensures x.left != null ==> x.left in Nodes(t.left)
    ensures x.right != null ==> x.right in Nodes(t.right)
    ensures x !in Nodes(t.left) && x !in Nodes(t.right) && x !in PathNodes(c)
    ensures Nodes(t.left) <= Nodes(t) && Nodes(t.right) <= Nodes(t) && x in Nodes(t)
    ensures PathNodes(c) !! Nodes(t.left) && PathNodes(c) !! Nodes(t.right) && Nodes(t.left) !! Nodes(t.right)
    ensures PathDistinct(c) && Distinct(t.left) && Distinct(t.right)
    ensures allocated(PathNodes(c)) && allocated(Nodes(t.left)) && allocated(Nodes(t.right))
  {
  }

  lemma CloseRoot(c: Path, t: Tree, y: RbNode, root: RbNode?)
    requires t.Node? && y.red == t.red && y.parent == Owner(c)
    requires Sub(t.left, y.left, y) && Sub(t.right, y.right, y) && Up(c, y, root)
    requires y !in Nodes(t.left) && y !in Nodes(t.right) && y !in PathNodes(c)
    requires PathNodes(c) !! Nodes(t.left) && PathNodes(c) !! Nodes(t.right) && Nodes(t.left) !! Nodes(t.right)
    requires PathDistinct(c) && Distinct(t.left) && Distinct(t.right)
    ensures Zip(c, Node(t.left, y, t.red, t.right), y, root)
  {
  }
}
