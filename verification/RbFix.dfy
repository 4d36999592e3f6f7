// How each rebalancing case changes the (path, subtree) position, on values.
module RbFix {
  import opened Basics
  import opened RbNodes
  import opened RbShape

  // The in-order sequence of the whole tree, seen from a position.
  ghost function Whole(c: Path, t: Tree): seq<RbNode> {
    Before(c) + Inorder(t) + After(c)
  }

  lemma WholeTop(t: Tree)
    ensures Whole(Top, t) == Inorder(t)
  {
  }

  lemma WholeUp(c: Path, t: Tree)
    requires !c.Top?
    ensures Whole(c.up, Join(c, t)) == Whole(c, t)
  {
    var b, i, k, s, a := Before(c.up), Inorder(t), [c.key], Inorder(c.sibling), After(c.up);
    if c.InLeft? {
      assert Whole(c.up, Join(c, t)) == b + (i + k + s) + a && Whole(c, t) == b + i + (k + s + a);
      hide *;
      MoveRight(b, i, k, s, a);
    } else {
      assert Whole(c.up, Join(c, t)) == b + (s + k + i) + a && Whole(c, t) == b + s + k + i + a;
      hide *;
      MoveLeft(b, s, k, i, a);
    }
  }

  lemma MoveRight(b: seq<RbNode>, i: seq<RbNode>, k: seq<RbNode>, s: seq<RbNode>, a: seq<RbNode>)
    ensures b + (i + k + s) + a == b + i + (k + s + a)
  {
  }

  lemma MoveLeft(b: seq<RbNode>, s: seq<RbNode>, k: seq<RbNode>, i: seq<RbNode>, a: seq<RbNode>)
    ensures b + (s + k + i) + a == b + s + k + i + a
  {
  }

  // Rotating keeps the order, whatever the colours before and after.
  lemma RotateInorder(a: Tree, x: RbNode, b: Tree, y: RbNode, e: Tree)
    ensures forall r1, r2, s1, s2 ::
      Inorder(Node(Node(a, x, r1, b), y, r2, e)) == Inorder(Node(a, x, s1, Node(b, y, s2, e)))
  {
  }

  function RotatedLeft(t: Tree): Tree
    requires t.Node? && t.right.Node?
  {
    var y := t.right;
    Node(Node(t.left, t.key, t.red, y.left), y.key, y.red, y.right)
  }

  function RotatedRight(t: Tree): Tree
    requires t.Node? && t.left.Node?
  {
    var y := t.left;
    Node(y.left, y.key, y.red, Node(y.right, t.key, t.red, t.right))
  }

  function Painted(t: Tree, red: bool): Tree {
    if t.Leaf? then t else t.(red := red)
  }

  // The path to the hole on the other side of the owner.
  function Across(c: Path, t: Tree): Path
    requires !c.Top?
  {
    if c.InLeft? then InRight(c.up, c.key, c.red, t) else InLeft(c.up, c.key, c.red, t)
  }

  lemma WholeAcross(c: Path, t: Tree)
    requires !c.Top?
    ensures Whole(Across(c, t), c.sibling) == Whole(c, t)
  {
    WholeUp(c, t);
    WholeUp(Across(c, t), c.sibling);
  }

  lemma WholeRotated(c: Path, t: Tree)
    requires t.Node?
    ensures t.right.Node? ==> Whole(c, RotatedLeft(t)) == Whole(c, t)
    ensures t.left.Node? ==> Whole(c, RotatedRight(t)) == Whole(c, t)
  {
    if t.right.Node? { RotateInorder(t.left, t.key, t.right.left, t.right.key, t.right.right); }
    if t.left.Node? { RotateInorder(t.left.left, t.left.key, t.left.right, t.key, t.right); }
  }

  lemma WholePainted(c: Path, t: Tree, red: bool, leftRed: bool, rightRed: bool)
    requires t.Node?
    ensures Whole(c, Node(Painted(t.left, leftRed), t.key, red, t.right)) == Whole(c, t)
    ensures Whole(c, Node(t.left, t.key, red, Painted(t.right, rightRed))) == Whole(c, t)
    ensures Whole(c, Node(Painted(t.left, leftRed), t.key, red, Painted(t.right, rightRed))) == Whole(c, t)
  {
    assert Inorder(Painted(t.left, leftRed)) == Inorder(t.left);
    assert Inorder(Painted(t.right, rightRed)) == Inorder(t.right);
  }

  // ---- insertion ----------------------------------------------------------

  // All laws hold except that t, which is red, may have a red owner.
  predicate Inserting(c: Path, t: Tree, h: nat) {
    IsRed(t) && Rb(t, h) && PathRb(c, h)
  }

  // Two red children and a black root swap colours.
  function Flip(t: Tree): Tree
    requires t.Node?
  {
    Node(Blacken(t.left), t.key, true, Blacken(t.right))
  }

  lemma Grandparent(c: Path, t: Tree, h: nat)
    requires Inserting(c, t, h) && !c.Top? && c.red
    ensures t.Node? && t.red && !c.up.Top? && !c.up.red && Rb(c.up.sibling, h) && !IsRed(c.sibling) && Rb(c.sibling, h)
    ensures PathRb(c.up.up, h + 1)
  {
    assert PathRb(c.up, h);
  }

  lemma InsertFlip(c: Path, t: Tree, h: nat)
    requires Inserting(c, t, h) && !c.Top? && c.red && !c.up.Top? && IsRed(c.up.sibling)
    ensures Inserting(c.up.up, Flip(Join(c.up, Join(c, t))), h + 1)
    ensures Whole(c.up.up, Flip(Join(c.up, Join(c, t)))) == Whole(c, t)
  {
    Grandparent(c, t, h);
    var p := Join(c, t);
    assert Rb(Blacken(p), h + 1);
    assert Rb(Blacken(c.up.sibling), h + 1);
    assert Inorder(Blacken(p)) == Inorder(p);
    assert Inorder(Blacken(c.up.sibling)) == Inorder(c.up.sibling);
    WholeUp(c, t);
    WholeUp(c.up, p);
    assert Inorder(Flip(Join(c.up, p))) == Inorder(Join(c.up, p));
  }

  // Double rotation, first half: t moves above its red owner.
  lemma InsertInner(c: Path, t: Tree, h: nat)
    requires Inserting(c, t, h) && !c.Top? && c.red
    ensures c.InRight? ==>
      var t' := Node(c.sibling, c.key, true, t.left);
      var c' := InLeft(c.up, t.key, true, t.right);
      Inserting(c', t', h) && Whole(c', t') == Whole(c, t)
    ensures c.InLeft? ==>
      var t' := Node(t.right, c.key, true, c.sibling);
      var c' := InRight(c.up, t.key, true, t.left);
      Inserting(c', t', h) && Whole(c', t') == Whole(c, t)
  {
  }

  // The owner turns black, the grandparent red, and they rotate.
  lemma InsertOuter(c: Path, t: Tree, h: nat)
    requires Inserting(c, t, h) && !c.Top? && c.red && !c.up.Top? && !IsRed(c.up.sibling)
    ensures c.InLeft? && c.up.InLeft? ==>
      var c' := InLeft(c.up.up, c.key, false, Node(c.sibling, c.up.key, true, c.up.sibling));
      Inserting(c', t, h) && Whole(c', t) == Whole(c, t)
    ensures c.InRight? && c.up.InRight? ==>
      var c' := InRight(c.up.up, c.key, false, Node(c.up.sibling, c.up.key, true, c.sibling));
      Inserting(c', t, h) && Whole(c', t) == Whole(c, t)
  {
    Grandparent(c, t, h);
    WholeUp(c, t);
    WholeUp(c.up, Join(c, t));
    var u := c.up;
    if c.InLeft? && u.InLeft? {
      var c' := InLeft(u.up, c.key, false, Node(c.sibling, u.key, true, u.sibling));
      assert PathRb(c', h);
      RotateInorder(t, c.key, c.sibling, u.key, u.sibling);
      WholeUp(c', t);
    } else if c.InRight? && u.InRight? {
      var c' := InRight(u.up, c.key, false, Node(u.sibling, u.key, true, c.sibling));
      assert PathRb(c', h);
      RotateInorder(u.sibling, u.key, c.sibling, c.key, t);
      WholeUp(c', t);
    }
  }

  lemma InsertDone(c: Path, t: Tree, h: nat)
    requires Inserting(c, t, h) && (c.Top? || !c.red)
    ensures Plug(c, t).Node? && RedBlack(Blacken(Plug(c, t)))
    ensures Inorder(Plug(c, t)) == Inorder(Blacken(Plug(c, t))) == Whole(c, t)
  {
    PlugInorder(c, t);
    PlugNode(c, t);
    if c.Top? {
      assert Rb(Blacken(t), h + 1);
    } else {
      PlugRedBlack(c, t, h);
    }
  }

  lemma {:induction false} PlugNode(c: Path, t: Tree)
    requires t.Node?
    ensures Plug(c, t).Node?
    decreases c
  {
    if !c.Top? { PlugNode(c.up, Join(c, t)); }
  }

  // ---- removal ------------------------------------------------------------

  // t is one black node short of what c expects; its root may be red.
  predicate Short(c: Path, t: Tree, h: nat) {
    RbBelowRoot(t, h) && PathRb(c, h + 1)
  }

  predicate Lawful(c: Path, t: Tree, h: nat) {
    Rb(t, h) && PathRb(c, h) && (IsRed(t) ==> !c.Top? && !c.red)
  }

  function WithSibling(c: Path, s: Tree): Path
    requires !c.Top?
  {
    if c.InLeft? then InLeft(c.up, c.key, c.red, s) else InRight(c.up, c.key, c.red, s)
  }

  lemma SiblingThere(c: Path, t: Tree, h: nat)
    requires Short(c, t, h) && !c.Top?
    ensures c.sibling.Node? && Rb(c.sibling, h + 1)
    ensures c.sibling.red ==> !c.red && c.sibling.left.Node? && c.sibling.right.Node?
    ensures PathRb(c.up, if c.red then h + 1 else h + 2)
  {
    if c.sibling.red { assert Rb(c.sibling.left, h + 1) && Rb(c.sibling.right, h + 1); }
  }

  // Red sibling: rotate it over the owner, so that t gets a black sibling.
  function UnderRedSibling(c: Path): Path
    requires !c.Top? && c.sibling.Node?
  {
    var s := c.sibling;
    if c.InLeft? then InLeft(InLeft(c.up, s.key, false, s.right), c.key, true, s.left)
    else InRight(InRight(c.up, s.key, false, s.left), c.key, true, s.right)
  }

  lemma EraseRedSibling(c: Path, t: Tree, h: nat)
    requires Short(c, t, h) && !c.Top? && IsRed(c.sibling)
    ensures Short(UnderRedSibling(c), t, h) && Whole(UnderRedSibling(c), t) == Whole(c, t)
    ensures !IsRed(UnderRedSibling(c).sibling)
  {
    SiblingThere(c, t, h);
    var c', s := UnderRedSibling(c), c.sibling;
    assert PathRb(c'.up, h + 1);
    WholeUp(c, t);
    WholeUp(c', t);
    WholeUp(c'.up, Join(c', t));
    if c.InLeft? { RotateInorder(t, c.key, s.left, s.key, s.right); }
    else { RotateInorder(s.left, s.key, s.right, c.key, t); }
  }

  // Black sibling with black children: it turns red and the shortage moves up.
  lemma EraseBlackNephews(c: Path, t: Tree, h: nat)
    requires Short(c, t, h) && !IsRed(t) && !c.Top?
    requires !IsRed(c.sibling) && c.sibling.Node? && !IsRed(c.sibling.left) && !IsRed(c.sibling.right)
    ensures var c' := WithSibling(c, Painted(c.sibling, true));
      Short(c.up, Join(c', t), if c.red then h else h + 1) && Whole(c.up, Join(c', t)) == Whole(c, t)
  {
    SiblingThere(c, t, h);
    var c' := WithSibling(c, Painted(c.sibling, true));
    assert Rb(c'.sibling, h);
    WholeUp(c, t);
    assert Inorder(c'.sibling) == Inorder(c.sibling);
    assert Inorder(Join(c', t)) == Inorder(Join(c, t));
  }

  // Red inner nephew only: it rotates over the sibling and becomes black.
  function UnderNephew(c: Path): Path
    requires !c.Top? && c.sibling.Node?
    requires if c.InLeft? then c.sibling.left.Node? else c.sibling.right.Node?
  {
    var s := c.sibling;
    if c.InLeft? then
      WithSibling(c, Node(s.left.left, s.left.key, false, Node(s.left.right, s.key, true, s.right)))
    else
      WithSibling(c, Node(Node(s.left, s.key, true, s.right.left), s.right.key, false, s.right.right))
  }

  lemma EraseInnerNephew(c: Path, t: Tree, h: nat)
    requires Short(c, t, h) && !c.Top? && !IsRed(c.sibling) && c.sibling.Node?
    requires if c.InLeft? then IsRed(c.sibling.left) && !IsRed(c.sibling.right)
             else IsRed(c.sibling.right) && !IsRed(c.sibling.left)
    ensures Short(UnderNephew(c), t, h) && Whole(UnderNephew(c), t) == Whole(c, t)
  {
    SiblingThere(c, t, h);
    var c', s := UnderNephew(c), c.sibling;
    assert Rb(c'.sibling, h + 1);
    WholeUp(c, t);
    WholeUp(c', t);
    if c.InLeft? { RotateInorder(s.left.left, s.left.key, s.left.right, s.key, s.right); }
    else { RotateInorder(s.left, s.key, s.right.left, s.right.key, s.right.right); }
    assert Inorder(Join(c', t)) == Inorder(Join(c, t));
  }

  // Red outer nephew: the sibling rotates over the owner and nothing is short.
  function OverOwner(c: Path, t: Tree): Tree
    requires !c.Top? && c.sibling.Node?
  {
    var s := c.sibling;
    if c.InLeft? then Node(Node(t, c.key, false, s.left), s.key, c.red, Blacken(s.right))
    else Node(Blacken(s.left), s.key, c.red, Node(s.right, c.key, false, t))
  }

  lemma EraseOuterNephew(c: Path, t: Tree, h: nat)
    requires Short(c, t, h) && !IsRed(t) && !c.Top? && !IsRed(c.sibling) && c.sibling.Node?
    requires if c.InLeft? then IsRed(c.sibling.right) else IsRed(c.sibling.left)
    ensures Lawful(c.up, OverOwner(c, t), if c.red then h + 1 else h + 2)
    ensures Whole(c.up, OverOwner(c, t)) == Whole(c, t)
  {
    hide *;
    OuterLaws(c, t, h);
    OuterOrder(c, t);
    WholeUp(c, t);
    WholeIs(c.up, OverOwner(c, t), Join(c, t));
  }

  lemma OuterLaws(c: Path, t: Tree, h: nat)
    requires Short(c, t, h) && !IsRed(t) && !c.Top? && !IsRed(c.sibling) && c.sibling.Node?
    requires if c.InLeft? then IsRed(c.sibling.right) else IsRed(c.sibling.left)
    ensures Lawful(c.up, OverOwner(c, t), if c.red then h + 1 else h + 2)
  {
    SiblingThere(c, t, h);
    var s, o := c.sibling, OverOwner(c, t);
    assert Rb(s.left, h) && Rb(s.right, h);
    assert Rb(o.left, h + 1) && Rb(o.right, h + 1);
  }

  lemma OuterOrder(c: Path, t: Tree)
    requires !c.Top? && c.sibling.Node?
    ensures Inorder(OverOwner(c, t)) == Inorder(Join(c, t))
  {
    var s := c.sibling;
    BlackenOrder(s.left);
    BlackenOrder(s.right);
    if c.InLeft? {
      RotateInorder(t, c.key, s.left, s.key, Blacken(s.right));
    } else {
      RotateInorder(Blacken(s.left), s.key, s.right, c.key, t);
    }
  }

  lemma BlackenOrder(t: Tree)
    ensures Inorder(Blacken(t)) == Inorder(t)
  {
  }

  lemma WholeIs(c: Path, t: Tree, t': Tree)
    ensures Inorder(t) == Inorder(t') ==> Whole(c, t) == Whole(c, t')
  {
  }

  // The fix-up stops at a red node or at the root, and blackens it.
  lemma EraseStop(c: Path, t: Tree, h: nat)
    requires Short(c, t, h) && (c.Top? || IsRed(t))
    ensures Lawful(c, Blacken(t), if IsRed(t) then h + 1 else h)
    ensures Whole(c, Blacken(t)) == Whole(c, t)
  {
    assert Inorder(Blacken(t)) == Inorder(t);
  }

  lemma LawfulWhole(c: Path, t: Tree, h: nat)
    requires Lawful(c, t, h)
    ensures RedBlack(Plug(c, t)) && Inorder(Plug(c, t)) == Whole(c, t)
  {
    PlugRedBlack(c, t, h);
    PlugInorder(c, t);
  }

  // ---- taking a node out --------------------------------------------------

  lemma {:induction false} Unplug(c: Path, t: Tree) returns (h: nat)
    requires RedBlack(Plug(c, t))
    ensures Lawful(c, t, h)
    decreases c
  {
    if c.Top? {
      h :| Rb(t, h);
    } else {
      var above := Unplug(c.up, Join(c, t));
      h := if c.red then above else above - 1;
    }
  }

  // What is left when a node with at most one child leaves its place.
  lemma SpliceOut(c: Path, t: Tree, h: nat)
    requires Lawful(c, t, h) && t.Node? && (t.left.Leaf? || t.right.Leaf?)
    ensures var child := if t.left.Leaf? then t.right else t.left;
      if t.red then Lawful(c, child, h) else h > 0 && Short(c, child, h - 1)
  {
    var child := if t.left.Leaf? then t.right else t.left;
    if !t.red { assert Rb(child, h - 1); }
  }

  predicate AllLeft(c: Path) {
    c.Top? || (c.InLeft? && AllLeft(c.up))
  }

  // Only colours matter to the frames, so the owner of one may be exchanged.
  lemma {:induction false} PathRbRename(inner: Path, outer: Path, outer': Path, h: nat)
    requires PathRb(Append(inner, outer), h) && outer.InRight? && outer'.InRight?
    requires outer'.up == outer.up && outer'.red == outer.red && outer'.sibling == outer.sibling
    ensures PathRb(Append(inner, outer'), h)
    decreases inner
  {
    if !inner.Top? {
      PathRbRename(inner.up, outer, outer', if inner.red then h else h + 1);
    }
  }

  lemma Assoc(p: seq<RbNode>, q: seq<RbNode>, r: seq<RbNode>, s: seq<RbNode>)
    ensures p + [] == p && p + q + (r + s) == p + (q + r + s) == p + q + r + s
  {
  }

  lemma CutOrder(d: Path, l: Tree, x: RbNode, red: bool, inner: Path, r: Tree)
    requires AllLeft(inner)
    ensures Whole(Append(inner, InRight(d, x, red, l)), r) ==
      Before(d) + Inorder(l) + [x] + (Inorder(r) + After(inner) + After(d))
  {
    hide Inorder;
    var o := InRight(d, x, red, l);
    AllLeftBefore(inner);
    AppendOrder(inner, o);
    assert Before(o) == Before(d) + Inorder(l) + [x] && After(o) == After(d);
    Assoc(Before(o), Inorder(r), After(inner), After(d));
  }

  // The in-order successor y of x leaves its place and takes that of x: the
  // order loses exactly x.
  lemma SuccessorOrder(d: Path, l: Tree, x: RbNode, red: bool, inner: Path, y: RbNode, yRed: bool, r: Tree)
    requires AllLeft(inner)
    ensures var pre, tail := Before(d) + Inorder(l), Inorder(r) + After(inner) + After(d);
      Whole(d, Node(l, x, red, Plug(inner, Node(Leaf, y, yRed, r)))) == pre + [x] + ([y] + tail) &&
      Whole(Append(inner, InRight(d, y, red, l)), r) == pre + [y] + tail
  {
    var leaving := Node(Leaf, y, yRed, r);
    var o := InRight(d, x, red, l);
    assert Inorder(leaving) == [y] + Inorder(r);
    assert Join(o, Plug(inner, leaving)) == Node(l, x, red, Plug(inner, leaving));
    hide *;
    CutOrder(d, l, y, red, inner, r);
    CutOrder(d, l, x, red, inner, leaving);
    WholeAppend(inner, o, leaving);
    WholeUp(o, Plug(inner, leaving));
    Assoc([y], Inorder(r), After(inner), After(d));
  }

  lemma {:induction false} AllLeftBefore(c: Path)
    requires AllLeft(c)
    ensures Before(c) == []
  {
    if !c.Top? { AllLeftBefore(c.up); }
  }

  lemma WholeAppend(inner: Path, outer: Path, t: Tree)
    ensures Whole(Append(inner, outer), t) == Whole(outer, Plug(inner, t))
  {
    AppendOrder(inner, outer);
    PlugInorder(inner, t);
  }

  lemma {:induction false} HoleSide(inner: Path, d: Path, x: RbNode, red: bool, l: Tree)
    requires AllLeft(inner) && PathDistinct(Append(inner, InRight(d, x, red, l)))
    ensures var c := Append(inner, InRight(d, x, red, l));
      !c.Top? && x in PathNodes(c) && (c.InRight? <==> c.key == x) && (inner.Top? <==> c.key == x)
    decreases inner
  {
    if !inner.Top? { HoleSide(inner.up, d, x, red, l); }
  }

  // s without its one occurrence of x.
  ghost predicate IsWithout(s': seq<RbNode>, s: seq<RbNode>, x: RbNode) {
    exists i :: 0 <= i < |s| && s[i] == x && s' == s[..i] + s[i + 1..]
  }

  lemma WithoutMembers(s': seq<RbNode>, s: seq<RbNode>, x: RbNode)
    requires IsWithout(s', s, x)
    ensures forall j :: 0 <= j < |s'| ==> s'[j] in s
    ensures NoRepeat(s) ==> x !in s' && NoRepeat(s')
  {
  }

  lemma WithoutMiddle(pre: seq<RbNode>, x: RbNode, post: seq<RbNode>)
    ensures IsWithout(pre + post, pre + [x] + post, x)
  {
    var s := pre + [x] + post;
    assert s[|pre|] == x && s[..|pre|] == pre && s[|pre| + 1..] == post;
  }

  lemma Regroup(b: seq<RbNode>, l: seq<RbNode>, k: seq<RbNode>, r: seq<RbNode>, a: seq<RbNode>)
    ensures b + (l + k + r) + a == (b + l) + k + (r + a)
    ensures b + l + k == b + (l + k)
  {
  }

  lemma LoneOrder(c: Path, t: Tree)
    requires t.Node? && (t.left.Leaf? || t.right.Leaf?)
    ensures IsWithout(Whole(c, if t.left.Leaf? then t.right else t.left), Whole(c, t), t.key)
  {
    var b, l, r, a := Before(c), Inorder(t.left), Inorder(t.right), After(c);
    assert Whole(c, t) == b + (l + [t.key] + r) + a;
    if t.left.Leaf? {
      assert l == [] && Whole(c, t.right) == b + (l + [] + r) + a;
    } else {
      assert r == [] && Whole(c, t.left) == b + (l + [] + r) + a;
    }
    hide *;
    Regroup(b, l, [t.key], r, a);
    Regroup(b, l, [], r, a);
    WithoutMiddle(b + l, t.key, r + a);
  }

  lemma FullOrder(d: Path, s: Tree, inner: Path, t: Tree)
    requires s.Node? && AllLeft(inner) && t.Node? && t.left.Leaf? && Plug(inner, t) == s.right
    ensures IsWithout(Whole(Append(inner, InRight(d, t.key, s.red, s.left)), t.right), Whole(d, s), s.key)
  {
    hide *;
    SuccessorOrder(d, s.left, s.key, s.red, inner, t.key, t.red, t.right);
    var pre, tail := Before(d) + Inorder(s.left), Inorder(t.right) + After(inner) + After(d);
    WithoutMiddle(pre, s.key, [t.key] + tail);
    Regroup(pre, [t.key], tail, [], []);
  }

  // The laws at the hole the successor left, once it took the victim's place.
  lemma FullLawful(d: Path, s: Tree, inner: Path, t: Tree)
    returns (h: nat)
    requires RedBlack(Plug(d, s)) && s.Node?
    requires AllLeft(inner) && t.Node? && t.left.Leaf? && Plug(inner, t) == s.right
    ensures var c := Append(inner, InRight(d, t.key, s.red, s.left));
      if t.red then Lawful(c, t.right, h) else Short(c, t.right, h)
  {
    var o := InRight(d, s.key, s.red, s.left);
    PlugAppend(inner, o, t);
    assert Plug(o, s.right) == Plug(d, s);
    h := Unplug(Append(inner, o), t);
    SpliceOut(Append(inner, o), t, h);
    PathRbRename(inner, o, InRight(d, t.key, s.red, s.left), h);
    if !t.red { h := h - 1; }
  }

  // ---- exchanging a node --------------------------------------------------

  ghost predicate IsExchanged(s': seq<RbNode>, s: seq<RbNode>, x: RbNode, y: RbNode) {
    exists i :: 0 <= i < |s| && s[i] == x && s' == s[i := y]
  }

  lemma Exchanged(c: Path, t: Tree, y: RbNode)
    requires t.Node? && RedBlack(Plug(c, t))
    ensures var t' := Node(t.left, y, t.red, t.right);
      RedBlack(Plug(c, t')) && Inorder(Plug(c, t')) == Whole(c, t') &&
      IsExchanged(Whole(c, t'), Whole(c, t), t.key, y)
  {
    var t' := Node(t.left, y, t.red, t.right);
    var h := Unplug(c, t);
    LawfulWhole(c, t', h);
    SplitOrder(c, t);
    SplitOrder(c, t');
    hide *;
    MiddleExchanged(Before(c) + Inorder(t.left), t.key, y, Inorder(t.right) + After(c));
  }

  lemma MiddleExchanged(pre: seq<RbNode>, x: RbNode, y: RbNode, post: seq<RbNode>)
    ensures IsExchanged(pre + [y] + post, pre + [x] + post, x, y)
  {
    var s := pre + [x] + post;
    assert s[|pre|] == x && s[|pre| := y] == pre + [y] + post;
  }

  // ---- neighbours ---------------------------------------------------------

  // r follows n in s, or n is last and r is null.
  ghost predicate Follows(r: RbNode?, n: RbNode, s: seq<RbNode>) {
    forall i :: 0 <= i < |s| && s[i] == n ==> r == if i + 1 < |s| then s[i + 1] else null
  }

  lemma FollowsAt(r: RbNode?, n: RbNode, s: seq<RbNode>, i: nat)
    requires Follows(r, n, s) && i < |s| && s[i] == n
    ensures r == if i + 1 < |s| then s[i + 1] else null
  {
  }

  lemma PrecedesAt(r: RbNode?, n: RbNode, s: seq<RbNode>, i: nat)
    requires Precedes(r, n, s) && i < |s| && s[i] == n
    ensures r == if i > 0 then s[i - 1] else null
  {
  }

  lemma PrevUndoesNext(s: seq<RbNode>, n: RbNode, r: RbNode, back: RbNode?)
    requires n in s && Follows(r, n, s) && Precedes(back, r, s)
    ensures r in s && back == n
  {
    hide Follows, Precedes;
    var i: nat :| i < |s| && s[i] == n;
    FollowsAt(r, n, s, i);
    if i + 1 < |s| {
      PrecedesAt(back, r, s, i + 1);
    }
  }

  lemma NextUndoesPrev(s: seq<RbNode>, n: RbNode, r: RbNode, forth: RbNode?)
    requires n in s && Precedes(r, n, s) && Follows(forth, r, s)
    ensures r in s && forth == n
  {
    hide Follows, Precedes;
    var i: nat :| i < |s| && s[i] == n;
    PrecedesAt(r, n, s, i);
    if i > 0 {
      FollowsAt(forth, r, s, i - 1);
    }
  }

  ghost predicate Precedes(r: RbNode?, n: RbNode, s: seq<RbNode>) {
    forall i :: 0 <= i < |s| && s[i] == n ==> r == if i > 0 then s[i - 1] else null
  }

  lemma Neighbours(pre: seq<RbNode>, n: RbNode, post: seq<RbNode>, s: seq<RbNode>)
    requires s == pre + [n] + post && NoRepeat(s)
    ensures Follows(if post == [] then null else post[0], n, s)
    ensures Precedes(if pre == [] then null else pre[|pre| - 1], n, s)
  {
    assert s[|pre|] == n;
  }

  lemma EmptyOrder(t: Tree)
    ensures t.Leaf? <==> Inorder(t) == []
  {
  }

  lemma SplitOrder(c: Path, t: Tree)
    requires t.Node?
    ensures Whole(c, t) == (Before(c) + Inorder(t.left)) + [t.key] + (Inorder(t.right) + After(c))
  {
    Regroup(Before(c), Inorder(t.left), [t.key], Inorder(t.right), After(c));
  }

  // Climbing from a right child changes nothing after it, from a left child
  // nothing before it.
  lemma ClimbOrder(c: Path, t: Tree)
    requires !c.Top?
    ensures c.InRight? ==> After(c.up) == After(c) && Before(c.up) + Inorder(Join(c, t)) == Before(c) + Inorder(t)
    ensures c.InLeft? ==> Before(c.up) == Before(c) && Inorder(Join(c, t)) + After(c.up) == Inorder(t) + After(c)
    ensures c.InLeft? ==> After(c) != [] && After(c)[0] == c.key
    ensures c.InRight? ==> Before(c) != [] && Before(c)[|Before(c)| - 1] == c.key
  {
  }

  predicate AllRight(c: Path) {
    c.Top? || (c.InRight? && AllRight(c.up))
  }

  lemma {:induction false} AllRightAfter(c: Path)
    requires AllRight(c)
    ensures After(c) == []
  {
    if !c.Top? { AllRightAfter(c.up); }
  }

  // The leftmost node of a subtree comes first in it, the rightmost last.
  lemma LeftmostFirst(inner: Path, t: Tree)
    requires AllLeft(inner) && t.Node? && t.left.Leaf?
    ensures Inorder(Plug(inner, t)) != [] && Inorder(Plug(inner, t))[0] == t.key
  {
    AllLeftBefore(inner);
    PlugInorder(inner, t);
  }

  lemma RightmostLast(inner: Path, t: Tree)
    requires AllRight(inner) && t.Node? && t.right.Leaf?
    ensures var s := Inorder(Plug(inner, t)); s != [] && s[|s| - 1] == t.key
  {
    AllRightAfter(inner);
    PlugInorder(inner, t);
  }
}
