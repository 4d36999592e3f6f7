// rbtree.c and rbtree.h: the tree as linked nodes. The paths and trees passed
// along are ghosts that say what the pointers stand for.
module RbTree {
  import opened Basics
  import opened RbNodes
  import opened RbShape
  import opened RbHeap
  import opened RbFix

  class RbRoot {
    var node: RbNode?
    ghost var tree: Tree

    // RB_ROOT
    constructor ()
      ensures Valid() && Contents() == [] && tree == Leaf
    {
      node, tree := null, Leaf;
      assert Rb(Leaf, 0);
    }

    // rb_set_parent on a child that may be absent.
    static method Adopt(n: RbNode?, p: RbNode?, ghost t: Tree, ghost was: RbNode?)
      requires Sub(t, n, was) && Distinct(t)
      modifies Nodes(t)
      ensures Sub(t, n, p)
    {
      if n != null {
        n.parent := p;
      }
    }

    // The link from above that held x now holds y.
    method Relink(parent: RbNode?, x: RbNode, y: RbNode?, ghost c: Path)
      requires PathDistinct(c) && Up(c, x, node) && parent == Owner(c) && x !in PathNodes(c)
      modifies this`node, PathNodes(c)
      ensures Up(c, y, node)
    {
      if parent != null {
        if x == parent.left {
          parent.left := y;
        } else {
          parent.right := y;
        }
      } else {
        node := y;
      }
    }

    method RotateLeft(x: RbNode, ghost c: Path, ghost t: Tree)
      requires Zip(c, t, x, node) && t.Node? && t.right.Node?
      modifies this`node, PathNodes(c), Nodes(t)
      ensures Zip(c, RotatedLeft(t), t.right.key, node)
      ensures x.parent == t.right.key
    {
      hide *;
      OpenRight(c, t, x, node);
      var right := x.right;
      var parent := x.parent;
      x.right := right.left;
      Adopt(right.left, x, t.right.left, right);
      right.left := x;
      right.parent := parent;
      Relink(parent, x, right, c);
      x.parent := right;
      CloseLeft(c, t, x, right, node);
    }

    method RotateRight(x: RbNode, ghost c: Path, ghost t: Tree)
      requires Zip(c, t, x, node) && t.Node? && t.left.Node?
      modifies this`node, PathNodes(c), Nodes(t)
      ensures Zip(c, RotatedRight(t), t.left.key, node)
      ensures x.parent == t.left.key
    {
      hide *;
      OpenLeft(c, t, x, node);
      var left := x.left;
      var parent := x.parent;
      x.left := left.right;
      Adopt(left.right, x, t.left.right, left);
      left.right := x;
      left.parent := parent;
      Relink(parent, x, left, c);
      x.parent := left;
      CloseRight(c, t, x, left, node);
    }

    // rb_set_red / rb_set_black / rb_set_color on the node at the position.
    method Paint(x: RbNode, red: bool, ghost c: Path, ghost t: Tree)
      requires Zip(c, t, x, node)
      modifies x`red
      ensures Zip(c, Painted(t, red), x, node) && x.red == red
    {
      assert x in Nodes(t);
      x.red := red;
    }

    // The same on both a node and its left or right child.
    method PaintWithLeft(x: RbNode, red: bool, childRed: bool, ghost c: Path, ghost t: Tree)
      requires Zip(c, t, x, node) && t.Node? && t.left.Node?
      modifies Nodes(t)
      ensures Zip(c, Node(Painted(t.left, childRed), x, red, t.right), x, node)
    {
      hide Zip, Nodes;
      ZipDown(c, t, x, node);
      ghost var c' := InLeft(c, x, t.red, t.right);
      ZipFocus(c', t.left, x.left, node);
      Paint(x.left, childRed, c', t.left);
      ZipUp(c', Painted(t.left, childRed), x.left, node);
      Paint(x, red, c, Node(Painted(t.left, childRed), x, t.red, t.right));
    }

    method PaintWithRight(x: RbNode, red: bool, childRed: bool, ghost c: Path, ghost t: Tree)
      requires Zip(c, t, x, node) && t.Node? && t.right.Node?
      modifies Nodes(t)
      ensures Zip(c, Node(t.left, x, red, Painted(t.right, childRed)), x, node)
    {
      hide Zip, Nodes;
      ZipDown(c, t, x, node);
      ghost var c' := InRight(c, x, t.red, t.left);
      ZipFocus(c', t.right, x.right, node);
      Paint(x.right, childRed, c', t.right);
      ZipUp(c', Painted(t.right, childRed), x.right, node);
      Paint(x, red, c, Node(t.left, x, t.red, Painted(t.right, childRed)));
    }

    // How n, its red owner and its grandparent sit.
    lemma Generations(n: RbNode, c: Path, t: Tree, h: nat)
      requires Zip(c, t, n, node) && Inserting(c, t, h) && !c.Top? && c.red
      ensures !c.up.Top? && c.key.parent == c.up.key
      ensures c.InLeft? <==> c.key.left == n
      ensures c.InRight? <==> c.key.right == n
      ensures c.up.InLeft? <==> c.key == c.up.key.left
      ensures c.up.InRight? <==> c.key == c.up.key.right
      ensures var uncle := if c.up.InLeft? then c.up.key.right else c.up.key.left;
        IsRed(c.up.sibling) <==> uncle != null && uncle.red
    {
      hide Zip;
      Grandparent(c, t, h);
      ZipFocus(c, t, n, node);
      ZipUp(c, t, n, node);
      Sides(c, t, n, node);
      Sides(c.up, Join(c, t), c.key, node);
    }

    // Red uncle: parent and uncle turn black, gparent red; gparent is next.
    method FlipColours(n: RbNode, uncle: RbNode, parent: RbNode, gparent: RbNode,
                       ghost c: Path, ghost t: Tree, ghost h: nat)
      returns (ghost c': Path, ghost t': Tree, ghost h': nat)
      requires Zip(c, t, n, node) && Inserting(c, t, h) && parent == Owner(c) && c.red
      requires !c.up.Top? && gparent == c.up.key && IsRed(c.up.sibling)
      requires uncle == if c.up.InLeft? then gparent.right else gparent.left
      modifies Whole(c, t)
      ensures Zip(c', t', gparent, node) && Inserting(c', t', h') && Whole(c', t') == Whole(c, t)
      ensures gparent.parent == Owner(c') && (!c'.Top? ==> c'.key.red == c'.red)
      ensures Depth(c') < Depth(c)
    {
      hide Zip, Nodes, PathNodes, Whole, Inorder, Inserting, Rb, PathRb;
      ghost var p := Join(c, t);
      ghost var g := Join(c.up, p);
      ZipFocus(c, t, n, node);
      c', t', h' := c.up.up, Flip(g), h + 1;
      ZipUp(c, t, n, node);
      ZipUp(c.up, p, parent, node);
      Sides(c.up, p, parent, node);
      WholeNodes(c', g);
      WholeUp(c, t);
      WholeUp(c.up, p);
      InsertFlip(c, t, h);
      ZipDown(c', g, gparent, node);
      if parent == gparent.left {
        ZipFocus(InRight(c', gparent, g.red, p), g.right, uncle, node);
        Paint(uncle, false, InRight(c', gparent, g.red, p), g.right);
        ZipUp(InRight(c', gparent, g.red, p), Painted(g.right, false), uncle, node);
        ghost var g' := Node(p, gparent, g.red, Painted(g.right, false));
        WholePainted(c', g, g.red, false, false);
        WholeNodes(c', g');
        PaintWithLeft(gparent, true, false, c', g');
      } else {
        ZipFocus(InLeft(c', gparent, g.red, p), g.left, uncle, node);
        Paint(uncle, false, InLeft(c', gparent, g.red, p), g.left);
        ZipUp(InLeft(c', gparent, g.red, p), Painted(g.left, false), uncle, node);
        ghost var g' := Node(Painted(g.left, false), gparent, g.red, p);
        WholePainted(c', g, g.red, false, false);
        WholeNodes(c', g');
        PaintWithRight(gparent, true, false, c', g');
      }
      ZipFocus(c', t', gparent, node);
    }

    // A right child of a red left child: they rotate and trade names.
    method StraightenLeft(n: RbNode, parent: RbNode, ghost c: Path, ghost t: Tree, ghost h: nat)
      returns (ghost c': Path, ghost t': Tree)
      requires Zip(c, t, n, node) && Inserting(c, t, h) && c.InRight? && c.red && parent == c.key
      modifies this`node, Whole(c, t)
      ensures c'.InLeft? && c'.red && c'.up == c.up && c'.key == n && Depth(c') == Depth(c)
      ensures Zip(c', t', parent, node) && Inserting(c', t', h) && Whole(c', t') == Whole(c, t)
    {
      hide Zip, Nodes, PathNodes, Inorder, Whole, Inserting, Rb, PathRb;
      ghost var p := Join(c, t);
      ZipFocus(c, t, n, node);
      ZipUp(c, t, n, node);
      WholeUp(c, t);
      WholeNodes(c.up, p);
      Grandparent(c, t, h);
      InsertInner(c, t, h);
      RotateLeft(parent, c.up, p);
      ZipDown(c.up, RotatedLeft(p), n, node);
      c', t' := InLeft(c.up, n, true, t.right), RotatedLeft(p).left;
      ZipFocus(c', t', n.left, node);
    }

    // A left child of a red right child: they rotate and trade names.
    method StraightenRight(n: RbNode, parent: RbNode, ghost c: Path, ghost t: Tree, ghost h: nat)
      returns (ghost c': Path, ghost t': Tree)
      requires Zip(c, t, n, node) && Inserting(c, t, h) && c.InLeft? && c.red && parent == c.key
      modifies this`node, Whole(c, t)
      ensures c'.InRight? && c'.red && c'.up == c.up && c'.key == n && Depth(c') == Depth(c)
      ensures Zip(c', t', parent, node) && Inserting(c', t', h) && Whole(c', t') == Whole(c, t)
    {
      hide Zip, Nodes, PathNodes, Inorder, Whole, Inserting, Rb, PathRb;
      ghost var p := Join(c, t);
      ZipFocus(c, t, n, node);
      ZipUp(c, t, n, node);
      WholeUp(c, t);
      WholeNodes(c.up, p);
      Grandparent(c, t, h);
      InsertInner(c, t, h);
      RotateRight(parent, c.up, p);
      ZipDown(c.up, RotatedRight(p), n, node);
      c', t' := InRight(c.up, n, true, t.left), RotatedRight(p).right;
      ZipFocus(c', t', n.right, node);
    }

    // The owner of n turns black, the grandparent red, and they rotate.
    method RaiseLeftOwner(n: RbNode, parent: RbNode, gparent: RbNode, ghost c: Path, ghost t: Tree, ghost h: nat)
      returns (ghost c': Path)
      requires Zip(c, t, n, node) && Inserting(c, t, h) && c.InLeft? && c.red && c.up.InLeft?
      requires parent == c.key && gparent == c.up.key && !IsRed(c.up.sibling)
      modifies this`node, Whole(c, t)
      ensures Zip(c', t, n, node) && Inserting(c', t, h) && Whole(c', t) == Whole(c, t)
      ensures n.parent == Owner(c') && (!c'.Top? ==> c'.key.red == c'.red)
      ensures Depth(c') < Depth(c)
    {
      hide Zip, Nodes, PathNodes, Inorder, Whole, Inserting, Rb, PathRb;
      ghost var p, top := Join(c, t), c.up.up;
      ghost var g := Join(c.up, p);
      ZipFocus(c, t, n, node);
      ZipUp(c, t, n, node);
      ZipUp(c.up, p, parent, node);
      WholeUp(c, t);
      WholeUp(c.up, p);
      WholeNodes(top, g);
      InsertOuter(c, t, h);
      PaintWithLeft(gparent, true, false, top, g);
      ghost var g' := Node(Painted(p, false), gparent, true, g.right);
      WholePainted(top, g, true, false, false);
      WholeNodes(top, g');
      RotateRight(gparent, top, g');
      ZipDown(top, RotatedRight(g'), parent, node);
      c' := InLeft(top, parent, false, RotatedRight(g').right);
      ZipFocus(c', t, parent.left, node);
    }

    // The owner of n turns black, the grandparent red, and they rotate.
    method RaiseRightOwner(n: RbNode, parent: RbNode, gparent: RbNode, ghost c: Path, ghost t: Tree, ghost h: nat)
      returns (ghost c': Path)
      requires Zip(c, t, n, node) && Inserting(c, t, h) && c.InRight? && c.red && c.up.InRight?
      requires parent == c.key && gparent == c.up.key && !IsRed(c.up.sibling)
      modifies this`node, Whole(c, t)
      ensures Zip(c', t, n, node) && Inserting(c', t, h) && Whole(c', t) == Whole(c, t)
      ensures n.parent == Owner(c') && (!c'.Top? ==> c'.key.red == c'.red)
      ensures Depth(c') < Depth(c)
    {
      hide Zip, Nodes, PathNodes, Inorder, Whole, Inserting, Rb, PathRb;
      ghost var p, top := Join(c, t), c.up.up;
      ghost var g := Join(c.up, p);
      ZipFocus(c, t, n, node);
      ZipUp(c, t, n, node);
      ZipUp(c.up, p, parent, node);
      WholeUp(c, t);
      WholeUp(c.up, p);
      WholeNodes(top, g);
      InsertOuter(c, t, h);
      PaintWithRight(gparent, true, false, top, g);
      ghost var g' := Node(g.left, gparent, true, Painted(p, false));
      WholePainted(top, g, true, false, false);
      WholeNodes(top, g');
      RotateLeft(gparent, top, g');
      ZipDown(top, RotatedLeft(g'), parent, node);
      c' := InRight(top, parent, false, RotatedLeft(g').left);
      ZipFocus(c', t, parent.right, node);
    }

    // rb_set_black(root->rb_node), once the only doubtful node is the root.
    method BlackenRoot(n: RbNode, ghost c: Path, ghost t: Tree, ghost h: nat)
      requires Zip(c, t, n, node) && Inserting(c, t, h) && (c.Top? || !c.red)
      modifies this`tree, Whole(c, t)
      ensures Zip(Top, tree, node, node) && RedBlack(tree)
      ensures Inorder(tree) == Whole(c, t)
    {
      hide Zip, Nodes, PathNodes, Plug, Inorder, Whole, Inserting, RedBlack;
      Unzip(c, t, n, node);
      InsertDone(c, t, h);
      ghost var whole := Plug(c, t);
      WholeNodes(Top, whole);
      WholeTop(whole);
      ZipFocus(Top, whole, node, node);
      tree := Blacken(whole);
      Paint(node, false, Top, whole);
    }

    method InsertColor(start: RbNode, ghost c0: Path, ghost t0: Tree, ghost h0: nat)
      requires Zip(c0, t0, start, node) && Inserting(c0, t0, h0)
      modifies this, Whole(c0, t0)
      ensures Zip(Top, tree, node, node) && RedBlack(tree)
      ensures Inorder(tree) == Whole(c0, t0)
    {
      hide Zip, Nodes, PathNodes, Plug, Inorder, Whole, Inserting, RedBlack, Depth, IsRed;
      var n: RbNode := start;
      ghost var c, t, h := c0, t0, h0;
      ZipFocus(c, t, n, node);
      while n.parent != null && n.parent.red
        invariant Zip(c, t, n, node) && Inserting(c, t, h) && Whole(c, t) == Whole(c0, t0)
        invariant n.parent == Owner(c) && (!c.Top? ==> c.key.red == c.red)
        decreases Depth(c)
      {
        var parent: RbNode := n.parent;
        Generations(n, c, t, h);
        var gparent: RbNode := parent.parent;
        if parent == gparent.left {
          var uncle := gparent.right;
          if uncle != null && uncle.red {
            c, t, h := FlipColours(n, uncle, parent, gparent, c, t, h);
            n := gparent;
            continue;
          }
          if parent.right == n {
            c, t := StraightenLeft(n, parent, c, t, h);
            parent, n := n, parent;
          }
          c := RaiseLeftOwner(n, parent, gparent, c, t, h);
        } else {
          var uncle := gparent.left;
          if uncle != null && uncle.red {
            c, t, h := FlipColours(n, uncle, parent, gparent, c, t, h);
            n := gparent;
            continue;
          }
          if parent.left == n {
            c, t := StraightenRight(n, parent, c, t, h);
            parent, n := n, parent;
          }
          c := RaiseRightOwner(n, parent, gparent, c, t, h);
        }
      }
      BlackenRoot(n, c, t, h);
    }

    // rb_set_red(other), or any colour, on the sibling of the position.
    method PaintSibling(n: RbNode?, parent: RbNode, other: RbNode, red: bool, ghost c: Path, ghost t: Tree)
      requires Zip(c, t, n, node) && parent == Owner(c) && c.sibling.Node?
      requires other == if c.InLeft? then parent.right else parent.left
      modifies other`red
      ensures Zip(WithSibling(c, Painted(c.sibling, red)), t, n, node)
    {
      hide Zip;
      ZipFocus(c, t, n, node);
      ZipAcross(c, t, n, node);
      Paint(other, red, Across(c, t), c.sibling);
      ZipAcross(Across(c, t), Painted(c.sibling, red), other, node);
      ghost var c' := WithSibling(c, Painted(c.sibling, red));
      ZipFocus(c', t, if c.InLeft? then parent.left else parent.right, node);
    }

    method RaiseRightSibling(n: RbNode?, parent: RbNode, other: RbNode, ghost c: Path, ghost t: Tree, ghost h: nat)
      requires Zip(c, t, n, node) && Short(c, t, h) && c.InLeft? && IsRed(c.sibling)
      requires parent == c.key && other == parent.right
      modifies this`node, Whole(c, t)
      ensures Zip(UnderRedSibling(c), t, n, node)
    {
      hide Zip, Nodes, PathNodes, Inorder, Whole, Short, Rb, PathRb;
      ghost var c', g := UnderRedSibling(c), Join(c, t);
      ghost var g' := Node(t, parent, true, Painted(g.right, false));
      ZipFocus(c, t, n, node);
      ZipUp(c, t, n, node);
      WholeUp(c, t);
      WholeNodes(c.up, g);
      WholePainted(c.up, g, true, false, false);
      WholeNodes(c.up, g');
      PaintWithRight(parent, true, false, c.up, g);
      RotateLeft(parent, c.up, g');
      ZipDown(c.up, RotatedLeft(g'), c.sibling.key, node);
      ZipFocus(c'.up, RotatedLeft(g').left, c.sibling.key.left, node);
      ZipDown(c'.up, RotatedLeft(g').left, parent, node);
      ZipFocus(c', t, parent.left, node);
    }

    method RaiseInnerNephewOfRight(n: RbNode?, other: RbNode, ghost c: Path, ghost t: Tree)
      requires Zip(c, t, n, node) && c.InLeft? && c.sibling.Node? && c.sibling.left.Node?
      requires other == c.key.right
      modifies this`node, Whole(c, t)
      ensures Zip(UnderNephew(c), t, n, node)
    {
      hide Zip, Nodes, PathNodes, Inorder, Whole;
      ghost var a, s := Across(c, t), c.sibling;
      ghost var s' := Node(Painted(s.left, false), s.key, true, s.right);
      ZipFocus(c, t, n, node);
      ZipAcross(c, t, n, node);
      ZipFocus(a, s, other, node);
      WholeAcross(c, t);
      WholeNodes(a, s);
      WholePainted(a, s, true, false, false);
      WholeNodes(a, s');
      PaintWithLeft(other, true, false, a, s);
      RotateRight(other, a, s');
      ZipAcross(a, RotatedRight(s'), s.left.key, node);
      ZipFocus(UnderNephew(c), t, c.key.left, node);
    }

    method RaiseRightSiblingLast(n: RbNode?, parent: RbNode, other: RbNode, ghost c: Path, ghost t: Tree)
      requires Zip(c, t, n, node) && c.InLeft? && c.sibling.Node? && c.sibling.right.Node?
      requires parent == c.key && other == parent.right && parent.red == c.red
      modifies this`node, Whole(c, t)
      ensures Zip(c.up, OverOwner(c, t), c.sibling.key, node)
    {
      hide Zip, Nodes, PathNodes, Inorder, Whole;
      ghost var a, s := Across(c, t), c.sibling;
      ghost var s' := Node(s.left, s.key, c.red, Painted(s.right, false));
      ghost var g := Node(t, parent, c.red, s');
      ZipAcross(c, t, n, node);
      ZipFocus(a, s, other, node);
      WholeAcross(c, t);
      WholeNodes(a, s);
      WholePainted(a, s, c.red, false, false);
      PaintWithRight(other, parent.red, false, a, s);
      ZipUp(a, s', other, node);
      WholeUp(a, s');
      ZipFocus(c.up, g, parent, node);
      WholePainted(c.up, g, false, false, g.right.red);
      WholeNodes(c.up, g);
      Paint(parent, false, c.up, g);
      WholeNodes(c.up, Painted(g, false));
      RotateLeft(parent, c.up, Painted(g, false));
    }

    method RaiseLeftSibling(n: RbNode?, parent: RbNode, other: RbNode, ghost c: Path, ghost t: Tree, ghost h: nat)
      requires Zip(c, t, n, node) && Short(c, t, h) && c.InRight? && IsRed(c.sibling)
      requires parent == c.key && other == parent.left
      modifies this`node, Whole(c, t)
      ensures Zip(UnderRedSibling(c), t, n, node)
    {
      hide Zip, Nodes, PathNodes, Inorder, Whole, Short, Rb, PathRb;
      ghost var c', g := UnderRedSibling(c), Join(c, t);
      ghost var g' := Node(Painted(g.left, false), parent, true, t);
      ZipFocus(c, t, n, node);
      ZipUp(c, t, n, node);
      WholeUp(c, t);
      WholeNodes(c.up, g);
      WholePainted(c.up, g, true, false, false);
      WholeNodes(c.up, g');
      PaintWithLeft(parent, true, false, c.up, g);
      RotateRight(parent, c.up, g');
      ZipDown(c.up, RotatedRight(g'), c.sibling.key, node);
      ZipFocus(c'.up, RotatedRight(g').right, c.sibling.key.right, node);
      ZipDown(c'.up, RotatedRight(g').right, parent, node);
      ZipFocus(c', t, parent.right, node);
    }

    method RaiseInnerNephewOfLeft(n: RbNode?, other: RbNode, ghost c: Path, ghost t: Tree)
      requires Zip(c, t, n, node) && c.InRight? && c.sibling.Node? && c.sibling.right.Node?
      requires other == c.key.left
      modifies this`node, Whole(c, t)
      ensures Zip(UnderNephew(c), t, n, node)
    {
      hide Zip, Nodes, PathNodes, Inorder, Whole;
      ghost var a, s := Across(c, t), c.sibling;
      ghost var s' := Node(s.left, s.key, true, Painted(s.right, false));
      ZipFocus(c, t, n, node);
      ZipAcross(c, t, n, node);
      ZipFocus(a, s, other, node);
      WholeAcross(c, t);
      WholeNodes(a, s);
      WholePainted(a, s, true, false, false);
      WholeNodes(a, s');
      PaintWithRight(other, true, false, a, s);
      RotateLeft(other, a, s');
      ZipAcross(a, RotatedLeft(s'), s.right.key, node);
      ZipFocus(UnderNephew(c), t, c.key.right, node);
    }

    method RaiseLeftSiblingLast(n: RbNode?, parent: RbNode, other: RbNode, ghost c: Path, ghost t: Tree)
      requires Zip(c, t, n, node) && c.InRight? && c.sibling.Node? && c.sibling.left.Node?
      requires parent == c.key && other == parent.left && parent.red == c.red
      modifies this`node, Whole(c, t)
      ensures Zip(c.up, OverOwner(c, t), c.sibling.key, node)
    {
      hide Zip, Nodes, PathNodes, Inorder, Whole;
      ghost var a, s := Across(c, t), c.sibling;
      ghost var s' := Node(Painted(s.left, false), s.key, c.red, s.right);
      ghost var g := Node(s', parent, c.red, t);
      ZipAcross(c, t, n, node);
      ZipFocus(a, s, other, node);
      WholeAcross(c, t);
      WholeNodes(a, s);
      WholePainted(a, s, c.red, false, false);
      PaintWithLeft(other, parent.red, false, a, s);
      ZipUp(a, s', other, node);
      WholeUp(a, s');
      ZipFocus(c.up, g, parent, node);
      WholePainted(c.up, g, false, g.left.red, false);
      WholeNodes(c.up, g);
      Paint(parent, false, c.up, g);
      WholeNodes(c.up, Painted(g, false));
      RotateRight(parent, c.up, Painted(g, false));
    }

    // The red outer nephew case ends with the whole tree lawful again.
    lemma SiblingLastDone(c: Path, t: Tree, h: nat, n: RbNode?) returns (h': nat)
      requires Short(c, t, h) && !IsRed(t) && !c.Top? && !IsRed(c.sibling) && c.sibling.Node?
      requires if c.InLeft? then IsRed(c.sibling.right) else IsRed(c.sibling.left)
      requires Zip(c.up, OverOwner(c, t), n, node)
      ensures var whole := Plug(c.up, OverOwner(c, t));
        Zip(Top, whole, node, node) && Short(Top, whole, h') && Whole(Top, whole) == Whole(c, t)
    {
      var o, ho := OverOwner(c, t), if c.red then h + 1 else h + 2;
      EraseOuterNephew(c, t, h);
      Unzip(c.up, o, n, node);
      LawfulWhole(c.up, o, ho);
      var whole := Plug(c.up, o);
      h' :| Rb(whole, h');
      WholeTop(whole);
    }

    // rb_set_red(other), then node = parent, parent = rb_parent(node).
    method PassUp(n: RbNode?, parent: RbNode, other: RbNode, ghost c: Path, ghost t: Tree, ghost h: nat)
      returns (ghost c': Path, ghost t': Tree, ghost h': nat)
      requires Zip(c, t, n, node) && Short(c, t, h) && !IsRed(t) && parent == Owner(c)
      requires c.sibling.Node? && other == if c.InLeft? then parent.right else parent.left
      requires !IsRed(c.sibling) && !IsRed(c.sibling.left) && !IsRed(c.sibling.right)
      modifies Whole(c, t)
      ensures Zip(c', t', parent, node) && Short(c', t', h') && Whole(c', t') == Whole(c, t)
      ensures c' == c.up && (IsRed(t') <==> c.red) && Depth(c') < Depth(c)
      ensures parent.parent == Owner(c') && parent.red == IsRed(t') && (c'.Top? <==> parent == node)
    {
      hide Zip, Nodes, PathNodes, Inorder, Whole, Short, Rb, PathRb;
      ghost var d := WithSibling(c, Painted(c.sibling, true));
      c', t', h' := c.up, Join(d, t), if c.red then h else h + 1;
      ZipAcross(c, t, n, node);
      ZipFocus(Across(c, t), c.sibling, other, node);
      WholeAcross(c, t);
      WholeNodes(Across(c, t), c.sibling);
      EraseBlackNephews(c, t, h);
      PaintSibling(n, parent, other, true, c, t);
      ZipUp(d, t, n, node);
      ZipFocus(c', t', parent, node);
      RootIsTop(c', t', parent, node);
    }

    ghost method Record(t: Tree)
      requires Zip(Top, t, node, node)
      modifies this`tree
      ensures tree == t && Zip(Top, t, node, node)
    {
      tree := t;
    }

    // if (node) rb_set_black(node), where the fix-up stops.
    method BlackenShort(n: RbNode?, ghost c: Path, ghost t: Tree, ghost h: nat)
      requires Zip(c, t, n, node) && Short(c, t, h) && (c.Top? || IsRed(t))
      modifies this`tree, Whole(c, t)
      ensures Zip(Top, tree, node, node) && RedBlack(tree)
      ensures Inorder(tree) == Whole(c, t)
    {
      hide Zip, Nodes, PathNodes, Plug, Inorder, Whole, RedBlack, Short, Lawful;
      EraseStop(c, t, h);
      LawfulWhole(c, Blacken(t), if IsRed(t) then h + 1 else h);
      WholeNodes(c, t);
      ZipFocus(c, t, n, node);
      if n != null {
        Paint(n, false, c, t);
      }
      Unzip(c, Blacken(t), n, node);
      Record(Plug(c, Blacken(t)));
    }

    // One round of the fix-up for a position that is a left child; stop means
    // nothing is short any more and m is the root.
    method FixLeft(n: RbNode?, owner: RbNode, ghost c0: Path, ghost t: Tree, ghost h: nat)
      returns (m: RbNode?, parent: RbNode?, stop: bool, ghost c': Path, ghost t': Tree, ghost h': nat)
      requires Zip(c0, t, n, node) && Short(c0, t, h) && !IsRed(t) && c0.InLeft? && owner == c0.key
      modifies this`node, Whole(c0, t)
      ensures Zip(c', t', m, node) && Short(c', t', h') && Whole(c', t') == Whole(c0, t)
      ensures if stop then c'.Top?
              else parent == Owner(c') && (c'.Top? <==> m == node) && (IsRed(t') <==> m != null && m.red)
      ensures !stop ==> Depth(c') < Depth(c0) || (Depth(c') == Depth(c0) && IsRed(t'))
    {
      hide Zip, Nodes, PathNodes, Plug, Inorder, Whole, Short, RedBlack, Rb, PathRb, RbBelowRoot, Lawful;
      ghost var c := c0;
      parent := owner;
      stop := false;
      SiblingThere(c, t, h);
      Nephews(c, t, n, node);
      ZipFocus(c, t, n, node);
      var other: RbNode := parent.right;
      if other.red {
        EraseRedSibling(c, t, h);
        RaiseRightSibling(n, parent, other, c, t, h);
        c := UnderRedSibling(c);
        ZipFocus(c, t, n, node);
        SiblingThere(c, t, h);
        Nephews(c, t, n, node);
        other := parent.right;
      }
      if (other.left == null || !other.left.red) && (other.right == null || !other.right.red) {
        c', t', h' := PassUp(n, parent, other, c, t, h);
        m := parent;
        parent := m.parent;
      } else {
        if other.right == null || !other.right.red {
          EraseInnerNephew(c, t, h);
          RaiseInnerNephewOfRight(n, other, c, t);
          c := UnderNephew(c);
          ZipFocus(c, t, n, node);
          Nephews(c, t, n, node);
          other := parent.right;
        }
        RaiseRightSiblingLast(n, parent, other, c, t);
        h' := SiblingLastDone(c, t, h, c.sibling.key);
        c', t' := Top, Plug(c.up, OverOwner(c, t));
        m := node;
        stop := true;
      }
    }

    // One round of the fix-up for a position that is a right child; stop means
    // nothing is short any more and m is the root.
    method FixRight(n: RbNode?, owner: RbNode, ghost c0: Path, ghost t: Tree, ghost h: nat)
      returns (m: RbNode?, parent: RbNode?, stop: bool, ghost c': Path, ghost t': Tree, ghost h': nat)
      requires Zip(c0, t, n, node) && Short(c0, t, h) && !IsRed(t) && c0.InRight? && owner == c0.key
      modifies this`node, Whole(c0, t)
      ensures Zip(c', t', m, node) && Short(c', t', h') && Whole(c', t') == Whole(c0, t)
      ensures if stop then c'.Top?
              else parent == Owner(c') && (c'.Top? <==> m == node) && (IsRed(t') <==> m != null && m.red)
      ensures !stop ==> Depth(c') < Depth(c0) || (Depth(c') == Depth(c0) && IsRed(t'))
    {
      hide Zip, Nodes, PathNodes, Plug, Inorder, Whole, Short, RedBlack, Rb, PathRb, RbBelowRoot, Lawful;
      ghost var c := c0;
      parent := owner;
      stop := false;
      SiblingThere(c, t, h);
      Nephews(c, t, n, node);
      ZipFocus(c, t, n, node);
      var other: RbNode := parent.left;
      if other.red {
        EraseRedSibling(c, t, h);
        RaiseLeftSibling(n, parent, other, c, t, h);
        c := UnderRedSibling(c);
        ZipFocus(c, t, n, node);
        SiblingThere(c, t, h);
        Nephews(c, t, n, node);
        other := parent.left;
      }
      if (other.left == null || !other.left.red) && (other.right == null || !other.right.red) {
        c', t', h' := PassUp(n, parent, other, c, t, h);
        m := parent;
        parent := m.parent;
      } else {
        if other.left == null || !other.left.red {
          EraseInnerNephew(c, t, h);
          RaiseInnerNephewOfLeft(n, other, c, t);
          c := UnderNephew(c);
          ZipFocus(c, t, n, node);
          Nephews(c, t, n, node);
          other := parent.left;
        }
        RaiseLeftSiblingLast(n, parent, other, c, t);
        h' := SiblingLastDone(c, t, h, c.sibling.key);
        c', t' := Top, Plug(c.up, OverOwner(c, t));
        m := node;
        stop := true;
      }
    }

    method EraseColor(start: RbNode?, startParent: RbNode?, ghost c0: Path, ghost t0: Tree, ghost h0: nat)
      requires Zip(c0, t0, start, node) && Short(c0, t0, h0) && startParent == Owner(c0)
      modifies this, Whole(c0, t0)
      ensures Zip(Top, tree, node, node) && RedBlack(tree)
      ensures Inorder(tree) == Whole(c0, t0)
    {
      hide Zip, Nodes, PathNodes, Plug, Inorder, Whole, Short, RedBlack, Rb, PathRb, RbBelowRoot, Lawful;
      var n, parent := start, startParent;
      ghost var c, t, h := c0, t0, h0;
      ZipFocus(c, t, n, node);
      RootIsTop(c, t, n, node);
      while (n == null || !n.red) && n != node
        invariant Zip(c, t, n, node) && Short(c, t, h) && Whole(c, t) == Whole(c0, t0)
        invariant parent == Owner(c) && (c.Top? <==> n == node)
        invariant IsRed(t) <==> n != null && n.red
        decreases Depth(c), !IsRed(t)
      {
        SiblingThere(c, t, h);
        Sides(c, t, n, node);
        var stop;
        if parent.left == n {
          n, parent, stop, c, t, h := FixLeft(n, parent, c, t, h);
        } else {
          n, parent, stop, c, t, h := FixRight(n, parent, c, t, h);
        }
        if stop {
          break;
        }
      }
      BlackenShort(n, c, t, h);
    }

    // The node y, outside the tree, takes over all links of old.
    method TakePlace(victim: RbNode, y: RbNode, ghost c: Path, ghost t: Tree)
      requires Zip(c, t, victim, node) && t.left.Node? && y !in Nodes(t) && y !in PathNodes(c)
      modifies this`node, PathNodes(c), Nodes(t), y
      ensures Zip(c, Node(t.left, y, t.red, t.right), y, node)
    {
      hide *;
      OpenRoot(c, t, victim, node);
      y.parent, y.red := victim.parent, victim.red;
      y.right := victim.right;
      y.left := victim.left;
      Relink(victim.parent, victim, y, c);
      Adopt(victim.left, y, t.left, victim);
      Adopt(victim.right, y, t.right, victim);
      CloseRoot(c, t, y, node);
    }

    // The left or right link of parent, which held x, now holds y.
    method SetChild(parent: RbNode, onRight: bool, y: RbNode?, ghost x: RbNode, ghost c: Path)
      requires PathDistinct(c) && Up(c, x, node) && parent == Owner(c) && (onRight <==> c.InRight?)
      modifies parent
      ensures Up(c, y, node)
    {
      if onRight {
        parent.right := y;
      } else {
        parent.left := y;
      }
    }

    // The in-order successor y of victim leaves its place to its right child.
    method CutSuccessor(victim: RbNode, y: RbNode, child: RbNode?, parent: RbNode,
                        ghost inner: Path, ghost d: Path, ghost l: Tree, ghost red: bool, ghost t: Tree)
      requires AllLeft(inner) && Zip(Append(inner, InRight(d, victim, red, l)), t, y, node) && t.left.Leaf?
      requires child == y.right && parent == y.parent
      modifies Whole(Append(inner, InRight(d, victim, red, l)), t)
      ensures Zip(Append(inner, InRight(d, victim, red, l)), t.right, child, node)
    {
      ghost var c := Append(inner, InRight(d, victim, red, l));
      OpenRoot(c, t, y, node);
      WholeNodes(c, t);
      HoleSide(inner, d, victim, red, l);
      assert parent in PathNodes(c);
      assert Nodes(t.right) !! PathNodes(c);
      hide *;
      if child != null {
        Adopt(child, parent, t.right, y);
      }
      if parent == victim {
        SetChild(parent, true, child, y, c);
      } else {
        SetChild(parent, false, child, y, c);
      }
      ZipOf(c, t.right, child, node);
    }

    lemma ZipOf(c: Path, t: Tree, n: RbNode?, root: RbNode?)
      requires PathDistinct(c) && Distinct(t) && PathNodes(c) !! Nodes(t) && Sub(t, n, Owner(c)) && Up(c, n, root)
      ensures Zip(c, t, n, root)
    {
    }

    // At most one child: the child, or nothing, moves up.
    method DetachLone(n: RbNode, child: RbNode?, ghost c: Path, ghost t: Tree)
      requires Zip(c, t, n, node) && (t.left.Leaf? || t.right.Leaf?)
      requires child == if t.left.Leaf? then n.right else n.left
      modifies this`node, Whole(c, t)
      ensures Zip(c, if t.left.Leaf? then t.right else t.left, child, node)
    {
      OpenRoot(c, t, n, node);
      WholeNodes(c, t);
      ghost var s := if t.left.Leaf? then t.right else t.left;
      var parent := n.parent;
      assert PathNodes(c) !! Nodes(s) && Nodes(s) <= Nodes(t);
      hide *;
      if child != null {
        Adopt(child, parent, s, n);
      }
      Relink(parent, n, child, c);
      ZipOf(c, s, child, node);
    }

    // Down to the leftmost node below the right child.
    method Successor(victim: RbNode, ghost d: Path, ghost s: Tree)
      returns (y: RbNode, ghost inner: Path, ghost t: Tree)
      requires Zip(d, s, victim, node) && s.Node? && s.right.Node?
      ensures AllLeft(inner) && Plug(inner, t) == s.right && t.Node? && t.left.Leaf? && t.key == y
      ensures Zip(Append(inner, InRight(d, victim, s.red, s.left)), t, y, node)
    {
      hide Zip, Nodes, PathNodes, Sub, Up, Inorder, Whole;
      ghost var o := InRight(d, victim, s.red, s.left);
      ZipDown(d, s, victim, node);
      ZipFocus(o, s.right, victim.right, node);
      y := victim.right;
      inner, t := Top, s.right;
      ZipDown(o, t, y, node);
      while y.left != null
        invariant Zip(Append(inner, o), t, y, node) && AllLeft(inner) && Plug(inner, t) == s.right && t.Node?
        invariant t.key == y && (y.left == null <==> t.left.Leaf?)
        decreases t
      {
        ZipDown(Append(inner, o), t, y, node);
        y := y.left;
        inner, t := InLeft(inner, t.key, t.red, t.right), t.left;
        ZipDown(Append(inner, o), t, y, node);
      }
    }

    // y, already out of the tree, takes the victim's place above the hole.
    method Promote(victim: RbNode, y: RbNode, ghost child: RbNode?, ghost inner: Path, ghost d: Path,
                   ghost l: Tree, ghost red: bool, ghost r: Tree)
      requires Zip(Append(inner, InRight(d, victim, red, l)), r, child, node) && l.Node?
      requires y !in PathNodes(Append(inner, InRight(d, victim, red, l))) && y !in Nodes(r)
      modifies this`node, PathNodes(Append(inner, InRight(d, victim, red, l))), Nodes(r), y
      ensures Zip(Append(inner, InRight(d, y, red, l)), r, child, node)
    {
      hide Zip, Nodes, PathNodes, Sub, Up, Inorder, Whole, PathDistinct, Plug, Append;
      ghost var o, o' := InRight(d, victim, red, l), InRight(d, y, red, l);
      ghost var rest := Plug(inner, r);
      ghost var s := Node(l, victim, red, rest);
      ZipFocus(Append(inner, o), r, child, node);
      ghost var m := UnzipTo(inner, o, r, child, node);
      ZipUp(o, rest, m, node);
      WholeAppend(inner, o, r);
      WholeUp(o, rest);
      WholeNodes(d, s);
      WholeNodes(Append(inner, o), r);
      TakePlace(victim, y, d, s);
      ZipDown(d, Node(l, y, red, rest), y, node);
      m := Rezip(inner, o', r, y.right, node);
      ZipFocus(Append(inner, o'), r, m, node);
    }

    // Two children: the in-order successor takes the place of the victim.
    method DetachFull(victim: RbNode, ghost d: Path, ghost s: Tree)
      returns (child: RbNode?, parent: RbNode, red: bool, ghost inner: Path, ghost t: Tree)
      requires Zip(d, s, victim, node) && s.Node? && s.left.Node? && s.right.Node?
      modifies this`node, Whole(d, s)
      ensures t.Node? && t.left.Leaf? && red == t.red && AllLeft(inner) && Plug(inner, t) == s.right
      ensures var c := Append(inner, InRight(d, t.key, s.red, s.left));
        Zip(c, t.right, child, node) && parent == Owner(c)
    {
      hide Zip, Nodes, PathNodes, Sub, Up, Inorder, Whole, PathDistinct, AllLeft, Plug;
      ghost var o := InRight(d, victim, s.red, s.left);
      ZipFocus(d, s, victim, node);
      var y: RbNode;
      y, inner, t := Successor(victim, d, s);
      ghost var c := Append(inner, o);
      OpenRoot(c, t, y, node);
      HoleSide(inner, d, victim, s.red, s.left);
      WholeAppend(inner, o, t);
      WholeUp(o, s.right);
      WholeNodes(c, t);
      child := y.right;
      parent := y.parent;
      red := y.red;
      CutSuccessor(victim, y, child, parent, inner, d, s.left, s.red, t);
      if parent == victim {
        parent := y;
      }
      Promote(victim, y, child, inner, d, s.left, s.red, t.right);
    }

    ghost predicate Valid()
      reads this, Nodes(tree)
    {
      Zip(Top, tree, node, node) && RedBlack(tree)
    }

    // The nodes of the tree in order.
    ghost function Contents(): seq<RbNode>
      reads this
    {
      Inorder(tree)
    }

    lemma Find(n: RbNode) returns (c: Path, s: Tree)
      requires Valid() && n in Contents()
      ensures Plug(c, s) == tree && s.Node? && s.key == n && Zip(c, s, n, node) && Whole(c, s) == Contents()
      ensures NoRepeat(Contents())
    {
      InorderDistinct(tree);
      c, s := Locate(tree, n);
      var m := ZipAt(c, s, node);
      ZipFocus(c, s, m, node);
      PlugInorder(c, s);
    }

    // rb_replace_node on a known position.
    method ReplaceAt(victim: RbNode, put: RbNode, ghost c: Path, ghost t: Tree)
      requires Zip(c, t, victim, node) && put !in Nodes(t) && put !in PathNodes(c)
      modifies this`node, PathNodes(c), Nodes(t), put
      ensures Zip(c, Node(t.left, put, t.red, t.right), put, node)
    {
      hide *;
      OpenRoot(c, t, victim, node);
      var parent := victim.parent;
      Relink(parent, victim, put, c);
      assert Sub(t.left, victim.left, victim) && Sub(t.right, victim.right, victim);
      Adopt(victim.left, put, t.left, victim);
      Adopt(victim.right, put, t.right, victim);
      assert Sub(t.left, victim.left, put) && Sub(t.right, victim.right, put) && Up(c, put, node);
      put.parent, put.red, put.right, put.left := victim.parent, victim.red, victim.right, victim.left;
      CloseRoot(c, t, put, node);
    }

    method ReplaceNode(victim: RbNode, put: RbNode)
      requires Valid() && victim in Contents() && put !in Contents()
      modifies this, Contents(), put
      ensures Valid()
      ensures IsExchanged(Contents(), old(Contents()), victim, put)
    {
      hide Zip, Nodes, PathNodes, Inorder, Whole, Plug, RedBlack, IsExchanged;
      ghost var c, s := Find(victim);
      WholeNodes(c, s);
      Exchanged(c, s, put);
      ReplaceAt(victim, put, c, s);
      ghost var s' := Node(s.left, put, s.red, s.right);
      Unzip(c, s', put, node);
      Record(Plug(c, s'));
    }

    method Erase(n: RbNode)
      requires Valid() && n in Contents()
      modifies this, Contents()
      ensures Valid() && IsWithout(Contents(), old(Contents()), n)
    {
      hide Zip, Nodes, PathNodes, Sub, Inorder, Whole, PathDistinct, Plug, Append, RedBlack, Lawful, Short, AllLeft,
        IsWithout;
      ghost var c, s := Find(n);
      ZipDown(c, s, n, node);
      ghost var t: Tree, h: nat;
      var child: RbNode?, parent: RbNode?, red: bool;
      if n.left != null && n.right != null {
        ghost var inner;
        child, parent, red, inner, t := DetachFull(n, c, s);
        FullOrder(c, s, inner, t);
        h := FullLawful(c, s, inner, t);
        c, t := Append(inner, InRight(c, t.key, s.red, s.left)), t.right;
      } else {
        child := if n.left == null then n.right else n.left;
        parent := n.parent;
        red := n.red;
        t := if s.left.Leaf? then s.right else s.left;
        h := Unplug(c, s);
        SpliceOut(c, s, h);
        LoneOrder(c, s);
        DetachLone(n, child, c, s);
        if !red { h := h - 1; }
      }
      WithoutMembers(Whole(c, t), old(Contents()), n);
      if !red {
        EraseColor(child, parent, c, t, h);
      } else {
        Unzip(c, t, child, node);
        LawfulWhole(c, t, h);
        Record(Plug(c, t));
      }
    }

    method First() returns (n: RbNode?)
      requires Valid()
      ensures n == if Contents() == [] then null else Contents()[0]
    {
      hide Zip, Nodes, RedBlack;
      n := node;
      ZipFocus(Top, tree, n, node);
      if n == null {
        return null;
      }
      ghost var inner, t := Top, tree;
      ZipDown(Top, tree, n, node);
      while n.left != null
        invariant n != null && Zip(inner, t, n, node) && AllLeft(inner) && Plug(inner, t) == tree
        invariant t.Node? && t.key == n && (n.left == null <==> t.left.Leaf?)
        decreases t
      {
        ZipDown(inner, t, n, node);
        n := n.left;
        inner, t := InLeft(inner, t.key, t.red, t.right), t.left;
        ZipDown(inner, t, n, node);
      }
      LeftmostFirst(inner, t);
    }

    method Last() returns (n: RbNode?)
      requires Valid()
      ensures n == if Contents() == [] then null else Contents()[|Contents()| - 1]
    {
      hide Zip, Nodes, RedBlack;
      n := node;
      ZipFocus(Top, tree, n, node);
      if n == null {
        return null;
      }
      ghost var inner, t := Top, tree;
      ZipDown(Top, tree, n, node);
      while n.right != null
        invariant n != null && Zip(inner, t, n, node) && AllRight(inner) && Plug(inner, t) == tree
        invariant t.Node? && t.key == n && (n.right == null <==> t.right.Leaf?)
        decreases t
      {
        ZipDown(inner, t, n, node);
        n := n.right;
        inner, t := InRight(inner, t.key, t.red, t.left), t.right;
        ZipDown(inner, t, n, node);
      }
      RightmostLast(inner, t);
    }

    method Next(start: RbNode) returns (r: RbNode?)
      requires start.parent == start || (Valid() && start in Contents())
      ensures if start.parent == start then r == null else Follows(r, start, Contents())
    {
      hide Zip, Nodes, RedBlack, Inorder, Before, After, Plug, NoRepeat, Follows, Precedes, Whole;
      var n: RbNode := start;
      if n.parent == n {
        return null;
      }
      ghost var c, t := Find(n);
      ZipDown(c, t, n, node);
      SplitOrder(c, t);
      ghost var pre, post := Before(c) + Inorder(t.left), Inorder(t.right) + After(c);
      Neighbours(pre, n, post, Contents());
      if n.right != null {
        ghost var inner, low;
        r, inner, low := Successor(n, c, t);
        LeftmostFirst(inner, low);
        return;
      }
      EmptyOrder(t.right);
      while n.parent != null && n == n.parent.right
        invariant Zip(c, t, n, node) && After(c) == post && n.parent == Owner(c)
        decreases c
      {
        ZipFocus(c, t, n, node);
        Sides(c, t, n, node);
        ZipUp(c, t, n, node);
        ClimbOrder(c, t);
        n := n.parent;
        c, t := c.up, Join(c, t);
      }
      ZipFocus(c, t, n, node);
      if !c.Top? {
        Sides(c, t, n, node);
        ClimbOrder(c, t);
      } else {
        AllRightAfter(c);
      }
      return n.parent;
    }

    // Down to the rightmost node below the left child.
    method Predecessor(n: RbNode, ghost c: Path, ghost s: Tree)
      returns (y: RbNode, ghost inner: Path, ghost t: Tree)
      requires Zip(c, s, n, node) && s.Node? && s.left.Node?
      ensures AllRight(inner) && Plug(inner, t) == s.left && t.Node? && t.right.Leaf? && t.key == y
    {
      hide Zip, Nodes, PathNodes, Sub, Up, Inorder, Whole;
      ghost var o := InLeft(c, n, s.red, s.right);
      ZipDown(c, s, n, node);
      ZipFocus(o, s.left, n.left, node);
      y := n.left;
      inner, t := Top, s.left;
      ZipDown(o, t, y, node);
      while y.right != null
        invariant Zip(Append(inner, o), t, y, node) && AllRight(inner) && Plug(inner, t) == s.left && t.Node?
        invariant t.key == y && (y.right == null <==> t.right.Leaf?)
        decreases t
      {
        ZipDown(Append(inner, o), t, y, node);
        y := y.right;
        inner, t := InRight(inner, t.key, t.red, t.left), t.right;
        ZipDown(Append(inner, o), t, y, node);
      }
    }

    method Prev(start: RbNode) returns (r: RbNode?)
      requires start.parent == start || (Valid() && start in Contents())
      ensures if start.parent == start then r == null else Precedes(r, start, Contents())
    {
      hide Zip, Nodes, RedBlack, Inorder, Before, After, Plug, NoRepeat, Follows, Precedes, Whole;
      var n: RbNode := start;
      if n.parent == n {
        return null;
      }
      ghost var c, t := Find(n);
      ZipDown(c, t, n, node);
      SplitOrder(c, t);
      ghost var pre, post := Before(c) + Inorder(t.left), Inorder(t.right) + After(c);
      Neighbours(pre, n, post, Contents());
      if n.left != null {
        ghost var inner, low;
        r, inner, low := Predecessor(n, c, t);
        RightmostLast(inner, low);
        return;
      }
      EmptyOrder(t.left);
      while n.parent != null && n == n.parent.left
        invariant Zip(c, t, n, node) && Before(c) == pre && n.parent == Owner(c)
        decreases c
      {
        ZipFocus(c, t, n, node);
        Sides(c, t, n, node);
        ZipUp(c, t, n, node);
        ClimbOrder(c, t);
        n := n.parent;
        c, t := c.up, Join(c, t);
      }
      ZipFocus(c, t, n, node);
      if !c.Top? {
        Sides(c, t, n, node);
        ClimbOrder(c, t);
      } else {
        AllLeftBefore(c);
      }
      return n.parent;
    }

    // rb_link_node at an empty hole: parent and side stand for the rb_link pointer.
    method LinkNode(n: RbNode, parent: RbNode?, onLeft: bool, ghost c: Path)
      requires Zip(c, Leaf, null, node) && parent == Owner(c) && n !in PathNodes(c)
      requires parent != null ==> (onLeft <==> c.InLeft?)
      modifies this`node, n, PathNodes(c)
      ensures Zip(c, Node(Leaf, n, true, Leaf), n, node)
    {
      n.parent, n.red := parent, true;
      n.left, n.right := null, null;
      if parent == null {
        node := n;
      } else if onLeft {
        parent.left := n;
      } else {
        parent.right := n;
      }
    }

    // for (n = rb_first(root); n; n = rb_next(n))
    method Walk() returns (visited: seq<RbNode>)
      requires Valid()
      ensures visited == Contents()
    {
      visited := [];
      InorderDistinct(tree);
      assert allocated(Nodes(tree));
      var n := First();
      while n != null
        invariant Valid() && |visited| <= |Contents()| && visited == Contents()[..|visited|]
        invariant n == if |visited| < |Contents()| then Contents()[|visited|] else null
        decreases |Contents()| - |visited|
      {
        Linked(n);
        assert allocated(Nodes(tree));
        ghost var at := |visited|;
        visited := visited + [n];
        var next := Next(n);
        FollowsAt(next, n, Contents(), at);
        n := next;
      }
    }

    lemma Linked(n: RbNode)
      requires Valid() && n in Contents()
      ensures n.parent != n
    {
      var c, s := Find(n);
      ZipFocus(c, s, n, node);
    }

    // The height of a valid tree is at most 2 * log2(n + 1).
    lemma ShallowTree()
      requires Valid()
      ensures Pow2((Height(tree) + 1) / 2) <= |Contents()| + 1
    {
      HeightBound(tree);
    }
  }
}
