// Trees, paths to a position in a tree, and the red-black laws, all on values.
// A position is a pair (path, subtree): Plug(path, subtree) is the whole tree.

module RbNodes {
  // struct filesystem_entry, as far as find_hardlink compares or returns it: the
  // file on the host, and the inode number it has been given.
  class FsEntry {
    const dev: nat
    const hostIno: nat
    var ino: nat

    constructor (dev: nat, hostIno: nat)
      ensures this.dev == dev && this.hostIno == hostIno && ino == 0
    {
      this.dev, this.hostIno, ino := dev, hostIno, 0;
    }
  }

  // struct rb_node: links and colour, and the entry it is embedded in.
  class RbNode {
    var parent: RbNode?
    var left: RbNode?
    var right: RbNode?
    var red: bool
    const entry: FsEntry

    constructor (entry: FsEntry)
      ensures this.entry == entry
    {
      this.entry := entry;
      parent, left, right, red := null, null, null, true;
    }
  }
}

module RbShape {
  import opened Basics
  import opened RbNodes

  datatype Tree = Leaf | Node(left: Tree, key: RbNode, red: bool, right: Tree)

  // The way from a hole up to the root; each frame holds the owner of the
  // hole below it and the subtree on the other side.
  datatype Path =
    | Top
    | InLeft(up: Path, key: RbNode, red: bool, sibling: Tree)
    | InRight(up: Path, key: RbNode, red: bool, sibling: Tree)

  ghost function Nodes(t: Tree): set<RbNode> {
    if t.Leaf? then {} else Nodes(t.left) + {t.key} + Nodes(t.right)
  }

  ghost function PathNodes(c: Path): set<RbNode> {
    if c.Top? then {} else PathNodes(c.up) + {c.key} + Nodes(c.sibling)
  }

  ghost predicate Distinct(t: Tree) {
    t.Leaf? ||
    (t.key !in Nodes(t.left) && t.key !in Nodes(t.right) && Nodes(t.left) !! Nodes(t.right) &&
     Distinct(t.left) && Distinct(t.right))
  }

  ghost predicate PathDistinct(c: Path) {
    c.Top? ||
    (c.key !in Nodes(c.sibling) && c.key !in PathNodes(c.up) && Nodes(c.sibling) !! PathNodes(c.up) &&
     Distinct(c.sibling) && PathDistinct(c.up))
  }

  function Owner(c: Path): RbNode? {
    if c.Top? then null else c.key
  }

  // One step up: the subtree that fills the frame above.
  function Join(c: Path, t: Tree): Tree
    requires !c.Top?
  {
    if c.InLeft? then Node(t, c.key, c.red, c.sibling) else Node(c.sibling, c.key, c.red, t)
  }

  function Plug(c: Path, t: Tree): Tree
    decreases c
  {
    if c.Top? then t else Plug(c.up, Join(c, t))
  }

  // The frames of `inner` first, then those of `outer`.
  function Append(inner: Path, outer: Path): Path {
    match inner
    case Top => outer
    case InLeft(up, k, red, s) => InLeft(Append(up, outer), k, red, s)
    case InRight(up, k, red, s) => InRight(Append(up, outer), k, red, s)
  }

  ghost function Depth(c: Path): nat {
    if c.Top? then 0 else 1 + Depth(c.up)
  }

  ghost function Inorder(t: Tree): seq<RbNode> {
    if t.Leaf? then [] else Inorder(t.left) + [t.key] + Inorder(t.right)
  }

  ghost function Before(c: Path): seq<RbNode> {
    match c
    case Top => []
    case InLeft(up, _, _, _) => Before(up)
    case InRight(up, k, _, s) => Before(up) + Inorder(s) + [k]
  }

  ghost function After(c: Path): seq<RbNode> {
    match c
    case Top => []
    case InLeft(up, k, _, s) => [k] + Inorder(s) + After(up)
    case InRight(up, _, _, _) => After(up)
  }

  lemma {:induction false} PlugInorder(c: Path, t: Tree)
    ensures Inorder(Plug(c, t)) == Before(c) + Inorder(t) + After(c)
    decreases c
  {
    if !c.Top? {
      PlugInorder(c.up, Join(c, t));
    }
  }

  lemma {:induction false} PlugAppend(inner: Path, outer: Path, t: Tree)
    ensures Plug(Append(inner, outer), t) == Plug(outer, Plug(inner, t))
    decreases inner
  {
    if !inner.Top? {
      PlugAppend(inner.up, outer, Join(inner, t));
    }
  }

  lemma {:induction false} PlugNodes(c: Path, t: Tree)
    ensures Nodes(Plug(c, t)) == PathNodes(c) + Nodes(t)
    decreases c
  {
    if !c.Top? {
      PlugNodes(c.up, Join(c, t));
    }
  }

  lemma {:induction false} PlugDistinct(c: Path, t: Tree)
    ensures Distinct(Plug(c, t)) <==> PathDistinct(c) && Distinct(t) && PathNodes(c) !! Nodes(t)
    decreases c
  {
    if !c.Top? {
      PlugDistinct(c.up, Join(c, t));
    }
  }

  lemma {:induction false} AppendOrder(inner: Path, outer: Path)
    ensures Before(Append(inner, outer)) == Before(outer) + Before(inner)
    ensures After(Append(inner, outer)) == After(inner) + After(outer)
  {
    if !inner.Top? {
      AppendOrder(inner.up, outer);
    }
  }

  lemma {:induction false} AppendTop(c: Path)
    ensures Append(c, Top) == c
  {
    if !c.Top? { AppendTop(c.up); }
  }

  // Every node of a tree is the root of some position in it.
  lemma {:induction false} Locate(t: Tree, n: RbNode) returns (c: Path, s: Tree)
    requires n in Nodes(t)
    ensures Plug(c, s) == t && s.Node? && s.key == n
  {
    if t.key == n {
      c, s := Top, t;
    } else if n in Nodes(t.left) {
      var inner;
      inner, s := Locate(t.left, n);
      PlugAppend(inner, InLeft(Top, t.key, t.red, t.right), s);
      c := Append(inner, InLeft(Top, t.key, t.red, t.right));
    } else {
      var inner;
      inner, s := Locate(t.right, n);
      PlugAppend(inner, InRight(Top, t.key, t.red, t.left), s);
      c := Append(inner, InRight(Top, t.key, t.red, t.left));
    }
  }

  lemma NoRepeatAround(a: seq<RbNode>, k: RbNode, b: seq<RbNode>)
    requires NoRepeat(a) && NoRepeat(b) && k !in a && k !in b
    requires forall i, j :: 0 <= i < |a| && 0 <= j < |b| ==> a[i] != b[j]
    ensures NoRepeat(a + [k] + b)
  {
    var s := a + [k] + b;
    forall i, j | 0 <= i < j < |s|
      ensures s[i] != s[j]
    {
      assert s[i] == if i < |a| then a[i] else if i == |a| then k else b[i - |a| - 1];
      assert s[j] == if j < |a| then a[j] else if j == |a| then k else b[j - |a| - 1];
    }
  }

  lemma {:induction false} InorderDistinct(t: Tree)
    requires Distinct(t)
    ensures NoRepeat(Inorder(t))
    ensures forall i :: 0 <= i < |Inorder(t)| ==> Inorder(t)[i] in Nodes(t)
  {
    if t.Node? {
      InorderDistinct(t.left);
      InorderDistinct(t.right);
      NoRepeatAround(Inorder(t.left), t.key, Inorder(t.right));
    }
  }

  // ---- the red-black laws -------------------------------------------------

  predicate IsRed(t: Tree) { t.Node? && t.red }

  // No red node has a red child and every way down passes h black nodes.
  predicate Rb(t: Tree, h: nat) {
    match t
    case Leaf => h == 0
    case Node(l, _, red, r) =>
      if red then !IsRed(l) && !IsRed(r) && Rb(l, h) && Rb(r, h)
      else h > 0 && Rb(l, h - 1) && Rb(r, h - 1)
  }

  // As Rb, but the root may be red and have red children.
  predicate RbBelowRoot(t: Tree, h: nat) {
    match t
    case Leaf => h == 0
    case Node(l, _, red, r) =>
      if red then Rb(l, h) && Rb(r, h) else h > 0 && Rb(l, h - 1) && Rb(r, h - 1)
  }

  ghost predicate RedBlack(t: Tree) {
    !IsRed(t) && exists h: nat :: Rb(t, h)
  }

  // The frames are lawful once the hole gets a tree of black height h.
  predicate PathRb(c: Path, h: nat) {
    c.Top? ||
    (Rb(c.sibling, h) &&
     (c.red ==> !IsRed(c.sibling) && !c.up.Top? && !c.up.red) &&
     PathRb(c.up, if c.red then h else h + 1))
  }

  function Blacken(t: Tree): Tree {
    if t.Leaf? then t else t.(red := false)
  }

  lemma {:induction false} PlugRedBlack(c: Path, t: Tree, h: nat)
    requires Rb(t, h) && PathRb(c, h)
    requires IsRed(t) ==> !c.Top? && !c.red
    ensures RedBlack(Plug(c, t))
    decreases c
  {
    if c.Top? {
      assert Rb(t, h);
    } else {
      PlugRedBlack(c.up, Join(c, t), if c.red then h else h + 1);
    }
  }

  // ---- height -------------------------------------------------------------

  ghost function Height(t: Tree): nat {
    if t.Leaf? then 0 else 1 + (if Height(t.left) > Height(t.right) then Height(t.left) else Height(t.right))
  }

  ghost function Pow2(n: nat): nat {
    if n == 0 then 1 else 2 * Pow2(n - 1)
  }

  lemma {:induction false} RbSize(t: Tree, h: nat)
    requires Rb(t, h)
    ensures Pow2(h) <= |Inorder(t)| + 1
    ensures Height(t) <= 2 * h + (if IsRed(t) then 1 else 0)
  {
    if t.Node? {
      var below := if t.red then h else h - 1;
      RbSize(t.left, below);
      RbSize(t.right, below);
    }
  }

  lemma {:induction false} Pow2Monotone(a: nat, b: nat)
    requires a <= b
    ensures Pow2(a) <= Pow2(b)
    decreases b
  {
    if a < b { Pow2Monotone(a, b - 1); }
  }

  // height <= 2 * log2(n + 1), stated without logarithms.
  lemma HeightBound(t: Tree)
    requires RedBlack(t)
    ensures Pow2((Height(t) + 1) / 2) <= |Inorder(t)| + 1
  {
    var h: nat :| Rb(t, h);
    RbSize(t, h);
    Pow2Monotone((Height(t) + 1) / 2, h);
  }
}
