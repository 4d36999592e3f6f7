// A JFFS2 image as jffs2reader sees it: an array of 4-byte cells. A cell either
// does not start with the magic bitmask, or reads as a node through
// union jffs2_node_union. Offsets count cells.
module Jffs2Log {
  const NO_VERSION: nat := 0xffff_ffff
  const U32: nat := 0x1_0000_0000

  type uint32 = x: int | 0 <= x < U32
  type Name = seq<nat>

  datatype RawNode =
    | Dirent(totlen: uint32, pino: uint32, version: uint32, ino: uint32, dtype: nat, name: Name)
    | Inode(totlen: uint32, inodeNo: uint32, inodeVersion: uint32)
    | Other(totlen: uint32)

  datatype Cell = Filler | Node(node: RawNode)

  type Image = seq<Cell>

  // ((totlen + 3) & ~3) in cells, with the 32-bit wrap.
  function Cells(totlen: uint32): nat {
    (totlen + 3) % U32 / 4
  }

  // The first node at or after n, or the end of the image.
  function Skip(img: Image, n: nat): (m: nat)
    requires n <= |img|
    ensures n <= m <= |img| && (m < |img| ==> img[m].Node?)
    ensures forall i :: n <= i < m ==> img[i].Filler?
    decreases |img| - n
  {
    if n == |img| || img[n].Node? then n else Skip(img, n + 1)
  }

  function End(img: Image, m: nat): nat
    requires m < |img| && img[m].Node?
  {
    m + Cells(img[m].node.totlen)
  }

  // Every node the scan meets is non-empty and lies inside the image.
  predicate Parses(img: Image, n: nat)
    decreases |img| - n
  {
    n <= |img| &&
    var m := Skip(img, n);
    m == |img| || (m < End(img, m) <= |img| && Parses(img, End(img, m)))
  }

  // The offsets of the nodes one pass meets, in log order.
  function Starts(img: Image, n: nat): seq<nat>
    requires Parses(img, n)
    decreases |img| - n
  {
    var m := Skip(img, n);
    if m == |img| then [] else [m] + Starts(img, End(img, m))
  }

  ghost predicate Nodes(img: Image, ns: seq<nat>) {
    forall i :: 0 <= i < |ns| ==> ns[i] < |img| && img[ns[i]].Node?
  }

  // Where a scan that began at `from` stands after k nodes.
  function Bound(img: Image, ns: seq<nat>, from: nat, k: nat): nat
    requires k <= |ns| && Nodes(img, ns)
  {
    if k == 0 then from else End(img, ns[k - 1])
  }

  ghost predicate Placed(img: Image, ns: seq<nat>, from: nat, k: nat)
    requires k <= |ns| && Nodes(img, ns)
  {
    var b := Bound(img, ns, from, k);
    b <= |img| && Skip(img, b) == (if k < |ns| then ns[k] else |img|) &&
    (k < |ns| ==> b <= ns[k] < End(img, ns[k]))
  }

  ghost predicate Layout(img: Image, ns: seq<nat>, from: nat) {
    Nodes(img, ns) && forall k :: 0 <= k <= |ns| ==> Placed(img, ns, from, k)
  }

  lemma {:induction false} StartsLayout(img: Image, n: nat)
    requires Parses(img, n)
    ensures Layout(img, Starts(img, n), n)
    decreases |img| - n
  {
    var m := Skip(img, n);
    var ns := Starts(img, n);
    if m < |img| {
      var rest := Starts(img, End(img, m));
      StartsLayout(img, End(img, m));
      assert ns == [m] + rest;
      hide Starts, Parses, Skip;
      assert Nodes(img, ns);
      forall k | 0 <= k <= |ns|
        ensures Placed(img, ns, n, k)
      {
        if k > 0 {
          assert Placed(img, rest, End(img, m), k - 1);
          assert Bound(img, ns, n, k) == Bound(img, rest, End(img, m), k - 1);
        }
      }
    }
  }

  lemma {:induction false} BoundsIncrease(img: Image, ns: seq<nat>, from: nat, j: nat, k: nat)
    requires Layout(img, ns, from) && j < k <= |ns|
    ensures Bound(img, ns, from, j) <= ns[j] < Bound(img, ns, from, k)
    decreases k
  {
    hide Skip;
    assert Placed(img, ns, from, j) && Placed(img, ns, from, k - 1);
    if j < k - 1 { BoundsIncrease(img, ns, from, j, k - 1); }
  }
}
