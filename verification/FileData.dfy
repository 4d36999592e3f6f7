// What a file looks like as inode nodes, and how jffs2reader.c, putblock, puts
// it together again.
module FileData {
  import opened Bytes
  import opened EndianNodes
  import Compressors

  const COMPR_ZERO: u32 := 1
  const COMPR_ZLIB: u32 := 6

  // What mkfs takes over from struct stat.
  datatype Stat = Stat(mode: u32, uid: u16, gid: u16, atime: u32, mtime: u32, ctime: u32)

  function InodeFields(ino: u32, version: u32, st: Stat, isize: u32, offset: u32, csize: u32, dsize: u32,
          compr: byte): (r: seq<Field>)
    ensures AllProper(r) && |r| == 15 && Widths(r) == INODE_WIDTHS
  {
    var r := [Field(4, ino), Field(4, version), Field(4, st.mode), Field(2, st.uid), Field(2, st.gid)] +
             [Field(4, isize), Field(4, st.atime), Field(4, st.mtime), Field(4, st.ctime), Field(4, offset)] +
             [Field(4, csize), Field(4, dsize), Field(1, compr), Field(1, 0), Field(2, 0)];
    r
  }

  lemma InodeFieldsAre(ino: u32, version: u32, st: Stat, isize: u32, offset: u32, csize: u32, dsize: u32, compr: byte)
    ensures var r := InodeFields(ino, version, st, isize, offset, csize, dsize, compr);
      AllProper(r) && |r| == 15 && Widths(r) == INODE_WIDTHS && r[0].value == ino && r[1].value == version &&
      r[5].value == isize &&
      r[9].value == offset && r[10] == Field(4, csize) && r[11].value == dsize && r[12].value == compr
  {
  }

  lemma AllFieldsAre(ino: u32, version: u32, st: Stat, isize: u32, offset: u32, csize: u32, dsize: u32, compr: byte)
    ensures var r := InodeFields(ino, version, st, isize, offset, csize, dsize, compr);
      |r| == 15 && r[0].value == ino && r[1].value == version && r[2].value == st.mode && r[3].value == st.uid &&
      r[4].value == st.gid && r[5].value == isize && r[6].value == st.atime && r[7].value == st.mtime &&
      r[8].value == st.ctime && r[9].value == offset && r[10].value == csize && r[11].value == dsize &&
      r[12].value == compr && r[13].value == 0 && r[14].value == 0
  {
  }

  predicate IsInode(x: Node) {
    x.Inode? && |x.mid| == 15
  }

  function Ino(x: Node): u32 requires IsInode(x) { x.mid[0].value }
  function Version(x: Node): u32 requires IsInode(x) { x.mid[1].value }
  function Isize(x: Node): u32 requires IsInode(x) { x.mid[5].value }
  function Offset(x: Node): u32 requires IsInode(x) { x.mid[9].value }
  function Dsize(x: Node): u32 requires IsInode(x) { x.mid[11].value }
  function Compr(x: Node): u32 requires IsInode(x) { x.mid[12].value }

  // Data compressed by a method, and the length of what it stands for.
  type Decompressor = (u32, seq<byte>, nat) -> seq<byte>

  // uncompress and its like give as many bytes as they are asked for.
  ghost predicate Decodes(dec: Decompressor) {
    (forall kind: u32, bytes: seq<byte>, n: nat :: |dec(kind, bytes, n)| == n) &&
    (forall bytes: seq<byte>, n: nat :: dec(COMPR_ZERO, bytes, n) == Zeros(n))
  }

  // The part of the file that a node stands for.
  function Payload(dec: Decompressor, x: Node): seq<byte>
    requires IsInode(x) && x.csize <= |x.data|
  {
    if Compr(x) == Compressors.COMPR_NONE then x.data[..x.csize] else dec(Compr(x), x.data[..x.csize], Dsize(x))
  }

  // The nodes are versions 1 to n and follow each other without gap or overlap.
  ghost predicate Covers(dec: Decompressor, nodes: seq<Node>, ino: u32, isize: nat, data: seq<byte>) {
    if nodes == [] then data == [] else
      var x := nodes[|nodes| - 1];
      IsInode(x) && x.csize <= |x.data| && Ino(x) == ino && Version(x) == |nodes| && Isize(x) == isize &&
      Dsize(x) <= |data| && Offset(x) == |data| - Dsize(x) && Payload(dec, x) == data[Offset(x)..] &&
      (Compr(x) == Compressors.COMPR_NONE ==> x.csize == Dsize(x)) &&
      Covers(dec, nodes[..|nodes| - 1], ino, isize, data[..Offset(x)])
  }

  // The same said of each node on its own.
  lemma {:induction false} CoversAt(dec: Decompressor, nodes: seq<Node>, ino: u32, isize: nat, data: seq<byte>, i: nat)
    requires Covers(dec, nodes, ino, isize, data) && i < |nodes|
    ensures IsInode(nodes[i]) && Version(nodes[i]) == i + 1 && Offset(nodes[i]) + Dsize(nodes[i]) <= |data|
    ensures i > 0 ==> IsInode(nodes[i - 1])
    ensures Offset(nodes[i]) == if i == 0 then 0 else Offset(nodes[i - 1]) + Dsize(nodes[i - 1])
    ensures i == |nodes| - 1 ==> Offset(nodes[i]) + Dsize(nodes[i]) == |data|
    decreases |nodes|
  {
    var x := nodes[|nodes| - 1];
    if i < |nodes| - 1 {
      CoversAt(dec, nodes[..|nodes| - 1], ino, isize, data[..Offset(x)], i);
    } else if i > 0 {
      CoversAt(dec, nodes[..|nodes| - 1], ino, isize, data[..Offset(x)], i - 1);
    }
  }

  lemma CoversMore(dec: Decompressor, nodes: seq<Node>, ino: u32, isize: nat, data: seq<byte>, x: Node, more: seq<byte>)
    requires Covers(dec, nodes, ino, isize, data) && IsInode(x) && x.csize <= |x.data|
    requires Ino(x) == ino && Version(x) == |nodes| + 1 && Isize(x) == isize && Offset(x) == |data| &&
      Dsize(x) == |more|
    requires Payload(dec, x) == more && (Compr(x) == Compressors.COMPR_NONE ==> x.csize == Dsize(x))
    ensures Covers(dec, nodes + [x], ino, isize, data + more)
  {
    hide Payload;
    assert (nodes + [x])[..|nodes|] == nodes && (data + more)[..|data|] == data && (data + more)[|data|..] == more;
  }

  // The buffer of the reader and the size it has reached.
  datatype Buffer = Buffer(b: seq<byte>, rsize: nat)

  datatype Read = Dies | Reads(buffer: Buffer)

  function Zeros(n: nat): (r: seq<byte>)
    ensures |r| == n
  {
    seq(n, _ => 0)
  }

  function Overlay(b: seq<byte>, at: nat, data: seq<byte>): (r: seq<byte>)
    requires at + |data| <= |b|
    ensures |r| == |b|
  {
    b[..at] + data + b[at + |data|..]
  }

  // putblock: what a node does to the buffer, if it does not end the program.
  function PutBlock(dec: Decompressor, s: Buffer, x: Node): Read
    requires IsInode(x) && x.csize <= |x.data| && s.rsize <= |s.b|
  {
    if Isize(x) > |s.b| || Offset(x) + Dsize(x) > |s.b| then Dies else
    var b := if s.rsize < Isize(x) then Overlay(s.b, s.rsize, Zeros(Isize(x) - s.rsize)) else s.b;
    if Compr(x) == COMPR_ZLIB && |dec(COMPR_ZLIB, x.data[..x.csize], Dsize(x))| == Dsize(x) then
      Reads(Buffer(Overlay(b, Offset(x), dec(COMPR_ZLIB, x.data[..x.csize], Dsize(x))), Isize(x)))
    else if Compr(x) == Compressors.COMPR_NONE && Dsize(x) <= |x.data| then
      Reads(Buffer(Overlay(b, Offset(x), x.data[..Dsize(x)]), Isize(x)))
    else if Compr(x) == COMPR_ZERO then Reads(Buffer(Overlay(b, Offset(x), Zeros(Dsize(x))), Isize(x)))
    else Dies
  }

  ghost predicate AllInodes(nodes: seq<Node>) {
    forall i :: 0 <= i < |nodes| ==> IsInode(nodes[i]) && nodes[i].csize <= |nodes[i].data|
  }

  // The nodes of a file are read in the order of their versions.
  ghost function PutAll(dec: Decompressor, s: Buffer, nodes: seq<Node>): (r: Read)
    requires AllInodes(nodes) && s.rsize <= |s.b|
    ensures r.Reads? ==> |r.buffer.b| == |s.b| && r.buffer.rsize <= |s.b|
  {
    if nodes == [] then Reads(s) else
      var r := PutAll(dec, s, nodes[..|nodes| - 1]);
      if r.Dies? then Dies else PutBlock(dec, r.buffer, nodes[|nodes| - 1])
  }

  lemma {:induction false} CoversInodes(dec: Decompressor, nodes: seq<Node>, ino: u32, isize: nat, data: seq<byte>)
    requires Covers(dec, nodes, ino, isize, data)
    ensures AllInodes(nodes)
  {
    if nodes != [] {
      CoversInodes(dec, nodes[..|nodes| - 1], ino, isize, data[..Offset(nodes[|nodes| - 1])]);
      assert forall i :: 0 <= i < |nodes| - 1 ==> nodes[i] == nodes[..|nodes| - 1][i];
    }
  }

  // The methods that the reader knows.
  predicate Known(x: Node)
    requires IsInode(x)
  {
    Compr(x) == Compressors.COMPR_NONE || Compr(x) == COMPR_ZLIB || Compr(x) == COMPR_ZERO
  }

  // By their numbers: none, zero and zlib.
  lemma KnownNumbers(x: Node)
    requires IsInode(x)
    ensures Known(x) <==> Compr(x) in [0, 1, 6]
  {
  }

  ghost predicate Readable(nodes: seq<Node>)
    requires AllInodes(nodes)
  {
    forall i :: 0 <= i < |nodes| ==> Known(nodes[i])
  }

  lemma OverlayLast(b: seq<byte>, data: seq<byte>, at: nat)
    requires at <= |data| <= |b| && b[..at] == data[..at]
    ensures Overlay(b, at, data[at..])[..|data|] == data
  {
  }

  // The last node of a file completes it.
  lemma LastNode(dec: Decompressor, x: Node, s: Buffer, data: seq<byte>)
    requires IsInode(x) && x.csize <= |x.data| && s.rsize <= |s.b| && Decodes(dec) && Known(x)
    requires Dsize(x) <= |data| <= Isize(x) <= |s.b| && Offset(x) == |data| - Dsize(x) &&
      Payload(dec, x) == data[Offset(x)..]
    requires Compr(x) == Compressors.COMPR_NONE ==> x.csize == Dsize(x)
    requires Offset(x) == 0 || (s.rsize == Isize(x) && s.b[..Offset(x)] == data[..Offset(x)])
    ensures var r := PutBlock(dec, s, x);
      r.Reads? && r.buffer.rsize == Isize(x) && |r.buffer.b| == |s.b| && r.buffer.b[..|data|] == data
  {
    var b := if s.rsize < Isize(x) then Overlay(s.b, s.rsize, Zeros(Isize(x) - s.rsize)) else s.b;
    OverlayLast(b, data, Offset(x));
  }

  // Overlaying the nodes in version order gives the file again, whatever was
  // in the buffer before, if the reader knows all the methods used.
  lemma {:induction false} PutsTogether(dec: Decompressor, nodes: seq<Node>, ino: u32, isize: nat, data: seq<byte>,
          s: Buffer)
    requires Covers(dec, nodes, ino, isize, data) && Decodes(dec) && |data| <= isize <= |s.b| && s.rsize <= |s.b|
    requires AllInodes(nodes) && Readable(nodes)
    ensures var r := PutAll(dec, s, nodes);
      r.Reads? && (nodes != [] ==> r.buffer.rsize == isize) && r.buffer.b[..|data|] == data
    decreases |nodes|
  {
    hide PutBlock, Payload;
    if nodes != [] {
      var front, x := nodes[..|nodes| - 1], nodes[|nodes| - 1];
      assert forall i :: 0 <= i < |front| ==> front[i] == nodes[i];
      PutsTogether(dec, front, ino, isize, data[..Offset(x)], s);
      LastNode(dec, x, PutAll(dec, s, front).buffer, data);
    }
  }

  // One node it does not know ends the program.
  lemma {:induction false} UnknownDies(dec: Decompressor, nodes: seq<Node>, s: Buffer, i: nat)
    requires AllInodes(nodes) && s.rsize <= |s.b| && i < |nodes| && !Known(nodes[i])
    ensures PutAll(dec, s, nodes).Dies?
    decreases |nodes|
  {
    if i < |nodes| - 1 { UnknownDies(dec, nodes[..|nodes| - 1], s, i); }
  }

  // The file comes back exactly if every method used is known to the reader.
  lemma Rebuilds(dec: Decompressor, nodes: seq<Node>, ino: u32, data: seq<byte>, s: Buffer)
    requires Covers(dec, nodes, ino, |data|, data) && nodes != [] && Decodes(dec) && |data| <= |s.b| && s.rsize <= |s.b|
    ensures AllInodes(nodes)
    ensures var r := PutAll(dec, s, nodes);
      (r.Reads? <==> Readable(nodes)) && (r.Reads? ==> r.buffer.b[..r.buffer.rsize] == data)
  {
    CoversInodes(dec, nodes, ino, |data|, data);
    if Readable(nodes) {
      PutsTogether(dec, nodes, ino, |data|, data, s);
    } else {
      var i :| 0 <= i < |nodes| && !Known(nodes[i]);
      UnknownDies(dec, nodes, s, i);
    }
  }

  // ---- any nodes, in any order ------------------------------------------------

  // The data a node puts at its offset.
  function Content(dec: Decompressor, x: Node): seq<byte>
    requires IsInode(x) && x.csize <= |x.data|
  {
    if Compr(x) == COMPR_ZLIB then dec(COMPR_ZLIB, x.data[..x.csize], Dsize(x))
    else if Compr(x) == Compressors.COMPR_NONE && Dsize(x) <= |x.data| then x.data[..Dsize(x)]
    else Zeros(Dsize(x))
  }

  // The node fits into a buffer of that size and has what it takes to be read.
  predicate Fit(x: Node, size: nat)
    requires IsInode(x)
  {
    Isize(x) <= size && Offset(x) + Dsize(x) <= size && Known(x) &&
    (Compr(x) == Compressors.COMPR_NONE ==> Dsize(x) <= |x.data|)
  }

  ghost predicate AllFit(nodes: seq<Node>, size: nat)
    requires AllInodes(nodes)
  {
    forall i :: 0 <= i < |nodes| ==> Fit(nodes[i], size)
  }

  // How far the file reaches before node i is put.
  function ReachBefore(nodes: seq<Node>, rsize: nat, i: nat): nat
    requires i <= |nodes| && forall j :: 0 <= j < |nodes| ==> IsInode(nodes[j])
  {
    if i == 0 then rsize else Isize(nodes[i - 1])
  }

  // Node i writes its data over byte x, or makes the file grow past it.
  predicate Puts(nodes: seq<Node>, i: nat, x: nat)
    requires i < |nodes| && IsInode(nodes[i])
  {
    Offset(nodes[i]) <= x < Offset(nodes[i]) + Dsize(nodes[i])
  }

  predicate Grows(nodes: seq<Node>, rsize: nat, i: nat, x: nat)
    requires i < |nodes| && forall j :: 0 <= j < |nodes| ==> IsInode(nodes[j])
  {
    ReachBefore(nodes, rsize, i) <= x < Isize(nodes[i])
  }

  // Byte x is left alone by the nodes from i on.
  ghost predicate Untouched(nodes: seq<Node>, rsize: nat, i: nat, x: nat)
    requires i <= |nodes| && AllInodes(nodes)
  {
    forall j :: i <= j < |nodes| ==> !Puts(nodes, j, x) && !Grows(nodes, rsize, j, x)
  }

  // One node: its data at its offset, zeroes where the file grows past what it
  // was, and everything else as it was.
  lemma OneNode(dec: Decompressor, s: Buffer, x: Node)
    requires IsInode(x) && x.csize <= |x.data| && s.rsize <= |s.b| && Decodes(dec)
    ensures var r := PutBlock(dec, s, x);
      (r.Reads? <==> Fit(x, |s.b|)) &&
      (r.Reads? ==>
         |r.buffer.b| == |s.b| && r.buffer.rsize == Isize(x) && |Content(dec, x)| == Dsize(x) &&
         r.buffer.b[Offset(x)..Offset(x) + Dsize(x)] == Content(dec, x) &&
         forall i :: 0 <= i < |s.b| && !(Offset(x) <= i < Offset(x) + Dsize(x)) ==>
           r.buffer.b[i] == if s.rsize <= i < Isize(x) then 0 else s.b[i])
  {
    hide Overlay, Zeros;
    ContentLength(dec, x);
    if Fit(x, |s.b|) {
      ZerosLength(Isize(x) - s.rsize);
      var b := if s.rsize < Isize(x) then Overlay(s.b, s.rsize, Zeros(Isize(x) - s.rsize)) else s.b;
      if s.rsize < Isize(x) { OverlayZeros(s.b, s.rsize, Isize(x) - s.rsize); }
      OverlayAt(b, Offset(x), Content(dec, x));
      assert PutBlock(dec, s, x) == Reads(Buffer(Overlay(b, Offset(x), Content(dec, x)), Isize(x)));
    }
  }

  lemma ContentLength(dec: Decompressor, x: Node)
    requires IsInode(x) && x.csize <= |x.data| && Decodes(dec)
    ensures |Content(dec, x)| == Dsize(x)
    ensures |dec(COMPR_ZLIB, x.data[..x.csize], Dsize(x))| == Dsize(x)
  {
  }

  lemma ZerosLength(n: int)
    ensures n >= 0 ==> |Zeros(n)| == n
  {
  }

  lemma OverlayAt(b: seq<byte>, at: nat, data: seq<byte>)
    requires at + |data| <= |b|
    ensures var r := Overlay(b, at, data);
      |r| == |b| && r[at..at + |data|] == data &&
      forall i :: 0 <= i < |b| && !(at <= i < at + |data|) ==> r[i] == b[i]
  {
  }

  lemma OverlayZeros(b: seq<byte>, at: nat, n: nat)
    requires at + n <= |b|
    ensures |Zeros(n)| == n
    ensures var r := Overlay(b, at, Zeros(n));
      |r| == |b| && forall i :: 0 <= i < |b| ==> r[i] == if at <= i < at + n then 0 else b[i]
  {
  }

  // The program reads exactly those nodes that fit and whose method it knows.
  lemma {:induction false} ReadsAll(dec: Decompressor, s: Buffer, nodes: seq<Node>)
    requires AllInodes(nodes) && s.rsize <= |s.b| && Decodes(dec)
    ensures PutAll(dec, s, nodes).Reads? <==> AllFit(nodes, |s.b|)
    ensures PutAll(dec, s, nodes).Reads? ==>
      PutAll(dec, s, nodes).buffer.rsize == ReachBefore(nodes, s.rsize, |nodes|)
    decreases |nodes|
  {
    hide PutBlock, Fit;
    if nodes != [] {
      var front, x := nodes[..|nodes| - 1], nodes[|nodes| - 1];
      ReadsAll(dec, s, front);
      if PutAll(dec, s, front).Reads? { OneNode(dec, PutAll(dec, s, front).buffer, x); }
      assert forall i :: 0 <= i < |front| ==> front[i] == nodes[i];
    }
  }

  // Nodes that leave a byte alone can be left out.
  lemma {:induction false} LeftAlone(dec: Decompressor, s: Buffer, nodes: seq<Node>, i: nat, x: nat)
    requires AllInodes(nodes) && s.rsize <= |s.b| && Decodes(dec) && AllFit(nodes, |s.b|) && x < |s.b|
    requires i <= |nodes| && Untouched(nodes, s.rsize, i, x)
    ensures AllInodes(nodes[..i]) && PutAll(dec, s, nodes).Reads? && PutAll(dec, s, nodes[..i]).Reads?
    ensures PutAll(dec, s, nodes).buffer.b[x] == PutAll(dec, s, nodes[..i]).buffer.b[x]
    decreases |nodes|
  {
    hide PutBlock, Fit, Content, PutAll, Untouched, AllFit;
    ReadsAll(dec, s, nodes);
    if i == |nodes| {
      assert nodes[..i] == nodes;
    } else {
      var n := |nodes| - 1;
      FrontFits(nodes, |s.b|, n);
      FrontUntouched(nodes, s.rsize, i, x);
      LeftAlone(dec, s, nodes[..n], i, x);
      assert nodes[..n][..i] == nodes[..i];
      ReadsAll(dec, s, nodes[..n]);
      PutLast(dec, s, nodes);
      PutByte(dec, PutAll(dec, s, nodes[..n]).buffer, nodes[n], x);
    }
  }

  lemma PutLast(dec: Decompressor, s: Buffer, nodes: seq<Node>)
    requires AllInodes(nodes) && s.rsize <= |s.b| && nodes != []
    ensures AllInodes(nodes[..|nodes| - 1])
    ensures var r := PutAll(dec, s, nodes[..|nodes| - 1]);
      r.Reads? ==> PutAll(dec, s, nodes) == PutBlock(dec, r.buffer, nodes[|nodes| - 1])
  {
    hide PutBlock;
  }

  lemma FrontFits(nodes: seq<Node>, size: nat, n: nat)
    requires AllInodes(nodes) && AllFit(nodes, size) && n < |nodes|
    ensures AllInodes(nodes[..n]) && AllFit(nodes[..n], size) && Fit(nodes[n], size)
  {
    hide Fit;
  }

  lemma FrontUntouched(nodes: seq<Node>, rsize: nat, i: nat, x: nat)
    requires i < |nodes| && AllInodes(nodes) && Untouched(nodes, rsize, i, x)
    ensures AllInodes(nodes[..|nodes| - 1]) && Untouched(nodes[..|nodes| - 1], rsize, i, x)
    ensures !Puts(nodes, |nodes| - 1, x) && !Grows(nodes, rsize, |nodes| - 1, x)
  {
    var front := nodes[..|nodes| - 1];
    assert forall j :: 0 <= j < |front| ==> front[j] == nodes[j];
    forall j | i <= j < |front| ensures !Puts(front, j, x) && !Grows(front, rsize, j, x) {
      assert !Puts(nodes, j, x) && !Grows(nodes, rsize, j, x);
    }
  }

  // A byte that no node puts data at, nor the file grows past, is what it was.
  lemma NeverPut(dec: Decompressor, s: Buffer, nodes: seq<Node>, x: nat)
    requires AllInodes(nodes) && s.rsize <= |s.b| && Decodes(dec) && AllFit(nodes, |s.b|) && x < |s.b|
    requires Untouched(nodes, s.rsize, 0, x)
    ensures PutAll(dec, s, nodes).Reads? && PutAll(dec, s, nodes).buffer.b[x] == s.b[x]
  {
    LeftAlone(dec, s, nodes, 0, x);
    assert nodes[..0] == [];
  }

  // Otherwise it is that of the last node that put data there, or 0 if the file
  // grew past it after that.
  lemma LastPutStays(dec: Decompressor, s: Buffer, nodes: seq<Node>, i: nat, x: nat)
    requires AllInodes(nodes) && s.rsize <= |s.b| && Decodes(dec) && AllFit(nodes, |s.b|) && x < |s.b|
    requires i < |nodes| && Untouched(nodes, s.rsize, i + 1, x)
    ensures PutAll(dec, s, nodes).Reads?
    ensures var b := PutAll(dec, s, nodes).buffer.b;
      if Puts(nodes, i, x) then
        x - Offset(nodes[i]) < |Content(dec, nodes[i])| && b[x] == Content(dec, nodes[i])[x - Offset(nodes[i])]
      else Grows(nodes, s.rsize, i, x) ==> b[x] == 0
  {
    hide PutBlock, Fit, Content, PutAll, Untouched, AllFit;
    LeftAlone(dec, s, nodes, i + 1, x);
    var front := nodes[..i];
    FrontFits(nodes, |s.b|, i);
    ReadsAll(dec, s, front);
    assert nodes[..i + 1][..i] == front && nodes[..i + 1][i] == nodes[i];
    PutLast(dec, s, nodes[..i + 1]);
    PutByte(dec, PutAll(dec, s, front).buffer, nodes[i], x);
  }

  lemma PutByte(dec: Decompressor, s: Buffer, x: Node, i: nat)
    requires IsInode(x) && x.csize <= |x.data| && s.rsize <= |s.b| && Decodes(dec) && Fit(x, |s.b|) && i < |s.b|
    ensures var r := PutBlock(dec, s, x);
      r.Reads? && |r.buffer.b| == |s.b| &&
      if Offset(x) <= i < Offset(x) + Dsize(x) then
        i - Offset(x) < |Content(dec, x)| && r.buffer.b[i] == Content(dec, x)[i - Offset(x)]
      else r.buffer.b[i] == if s.rsize <= i < Isize(x) then 0 else s.b[i]
  {
    hide PutBlock, Content, Known;
    OneNode(dec, s, x);
    var r := PutBlock(dec, s, x).buffer.b;
    if Offset(x) <= i < Offset(x) + Dsize(x) {
      assert r[i] == r[Offset(x)..Offset(x) + Dsize(x)][i - Offset(x)];
    }
  }

  // putblock in place, on the caller's buffer.
  method PutBlockInPlace(dec: Decompressor, b: array<byte>, rsize: nat, x: Node) returns (ok: bool, size: nat)
    requires IsInode(x) && x.csize <= |x.data| && rsize <= b.Length && Decodes(dec)
    requires Compr(x) == Compressors.COMPR_NONE ==> Dsize(x) <= |x.data|
    modifies b
    ensures ok == PutBlock(dec, Buffer(old(b[..]), rsize), x).Reads?
    ensures ok ==> PutBlock(dec, Buffer(old(b[..]), rsize), x) == Reads(Buffer(b[..], size))
  {
    hide Payload, Overlay, Zeros;
    SameSize(b[..], rsize, Isize(x));
    var dlen := Dsize(x);
    if Isize(x) > b.Length || Offset(x) + dlen > b.Length {
      return false, rsize;
    }
    if rsize < Isize(x) {
      Store(b, rsize, Zeros(Isize(x) - rsize));
    }
    if Compr(x) == COMPR_ZLIB {
      Store(b, Offset(x), dec(COMPR_ZLIB, x.data[..x.csize], dlen));
    } else if Compr(x) == Compressors.COMPR_NONE {
      Store(b, Offset(x), x.data[..dlen]);
    } else if Compr(x) == COMPR_ZERO {
      Store(b, Offset(x), Zeros(dlen));
    } else {
      return false, rsize;
    }
    ok, size := true, Isize(x);
  }

  lemma SameSize(b: seq<byte>, rsize: nat, isize: nat)
    ensures rsize < isize ==> |Zeros(isize - rsize)| == isize - rsize
    ensures forall n: nat :: |Zeros(n)| == n
  {
  }

  method Store(b: array<byte>, at: nat, data: seq<byte>)
    requires at + |data| <= b.Length
    modifies b
    ensures b[..] == Overlay(old(b[..]), at, data)
  {
    forall i | 0 <= i < |data| {
      b[at + i] := data[i];
    }
    assert b[..at] == old(b[..at]) && b[at..at + |data|] == data && b[at + |data|..] == old(b[at + |data|..]);
    assert b[..] == b[..at] + b[at..at + |data|] + b[at + |data|..];
  }
}
