// compr_rtime.c as one of the compressors on the list.
module RtimeCompressor {
  import opened Bytes
  import Rtime
  import ComprChoice
  import Compressors
  import FileData
  import opened ImageLog
  import Mkfs

  const RTIME: byte := 2 // JFFS2_COMPR_RTIME

  // What the compressor's method returns, as a function.
  function Compress(data: seq<byte>, space: nat): Compressors.Coded {
    var c := Rtime.Coded(data, space);
    if |data| > 0x7fff || |c.code| >= c.pos then Compressors.Failed else Compressors.Coded(c.pos, c.code)
  }

  function Decompress(kind: u32, bytes: seq<byte>, n: nat): seq<byte> {
    Rtime.After(bytes, |bytes| / 2).out
  }

  // It is such a compressor as the writer of files expects, and never takes
  // more space than what it stands for.
  lemma IsSound(data: seq<byte>, space: nat)
    requires Compress(data, space).Coded?
    ensures Mkfs.SoundResult(RTIME, Decompress, data, space, Compress(data, space))
    ensures |Compress(data, space).bytes| < Compress(data, space).taken
  {
    hide Rtime.After;
    Rtime.RoundTrip(data, space);
    Rtime.CodedIsNotEmpty(data, space);
  }

  // It can be used by the writer of files.
  lemma IsSoundOne(x: Compressors.Compressor)
    requires x.kind == RTIME && x.compress == Compress
    ensures Mkfs.SoundOne(x, Decompress)
  {
    hide Compress, Decompress;
    forall data: seq<byte>, space: nat | x.compress(data, space).Coded?
      ensures Mkfs.SoundResult(x.kind, Decompress, data, space, x.compress(data, space))
    {
      IsSound(data, space);
    }
  }

  // The beginning of the data gets shorter, with room for all of it and with as
  // little as the writer goes on with.
  ghost predicate Shrinks(data: seq<byte>) {
    data != [] &&
    forall space: nat ::
      space == |data| || Mkfs.MIN_DATA_LEN <= space < |data| ==> Compress(data, space).Coded?
  }

  // Three equal bytes are such data: they take two.
  lemma ThreeShrink(b: byte)
    ensures Shrinks([b, b, b]) && Compress([b, b, b], 3) == Compressors.Coded(3, [b, 2])
  {
    var data, p := [b, b, b], Rtime.Progress([], 0, seq(256, _ => 0));
    assert Rtime.RunLength(data, 2, 3, 2) == 0 && Rtime.RunLength(data, 1, 2, 1) == 1;
    assert Rtime.RunLength(data, 0, 1, 0) == 2;
    assert data[p.pos] == b && p.table[b] == 0;
    var q := Rtime.CodeOne(data, p);
    assert q.code == [b, 2] && q.pos == 3;
    assert Rtime.CodeAll(data, 3, p) == Rtime.CodeAll(data, 3, q) == q;
  }

  // With this compressor alone on the list, its method is the one chosen.
  lemma Alone(x: Compressors.Compressor, data: seq<byte>, node: EndianNodes.Node)
    requires x.kind == RTIME && x.compress == Compress && x.compresses && !x.disabled && Shrinks(data)
    requires Mkfs.ChosenFor(ComprChoice.Priority, [x], data, node)
    ensures FileData.Compr(node) == RTIME
  {
    hide Compress;
    var space: nat :| (space == |data| || Mkfs.MIN_DATA_LEN <= space < |data|) &&
      FileData.Compr(node) == Mkfs.KindOf(ComprChoice.Priority, [x], data, space);
    assert Compressors.Tried(x, data, space) == Compress(data, space);
  }

  lemma OneChunk(data: seq<byte>)
    ensures Mkfs.Flat([data]) == data && Mkfs.Flat([data][..0]) == [] && [data][..1] == [data]
  {
    assert [data][..0] == [];
  }

  // The first node of a file that was read in one piece.
  lemma FirstNode(mode: ComprChoice.Mode, list: seq<Compressors.Compressor>, data: seq<byte>,
                  nodes: seq<EndianNodes.Node>, ino: u32)
    requires nodes != [] && Mkfs.ChosenInAll(mode, list, [data], 1, nodes)
    requires FileData.Covers(Decompress, nodes, ino, |data|, data)
    ensures FileData.IsInode(nodes[0]) && Mkfs.ChosenFor(mode, list, data, nodes[0])
  {
    hide Mkfs.ChosenFor, Decompress, Mkfs.Flat, FileData.Covers;
    OneChunk(data);
    FileData.CoversAt(Decompress, nodes, ino, |data|, data, 0);
    assert Mkfs.ChosenIn(mode, list, [data], 1, nodes[0]);
    assert data[0..] == data;
  }

  // Whatever the reader's decompressor and buffer, it dies over such a file.
  lemma DiesOver(x: Compressors.Compressor, data: seq<byte>, nodes: seq<EndianNodes.Node>, ino: u32)
    requires x.kind == RTIME && x.compress == Compress && x.compresses && !x.disabled && Shrinks(data)
    requires nodes != [] && Mkfs.ChosenInAll(ComprChoice.Priority, [x], [data], 1, nodes)
    requires FileData.Covers(Decompress, nodes, ino, |data|, data)
    ensures FileData.AllInodes(nodes)
    ensures forall dec, s: FileData.Buffer :: s.rsize <= |s.b| ==> FileData.PutAll(dec, s, nodes).Dies?
  {
    hide Compress, Decompress, FileData.Covers, Mkfs.ChosenFor, Shrinks, FileData.PutAll, Mkfs.ChosenInAll;
    FileData.CoversInodes(Decompress, nodes, ino, |data|, data);
    FirstNode(ComprChoice.Priority, [x], data, nodes, ino);
    Alone(x, data, nodes[0]);
    forall dec, s: FileData.Buffer | s.rsize <= |s.b| ensures FileData.PutAll(dec, s, nodes).Dies? {
      FileData.UnknownDies(dec, nodes, s, 0);
    }
  }

  // The registry with this compressor alone.
  method OnlyRtime() returns (reg: Compressors.Registry, x: Compressors.Compressor)
    ensures fresh(reg) && reg.Valid() && reg.list == [x] && reg.mode == ComprChoice.Priority
    ensures x.kind == RTIME && x.compress == Compress && x.compresses && !x.disabled && Mkfs.Sound(reg.list, Decompress)
  {
    hide Compress, Decompress, Mkfs.SoundOne;
    reg := new Compressors.Registry();
    x := new Compressors.Compressor("rtime", RTIME, 50, true, Compress);
    ghost var k := reg.Register(x);
    IsSoundOne(x);
  }

  // A file of such data, written with this compressor alone: the reader comes
  // to an end without it.
  method FileIsUnreadable(w: Mkfs.Writer, data: seq<byte>, st: FileData.Stat, name: seq<byte>, pino: u32, dtype: byte)
    returns (ok: bool)
    requires w.Valid() && w.ino < 0xffff_ffff && Shrinks(data) && |data| < 0xffff_ffff && |name| < 256
    modifies w
    ensures ok && w.Valid() && w.ino == old(w.ino) + 1
    ensures var nodes := FileNodes(w.log, w.ino);
      nodes != [] && FileData.Covers(Decompress, nodes, w.ino, |data|, data) && FileData.AllInodes(nodes) &&
      forall dec, s: FileData.Buffer :: s.rsize <= |s.b| ==> FileData.PutAll(dec, s, nodes).Dies?
  {
    hide Compress, Decompress, Mkfs.Writer.Valid, FileNodes, FileData.Covers, Mkfs.ChosenInAll, FileData.PutAll,
      Compressors.Registry.Valid, Mkfs.Sound;
    var reg, x := OnlyRtime();
    OneChunk(data);
    ok := w.WriteRegularFile([data], st, |data|, name, pino, dtype, reg, Decompress);
    DiesOver(x, data, FileNodes(w.log, w.ino), w.ino);
  }
}
