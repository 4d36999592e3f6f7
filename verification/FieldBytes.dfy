// jffs2.h: where the fields of a node stand in its bytes, and what its checksums
// cover.
module FieldBytes {
  import opened Bytes
  import opened Summaries
  import opened EndianNodes
  import opened EndianImages

  lemma SumMore(ws: seq<nat>, i: nat)
    requires i < |ws|
    ensures Sum(ws[..i + 1]) == Sum(ws[..i]) + ws[i]
  {
    SumJoin(ws[..i], [ws[i]]);
    assert ws[..i + 1] == ws[..i] + [ws[i]];
    assert Sum([ws[i]]) == ws[i];
  }

  lemma InodeWidths()
    ensures var ws := INODE_WIDTHS;
      |ws| == 15 && ws[0] == ws[1] == ws[2] == 4 && ws[3] == ws[4] == 2 && ws[5] == ws[6] == ws[7] == ws[8] == 4 &&
      ws[9] == ws[10] == ws[11] == 4 && ws[12] == ws[13] == 1 && ws[14] == 2
  {
  }

  lemma InodeOffsets()
    ensures var ws := INODE_WIDTHS;
      |ws| == 15 &&
      Sum(ws[..0]) == 0 && Sum(ws[..1]) == 4 && Sum(ws[..2]) == 8 && Sum(ws[..3]) == 12 && Sum(ws[..4]) == 14 &&
      Sum(ws[..5]) == 16 && Sum(ws[..6]) == 20 && Sum(ws[..7]) == 24 && Sum(ws[..8]) == 28 && Sum(ws[..9]) == 32 &&
      Sum(ws[..10]) == 36 && Sum(ws[..11]) == 40 && Sum(ws[..12]) == 44 && Sum(ws[..13]) == 45 && Sum(ws[..14]) == 46
  {
    InodeWidths();
    SumsOf(INODE_WIDTHS);
  }

  lemma SumsOf(ws: seq<nat>)
    requires |ws| == 15 && ws[0] == ws[1] == ws[2] == 4 && ws[3] == ws[4] == 2 && ws[5] == ws[6] == ws[7] == ws[8] == 4
    requires ws[9] == ws[10] == ws[11] == 4 && ws[12] == ws[13] == 1
    ensures Sum(ws[..0]) == 0 && Sum(ws[..1]) == 4 && Sum(ws[..2]) == 8 && Sum(ws[..3]) == 12 && Sum(ws[..4]) == 14
    ensures Sum(ws[..5]) == 16 && Sum(ws[..6]) == 20 && Sum(ws[..7]) == 24 && Sum(ws[..8]) == 28 && Sum(ws[..9]) == 32
    ensures Sum(ws[..10]) == 36 && Sum(ws[..11]) == 40 && Sum(ws[..12]) == 44 && Sum(ws[..13]) == 45
    ensures Sum(ws[..14]) == 46
  {
    assert ws[..0] == [];
    assert Sum([]) == 0;
    hide Sum;
    SumMore(ws, 0); SumMore(ws, 1); SumMore(ws, 2); SumMore(ws, 3); SumMore(ws, 4); SumMore(ws, 5); SumMore(ws, 6);
    SumMore(ws, 7); SumMore(ws, 8); SumMore(ws, 9); SumMore(ws, 10); SumMore(ws, 11); SumMore(ws, 12); SumMore(ws, 13);
  }

  lemma DirentOffsets()
    ensures var ws := DIRENT_WIDTHS;
      |ws| == 8 && ws[0] == ws[1] == ws[2] == ws[3] == 4 && ws[4] == ws[5] == ws[6] == ws[7] == 1 &&
      Sum(ws[..0]) == 0 && Sum(ws[..1]) == 4 && Sum(ws[..2]) == 8 && Sum(ws[..3]) == 12 && Sum(ws[..4]) == 16 &&
      Sum(ws[..5]) == 17 && Sum(ws[..6]) == 18 && Sum(ws[..7]) == 19
  {
    var ws := DIRENT_WIDTHS;
    assert ws[..0] == [];
    assert Sum([]) == 0;
    hide Sum;
    SumMore(ws, 0); SumMore(ws, 1); SumMore(ws, 2); SumMore(ws, 3); SumMore(ws, 4); SumMore(ws, 5); SumMore(ws, 6);
  }

  // The field reads, in its width, at that offset of t.
  predicate ReadsAt(o: Order, t: seq<byte>, at: nat, f: Field) {
    at + f.width <= |t| &&
    if f.width == 4 then Get32(o, t, at) == f.value
    else if f.width == 2 then Get16(o, t, at) == f.value
    else f.width == 1 && t[at] == f.value
  }

  lemma FieldReads(o: Order, head: seq<byte>, mid: seq<Field>, i: nat, rest: seq<byte>)
    requires |head| == UNKNOWN_SIZE && AllProper(mid) && i < |mid|
    ensures ReadsAt(o, head + Fields(o, mid) + rest, UNKNOWN_SIZE + Sum(Widths(mid)[..i]), mid[i])
  {
    WidthsFront(mid, i);
    hide Get16, Get32, Put16, Put32, Fields, Sum, Widths;
    var t, at := head + Fields(o, mid) + rest, UNKNOWN_SIZE + Sum(Widths(mid)[..i]);
    MidField(o, head, mid, Widths(mid), i, rest);
    var f := mid[i];
    if f.width == 4 {
      Read32(o, t, at, f.value);
    } else if f.width == 2 {
      Read16(o, t, at, f.value);
    } else {
      assert t[at] == t[at..at + 1][0];
    }
  }

  // Magic, type, length and their checksum.
  predicate HeadLayout(o: Order, crc: seq<byte> -> u32, t: seq<byte>, kind: u16, totlen: u32) {
    |t| >= UNKNOWN_SIZE && Get16(o, t, 0) == MAGIC && Get16(o, t, 2) == kind && Get32(o, t, 4) == totlen &&
    Get32(o, t, 8) == crc(t[..8])
  }

  // struct jffs2_raw_inode: ino, version, mode, uid, gid, isize, atime, mtime,
  // ctime, offset, csize, dsize, compr, usercompr, flags, and two checksums.
  predicate InodeLayout(o: Order, crc: seq<byte> -> u32, t: seq<byte>, mid: seq<Field>, csize: u32, data: seq<byte>) {
    |mid| == 15 && |t| >= 68 + |data| && csize <= |data| &&
    Get32(o, t, 12) == mid[0].value && Get32(o, t, 16) == mid[1].value && Get32(o, t, 20) == mid[2].value &&
    Get16(o, t, 24) == mid[3].value && Get16(o, t, 26) == mid[4].value && Get32(o, t, 28) == mid[5].value &&
    Get32(o, t, 32) == mid[6].value && Get32(o, t, 36) == mid[7].value && Get32(o, t, 40) == mid[8].value &&
    Get32(o, t, 44) == mid[9].value && Get32(o, t, 48) == mid[10].value && Get32(o, t, 52) == mid[11].value &&
    t[56] == mid[12].value && t[57] == mid[13].value && Get16(o, t, 58) == mid[14].value &&
    Get32(o, t, 60) == crc(data[..csize]) && Get32(o, t, 64) == crc(t[..60]) && t[68..68 + |data|] == data
  }

  // struct jffs2_raw_dirent: pino, version, ino, mctime, nsize, type, unused, and
  // two checksums.
  predicate DirentLayout(o: Order, crc: seq<byte> -> u32, t: seq<byte>, mid: seq<Field>, nsize: u32, name: seq<byte>) {
    |mid| == 8 && |t| >= 40 + |name| && nsize <= |name| &&
    Get32(o, t, 12) == mid[0].value && Get32(o, t, 16) == mid[1].value && Get32(o, t, 20) == mid[2].value &&
    Get32(o, t, 24) == mid[3].value && t[28] == mid[4].value && t[29] == mid[5].value && t[30] == mid[6].value &&
    t[31] == mid[7].value &&
    Get32(o, t, 32) == crc(t[..32]) && Get32(o, t, 36) == crc(name[..nsize]) && t[40..40 + |name|] == name
  }

  lemma HeadRead(o: Order, crc: seq<byte> -> u32, kind: u16, totlen: u32, rest: seq<byte>)
    ensures HeadLayout(o, crc, Head(o, crc, kind, totlen) + rest, kind, totlen)
  {
    hide Get16, Get32, Put16, Put32;
    HeadReads(o, crc, kind, totlen, rest);
    var h, t := Fields(o, HeadFields(kind, totlen)), Head(o, crc, kind, totlen) + rest;
    assert t[8..12] == Put32(o, crc(h)) && t[..8] == h;
    Read32(o, t, 8, crc(h));
  }

  lemma InodeRead(o: Order, crc: seq<byte> -> u32, x: Node, rest: seq<byte>)
    requires Good(x) && x.Inode?
    ensures var t := Encode(o, crc, x) + rest;
      HeadLayout(o, crc, t, INODE, x.totlen) && InodeLayout(o, crc, t, x.mid, x.csize, x.data)
  {
    hide Get16, Get32, Put32, Fields, Head, Sum, Swap, ConvertHead, HeadLayout, ReadsAt;
    InodeShape(o, crc, x);
    InodeOffsets();
    WidthSums();
    var start := InodeStart(o, crc, x.totlen, x.mid);
    var a, b := Put32(o, crc(x.data[..x.csize])), Put32(o, crc(start));
    var tail := a + b + x.data + rest;
    Slices(start, a, b, x.data, rest, x.csize);
    var t := Encode(o, crc, x) + rest;
    assert t == start + tail;
    StartReads(o, crc, INODE, x.totlen, x.mid, tail);
    HeadRead(o, crc, INODE, x.totlen, Fields(o, x.mid) + tail);
    assert t == Head(o, crc, INODE, x.totlen) + (Fields(o, x.mid) + tail);
    forall i: nat | i < 15 ensures ReadsAt(o, t, UNKNOWN_SIZE + Sum(INODE_WIDTHS[..i]), x.mid[i]) {
      FieldReads(o, Head(o, crc, INODE, x.totlen), x.mid, i, tail);
    }
    Read32(o, t, 60, crc(x.data[..x.csize]));
    Read32(o, t, 64, crc(start));
    assert t[..60] == start;
    InodeTable(o, t, x.mid);
  }

  lemma InodeTable(o: Order, t: seq<byte>, mid: seq<Field>)
    requires |mid| == 15 && Widths(mid) == INODE_WIDTHS && |t| >= 68
    requires forall i: nat :: i < 15 ==> ReadsAt(o, t, UNKNOWN_SIZE + Sum(INODE_WIDTHS[..i]), mid[i])
    ensures Get32(o, t, 12) == mid[0].value && Get32(o, t, 16) == mid[1].value && Get32(o, t, 20) == mid[2].value
    ensures Get16(o, t, 24) == mid[3].value && Get16(o, t, 26) == mid[4].value && Get32(o, t, 28) == mid[5].value
    ensures Get32(o, t, 32) == mid[6].value && Get32(o, t, 36) == mid[7].value && Get32(o, t, 40) == mid[8].value
    ensures Get32(o, t, 44) == mid[9].value && Get32(o, t, 48) == mid[10].value && Get32(o, t, 52) == mid[11].value
    ensures t[56] == mid[12].value && t[57] == mid[13].value && Get16(o, t, 58) == mid[14].value
  {
    hide Get16, Get32, Sum;
    InodeOffsets();
    InodeWidths();
    assert forall i :: 0 <= i < 15 ==> mid[i].width == Widths(mid)[i];
  }

  lemma DirentRead(o: Order, crc: seq<byte> -> u32, x: Node, rest: seq<byte>)
    requires Good(x) && x.Dirent?
    ensures var t := Encode(o, crc, x) + rest;
      HeadLayout(o, crc, t, DIRENT, x.totlen) && DirentLayout(o, crc, t, x.mid, x.nsize, x.name)
  {
    hide Get16, Get32, Put32, Fields, Head, Sum, Swap, ConvertHead, HeadLayout, ReadsAt;
    DirentOffsets();
    WidthSums();
    var start := DirentStart(o, crc, x.totlen, x.mid);
    var a, b := Put32(o, crc(start)), Put32(o, crc(x.name[..x.nsize]));
    var tail := a + b + x.name + rest;
    Slices(start, a, b, x.name, rest, x.nsize);
    var t := Encode(o, crc, x) + rest;
    assert t == start + tail;
    StartReads(o, crc, DIRENT, x.totlen, x.mid, tail);
    HeadRead(o, crc, DIRENT, x.totlen, Fields(o, x.mid) + tail);
    assert t == Head(o, crc, DIRENT, x.totlen) + (Fields(o, x.mid) + tail);
    forall i: nat | i < 8 ensures ReadsAt(o, t, UNKNOWN_SIZE + Sum(DIRENT_WIDTHS[..i]), x.mid[i]) {
      FieldReads(o, Head(o, crc, DIRENT, x.totlen), x.mid, i, tail);
    }
    Read32(o, t, 32, crc(start));
    Read32(o, t, 36, crc(x.name[..x.nsize]));
    assert t[..32] == start;
    DirentTable(o, t, x.mid);
  }

  lemma DirentTable(o: Order, t: seq<byte>, mid: seq<Field>)
    requires |mid| == 8 && Widths(mid) == DIRENT_WIDTHS && |t| >= 40
    requires forall i: nat :: i < 8 ==> ReadsAt(o, t, UNKNOWN_SIZE + Sum(DIRENT_WIDTHS[..i]), mid[i])
    ensures Get32(o, t, 12) == mid[0].value && Get32(o, t, 16) == mid[1].value && Get32(o, t, 20) == mid[2].value
    ensures Get32(o, t, 24) == mid[3].value && t[28] == mid[4].value && t[29] == mid[5].value
    ensures t[30] == mid[6].value && t[31] == mid[7].value
  {
    hide Get16, Get32, Sum;
    DirentOffsets();
    assert forall i :: 0 <= i < 8 ==> mid[i].width == Widths(mid)[i];
  }

  // Cleanmarkers and padding: the head, and then what fills them up.
  lemma MarkerRead(o: Order, crc: seq<byte> -> u32, x: Node, rest: seq<byte>)
    requires Good(x) && x.Marker?
    ensures var t := Encode(o, crc, x) + rest;
      HeadLayout(o, crc, t, x.kind, x.totlen) && |t| >= UNKNOWN_SIZE + |x.rest| &&
      t[UNKNOWN_SIZE..UNKNOWN_SIZE + |x.rest|] == x.rest
  {
    hide Get16, Get32, Put32, Head, HeadLayout;
    HeadRead(o, crc, x.kind, x.totlen, x.rest + rest);
    HeadReads(o, crc, x.kind, x.totlen, x.rest + rest);
    var h := Head(o, crc, x.kind, x.totlen);
    assert h + x.rest + rest == h + (x.rest + rest);
  }
}
