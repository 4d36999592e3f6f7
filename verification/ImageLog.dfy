// mkfs.jffs2.c: the image as the sequence of nodes written so far, and how
// they lie in the erase blocks.
module ImageLog {
  import opened Arithmetic
  import opened Bytes
  import opened Summaries
  import opened EndianNodes
  import opened EndianImages

  ghost function Total(log: seq<Node>): nat {
    if log == [] then 0 else Total(log[..|log| - 1]) + Size(log[|log| - 1])
  }

  lemma {:induction false} TotalJoin(a: seq<Node>, b: seq<Node>)
    ensures Total(a + b) == Total(a) + Total(b)
  {
    if b == [] {
      assert a + b == a;
    } else {
      assert (a + b)[..|a + b| - 1] == a + b[..|b| - 1];
      TotalJoin(a, b[..|b| - 1]);
    }
  }

  lemma {:induction false} EncodeMore(o: Order, crc: seq<byte> -> u32, log: seq<Node>, x: Node)
    requires AllGood(log) && Good(x)
    ensures AllGood(log + [x]) && EncodeAll(o, crc, log + [x]) == EncodeAll(o, crc, log) + Encode(o, crc, x)
  {
    hide Good, Encode;
    assert forall i :: 0 <= i < |log + [x]| ==> (log + [x])[i] == if i < |log| then log[i] else x;
    if log != [] {
      assert (log + [x])[1..] == log[1..] + [x];
      EncodeMore(o, crc, log[1..], x);
    }
  }

  lemma {:induction false} EncodeJoin(o: Order, crc: seq<byte> -> u32, a: seq<Node>, b: seq<Node>)
    requires AllGood(a) && AllGood(b)
    ensures AllGood(a + b) && EncodeAll(o, crc, a + b) == EncodeAll(o, crc, a) + EncodeAll(o, crc, b)
  {
    hide Good, Encode;
    if a == [] {
      assert a + b == b;
    } else {
      assert (a + b)[1..] == a[1..] + b;
      EncodeJoin(o, crc, a[1..], b);
    }
  }

  lemma {:induction false} EncodedTotal(o: Order, crc: seq<byte> -> u32, log: seq<Node>)
    requires AllGood(log)
    ensures |EncodeAll(o, crc, log)| == Total(log)
    decreases |log|
  {
    hide Good, Encode, Size;
    if log != [] {
      var front, last := log[..|log| - 1], log[|log| - 1];
      EncodedTotal(o, crc, front);
      EncodeMore(o, crc, front, last);
      assert front + [last] == log;
      EncodedSize(o, crc, last);
    }
  }

  // The offset in its erase block.
  function Pos(e: nat, at: nat): (r: nat)
    requires e > 0
    ensures r < e
  {
    at % e
  }

  // The distance to the end of the erase block, unless at begins one.
  function ToEnd(e: nat, at: nat): nat
    requires e > 0
  {
    if Pos(e, at) == 0 then 0 else e - Pos(e, at)
  }

  // A node of that size that begins at that offset stays in its erase block.
  predicate Within(e: nat, at: nat, size: nat) {
    e > 0 && Pos(e, at) + size <= e
  }

  predicate Begins(e: nat, at: nat) {
    e > 0 && Pos(e, at) == 0
  }

  // No node crosses the end of an erase block, every node is aligned, and if
  // there are cleanmarkers every block begins with one.
  ghost predicate Laid(e: nat, cleanmarkers: bool, log: seq<Node>)
    requires e > 0
  {
    log == [] ||
    (var front, last := log[..|log| - 1], log[|log| - 1];
     Laid(e, cleanmarkers, front) && Size(last) % 4 == 0 && Within(e, Total(front), Size(last)) &&
     (cleanmarkers && Begins(e, Total(front)) ==> last.Marker? && last.kind == CLEANMARKER))
  }

  lemma {:induction false} WholeWords(e: nat, cleanmarkers: bool, log: seq<Node>)
    requires e > 0 && Laid(e, cleanmarkers, log)
    ensures Total(log) % 4 == 0
  {
    hide Size, Within, Begins;
    if log != [] { WholeWords(e, cleanmarkers, log[..|log| - 1]); }
  }

  // The same said of each node on its own.
  lemma {:induction false} LaidAt(e: nat, cleanmarkers: bool, log: seq<Node>, i: nat)
    requires e > 0 && Laid(e, cleanmarkers, log) && i < |log|
    ensures Total(log[..i]) % 4 == 0 && Size(log[i]) % 4 == 0 && Total(log[..i]) % e + Size(log[i]) <= e
    ensures cleanmarkers && Total(log[..i]) % e == 0 ==> log[i].Marker? && log[i].kind == CLEANMARKER
  {
    hide Size, Total;
    var front := log[..|log| - 1];
    if i < |log| - 1 {
      LaidAt(e, cleanmarkers, front, i);
      assert front[..i] == log[..i];
    } else {
      WholeWords(e, cleanmarkers, front);
    }
  }

  // Every erase block the image reaches into begins with a node.
  lemma {:induction false} BlocksStart(e: nat, cleanmarkers: bool, log: seq<Node>, b: nat) returns (i: nat)
    requires e > 0 && Laid(e, cleanmarkers, log) && b * e < Total(log)
    ensures i < |log| && Total(log[..i]) == b * e
    ensures cleanmarkers ==> log[i].Marker? && log[i].kind == CLEANMARKER
  {
    var front := log[..|log| - 1];
    if b * e < Total(front) {
      i := BlocksStart(e, cleanmarkers, front, b);
      assert front[..i] == log[..i];
    } else {
      i := |log| - 1;
      BlockEnd(e, Total(front), Size(log[i]), b);
    }
    Remainder(e, b, 0);
  }

  // A node that reaches past the start of block b begins there.
  lemma BlockEnd(e: nat, at: nat, size: nat, b: nat)
    requires e > 0 && at % e + size <= e && at <= b * e < at + size
    ensures at == b * e
  {
    var q := at / e;
    assert at == q * e + at % e;
    if q < b { Apart(e, q, b); } else if q > b { Apart(e, b, q); }
  }

  // The inode nodes with a given inode number, in the order they were written.
  function FileNodes(log: seq<Node>, ino: u32): seq<Node> {
    if log == [] then [] else
      var last := log[|log| - 1];
      FileNodes(log[..|log| - 1], ino) +
      (if last.Inode? && |last.mid| > 0 && last.mid[0].value == ino then [last] else [])
  }

  lemma {:induction false} AmongFileNodes(log: seq<Node>, i: nat)
    requires i < |log| && log[i].Inode? && |log[i].mid| > 0
    ensures log[i] in FileNodes(log, log[i].mid[0].value)
    decreases |log|
  {
    if i < |log| - 1 { AmongFileNodes(log[..|log| - 1], i); }
  }

  // The directory entries, in the order they were written.
  function Dirents(log: seq<Node>): seq<Node> {
    if log == [] then [] else
      Dirents(log[..|log| - 1]) + (if log[|log| - 1].Dirent? then [log[|log| - 1]] else [])
  }

  lemma DirentsMore(log: seq<Node>, x: Node)
    ensures Dirents(log + [x]) == Dirents(log) + (if x.Dirent? then [x] else [])
  {
    assert (log + [x])[..|log|] == log;
  }

  lemma FileNodesMore(log: seq<Node>, x: Node, ino: u32)
    ensures FileNodes(log + [x], ino) ==
      FileNodes(log, ino) + (if x.Inode? && |x.mid| > 0 && x.mid[0].value == ino then [x] else [])
  {
    assert (log + [x])[..|log|] == log;
  }

  // No inode number up to now is above ino.
  ghost predicate UpTo(log: seq<Node>, ino: nat) {
    forall i :: 0 <= i < |log| && log[i].Inode? && |log[i].mid| > 0 ==> log[i].mid[0].value <= ino
  }

  lemma {:induction false} NoNodesYet(log: seq<Node>, last: nat, ino: u32)
    requires UpTo(log, last) && last < ino
    ensures FileNodes(log, ino) == []
  {
    if log != [] { NoNodesYet(log[..|log| - 1], last, ino); }
  }

  lemma LaidMore(e: nat, cleanmarkers: bool, log: seq<Node>, x: Node)
    requires e > 0 && Laid(e, cleanmarkers, log) && Size(x) % 4 == 0 && Within(e, Total(log), Size(x))
    requires cleanmarkers && Begins(e, Total(log)) ==> x.Marker? && x.kind == CLEANMARKER
    ensures Laid(e, cleanmarkers, log + [x]) && Total(log + [x]) == Total(log) + Size(x)
  {
    assert (log + [x])[..|log|] == log;
  }

  lemma UpToMore(log: seq<Node>, x: Node, ino: nat)
    requires UpTo(log, ino) && (x.Inode? && |x.mid| > 0 ==> x.mid[0].value <= ino)
    ensures UpTo(log + [x], ino)
  {
  }

  // Fill goes on to the end of its block.
  ghost predicate Tight(e: nat, log: seq<Node>)
    requires e > 0
  {
    forall i :: 0 <= i < |log| - 1 && log[i].Empty? && !log[i + 1].Empty? ==> Begins(e, Total(log[..i + 1]))
  }

  ghost predicate Settled(e: nat, log: seq<Node>)
    requires e > 0
  {
    log != [] && log[|log| - 1].Empty? ==> Begins(e, Total(log))
  }

  predicate Plain(log: seq<Node>) {
    forall i :: 0 <= i < |log| ==> !log[i].WrongBitmask? && !log[i].Summary?
  }

  lemma TightMore(e: nat, log: seq<Node>, x: Node)
    requires e > 0 && Tight(e, log) && Plain(log) && !x.WrongBitmask? && !x.Summary? && (x.Empty? || Settled(e, log))
    ensures Tight(e, log + [x]) && Plain(log + [x]) && (!x.Empty? ==> Settled(e, log + [x]))
  {
    hide Total, Begins;
    var more := log + [x];
    forall i | 0 <= i < |log| && more[i].Empty? && !more[i + 1].Empty?
      ensures Begins(e, Total(more[..i + 1]))
    {
      assert more[..i + 1] == log[..i + 1];
      if i == |log| - 1 { assert log[..i + 1] == log; }
    }
  }

  // A directory entry without gaps: header and name, numbered modulo 2^32.
  predicate IsEntry(x: Node, number: nat) {
    x.Dirent? && |x.mid| == 8 && x.mid[1].value == number % 0x1_0000_0000 && x.totlen == 40 + x.nsize
  }

  // The directory entries are numbered from 0 on.
  predicate Numbered(ds: seq<Node>, next: nat) {
    next == |ds| % 0x1_0000_0000 && forall i :: 0 <= i < |ds| ==> IsEntry(ds[i], i)
  }

  lemma NumberedMore(ds: seq<Node>, next: nat, x: Node)
    requires Numbered(ds, next) && IsEntry(x, |ds|)
    ensures Numbered(ds + [x], (next + 1) % 0x1_0000_0000)
  {
  }
}
