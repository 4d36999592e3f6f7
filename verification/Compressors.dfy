// compr.c: the registry of compressors, a circular doubly linked list in the
// order of their priorities.
module Compressors {
  import opened Basics
  import opened Bytes
  import opened ComprChoice

  datatype Coded = Failed | Coded(taken: nat, bytes: seq<byte>)

  class Compressor {
    var next: Compressor?
    var prev: Compressor?
    var priority: int
    const name: string
    const kind: byte // JFFS2_COMPR_XXX
    const compresses: bool // false: there is only a decompressor
    const compress: (seq<byte>, nat) -> Coded
    var disabled: bool
    var usecount: nat

    constructor (name: string, kind: byte, priority: int, compresses: bool, compress: (seq<byte>, nat) -> Coded)
      ensures this.name == name && this.kind == kind && this.priority == priority
      ensures this.compresses == compresses && this.compress == compress && !disabled && usecount == 0
    {
      this.name, this.kind, this.priority := name, kind, priority;
      this.compresses, this.compress, disabled, usecount := compresses, compress, false, 0;
      next, prev := null, null;
    }
  }

  // Element i of the ring; the head stands in front and behind.
  ghost function At(head: Compressor, list: seq<Compressor>, i: nat): Compressor {
    if 0 < i <= |list| then list[i - 1] else head
  }

  ghost predicate Linked(head: Compressor, list: seq<Compressor>, i: nat)
    reads At(head, list, i), At(head, list, i + 1)
  {
    At(head, list, i).next == At(head, list, i + 1) && At(head, list, i + 1).prev == At(head, list, i)
  }

  ghost predicate Ring(head: Compressor, list: seq<Compressor>)
    reads head, list
  {
    head !in list && NoRepeat(list) && forall i: nat :: i <= |list| ==> Linked(head, list, i)
  }

  ghost predicate Sorted(list: seq<Compressor>)
    reads list
  {
    forall i, j :: 0 <= i < j < |list| ==> list[i].priority >= list[j].priority
  }

  // The place for a new element: behind all that have at least its priority.
  ghost predicate Place(list: seq<Compressor>, priority: int, k: nat)
    reads list
  {
    k <= |list| && (forall i :: 0 <= i < k ==> list[i].priority >= priority) &&
    (k < |list| ==> list[k].priority < priority)
  }

  ghost function Inserted<T>(s: seq<T>, k: nat, x: T): (r: seq<T>)
    requires k <= |s|
  {
    s[..k] + [x] + s[k..]
  }

  ghost function Removed<T>(s: seq<T>, k: nat): (r: seq<T>)
    requires k < |s|
  {
    s[..k] + s[k + 1..]
  }

  // __list_add: between element k and the one behind it.
  method ListAdd(x: Compressor, prev: Compressor, next: Compressor, ghost head: Compressor,
          ghost list: seq<Compressor>, ghost k: nat)
    requires Ring(head, list) && x != head && x !in list && k <= |list|
    requires prev == At(head, list, k) && next == At(head, list, k + 1)
    modifies next`prev, x`next, x`prev, prev`next
    ensures Ring(head, Inserted(list, k, x))
  {
    next.prev := x;
    x.next := next;
    x.prev := prev;
    prev.next := x;
    ghost var list' := Inserted(list, k, x);
    forall i: nat | i <= |list'| ensures Linked(head, list', i) {
      if i < k {
        assert old(Linked(head, list, i));
        assert At(head, list', i) == At(head, list, i) && At(head, list', i + 1) == At(head, list, i + 1);
      } else if i > k + 1 {
        assert old(Linked(head, list, i - 1));
        assert At(head, list', i) == At(head, list, i - 1) && At(head, list', i + 1) == At(head, list, i);
      }
    }
  }

  // list_del of element k.
  method ListDel(x: Compressor, ghost head: Compressor, ghost list: seq<Compressor>, ghost k: nat)
    requires Ring(head, list) && k < |list| && list[k] == x
    modifies head, list
    ensures Ring(head, Removed(list, k)) && x.next == null && x.prev == null
    ensures forall i :: 0 <= i < |list| ==>
      list[i].priority == old(list[i].priority) && list[i].disabled == old(list[i].disabled) &&
      list[i].usecount == old(list[i].usecount)
  {
    assert Linked(head, list, k) && Linked(head, list, k + 1);
    assert At(head, list, k + 1) == x;
    var prev, next := x.prev, x.next;
    next.prev := prev;
    prev.next := next;
    x.next := null;
    x.prev := null;
    ghost var list' := Removed(list, k);
    forall i: nat | i <= |list'| ensures Linked(head, list', i) {
      if i < k {
        assert old(Linked(head, list, i));
        assert At(head, list', i) == At(head, list, i);
      } else if i > k {
        assert old(Linked(head, list, i + 1));
      }
    }
  }

  lemma PlaceIsOne(list: seq<Compressor>, priority: int, j: nat, k: nat)
    requires Sorted(list) && Place(list, priority, j) && Place(list, priority, k)
    ensures j == k
  {
  }

  lemma InsertedSorted(list: seq<Compressor>, k: nat, x: Compressor)
    requires Sorted(list) && Place(list, x.priority, k)
    ensures Sorted(Inserted(list, k, x))
  {
  }

  lemma RemovedSorted(list: seq<Compressor>, k: nat)
    requires Sorted(list) && k < |list|
    ensures Sorted(Removed(list, k))
  {
  }

  // The fields that the list operations leave alone.
  twostate predicate Kept(x: Compressor)
    reads x
  {
    x.priority == old(x.priority) && x.disabled == old(x.disabled) && x.usecount == old(x.usecount)
  }

  twostate predicate AllKept(list: seq<Compressor>)
    reads list
  {
    forall i :: 0 <= i < |list| ==> Kept(list[i])
  }

  // The step from element k of the ring to the next one, which is the head
  // only at the end.
  lemma RingStep(head: Compressor, list: seq<Compressor>, k: nat)
    requires Ring(head, list) && k <= |list|
    ensures At(head, list, k).next == At(head, list, k + 1) && At(head, list, k + 1).prev == At(head, list, k)
    ensures k < |list| <==> At(head, list, k + 1) != head
    ensures k < |list| ==> At(head, list, k + 1) == list[k]
    ensures At(head, list, k) == head || At(head, list, k) in list
    ensures At(head, list, k + 1) == head || At(head, list, k + 1) in list
  {
    assert Linked(head, list, k);
  }

  twostate lemma SortedKept(list: seq<Compressor>)
    requires old(Sorted(list)) && AllKept(list)
    ensures Sorted(list)
  {
  }

  lemma RingRest(head: Compressor, list: seq<Compressor>, j: nat)
    requires Ring(head, list) && j < |list|
    ensures list[j] !in Removed(list, j) && list[j] != head && list[j] in list
    ensures forall i :: 0 <= i < |list| - 1 ==> Removed(list, j)[i] == list[if i < j then i else i + 1]
  {
  }

  const COMPR_NONE: byte := 0
  const COMPR_LZO: byte := 7

  // What an enabled compressor makes of the data.
  ghost function Tried(x: Compressor, data: seq<byte>, space: nat): Coded
    reads x
  {
    if x.compresses && !x.disabled then x.compress(data, space) else Failed
  }

  // A compressor that succeeds leaves something behind.
  ghost predicate Productive(list: seq<Compressor>, data: seq<byte>, space: nat)
    reads list
  {
    forall i :: 0 <= i < |list| && Tried(list[i], data, space).Coded? ==> |Tried(list[i], data, space).bytes| > 0
  }

  // The first of the first n compressors that succeeds, or -1.
  ghost function First(list: seq<Compressor>, data: seq<byte>, space: nat, n: nat): (r: int)
    requires n <= |list|
    reads list
    ensures if r == -1 then forall i :: 0 <= i < n ==> Tried(list[i], data, space).Failed?
            else 0 <= r < n && Tried(list[r], data, space).Coded? &&
                 forall i :: 0 <= i < r ==> Tried(list[i], data, space).Failed?
  {
    if n == 0 then -1 else
      var f := First(list, data, space, n - 1);
      if f == -1 && Tried(list[n - 1], data, space).Coded? then n - 1 else f
  }

  lemma FirstIs(list: seq<Compressor>, data: seq<byte>, space: nat, n: nat)
    requires n <= |list|
    ensures var r := First(list, data, space, n);
      if r == -1 then forall i :: 0 <= i < n ==> Tried(list[i], data, space).Failed?
      else 0 <= r < n && Tried(list[r], data, space).Coded? &&
           forall i :: 0 <= i < r ==> Tried(list[i], data, space).Failed?
  {
  }

  // Which compressor on the list the data goes to, or -1.
  ghost function Selected(mode: Mode, list: seq<Compressor>, data: seq<byte>, space: nat): (r: int)
    reads list
    ensures -1 <= r < |list| && (r >= 0 ==> Tried(list[r], data, space).Coded?)
  {
    match mode
    case None => -1
    case Priority => First(list, data, space, |list|)
    case _ => Pick(mode, Offers(list, data, space), |list|)
  }

  ghost function OfferOf(x: Compressor, data: seq<byte>, space: nat): Offer
    reads x
  {
    match Tried(x, data, space)
    case Failed => NoOffer
    case Coded(taken, bytes) => if |bytes| < taken then Offer(x.kind == COMPR_LZO, |bytes|) else NoOffer
  }

  // The offers that are favoured are those of method 7.
  lemma LzoIsSeven(x: Compressor, data: seq<byte>, space: nat)
    ensures OfferOf(x, data, space).Offer? ==> (OfferOf(x, data, space).lzo <==> x.kind == 7)
  {
  }

  ghost function Offers(list: seq<Compressor>, data: seq<byte>, space: nat): (r: seq<Offer>)
    reads list
    ensures |r| == |list|
  {
    seq(|list|, i requires 0 <= i < |list| reads list => OfferOf(list[i], data, space))
  }

  // The length that the last attempt among the first n compressors leaves: each
  // one begins with all the space, and says how much it used if it succeeds.
  ghost function LengthLeft(list: seq<Compressor>, data: seq<byte>, space: nat, n: nat): nat
    requires n <= |list|
    reads list
  {
    if n == 0 then space
    else if !list[n - 1].compresses || list[n - 1].disabled then LengthLeft(list, data, space, n - 1)
    else
      var r := Tried(list[n - 1], data, space);
      if r.Coded? then |r.bytes| else space
  }

  lemma {:induction false} LengthIsSome(list: seq<Compressor>, data: seq<byte>, space: nat, n: nat) returns (i: int)
    requires n <= |list|
    ensures LengthLeft(list, data, space, n) == space ||
      (0 <= i < n && Tried(list[i], data, space).Coded? &&
       |Tried(list[i], data, space).bytes| == LengthLeft(list, data, space, n))
  {
    i := n - 1;
    if n > 0 && (!list[n - 1].compresses || list[n - 1].disabled) { i := LengthIsSome(list, data, space, n - 1); }
  }

  lemma NothingTried(list: seq<Compressor>, data: seq<byte>, space: nat)
    ensures LengthLeft(list, data, space, 0) == space
  {
  }

  lemma NothingPicked(mode: Mode, offers: seq<Offer>)
    ensures Pick(mode, offers, 0) == -1
  {
  }

  lemma PickNext(mode: Mode, offers: seq<Offer>, k: nat)
    requires k < |offers|
    ensures var best := Pick(mode, offers, k);
      -1 <= best < k && (best >= 0 ==> offers[best].Offer?) &&
      Pick(mode, offers, k + 1) ==
        if offers[k].Offer? && (best == -1 || IsBest(mode, offers[k], offers[best])) then k else best
  {
    hide IsBest;
  }

  lemma OfferAt(list: seq<Compressor>, data: seq<byte>, space: nat, k: nat)
    requires k < |list| && Productive(list, data, space)
    ensures var x := list[k]; var r := if x.compresses && !x.disabled then x.compress(data, space) else Failed;
      |Offers(list, data, space)| == |list| && Tried(x, data, space) == r &&
      Offers(list, data, space)[k] ==
        (if r.Coded? && |r.bytes| < r.taken then Offer(x.kind == COMPR_LZO, |r.bytes|) else NoOffer) &&
      (r.Coded? ==> |r.bytes| > 0) &&
      LengthLeft(list, data, space, k + 1) ==
        (if !x.compresses || x.disabled then LengthLeft(list, data, space, k)
         else if r.Coded? then |r.bytes| else space)
  {
  }

  class Registry {
    const head: Compressor // jffs2_compressor_list
    var mode: Mode
    ghost var list: seq<Compressor>

    ghost predicate Valid()
      reads this, head, list
    {
      Ring(head, list) && Sorted(list)
    }

    constructor ()
      ensures Valid() && list == [] && mode == Priority && fresh(head)
    {
      var h := new Compressor("", 0, 0, false, (_, _) => Failed);
      head, mode, list := h, Priority, [];
      new;
      head.next := head;
      head.prev := head;
    }

    // The loop that registering and changing a priority have in common.
    method FindPlace(priority: int) returns (t: Compressor, ghost k: nat)
      requires Valid()
      ensures Place(list, priority, k) && t == At(head, list, k + 1)
    {
      hide Ring, Sorted, At;
      k := 0;
      HeadFirst(list);
      RingStep(head, list, 0);
      t := head.next;
      while t != head
        invariant k <= |list| && t == At(head, list, k + 1)
        invariant forall i :: 0 <= i < k ==> list[i].priority >= priority
        decreases |list| - k
      {
        RingStep(head, list, k);
        RingStep(head, list, k + 1);
        if t.priority < priority {
          return;
        }
        t := t.next;
        k := k + 1;
      }
      RingStep(head, list, k);
    }

    lemma HeadFirst(s: seq<Compressor>)
      ensures At(head, s, 0) == head
    {
    }

    method Insert(x: Compressor) returns (ghost k: nat)
      requires Valid() && x != head && x !in list
      modifies this`list, head, list, x
      ensures Valid() && Place(old(list), x.priority, k) && list == Inserted(old(list), k, x)
      ensures AllKept(old(list)) && Kept(x)
    {
      var t;
      t, k := FindPlace(x.priority);
      AddBefore(x, t, k);
    }

    // list_add behind the element before t, and list_add_tail for the head.
    method AddBefore(x: Compressor, t: Compressor, ghost k: nat)
      requires Valid() && x != head && x !in list && Place(list, x.priority, k) && t == At(head, list, k + 1)
      modifies this`list, head, list, x
      ensures Valid() && list == Inserted(old(list), k, x) && AllKept(old(list)) && Kept(x)
    {
      hide Ring, Sorted, Inserted, At;
      ghost var was := list;
      RingStep(head, list, k);
      InsertedSorted(was, k, x);
      ListAdd(x, t.prev, t, head, list, k);
      assert AllKept(was);
      list := Inserted(was, k, x);
      SortedKept(list);
    }

    method Register(x: Compressor) returns (ghost k: nat)
      requires Valid() && x != head && x !in list
      modifies this`list, head, list, x
      ensures Valid() && Place(old(list), old(x.priority), k) && list == Inserted(old(list), k, x)
      ensures AllKept(old(list)) && x.usecount == 0 && x.priority == old(x.priority) && x.disabled == old(x.disabled)
    {
      x.usecount := 0;
      k := Insert(x);
    }

    method Unregister(x: Compressor, ghost k: nat) returns (ok: bool)
      requires Valid() && k < |list| && list[k] == x
      modifies this`list, head, list
      ensures Valid() && ok == (old(x.usecount) == 0) && list == if ok then Removed(old(list), k) else old(list)
      ensures AllKept(old(list))
    {
      if x.usecount != 0 {
        return false;
      }
      RemovedSorted(list, k);
      ListDel(x, head, list, k);
      list := Removed(list, k);
      ok := true;
    }

    // The first compressor of that name, if there is one.
    ghost predicate Named(name: string, k: nat)
      reads this`list
    {
      k < |list| && list[k].name == name && forall i :: 0 <= i < k ==> list[i].name != name
    }

    method Find(name: string) returns (x: Compressor?, ghost k: nat)
      requires Valid()
      ensures x == null ==> forall i :: 0 <= i < |list| ==> list[i].name != name
      ensures x != null ==> Named(name, k) && x == list[k]
    {
      k := 0;
      assert Linked(head, list, 0);
      var t := head.next;
      while t != head
        invariant k <= |list| && t == At(head, list, k + 1)
        invariant forall i :: 0 <= i < k ==> list[i].name != name
        decreases |list| - k
      {
        assert Linked(head, list, k + 1);
        if t.name == name {
          return t, k;
        }
        t := t.next;
        k := k + 1;
      }
      x := null;
    }

    method Xable(name: string, disabled: bool) returns (ok: bool, ghost k: nat)
      requires Valid()
      modifies list
      ensures Valid() && list == old(list)
      ensures !ok ==> forall i :: 0 <= i < |list| ==> list[i].name != name && list[i].disabled == old(list[i].disabled)
      ensures ok ==> old(Named(name, k)) && list[k].disabled == disabled
      ensures ok ==> forall i :: 0 <= i < |list| && i != k ==> list[i].disabled == old(list[i].disabled)
      ensures forall i :: 0 <= i < |list| ==>
        list[i].priority == old(list[i].priority) && list[i].usecount == old(list[i].usecount)
    {
      var x;
      x, k := Find(name);
      if x == null {
        return false, 0;
      }
      x.disabled := disabled;
      forall i: nat | i <= |list| ensures Linked(head, list, i) {
        assert old(Linked(head, list, i));
      }
      ok := true;
    }

    // A compressor whose priority changes moves to its new place.
    method SetPriority(name: string, priority: int) returns (ok: bool, ghost j: nat, ghost k: nat)
      requires Valid()
      modifies this`list, head, list
      ensures Valid()
      ensures !ok ==> list == old(list) && AllKept(old(list)) && forall i :: 0 <= i < |list| ==> list[i].name != name
      ensures ok ==> old(Named(name, j)) && old(list[j]).priority == priority
      ensures ok ==>
        old(list[j]).disabled == old(list[j].disabled) && old(list[j]).usecount == old(list[j].usecount)
      ensures ok ==>
        Place(Removed(old(list), j), priority, k) && list == Inserted(Removed(old(list), j), k, old(list[j]))
      ensures ok ==> AllKept(Removed(old(list), j))
    {
      hide Ring, Sorted, Inserted, At, Place;
      var x;
      x, j := Find(name);
      if x == null {
        return false, 0, 0;
      }
      ghost var was, rest := list, Removed(list, j);
      RemovedSorted(list, j);
      RingRest(head, list, j);
      Take(x, priority, j);
      label Taken:
      k := Insert(x);
      forall i | 0 <= i < |rest| ensures Kept(rest[i]) {
        assert rest[i] == was[if i < j then i else i + 1];
        assert Kept@Taken(rest[i]);
      }
      ok := true;
    }

    // The first half of it: the compressor leaves the list.
    method Take(x: Compressor, priority: int, ghost j: nat)
      requires Valid() && j < |list| && list[j] == x
      modifies this`list, head, list
      ensures Valid() && list == Removed(old(list), j) && x.priority == priority
      ensures AllKept(list) && x.disabled == old(x.disabled) && x.usecount == old(x.usecount)
    {
      hide Sorted;
      ghost var rest := Removed(list, j);
      RemovedSorted(list, j);
      RingRest(head, list, j);
      x.priority := priority;
      forall i: nat | i <= |list| ensures Linked(head, list, i) {
        assert old(Linked(head, list, i));
      }
      ListDel(x, head, list, j);
      SortedKept(rest);
      list := rest;
    }

    method CompressByPriority(data: seq<byte>, space: nat) returns (best: Compressor?, r: Coded)
      requires Valid()
      ensures var k := First(list, data, space, |list|);
        if k == -1 then best == null else best == list[k] && r == Tried(list[k], data, space)
    {
      hide Ring, Sorted, At, First;
      ghost var k := 0;
      HeadFirst(list);
      RingStep(head, list, 0);
      FirstIs(list, data, space, |list|);
      var t := head.next;
      while t != head
        invariant k <= |list| && t == At(head, list, k + 1)
        invariant forall i :: 0 <= i < k ==> Tried(list[i], data, space).Failed?
        decreases |list| - k
      {
        RingStep(head, list, k);
        RingStep(head, list, k + 1);
        if t.compresses && !t.disabled {
          r := t.compress(data, space);
          if r.Coded? {
            return t, r;
          }
        }
        t := t.next;
        k := k + 1;
      }
      RingStep(head, list, k);
      best, r := null, Failed;
    }

    method CompressBySize(data: seq<byte>, space: nat)
      returns (best: Compressor?, bestSlen: nat, bestBuf: seq<byte>, cdatalen: nat)
      requires Valid() && (mode.Size? || mode.FavourLzo?) && Productive(list, data, space)
      ensures var k := Pick(mode, Offers(list, data, space), |list|);
        if k == -1 then best == null else best == list[k] && Coded(bestSlen, bestBuf) == Tried(list[k], data, space)
      ensures cdatalen == LengthLeft(list, data, space, |list|)
    {
      hide Ring, Sorted, At, Pick, IsBest, Offers, Tried, LengthLeft, Productive;
      ghost var k := 0;
      HeadFirst(list);
      RingStep(head, list, 0);
      var t := head.next;
      var bestDlen := 0;
      ghost var pick := -1;
      best, bestSlen, bestBuf, cdatalen := null, 0, [], space;
      ghost var offers := Offers(list, data, space);
      NothingPicked(mode, offers);
      NothingTried(list, data, space);
      while t != head
        invariant k <= |list| == |offers| && t == At(head, list, k + 1) && offers == Offers(list, data, space)
        invariant pick == Pick(mode, offers, k) && bestDlen == |bestBuf| && -1 <= pick < k
        invariant if pick == -1 then best == null && bestDlen == 0
          else bestDlen > 0 && best == list[pick] && Coded(bestSlen, bestBuf) == Tried(list[pick], data, space)
        invariant pick >= 0 ==> offers[pick] == Offer(best.kind == COMPR_LZO, bestDlen)
        invariant cdatalen == LengthLeft(list, data, space, k)
        decreases |list| - k
      {
        RingStep(head, list, k);
        RingStep(head, list, k + 1);
        PickNext(mode, offers, k);
        OfferAt(list, data, space, k);
        if t.compresses && !t.disabled {
          cdatalen := space;
          var r := t.compress(data, space);
          if r.Coded? {
            cdatalen := |r.bytes|;
            if (bestDlen == 0 ||
                IsBest(mode, Offer(t.kind == COMPR_LZO, cdatalen), Offer(best.kind == COMPR_LZO, bestDlen))) &&
               cdatalen < r.taken {
              best, bestSlen, bestBuf, bestDlen, pick := t, r.taken, r.bytes, cdatalen, k;
            }
          }
        }
        t := t.next;
        k := k + 1;
      }
      RingStep(head, list, k);
    }

    // Compressed data with the length of what it stands for, or the data itself
    // with the length that is to be stored as it is.
    method Compress(data: seq<byte>, space: nat) returns (kind: byte, cdata: seq<byte>, datalen: nat, cdatalen: nat)
      requires Valid() && Productive(list, data, space)
      ensures var k := Selected(mode, list, data, space);
        if k == -1 then kind == COMPR_NONE && cdata == data && datalen == cdatalen
        else kind == list[k].kind && Coded(datalen, cdata) == Tried(list[k], data, space) && cdatalen == |cdata|
      ensures Selected(mode, list, data, space) == -1 ==>
        cdatalen == if mode.Size? || mode.FavourLzo? then LengthLeft(list, data, space, |list|) else space
    {
      var best: Compressor? := null;
      cdatalen := space;
      match mode {
        case None =>
        case Priority =>
          var r;
          best, r := CompressByPriority(data, space);
          if best != null {
            cdata, datalen, cdatalen := r.bytes, r.taken, |r.bytes|;
          }
        case _ =>
          best, datalen, cdata, cdatalen := CompressBySize(data, space);
          if best != null {
            cdatalen := |cdata|;
          }
      }
      if best == null {
        kind, cdata, datalen := COMPR_NONE, data, cdatalen;
      } else {
        kind := best.kind;
      }
    }
  }

  // In PRIORITY mode the choice has the highest priority of those that succeed.
  lemma PriorityPicksHighest(list: seq<Compressor>, data: seq<byte>, space: nat, i: nat)
    requires Sorted(list) && i < |list| && Tried(list[i], data, space).Coded?
    ensures var k := Selected(Priority, list, data, space);
      0 <= k <= i && list[k].priority >= list[i].priority
  {
  }

  // In SIZE mode it is the smallest result of those that shrink the data.
  lemma SizePicksMinimum(list: seq<Compressor>, data: seq<byte>, space: nat, i: nat)
    requires i < |list| && OfferOf(list[i], data, space).Offer?
    ensures var k := Selected(Size, list, data, space);
      k >= 0 && OfferOf(list[k], data, space).Offer? &&
      OfferOf(list[k], data, space).size <= OfferOf(list[i], data, space).size
  {
    var offers := Offers(list, data, space);
    SizePicksSmallest(offers, |list|);
    assert Counts(offers[i], true);
  }
}
