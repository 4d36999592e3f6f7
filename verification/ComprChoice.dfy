// compr.c, jffs2_is_best_compression: choosing between the compressors that
// made the data smaller.
module ComprChoice {
  const FAVOUR_LZO_PERCENT: nat := 80

  datatype Mode = None | Priority | Size | FavourLzo

  // What one compressor on the list made of the data, if that is of any use.
  datatype Offer = NoOffer | Offer(lzo: bool, size: nat)

  // size * 80 / 100 on 32-bit numbers.
  function Percent(size: nat): nat {
    size * FAVOUR_LZO_PERCENT % 0x1_0000_0000 / 100
  }

  lemma PercentIs(size: nat)
    requires size < 0x200_0000
    ensures Percent(size) == size * 80 / 100 <= size
  {
  }

  predicate IsBest(mode: Mode, this_: Offer, best: Offer)
    requires this_.Offer? && best.Offer?
  {
    match mode
    case Size => best.size > this_.size
    case FavourLzo =>
      (this_.lzo && best.size > this_.size) ||
      (!best.lzo && best.size > this_.size) ||
      (this_.lzo && best.size > Percent(this_.size)) ||
      Percent(best.size) > this_.size
    case _ => false
  }

  // The best of the first n offers, or -1 if there is none.
  function Pick(mode: Mode, offers: seq<Offer>, n: nat): (r: int)
    requires n <= |offers|
    ensures -1 <= r < n && (r >= 0 ==> offers[r].Offer?)
  {
    if n == 0 then -1 else
      var best := Pick(mode, offers, n - 1);
      if offers[n - 1].NoOffer? then best
      else if best == -1 || IsBest(mode, offers[n - 1], offers[best]) then n - 1
      else best
  }

  // The offers that count: those that use LZO may be left out.
  ghost predicate Counts(x: Offer, all: bool) {
    x.Offer? && (all || !x.lzo)
  }

  // The first of the smallest among the first n that count, or -1.
  ghost predicate FirstSmallest(offers: seq<Offer>, n: nat, r: int, all: bool)
    requires n <= |offers|
  {
    if r == -1 then forall i :: 0 <= i < n ==> !Counts(offers[i], all)
    else
      0 <= r < n && Counts(offers[r], all) &&
      (forall i :: 0 <= i < n && Counts(offers[i], all) ==> offers[r].size <= offers[i].size) &&
      (forall i :: 0 <= i < r && Counts(offers[i], all) ==> offers[r].size < offers[i].size)
  }

  lemma {:induction false} SizePicksSmallest(offers: seq<Offer>, n: nat)
    requires n <= |offers|
    ensures FirstSmallest(offers, n, Pick(Size, offers, n), true)
  {
    if n > 0 { SizePicksSmallest(offers, n - 1); }
  }

  ghost predicate OneLzo(offers: seq<Offer>, j: nat) {
    j < |offers| && offers[j].Offer? && offers[j].lzo &&
    (forall i :: 0 <= i < |offers| && i != j && offers[i].Offer? ==> !offers[i].lzo) &&
    (forall i :: 0 <= i < |offers| && offers[i].Offer? ==> offers[i].size < 0x200_0000)
  }

  // LZO keeps its place while nothing else among the first n is small enough.
  ghost predicate Favoured(offers: seq<Offer>, n: nat, j: nat)
    requires j < n <= |offers| && offers[j].Offer?
  {
    (forall i :: 0 <= i < j && offers[i].Offer? ==> offers[i].size > Percent(offers[j].size)) &&
    (forall i :: j < i < n && offers[i].Offer? ==> offers[i].size >= Percent(offers[j].size))
  }

  // How two offers compare if LZO is on one side, or on none.
  lemma Compared(this_: Offer, best: Offer)
    requires this_.Offer? && best.Offer? && this_.size < 0x200_0000 && best.size < 0x200_0000
    ensures !this_.lzo && !best.lzo ==> (IsBest(FavourLzo, this_, best) <==> best.size > this_.size)
    ensures this_.lzo && !best.lzo ==> (IsBest(FavourLzo, this_, best) <==> best.size > Percent(this_.size))
    ensures !this_.lzo && best.lzo ==> (IsBest(FavourLzo, this_, best) <==> Percent(best.size) > this_.size)
  {
    hide Percent;
    PercentIs(this_.size);
    PercentIs(best.size);
  }

  lemma {:induction false} FavourBefore(offers: seq<Offer>, n: nat, j: nat)
    requires OneLzo(offers, j) && n <= j
    ensures FirstSmallest(offers, n, Pick(FavourLzo, offers, n), false)
  {
    hide IsBest;
    if n > 0 {
      FavourBefore(offers, n - 1, j);
      var best := Pick(FavourLzo, offers, n - 1);
      if best >= 0 && offers[n - 1].Offer? { Compared(offers[n - 1], offers[best]); }
    }
  }

  // With one compressor that uses LZO it is chosen exactly if every one before
  // it is above 80 percent of its size, rounded down, and every one after it
  // not below that; otherwise the smallest of the others is chosen.
  lemma {:induction false} FavourLzoPicks(offers: seq<Offer>, n: nat, j: nat)
    requires OneLzo(offers, j) && j < n <= |offers|
    ensures var r := Pick(FavourLzo, offers, n);
      if Favoured(offers, n, j) then r == j
      else r >= 0 && FirstSmallest(offers, n, r, false) && offers[r].size <= Percent(offers[j].size)
    decreases n
  {
    hide IsBest, Percent;
    var best := Pick(FavourLzo, offers, n - 1);
    if best >= 0 && offers[n - 1].Offer? { Compared(offers[n - 1], offers[best]); }
    if n == j + 1 {
      FavourBefore(offers, j, j);
    } else {
      FavourLzoPicks(offers, n - 1, j);
      if Favoured(offers, n - 1, j) {
        assert Favoured(offers, n, j) <==> offers[n - 1].NoOffer? || offers[n - 1].size >= Percent(offers[j].size);
      } else {
        assert !Favoured(offers, n, j);
      }
    }
  }

  // LZO in front of the same other offers, and behind them.
  function LzoFirst(others: seq<Offer>, l: nat): seq<Offer> { [Offer(true, l)] + others }
  function LzoLast(others: seq<Offer>, l: nat): seq<Offer> { others + [Offer(true, l)] }

  ghost predicate WithoutLzo(others: seq<Offer>) {
    forall i :: 0 <= i < |others| && others[i].Offer? ==> !others[i].lzo && others[i].size < 0x200_0000
  }

  // Another offer is exactly as large as LZO is given credit for.
  ghost predicate OneEqual(others: seq<Offer>, l: nat) {
    exists i :: 0 <= i < |others| && others[i].Offer? && others[i].size == Percent(l)
  }

  ghost predicate OneBelow(others: seq<Offer>, l: nat) {
    exists i :: 0 <= i < |others| && others[i].Offer? && others[i].size < Percent(l)
  }

  // The place of LZO on the list makes no difference to the choice if and only
  // if no other offer is exactly 80 percent of its size or one is below that.
  lemma FavourOrder(others: seq<Offer>, l: nat)
    requires WithoutLzo(others) && l < 0x200_0000
    ensures var a := Pick(FavourLzo, LzoFirst(others, l), |others| + 1);
      var b := Pick(FavourLzo, LzoLast(others, l), |others| + 1);
      a >= 0 && b >= 0 &&
      ((a == 0 && b == |others|) || (a > 0 && b < |others| && a - 1 == b) <==>
       !OneEqual(others, l) || OneBelow(others, l))
  {
    hide Pick, Percent, Favoured, OneLzo, OneBelow, OneEqual, WithoutLzo, FirstSmallest;
    var n, front, back := |others|, LzoFirst(others, l), LzoLast(others, l);
    LzoIsOne(others, l);
    FavourLzoPicks(front, n + 1, 0);
    FavourLzoPicks(back, n + 1, n);
    FavouredFirst(others, l);
    FavouredLast(others, l);
    NotTheLast(back, n, Pick(FavourLzo, back, n + 1));
    if OneBelow(others, l) {
      SmallestIsOne(others, l, Pick(FavourLzo, front, n + 1), Pick(FavourLzo, back, n + 1));
    }
  }

  lemma LzoIsOne(others: seq<Offer>, l: nat)
    requires WithoutLzo(others) && l < 0x200_0000
    ensures OneLzo(LzoFirst(others, l), 0) && OneLzo(LzoLast(others, l), |others|)
  {
    var front, back := LzoFirst(others, l), LzoLast(others, l);
    assert forall i :: 0 < i < |front| ==> front[i] == others[i - 1];
    assert forall i :: 0 <= i < |others| ==> back[i] == others[i];
  }

  lemma NotTheLast(offers: seq<Offer>, n: nat, r: int)
    requires |offers| == n + 1 && offers[n].Offer? && offers[n].lzo
    ensures FirstSmallest(offers, n + 1, r, false) ==> r < n
  {
  }

  lemma FavouredFirst(others: seq<Offer>, l: nat)
    ensures Favoured(LzoFirst(others, l), |others| + 1, 0) <==> !OneBelow(others, l)
  {
    hide Percent;
    var front := LzoFirst(others, l);
    assert forall i :: 0 <= i < |others| ==> front[i + 1] == others[i];
    assert forall i :: 0 < i < |front| ==> front[i] == others[i - 1];
  }

  lemma FavouredLast(others: seq<Offer>, l: nat)
    ensures Favoured(LzoLast(others, l), |others| + 1, |others|) <==> !OneBelow(others, l) && !OneEqual(others, l)
  {
    hide Percent;
    var back := LzoLast(others, l);
    assert forall i :: 0 <= i < |others| ==> back[i] == others[i];
    if OneEqual(others, l) {
      var i :| 0 <= i < |others| && others[i].Offer? && others[i].size == Percent(l);
      assert back[i] == others[i];
    }
  }

  lemma SmallestIsOne(others: seq<Offer>, l: nat, a: int, b: int)
    requires FirstSmallest(LzoFirst(others, l), |others| + 1, a, false) && a >= 0
    requires FirstSmallest(LzoLast(others, l), |others| + 1, b, false) && b >= 0
    ensures a - 1 == b && b < |others|
  {
    var front, back := LzoFirst(others, l), LzoLast(others, l);
    assert forall i :: 0 <= i < |others| ==> front[i + 1] == others[i] && back[i] == others[i];
    assert front[b + 1] == back[b] && back[a - 1] == front[a];
  }

  // 80 against LZO's 100: whichever of them is on the list first is chosen.
  lemma FavourOrderMatters()
    ensures Pick(FavourLzo, LzoFirst([Offer(false, 80)], 100), 2) == 0
    ensures Pick(FavourLzo, LzoLast([Offer(false, 80)], 100), 2) == 0
  {
    var others := [Offer(false, 80)];
    assert Percent(100) == 80;
    FavourLzoPicks(LzoFirst(others, 100), 2, 0);
    FavourLzoPicks(LzoLast(others, 100), 2, 1);
  }
}
