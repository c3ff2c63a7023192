/**
  A series of daily returns and its mirror image with every sign turned, as for a buy and a sell of the same
  trade. Their wealth does not mirror: compounding adds to both sides.
 */
module MirroredReturns {
  import opened Performance
  import opened RealFacts

  function Negated(rs: seq<real>): seq<real> {
    seq(|rs|, i requires 0 <= i < |rs| => -rs[i])
  }

  /** The days among the first `k` with a return other than 0. */
  function Moves(rs: seq<real>, k: nat): nat
    requires k <= |rs|
  {
    if k == 0 then 0 else Moves(rs, k - 1) + (if rs[k - 1] != 0.0 then 1 else 0)
  }

  /** What both sides own together, and how far they are apart. */
  ghost function Both(rs: seq<real>, k: nat): real
    requires k <= |rs|
  {
    Wealth(rs, k) + Wealth(Negated(rs), k)
  }

  ghost function Apart(rs: seq<real>, k: nat): real
    requires k <= |rs|
  {
    Wealth(rs, k) - Wealth(Negated(rs), k)
  }

  lemma GrownApart(u: real, d: real, r: real)
    ensures Grown(u, r) + Grown(d, -r) == u + d + Times(r, u - d)
    ensures Grown(u, r) - Grown(d, -r) == u - d + Times(r, u + d)
  {
  }

  lemma NextDay(rs: seq<real>, k: nat)
    requires k < |rs|
    ensures Both(rs, k + 1) == Both(rs, k) + Times(rs[k], Apart(rs, k))
    ensures Apart(rs, k + 1) == Apart(rs, k) + Times(rs[k], Both(rs, k))
    ensures Moves(rs, k + 1) == Moves(rs, k) + if rs[k] != 0.0 then 1 else 0
  {
    OneDay(rs, k);
    OneDay(Negated(rs), k);
    hide Wealth, Grown, Times;
    GrownApart(Wealth(rs, k), Wealth(Negated(rs), k), rs[k]);
  }

  lemma TimesSigns(x: real, y: real)
    ensures x == 0.0 || y == 0.0 <==> Times(x, y) == 0.0
    ensures x >= 0.0 && y >= 0.0 ==> Times(x, y) >= 0.0
  {
    if Times(x, y) == 0.0 {
      NoZeroDivisors(x, y);
    } else if x == 0.0 {
      TimesZero(y, x);
    } else if y == 0.0 {
      TimesZero(x, y);
    }
    Product(x, y);
  }

  /** On any series: one move leaves the sum at 2, a second one never does. */
  lemma {:induction false} FewMoves(rs: seq<real>, k: nat)
    requires k <= |rs|
    ensures Moves(rs, k) <= 1 ==> Both(rs, k) == 2.0
    ensures Moves(rs, k) == 0 ==> Apart(rs, k) == 0.0
    ensures Moves(rs, k) == 1 ==> Apart(rs, k) != 0.0
    ensures Moves(rs, k) == 2 ==> Both(rs, k) != 2.0
  {
    if k > 0 {
      hide Both, Apart, Moves, Times;
      FewMoves(rs, k - 1);
      NextDay(rs, k - 1);
      TimesSigns(rs[k - 1], Apart(rs, k - 1));
      TimesSigns(rs[k - 1], Both(rs, k - 1));
    }
  }

  ghost predicate Rising(rs: seq<real>) {
    forall i :: 0 <= i < |rs| ==> rs[i] >= 0.0
  }

  ghost predicate Falling(rs: seq<real>) {
    forall i :: 0 <= i < |rs| ==> rs[i] <= 0.0
  }

  /** While nothing falls the two sides drift apart, and from the second move on own more than 2 together. */
  lemma {:induction false} RisingMoves(rs: seq<real>, k: nat)
    requires Rising(rs) && k <= |rs|
    ensures Both(rs, k) >= 2.0 && Apart(rs, k) >= 0.0
    ensures Apart(rs, k) == 0.0 <==> Moves(rs, k) == 0
    ensures Both(rs, k) == 2.0 <==> Moves(rs, k) <= 1
  {
    if k > 0 {
      assert rs[k - 1] >= 0.0;
      hide Both, Apart, Moves, Times, Rising;
      RisingMoves(rs, k - 1);
      NextDay(rs, k - 1);
      TimesSigns(rs[k - 1], Apart(rs, k - 1));
      TimesSigns(rs[k - 1], Both(rs, k - 1));
    }
  }

  lemma {:induction false} NegatedMoves(rs: seq<real>, k: nat)
    requires k <= |rs|
    ensures Moves(Negated(rs), k) == Moves(rs, k)
  {
    if k > 0 {
      NegatedMoves(rs, k - 1);
    }
  }

  lemma NegatedTwice(rs: seq<real>)
    ensures Negated(Negated(rs)) == rs
  {
  }

  ghost predicate Mirrors(rs: seq<real>) {
    CumulativeReturn(Negated(rs)) == -CumulativeReturn(rs)
  }

  /** On a series that never reverses, the cumulative returns mirror each other exactly when at most one day moved. */
  lemma MirrorIff(rs: seq<real>)
    requires Rising(rs) || Falling(rs)
    ensures Mirrors(rs) <==> Moves(rs, |rs|) <= 1
  {
    NegatedTwice(rs);
    hide Wealth, Moves;
    if Rising(rs) {
      RisingMoves(rs, |rs|);
    } else {
      RisingMoves(Negated(rs), |rs|);
      NegatedMoves(rs, |rs|);
    }
  }

  /** On any series they mirror each other if at most one day moved, and never if two did. */
  lemma MirrorOfFewMoves(rs: seq<real>)
    ensures Moves(rs, |rs|) <= 1 ==> Mirrors(rs)
    ensures Moves(rs, |rs|) == 2 ==> !Mirrors(rs)
  {
    hide Wealth, Moves;
    FewMoves(rs, |rs|);
  }

  /** With three moves and a reversal they may: up 100% twice, then down 50%. */
  lemma ThreeMovesMayMirror()
    ensures Mirrors([1.0, 1.0, -0.5]) && Moves([1.0, 1.0, -0.5], 3) == 3
  {
    var rs := [1.0, 1.0, -0.5];
    var ns := Negated(rs);
    assert Wealth(rs, 1) == 2.0 && Wealth(rs, 2) == 4.0 && Wealth(rs, 3) == 2.0;
    assert Wealth(ns, 1) == 0.0 && Wealth(ns, 2) == 0.0 && Wealth(ns, 3) == 0.0;
    assert Moves(rs, 1) == 1 && Moves(rs, 2) == 2;
  }
}
