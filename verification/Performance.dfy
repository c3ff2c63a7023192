/**
  Cumulative return and maximum drawdown of a series of daily returns
  (evals/backtest/performance.py). Returns and wealth are reals.
 */
module Performance {

  /** Wealth after `i` days, starting from 1. */
  function Wealth(rs: seq<real>, i: nat): real
    requires i <= |rs|
  {
    if i == 0 then 1.0 else Grown(Wealth(rs, i - 1), rs[i - 1])
  }

  function Grown(wealth: real, r: real): real {
    wealth * (1.0 + r)
  }

  function Max(x: real, y: real): real {
    if x >= y then x else y
  }

  function Peak(rs: seq<real>, i: nat): (p: real)
    requires i <= |rs|
    ensures p >= 1.0 && p >= Wealth(rs, i)
  {
    if i == 0 then 1.0 else Max(Peak(rs, i - 1), Wealth(rs, i))
  }

  /** The share of `high` that is lost at `low`. */
  function Drop(high: real, low: real): real
    requires high > 0.0
  {
    (high - low) / high
  }

  /** The running maximum the loop keeps. */
  function Drawdown(rs: seq<real>, i: nat): (m: real)
    requires i <= |rs|
    ensures m >= 0.0
  {
    if i == 0 then 0.0 else Max(Drawdown(rs, i - 1), Drop(Peak(rs, i), Wealth(rs, i)))
  }

  function CumulativeReturn(rs: seq<real>): real {
    Wealth(rs, |rs|) - 1.0
  }

  function MaxDrawdown(rs: seq<real>): real {
    Drawdown(rs, |rs|)
  }

  lemma OneDay(rs: seq<real>, i: nat)
    requires i < |rs|
    ensures Wealth(rs, i + 1) == Grown(Wealth(rs, i), rs[i])
    ensures Peak(rs, i + 1) == Max(Peak(rs, i), Wealth(rs, i + 1))
    ensures Drawdown(rs, i + 1) == Max(Drawdown(rs, i), Drop(Peak(rs, i + 1), Wealth(rs, i + 1)))
  {
  }

  method PerfMetrics(rs: seq<real>) returns (cr: real, mdd: real)
    ensures cr == CumulativeReturn(rs) && mdd == MaxDrawdown(rs)
  {
    if rs == [] {
      return 0.0, 0.0;
    }
    var wealth, peak := 1.0, 1.0;
    mdd := 0.0;
    for i := 0 to |rs|
      invariant wealth == Wealth(rs, i) && peak == Peak(rs, i) && mdd == Drawdown(rs, i)
    {
      OneDay(rs, i);
      hide Wealth, Peak, Drawdown, Drop, Grown;
      wealth := Grown(wealth, rs[i]);
      peak := Max(peak, wealth);
      mdd := Max(mdd, Drop(peak, wealth));
    }
    cr := wealth - 1.0;
  }

  // ----- Arithmetic ----------------------------------------------------------

  lemma Product(x: real, y: real)
    ensures x >= 0.0 && y >= 0.0 ==> x * y >= 0.0
    ensures x > 0.0 && y > 0.0 ==> x * y > 0.0
  {
  }

  lemma DropTimes(high: real, low: real)
    requires high > 0.0
    ensures Drop(high, low) * high == high - low
  {
  }

  lemma Compare(x: real, y: real, d: real)
    requires d > 0.0
    ensures x * d <= y * d ==> x <= y
    ensures x * d == y * d ==> x == y
    ensures x <= y ==> x * d <= y * d
  {
    if x < y {
      Product(y - x, d);
      assert (y - x) * d == y * d - x * d;
    } else if y < x {
      Product(x - y, d);
      assert (x - y) * d == x * d - y * d;
    }
  }

  /** A higher peak loses a greater share at the same (non-negative) low. */
  lemma HigherPeakDropsMore(p: real, q: real, low: real)
    requires 0.0 < p <= q && low >= 0.0
    ensures Drop(p, low) <= Drop(q, low)
  {
    var x, y := low / p, low / q;
    assert x * p == low && y * q == low;
    assert Drop(p, low) == 1.0 - x && Drop(q, low) == 1.0 - y by {
      OneMinus(p, low);
      OneMinus(q, low);
    }
    Product(x, q - p);
    QuotientSign(low, p);
    assert x * q >= y * q by {
      assert x * q == x * p + x * (q - p);
    }
    Compare(y, x, q);
  }

  /** Below zero it is the lower peak that loses the greater share. */
  lemma LowerPeakDropsMore(p: real, q: real, low: real)
    requires 0.0 < p <= q && low < 0.0
    ensures Drop(p, low) >= Drop(q, low)
    ensures p < q ==> Drop(p, low) > Drop(q, low)
  {
    var x, y := low / p, low / q;
    assert x * p == low && y * q == low;
    assert Drop(p, low) == 1.0 - x && Drop(q, low) == 1.0 - y by {
      OneMinus(p, low);
      OneMinus(q, low);
    }
    NegativeQuotient(low, p);
    Product(-x, q - p);
    assert x * q == x * p + x * (q - p);
    assert x * (q - p) == -((-x) * (q - p));
    Compare(x, y, q);
  }

  lemma NegativeQuotient(low: real, p: real)
    requires p > 0.0 && low < 0.0
    ensures low / p < 0.0
  {
  }

  lemma QuotientSign(low: real, p: real)
    requires p > 0.0 && low >= 0.0
    ensures low / p >= 0.0
  {
  }

  lemma OneMinus(p: real, low: real)
    requires p > 0.0
    ensures Drop(p, low) == 1.0 - low / p
  {
    var x := low / p;
    assert x * p == low;
    Complement(x, p);
    DropTimes(p, low);
    hide Drop;
    Compare(Drop(p, low), 1.0 - x, p);
  }

  lemma Complement(x: real, p: real)
    ensures (1.0 - x) * p == p - x * p
  {
  }

  lemma DropSign(high: real, low: real)
    requires high > 0.0
    ensures Drop(high, low) <= 0.0 <==> high <= low
    ensures Drop(high, low) <= 1.0 <==> low >= 0.0
  {
    DropTimes(high, low);
    Compare(Drop(high, low), 0.0, high);
    Compare(Drop(high, low), 1.0, high);
  }

  lemma DropScales(high: real, low: real, c: real, high': real, low': real)
    requires high > 0.0 && c > 0.0 && high' == c * high && low' == c * low && high' > 0.0
    ensures Drop(high', low') == Drop(high, low)
  {
    var d := Drop(high, low);
    DropTimes(high, low);
    DropTimes(high', low');
    assert d * high' == c * (d * high);
    assert c * (high - low) == high' - low';
    Compare(d, Drop(high', low'), high');
  }

  // ----- The quadratic definition --------------------------------------------

  /** No day loses more than everything. */
  ghost predicate NoWipeout(rs: seq<real>) {
    forall i :: 0 <= i < |rs| ==> rs[i] >= -1.0
  }

  lemma {:induction false} WealthNonNegative(rs: seq<real>, i: nat)
    requires NoWipeout(rs) && i <= |rs|
    ensures Wealth(rs, i) >= 0.0
  {
    if i > 0 {
      WealthNonNegative(rs, i - 1);
      Product(Wealth(rs, i - 1), 1.0 + rs[i - 1]);
    }
  }

  lemma {:induction false} PeakIsHighest(rs: seq<real>, i: nat, j: nat)
    requires i <= j <= |rs|
    ensures Wealth(rs, i) <= Peak(rs, j)
    decreases j
  {
    if i < j {
      PeakIsHighest(rs, i, j - 1);
    }
  }

  lemma {:induction false} PeakIsReached(rs: seq<real>, j: nat) returns (i: nat)
    requires j <= |rs|
    ensures i <= j && Wealth(rs, i) == Peak(rs, j)
  {
    if j == 0 || Wealth(rs, j) >= Peak(rs, j - 1) {
      i := j;
    } else {
      i := PeakIsReached(rs, j - 1);
    }
  }

  lemma {:induction false} DrawdownGrows(rs: seq<real>, i: nat, j: nat)
    requires i <= j <= |rs|
    ensures Drawdown(rs, i) <= Drawdown(rs, j)
    ensures 0 < i ==> Drop(Peak(rs, i), Wealth(rs, i)) <= Drawdown(rs, j)
    decreases j
  {
    if i < j {
      DrawdownGrows(rs, i, j - 1);
    }
  }

  lemma NoDropIsGreater(rs: seq<real>, i: nat, j: nat)
    requires i <= j <= |rs| && Wealth(rs, i) > 0.0 && Wealth(rs, j) >= 0.0
    ensures Drop(Wealth(rs, i), Wealth(rs, j)) <= MaxDrawdown(rs)
  {
    if j == 0 {
      DrawdownGrows(rs, 0, |rs|);
      DropSign(1.0, 1.0);
    } else {
      PeakIsHighest(rs, i, j);
      HigherPeakDropsMore(Wealth(rs, i), Peak(rs, j), Wealth(rs, j));
      DrawdownGrows(rs, j, |rs|);
    }
  }

  lemma {:induction false} SomeDropIsEqual(rs: seq<real>, k: nat) returns (i: nat, j: nat)
    requires k <= |rs|
    ensures i <= j <= k && Wealth(rs, i) > 0.0 && Drop(Wealth(rs, i), Wealth(rs, j)) == Drawdown(rs, k)
  {
    if k == 0 {
      i, j := 0, 0;
    } else if Drawdown(rs, k) == Drawdown(rs, k - 1) {
      i, j := SomeDropIsEqual(rs, k - 1);
    } else {
      j := k;
      i := PeakIsReached(rs, k);
    }
  }

  /** `m` is the greatest of all drops from a day with positive wealth to a later day. */
  ghost predicate IsMaximum(rs: seq<real>, m: real) {
    && (forall i, j :: 0 <= i <= j <= |rs| && Wealth(rs, i) > 0.0 ==> Drop(Wealth(rs, i), Wealth(rs, j)) <= m)
    && exists i, j :: 0 <= i <= j <= |rs| && Wealth(rs, i) > 0.0 && Drop(Wealth(rs, i), Wealth(rs, j)) == m
  }

  ghost predicate NonNegativeUpTo(rs: seq<real>, k: nat)
    requires k <= |rs|
  {
    forall i :: 0 <= i <= k ==> Wealth(rs, i) >= 0.0
  }

  ghost predicate NeverNegative(rs: seq<real>) {
    NonNegativeUpTo(rs, |rs|)
  }

  /** While wealth never turns negative, the one-pass value is the maximum of all drops. */
  lemma DrawdownIsMaximum(rs: seq<real>)
    requires NeverNegative(rs)
    ensures IsMaximum(rs, MaxDrawdown(rs))
  {
    forall i, j | 0 <= i <= j <= |rs| && Wealth(rs, i) > 0.0
      ensures Drop(Wealth(rs, i), Wealth(rs, j)) <= MaxDrawdown(rs)
    {
      NoDropIsGreater(rs, i, j);
    }
    var i, j := SomeDropIsEqual(rs, |rs|);
  }

  /** For any returns: the drawdown stays within [0, 1] exactly when wealth never turns negative. */
  lemma {:induction false} DrawdownAtMostOneIff(rs: seq<real>, k: nat)
    requires k <= |rs|
    ensures 0.0 <= Drawdown(rs, k)
    ensures Drawdown(rs, k) <= 1.0 <==> NonNegativeUpTo(rs, k)
  {
    if k > 0 {
      DrawdownAtMostOneIff(rs, k - 1);
      OneDay(rs, k - 1);
      DropSign(Peak(rs, k), Wealth(rs, k));
      hide Wealth, Peak, Drawdown, Drop;
      assert NonNegativeUpTo(rs, k) <==> Wealth(rs, k) >= 0.0 && NonNegativeUpTo(rs, k - 1);
    }
  }

  /** Without a loss beyond 100% the drawdown is a share. */
  lemma DrawdownInRange(rs: seq<real>)
    requires NoWipeout(rs)
    ensures 0.0 <= MaxDrawdown(rs) <= 1.0
  {
    forall i | 0 <= i <= |rs| ensures Wealth(rs, i) >= 0.0 {
      WealthNonNegative(rs, i);
    }
    DrawdownAtMostOneIff(rs, |rs|);
  }

  /** There is no drawdown exactly when wealth never falls. */
  lemma {:induction false} NoDrawdownIff(rs: seq<real>, k: nat)
    requires k <= |rs|
    ensures Drawdown(rs, k) == 0.0 <==> forall i :: 0 < i <= k ==> Wealth(rs, i - 1) <= Wealth(rs, i)
    ensures Drawdown(rs, k) == 0.0 ==> Peak(rs, k) == Wealth(rs, k)
  {
    if k > 0 {
      NoDrawdownIff(rs, k - 1);
      OneDay(rs, k - 1);
      DropSign(Peak(rs, k), Wealth(rs, k));
      hide Wealth, Peak, Drawdown, Drop;
      assert (forall i :: 0 < i <= k ==> Wealth(rs, i - 1) <= Wealth(rs, i))
        <==> Wealth(rs, k - 1) <= Wealth(rs, k) && forall i :: 0 < i <= k - 1 ==> Wealth(rs, i - 1) <= Wealth(rs, i);
      assert Drawdown(rs, k) == 0.0 <==> Drawdown(rs, k - 1) == 0.0 && Peak(rs, k) <= Wealth(rs, k);
      assert Drawdown(rs, k - 1) == 0.0 ==> (Peak(rs, k) <= Wealth(rs, k) <==> Wealth(rs, k - 1) <= Wealth(rs, k));
    }
  }

  // ----- Negative wealth -----------------------------------------------------

  /** The lowest positive wealth so far. */
  function Lowest(rs: seq<real>, k: nat): (m: real)
    requires k <= |rs|
    ensures 0.0 < m <= 1.0
  {
    if k == 0 then 1.0
    else if 0.0 < Wealth(rs, k) < Lowest(rs, k - 1) then Wealth(rs, k)
    else Lowest(rs, k - 1)
  }

  /** The greatest drop from the lowest positive wealth to a negative one; 0 when wealth is never negative. */
  function Plunge(rs: seq<real>, k: nat): real
    requires k <= |rs|
  {
    if k == 0 then 0.0
    else if Wealth(rs, k) < 0.0 then Max(Plunge(rs, k - 1), Drop(Lowest(rs, k), Wealth(rs, k)))
    else Plunge(rs, k - 1)
  }

  lemma {:induction false} LowestBounds(rs: seq<real>, i: nat, k: nat)
    requires i <= k <= |rs| && Wealth(rs, i) > 0.0
    ensures Lowest(rs, k) <= Wealth(rs, i)
    decreases k
  {
    if i < k {
      LowestBounds(rs, i, k - 1);
    }
  }

  lemma {:induction false} LowestIsReached(rs: seq<real>, k: nat) returns (i: nat)
    requires k <= |rs|
    ensures i <= k && Wealth(rs, i) == Lowest(rs, k)
  {
    if k == 0 || Lowest(rs, k) != Lowest(rs, k - 1) {
      i := k;
    } else {
      i := LowestIsReached(rs, k - 1);
    }
  }

  lemma {:induction false} PlungeGrows(rs: seq<real>, j: nat, k: nat)
    requires j <= k <= |rs|
    ensures 0.0 <= Plunge(rs, j) <= Plunge(rs, k)
    ensures Wealth(rs, j) < 0.0 ==> Drop(Lowest(rs, j), Wealth(rs, j)) <= Plunge(rs, k)
    decreases k
  {
    if j < k {
      PlungeGrows(rs, j, k - 1);
    } else if k > 0 {
      PlungeGrows(rs, k - 1, k - 1);
    }
  }

  lemma {:induction false} PlungeIsReached(rs: seq<real>, k: nat) returns (i: nat, j: nat)
    requires k <= |rs| && Plunge(rs, k) > 0.0
    ensures i <= j <= k && Wealth(rs, i) > 0.0 && Drop(Wealth(rs, i), Wealth(rs, j)) == Plunge(rs, k)
  {
    if Plunge(rs, k) == Plunge(rs, k - 1) {
      i, j := PlungeIsReached(rs, k - 1);
    } else {
      j := k;
      i := LowestIsReached(rs, k);
    }
  }

  lemma NoDropIsGreaterThanBoth(rs: seq<real>, i: nat, j: nat)
    requires i <= j <= |rs| && Wealth(rs, i) > 0.0
    ensures Drop(Wealth(rs, i), Wealth(rs, j)) <= Max(MaxDrawdown(rs), Plunge(rs, |rs|))
  {
    hide Wealth, Lowest, Plunge, Peak, Drawdown, Drop;
    if Wealth(rs, j) >= 0.0 {
      NoDropIsGreater(rs, i, j);
    } else {
      LowestBounds(rs, i, j);
      LowerPeakDropsMore(Lowest(rs, j), Wealth(rs, i), Wealth(rs, j));
      PlungeGrows(rs, j, |rs|);
    }
  }

  /** For any returns: the maximum of all drops is the greater of the one-pass value and the plunge. */
  lemma MaximumOfAllDrops(rs: seq<real>)
    ensures IsMaximum(rs, Max(MaxDrawdown(rs), Plunge(rs, |rs|)))
  {
    hide Wealth, Lowest, Plunge, Peak, Drawdown, Drop;
    forall i, j | 0 <= i <= j <= |rs| && Wealth(rs, i) > 0.0
      ensures Drop(Wealth(rs, i), Wealth(rs, j)) <= Max(MaxDrawdown(rs), Plunge(rs, |rs|))
    {
      NoDropIsGreaterThanBoth(rs, i, j);
    }
    DrawdownGrows(rs, 0, |rs|);
    DrawdownAtMostOneIff(rs, |rs|);
    if MaxDrawdown(rs) >= Plunge(rs, |rs|) {
      var i, j := SomeDropIsEqual(rs, |rs|);
    } else {
      var i, j := PlungeIsReached(rs, |rs|);
    }
  }

  lemma MaximumIsUnique(rs: seq<real>, m: real, n: real)
    requires IsMaximum(rs, m) && IsMaximum(rs, n)
    ensures m == n
  {
    hide Wealth, Drop;
  }

  /** For any returns: the one-pass value is the maximum of all drops exactly when no plunge exceeds it. */
  lemma MaximumIff(rs: seq<real>)
    ensures IsMaximum(rs, MaxDrawdown(rs)) <==> Plunge(rs, |rs|) <= MaxDrawdown(rs)
  {
    hide IsMaximum, Plunge, Drawdown;
    MaximumOfAllDrops(rs);
    if IsMaximum(rs, MaxDrawdown(rs)) {
      MaximumIsUnique(rs, MaxDrawdown(rs), Max(MaxDrawdown(rs), Plunge(rs, |rs|)));
    }
  }

  lemma {:induction false} DrawdownIsReached(rs: seq<real>, k: nat) returns (j: nat)
    requires k <= |rs| && Drawdown(rs, k) > 0.0
    ensures j <= k && Drop(Peak(rs, j), Wealth(rs, j)) == Drawdown(rs, k)
  {
    if Drawdown(rs, k) == Drawdown(rs, k - 1) {
      j := DrawdownIsReached(rs, k - 1);
    } else {
      j := k;
    }
  }

  /**
    Once wealth has moved, up or down, without turning negative, the one-pass value of the whole series is the
    maximum of all drops exactly when wealth never turns negative at all.
   */
  lemma MovedMaximumIff(rs: seq<real>, i: nat)
    requires i <= |rs| && Wealth(rs, i) > 0.0 && Wealth(rs, i) != 1.0
    requires NonNegativeUpTo(rs, i)
    ensures IsMaximum(rs, MaxDrawdown(rs)) <==> NeverNegative(rs)
  {
    hide Lowest, Plunge, Peak, Drawdown, Drop, IsMaximum, NonNegativeUpTo;
    MaximumIff(rs);
    DrawdownAtMostOneIff(rs, |rs|);
    if NeverNegative(rs) {
      DrawdownIsMaximum(rs);
    } else {
      var j := DrawdownIsReached(rs, |rs|);
      DropSign(Peak(rs, j), Wealth(rs, j));
      NegativeIsLater(rs, i, j);
      PeakIsHighest(rs, i, j);
      LowestBounds(rs, i, j);
      LowerPeakDropsMore(Lowest(rs, j), Peak(rs, j), Wealth(rs, j));
      PlungeGrows(rs, j, |rs|);
    }
  }

  lemma NegativeIsLater(rs: seq<real>, i: nat, j: nat)
    requires i <= |rs| && j <= |rs| && NonNegativeUpTo(rs, i) && Wealth(rs, j) < 0.0
    ensures i < j
  {
  }

  lemma {:induction false} UnmovedExtremes(rs: seq<real>, k: nat)
    requires k <= |rs| && forall i :: 0 <= i <= |rs| && Wealth(rs, i) > 0.0 ==> Wealth(rs, i) == 1.0
    ensures Lowest(rs, k) == 1.0 && Peak(rs, k) == 1.0 && Plunge(rs, k) <= Drawdown(rs, k)
  {
    if k > 0 {
      UnmovedExtremes(rs, k - 1);
      OneDay(rs, k - 1);
      hide Drop, Wealth;
    }
  }

  /** The other case: when wealth is 1 on every day it is positive, the one-pass value is the maximum whatever follows. */
  lemma UnmovedIsMaximum(rs: seq<real>)
    requires forall i :: 0 <= i <= |rs| && Wealth(rs, i) > 0.0 ==> Wealth(rs, i) == 1.0
    ensures IsMaximum(rs, MaxDrawdown(rs))
  {
    hide Wealth, Lowest, Plunge, Peak, Drawdown, Drop, IsMaximum;
    UnmovedExtremes(rs, |rs|);
    MaximumIff(rs);
  }

  /** A gain of 100% followed by a loss of 250%: the one-pass value misses the drop from the first day. */
  lemma WipeoutBreaksMaximum()
    ensures !IsMaximum([1.0, -2.5], MaxDrawdown([1.0, -2.5]))
  {
    var rs := [1.0, -2.5];
    assert Wealth(rs, 1) == 2.0 && Wealth(rs, 2) == -3.0;
    hide Wealth, Drawdown, IsMaximum;
    MovedMaximumIff(rs, 1);
  }

  // ----- Concatenation -------------------------------------------------------

  lemma {:induction false} WealthPrefix(a: seq<real>, b: seq<real>, i: nat)
    requires i <= |a|
    ensures Wealth(a + b, i) == Wealth(a, i)
    ensures Peak(a + b, i) == Peak(a, i) && Drawdown(a + b, i) == Drawdown(a, i)
  {
    if i > 0 {
      WealthPrefix(a, b, i - 1);
      OneDay(a, i - 1);
      OneDay(a + b, i - 1);
      assert (a + b)[i - 1] == a[i - 1];
      hide Wealth, Peak, Drawdown, Drop, Grown;
    }
  }

  function Times(x: real, y: real): real {
    x * y
  }

  lemma GrownProduct(x: real, y: real, r: real)
    ensures Grown(Times(x, y), r) == Times(x, Grown(y, r))
  {
    assert (x * y) * (1.0 + r) == x * (y * (1.0 + r));
  }

  lemma TimesOne(x: real)
    ensures Times(x, 1.0) == x
  {
  }

  /** Wealth multiplies over consecutive stretches. */
  lemma {:induction false} WealthConcat(a: seq<real>, b: seq<real>, i: nat)
    requires i <= |b|
    ensures Wealth(a + b, |a| + i) == Times(Wealth(a, |a|), Wealth(b, i))
  {
    if i == 0 {
      assert Wealth(b, 0) == 1.0;
      hide Wealth, Grown, Times;
      WealthPrefix(a, b, |a|);
      TimesOne(Wealth(a, |a|));
    } else {
      hide Wealth, Grown, Times;
      WealthConcat(a, b, i - 1);
      assert (a + b)[|a| + i - 1] == b[i - 1];
      OneDay(a + b, |a| + i - 1);
      OneDay(b, i - 1);
      GrownProduct(Wealth(a, |a|), Wealth(b, i - 1), b[i - 1]);
    }
  }

  lemma {:induction false} WealthPositive(rs: seq<real>, i: nat)
    requires i <= |rs| && forall k :: 0 <= k < |rs| ==> rs[k] > -1.0
    ensures Wealth(rs, i) > 0.0
  {
    if i > 0 {
      WealthPositive(rs, i - 1);
      Product(Wealth(rs, i - 1), 1.0 + rs[i - 1]);
    }
  }

  /** The drawdown of a longer series is at least that of each of its parts. */
  lemma DrawdownOfParts(a: seq<real>, b: seq<real>)
    requires forall k :: 0 <= k < |a| ==> a[k] > -1.0
    requires forall k :: 0 <= k < |b| ==> b[k] > -1.0
    ensures MaxDrawdown(a + b) >= MaxDrawdown(a)
    ensures MaxDrawdown(a + b) >= MaxDrawdown(b)
  {
    hide Wealth, Peak, Drawdown, Drop;
    WealthPrefix(a, b, |a|);
    DrawdownGrows(a + b, |a|, |a + b|);
    var i, j := SomeDropIsEqual(b, |b|);
    var c := Wealth(a, |a|);
    WealthPositive(a, |a|);
    WealthConcat(a, b, i);
    WealthConcat(a, b, j);
    Product(c, Wealth(b, i));
    WealthPositive(b, i);
    WealthPositive(b, j);
    Product(c, Wealth(b, j));
    DropScales(Wealth(b, i), Wealth(b, j), c, Wealth(a + b, |a| + i), Wealth(a + b, |a| + j));
    NoDropIsGreater(a + b, |a| + i, |a| + j);
  }
}
