/**
  The exact McNemar test and the positive control built on it
  (evals/causal_ablation/pilot_runner.py, evals/causal_ablation/escape.py).
  `math.comb` is given by Pascal's rule; probabilities are exact.
 */
module McNemar {

  function Pow2(n: nat): nat {
    if n == 0 then 1 else 2 * Pow2(n - 1)
  }

  function Binom(n: nat, k: nat): nat {
    if k == 0 then 1 else if n == 0 then 0 else Binom(n - 1, k - 1) + Binom(n - 1, k)
  }

  /** The sum of the binomial coefficients 0 to `k` of row `n`. */
  function Tail(n: nat, k: int): nat
    decreases k
  {
    if k < 0 then 0 else Tail(n, k - 1) + Binom(n, k)
  }

  function Min(b: nat, c: nat): nat {
    if b <= c then b else c
  }

  function Ratio(x: nat, n: nat): real {
    Pow2Positive(n);
    x as real / Pow2(n) as real
  }

  lemma {:induction false} Pow2Positive(n: nat)
    ensures Pow2(n) > 0
  {
    if n > 0 {
      Pow2Positive(n - 1);
    }
  }

  /** The two-sided exact p-value of `b` against `c` discordant pairs. */
  function McnemarExactP(b: nat, c: nat): real {
    var n := b + c;
    if n == 0 then 1.0
    else
      var doubled := 2.0 * Ratio(Tail(n, Min(b, c)), n);
      if doubled < 1.0 then doubled else 1.0
  }

  // ----- The rows of Pascal's triangle ---------------------------------------

  lemma {:induction false} TailPascal(n: nat, k: int)
    requires n > 0
    ensures Tail(n, k) == Tail(n - 1, k) + Tail(n - 1, k - 1)
    decreases k
  {
    if k >= 0 {
      TailPascal(n, k - 1);
    }
  }

  lemma {:induction false} TailOfRowZero(k: int)
    ensures Tail(0, k) == if k < 0 then 0 else 1
    decreases k
  {
    if k >= 0 {
      TailOfRowZero(k - 1);
    }
  }

  /** A tail and the opposite tail make up the whole row. */
  lemma {:induction false} TailComplement(n: nat, k: int)
    ensures Tail(n, k) + Tail(n, n - k - 1) == Pow2(n)
    decreases n
  {
    if n == 0 {
      TailOfRowZero(k);
      TailOfRowZero(-k - 1);
    } else {
      TailPascal(n, k);
      TailPascal(n, n - k - 1);
      TailComplement(n - 1, k);
      TailComplement(n - 1, k - 1);
    }
  }

  lemma {:induction false} BinomPositive(n: nat, k: nat)
    requires k <= n
    ensures Binom(n, k) > 0
  {
    if 0 < k {
      BinomPositive(n - 1, k - 1);
    }
  }

  lemma {:induction false} TailGrows(n: nat, j: int, k: int)
    requires -1 <= j <= k <= n
    ensures Tail(n, j) <= Tail(n, k)
    ensures j < k ==> Tail(n, j) < Tail(n, k)
    decreases k
  {
    if j < k {
      TailGrows(n, j, k - 1);
      BinomPositive(n, k);
    }
  }

  /** Twice the smaller tail against the whole row decides everything about the clamp. */
  lemma DoubledTail(b: nat, c: nat)
    requires b + c > 0
    ensures var n := b + c; var k := Min(b, c);
            && (2 * Tail(n, k) > Pow2(n) <==> b == c)
            && (2 * Tail(n, k) == Pow2(n) <==> b == c + 1 || c == b + 1)
  {
    var n, k := b + c, Min(b, c);
    TailComplement(n, k);
    if b == c {
      TailGrows(n, k - 1, k);
    } else {
      TailGrows(n, k, n - k - 1);
    }
  }

  // ----- Ratios --------------------------------------------------------------

  lemma RatioOrder(x: nat, y: nat, n: nat)
    ensures Ratio(x, n) < Ratio(y, n) <==> x < y
    ensures Ratio(x, n) == Ratio(y, n) <==> x == y
  {
    Pow2Positive(n);
    DivOrder(x as real, y as real, Pow2(n) as real);
    DivOrder(y as real, x as real, Pow2(n) as real);
  }

  lemma DivOrder(x: real, y: real, d: real)
    requires d > 0.0
    ensures x / d < y / d <==> x < y
  {
    var u, v := x / d, y / d;
    assert u * d == x && v * d == y;
    Scaled(u, v, d);
    Scaled(v, u, d);
  }

  lemma Scaled(u: real, v: real, d: real)
    requires d > 0.0
    ensures u < v ==> u * d < v * d
    ensures u == v ==> u * d == v * d
  {
    if u < v {
      assert (v - u) * d > 0.0;
    }
  }

  lemma WholeRow(n: nat)
    ensures Ratio(Pow2(n), n) == 1.0
  {
    Pow2Positive(n);
    SelfQuotient(Pow2(n) as real);
  }

  lemma SelfQuotient(d: real)
    requires d > 0.0
    ensures d / d == 1.0
  {
  }

  lemma DoubledRatio(x: nat, n: nat)
    ensures 2.0 * Ratio(x, n) == Ratio(2 * x, n)
  {
    Pow2Positive(n);
    var d := Pow2(n) as real;
    HalvedFraction(x as real, d);
    assert (2 * x) as real == 2.0 * x as real;
  }

  lemma NextRowRatio(x: nat, n: nat)
    ensures Ratio(2 * x, n + 1) == Ratio(x, n)
  {
    Pow2Positive(n);
    Pow2Positive(n + 1);
    var d := Pow2(n) as real;
    HalvedFraction(x as real, d);
    assert (2 * x) as real == 2.0 * x as real;
    assert Pow2(n + 1) as real == 2.0 * d;
  }

  lemma HalvedFraction(x: real, d: real)
    requires d > 0.0
    ensures 2.0 * (x / d) == (2.0 * x) / d
    ensures (2.0 * x) / (2.0 * d) == x / d
  {
    var u := x / d;
    assert u * d == x;
    assert (2.0 * u) * d == 2.0 * x;
    assert u * (2.0 * d) == 2.0 * x;
  }

  /** The p-value as a clamped count out of the 2^n equally likely outcomes. */
  lemma PAsCount(b: nat, c: nat)
    requires b + c > 0
    ensures var n := b + c; var x := 2 * Tail(n, Min(b, c));
            McnemarExactP(b, c) == if x < Pow2(n) then Ratio(x, n) else 1.0
  {
    var n := b + c;
    var x := 2 * Tail(n, Min(b, c));
    DoubledRatio(Tail(n, Min(b, c)), n);
    WholeRow(n);
    RatioOrder(x, Pow2(n), n);
  }

  // ----- What the p-value is -------------------------------------------------

  lemma PInRange(b: nat, c: nat)
    ensures 0.0 < McnemarExactP(b, c) <= 1.0
    ensures McnemarExactP(b, c) == McnemarExactP(c, b)
  {
    if b + c > 0 {
      PAsCount(b, c);
      var n, k := b + c, Min(b, c);
      TailGrows(n, -1, k);
      RatioOrder(0, 2 * Tail(n, k), n);
      assert c + b == n && Min(c, b) == k;
    }
  }

  /** The p-value is 1 exactly when the two counts differ by at most one. */
  lemma POneIff(b: nat, c: nat)
    ensures McnemarExactP(b, c) == 1.0 <==> -1 <= b - c <= 1
  {
    if b + c > 0 {
      var n := b + c;
      var x := 2 * Tail(n, Min(b, c));
      PAsCount(b, c);
      DoubledTail(b, c);
      WholeRow(n);
      RatioOrder(x, Pow2(n), n);
    }
  }

  /** The clamp at 1 changes the value exactly when the counts are equal. */
  lemma ClampMattersIff(b: nat, c: nat)
    requires b + c > 0
    ensures McnemarExactP(b, c) != 2.0 * Ratio(Tail(b + c, Min(b, c)), b + c) <==> b == c
  {
    var n := b + c;
    var x := 2 * Tail(n, Min(b, c));
    PAsCount(b, c);
    DoubledTail(b, c);
    DoubledRatio(Tail(n, Min(b, c)), n);
    WholeRow(n);
    WholeRow(n);
    RatioOrder(x, Pow2(n), n);
  }

  /** With the number of discordant pairs fixed, a greater imbalance has a strictly smaller p-value. */
  lemma ImbalanceLowersP(b: nat, c: nat, b': nat, c': nat)
    requires b + c == b' + c' && Min(b', c') < Min(b, c)
    ensures McnemarExactP(b', c') < McnemarExactP(b, c)
  {
    var n := b + c;
    var x, x' := 2 * Tail(n, Min(b, c)), 2 * Tail(n, Min(b', c'));
    PAsCount(b, c);
    PAsCount(b', c');
    TailGrows(n, Min(b', c'), Min(b, c));
    DoubledTail(b', c');
    WholeRow(n);
    RatioOrder(x', x, n);
    RatioOrder(x', Pow2(n), n);
  }

  /** One more pair on the greater side has a strictly smaller p-value. */
  lemma ExtraPairLowersP(b: nat, c: nat)
    requires b > c
    ensures McnemarExactP(b + 1, c) < McnemarExactP(b, c)
  {
    var n := b + c;
    var t, t' := Tail(n, c), Tail(n + 1, c);
    PAsCount(b, c);
    PAsCount(b + 1, c);
    TailPascal(n + 1, c);
    TailGrows(n, c - 1, c);
    assert t' < 2 * t;
    DoubledTail(b + 1, c);
    NextRowRatio(2 * t, n);
    WholeRow(n);
    RatioOrder(2 * t', 4 * t, n + 1);
    RatioOrder(2 * t', Pow2(n + 1), n + 1);
    WholeRow(n + 1);
  }

  // ----- The textbook definition ---------------------------------------------

  function Distance(i: int, n: nat): nat {
    if 2 * i >= n then 2 * i - n else n - 2 * i
  }

  /** Outcomes with at most `j` successes that lie at least `d` away from an even split. */
  function Extreme(n: nat, d: nat, j: int): nat
    decreases j
  {
    if j < 0 then 0 else Extreme(n, d, j - 1) + (if Distance(j, n) >= d then Binom(n, j) else 0)
  }

  lemma {:induction false} ExtremeIsTwoTails(n: nat, k: nat, j: int)
    requires 2 * k < n && -1 <= j <= n
    ensures Extreme(n, n - 2 * k, j)
            == (if j <= k then Tail(n, j) else Tail(n, k))
               + (if j >= n - k then Tail(n, j) - Tail(n, n - k - 1) else 0)
    decreases j
  {
    if j >= 0 {
      ExtremeIsTwoTails(n, k, j - 1);
    }
  }

  lemma {:induction false} EverythingIsExtreme(n: nat, j: int)
    ensures Extreme(n, 0, j) == Tail(n, j)
    decreases j
  {
    if j >= 0 {
      EverythingIsExtreme(n, j - 1);
    }
  }

  /**
    The clamped doubled tail is the two-sided test by its definition: the share of all
    outcomes of n fair coin flips that are at least as lopsided as the observed one.
   */
  lemma PIsTwoSidedTest(b: nat, c: nat)
    ensures McnemarExactP(b, c) == Ratio(Extreme(b + c, Distance(b, b + c), b + c), b + c)
  {
    var n, k := b + c, Min(b, c);
    TailComplement(n, n);
    WholeRow(n);
    if b == c {
      EverythingIsExtreme(n, n);
      POneIff(b, c);
    } else {
      assert Distance(b, n) == n - 2 * k;
      ExtremeIsTwoTails(n, k, n);
      TailComplement(n, k);
      assert Tail(n, -1) == 0;
      assert Extreme(n, n - 2 * k, n) == 2 * Tail(n, k);
      PAsCount(b, c);
      DoubledTail(b, c);
    }
  }

  // ----- The positive control ------------------------------------------------

  datatype Unit = Unit(status: string, onState: string, offState: string)

  function OkUnits(units: seq<Unit>): seq<Unit> {
    if units == [] then []
    else (if units[0].status == "ok" then [units[0]] else []) + OkUnits(units[1..])
  }

  predicate OnlyOffEscapes(u: Unit) {
    u.onState == "caught" && u.offState == "escaped"
  }

  predicate OnlyOnEscapes(u: Unit) {
    u.onState == "escaped" && u.offState == "caught"
  }

  function CountIf(units: seq<Unit>, p: Unit -> bool): nat {
    if units == [] then 0 else (if p(units[0]) then 1 else 0) + CountIf(units[1..], p)
  }

  function TableB(units: seq<Unit>): nat {
    CountIf(OkUnits(units), OnlyOffEscapes)
  }

  function TableC(units: seq<Unit>): nat {
    CountIf(OkUnits(units), OnlyOnEscapes)
  }

  predicate SensitivityConfirmed(units: seq<Unit>) {
    var b, c := TableB(units), TableC(units);
    OkUnits(units) != [] && b > c && McnemarExactP(b, c) < 0.05
  }

  lemma SmallP(b: nat, c: nat)
    requires b + c > 0
    ensures McnemarExactP(b, c) < 0.05 <==> 40 * Tail(b + c, Min(b, c)) < Pow2(b + c)
  {
    var n := b + c;
    var x := 2 * Tail(n, Min(b, c));
    PAsCount(b, c);
    Pow2Positive(n);
    RatioBelow(x, Pow2(n));
  }

  lemma RatioBelow(x: nat, d: nat)
    requires d > 0
    ensures x as real / d as real < 0.05 <==> 20 * x < d
  {
    var u := x as real / d as real;
    assert u * d as real == x as real;
    Scaled(u, 0.05, d as real);
    Scaled(0.05, u, d as real);
  }

  /** Fewer than six discordant pairs never confirm sensitivity, whatever their split. */
  lemma SixPairsNeeded(units: seq<Unit>)
    requires SensitivityConfirmed(units)
    ensures TableB(units) + TableC(units) >= 6
  {
    var b, c := TableB(units), TableC(units);
    SmallP(b, c);
    TailGrows(b + c, 0, Min(b, c));
    assert Tail(b + c, 0) == 1;
    if b + c < 6 {
      PowersUpTo32(b + c);
    }
  }

  lemma PowersUpTo32(n: nat)
    requires n < 6
    ensures Pow2(n) <= 32
  {
    assert Pow2(5) == 32;
    Pow2Grows(n, 5);
  }

  lemma {:induction false} Pow2Grows(m: nat, n: nat)
    requires m <= n
    ensures Pow2(m) <= Pow2(n)
  {
    if m < n {
      Pow2Grows(m, n - 1);
    }
  }

  /** With no pair the other way, exactly six pairs are enough. */
  lemma UnopposedConfirmedIff(units: seq<Unit>)
    requires TableC(units) == 0
    ensures SensitivityConfirmed(units) <==> TableB(units) >= 6
  {
    var b := TableB(units);
    if b > 0 {
      SmallP(b, 0);
      assert Tail(b, 0) == 1;
      if b >= 6 {
        assert Pow2(6) == 64;
        Pow2Grows(6, b);
      } else {
        PowersUpTo32(b);
      }
    }
    CountNonempty(OkUnits(units), OnlyOffEscapes);
  }

  lemma {:induction false} CountNonempty(units: seq<Unit>, p: Unit -> bool)
    ensures CountIf(units, p) > 0 ==> units != []
  {
  }

  lemma {:induction false} OkConcat(units: seq<Unit>, u: Unit)
    ensures OkUnits(units + [u]) == OkUnits(units) + OkUnits([u])
  {
    if units != [] {
      assert (units + [u])[1..] == units[1..] + [u];
      OkConcat(units[1..], u);
    } else {
      assert units + [u] == [u];
    }
  }

  lemma {:induction false} CountConcat(s: seq<Unit>, t: seq<Unit>, p: Unit -> bool)
    ensures CountIf(s + t, p) == CountIf(s, p) + CountIf(t, p)
    decreases |s|
  {
    if s == [] {
      assert s + t == t;
    } else {
      assert (s + t)[1..] == s[1..] + t;
      CountConcat(s[1..], t, p);
    }
  }

  lemma TableOfMore(units: seq<Unit>, u: Unit)
    ensures TableB(units + [u]) == TableB(units) + if u.status == "ok" && OnlyOffEscapes(u) then 1 else 0
    ensures TableC(units + [u]) == TableC(units) + if u.status == "ok" && OnlyOnEscapes(u) then 1 else 0
  {
    hide OnlyOffEscapes, OnlyOnEscapes;
    OkConcat(units, u);
    CountConcat(OkUnits(units), OkUnits([u]), OnlyOffEscapes);
    CountConcat(OkUnits(units), OkUnits([u]), OnlyOnEscapes);
    assert OkUnits([u]) == if u.status == "ok" then [u] else [];
  }

  /** The finished units with these states with the check on and with it off. */
  ghost function Discordant(units: seq<Unit>, on: string, off: string): set<nat> {
    set i: nat | i < |units| && units[i].status == "ok" && units[i].onState == on && units[i].offState == off
  }

  lemma DiscordantOfMore(units: seq<Unit>, u: Unit, on: string, off: string)
    ensures |Discordant(units + [u], on, off)| ==
            |Discordant(units, on, off)| + if u.status == "ok" && u.onState == on && u.offState == off then 1 else 0
  {
    var before, after := Discordant(units, on, off), Discordant(units + [u], on, off);
    assert |units| !in before;
    assert after == if u.status == "ok" && u.onState == on && u.offState == off then before + {|units|} else before;
  }

  /** The table counts the discordant pairs: `b` those that escape only with the check off, `c` the reverse. */
  lemma {:induction false} TableIsCount(units: seq<Unit>)
    ensures TableB(units) == |Discordant(units, "caught", "escaped")|
    ensures TableC(units) == |Discordant(units, "escaped", "caught")|
  {
    if units == [] {
      assert Discordant(units, "caught", "escaped") == {} && Discordant(units, "escaped", "caught") == {};
    } else {
      hide TableB, TableC, Discordant;
      var front, u := units[..|units| - 1], units[|units| - 1];
      assert units == front + [u];
      TableIsCount(front);
      TableOfMore(front, u);
      DiscordantOfMore(front, u, "caught", "escaped");
      DiscordantOfMore(front, u, "escaped", "caught");
    }
  }

  /** A confirmed control stays confirmed when a unit is added that is not an escape with the check on. */
  lemma MoreEvidenceKeepsConfirmed(units: seq<Unit>, u: Unit)
    requires SensitivityConfirmed(units)
    requires u.status == "ok" ==> !OnlyOnEscapes(u)
    ensures SensitivityConfirmed(units + [u])
  {
    var b, c := TableB(units), TableC(units);
    OkConcat(units, u);
    TableOfMore(units, u);
    if u.status == "ok" && OnlyOffEscapes(u) {
      ExtraPairLowersP(b, c);
    }
  }
}
