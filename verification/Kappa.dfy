/**
  Cohen's kappa as the evaluation statistics compute it (evals/stats.py): a confusion
  matrix filled in one pass, then observed against expected agreement. Numbers are reals.
 */
module Kappa {
  import opened Wrappers

  datatype Error = LengthMismatch

  // ----- Counting definition -------------------------------------------------

  /** Positions where the raters gave `x` and `y`. */
  function Pairs(a: seq<string>, b: seq<string>, x: string, y: string): nat
    requires |a| == |b|
  {
    if a == [] then 0
    else Pairs(a[..|a| - 1], b[..|a| - 1], x, y)
         + (if a[|a| - 1] == x && b[|a| - 1] == y then 1 else 0)
  }

  function Count(a: seq<string>, x: string): nat {
    if a == [] then 0 else Count(a[..|a| - 1], x) + (if a[|a| - 1] == x then 1 else 0)
  }

  /** Positions where the raters agree. */
  function Agreements(a: seq<string>, b: seq<string>): nat
    requires |a| == |b|
  {
    if a == [] then 0
    else Agreements(a[..|a| - 1], b[..|a| - 1]) + (if a[|a| - 1] == b[|a| - 1] then 1 else 0)
  }

  /** Pairs (i, j) of positions with `a[i] == b[j]`: what chance agreement counts. */
  function Matches(a: seq<string>, b: seq<string>): nat {
    if a == [] then 0 else Matches(a[..|a| - 1], b) + Count(b, a[|a| - 1])
  }

  /** Kappa of `n` items with `t` agreements and `s` matching pairs. */
  function Score(n: nat, t: nat, s: nat): real {
    if n == 0 then 0.0
    else
      SquarePositive(n);
      var po := t as real / n as real;
      var pe := s as real / (n * n) as real;
      if pe == 1.0 then 1.0 else (po - pe) / (1.0 - pe)
  }

  function KappaOf(a: seq<string>, b: seq<string>): real
    requires |a| == |b|
  {
    Score(|a|, Agreements(a, b), Matches(a, b))
  }

  lemma SquarePositive(n: nat)
    requires n > 0
    ensures n * n > 0
  {
  }

  // ----- Sums over a listing of the categories -------------------------------

  function RowCol(a: seq<string>, b: seq<string>, cats: seq<string>): nat {
    if cats == [] then 0
    else
      var c := cats[|cats| - 1];
      RowCol(a, b, cats[..|cats| - 1]) + Count(a, c) * Count(b, c)
  }

  function Trace(a: seq<string>, b: seq<string>, cats: seq<string>): nat
    requires |a| == |b|
  {
    if cats == [] then 0
    else
      var c := cats[|cats| - 1];
      Trace(a, b, cats[..|cats| - 1]) + Pairs(a, b, c, c)
  }

  /** The categories are listed without repetition and cover `a`. */
  ghost predicate Lists(cats: seq<string>, a: seq<string>) {
    && (forall i, j :: 0 <= i < j < |cats| ==> cats[i] != cats[j])
    && forall k :: 0 <= k < |a| ==> a[k] in cats
  }

  function Ones(cats: seq<string>, x: string): nat {
    if cats == [] then 0 else Ones(cats[..|cats| - 1], x) + (if cats[|cats| - 1] == x then 1 else 0)
  }

  lemma {:induction false} ListedOnce(cats: seq<string>, x: string)
    requires forall i, j :: 0 <= i < j < |cats| ==> cats[i] != cats[j]
    ensures Ones(cats, x) == if x in cats then 1 else 0
  {
    if cats != [] {
      var front := cats[..|cats| - 1];
      ListedOnce(front, x);
      assert cats == front + [cats[|cats| - 1]];
    }
  }

  lemma Distribute(x: int, y: int, z: int)
    ensures (x + y) * z == x * z + y * z
  {
  }

  /** Adding one item to `a` adds its column to the sum of products. */
  lemma {:induction false} RowColStep(a: seq<string>, b: seq<string>, x: string, cats: seq<string>)
    ensures RowCol(a + [x], b, cats) == RowCol(a, b, cats) + Ones(cats, x) * Count(b, x)
  {
    assert (a + [x])[..|a|] == a;
    if cats != [] {
      var front, c := cats[..|cats| - 1], cats[|cats| - 1];
      RowColStep(a, b, x, front);
      assert Count(a + [x], c) == Count(a, c) + (if x == c then 1 else 0);
      if x == c {
        Distribute(Count(a, c), 1, Count(b, c));
        Distribute(Ones(front, x), 1, Count(b, x));
      }
    }
  }

  /** The marginal products of the matrix add up to the matching pairs, in any category order. */
  lemma {:induction false} RowColIsMatches(a: seq<string>, b: seq<string>, cats: seq<string>)
    requires Lists(cats, a)
    ensures RowCol(a, b, cats) == Matches(a, b)
    decreases |a|
  {
    if a == [] {
      NoItems(b, cats);
    } else {
      var front, x := a[..|a| - 1], a[|a| - 1];
      assert a == front + [x];
      RowColIsMatches(front, b, cats);
      RowColStep(front, b, x, cats);
      ListedOnce(cats, x);
    }
  }

  lemma {:induction false} NoItems(b: seq<string>, cats: seq<string>)
    ensures RowCol([], b, cats) == 0
  {
    if cats != [] {
      NoItems(b, cats[..|cats| - 1]);
    }
  }

  lemma {:induction false} TraceStep(a: seq<string>, b: seq<string>, x: string, y: string, cats: seq<string>)
    requires |a| == |b|
    ensures Trace(a + [x], b + [y], cats) == Trace(a, b, cats) + (if x == y then Ones(cats, x) else 0)
  {
    assert (a + [x])[..|a|] == a && (b + [y])[..|a|] == b;
    if cats != [] {
      TraceStep(a, b, x, y, cats[..|cats| - 1]);
    }
  }

  lemma {:induction false} TraceIsAgreements(a: seq<string>, b: seq<string>, cats: seq<string>)
    requires |a| == |b| && Lists(cats, a)
    ensures Trace(a, b, cats) == Agreements(a, b)
    decreases |a|
  {
    if a == [] {
      NoTrace(cats);
    } else {
      var m := |a| - 1;
      assert a == a[..m] + [a[m]] && b == b[..m] + [b[m]];
      TraceIsAgreements(a[..m], b[..m], cats);
      TraceStep(a[..m], b[..m], a[m], b[m], cats);
      ListedOnce(cats, a[m]);
    }
  }

  lemma {:induction false} NoTrace(cats: seq<string>)
    ensures Trace([], [], cats) == 0
  {
    if cats != [] {
      NoTrace(cats[..|cats| - 1]);
    }
  }

  // ----- Bounds --------------------------------------------------------------

  lemma {:induction false} CountBound(b: seq<string>, x: string)
    ensures Count(b, x) <= |b|
    ensures Count(b, x) == |b| <==> forall k :: 0 <= k < |b| ==> b[k] == x
  {
    if b != [] {
      var m := |b| - 1;
      CountBound(b[..m], x);
      assert forall k :: 0 <= k < m ==> b[..m][k] == b[k];
      assert (forall k :: 0 <= k < |b| ==> b[k] == x)
        <==> b[m] == x && forall k :: 0 <= k < m ==> b[..m][k] == x;
    }
  }

  /** Every label of `a` is every label of `b`. */
  ghost predicate AllMatch(a: seq<string>, b: seq<string>) {
    forall j, k :: 0 <= j < |a| && 0 <= k < |b| ==> a[j] == b[k]
  }

  lemma AllMatchOneMore(a: seq<string>, b: seq<string>)
    requires a != []
    ensures AllMatch(a, b) <==>
              AllMatch(a[..|a| - 1], b) && forall k :: 0 <= k < |b| ==> b[k] == a[|a| - 1]
  {
    var m := |a| - 1;
    assert forall j :: 0 <= j < m ==> a[..m][j] == a[j];
  }

  lemma RowMore(m: nat, n: nat)
    ensures (m + 1) * n == m * n + n
  {
  }

  lemma {:induction false} MatchesBound(a: seq<string>, b: seq<string>)
    ensures Matches(a, b) <= |a| * |b|
    ensures Matches(a, b) == |a| * |b| <==> AllMatch(a, b)
    decreases |a|
  {
    if a != [] {
      hide Count, AllMatch;
      var m := |a| - 1;
      MatchesBound(a[..m], b);
      CountBound(b, a[m]);
      RowMore(m, |b|);
      AllMatchOneMore(a, b);
    }
  }

  lemma {:induction false} AgreementsBound(a: seq<string>, b: seq<string>)
    requires |a| == |b|
    ensures Agreements(a, b) <= |a|
    ensures Agreements(a, b) == |a| <==> a == b
    decreases |a|
  {
    if a != [] {
      var m := |a| - 1;
      AgreementsBound(a[..m], b[..m]);
      assert a == a[..m] + [a[m]] && b == b[..m] + [b[m]];
      assert a == b <==> a[..m] == b[..m] && a[m] == b[m];
    }
  }

  /** An item carries `x` from at most one rater unless both gave it. */
  lemma {:induction false} MarginsBound(a: seq<string>, b: seq<string>, x: string)
    requires |a| == |b|
    ensures Count(a, x) + Count(b, x) <= |a| + Agreements(a, b)
    decreases |a|
  {
    if a != [] {
      MarginsBound(a[..|a| - 1], b[..|a| - 1], x);
    }
  }

  lemma FourProducts(r: nat, k: nat, bound: nat)
    requires r + k <= bound
    ensures 4 * (r * k) <= (r + k) * bound
  {
    var d := r - k;
    assert (r + k) * (r + k) == 4 * (r * k) + d * d;
    assert d * d >= 0;
    assert (r + k) * (r + k) <= (r + k) * bound;
  }

  /** The sum of the row and column totals over the listed categories. */
  function Margins(a: seq<string>, b: seq<string>, cats: seq<string>): nat {
    if cats == [] then 0
    else
      var c := cats[|cats| - 1];
      Margins(a, b, cats[..|cats| - 1]) + Count(a, c) + Count(b, c)
  }

  lemma {:induction false} FourRowCol(a: seq<string>, b: seq<string>, cats: seq<string>)
    requires |a| == |b|
    ensures 4 * RowCol(a, b, cats) <= Margins(a, b, cats) * (|a| + Agreements(a, b))
  {
    if cats != [] {
      var front, c := cats[..|cats| - 1], cats[|cats| - 1];
      var bound := |a| + Agreements(a, b);
      FourRowCol(a, b, front);
      MarginsBound(a, b, c);
      FourProducts(Count(a, c), Count(b, c), bound);
      Distribute(Margins(a, b, front), Count(a, c) + Count(b, c), bound);
      assert Margins(a, b, cats) == Margins(a, b, front) + (Count(a, c) + Count(b, c));
    }
  }

  function Total(a: seq<string>, cats: seq<string>): nat {
    if cats == [] then 0 else Total(a, cats[..|cats| - 1]) + Count(a, cats[|cats| - 1])
  }

  lemma {:induction false} TotalStep(a: seq<string>, x: string, cats: seq<string>)
    ensures Total(a + [x], cats) == Total(a, cats) + Ones(cats, x)
  {
    assert (a + [x])[..|a|] == a;
    if cats != [] {
      TotalStep(a, x, cats[..|cats| - 1]);
    }
  }

  lemma {:induction false} TotalIsLength(a: seq<string>, cats: seq<string>)
    requires Lists(cats, a)
    ensures Total(a, cats) == |a|
    decreases |a|
  {
    if a == [] {
      EmptyTotal(cats);
    } else {
      var m := |a| - 1;
      assert a == a[..m] + [a[m]];
      TotalIsLength(a[..m], cats);
      TotalStep(a[..m], a[m], cats);
      ListedOnce(cats, a[m]);
    }
  }

  lemma {:induction false} EmptyTotal(cats: seq<string>)
    ensures Total([], cats) == 0
  {
    if cats != [] {
      EmptyTotal(cats[..|cats| - 1]);
    }
  }

  lemma {:induction false} MarginsAreTotals(a: seq<string>, b: seq<string>, cats: seq<string>)
    ensures Margins(a, b, cats) == Total(a, cats) + Total(b, cats)
  {
    if cats != [] {
      MarginsAreTotals(a, b, cats[..|cats| - 1]);
    }
  }

  /** Some listing of the categories both raters used. */
  lemma {:induction false} Listing(s: seq<string>) returns (cats: seq<string>)
    ensures Lists(cats, s)
    decreases |s|
  {
    if s == [] {
      cats := [];
    } else {
      cats := Listing(s[..|s| - 1]);
      if s[|s| - 1] !in cats {
        cats := cats + [s[|s| - 1]];
      }
      forall k | 0 <= k < |s| ensures s[k] in cats {
        assert k < |s| - 1 ==> s[..|s| - 1][k] == s[k];
      }
    }
  }

  lemma HalfOf(n: nat, t: nat, s: nat, margins: nat)
    requires 4 * s <= margins * (n + t) && margins == n + n
    ensures 2 * s <= n * n + n * t
  {
    Distribute(n, n, n + t);
    assert n * (n + t) == n * n + n * t;
  }

  lemma BoundedOver(a: seq<string>, b: seq<string>, cats: seq<string>)
    requires |a| == |b| && Lists(cats, a) && Lists(cats, b)
    ensures 2 * Matches(a, b) <= |a| * |a| + |a| * Agreements(a, b)
  {
    hide Matches, Agreements, RowCol, Margins, Lists, Total;
    FourRowCol(a, b, cats);
    RowColIsMatches(a, b, cats);
    MarginsAreTotals(a, b, cats);
    TotalIsLength(a, cats);
    TotalIsLength(b, cats);
    HalfOf(|a|, Agreements(a, b), Matches(a, b), Margins(a, b, cats));
  }

  /** n^2 + n * agreements is never below twice the number of matching pairs. */
  lemma ChanceIsBounded(a: seq<string>, b: seq<string>)
    requires |a| == |b|
    ensures 2 * Matches(a, b) <= |a| * |a| + |a| * Agreements(a, b)
  {
    hide Matches, Agreements;
    var cats := Listing(a + b);
    forall k | 0 <= k < |a| ensures a[k] in cats && b[k] in cats {
      assert (a + b)[k] == a[k] && (a + b)[|a| + k] == b[k];
    }
    BoundedOver(a, b, cats);
  }

  // ----- Kappa itself --------------------------------------------------------

  lemma Product(k: real, x: real, y: real)
    requires y != 0.0 && k == x / y
    ensures k * y == x
  {
  }

  lemma Regroup(x: real, y: real, z: real)
    ensures x * (y * z) == (x * y) * z
  {
  }

  lemma Minus(x: real, y: real, z: real)
    ensures (x - y) * z == x * z - y * z
  {
  }

  lemma Scaled(n: real, q: real, t: real, s: real, po: real, pe: real)
    requires q == n * n && 0.0 < q && s < q && po * n == t && pe * q == s
    ensures (po - pe) * q == n * t - s && (1.0 - pe) * q == q - s
    ensures pe < 1.0
  {
    Regroup(po, n, n);
    Minus(po, pe, q);
    Minus(1.0, pe, q);
    PositiveFactor(1.0 - pe, q);
  }

  lemma Quotient(po: real, pe: real, q: real)
    requires pe < 1.0
    ensures ((po - pe) / (1.0 - pe)) * ((1.0 - pe) * q) == (po - pe) * q
  {
    var x, y := po - pe, 1.0 - pe;
    assert y != 0.0;
    Product(x / y, x, y);
    Regroup(x / y, y, q);
  }

  lemma ClearFractions(n: real, t: real, s: real, q: real)
    requires n > 0.0 && q == n * n && 0.0 < q && s < q
    ensures s / q < 1.0
    ensures ((t / n - s / q) / (1.0 - s / q)) * (q - s) == n * t - s
  {
    var po, pe := t / n, s / q;
    Product(po, t, n);
    Product(pe, s, q);
    Scaled(n, q, t, s, po, pe);
    Quotient(po, pe, q);
  }

  lemma PositiveFactor(x: real, q: real)
    requires q > 0.0 && x * q > 0.0
    ensures x > 0.0
  {
  }

  lemma RealProduct(x: nat, y: nat)
    ensures (x * y) as real == x as real * y as real
  {
  }

  /** The score with the fractions cleared. */
  lemma ScoreProduct(n: nat, t: nat, s: nat)
    requires n > 0 && s < n * n
    ensures Score(n, t, s) * (n * n - s) as real == (n * t - s) as real
  {
    SquarePositive(n);
    RealProduct(n, n);
    RealProduct(n, t);
    ClearFractions(n as real, t as real, s as real, (n * n) as real);
  }

  lemma ScoreOne(n: nat, t: nat)
    requires n > 0
    ensures Score(n, t, n * n) == 1.0
  {
    SquarePositive(n);
  }

  lemma Sign(y: real, d: real)
    requires d > 0.0
    ensures y > 0.0 ==> y * d > 0.0
    ensures y < 0.0 ==> y * d < 0.0
  {
  }

  lemma AboveIff(k: real, c: real, d: real, x: real)
    requires d > 0.0 && k * d == x
    ensures k < c <==> x < c * d
    ensures k == c <==> x == c * d
  {
    Minus(k, c, d);
    Sign(k - c, d);
  }

  lemma Between(k: real, d: real, x: real)
    requires d > 0.0 && -d <= x <= d && k * d == x
    ensures -1.0 <= k <= 1.0
    ensures k == 1.0 <==> x == d
  {
    AboveIff(k, 1.0, d, x);
    AboveIff(k, -1.0, d, x);
  }

  lemma Smaller(n: nat, t: nat)
    requires t <= n
    ensures n * t <= n * n
    ensures n > 0 && t < n ==> n * t < n * n
  {
  }

  lemma ScoreBounds(n: nat, t: nat, s: nat)
    requires n > 0 && t <= n && s <= n * n && 2 * s <= n * n + n * t
    ensures -1.0 <= Score(n, t, s) <= 1.0
    ensures Score(n, t, s) == 1.0 <==> s == n * n || n * t == n * n
  {
    Smaller(n, t);
    if s == n * n {
      ScoreOne(n, t);
    } else {
      ScoreProduct(n, t, s);
      Between(Score(n, t, s), (n * n - s) as real, (n * t - s) as real);
    }
  }

  /** Kappa lies between -1 and 1, for any two label sequences of equal length. */
  lemma KappaInRange(a: seq<string>, b: seq<string>)
    requires |a| == |b|
    ensures -1.0 <= KappaOf(a, b) <= 1.0
  {
    if a != [] {
      MatchesBound(a, b);
      AgreementsBound(a, b);
      ChanceIsBounded(a, b);
      ScoreBounds(|a|, Agreements(a, b), Matches(a, b));
    }
  }

  lemma RatioOneIff(s: nat, q: nat)
    requires q > 0
    ensures s as real / q as real == 1.0 <==> s == q
  {
    Product(s as real / q as real, s as real, q as real);
  }

  /** The `pe == 1` branch is taken exactly when one label is all that anybody used; agreement is then full. */
  lemma ChanceOneIff(a: seq<string>, b: seq<string>)
    requires |a| == |b| && a != [] && |a| * |a| > 0
    ensures Matches(a, b) as real / (|a| * |a|) as real == 1.0
            <==> forall k :: 0 <= k < |a| ==> a[k] == a[0] && b[k] == a[0]
    ensures Matches(a, b) as real / (|a| * |a|) as real == 1.0 ==> Agreements(a, b) == |a|
  {
    MatchesBound(a, b);
    AgreementsBound(a, b);
    RatioOneIff(Matches(a, b), |a| * |a|);
    if Matches(a, b) == |a| * |a| {
      assert forall k :: 0 <= k < |a| ==> a[0] == b[k] && a[k] == b[0];
    }
  }

  /** Kappa is 1 exactly when the raters agree on every item. */
  lemma KappaOneIff(a: seq<string>, b: seq<string>)
    requires |a| == |b| && a != []
    ensures KappaOf(a, b) == 1.0 <==> a == b
  {
    MatchesBound(a, b);
    AgreementsBound(a, b);
    ChanceIsBounded(a, b);
    Smaller(|a|, Agreements(a, b));
    ScoreBounds(|a|, Agreements(a, b), Matches(a, b));
    if Matches(a, b) == |a| * |a| {
      assert forall k :: 0 <= k < |a| ==> a[k] == b[k];
    }
  }

  // ----- Symmetry ------------------------------------------------------------

  lemma {:induction false} MatchesEmpty(a: seq<string>)
    ensures Matches(a, []) == 0
  {
    if a != [] {
      MatchesEmpty(a[..|a| - 1]);
    }
  }

  lemma {:induction false} MatchesLast(a: seq<string>, b: seq<string>, y: string)
    ensures Matches(a, b + [y]) == Matches(a, b) + Count(a, y)
  {
    assert (b + [y])[..|b|] == b;
    if a != [] {
      MatchesLast(a[..|a| - 1], b, y);
    }
  }

  lemma {:induction false} MatchesSymmetric(a: seq<string>, b: seq<string>)
    ensures Matches(a, b) == Matches(b, a)
    decreases |b|
  {
    if b == [] {
      MatchesEmpty(a);
    } else {
      var front, y := b[..|b| - 1], b[|b| - 1];
      assert b == front + [y];
      MatchesSymmetric(a, front);
      MatchesLast(a, front, y);
    }
  }

  lemma {:induction false} AgreementsSymmetric(a: seq<string>, b: seq<string>)
    requires |a| == |b|
    ensures Agreements(a, b) == Agreements(b, a)
    decreases |a|
  {
    if a != [] {
      AgreementsSymmetric(a[..|a| - 1], b[..|a| - 1]);
    }
  }

  lemma KappaSymmetric(a: seq<string>, b: seq<string>)
    requires |a| == |b|
    ensures KappaOf(a, b) == KappaOf(b, a)
  {
    MatchesSymmetric(a, b);
    AgreementsSymmetric(a, b);
  }

  // ----- The matrix loop -----------------------------------------------------

  function IndexIn(cats: seq<string>, c: string): (i: nat)
    requires c in cats
    ensures i < |cats| && cats[i] == c
  {
    if cats[0] == c then 0 else 1 + IndexIn(cats[1..], c)
  }

  /** The categories; their order, alphabetical in the program, does not matter. */
  method Categories(labels: set<string>) returns (cats: seq<string>)
    ensures forall i, j :: 0 <= i < j < |cats| ==> cats[i] != cats[j]
    ensures forall c :: c in cats <==> c in labels
  {
    cats := [];
    var left := labels;
    while left != {}
      invariant left <= labels
      invariant forall c :: c in cats <==> c in labels && c !in left
      invariant forall i, j :: 0 <= i < j < |cats| ==> cats[i] != cats[j]
      decreases left
    {
      var c :| c in left;
      cats, left := cats + [c], left - {c};
    }
  }

  ghost predicate Filled(m: array2<nat>, cats: seq<string>, a: seq<string>, b: seq<string>)
    requires |a| == |b|
    reads m
  {
    && m.Length0 == m.Length1 == |cats|
    && forall i, j :: 0 <= i < |cats| && 0 <= j < |cats| ==> m[i, j] == Pairs(a, b, cats[i], cats[j])
  }

  method FillMatrix(m: array2<nat>, cats: seq<string>, a: seq<string>, b: seq<string>)
    requires |a| == |b| && m.Length0 == m.Length1 == |cats|
    requires Lists(cats, a) && Lists(cats, b)
    requires forall i, j :: 0 <= i < |cats| && 0 <= j < |cats| ==> m[i, j] == 0
    modifies m
    ensures Filled(m, cats, a, b)
  {
    for k := 0 to |a|
      invariant Filled(m, cats, a[..k], b[..k])
    {
      var i, j := IndexIn(cats, a[k]), IndexIn(cats, b[k]);
      assert a[..k + 1][..k] == a[..k] && b[..k + 1][..k] == b[..k];
      m[i, j] := m[i, j] + 1;
    }
    assert a[..|a|] == a && b[..|a|] == b;
  }

  function PairsIn(a: seq<string>, b: seq<string>, x: string, cats: seq<string>): nat
    requires |a| == |b|
  {
    if cats == [] then 0 else PairsIn(a, b, x, cats[..|cats| - 1]) + Pairs(a, b, x, cats[|cats| - 1])
  }

  lemma {:induction false} PairsInStep(a: seq<string>, b: seq<string>, p: string, q: string, x: string, cats: seq<string>)
    requires |a| == |b|
    ensures PairsIn(a + [p], b + [q], x, cats) == PairsIn(a, b, x, cats) + (if p == x then Ones(cats, q) else 0)
  {
    assert (a + [p])[..|a|] == a && (b + [q])[..|a|] == b;
    if cats != [] {
      PairsInStep(a, b, p, q, x, cats[..|cats| - 1]);
    }
  }

  lemma {:induction false} PairsInIsCount(a: seq<string>, b: seq<string>, x: string, cats: seq<string>)
    requires |a| == |b| && Lists(cats, b)
    ensures PairsIn(a, b, x, cats) == Count(a, x)
    decreases |a|
  {
    if a == [] {
      NoPairsIn(x, cats);
    } else {
      var m := |a| - 1;
      assert a == a[..m] + [a[m]] && b == b[..m] + [b[m]];
      PairsInIsCount(a[..m], b[..m], x, cats);
      PairsInStep(a[..m], b[..m], a[m], b[m], x, cats);
      ListedOnce(cats, b[m]);
    }
  }

  lemma {:induction false} NoPairsIn(x: string, cats: seq<string>)
    ensures PairsIn([], [], x, cats) == 0
  {
    if cats != [] {
      NoPairsIn(x, cats[..|cats| - 1]);
    }
  }

  lemma {:induction false} PairsFlip(a: seq<string>, b: seq<string>, x: string, y: string)
    requires |a| == |b|
    ensures Pairs(a, b, x, y) == Pairs(b, a, y, x)
    decreases |a|
  {
    if a != [] {
      PairsFlip(a[..|a| - 1], b[..|a| - 1], x, y);
    }
  }

  method RowSum(m: array2<nat>, cats: seq<string>, i: nat, ghost a: seq<string>, ghost b: seq<string>) returns (s: nat)
    requires |a| == |b| && i < |cats| && Filled(m, cats, a, b) && Lists(cats, b)
    ensures s == Count(a, cats[i])
  {
    s := 0;
    for j := 0 to |cats|
      invariant s == PairsIn(a, b, cats[i], cats[..j])
    {
      s := s + m[i, j];
      assert cats[..j + 1][..j] == cats[..j];
    }
    assert cats[..|cats|] == cats;
    PairsInIsCount(a, b, cats[i], cats);
  }

  method ColumnSum(m: array2<nat>, cats: seq<string>, i: nat, ghost a: seq<string>, ghost b: seq<string>) returns (s: nat)
    requires |a| == |b| && i < |cats| && Filled(m, cats, a, b) && Lists(cats, a)
    ensures s == Count(b, cats[i])
  {
    s := 0;
    for j := 0 to |cats|
      invariant s == PairsIn(b, a, cats[i], cats[..j])
    {
      s := s + m[j, i];
      PairsFlip(a, b, cats[j], cats[i]);
      assert cats[..j + 1][..j] == cats[..j];
    }
    assert cats[..|cats|] == cats;
    PairsInIsCount(b, a, cats[i], cats);
  }

  method TraceOf(m: array2<nat>, cats: seq<string>, ghost a: seq<string>, ghost b: seq<string>) returns (trace: nat)
    requires |a| == |b| && Filled(m, cats, a, b) && Lists(cats, a)
    ensures trace == Agreements(a, b)
  {
    trace := 0;
    for i := 0 to |cats|
      invariant trace == Trace(a, b, cats[..i])
    {
      trace := trace + m[i, i];
      assert cats[..i + 1][..i] == cats[..i];
    }
    assert cats[..|cats|] == cats;
    TraceIsAgreements(a, b, cats);
  }

  method MarginalProduct(m: array2<nat>, cats: seq<string>, i: nat, ghost a: seq<string>, ghost b: seq<string>)
    returns (p: nat)
    requires |a| == |b| && i < |cats| && Filled(m, cats, a, b) && Lists(cats, a) && Lists(cats, b)
    ensures p == Count(a, cats[i]) * Count(b, cats[i])
  {
    var row := RowSum(m, cats, i, a, b);
    var column := ColumnSum(m, cats, i, a, b);
    p := row * column;
  }

  lemma RowColNext(a: seq<string>, b: seq<string>, cats: seq<string>, i: nat)
    requires i < |cats|
    ensures RowCol(a, b, cats[..i + 1]) == RowCol(a, b, cats[..i]) + Count(a, cats[i]) * Count(b, cats[i])
  {
    assert cats[..i + 1][..i] == cats[..i];
  }

  method MarginalProducts(m: array2<nat>, cats: seq<string>, ghost a: seq<string>, ghost b: seq<string>)
    returns (products: nat)
    requires |a| == |b| && Filled(m, cats, a, b) && Lists(cats, a) && Lists(cats, b)
    ensures products == Matches(a, b)
  {
    products := 0;
    for i := 0 to |cats|
      invariant products == RowCol(a, b, cats[..i])
    {
      var p := MarginalProduct(m, cats, i, a, b);
      products := products + p;
      RowColNext(a, b, cats, i);
    }
    assert cats[..|cats|] == cats;
    RowColIsMatches(a, b, cats);
  }

  /** The program: unequal lengths are an error, an empty sequence gives 0. */
  method CohenKappa(a: seq<string>, b: seq<string>) returns (r: Result<real, Error>)
    ensures |a| != |b| ==> r == Err(LengthMismatch)
    ensures |a| == |b| ==> r == Ok(KappaOf(a, b))
  {
    if |a| != |b| {
      return Err(LengthMismatch);
    }
    var n := |a|;
    if n == 0 {
      return Ok(0.0);
    }
    var cats := Categories((set x | x in a) + (set x | x in b));
    var matrix := new nat[|cats|, |cats|]((i, j) => 0);
    FillMatrix(matrix, cats, a, b);
    var trace := TraceOf(matrix, cats, a, b);
    var products := MarginalProducts(matrix, cats, a, b);
    r := Ok(Score(n, trace, products));
  }
}
