/**
  Spearman's rank correlation with average ranks for ties
  (evals/judge_calibration/measure.py). The quotient cov / sqrt(varX * varY) is kept as
  the three numbers it is made of, so that no square root is needed.
 */
module Spearman {
  import opened RealFacts

  // ----- Ranks by counting ---------------------------------------------------

  function Below(a: seq<real>, v: real): nat {
    if a == [] then 0 else Below(a[..|a| - 1], v) + (if a[|a| - 1] < v then 1 else 0)
  }

  function Same(a: seq<real>, v: real): nat {
    if a == [] then 0 else Same(a[..|a| - 1], v) + (if a[|a| - 1] == v then 1 else 0)
  }

  function Above(a: seq<real>, v: real): nat {
    if a == [] then 0 else Above(a[..|a| - 1], v) + (if a[|a| - 1] > v then 1 else 0)
  }

  /** Twice the average rank of a value `v` of `a`. */
  function TwiceRank(a: seq<real>, v: real): nat {
    2 * Below(a, v) + Same(a, v) + 1
  }

  /** The rank of position `i`: the number of smaller values plus half of one more than the equal ones. */
  function Rank(a: seq<real>, i: nat): real
    requires i < |a|
  {
    TwiceRank(a, a[i]) as real / 2.0
  }

  function Ranks(a: seq<real>): seq<real> {
    seq(|a|, i requires 0 <= i < |a| => Rank(a, i))
  }

  // ----- The sort-and-group loop ---------------------------------------------

  ghost predicate Orders(order: seq<nat>, a: seq<real>) {
    && |order| == |a|
    && (forall k :: 0 <= k < |order| ==> order[k] < |a|)
    && (forall j, k :: 0 <= j < k < |order| ==> order[j] != order[k] && a[order[j]] <= a[order[k]])
    && forall i: nat :: i < |a| ==> i in order
  }

  lemma PlaceOf(order: seq<nat>, a: seq<real>, k: nat) returns (m: nat)
    requires Orders(order, a) && k < |a|
    ensures m < |order| && order[m] == k
  {
    assert k in order;
    m :| m < |order| && order[m] == k;
  }

  /** The positions below `i`, each once, sorted by value. */
  ghost predicate SortedUpTo(order: seq<nat>, a: seq<real>, i: nat)
    requires i <= |a|
  {
    && |order| == i
    && (forall k :: 0 <= k < |order| ==> order[k] < i)
    && (forall j, k :: 0 <= j < k < |order| ==> order[j] != order[k] && a[order[j]] <= a[order[k]])
    && forall k: nat :: k < i ==> k in order
  }

  /** Position `i` goes behind those with no greater value and in front of the others. */
  lemma InsertAt(order: seq<nat>, a: seq<real>, i: nat, p: nat, j: nat, k: nat)
    requires i < |a| && SortedUpTo(order, a, i) && p <= i && j < k <= i
    requires forall m :: 0 <= m < p ==> a[order[m]] <= a[i]
    requires p < i ==> a[i] <= a[order[p]]
    ensures var next := order[..p] + [i] + order[p..];
            |next| == i + 1 && next[j] <= i && next[k] <= i && next[j] != next[k] && a[next[j]] <= a[next[k]]
  {
    var next := order[..p] + [i] + order[p..];
    assert next[j] == if j < p then order[j] else if j == p then i else order[j - 1];
    assert next[k] == if k < p then order[k] else if k == p then i else order[k - 1];
    if k > p && p < k - 1 {
      assert a[order[p]] <= a[order[k - 1]];
    }
  }

  lemma InsertedIsThere(order: seq<nat>, i: nat, p: nat, k: nat)
    requires p <= |order| && (k in order || k == i)
    ensures k in order[..p] + [i] + order[p..]
  {
    assert order == order[..p] + order[p..];
  }

  lemma InsertKeepsSorted(order: seq<nat>, a: seq<real>, i: nat, p: nat)
    requires i < |a| && SortedUpTo(order, a, i) && p <= i
    requires forall m :: 0 <= m < p ==> a[order[m]] <= a[i]
    requires p < i ==> a[i] <= a[order[p]]
    ensures SortedUpTo(order[..p] + [i] + order[p..], a, i + 1)
  {
    var next := order[..p] + [i] + order[p..];
    forall j, k | 0 <= j < k < |next| ensures next[j] != next[k] && a[next[j]] <= a[next[k]] {
      InsertAt(order, a, i, p, j, k);
    }
    forall k: nat | k < i + 1 ensures k in next {
      InsertedIsThere(order, i, p, k);
    }
  }

  /** The positions sorted by value. */
  method SortPositions(a: seq<real>) returns (order: seq<nat>)
    ensures Orders(order, a)
  {
    order := [];
    for i := 0 to |a|
      invariant SortedUpTo(order, a, i)
    {
      var p := 0;
      while p < |order| && a[order[p]] <= a[i]
        invariant p <= |order|
        invariant forall k :: 0 <= k < p ==> a[order[k]] <= a[i]
      {
        p := p + 1;
      }
      InsertKeepsSorted(order, a, i, p);
      order := order[..p] + [i] + order[p..];
    }
  }

  method ComputeRanks(a: seq<real>) returns (r: seq<real>)
    ensures r == Ranks(a)
  {
    var n := |a|;
    var order := SortPositions(a);
    var ranksOut := new real[n];
    var i := 0;
    while i < n
      invariant i <= n
      invariant 0 < i < n ==> a[order[i - 1]] < a[order[i]]
      invariant forall k :: 0 <= k < i ==> ranksOut[order[k]] == Rank(a, order[k])
    {
      var j := i;
      while j + 1 < n && a[order[j + 1]] == a[order[i]]
        invariant i <= j < n
        invariant forall k :: i <= k <= j ==> a[order[k]] == a[order[i]]
      {
        j := j + 1;
      }
      GroupRank(a, order, i, j);
      var avgRank := (i + j) as real / 2.0 + 1.0;
      for k := i to j + 1
        invariant forall m :: 0 <= m < k ==> ranksOut[order[m]] == Rank(a, order[m])
      {
        ranksOut[order[k]] := avgRank;
      }
      i := j + 1;
    }
    r := ranksOut[..];
    forall k | 0 <= k < n ensures r[k] == Rank(a, k) {
      var m := PlaceOf(order, a, k);
      assert ranksOut[order[m]] == Rank(a, order[m]);
    }
  }

  function Members(s: seq<nat>): set<nat> {
    set x | x in s
  }

  lemma {:induction false} MembersSize(s: seq<nat>)
    requires forall j, k :: 0 <= j < k < |s| ==> s[j] != s[k]
    ensures |Members(s)| == |s|
  {
    if s != [] {
      var front, x := s[..|s| - 1], s[|s| - 1];
      MembersSize(front);
      assert s == front + [x];
      assert Members(s) == Members(front) + {x};
    }
  }

  lemma {:induction false} BelowIsSetSize(a: seq<real>, v: real)
    ensures Below(a, v) == |set k | 0 <= k < |a| && a[k] < v|
  {
    if a != [] {
      var m := |a| - 1;
      BelowIsSetSize(a[..m], v);
      var small := set k | 0 <= k < m && a[..m][k] < v;
      var all := set k | 0 <= k < |a| && a[k] < v;
      assert all == if a[m] < v then small + {m} else small;
    }
  }

  lemma {:induction false} SameIsSetSize(a: seq<real>, v: real)
    ensures Same(a, v) == |set k | 0 <= k < |a| && a[k] == v|
  {
    if a != [] {
      var m := |a| - 1;
      SameIsSetSize(a[..m], v);
      PlacesOfMore(a, v);
    }
  }

  lemma PlacesOfMore(a: seq<real>, v: real)
    requires a != []
    ensures var m := |a| - 1;
            |set k | 0 <= k < |a| && a[k] == v| == |set k | 0 <= k < |a[..m]| && a[..m][k] == v| + if a[m] == v then 1 else 0
  {
    var m := |a| - 1;
    var small := set k | 0 <= k < |a[..m]| && a[..m][k] == v;
    var all := set k | 0 <= k < |a| && a[k] == v;
    assert all == if a[m] == v then small + {m} else small;
  }

  /** Positions `i` to `j` of the order form a whole group of equal values. */
  ghost predicate Group(a: seq<real>, order: seq<nat>, i: nat, j: nat) {
    && Orders(order, a) && i <= j < |a|
    && (forall k :: i <= k <= j ==> a[order[k]] == a[order[i]])
    && (i > 0 ==> a[order[i - 1]] < a[order[i]])
    && (j + 1 < |a| ==> a[order[i]] < a[order[j + 1]])
  }

  lemma BelowGroup(a: seq<real>, order: seq<nat>, i: nat, j: nat)
    requires Group(a, order, i, j)
    ensures Below(a, a[order[i]]) == i
  {
    var v := a[order[i]];
    BelowIsSetSize(a, v);
    MembersSize(order[..i]);
    forall k | 0 <= k < |a| ensures a[k] < v <==> k in order[..i] {
      var m := PlaceOf(order, a, k);
      if m < i {
        assert order[..i][m] == k && a[order[m]] <= a[order[i - 1]];
      } else {
        assert a[order[i]] <= a[order[m]];
      }
    }
    assert (set k | 0 <= k < |a| && a[k] < v) == Members(order[..i]);
  }

  lemma InGroup(a: seq<real>, order: seq<nat>, i: nat, j: nat, k: nat)
    requires Group(a, order, i, j) && k < |a|
    ensures a[k] == a[order[i]] <==> k in order[i..j + 1]
  {
    var m := PlaceOf(order, a, k);
    if m < i {
      assert a[order[m]] <= a[order[i - 1]];
    } else if m <= j {
      assert order[i..j + 1][m - i] == k;
    } else {
      assert a[order[j + 1]] <= a[order[m]];
    }
  }

  lemma SameGroup(a: seq<real>, order: seq<nat>, i: nat, j: nat)
    requires Group(a, order, i, j)
    ensures Same(a, a[order[i]]) == j + 1 - i
  {
    hide Same;
    var v := a[order[i]];
    SameIsSetSize(a, v);
    MembersSize(order[i..j + 1]);
    forall k: nat | k < |a| ensures a[k] == v <==> k in order[i..j + 1] {
      InGroup(a, order, i, j, k);
    }
    assert (set k | 0 <= k < |a| && a[k] == v) == Members(order[i..j + 1]);
  }

  lemma GroupRank(a: seq<real>, order: seq<nat>, i: nat, j: nat)
    requires Group(a, order, i, j)
    ensures forall k :: i <= k <= j ==> Rank(a, order[k]) == (i + j) as real / 2.0 + 1.0
  {
    BelowGroup(a, order, i, j);
    SameGroup(a, order, i, j);
    forall k | i <= k <= j ensures Rank(a, order[k]) == (i + j) as real / 2.0 + 1.0 {
      assert TwiceRank(a, a[order[k]]) == i + j + 2;
    }
  }

  // ----- Ranks reflect order -------------------------------------------------

  lemma {:induction false} CountsCover(a: seq<real>, v: real)
    ensures Below(a, v) + Same(a, v) + Above(a, v) == |a|
  {
    if a != [] {
      CountsCover(a[..|a| - 1], v);
    }
  }

  lemma {:induction false} SameAtLeastOne(a: seq<real>, i: nat)
    requires i < |a|
    ensures Same(a, a[i]) >= 1
    decreases |a|
  {
    if i < |a| - 1 {
      SameAtLeastOne(a[..|a| - 1], i);
    }
  }

  lemma {:induction false} BelowGrows(a: seq<real>, v: real, w: real)
    requires v < w
    ensures Below(a, w) >= Below(a, v) + Same(a, v)
  {
    if a != [] {
      BelowGrows(a[..|a| - 1], v, w);
    }
  }

  lemma RankOrder(a: seq<real>, i: nat, j: nat)
    requires i < |a| && j < |a|
    ensures Rank(a, i) < Rank(a, j) <==> a[i] < a[j]
    ensures Rank(a, i) == Rank(a, j) <==> a[i] == a[j]
  {
    SameAtLeastOne(a, i);
    SameAtLeastOne(a, j);
    if a[i] < a[j] {
      BelowGrows(a, a[i], a[j]);
    } else if a[j] < a[i] {
      BelowGrows(a, a[j], a[i]);
    }
  }

  /** `a` and `b` rank their positions alike. */
  ghost predicate SameOrder(a: seq<real>, b: seq<real>) {
    |a| == |b| && forall i, j :: 0 <= i < |a| && 0 <= j < |a| ==> (a[i] < a[j] <==> b[i] < b[j])
  }

  ghost predicate OppositeOrder(a: seq<real>, b: seq<real>) {
    |a| == |b| && forall i, j :: 0 <= i < |a| && 0 <= j < |a| ==> (a[i] < a[j] <==> b[j] < b[i])
  }

  lemma {:induction false} CountsAgree(a: seq<real>, v: real, b: seq<real>, w: real)
    requires |a| == |b|
    requires forall k :: 0 <= k < |a| ==> (a[k] < v <==> b[k] < w) && (a[k] > v <==> b[k] > w)
    ensures Below(a, v) == Below(b, w) && Same(a, v) == Same(b, w)
    decreases |a|
  {
    if a != [] {
      var m := |a| - 1;
      assert (a[m] < v <==> b[m] < w) && (a[m] > v <==> b[m] > w);
      forall k | 0 <= k < m
        ensures (a[..m][k] < v <==> b[..m][k] < w) && (a[..m][k] > v <==> b[..m][k] > w)
      {
        assert (a[k] < v <==> b[k] < w) && (a[k] > v <==> b[k] > w);
      }
      CountsAgree(a[..m], v, b[..m], w);
    }
  }

  lemma {:induction false} CountsMirror(a: seq<real>, v: real, b: seq<real>, w: real)
    requires |a| == |b|
    requires forall k :: 0 <= k < |a| ==> (a[k] < v <==> b[k] > w) && (a[k] > v <==> b[k] < w)
    ensures Below(a, v) == Above(b, w) && Same(a, v) == Same(b, w)
    decreases |a|
  {
    if a != [] {
      var m := |a| - 1;
      assert (a[m] < v <==> b[m] > w) && (a[m] > v <==> b[m] < w);
      forall k | 0 <= k < m
        ensures (a[..m][k] < v <==> b[..m][k] > w) && (a[..m][k] > v <==> b[..m][k] < w)
      {
        assert (a[k] < v <==> b[k] > w) && (a[k] > v <==> b[k] < w);
      }
      CountsMirror(a[..m], v, b[..m], w);
    }
  }

  /** A strictly increasing map of the values leaves the ranks as they are. */
  lemma SameOrderSameRanks(a: seq<real>, b: seq<real>)
    requires SameOrder(a, b)
    ensures Ranks(a) == Ranks(b)
  {
    forall i | 0 <= i < |a| ensures Rank(a, i) == Rank(b, i) {
      forall k | 0 <= k < |a|
        ensures (a[k] < a[i] <==> b[k] < b[i]) && (a[k] > a[i] <==> b[k] > b[i])
      {
      }
      CountsAgree(a, a[i], b, b[i]);
    }
  }

  lemma OppositeOrderMirrorsRanks(a: seq<real>, b: seq<real>, i: nat)
    requires OppositeOrder(a, b) && i < |a|
    ensures TwiceRank(a, a[i]) + TwiceRank(b, b[i]) == 2 * (|a| + 1)
  {
    forall k | 0 <= k < |a|
      ensures (a[k] < a[i] <==> b[k] > b[i]) && (a[k] > a[i] <==> b[k] < b[i])
    {
    }
    CountsMirror(a, a[i], b, b[i]);
    CountsCover(b, b[i]);
  }

  // ----- The total of the ranks ----------------------------------------------

  /** Twice the sum of the ranks that the values of `b` have in `a`. */
  function TwiceTotal(a: seq<real>, b: seq<real>): nat {
    if b == [] then 0 else TwiceTotal(a, b[..|b| - 1]) + TwiceRank(a, b[|b| - 1])
  }

  lemma RankStep(a: seq<real>, x: real, v: real)
    ensures Below(a + [x], v) == Below(a, v) + (if x < v then 1 else 0)
    ensures Same(a + [x], v) == Same(a, v) + (if x == v then 1 else 0)
  {
    assert (a + [x])[..|a|] == a;
  }

  lemma {:induction false} TotalStep(a: seq<real>, x: real, b: seq<real>)
    ensures TwiceTotal(a + [x], b) == TwiceTotal(a, b) + 2 * Above(b, x) + Same(b, x)
    decreases |b|
  {
    if b != [] {
      TotalStep(a, x, b[..|b| - 1]);
      RankStep(a, x, b[|b| - 1]);
    }
  }

  /** Ties or not, the ranks of n values add up to n (n + 1) / 2. */
  lemma {:induction false} RanksTotal(a: seq<real>)
    ensures TwiceTotal(a, a) == |a| * (|a| + 1)
    decreases |a|
  {
    if a != [] {
      var m := |a| - 1;
      var front, x := a[..m], a[m];
      assert a == front + [x];
      RanksTotal(front);
      TotalStep(front, x, front);
      RankStep(front, x, x);
      CountsCover(front, x);
      assert TwiceTotal(a, a) == TwiceTotal(a, front) + TwiceRank(a, x);
      NextSquare(m);
    }
  }

  lemma NextSquare(m: nat)
    ensures (m + 1) * (m + 2) == m * (m + 1) + 2 * (m + 1)
  {
  }

  function Sum(r: seq<real>): real {
    if r == [] then 0.0 else Sum(r[..|r| - 1]) + r[|r| - 1]
  }

  lemma {:induction false} SumOfRanks(a: seq<real>, b: seq<real>)
    ensures Sum(seq(|b|, i requires 0 <= i < |b| => TwiceRank(a, b[i]) as real / 2.0)) == TwiceTotal(a, b) as real / 2.0
    decreases |b|
  {
    if b != [] {
      var m := |b| - 1;
      var r := seq(|b|, i requires 0 <= i < |b| => TwiceRank(a, b[i]) as real / 2.0);
      SumOfRanks(a, b[..m]);
      assert r[..m] == seq(m, i requires 0 <= i < m => TwiceRank(a, b[..m][i]) as real / 2.0);
    }
  }

  function Mean(r: seq<real>): real
    requires r != []
  {
    Sum(r) / |r| as real
  }

  lemma MeanRank(a: seq<real>)
    requires a != []
    ensures Mean(Ranks(a)) == (|a| + 1) as real / 2.0
  {
    SumOfRanks(a, a);
    assert Ranks(a) == seq(|a|, i requires 0 <= i < |a| => TwiceRank(a, a[i]) as real / 2.0);
    RanksTotal(a);
    HalfQuotient(|a|);
  }

  lemma HalfQuotient(n: nat)
    requires n > 0
    ensures ((n * (n + 1)) as real / 2.0) / n as real == (n + 1) as real / 2.0
  {
    var h := (n + 1) as real / 2.0;
    RealProduct(n, n + 1);
    assert h * n as real == (n * (n + 1)) as real / 2.0;
  }

  lemma RealProduct(x: nat, y: nat)
    ensures (x * y) as real == x as real * y as real
  {
  }

  // ----- The correlation -----------------------------------------------------

  datatype Correlation =
    | IndexError
    | Undefined
    | Rho(cov: real, varX: real, varY: real)  // cov / sqrt(varX * varY)

  function Deviations(r: seq<real>, mean: real): seq<real> {
    seq(|r|, i requires 0 <= i < |r| => r[i] - mean)
  }

  function Dot(u: seq<real>, v: seq<real>): real
    requires |u| == |v|
  {
    if u == [] then 0.0 else Dot(u[..|u| - 1], v[..|u| - 1]) + u[|u| - 1] * v[|u| - 1]
  }

  /** The deviations of the ranks of `a` from their mean. */
  function Dev(a: seq<real>): seq<real>
    requires a != []
  {
    Deviations(Ranks(a), Mean(Ranks(a)))
  }

  function SpearmanOf(xs: seq<real>, ys: seq<real>): Correlation {
    var n := |xs|;
    if n < 2 then Undefined
    else if |ys| < n then IndexError
    else
      var dx, dy := Dev(xs), Dev(ys[..n]);
      if Dot(dx, dx) == 0.0 || Dot(dy, dy) == 0.0 then Undefined
      else Rho(Dot(dx, dy), Dot(dx, dx), Dot(dy, dy))
  }

  method ComputeSpearman(xs: seq<real>, ys: seq<real>) returns (r: Correlation)
    ensures r == SpearmanOf(xs, ys)
  {
    var n := |xs|;
    if n < 2 {
      return Undefined;
    }
    if |ys| < n {
      return IndexError;
    }
    var rx := ComputeRanks(xs);
    var ry := ComputeRanks(ys[..n]);
    var dx, dy := Deviations(rx, Mean(rx)), Deviations(ry, Mean(ry));
    var cov, varX, varY := Dot(dx, dy), Dot(dx, dx), Dot(dy, dy);
    r := if varX == 0.0 || varY == 0.0 then Undefined else Rho(cov, varX, varY);
  }

  // ----- Cauchy-Schwarz ------------------------------------------------------

  /** The sum of the squares of `u - t v`. */
  function Residual(u: seq<real>, v: seq<real>, t: real): real
    requires |u| == |v|
  {
    if u == [] then 0.0
    else
      var e := u[|u| - 1] - t * v[|u| - 1];
      Residual(u[..|u| - 1], v[..|u| - 1], t) + e * e
  }

  lemma SquareFacts(x: real)
    ensures x * x >= 0.0
    ensures x * x == 0.0 ==> x == 0.0
  {
    if x * x == 0.0 {
      NoZeroDivisors(x, x);
    }
  }

  lemma {:induction false} ResidualZero(u: seq<real>, v: seq<real>, t: real)
    requires |u| == |v|
    ensures Residual(u, v, t) >= 0.0
    ensures Residual(u, v, t) == 0.0 ==> forall i :: 0 <= i < |u| ==> u[i] == t * v[i]
    decreases |u|
  {
    if u != [] {
      var m := |u| - 1;
      var e := u[m] - t * v[m];
      ResidualZero(u[..m], v[..m], t);
      SquareFacts(e);
      if Residual(u, v, t) == 0.0 {
        forall i | 0 <= i < |u| ensures u[i] == t * v[i] {
          if i < m {
            assert u[..m][i] == t * v[..m][i];
          }
        }
      }
    }
  }

  lemma ExpandSquare(x: real, y: real, t: real)
    ensures (x - t * y) * (x - t * y) == x * x - 2.0 * (t * (x * y)) + t * (t * (y * y))
  {
    var z := t * y;
    assert (x - z) * (x - z) == x * x - 2.0 * (x * z) + z * z;
    assert x * z == t * (x * y);
    assert z * z == t * (t * (y * y));
  }

  lemma AddExpanded(a: real, b: real, d: real, x: real, y: real, t: real)
    ensures a - 2.0 * (t * b) + t * (t * d) + (x - t * y) * (x - t * y)
            == (a + x * x) - 2.0 * (t * (b + x * y)) + t * (t * (d + y * y))
  {
    ExpandSquare(x, y, t);
    Spread(t, b, x * y);
    Spread(t, d, y * y);
    Spread(t, t * d, t * (y * y));
  }

  lemma LastTerms(u: seq<real>, v: seq<real>, t: real)
    requires |u| == |v| && u != []
    ensures var m := |u| - 1; var x, y := u[m], v[m];
            && Dot(u, u) == Dot(u[..m], u[..m]) + x * x
            && Dot(u, v) == Dot(u[..m], v[..m]) + x * y
            && Dot(v, v) == Dot(v[..m], v[..m]) + y * y
            && Residual(u, v, t) == Residual(u[..m], v[..m], t) + (x - t * y) * (x - t * y)
  {
  }

  lemma StepExpanded(r: real, a: real, b: real, d: real, x: real, y: real, t: real)
    requires r == a - 2.0 * (t * b) + t * (t * d)
    ensures r + (x - t * y) * (x - t * y)
            == (a + x * x) - 2.0 * (t * (b + x * y)) + t * (t * (d + y * y))
  {
    AddExpanded(a, b, d, x, y, t);
  }

  lemma NoTerms(t: real, a: real, b: real, d: real)
    requires a == 0.0 && b == 0.0 && d == 0.0
    ensures a - 2.0 * (t * b) + t * (t * d) == 0.0
  {
    TimesZero(t, b);
    TimesZero(t, d);
    TimesZero(t, t * d);
  }

  lemma EmptyExpansion(u: seq<real>, v: seq<real>, t: real)
    requires u == [] && v == []
    ensures Residual(u, v, t) == Dot(u, u) - 2.0 * (t * Dot(u, v)) + t * (t * Dot(v, v))
  {
    NoTerms(t, Dot(u, u), Dot(u, v), Dot(v, v));
  }

  lemma {:induction false} ResidualExpands(u: seq<real>, v: seq<real>, t: real)
    requires |u| == |v|
    ensures Residual(u, v, t) == Dot(u, u) - 2.0 * (t * Dot(u, v)) + t * (t * Dot(v, v))
    decreases |u|
  {
    hide Dot, Residual;
    if u == [] {
      EmptyExpansion(u, v, t);
    } else {
      ResidualExpands(u[..|u| - 1], v[..|u| - 1], t);
      ExpansionStep(u, v, t);
    }
  }

  lemma ExpansionStep(u: seq<real>, v: seq<real>, t: real)
    requires |u| == |v| && u != []
    requires var u', v' := u[..|u| - 1], v[..|u| - 1];
             Residual(u', v', t) == Dot(u', u') - 2.0 * (t * Dot(u', v')) + t * (t * Dot(v', v'))
    ensures Residual(u, v, t) == Dot(u, u) - 2.0 * (t * Dot(u, v)) + t * (t * Dot(v, v))
  {
    hide Dot, Residual;
    LastTerms(u, v, t);
    var m := |u| - 1;
    var u', v' := u[..m], v[..m];
    StepExpanded(Residual(u', v', t), Dot(u', u'), Dot(u', v'), Dot(v', v'), u[m], v[m], t);
  }

  lemma Spread(t: real, x: real, y: real)
    ensures t * (x + y) == t * x + t * y
  {
  }

  lemma {:induction false} DotSymmetric(u: seq<real>, v: seq<real>)
    requires |u| == |v|
    ensures Dot(u, v) == Dot(v, u)
    decreases |u|
  {
    if u != [] {
      DotSymmetric(u[..|u| - 1], v[..|u| - 1]);
    }
  }

  lemma {:induction false} DotSelf(u: seq<real>)
    ensures Dot(u, u) >= 0.0
    ensures Dot(u, u) == 0.0 <==> forall i :: 0 <= i < |u| ==> u[i] == 0.0
    decreases |u|
  {
    if u != [] {
      var m := |u| - 1;
      DotSelf(u[..m]);
      SquareFacts(u[m]);
      if u[m] == 0.0 {
        TimesZero(u[m], u[m]);
      }
      assert (forall i :: 0 <= i < |u| ==> u[i] == 0.0)
        <==> u[m] == 0.0 && forall i :: 0 <= i < m ==> u[..m][i] == 0.0;
    }
  }

  lemma BestMultiple(a: real, b: real, d: real, t: real, q: real)
    requires d > 0.0 && t == b / d
    requires q == a - 2.0 * (t * b) + t * (t * d)
    ensures q * d == a * d - b * b
  {
    assert t * d == b;
    assert q == a - t * b;
    assert (t * b) * d == b * b;
    assert (a - t * b) * d == a * d - (t * b) * d;
  }

  lemma SignOfProduct(q: real, d: real)
    requires d > 0.0
    ensures q >= 0.0 ==> q * d >= 0.0
    ensures q > 0.0 ==> q * d > 0.0 && q / d > 0.0
  {
  }

  lemma BestResidual(u: seq<real>, v: seq<real>)
    requires |u| == |v| && Dot(v, v) > 0.0
    ensures Residual(u, v, Dot(u, v) / Dot(v, v)) * Dot(v, v)
            == Dot(u, u) * Dot(v, v) - Dot(u, v) * Dot(u, v)
  {
    hide Dot, Residual;
    var d := Dot(v, v);
    var t := Dot(u, v) / d;
    ResidualExpands(u, v, t);
    BestMultiple(Dot(u, u), Dot(u, v), d, t, Residual(u, v, t));
  }

  /** The Cauchy-Schwarz inequality, and what equality means. */
  lemma CauchySchwarz(u: seq<real>, v: seq<real>)
    requires |u| == |v| && Dot(v, v) > 0.0
    ensures Dot(u, v) * Dot(u, v) <= Dot(u, u) * Dot(v, v)
    ensures Dot(u, v) * Dot(u, v) == Dot(u, u) * Dot(v, v) ==>
              forall i :: 0 <= i < |u| ==> u[i] == (Dot(u, v) / Dot(v, v)) * v[i]
  {
    hide Dot, Residual;
    var q := Residual(u, v, Dot(u, v) / Dot(v, v));
    BestResidual(u, v);
    ResidualZero(u, v, Dot(u, v) / Dot(v, v));
    SignOfProduct(q, Dot(v, v));
  }

  // ----- What the correlation says -------------------------------------------

  /** A defined correlation lies between -1 and 1: its square is at most 1. */
  lemma RhoInRange(xs: seq<real>, ys: seq<real>)
    requires SpearmanOf(xs, ys).Rho?
    ensures var r := SpearmanOf(xs, ys);
            r.varX > 0.0 && r.varY > 0.0 && r.cov * r.cov <= r.varX * r.varY
  {
    hide Dot;
    var dx, dy := Dev(xs), Dev(ys[..|xs|]);
    DotSelf(dx);
    DotSelf(dy);
    CauchySchwarz(dx, dy);
  }

  ghost predicate Constant(a: seq<real>) {
    forall i :: 0 <= i < |a| ==> a[i] == a[0]
  }

  lemma {:induction false} SumOfConstant(r: seq<real>, c: real)
    requires forall i :: 0 <= i < |r| ==> r[i] == c
    ensures Sum(r) == |r| as real * c
  {
    if r != [] {
      var m := |r| - 1;
      SumOfConstant(r[..m], c);
      StepProduct(m as real, c);
    }
  }

  lemma StepProduct(m: real, c: real)
    ensures (m + 1.0) * c == m * c + c
  {
  }

  lemma CancelLength(n: real, c: real)
    requires n > 0.0
    ensures (n * c) / n == c
  {
  }

  lemma VarianceZeroIff(a: seq<real>)
    requires a != []
    ensures Dot(Dev(a), Dev(a)) == 0.0 <==> Constant(a)
  {
    var r := Ranks(a);
    DotSelf(Dev(a));
    if Constant(a) {
      forall i | 0 <= i < |a| ensures r[i] == r[0] {
        RankOrder(a, i, 0);
      }
      SumOfConstant(r, r[0]);
      CancelLength(|r| as real, r[0]);
    } else {
      var i :| 0 <= i < |a| && a[i] != a[0];
      RankOrder(a, i, 0);
      assert Dev(a)[i] == Rank(a, i) - Mean(r) && Dev(a)[0] == Rank(a, 0) - Mean(r);
      assert Dev(a)[i] != Dev(a)[0];
    }
  }

  /** There is no correlation exactly for fewer than two values or a constant series. */
  lemma UndefinedIff(xs: seq<real>, ys: seq<real>)
    requires |xs| == |ys|
    ensures SpearmanOf(xs, ys) == Undefined <==> |xs| < 2 || Constant(xs) || Constant(ys)
  {
    if |xs| >= 2 {
      assert ys[..|xs|] == ys;
      VarianceZeroIff(xs);
      VarianceZeroIff(ys);
    }
  }

  /** Only the order of the values counts: ranks, and so the result, survive increasing maps. */
  lemma OnlyOrderMatters(xs: seq<real>, ys: seq<real>, xs': seq<real>, ys': seq<real>)
    requires SameOrder(xs, xs') && SameOrder(ys, ys') && |xs| == |ys|
    ensures SpearmanOf(xs, ys) == SpearmanOf(xs', ys')
  {
    if |xs| >= 2 {
      assert ys[..|xs|] == ys && ys'[..|xs|] == ys';
      SameOrderSameRanks(xs, xs');
      SameOrderSameRanks(ys, ys');
    }
  }

  lemma SpearmanSymmetric(xs: seq<real>, ys: seq<real>)
    requires |xs| == |ys|
    ensures match SpearmanOf(xs, ys)
            case Rho(cov, varX, varY) => SpearmanOf(ys, xs) == Rho(cov, varY, varX)
            case other => SpearmanOf(ys, xs) == other
  {
    if |xs| >= 2 {
      assert ys[..|xs|] == ys && xs[..|xs|] == xs;
      DotSymmetric(Dev(xs), Dev(ys));
    }
  }

  lemma ScaledOrder(t: real, x: real, y: real)
    requires t > 0.0
    ensures t * x < t * y <==> x < y
  {
    if x < y {
      assert t * (y - x) > 0.0;
    } else if y < x {
      assert t * (x - y) > 0.0;
    }
  }

  lemma ProportionalSameOrder(xs: seq<real>, ys: seq<real>, t: real)
    requires |xs| == |ys| && xs != [] && t > 0.0
    requires forall i :: 0 <= i < |xs| ==> Dev(xs)[i] == t * Dev(ys)[i]
    ensures SameOrder(xs, ys)
  {
    hide Dev;
    forall i, j | 0 <= i < |xs| && 0 <= j < |xs| ensures xs[i] < xs[j] <==> ys[i] < ys[j] {
      DevOrder(xs, i, j);
      DevOrder(ys, i, j);
      ScaledOrder(t, Dev(ys)[i], Dev(ys)[j]);
      assert Dev(xs)[i] == t * Dev(ys)[i] && Dev(xs)[j] == t * Dev(ys)[j];
    }
  }

  lemma DevOrder(a: seq<real>, i: nat, j: nat)
    requires i < |a| && j < |a|
    ensures |Dev(a)| == |a|
    ensures Dev(a)[i] < Dev(a)[j] <==> a[i] < a[j]
  {
    RankOrder(a, i, j);
  }

  lemma DevCount(xs: seq<real>)
    requires xs != []
    ensures |Dev(xs)| == |xs|
  {
  }

  lemma PerfectMeansSameOrder(xs: seq<real>, ys: seq<real>)
    requires |xs| == |ys| && xs != []
    requires var dx, dy := Dev(xs), Dev(ys);
             Dot(dy, dy) > 0.0 && Dot(dx, dy) > 0.0 && Dot(dx, dy) * Dot(dx, dy) == Dot(dx, dx) * Dot(dy, dy)
    ensures SameOrder(xs, ys)
  {
    hide Dot, Dev, SameOrder;
    var dx, dy := Dev(xs), Dev(ys);
    DevCount(xs);
    DevCount(ys);
    CauchySchwarz(dx, dy);
    SignOfProduct(Dot(dx, dy), Dot(dy, dy));
    ProportionalSameOrder(xs, ys, Dot(dx, dy) / Dot(dy, dy));
  }

  /** The correlation is 1 exactly when both series put their positions in the same order. */
  lemma RhoIsOneIff(xs: seq<real>, ys: seq<real>)
    requires |xs| == |ys| && SpearmanOf(xs, ys).Rho?
    ensures var r := SpearmanOf(xs, ys);
            r.cov > 0.0 && r.cov * r.cov == r.varX * r.varY <==> SameOrder(xs, ys)
  {
    hide Dot, Dev;
    assert ys[..|xs|] == ys;
    var r := SpearmanOf(xs, ys);
    RhoInRange(xs, ys);
    if SameOrder(xs, ys) {
      SameOrderSameDev(xs, ys);
    } else if r.cov > 0.0 && r.cov * r.cov == r.varX * r.varY {
      PerfectMeansSameOrder(xs, ys);
    }
  }

  lemma SameOrderSameDev(xs: seq<real>, ys: seq<real>)
    requires SameOrder(xs, ys) && xs != []
    ensures Dev(xs) == Dev(ys)
  {
    SameOrderSameRanks(xs, ys);
  }

  lemma {:induction false} DotNegated(u: seq<real>, v: seq<real>, w: seq<real>)
    requires |u| == |v| == |w|
    requires forall i :: 0 <= i < |v| ==> w[i] == -v[i]
    ensures Dot(u, w) == -Dot(u, v) && Dot(w, w) == Dot(v, v)
    decreases |u|
  {
    if u != [] {
      var m := |u| - 1;
      DotNegated(u[..m], v[..m], w[..m]);
      NegatedProduct(u[m], v[m], w[m]);
    }
  }

  lemma NegatedProduct(x: real, y: real, z: real)
    requires z == -y
    ensures x * z == -(x * y) && z * z == y * y
  {
  }

  /** Reversing the order of one series changes the sign. */
  lemma ReversalNegates(xs: seq<real>, ys: seq<real>, zs: seq<real>)
    requires |xs| == |ys| && OppositeOrder(ys, zs)
    ensures match SpearmanOf(xs, ys)
            case Rho(cov, varX, varY) => SpearmanOf(xs, zs) == Rho(-cov, varX, varY)
            case other => SpearmanOf(xs, zs) == other
  {
    if |xs| >= 2 {
      assert ys[..|xs|] == ys && zs[..|xs|] == zs;
      MeanRank(ys);
      MeanRank(zs);
      forall i | 0 <= i < |ys| ensures Dev(zs)[i] == -Dev(ys)[i] {
        OppositeOrderMirrorsRanks(ys, zs, i);
      }
      DotNegated(Dev(xs), Dev(ys), Dev(zs));
    }
  }
}
