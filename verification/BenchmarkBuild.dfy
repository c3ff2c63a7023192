/**
  One complete draw of the benchmark and the search for a workable quota
  (evals/claim_benchmark/build_benchmark.py).
 */
module BenchmarkBuild {
  import opened Finite
  import opened QuotaSampling
  import opened Wrappers

  datatype Request = Request(clean: int, nearMiss: int, hedged: int)

  datatype Draw = Draw(clean: seq<Row>, nearMiss: seq<Row>, hedged: seq<Row>)

  datatype Error = EmptyPool

  function Needed(q: Request): int {
    q.clean + q.nearMiss + q.hedged
  }

  function Size(d: Draw): nat {
    |d.clean| + |d.nearMiss| + |d.hedged|
  }

  predicate IsNearMiss(r: Row) {
    r.nearMiss
  }

  predicate IsHedged(r: Row) {
    r.hedged
  }

  function NearMisses(rows: set<Row>): set<Row> {
    set r | r in rows && r.nearMiss
  }

  function Hedged(rows: set<Row>): set<Row> {
    set r | r in rows && r.hedged
  }

  /** Everything drawn. */
  function All(d: Draw): set<Row> {
    AsSet(d.nearMiss) + AsSet(d.hedged) + AsSet(d.clean)
  }

  /**
    Near misses first, then hedged rows, then clean rows from the rest, each a largest draw that the quota allows.
    Shuffles decide which rows of the first two kinds; of the clean rows, only how many there are is said here.
   */
  ghost predicate ValidDraw(rows: set<Row>, q: Request, cap: int, d: Draw) {
    var near, hedged := AsSet(d.nearMiss), AsSet(d.hedged);
    && Drawn(d.nearMiss, q.nearMiss, NearMisses(rows), cap, {})
    && Drawn(d.hedged, q.hedged, Hedged(rows) - near, cap, near)
    && Drawn(d.clean, q.clean, rows - (near + hedged), cap, near + hedged)
    && WithinCap(All(d), cap)
  }

  // ----- One draw ------------------------------------------------------------

  function Filter(rows: seq<Row>, p: Row -> bool): seq<Row> {
    if rows == [] then [] else (if p(rows[0]) then [rows[0]] else []) + Filter(rows[1..], p)
  }

  lemma {:induction false} FilterIs(rows: seq<Row>, p: Row -> bool)
    requires Distinct(rows)
    ensures Distinct(Filter(rows, p))
    ensures AsSet(Filter(rows, p)) == set r | r in rows && p(r)
    decreases |rows|
  {
    if rows != [] {
      SplitPool(rows);
      FilterIs(rows[1..], p);
      var rest := Filter(rows[1..], p);
      Prepend(rows[0], rest);
      assert [] + rest == rest;
      assert forall r :: r in rows <==> r == rows[0] || r in rows[1..];
    }
  }

  method SampleAll(rows: seq<Row>, q: Request, cap: int) returns (d: Draw)
    requires Distinct(rows)
    ensures ValidDraw(AsSet(rows), q, cap, d)
  {
    hide Drawn;
    ghost var all := AsSet(rows);
    var quota := new TraceQuota(cap);
    FilterIs(rows, IsNearMiss);
    FilterIs(rows, IsHedged);
    assert AsSet(Filter(rows, IsNearMiss)) - {} == NearMisses(all);
    assert AsSet(Filter(rows, IsHedged)) == Hedged(all);
    var near := SampleSubset(Filter(rows, IsNearMiss), q.nearMiss, quota, {});
    assert quota.taken == AsSet(near);
    var hedged := SampleSubset(Filter(rows, IsHedged), q.hedged, quota, AsSet(near));
    assert quota.taken == AsSet(near) + AsSet(hedged);
    var clean := SampleClean(rows, q.clean, quota, AsSet(near) + AsSet(hedged));
    d := Draw(clean, near, hedged);
    assert quota.taken == All(d);
  }

  // ----- What every draw satisfies -------------------------------------------

  lemma {:induction false} SizeOfSet(s: seq<Row>)
    requires Distinct(s)
    ensures |AsSet(s)| == |s|
    decreases |s|
  {
    if s != [] {
      SplitPool(s);
      SizeOfSet(s[1..]);
      assert s[0] in AsSet(s);
    }
  }

  lemma OfSmaller(small: set<Row>, large: set<Row>, t: string)
    requires small <= large
    ensures |Of(small, t)| <= |Of(large, t)|
  {
    SubsetSize(Of(small, t), Of(large, t));
  }

  lemma WithinSmaller(small: set<Row>, large: set<Row>, cap: int)
    requires small <= large && WithinCap(large, cap)
    ensures WithinCap(small, cap)
  {
    forall t ensures |Of(small, t)| <= Max(cap, 0) {
      OfSmaller(small, large, t);
    }
  }

  /** Rows drawn within the cap take exactly their number from the capacity, in whatever order they came. */
  lemma {:induction false} CapacityAfter(rows: set<Row>, drawn: set<Row>, cap: int)
    requires drawn <= rows && WithinCap(drawn, cap)
    ensures Capacity(rows - drawn, cap, drawn) + |drawn| == Capacity(rows, cap, {})
    decreases drawn
  {
    hide Capacity;
    if drawn == {} {
      assert rows - drawn == rows;
    } else {
      var r :| r in drawn;
      var rest := drawn - {r};
      WithinSmaller(rest, drawn, cap);
      CapacityAfter(rows, rest, cap);
      OfLess(drawn, r);
      assert r in Of(drawn, r.trace);
      DrawnRow(rows - rest, r, cap, rest);
      assert rows - rest - {r} == rows - drawn && rest + {r} == drawn;
    }
  }

  /** The three subsets are disjoint, hold distinct rows, and no trace exceeds the cap in all of them together. */
  lemma SubsetsAreDisjoint(rows: set<Row>, q: Request, cap: int, d: Draw)
    requires ValidDraw(rows, q, cap, d)
    ensures AsSet(d.nearMiss) !! AsSet(d.hedged) !! AsSet(d.clean)
    ensures All(d) <= rows && |All(d)| == Size(d)
    ensures forall r :: r in d.nearMiss ==> r.nearMiss
    ensures forall r :: r in d.hedged ==> r.hedged
    ensures forall t :: |Of(All(d), t)| <= Max(cap, 0)
  {
    hide Capacity;
    SizeOfSet(d.nearMiss);
    SizeOfSet(d.hedged);
    SizeOfSet(d.clean);
    assert forall r :: r in d.nearMiss ==> r in AsSet(d.nearMiss);
    assert forall r :: r in d.hedged ==> r in AsSet(d.hedged);
  }

  /** The clean subset fills up whatever the quota leaves after the other two. */
  lemma CleanSize(rows: set<Row>, q: Request, cap: int, d: Draw)
    requires ValidDraw(rows, q, cap, d)
    ensures |d.clean| == Min(Max(q.clean, 0), Capacity(rows, cap, {}) - |d.nearMiss| - |d.hedged|)
    ensures Size(d) <= Capacity(rows, cap, {})
  {
    hide Capacity, WithinCap;
    SubsetsAreDisjoint(rows, q, cap, d);
    var first := AsSet(d.nearMiss) + AsSet(d.hedged);
    WithinSmaller(first, All(d), cap);
    CapacityAfter(rows, first, cap);
    CapacityAfter(rows, All(d), cap);
    SizeOfSet(d.nearMiss);
    SizeOfSet(d.hedged);
  }

  /** A request that asks for clean rows enough gets the full capacity, whatever the shuffles were. */
  lemma TotalSize(rows: set<Row>, q: Request, cap: int, d: Draw)
    requires ValidDraw(rows, q, cap, d) && q.clean >= 0
    ensures Size(d) == Min(|d.nearMiss| + |d.hedged| + q.clean, Capacity(rows, cap, {}))
  {
    CleanSize(rows, q, cap, d);
  }

  // ----- Large and small quotas ----------------------------------------------

  /** No trace has more than `cap` rows, so the quota never refuses a row. */
  ghost predicate Slack(rows: set<Row>, cap: int) {
    cap >= 0 && forall t :: |Of(rows, t)| <= cap
  }

  lemma SlackCapacity(rows: set<Row>, stock: set<Row>, taken: set<Row>, cap: int)
    requires Slack(rows, cap) && stock !! taken && stock + taken <= rows
    ensures Capacity(stock, cap, taken) == |stock|
  {
    hide Capacity;
    var both := stock + taken;
    forall t ensures |Of(both, t)| <= cap {
      OfSmaller(both, rows, t);
    }
    WithinSmaller(taken, both, cap);
    CapacityAfter(both, both, cap);
    CapacityAfter(both, taken, cap);
    assert both - taken == stock && both - both == {};
    EmptyCapacity(cap, both);
  }

  lemma KindsAreRows(rows: set<Row>)
    ensures NearMisses(rows) <= rows && Hedged(rows) <= rows
  {
  }

  lemma SizesByCapacity(rows: set<Row>, q: Request, cap: int, d: Draw)
    requires ValidDraw(rows, q, cap, d)
    ensures AsSet(d.nearMiss) <= NearMisses(rows)
    ensures |d.nearMiss| == Min(Max(q.nearMiss, 0), Capacity(NearMisses(rows), cap, {}))
    ensures |d.hedged| == Min(Max(q.hedged, 0), Capacity(Hedged(rows) - AsSet(d.nearMiss), cap, AsSet(d.nearMiss)))
  {
    hide Capacity;
  }

  /** From the largest trace on, a wider quota changes no size: stopping the search there loses nothing. */
  lemma WiderQuotaIsUseless(rows: set<Row>, q: Request, cap: int, d: Draw)
    requires Slack(rows, cap) && ValidDraw(rows, q, cap, d)
    ensures |d.nearMiss| == Min(Max(q.nearMiss, 0), |NearMisses(rows)|)
    ensures |d.hedged| == Min(Max(q.hedged, 0), |Hedged(rows) - AsSet(d.nearMiss)|)
    ensures |d.clean| == Min(Max(q.clean, 0), |rows| - |d.nearMiss| - |d.hedged|)
  {
    hide Capacity, Slack, ValidDraw, NearMisses, Hedged;
    SizesByCapacity(rows, q, cap, d);
    SlackKinds(rows, AsSet(d.nearMiss), cap);
    CleanSize(rows, q, cap, d);
  }

  lemma SlackKinds(rows: set<Row>, near: set<Row>, cap: int)
    requires Slack(rows, cap) && near <= NearMisses(rows)
    ensures Capacity(NearMisses(rows), cap, {}) == |NearMisses(rows)| && Capacity(rows, cap, {}) == |rows|
    ensures Capacity(Hedged(rows) - near, cap, near) == |Hedged(rows) - near|
  {
    hide Capacity, Slack, NearMisses, Hedged;
    KindsAreRows(rows);
    SlackCapacity(rows, NearMisses(rows), {}, cap);
    SlackCapacity(rows, Hedged(rows) - near, near, cap);
    SlackCapacity(rows, rows, {}, cap);
  }

  lemma {:induction false} SharesBound(ts: set<string>, rows: set<Row>, cap: int)
    requires cap >= 0
    ensures Shares(ts, rows, cap, {}) <= |ts| * cap
    decreases ts
  {
    if ts != {} {
      var t :| t in ts;
      SharesSplit(ts, t, rows, cap, {});
      SharesBound(ts - {t}, rows, cap);
      assert Share(rows, cap, {}, t) <= cap by {
        assert Of({}, t) == {};
      }
      OneMore(|ts| - 1, cap);
    }
  }

  lemma OneMore(n: int, cap: int)
    ensures (n + 1) * cap == n * cap + cap
  {
  }

  function CeilDiv(a: int, n: nat): int
    requires n > 0
  {
    -((-a) / n)
  }

  lemma BelowCeil(a: int, n: nat, cap: int)
    requires n > 0 && cap < CeilDiv(a, n)
    ensures n * cap < a
  {
    var k := (-a) / n;
    assert n * k <= -a;
    assert cap + 1 <= -k;
    Multiply(n, cap + 1, -k);
    assert n * (cap + 1) == n * cap + n;
    assert n * (-k) == -(n * k);
    assert n * k + n > -a;
  }

  lemma Multiply(n: nat, x: int, y: int)
    requires x <= y
    ensures n * x <= n * y
  {
  }

  /** Below the average per trace that the request needs, every draw falls short. */
  lemma BelowAverageFallsShort(rows: set<Row>, q: Request, cap: int, d: Draw)
    requires |Traces(rows)| > 0 && cap < CeilDiv(Needed(q), |Traces(rows)|) && cap >= 0
    requires ValidDraw(rows, q, cap, d)
    ensures Size(d) < q.clean + q.nearMiss + q.hedged
  {
    SharesBound(Traces(rows), rows, cap);
    BelowCeil(Needed(q), |Traces(rows)|, cap);
    CleanSize(rows, q, cap, d);
  }

  // ----- The search ----------------------------------------------------------

  lemma FloorOf(least: int, c: int, n: nat)
    ensures n * Max(least, c) >= n * c
  {
    Multiply(n, c, Max(least, c));
  }

  lemma CeilDivIs(a: int, n: nat)
    requires n > 0
    ensures n * CeilDiv(a, n) >= a && n * (CeilDiv(a, n) - 1) < a
  {
    var k := (-a) / n;
    assert n * k <= -a < n * k + n;
    assert n * (-k) == -(n * k);
    assert n * (-k - 1) == n * (-k) - n;
  }

  /** At least the default, at least the average per trace that the request needs, and no more than that takes. */
  function CapFloor(rows: set<Row>, q: Request, maxPerTrace: int): (r: int)
    ensures r >= maxPerTrace
    ensures var n := |Traces(rows)|; n > 0 ==> n * r >= q.clean + q.nearMiss + q.hedged
    ensures var n := |Traces(rows)|; r > maxPerTrace ==> n > 0 && n * (r - 1) < q.clean + q.nearMiss + q.hedged
  {
    var n := |Traces(rows)|;
    if n > 0 then
      CeilDivIs(Needed(q), n);
      FloorOf(maxPerTrace, CeilDiv(Needed(q), n), n);
      Max(maxPerTrace, CeilDiv(Needed(q), n))
    else maxPerTrace
  }

  /** `n` is the number of rows of the largest trace. */
  ghost predicate LargestIs(rows: set<Row>, n: nat) {
    Slack(rows, n) && exists t :: |Of(rows, t)| == n
  }

  ghost predicate Counted(counts: map<string, nat>, rows: set<Row>) {
    forall t :: UsedOf(counts, t) == |Of(rows, t)|
  }

  lemma CountOne(counts: map<string, nat>, rows: set<Row>, r: Row)
    requires Counted(counts, rows) && r !in rows
    ensures Counted(counts[r.trace := UsedOf(counts, r.trace) + 1], rows + {r})
  {
    OfMore(rows, r);
    forall t | t != r.trace ensures Of(rows + {r}, t) == Of(rows, t) {
    }
  }

  method CountTraces(rows: seq<Row>) returns (counts: map<string, nat>)
    requires Distinct(rows)
    ensures Counted(counts, AsSet(rows))
  {
    counts := map[];
    assert Counted(counts, {}) by {
      assert forall t :: Of({}, t) == {};
    }
    assert AsSet(rows[..0]) == {};
    for i := 0 to |rows|
      invariant Counted(counts, AsSet(rows[..i]))
    {
      hide Counted;
      assert AsSet(rows[..i + 1]) == AsSet(rows[..i]) + {rows[i]};
      CountOne(counts, AsSet(rows[..i]), rows[i]);
      counts := counts[rows[i].trace := UsedOf(counts, rows[i].trace) + 1];
    }
    assert rows[..|rows|] == rows;
  }

  method LargestTrace(rows: seq<Row>) returns (upper: nat)
    requires Distinct(rows) && rows != []
    ensures LargestIs(AsSet(rows), upper)
  {
    var counts := CountTraces(rows);
    assert rows[0] in Of(AsSet(rows), rows[0].trace);
    assert UsedOf(counts, rows[0].trace) > 0;
    var keys := counts.Keys;
    var best: string :| best in keys;
    while keys != {}
      invariant keys <= counts.Keys && best in counts
      invariant forall t :: t in counts && t !in keys ==> counts[t] <= counts[best]
      decreases keys
    {
      var t :| t in keys;
      if counts[t] > counts[best] {
        best := t;
      }
      keys := keys - {t};
    }
    upper := counts[best];
    assert |Of(AsSet(rows), best)| == UsedOf(counts, best) == upper;
  }

  ghost predicate Search(rows: set<Row>, q: Request, from: int, tried: seq<Draw>) {
    && (forall i :: 0 <= i < |tried| ==> ValidDraw(rows, q, from + i, tried[i]))
    && forall i :: 0 <= i < |tried| - 1 ==> Size(tried[i]) < Needed(q)
  }

  lemma SearchGoesOn(rows: set<Row>, q: Request, from: int, tried: seq<Draw>, d: Draw)
    requires Search(rows, q, from, tried) && tried != [] && Size(tried[|tried| - 1]) < Needed(q)
    requires ValidDraw(rows, q, from + |tried|, d)
    ensures Search(rows, q, from, tried + [d])
  {
    hide ValidDraw;
  }

  /** The widening loop. */
  method Widen(rows: seq<Row>, q: Request, floor: int, upper: nat) returns (cap: int, d: Draw, ghost tried: seq<Draw>)
    requires Distinct(rows)
    ensures floor <= cap <= Max(floor, upper) && (Size(d) < Needed(q) ==> cap >= upper)
    ensures |tried| == cap - floor + 1 && d == tried[|tried| - 1]
    ensures Search(AsSet(rows), q, floor, tried)
  {
    hide ValidDraw, Distinct, AsSet;
    cap := floor;
    d := SampleAll(rows, q, cap);
    tried := [d];
    while Size(d) < Needed(q) && cap < upper
      invariant floor <= cap <= Max(floor, upper)
      invariant |tried| == cap - floor + 1 && d == tried[|tried| - 1]
      invariant Search(AsSet(rows), q, floor, tried)
      decreases upper - cap
    {
      hide Search;
      cap := cap + 1;
      d := SampleAll(rows, q, cap);
      SearchGoesOn(AsSet(rows), q, floor, tried, d);
      tried := tried + [d];
    }
  }

  /**
    The quota is widened one by one from the floor. The search stops at the first draw that
    meets the request, or at max(floor, size of the largest trace) when none does.
   */
  method Build(rows: seq<Row>, q: Request, maxPerTrace: int)
    returns (r: Result<(int, Draw), Error>, ghost tried: seq<Draw>)
    requires Distinct(rows)
    ensures rows == [] ==> r == Err(EmptyPool)
    ensures rows != [] ==> r.Ok?
    ensures r.Ok? ==>
              var (cap, d) := r.value; var floor := CapFloor(AsSet(rows), q, maxPerTrace);
              && |tried| == cap - floor + 1 && |tried| > 0 && d == tried[|tried| - 1]
              && Search(AsSet(rows), q, floor, tried)
              && (Size(d) < q.clean + q.nearMiss + q.hedged ==>
                    exists upper: nat :: LargestIs(AsSet(rows), upper) && cap == Max(floor, upper))
  {
    hide Search, LargestIs, CapFloor, Distinct, AsSet;
    tried := [];
    if rows == [] {
      return Err(EmptyPool), tried;
    }
    var floor := CapFloor(AsSet(rows), q, maxPerTrace);
    var upper := LargestTrace(rows);
    var cap, d;
    cap, d, tried := Widen(rows, q, floor, upper);
    r := Ok((cap, d));
  }
}
