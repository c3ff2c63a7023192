/**
  Which quotas can meet a request for a benchmark, and when the quota that the search discloses is the smallest of
  them (evals/claim_benchmark/build_benchmark.py).
 */
module FeasibleQuota {
  import opened BenchmarkBuild
  import opened DrawTotals
  import opened Finite
  import opened QuotaSampling

  // ----- Which quotas can meet a request -------------------------------------

  /** Some shuffle meets the request under this quota. */
  ghost predicate Feasible(rows: set<Row>, q: Request, cap: int) {
    exists d :: ValidDraw(rows, q, cap, d) && Size(d) >= Needed(q)
  }

  lemma WithinWider(rows: set<Row>, cap: int, cap': int)
    requires WithinCap(rows, cap) && cap <= cap'
    ensures WithinCap(rows, cap')
  {
    forall t ensures |Of(rows, t)| <= Max(cap', 0) {
    }
  }

  /** A subset that is complete under its quota is complete under any in which its rows fit. */
  lemma CompleteStays(drawn: seq<Row>, n: nat, stock: set<Row>, cap: int, taken: set<Row>)
    requires Distinct(drawn) && AsSet(drawn) <= stock && stock !! taken && |drawn| == n
    requires WithinCap(taken + AsSet(drawn), cap)
    ensures Drawn(drawn, n, stock, cap, taken)
  {
    hide Capacity, WithinCap;
    StagedWithin(drawn, stock, cap, taken);
  }

  /** A draw that meets a request meets it under every wider quota too. */
  lemma MeetingDrawStays(rows: set<Row>, q: Request, cap: int, cap': int, d: Draw)
    requires q.clean >= 0 && q.nearMiss >= 0 && q.hedged >= 0 && cap <= cap'
    requires ValidDraw(rows, q, cap, d) && Size(d) >= Needed(q)
    ensures ValidDraw(rows, q, cap', d)
  {
    hide Capacity, WithinCap;
    var near, hedged := AsSet(d.nearMiss), AsSet(d.hedged);
    WithinWider(All(d), cap, cap');
    WithinSmaller(near + hedged, All(d), cap');
    WithinSmaller(near, All(d), cap');
    assert {} + near == near;
    CompleteStays(d.nearMiss, q.nearMiss, NearMisses(rows), cap', {});
    CompleteStays(d.hedged, q.hedged, Hedged(rows) - near, cap', near);
    CompleteStays(d.clean, q.clean, rows - (near + hedged), cap', near + hedged);
  }

  // ----- The exact condition -------------------------------------------------

  /** Adding the capacities of two stocks counts no unit of their union less than once. */
  lemma CapacityOfUnion(a: set<Row>, b: set<Row>, cap: int)
    ensures Capacity(a + b, cap, {}) <= Capacity(a, cap, {}) + Capacity(b, cap, {})
  {
    hide Capacity, Traces, Shares;
    var ts := Traces(a + b) + Traces(a) + Traces(b);
    SharesOver(ts, a + b, cap, {});
    SharesOver(ts, a, cap, {});
    SharesOver(ts, b, cap, {});
    SharesOfUnion(ts, a, b, cap);
  }

  lemma {:induction false} SharesOfUnion(ts: set<string>, a: set<Row>, b: set<Row>, cap: int)
    ensures Shares(ts, a + b, cap, {}) <= Shares(ts, a, cap, {}) + Shares(ts, b, cap, {})
    decreases ts
  {
    if ts != {} {
      var t :| t in ts;
      SharesSplit(ts, t, a + b, cap, {});
      SharesSplit(ts, t, a, cap, {});
      SharesSplit(ts, t, b, cap, {});
      SharesOfUnion(ts - {t}, a, b, cap);
      assert Of(a + b, t) == Of(a, t) + Of(b, t);
    }
  }

  /**
    Four counts: the near misses and whatever else is asked, the hedged rows and whatever else is asked, both kinds
    together and the clean rows, and all rows. A count below zero asks for nothing.
   */
  ghost predicate Meets(rows: set<Row>, q: Request, cap: int) {
    var n, h, c := Max(q.nearMiss, 0), Max(q.hedged, 0), Max(q.clean, 0);
    && Needed(q) <= Capacity(NearMisses(rows), cap, {}) + h + c
    && Needed(q) <= n + Capacity(Hedged(rows), cap, {}) + c
    && Needed(q) <= Capacity(NearMisses(rows) + Hedged(rows), cap, {}) + c
    && Needed(q) <= Capacity(rows, cap, {})
  }

  /** Some shuffle meets the request exactly when the four counts allow it. */
  lemma FeasibleIff(rows: set<Row>, q: Request, cap: int)
    ensures Feasible(rows, q, cap) <==> Meets(rows, q, cap)
  {
    hide ValidDraw, Capacity, IsLeast, NearMisses, Hedged;
    var lo := Extremes(rows, q, cap);
    TotalRange(rows, q, cap, lo);
    CapacityOfUnion(NearMisses(rows), Hedged(rows), cap);
  }

  /** For counts that are not negative: each subset for itself, the two special ones together, and all three. */
  lemma FeasibleInCounts(rows: set<Row>, q: Request, cap: int)
    requires q.clean >= 0 && q.nearMiss >= 0 && q.hedged >= 0
    ensures Feasible(rows, q, cap) <==>
              && q.nearMiss <= Capacity(NearMisses(rows), cap, {})
              && q.hedged <= Capacity(Hedged(rows), cap, {})
              && q.nearMiss + q.hedged <= Capacity(NearMisses(rows) + Hedged(rows), cap, {})
              && q.clean + q.nearMiss + q.hedged <= Capacity(rows, cap, {})
  {
    hide Capacity, NearMisses, Hedged, Feasible;
    FeasibleIff(rows, q, cap);
  }

  lemma FeasibleGrows(rows: set<Row>, q: Request, cap: int, cap': int)
    requires cap <= cap' && Feasible(rows, q, cap)
    ensures Feasible(rows, q, cap')
  {
    hide Capacity, Feasible, NearMisses, Hedged;
    FeasibleIff(rows, q, cap);
    FeasibleIff(rows, q, cap');
    MoreRows(rows, rows, cap, cap', {}, {});
    MoreRows(NearMisses(rows), NearMisses(rows), cap, cap', {}, {});
    MoreRows(Hedged(rows), Hedged(rows), cap, cap', {}, {});
    MoreRows(NearMisses(rows) + Hedged(rows), NearMisses(rows) + Hedged(rows), cap, cap', {}, {});
  }

  // ----- What the search discloses -------------------------------------------

  /** The least quota under which some shuffle meets the request. */
  ghost predicate IsSmallest(rows: set<Row>, q: Request, cap: int) {
    Feasible(rows, q, cap) && forall c :: c < cap ==> !Feasible(rows, q, c)
  }

  /** Whether a quota is the smallest is decided by the counts for it and for the next smaller one. */
  lemma SmallestIff(rows: set<Row>, q: Request, cap: int)
    ensures IsSmallest(rows, q, cap) <==> Meets(rows, q, cap) && !Meets(rows, q, cap - 1)
  {
    hide Feasible, Meets;
    FeasibleIff(rows, q, cap);
    FeasibleIff(rows, q, cap - 1);
    forall c | c < cap && Feasible(rows, q, c) ensures Feasible(rows, q, cap - 1) {
      FeasibleGrows(rows, q, c, cap - 1);
    }
  }

  /** A search that starts above the default and succeeds at once has found the smallest quota. */
  lemma FirstQuotaIsSmallest(rows: set<Row>, q: Request, maxPerTrace: nat, d: Draw)
    requires |Traces(rows)| > 0 && CapFloor(rows, q, maxPerTrace) > maxPerTrace
    requires ValidDraw(rows, q, CapFloor(rows, q, maxPerTrace), d) && Size(d) >= Needed(q)
    ensures IsSmallest(rows, q, CapFloor(rows, q, maxPerTrace))
  {
    hide ValidDraw;
    var floor := CapFloor(rows, q, maxPerTrace);
    forall c | c < floor && Feasible(rows, q, c) ensures false {
      FeasibleGrows(rows, q, c, floor - 1);
      var e :| ValidDraw(rows, q, floor - 1, e) && Size(e) >= Needed(q);
      BelowAverageFallsShort(rows, q, floor - 1, e);
    }
  }

  /** The reason given for widening, that the default times the traces is too little, is true exactly when the search starts above the default. */
  lemma DisclosedReasonIff(rows: set<Row>, q: Request, maxPerTrace: int)
    requires |Traces(rows)| > 0
    ensures |Traces(rows)| * maxPerTrace < Needed(q) <==> CapFloor(rows, q, maxPerTrace) > maxPerTrace
  {
    var n, floor := |Traces(rows)|, CapFloor(rows, q, maxPerTrace);
    if floor > maxPerTrace {
      Multiply(n, maxPerTrace, floor - 1);
    }
  }

  // ----- A disclosure that is wrong ------------------------------------------

  /** Two traces, the near misses `a` and `b`, and the hedged row `h` in the trace of `a`; one of each kind is asked for. */
  lemma OneEach(a: Row, b: Row, h: Row)
    requires a.nearMiss && b.nearMiss && h.hedged && !a.hedged && !b.hedged && !h.nearMiss
    requires a.trace == h.trace && b.trace != h.trace
    ensures var rows := {a, b, h}; var q := Request(0, 1, 1);
            && Traces(rows) == {a.trace, b.trace} && |Traces(rows)| == 2 && CapFloor(rows, q, 1) == 1
            && LargestIs(rows, 2) && IsSmallest(rows, q, 1)
  {
    hide Capacity, Traces, CapFloor, LargestIs, Feasible, Meets, NearMisses, Hedged;
    TwoTraces(a, b, h);
    OneIsFeasible(a, b, h);
    FeasibleIff({a, b, h}, Request(0, 1, 1), 1);
    NoneUnderZero({a, b, h}, Request(0, 1, 1));
    SmallestIff({a, b, h}, Request(0, 1, 1), 1);
  }

  lemma TwoTraces(a: Row, b: Row, h: Row)
    requires a.trace == h.trace && b.trace != h.trace && a != h
    ensures var rows := {a, b, h};
            && Traces(rows) == {a.trace, b.trace} && |Traces(rows)| == 2
            && CapFloor(rows, Request(0, 1, 1), 1) == 1 && LargestIs(rows, 2)
  {
    hide CapFloor, LargestIs;
    TracesOfTwo(a, b, h);
    FloorOfTwo({a, b, h}, Request(0, 1, 1));
    LargestOfTwo(a, b, h);
  }

  lemma TracesOfTwo(a: Row, b: Row, h: Row)
    requires a.trace == h.trace && b.trace != h.trace
    ensures Traces({a, b, h}) == {a.trace, b.trace} && |{a.trace, b.trace}| == 2
  {
  }

  lemma FloorOfTwo(rows: set<Row>, q: Request)
    requires |Traces(rows)| == 2 && Needed(q) == 2
    ensures CapFloor(rows, q, 1) == 1
  {
    hide CapFloor, Traces;
    var r := CapFloor(rows, q, 1);
    assert r > 1 ==> 2 * (r - 1) < 2;
  }

  lemma LargestOfTwo(a: Row, b: Row, h: Row)
    requires a.trace == h.trace && b.trace != h.trace && a != h
    ensures LargestIs({a, b, h}, 2)
  {
    var rows := {a, b, h};
    assert Of(rows, a.trace) == {a, h};
    forall t ensures |Of(rows, t)| <= 2 {
      if t == b.trace {
        SubsetSize(Of(rows, t), {b});
      } else {
        SubsetSize(Of(rows, t), {a, h});
      }
    }
  }

  lemma OneIsFeasible(a: Row, b: Row, h: Row)
    requires a.nearMiss && b.nearMiss && h.hedged && !a.hedged && !b.hedged && !h.nearMiss
    requires a.trace == h.trace && b.trace != h.trace
    ensures Feasible({a, b, h}, Request(0, 1, 1), 1)
  {
    hide Capacity, Feasible, NearMisses, Hedged;
    TwoNearMisses(a, b, h);
    OnePerTrace(b, h);
    MoreRows({h}, {h}, 1, 1, {b}, {});
    assert {a, b} + {h} == {a, b, h};
    FeasibleInCounts({a, b, h}, Request(0, 1, 1), 1);
  }

  lemma NoneUnderZero(rows: set<Row>, q: Request)
    requires Needed(q) > 0
    ensures !Meets(rows, q, 0)
  {
    hide Capacity;
    if Capacity(rows, 0, {}) > 0 {
      var r := SomeAllowed(rows, 0, {});
      assert false;
    }
  }

  /** What the two samplers take when `a` comes first in its shuffle. */
  lemma TakesNear(a: Row, b: Row, h: Row, cap: int)
    requires a != h && a.trace == h.trace && 1 <= cap <= 2
    ensures Take([a, b], 1, cap, {}) == [a] && Take([h], 1, cap, {a}) == (if cap == 1 then [] else [h])
  {
    OneOf(a, h.trace);
    assert Of({}, a.trace) == {};
    assert [a, b][1..] == [b] && [h][1..] == [];
    assert Take([b], 0, cap, {} + {a}) == [];
  }

  lemma DrawnNear(a: Row, b: Row, h: Row, cap: int)
    requires a != b && h != a && a.trace == h.trace && 1 <= cap <= 2
    ensures Drawn([a], 1, {a, b}, cap, {}) && Drawn(if cap == 1 then [] else [h], 1, {h}, cap, {a})
  {
    hide Drawn, Take;
    TakesNear(a, b, h, cap);
    TakeIsDrawn([a, b], 1, cap, {});
    TakeIsDrawn([h], 1, cap, {a});
    assert AsSet([a, b]) == {a, b} && AsSet([h]) == {h};
  }

  lemma DrawAfterNear(a: Row, b: Row, h: Row, cap: int)
    requires a.nearMiss && b.nearMiss && h.hedged && !a.hedged && !b.hedged && !h.nearMiss
    requires a.trace == h.trace && b.trace != h.trace && 1 <= cap <= 2
    ensures ValidDraw({a, b, h}, Request(0, 1, 1), cap, Draw([], [a], if cap == 1 then [] else [h]))
  {
    hide Drawn, WithinCap;
    var rows, hedged := {a, b, h}, if cap == 1 then [] else [h];
    DrawnNear(a, b, h, cap);
    assert NearMisses(rows) == {a, b} && AsSet([a]) == {a} && Hedged(rows) - {a} == {h};
    assert AsSet(hedged) == (if cap == 1 then {} else {h}) && AsSet([]) == {};
    var drawn := {a} + AsSet(hedged);
    NoCleanRows(rows - drawn, cap, drawn);
    assert All(Draw([], [a], hedged)) == drawn == if cap == 1 then {a} else {a, h};
    WithinTwo(a, h, drawn, cap);
  }

  lemma NoCleanRows(stock: set<Row>, cap: int, taken: set<Row>)
    ensures Drawn([], 0, stock, cap, taken)
  {
    hide Capacity;
    NothingStaged(stock, cap, taken);
  }

  lemma WithinTwo(a: Row, h: Row, drawn: set<Row>, cap: int)
    requires drawn == (if cap == 1 then {a} else {a, h}) && 1 <= cap <= 2
    ensures WithinCap(drawn, cap)
  {
    forall t ensures |Of(drawn, t)| <= cap {
      SubsetSize(Of(drawn, t), drawn);
    }
  }

  /**
    With a default of one row per trace, the search takes the near miss `a` twice, under the same shuffles, and ends
    with a quota of 2. It is disclosed as the smallest, because 1 row in each of 2 traces were too little for 2. But
    another shuffle meets the request under a quota of 1, and 1 * 2 is not less than 2.
   */
  lemma DisclosureMisleads(a: Row, b: Row, h: Row)
    requires a.nearMiss && b.nearMiss && h.hedged && !a.hedged && !b.hedged && !h.nearMiss
    requires a.trace == h.trace && b.trace != h.trace
    ensures var rows := {a, b, h}; var q := Request(0, 1, 1);
            var tried := [Draw([], [a], []), Draw([], [a], [h])];
            && Search(rows, q, CapFloor(rows, q, 1), tried) && Size(tried[1]) == Needed(q) && LargestIs(rows, 2)
            && (forall i :: 0 <= i < 2 ==>
                  tried[i].nearMiss == Take([a, b], 1, 1 + i, {}) && tried[i].hedged == Take([h], 1, 1 + i, {a}))
            && IsSmallest(rows, q, 1) && !IsSmallest(rows, q, 2)
            && !(|Traces(rows)| * 1 < Needed(q))
  {
    hide ValidDraw, Feasible, LargestIs, Take, CapFloor, Traces;
    OneEach(a, b, h);
    TakesNear(a, b, h, 1);
    TakesNear(a, b, h, 2);
    DrawAfterNear(a, b, h, 1);
    DrawAfterNear(a, b, h, 2);
  }
}
