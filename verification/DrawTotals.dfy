/**
  How many rows a complete draw of the benchmark holds (evals/claim_benchmark/build_benchmark.py), and when the
  shuffle can change it.
 */
module DrawTotals {
  import opened BenchmarkBuild
  import opened Finite
  import opened QuotaSampling

  // ----- Every near-miss set has its draw ------------------------------------

  lemma {:induction false} InSomeOrder(rows: set<Row>) returns (s: seq<Row>)
    ensures Distinct(s) && AsSet(s) == rows
    decreases rows
  {
    if rows == {} {
      s := [];
    } else {
      var r :| r in rows;
      var rest := InSomeOrder(rows - {r});
      Prepend(r, rest);
      s := [r] + rest;
    }
  }

  /** Rows within the cap waste no capacity of the stock they come from. */
  lemma StagedWithin(drawn: seq<Row>, stock: set<Row>, cap: int, taken: set<Row>)
    requires Distinct(drawn) && AsSet(drawn) <= stock && stock !! taken && WithinCap(taken + AsSet(drawn), cap)
    ensures Staged(drawn, stock, cap, taken)
  {
    hide Capacity, WithinCap;
    var rows, both := stock + taken, taken + AsSet(drawn);
    WithinSmaller(taken, both, cap);
    CapacityAfter(rows, taken, cap);
    CapacityAfter(rows, both, cap);
    SizeOfSet(drawn);
    assert rows - taken == stock && rows - both == stock - AsSet(drawn);
    assert |both| == |taken| + |AsSet(drawn)|;
  }

  // ----- Draws and shuffles --------------------------------------------------

  /** Some shuffle of the stock draws these rows. */
  ghost predicate Shuffled(picked: seq<Row>, n: int, stock: set<Row>, cap: int, taken: set<Row>) {
    exists pool :: Distinct(pool) && AsSet(pool) == stock && Take(pool, n, cap, taken) == picked
  }

  /** A shuffle that begins with rows the quota allows draws them first. */
  lemma {:induction false} TakeFirst(first: seq<Row>, rest: seq<Row>, n: int, cap: int, taken: set<Row>)
    requires Distinct(first) && AsSet(first) !! taken && WithinCap(taken + AsSet(first), cap) && |first| <= Max(n, 0)
    ensures Take(first + rest, n, cap, taken) == first + Take(rest, n - |first|, cap, taken + AsSet(first))
    decreases |first|
  {
    hide WithinCap;
    if first == [] {
      assert first + rest == rest && taken + AsSet(first) == taken;
    } else {
      hide Take, AsSet, Distinct, Of;
      var r, tail := first[0], first[1..];
      SplitFirst(first);
      TakenInTurn(taken, r, AsSet(tail));
      AllowedFirst(r, taken, taken + AsSet(first), cap);
      TakeFirst(tail, rest, n - 1, cap, taken + {r});
      TakeOne(r, tail + rest, n, cap, taken);
      Regroup(first, rest);
      Regroup(first, Take(rest, n - |first|, cap, taken + AsSet(first)));
    }
  }

  lemma Regroup(first: seq<Row>, rest: seq<Row>)
    requires first != []
    ensures [first[0]] + (first[1..] + rest) == first + rest
  {
  }

  lemma TakenInTurn(taken: set<Row>, r: Row, others: set<Row>)
    ensures taken + ({r} + others) == taken + {r} + others
  {
  }

  lemma SplitFirst(first: seq<Row>)
    requires first != [] && Distinct(first)
    ensures Distinct(first[1..]) && AsSet(first) == {first[0]} + AsSet(first[1..]) && first[0] !in AsSet(first[1..])
  {
    SplitPool(first);
    assert first[0] in AsSet(first);
  }

  lemma TakeOne(r: Row, rest: seq<Row>, n: int, cap: int, taken: set<Row>)
    requires n > 0 && |Of(taken, r.trace)| < cap
    ensures Take([r] + rest, n, cap, taken) == [r] + Take(rest, n - 1, cap, taken + {r})
  {
    assert ([r] + rest)[1..] == rest;
  }

  lemma AllowedFirst(r: Row, taken: set<Row>, all: set<Row>, cap: int)
    requires r !in taken && r in all && taken <= all && WithinCap(all, cap)
    ensures |Of(taken, r.trace)| < cap
  {
    OfMore(taken, r);
    OfSmaller(taken + {r}, all, r.trace);
  }

  /** Exactly the largest draws within the cap come out of a shuffle. */
  lemma ShuffledIff(picked: seq<Row>, n: int, stock: set<Row>, cap: int, taken: set<Row>)
    requires stock !! taken && WithinCap(taken, cap)
    ensures Shuffled(picked, n, stock, cap, taken)
            <==> Drawn(picked, n, stock, cap, taken) && WithinCap(taken + AsSet(picked), cap)
  {
    hide WithinCap, Capacity, Drawn, Take;
    if pool :| Distinct(pool) && AsSet(pool) == stock && Take(pool, n, cap, taken) == picked {
      TakeIsDrawn(pool, n, cap, taken);
      TakeWithinCap(pool, n, cap, taken);
    }
    if Drawn(picked, n, stock, cap, taken) && WithinCap(taken + AsSet(picked), cap) {
      ShuffleOf(picked, n, stock, cap, taken);
    }
  }

  /** The shuffle that puts the rows in front. */
  lemma ShuffleOf(picked: seq<Row>, n: int, stock: set<Row>, cap: int, taken: set<Row>)
    requires stock !! taken && Drawn(picked, n, stock, cap, taken) && WithinCap(taken + AsSet(picked), cap)
    ensures Shuffled(picked, n, stock, cap, taken)
  {
    hide WithinCap, Capacity, Take;
    var rest := InSomeOrder(stock - AsSet(picked));
    JoinDraws(picked, rest);
    assert AsSet(picked + rest) == stock;
    TakeFirst(picked, rest, n, cap, taken);
    TakeSize(rest, n - |picked|, cap, taken + AsSet(picked));
    assert Take(picked + rest, n, cap, taken) == picked;
  }

  /**
    The near misses and the hedged rows of a draw are what two shuffles give; the clean rows are any largest draw
    from the rest, so of them only the number is fixed.
   */
  lemma ValidDrawIff(rows: set<Row>, q: Request, cap: int, d: Draw)
    ensures var near, hedged := AsSet(d.nearMiss), AsSet(d.hedged);
            ValidDraw(rows, q, cap, d) <==>
              && Shuffled(d.nearMiss, q.nearMiss, NearMisses(rows), cap, {})
              && Shuffled(d.hedged, q.hedged, Hedged(rows) - near, cap, near)
              && Drawn(d.clean, q.clean, rows - (near + hedged), cap, near + hedged)
              && WithinCap(All(d), cap)
  {
    hide WithinCap, Shuffled, Drawn;
    var near, hedged := AsSet(d.nearMiss), AsSet(d.hedged);
    NothingTaken(cap);
    ShuffledIff(d.nearMiss, q.nearMiss, NearMisses(rows), cap, {});
    assert {} + near == near;
    if WithinCap(All(d), cap) {
      WithinSmaller(near, All(d), cap);
      WithinSmaller(near + hedged, All(d), cap);
      ShuffledIff(d.hedged, q.hedged, Hedged(rows) - near, cap, near);
    }
  }

  // ----- Near misses and what they leave -------------------------------------

  ghost function NearCount(rows: set<Row>, q: Request, cap: int): int {
    Min(Max(q.nearMiss, 0), Capacity(NearMisses(rows), cap, {}))
  }

  /** The rows that some shuffle draws as near misses (the order aside). */
  ghost predicate NearDraw(rows: set<Row>, q: Request, cap: int, near: set<Row>) {
    near <= NearMisses(rows) && WithinCap(near, cap) && |near| == NearCount(rows, q, cap)
  }

  /** How many hedged rows can then be drawn. */
  ghost function HedgedCount(rows: set<Row>, q: Request, cap: int, near: set<Row>): int {
    Min(Max(q.hedged, 0), Capacity(Hedged(rows) - near, cap, near))
  }

  ghost function TotalOf(rows: set<Row>, q: Request, cap: int, hedged: int): int {
    Min(NearCount(rows, q, cap) + hedged + Max(q.clean, 0), Capacity(rows, cap, {}))
  }

  /** The total follows from the near misses drawn. */
  lemma TotalOfDraw(rows: set<Row>, q: Request, cap: int, d: Draw)
    requires ValidDraw(rows, q, cap, d)
    ensures NearDraw(rows, q, cap, AsSet(d.nearMiss))
    ensures Size(d) == TotalOf(rows, q, cap, HedgedCount(rows, q, cap, AsSet(d.nearMiss)))
  {
    hide Capacity, WithinCap;
    CleanSize(rows, q, cap, d);
    SizeOfSet(d.nearMiss);
    WithinSmaller(AsSet(d.nearMiss), All(d), cap);
  }

  /** One more sampler on top of what is taken. */
  lemma DrawFrom(stock: set<Row>, n: int, cap: int, taken: set<Row>) returns (drawn: seq<Row>)
    requires stock !! taken && WithinCap(taken, cap)
    ensures Drawn(drawn, n, stock, cap, taken) && WithinCap(taken + AsSet(drawn), cap)
  {
    hide Drawn, WithinCap, Take;
    var pool := InSomeOrder(stock);
    drawn := Take(pool, n, cap, taken);
    TakeIsDrawn(pool, n, cap, taken);
    TakeWithinCap(pool, n, cap, taken);
  }

  lemma NearDrawIsDrawn(rows: set<Row>, q: Request, cap: int, near: seq<Row>)
    requires Distinct(near) && NearDraw(rows, q, cap, AsSet(near))
    ensures Drawn(near, q.nearMiss, NearMisses(rows), cap, {})
  {
    hide Capacity, WithinCap;
    assert {} + AsSet(near) == AsSet(near);
    StagedWithin(near, NearMisses(rows), cap, {});
    SizeOfSet(near);
  }

  /** And every near-miss draw is completed by some shuffle of the rest. */
  lemma DrawOfNear(rows: set<Row>, q: Request, cap: int, near: set<Row>) returns (d: Draw)
    requires NearDraw(rows, q, cap, near)
    ensures ValidDraw(rows, q, cap, d) && AsSet(d.nearMiss) == near
  {
    hide Drawn, WithinCap, NearCount;
    var s := InSomeOrder(near);
    NearDrawIsDrawn(rows, q, cap, s);
    var hedged := DrawFrom(Hedged(rows) - near, q.hedged, cap, near);
    var both := near + AsSet(hedged);
    var clean := DrawFrom(rows - both, q.clean, cap, both);
    d := Draw(clean, s, hedged);
  }

  lemma SomeNearDraw(rows: set<Row>, q: Request, cap: int) returns (near: set<Row>)
    ensures NearDraw(rows, q, cap, near)
  {
    hide Capacity;
    NothingTaken(cap);
    var drawn := DrawFrom(NearMisses(rows), q.nearMiss, cap, {});
    SizeOfSet(drawn);
    near := AsSet(drawn);
    assert {} + near == near;
  }

  lemma NothingTaken(cap: int)
    ensures WithinCap({}, cap)
  {
    forall t ensures |Of({}, t)| <= Max(cap, 0) {
      assert Of({}, t) == {};
    }
  }

  // ----- When the total is fixed ---------------------------------------------

  /** Whatever the shuffles, the draw has one size. */
  ghost predicate TotalIsFixed(rows: set<Row>, q: Request, cap: int) {
    forall d, e :: ValidDraw(rows, q, cap, d) && ValidDraw(rows, q, cap, e) ==> Size(d) == Size(e)
  }

  /** The least number of hedged rows any near-miss draw leaves. */
  ghost predicate IsLeast(rows: set<Row>, q: Request, cap: int, lo: int) {
    && (exists near :: NearDraw(rows, q, cap, near) && HedgedCount(rows, q, cap, near) == lo)
    && forall near :: NearDraw(rows, q, cap, near) ==> lo <= HedgedCount(rows, q, cap, near)
  }

  ghost predicate IsGreatest(rows: set<Row>, q: Request, cap: int, hi: int) {
    && (exists near :: NearDraw(rows, q, cap, near) && HedgedCount(rows, q, cap, near) == hi)
    && forall near :: NearDraw(rows, q, cap, near) ==> HedgedCount(rows, q, cap, near) <= hi
  }

  lemma {:induction false} LeastBelow(rows: set<Row>, q: Request, cap: int, near: set<Row>) returns (lo: int)
    requires NearDraw(rows, q, cap, near)
    ensures IsLeast(rows, q, cap, lo)
    decreases HedgedCount(rows, q, cap, near)
  {
    hide NearDraw, HedgedCount;
    if other :| NearDraw(rows, q, cap, other) && HedgedCount(rows, q, cap, other) < HedgedCount(rows, q, cap, near) {
      NoNegativeCount(rows, q, cap, other);
      lo := LeastBelow(rows, q, cap, other);
    } else {
      lo := HedgedCount(rows, q, cap, near);
    }
  }

  lemma NoNegativeCount(rows: set<Row>, q: Request, cap: int, near: set<Row>)
    ensures 0 <= HedgedCount(rows, q, cap, near) <= Max(q.hedged, 0)
  {
    hide Capacity;
  }

  // ----- The greatest hedged count -------------------------------------------

  /** What is left of the near misses and hedged rows together, less the near misses drawn, bounds the hedged rows. */
  ghost function MostHedged(rows: set<Row>, q: Request, cap: int): int {
    Min(Max(q.hedged, 0), RoomForHedged(rows, cap, NearCount(rows, q, cap)))
  }

  ghost function RoomForHedged(rows: set<Row>, cap: int, near: int): int {
    Min(Capacity(Hedged(rows), cap, {}), Capacity(NearMisses(rows) + Hedged(rows), cap, {}) - near)
  }

  lemma {:induction false} SharesOver(ts: set<string>, rows: set<Row>, cap: int, taken: set<Row>)
    requires Traces(rows) <= ts
    ensures Shares(ts, rows, cap, taken) == Capacity(rows, cap, taken)
    decreases ts
  {
    if ts != Traces(rows) {
      var t :| t in ts && t !in Traces(rows);
      SharesSplit(ts, t, rows, cap, taken);
      assert Of(rows, t) == {};
      SharesOver(ts - {t}, rows, cap, taken);
    }
  }

  lemma {:induction false} SharesAtMost(ts: set<string>, rows: set<Row>, cap: int, taken: set<Row>,
                                        rows': set<Row>, cap': int, taken': set<Row>)
    requires forall t :: t in ts ==> Share(rows, cap, taken, t) <= Share(rows', cap', taken', t)
    ensures Shares(ts, rows, cap, taken) <= Shares(ts, rows', cap', taken')
    decreases ts
  {
    hide Share;
    if ts != {} {
      var t :| t in ts;
      SharesSplit(ts, t, rows, cap, taken);
      SharesSplit(ts, t, rows', cap', taken');
      SharesAtMost(ts - {t}, rows, cap, taken, rows', cap', taken');
    }
  }

  /** Capacities compare as their shares do. */
  lemma CapacityAtMost(rows: set<Row>, cap: int, taken: set<Row>, rows': set<Row>, cap': int, taken': set<Row>)
    requires forall t :: Share(rows, cap, taken, t) <= Share(rows', cap', taken', t)
    ensures Capacity(rows, cap, taken) <= Capacity(rows', cap', taken')
  {
    hide Share, Traces, Shares, Capacity;
    var ts := Traces(rows) + Traces(rows');
    SharesOver(ts, rows, cap, taken);
    SharesOver(ts, rows', cap', taken');
    SharesAtMost(ts, rows, cap, taken, rows', cap', taken');
  }

  lemma MoreRows(rows: set<Row>, rows': set<Row>, cap: int, cap': int, taken: set<Row>, taken': set<Row>)
    requires rows <= rows' && cap <= cap' && taken' <= taken
    ensures Capacity(rows, cap, taken) <= Capacity(rows', cap', taken')
  {
    hide Capacity;
    forall t ensures Share(rows, cap, taken, t) <= Share(rows', cap', taken', t) {
      OfSmaller(rows, rows', t);
      OfSmaller(taken', taken, t);
    }
    CapacityAtMost(rows, cap, taken, rows', cap', taken');
  }

  /** A row drawn elsewhere costs a stock at most one unit. */
  lemma CostsOne(stock: set<Row>, r: Row, cap: int, taken: set<Row>)
    requires r !in taken && |Of(taken, r.trace)| < cap
    ensures Capacity(stock - {r}, cap, taken + {r}) >= Capacity(stock, cap, taken) - 1
  {
    hide Capacity;
    var more := stock + {r};
    DrawnRow(more, r, cap, taken);
    assert more - {r} == stock - {r};
    MoreRows(stock, more, cap, cap, taken, taken);
  }

  /** Where capacity is left, some row can be drawn. */
  lemma SomeAllowed(stock: set<Row>, cap: int, taken: set<Row>) returns (r: Row)
    requires Capacity(stock, cap, taken) > 0
    ensures r in stock && |Of(taken, r.trace)| < cap
  {
    hide Capacity;
    if forall r :: r in stock ==> |Of(taken, r.trace)| >= cap {
      forall t ensures Share(stock, cap, taken, t) <= Share({}, cap, taken, t) {
        if s :| s in Of(stock, t) {
          assert s in stock;
        }
      }
      CapacityAtMost(stock, cap, taken, {}, cap, taken);
      EmptyCapacity(cap, taken);
      assert false;
    }
    r :| r in stock && |Of(taken, r.trace)| < cap;
  }

  /** If some capacity is of no use to the smaller stock, a row outside it can be drawn at no cost to it. */
  lemma FreeRow(small: set<Row>, large: set<Row>, cap: int, taken: set<Row>) returns (r: Row)
    requires small <= large && large !! taken && Capacity(small, cap, taken) < Capacity(large, cap, taken)
    ensures r in large - small && |Of(taken, r.trace)| < cap
    ensures Capacity(small, cap, taken + {r}) == Capacity(small, cap, taken)
  {
    hide Capacity;
    if forall t :: Share(large, cap, taken, t) <= Share(small, cap, taken, t) {
      CapacityAtMost(large, cap, taken, small, cap, taken);
      assert false;
    }
    var t :| Share(large, cap, taken, t) > Share(small, cap, taken, t);
    OfSmaller(small, large, t);
    assert |Of(small, t)| < |Of(large, t)| && |Of(small, t)| < cap - |Of(taken, t)|;
    if Of(large, t) <= Of(small, t) {
      SubsetSize(Of(large, t), Of(small, t));
      assert false;
    }
    r :| r in Of(large, t) && r !in Of(small, t);
    OfMore(taken, r);
    forall u ensures Share(small, cap, taken + {r}, u) == Share(small, cap, taken, u) {
      assert u != t ==> Of(taken + {r}, u) == Of(taken, u);
    }
    SharesAgree(Traces(small), small, taken + {r}, small, taken, cap);
    SameCapacity(small, cap, taken, taken + {r});
  }

  lemma SameCapacity(rows: set<Row>, cap: int, taken: set<Row>, taken': set<Row>)
    requires Shares(Traces(rows), rows, cap, taken') == Shares(Traces(rows), rows, cap, taken)
    ensures Capacity(rows, cap, taken') == Capacity(rows, cap, taken)
  {
  }

  /** No near misses leave more. */
  lemma HedgedBound(rows: set<Row>, cap: int, near: set<Row>)
    requires near <= NearMisses(rows) && WithinCap(near, cap)
    ensures Capacity(Hedged(rows) - near, cap, near) <= RoomForHedged(rows, cap, |near|)
  {
    hide Capacity, WithinCap, NearMisses, Hedged;
    var hedged, all := Hedged(rows), NearMisses(rows) + Hedged(rows);
    MoreRows(hedged - near, hedged, cap, cap, near, {});
    MoreRows(hedged - near, all - near, cap, cap, near, near);
    CapacityAfter(all, near, cap);
  }

  /**
    Some near misses leave that much: drawn one by one, each costs the hedged rows nothing as long as the near misses
    have capacity of their own, and at most one unit afterwards.
   */
  lemma {:induction false} BestNear(rows: set<Row>, cap: int, k: nat) returns (near: set<Row>)
    requires k <= Capacity(NearMisses(rows), cap, {})
    ensures near <= NearMisses(rows) && WithinCap(near, cap) && |near| == k
    ensures Capacity(Hedged(rows) - near, cap, near) == RoomForHedged(rows, cap, k)
  {
    hide Capacity, WithinCap, NearMisses, Hedged;
    if k == 0 {
      near := {};
      NothingTaken(cap);
      assert Hedged(rows) - {} == Hedged(rows);
      MoreRows(Hedged(rows), NearMisses(rows) + Hedged(rows), cap, cap, {}, {});
    } else {
      var before := BestNear(rows, cap, k - 1);
      near := OneMoreNear(rows, cap, before);
      HedgedBound(rows, cap, near);
    }
  }

  lemma OneMoreNear(rows: set<Row>, cap: int, before: set<Row>) returns (near: set<Row>)
    requires before <= NearMisses(rows) && WithinCap(before, cap) && |before| < Capacity(NearMisses(rows), cap, {})
    requires Capacity(Hedged(rows) - before, cap, before) == RoomForHedged(rows, cap, |before|)
    ensures near <= NearMisses(rows) && WithinCap(near, cap) && |near| == |before| + 1
    ensures Capacity(Hedged(rows) - near, cap, near) >= RoomForHedged(rows, cap, |near|)
  {
    hide Capacity, WithinCap, NearMisses, Hedged;
    var hedged, all := Hedged(rows), NearMisses(rows) + Hedged(rows);
    CapacityAfter(all, before, cap);
    CapacityAfter(NearMisses(rows), before, cap);
    var r;
    if Capacity(hedged - before, cap, before) < Capacity(all - before, cap, before) {
      r := FreeRow(hedged - before, all - before, cap, before);
      assert hedged - before == hedged - (before + {r});
    } else {
      r := SomeAllowed(NearMisses(rows) - before, cap, before);
      CostsOne(hedged - before, r, cap, before);
      assert hedged - before - {r} == hedged - (before + {r});
    }
    near := before + {r};
    WithinAfter(before, r, cap);
  }

  /** The greatest hedged count, for every pool, request and quota. */
  lemma GreatestIs(rows: set<Row>, q: Request, cap: int)
    ensures IsGreatest(rows, q, cap, MostHedged(rows, q, cap))
  {
    hide Capacity, WithinCap, NearMisses, Hedged, RoomForHedged;
    var best := BestNear(rows, cap, NearCount(rows, q, cap));
    assert NearDraw(rows, q, cap, best);
    forall near | NearDraw(rows, q, cap, near) ensures HedgedCount(rows, q, cap, near) <= MostHedged(rows, q, cap) {
      HedgedBound(rows, cap, near);
    }
  }

  // ----- The range of the total ----------------------------------------------

  /** The least hedged count exists for every pool, request and quota, next to the greatest. */
  lemma Extremes(rows: set<Row>, q: Request, cap: int) returns (lo: int)
    ensures IsLeast(rows, q, cap, lo) && IsGreatest(rows, q, cap, MostHedged(rows, q, cap))
    ensures 0 <= lo <= MostHedged(rows, q, cap)
  {
    hide NearDraw, HedgedCount, MostHedged;
    var near := SomeNearDraw(rows, q, cap);
    lo := LeastBelow(rows, q, cap, near);
    GreatestIs(rows, q, cap);
    LeastIsNoNegative(rows, q, cap, lo);
  }

  /** Totals run from the one of the least to the one of the greatest hedged count, and both occur. */
  lemma TotalRange(rows: set<Row>, q: Request, cap: int, lo: int)
    requires IsLeast(rows, q, cap, lo)
    ensures var hi := MostHedged(rows, q, cap);
            && (forall d :: ValidDraw(rows, q, cap, d) ==>
                  TotalOf(rows, q, cap, lo) <= Size(d) <= TotalOf(rows, q, cap, hi))
            && (exists d :: ValidDraw(rows, q, cap, d) && Size(d) == TotalOf(rows, q, cap, lo))
            && (exists d :: ValidDraw(rows, q, cap, d) && Size(d) == TotalOf(rows, q, cap, hi))
  {
    hide ValidDraw, NearDraw, HedgedCount, NearCount, Capacity, MostHedged;
    GreatestIs(rows, q, cap);
    var hi := MostHedged(rows, q, cap);
    forall d | ValidDraw(rows, q, cap, d)
      ensures TotalOf(rows, q, cap, lo) <= Size(d) <= TotalOf(rows, q, cap, hi)
    {
      TotalOfDraw(rows, q, cap, d);
    }
    var low :| NearDraw(rows, q, cap, low) && HedgedCount(rows, q, cap, low) == lo;
    var d := DrawOfNear(rows, q, cap, low);
    TotalOfDraw(rows, q, cap, d);
    var high :| NearDraw(rows, q, cap, high) && HedgedCount(rows, q, cap, high) == hi;
    var e := DrawOfNear(rows, q, cap, high);
    TotalOfDraw(rows, q, cap, e);
  }

  /**
    The size of a draw is independent of the shuffle exactly when every near-miss draw leaves as many hedged rows as
    the most favourable one, or the clean rows asked for fill the capacity even after the fewest.
   */
  lemma TotalIsFixedIff(rows: set<Row>, q: Request, cap: int, lo: int)
    requires IsLeast(rows, q, cap, lo)
    ensures TotalIsFixed(rows, q, cap) <==>
              lo == MostHedged(rows, q, cap) || NearCount(rows, q, cap) + lo + Max(q.clean, 0) >= Capacity(rows, cap, {})
  {
    hide ValidDraw, IsLeast, IsGreatest, NearCount, Capacity, MostHedged;
    LeastIsLeast(rows, q, cap, lo);
    TotalRange(rows, q, cap, lo);
  }

  lemma LeastIsLeast(rows: set<Row>, q: Request, cap: int, lo: int)
    requires IsLeast(rows, q, cap, lo)
    ensures lo <= MostHedged(rows, q, cap)
  {
    hide NearDraw, HedgedCount, MostHedged;
    GreatestIs(rows, q, cap);
  }

  /** Then it is the capacity, or what was asked of all three with the hedged rows there are. */
  lemma CleanFills(rows: set<Row>, q: Request, cap: int)
    requires NearCount(rows, q, cap) + Max(q.clean, 0) >= Capacity(rows, cap, {})
    ensures TotalIsFixed(rows, q, cap)
  {
    hide NearDraw, HedgedCount, NearCount, Capacity, TotalIsFixed, MostHedged;
    var lo := Extremes(rows, q, cap);
    TotalIsFixedIff(rows, q, cap, lo);
  }

  lemma LeastIsNoNegative(rows: set<Row>, q: Request, cap: int, lo: int)
    requires IsLeast(rows, q, cap, lo)
    ensures lo >= 0
  {
    hide NearDraw, HedgedCount;
    var near :| NearDraw(rows, q, cap, near) && HedgedCount(rows, q, cap, near) == lo;
    NoNegativeCount(rows, q, cap, near);
  }

  /** No trace holds both a near miss and a hedged row. */
  ghost predicate KindsApart(rows: set<Row>) {
    forall r, s :: r in rows && s in rows && r.nearMiss && s.hedged ==> r.trace != s.trace
  }

  lemma ApartCapacity(rows: set<Row>, near: set<Row>, cap: int)
    requires KindsApart(rows) && near <= NearMisses(rows)
    ensures Capacity(Hedged(rows) - near, cap, near) == Capacity(Hedged(rows), cap, {})
  {
    var hedged := Hedged(rows);
    assert hedged - near == hedged;
    forall t | t in Traces(hedged) ensures Share(hedged, cap, near, t) == Share(hedged, cap, {}, t) {
      assert Of(near, t) == {} && Of({}, t) == {};
    }
    SharesAgree(Traces(hedged), hedged, near, hedged, {}, cap);
  }

  /** When no trace holds both kinds, the shuffle cannot change the total. */
  lemma KindsApartFixTotal(rows: set<Row>, q: Request, cap: int)
    requires KindsApart(rows)
    ensures TotalIsFixed(rows, q, cap)
  {
    hide ValidDraw, Capacity, KindsApart, Hedged, WithinCap, NearMisses;
    forall d, e | ValidDraw(rows, q, cap, d) && ValidDraw(rows, q, cap, e) ensures Size(d) == Size(e) {
      TotalOfDraw(rows, q, cap, d);
      TotalOfDraw(rows, q, cap, e);
      ApartCapacity(rows, AsSet(d.nearMiss), cap);
      ApartCapacity(rows, AsSet(e.nearMiss), cap);
    }
  }

  // ----- Wide quotas: the extremes in closed form ----------------------------

  lemma {:induction false} Part(rows: set<Row>, k: nat) returns (part: set<Row>)
    requires k <= |rows|
    ensures part <= rows && |part| == k
    decreases rows
  {
    if k == |rows| {
      part := rows;
    } else {
      var r :| r in rows;
      part := Part(rows - {r}, k);
    }
  }

  /** Both a near miss and hedged. */
  ghost function Both(rows: set<Row>): set<Row> {
    NearMisses(rows) * Hedged(rows)
  }

  lemma SlackCounts(rows: set<Row>, q: Request, cap: int, near: set<Row>)
    requires Slack(rows, cap) && near <= NearMisses(rows)
    ensures NearCount(rows, q, cap) == Min(Max(q.nearMiss, 0), |NearMisses(rows)|)
    ensures HedgedCount(rows, q, cap, near) == Min(Max(q.hedged, 0), |Hedged(rows)| - |near * Both(rows)|)
    ensures NearDraw(rows, q, cap, near) <==> |near| == NearCount(rows, q, cap)
  {
    hide Capacity, Slack;
    SlackCapacity(rows, NearMisses(rows), {}, cap);
    SlackCapacity(rows, Hedged(rows) - near, near, cap);
    SlackWithin(rows, near, cap);
    var hedged := Hedged(rows);
    assert hedged * near == near * Both(rows);
    assert |hedged - near| == |hedged| - |hedged * near|;
  }

  lemma SlackWithin(rows: set<Row>, some: set<Row>, cap: int)
    requires Slack(rows, cap) && some <= rows
    ensures WithinCap(some, cap)
  {
    forall t ensures |Of(some, t)| <= Max(cap, 0) {
      OfSmaller(some, rows, t);
    }
  }

  /** The least and the greatest number of near misses in a draw that are hedged too. */
  ghost function MostShared(rows: set<Row>, n: int): int {
    Min(n, |Both(rows)|)
  }

  ghost function FewestShared(rows: set<Row>, n: int): int {
    Max(n - |NearMisses(rows) - Both(rows)|, 0)
  }

  lemma SharedRange(rows: set<Row>, near: set<Row>)
    requires near <= NearMisses(rows)
    ensures FewestShared(rows, |near|) <= |near * Both(rows)| <= MostShared(rows, |near|)
  {
    var both := Both(rows);
    SubsetSize(near * both, near);
    SubsetSize(near * both, both);
    SubsetSize(near - both, NearMisses(rows) - both);
    assert near == near * both + (near - both);
  }

  /** `n` near misses of which exactly `k` are hedged too. */
  lemma NearWithShared(rows: set<Row>, n: nat, k: nat) returns (near: set<Row>)
    requires k <= n && k <= |Both(rows)| && n - k <= |NearMisses(rows) - Both(rows)|
    ensures near <= NearMisses(rows) && |near| == n && |near * Both(rows)| == k
  {
    var shared := Part(Both(rows), k);
    var other := Part(NearMisses(rows) - Both(rows), n - k);
    near := shared + other;
    assert near * Both(rows) == shared;
  }

  lemma NearSplits(rows: set<Row>)
    ensures |NearMisses(rows)| == |Both(rows)| + |NearMisses(rows) - Both(rows)|
  {
    assert NearMisses(rows) == Both(rows) + (NearMisses(rows) - Both(rows));
  }

  ghost function WantedNear(rows: set<Row>, q: Request): int {
    Min(Max(q.nearMiss, 0), |NearMisses(rows)|)
  }

  lemma SlackBounds(rows: set<Row>, q: Request, cap: int, near: set<Row>)
    requires Slack(rows, cap) && NearDraw(rows, q, cap, near)
    ensures var n, h := WantedNear(rows, q), |Hedged(rows)|;
            Min(Max(q.hedged, 0), h - MostShared(rows, n)) <= HedgedCount(rows, q, cap, near)
            <= Min(Max(q.hedged, 0), h - FewestShared(rows, n))
  {
    hide NearDraw, HedgedCount, NearCount, Slack, NearMisses, Hedged, Both, MostShared, FewestShared;
    NearDrawIsNear(rows, q, cap, near);
    SlackCounts(rows, q, cap, near);
    SharedRange(rows, near);
  }

  lemma NearOfShared(rows: set<Row>, q: Request, cap: int, k: nat) returns (near: set<Row>)
    requires Slack(rows, cap) && FewestShared(rows, WantedNear(rows, q)) <= k <= MostShared(rows, WantedNear(rows, q))
    ensures NearDraw(rows, q, cap, near)
    ensures HedgedCount(rows, q, cap, near) == Min(Max(q.hedged, 0), |Hedged(rows)| - k)
  {
    hide NearDraw, HedgedCount, NearCount, Slack, NearMisses, Hedged, Both;
    near := NearWithShared(rows, WantedNear(rows, q), k);
    SlackCounts(rows, q, cap, near);
  }

  /** From the size of the largest trace on, the least and greatest hedged count are counts of rows. */
  lemma SlackExtremes(rows: set<Row>, q: Request, cap: int)
    requires Slack(rows, cap)
    ensures var n, h := WantedNear(rows, q), |Hedged(rows)|;
            && IsLeast(rows, q, cap, Min(Max(q.hedged, 0), h - MostShared(rows, n)))
            && IsGreatest(rows, q, cap, Min(Max(q.hedged, 0), h - FewestShared(rows, n)))
  {
    hide NearDraw, HedgedCount, Slack, Hedged, MostShared, FewestShared;
    var n := WantedNear(rows, q);
    SharedInOrder(rows, n);
    var low := NearOfShared(rows, q, cap, MostShared(rows, n));
    var high := NearOfShared(rows, q, cap, FewestShared(rows, n));
    forall near | NearDraw(rows, q, cap, near)
      ensures Min(Max(q.hedged, 0), |Hedged(rows)| - MostShared(rows, n)) <= HedgedCount(rows, q, cap, near)
      ensures HedgedCount(rows, q, cap, near) <= Min(Max(q.hedged, 0), |Hedged(rows)| - FewestShared(rows, n))
    {
      SlackBounds(rows, q, cap, near);
    }
  }

  lemma NearDrawIsNear(rows: set<Row>, q: Request, cap: int, near: set<Row>)
    requires NearDraw(rows, q, cap, near)
    ensures near <= NearMisses(rows)
  {
  }

  /**
    From the size of the largest trace on, the size of a draw is independent of the shuffle exactly when the hedged
    rows asked for are no more than the most unfavourable near misses leave, or no choice of near misses shares more
    hedged rows than another, or the clean rows asked for take whatever is left.
   */
  lemma WideTotalIsFixedIff(rows: set<Row>, q: Request, cap: int)
    requires Slack(rows, cap)
    ensures var n := WantedNear(rows, q);
            var least := |Hedged(rows)| - MostShared(rows, n);
            TotalIsFixed(rows, q, cap) <==>
              || q.hedged <= least
              || MostShared(rows, n) == FewestShared(rows, n)
              || n + least + Max(q.clean, 0) >= |rows|
  {
    hide NearDraw, HedgedCount, NearCount, Slack, NearMisses, Hedged, Both, IsLeast, IsGreatest, TotalIsFixed, MostHedged;
    var n, h := WantedNear(rows, q), |Hedged(rows)|;
    SlackExtremes(rows, q, cap);
    SharedInOrder(rows, n);
    SlackCapacity(rows, rows, {}, cap);
    NoNearMiss(rows);
    SlackCounts(rows, q, cap, {});
    GreatestIsUnique(rows, q, cap, Min(Max(q.hedged, 0), h - FewestShared(rows, n)));
    TotalIsFixedIff(rows, q, cap, Min(Max(q.hedged, 0), h - MostShared(rows, n)));
  }

  lemma GreatestIsUnique(rows: set<Row>, q: Request, cap: int, hi: int)
    requires IsGreatest(rows, q, cap, hi)
    ensures hi == MostHedged(rows, q, cap)
  {
    hide NearDraw, HedgedCount, MostHedged;
    GreatestIs(rows, q, cap);
  }

  lemma NoNearMiss(rows: set<Row>)
    ensures {} <= NearMisses(rows)
  {
  }

  lemma SharedInOrder(rows: set<Row>, n: int)
    requires 0 <= n <= |NearMisses(rows)|
    ensures 0 <= FewestShared(rows, n) <= MostShared(rows, n) <= |Hedged(rows)|
  {
    NearSplits(rows);
    SubsetSize(Both(rows), Hedged(rows));
  }

  // ----- Two ways to depend on the shuffle -----------------------------------

  lemma PairOfKinds(both: Row, near: Row)
    requires both.nearMiss && both.hedged && near.nearMiss && !near.hedged
    ensures var rows := {both, near};
            && |rows| == 2 && Slack(rows, 2)
            && |NearMisses(rows)| == 2 && |Hedged(rows)| == 1 && |Both(rows)| == 1 && |NearMisses(rows) - Both(rows)| == 1
  {
    var rows := {both, near};
    assert NearMisses(rows) == rows && Hedged(rows) == {both} && Both(rows) == {both} && rows - {both} == {near};
    SmallSlack(rows, 2);
  }

  /** A row of both kinds, when the quota refuses nothing: it serves one subset or the other. */
  lemma SharedRowMatters(both: Row, near: Row)
    requires both.nearMiss && both.hedged && near.nearMiss && !near.hedged
    ensures !TotalIsFixed({both, near}, Request(0, 1, 1), 2)
  {
    hide TotalIsFixed, Slack, NearMisses, Hedged, Both;
    PairOfKinds(both, near);
    WideTotalIsFixedIff({both, near}, Request(0, 1, 1), 2);
  }

  lemma SmallSlack(rows: set<Row>, cap: int)
    requires |rows| <= cap
    ensures Slack(rows, cap)
  {
    forall t ensures |Of(rows, t)| <= cap {
      SubsetSize(Of(rows, t), rows);
    }
  }

  lemma OneOf(r: Row, t: string)
    ensures |Of({r}, t)| == if r.trace == t then 1 else 0
  {
    assert Of({r}, t) == if r.trace == t then {r} else {};
  }

  /** A quota of one per trace: a near miss takes the place of a hedged row of the same trace. */
  lemma OnePerTrace(taken: Row, r: Row)
    requires taken != r
    ensures Capacity({r}, 1, {taken}) == if r.trace == taken.trace then 0 else 1
  {
    hide Capacity;
    OneOf(taken, r.trace);
    assert {r} - {r} == {};
    EmptyCapacity(1, {taken});
    EmptyCapacity(1, {taken} + {r});
    if r.trace == taken.trace {
      RefusedRow({r}, r, 1, {taken});
    } else {
      DrawnRow({r}, r, 1, {taken});
    }
  }

  lemma TwoNearMisses(a: Row, b: Row, h: Row)
    requires a.nearMiss && b.nearMiss && h.hedged && !a.hedged && !b.hedged && !h.nearMiss
    requires a.trace == h.trace && b.trace != h.trace
    ensures var rows := {a, b, h};
            && NearMisses(rows) == {a, b} && Hedged(rows) == {h}
            && Capacity({a, b}, 1, {}) == 2 && Capacity(rows, 1, {}) == 2
  {
    hide Capacity;
    var rows := {a, b, h};
    OneOf(a, h.trace);
    assert Of({}, a.trace) == {} && {} + {a} == {a} && {a, b} - {a} == {b} && rows - {a} == {b, h} && {b, h} - {h} == {b};
    DrawnRow({a, b}, a, 1, {});
    DrawnRow(rows, a, 1, {});
    RefusedRow({b, h}, h, 1, {a});
    OnePerTrace(a, b);
  }

  lemma OneNearIsDraw(rows: set<Row>, q: Request, near: Row)
    requires near in NearMisses(rows) && q.nearMiss == 1 && Capacity(NearMisses(rows), 1, {}) >= 1
    ensures NearDraw(rows, q, 1, {near})
  {
    hide Capacity;
    forall t ensures |Of({near}, t)| <= 1 {
      OneOf(near, t);
    }
  }

  lemma HedgedAfter(rows: set<Row>, near: Row, h: Row)
    requires Hedged(rows) == {h} && near != h
    ensures HedgedCount(rows, Request(0, 1, 1), 1, {near}) == if h.trace == near.trace then 0 else 1
  {
    hide Capacity;
    OnePerTrace(near, h);
    assert {h} - {near} == {h};
  }

  /** No row of both kinds is needed: it is enough that a trace holds one of each. */
  lemma SharedTraceMatters(a: Row, b: Row, h: Row)
    requires a.nearMiss && b.nearMiss && h.hedged && !a.hedged && !b.hedged && !h.nearMiss
    requires a.trace == h.trace && b.trace != h.trace
    ensures !TotalIsFixed({a, b, h}, Request(0, 1, 1), 1)
  {
    hide Capacity, NearDraw, HedgedCount, ValidDraw;
    var rows, q := {a, b, h}, Request(0, 1, 1);
    TwoNearMisses(a, b, h);
    OneNearIsDraw(rows, q, a);
    OneNearIsDraw(rows, q, b);
    HedgedAfter(rows, a, h);
    HedgedAfter(rows, b, h);
    var d := DrawOfNear(rows, q, 1, {a});
    var e := DrawOfNear(rows, q, 1, {b});
    TotalOfDraw(rows, q, 1, d);
    TotalOfDraw(rows, q, 1, e);
  }
}
