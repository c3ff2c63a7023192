/**
  Drawing the claim benchmark (evals/claim_benchmark/build_benchmark.py): three samplers
  share one per-trace quota, and a search widens the quota until the request is met.
  A shuffle is any permutation; rows are told apart by identity.
 */
module QuotaSampling {

  datatype Row = Row(id: nat, trace: string, claimType: string, nearMiss: bool, hedged: bool)

  ghost predicate Distinct(rows: seq<Row>) {
    forall i, j :: 0 <= i < j < |rows| ==> rows[i] != rows[j]
  }

  function AsSet(rows: seq<Row>): set<Row> {
    set r | r in rows
  }

  function Min(a: int, b: int): int {
    if a <= b then a else b
  }

  function Max(a: int, b: int): int {
    if a >= b then a else b
  }

  // ----- What a quota lets through -------------------------------------------

  function Of(rows: set<Row>, t: string): set<Row> {
    set r | r in rows && r.trace == t
  }

  function Traces(rows: set<Row>): set<string> {
    set r | r in rows :: r.trace
  }

  /** How many rows of trace `t` can still be drawn from `rows` when `taken` are gone. */
  ghost function Share(rows: set<Row>, cap: int, taken: set<Row>, t: string): nat {
    Min(Max(cap - |Of(taken, t)|, 0), |Of(rows, t)|)
  }

  ghost function Shares(ts: set<string>, rows: set<Row>, cap: int, taken: set<Row>): nat {
    if ts == {} then 0
    else
      var t :| t in ts;
      Share(rows, cap, taken, t) + Shares(ts - {t}, rows, cap, taken)
  }

  /** The sum over the traces of min(remaining quota, rows of that trace). */
  ghost function Capacity(rows: set<Row>, cap: int, taken: set<Row>): nat {
    Shares(Traces(rows), rows, cap, taken)
  }

  lemma {:induction false} SharesSplit(ts: set<string>, t: string, rows: set<Row>, cap: int, taken: set<Row>)
    requires t in ts
    ensures Shares(ts, rows, cap, taken) == Share(rows, cap, taken, t) + Shares(ts - {t}, rows, cap, taken)
    decreases ts
  {
    var u :| u in ts && Shares(ts, rows, cap, taken) == Share(rows, cap, taken, u) + Shares(ts - {u}, rows, cap, taken);
    if u != t {
      SharesSplit(ts - {u}, t, rows, cap, taken);
      SharesSplit(ts - {t}, u, rows, cap, taken);
      assert ts - {u} - {t} == ts - {t} - {u};
    }
  }

  lemma {:induction false} SharesAgree(ts: set<string>, rows: set<Row>, taken: set<Row>,
                                       rows': set<Row>, taken': set<Row>, cap: int)
    requires forall t :: t in ts ==> Share(rows, cap, taken, t) == Share(rows', cap, taken', t)
    ensures Shares(ts, rows, cap, taken) == Shares(ts, rows', cap, taken')
    decreases ts
  {
    if ts != {} {
      var t :| t in ts;
      SharesSplit(ts, t, rows, cap, taken);
      SharesSplit(ts, t, rows', cap, taken');
      SharesAgree(ts - {t}, rows, taken, rows', taken', cap);
    }
  }

  /** One row of trace `t` more or less changes the capacity by the change of that share. */
  lemma CapacityChange(rows: set<Row>, r: Row, cap: int, taken: set<Row>, taken': set<Row>)
    requires r in rows
    requires taken' == taken || taken' == taken + {r}
    ensures Capacity(rows - {r}, cap, taken') + Share(rows, cap, taken, r.trace)
            == Capacity(rows, cap, taken) + Share(rows - {r}, cap, taken', r.trace)
  {
    var less, t := rows - {r}, r.trace;
    hide Shares, Traces, Share, Of;
    forall u | u != t ensures Share(rows, cap, taken, u) == Share(less, cap, taken', u) {
      OtherShare(rows, r, cap, taken, taken', u);
    }
    TracesWithout(rows, r);
    SharesSplit(Traces(rows), t, rows, cap, taken);
    SharesAgree(Traces(rows) - {t}, rows, taken, less, taken', cap);
    if Of(less, t) == {} {
      NoShare(less, cap, taken', t);
    } else {
      SharesSplit(Traces(less), t, less, cap, taken');
    }
  }

  lemma OtherShare(rows: set<Row>, r: Row, cap: int, taken: set<Row>, taken': set<Row>, u: string)
    requires u != r.trace && (taken' == taken || taken' == taken + {r})
    ensures Share(rows, cap, taken, u) == Share(rows - {r}, cap, taken', u)
  {
    assert Of(rows, u) == Of(rows - {r}, u) && Of(taken, u) == Of(taken', u);
  }

  lemma NoShare(rows: set<Row>, cap: int, taken: set<Row>, t: string)
    requires Of(rows, t) == {}
    ensures Share(rows, cap, taken, t) == 0
  {
  }

  /** Without row `r` its trace remains exactly if it has another row. */
  lemma TracesWithout(rows: set<Row>, r: Row)
    requires r in rows
    ensures r.trace in Traces(rows)
    ensures var less, t := rows - {r}, r.trace;
            && (Of(less, t) == {} ==> Traces(less) == Traces(rows) - {t})
            && (Of(less, t) != {} ==> t in Traces(less) && Traces(less) == Traces(rows))
  {
    var less, t := rows - {r}, r.trace;
    assert forall s :: s in rows && s != r ==> s in less;
    if Of(less, t) == {} {
      assert forall q :: q in less && q.trace == t ==> q in Of(less, t);
    } else {
      var q :| q in Of(less, t);
      assert q.trace == t && q in less;
    }
  }

  lemma OfLess(rows: set<Row>, r: Row)
    requires r in rows
    ensures |Of(rows - {r}, r.trace)| == |Of(rows, r.trace)| - 1
  {
    assert Of(rows - {r}, r.trace) == Of(rows, r.trace) - {r};
  }

  lemma OfMore(taken: set<Row>, r: Row)
    requires r !in taken
    ensures |Of(taken + {r}, r.trace)| == |Of(taken, r.trace)| + 1
  {
    assert Of(taken + {r}, r.trace) == Of(taken, r.trace) + {r};
  }

  /** Drawing a row the quota allows uses up exactly one unit of capacity. */
  lemma DrawnRow(rows: set<Row>, r: Row, cap: int, taken: set<Row>)
    requires r in rows && r !in taken && |Of(taken, r.trace)| < cap
    ensures Capacity(rows - {r}, cap, taken + {r}) == Capacity(rows, cap, taken) - 1
  {
    CapacityChange(rows, r, cap, taken, taken + {r});
    OfLess(rows, r);
    OfMore(taken, r);
  }

  /** A row whose trace is used up adds nothing. */
  lemma RefusedRow(rows: set<Row>, r: Row, cap: int, taken: set<Row>)
    requires r in rows && |Of(taken, r.trace)| >= cap
    ensures Capacity(rows - {r}, cap, taken) == Capacity(rows, cap, taken)
  {
    CapacityChange(rows, r, cap, taken, taken);
  }

  // ----- The draw itself -----------------------------------------------------

  /** The rows a draw of at most `n` takes from a shuffled pool. */
  function Take(pool: seq<Row>, n: int, cap: int, taken: set<Row>): seq<Row>
    decreases |pool|
  {
    if pool == [] || n <= 0 then []
    else if |Of(taken, pool[0].trace)| < cap then
      [pool[0]] + Take(pool[1..], n - 1, cap, taken + {pool[0]})
    else Take(pool[1..], n, cap, taken)
  }

  lemma SplitPool(pool: seq<Row>)
    requires pool != [] && Distinct(pool)
    ensures Distinct(pool[1..]) && AsSet(pool[1..]) == AsSet(pool) - {pool[0]}
  {
    assert pool == [pool[0]] + pool[1..];
  }

  lemma EmptyCapacity(cap: int, taken: set<Row>)
    ensures Capacity({}, cap, taken) == 0
  {
    assert Traces({}) == {};
  }

  /** Whatever the shuffle, a draw has size min(n, capacity of the pool). */
  lemma {:induction false} TakeSize(pool: seq<Row>, n: int, cap: int, taken: set<Row>)
    requires Distinct(pool) && AsSet(pool) !! taken
    ensures |Take(pool, n, cap, taken)| == Min(Max(n, 0), Capacity(AsSet(pool), cap, taken))
    decreases |pool|
  {
    hide Capacity;
    if pool == [] {
      EmptyCapacity(cap, taken);
      assert AsSet(pool) == {};
    } else if n > 0 {
      SplitPool(pool);
      var r := pool[0];
      if |Of(taken, r.trace)| < cap {
        DrawnRow(AsSet(pool), r, cap, taken);
        TakeSize(pool[1..], n - 1, cap, taken + {r});
      } else {
        RefusedRow(AsSet(pool), r, cap, taken);
        TakeSize(pool[1..], n, cap, taken);
      }
    }
  }

  ghost predicate WithinCap(taken: set<Row>, cap: int) {
    forall t :: |Of(taken, t)| <= Max(cap, 0)
  }

  lemma WithinAfter(taken: set<Row>, r: Row, cap: int)
    requires WithinCap(taken, cap) && r !in taken && |Of(taken, r.trace)| < cap
    ensures WithinCap(taken + {r}, cap)
  {
    forall t ensures |Of(taken + {r}, t)| <= Max(cap, 0) {
      if t == r.trace {
        OfMore(taken, r);
      } else {
        assert Of(taken + {r}, t) == Of(taken, t);
      }
    }
  }

  /** `drawn` came out of `stock` and used up exactly its own number of units of capacity. */
  ghost predicate Staged(drawn: seq<Row>, stock: set<Row>, cap: int, taken: set<Row>) {
    && Distinct(drawn) && AsSet(drawn) <= stock
    && Capacity(stock - AsSet(drawn), cap, taken + AsSet(drawn)) + |drawn| == Capacity(stock, cap, taken)
  }

  lemma JoinDraws(a: seq<Row>, b: seq<Row>)
    requires Distinct(a) && Distinct(b) && AsSet(a) !! AsSet(b)
    ensures Distinct(a + b) && AsSet(a + b) == AsSet(a) + AsSet(b)
  {
    forall i, j | 0 <= i < j < |a + b| ensures (a + b)[i] != (a + b)[j] {
      if i < |a| <= j {
        assert a[i] in AsSet(a) && b[j - |a|] in AsSet(b);
      }
    }
  }

  lemma JoinStages(a: seq<Row>, b: seq<Row>, stock: set<Row>, cap: int, taken: set<Row>)
    requires Staged(a, stock, cap, taken) && Staged(b, stock - AsSet(a), cap, taken + AsSet(a))
    ensures Staged(a + b, stock, cap, taken)
  {
    hide Capacity;
    JoinDraws(a, b);
    assert stock - AsSet(a + b) == stock - AsSet(a) - AsSet(b);
    assert taken + AsSet(a + b) == taken + AsSet(a) + AsSet(b);
  }

  lemma NothingStaged(stock: set<Row>, cap: int, taken: set<Row>)
    ensures Staged([], stock, cap, taken)
  {
    assert AsSet([]) == {} && stock - {} == stock && taken + {} == taken;
  }

  lemma OneStaged(r: Row, stock: set<Row>, cap: int, taken: set<Row>)
    requires r in stock && r !in taken && |Of(taken, r.trace)| < cap
    ensures Staged([r], stock, cap, taken)
  {
    DrawnRow(stock, r, cap, taken);
    assert AsSet([r]) == {r};
  }

  lemma {:induction false} TakeIsStaged(pool: seq<Row>, n: int, cap: int, taken: set<Row>, stock: set<Row>)
    requires Distinct(pool) && AsSet(pool) <= stock && stock !! taken
    ensures var p := Take(pool, n, cap, taken); Staged(p, stock, cap, taken) && AsSet(p) <= AsSet(pool)
    decreases |pool|
  {
    hide Staged, Capacity;
    if pool == [] || n <= 0 {
      NothingStaged(stock, cap, taken);
    } else {
      SplitPool(pool);
      var r := pool[0];
      if |Of(taken, r.trace)| < cap {
        var q := Take(pool[1..], n - 1, cap, taken + {r});
        OneStaged(r, stock, cap, taken);
        TakeIsStaged(pool[1..], n - 1, cap, taken + {r}, stock - {r});
        assert AsSet([r]) == {r};
        JoinStages([r], q, stock, cap, taken);
        assert AsSet([r] + q) == {r} + AsSet(q);
      } else {
        TakeIsStaged(pool[1..], n, cap, taken, stock);
      }
    }
  }

  lemma {:induction false} TakeWithinCap(pool: seq<Row>, n: int, cap: int, taken: set<Row>)
    requires Distinct(pool) && AsSet(pool) !! taken && WithinCap(taken, cap)
    ensures WithinCap(taken + AsSet(Take(pool, n, cap, taken)), cap)
    decreases |pool|
  {
    if pool == [] || n <= 0 {
      assert taken + AsSet([]) == taken;
    } else {
      SplitPool(pool);
      var r := pool[0];
      if |Of(taken, r.trace)| < cap {
        WithinAfter(taken, r, cap);
        TakeWithinCap(pool[1..], n - 1, cap, taken + {r});
        var q := Take(pool[1..], n - 1, cap, taken + {r});
        assert taken + AsSet([r] + q) == taken + {r} + AsSet(q);
      } else {
        TakeWithinCap(pool[1..], n, cap, taken);
      }
    }
  }

  /** Two shuffles of the same rows give draws of the same size. */
  lemma ShuffleDoesNotMatter(p: seq<Row>, q: seq<Row>, n: int, cap: int, taken: set<Row>)
    requires Distinct(p) && Distinct(q) && AsSet(p) == AsSet(q) && AsSet(p) !! taken
    ensures |Take(p, n, cap, taken)| == |Take(q, n, cap, taken)|
  {
    TakeSize(p, n, cap, taken);
    TakeSize(q, n, cap, taken);
  }

  // ----- The shared quota and the samplers -----------------------------------

  function UsedOf(used: map<string, nat>, t: string): nat {
    if t in used then used[t] else 0
  }

  class TraceQuota {
    const cap: int
    var used: map<string, nat>
    ghost var taken: set<Row>

    ghost predicate Valid()
      reads this
    {
      && (forall t :: UsedOf(used, t) == |Of(taken, t)|)
      && WithinCap(taken, cap)
    }

    constructor (cap: int)
      ensures Valid() && this.cap == cap && taken == {}
    {
      this.cap := cap;
      used := map[];
      taken := {};
      new;
      assert forall t :: Of({}, t) == {};
    }

    method TryTake(row: Row) returns (ok: bool)
      requires Valid() && row !in taken
      modifies this
      ensures Valid()
      ensures ok == (|Of(old(taken), row.trace)| < cap)
      ensures taken == if ok then old(taken) + {row} else old(taken)
    {
      var tk := row.trace;
      if UsedOf(used, tk) >= cap {
        return false;
      }
      OfMore(taken, row);
      assert forall t :: t != tk ==> Of(taken + {row}, t) == Of(taken, t);
      WithinAfter(taken, row, cap);
      used := used[tk := UsedOf(used, tk) + 1];
      taken := taken + {row};
      ok := true;
    }
  }

  /** Any permutation of the rows. */
  method Shuffle(rows: seq<Row>) returns (pool: seq<Row>)
    requires Distinct(rows)
    ensures Distinct(pool) && AsSet(pool) == AsSet(rows)
  {
    pool := rows;
    var i := |pool|;
    while i > 1
      invariant 0 <= i <= |pool|
      invariant Distinct(pool) && AsSet(pool) == AsSet(rows)
    {
      i := i - 1;
      var j :| 0 <= j <= i;
      var was := pool;
      pool := pool[i := pool[j]][j := pool[i]];
      assert forall r :: r in was ==> r in pool by {
        assert forall k :: 0 <= k < |was| ==> was[k] == pool[if k == i then j else if k == j then i else k];
      }
    }
  }

  lemma NextInPool(pool: seq<Row>, i: nat, n: int, cap: int, taken: set<Row>)
    requires i < |pool| && Distinct(pool[i..]) && AsSet(pool[i..]) !! taken && n > 0
    ensures pool[i] !in taken
    ensures Distinct(pool[i + 1..]) && AsSet(pool[i + 1..]) !! (taken + {pool[i]})
    ensures Take(pool[i..], n, cap, taken)
            == if |Of(taken, pool[i].trace)| < cap
               then [pool[i]] + Take(pool[i + 1..], n - 1, cap, taken + {pool[i]})
               else Take(pool[i + 1..], n, cap, taken)
  {
    SplitPool(pool[i..]);
    assert pool[i..][1..] == pool[i + 1..] && pool[i..][0] == pool[i];
    assert pool[i] in AsSet(pool[i..]);
  }

  /** After `i` rows of the shuffled pool, the rest of the pool completes `picked` to the `whole` draw. */
  ghost predicate Continues(pool: seq<Row>, i: nat, picked: seq<Row>, n: int, cap: int, taken: set<Row>, whole: seq<Row>) {
    && i <= |pool| && Distinct(pool[i..]) && AsSet(pool[i..]) !! taken
    && picked + Take(pool[i..], n - |picked|, cap, taken) == whole
  }

  lemma ContinuesNext(pool: seq<Row>, i: nat, picked: seq<Row>, n: int, cap: int, taken: set<Row>, whole: seq<Row>)
    requires i < |pool| && |picked| < n && Continues(pool, i, picked, n, cap, taken, whole)
    ensures pool[i] !in taken
    ensures if |Of(taken, pool[i].trace)| < cap
            then Continues(pool, i + 1, picked + [pool[i]], n, cap, taken + {pool[i]}, whole)
            else Continues(pool, i + 1, picked, n, cap, taken, whole)
  {
    hide Take;
    NextInPool(pool, i, n - |picked|, cap, taken);
    var rest := Take(pool[i + 1..], n - |picked| - 1, cap, taken + {pool[i]});
    assert picked + ([pool[i]] + rest) == picked + [pool[i]] + rest;
  }

  method PickClaims(rows: seq<Row>, n: int, quota: TraceQuota) returns (picked: seq<Row>, ghost pool: seq<Row>)
    requires quota.Valid() && Distinct(rows) && AsSet(rows) !! quota.taken
    modifies quota
    ensures quota.Valid() && quota.taken == old(quota.taken) + AsSet(picked)
    ensures Distinct(pool) && AsSet(pool) == AsSet(rows)
    ensures picked == Take(pool, n, quota.cap, old(quota.taken))
  {
    picked := [];
    var shuffled := Shuffle(rows);
    pool := shuffled;
    ghost var whole := Take(pool, n, quota.cap, quota.taken);
    assert pool[0..] == pool;
    var i := 0;
    while i < |shuffled| && |picked| < n
      invariant 0 <= i <= |pool|
      invariant quota.Valid() && quota.taken == old(quota.taken) + AsSet(picked)
      invariant Continues(pool, i, picked, n, quota.cap, quota.taken, whole)
    {
      hide Continues;
      var row := shuffled[i];
      ContinuesNext(pool, i, picked, n, quota.cap, quota.taken, whole);
      var ok := quota.TryTake(row);
      if ok {
        assert AsSet(picked + [row]) == AsSet(picked) + {row};
        picked := picked + [row];
      }
      i := i + 1;
    }
  }

  function Without(rows: seq<Row>, excluded: set<Row>): seq<Row> {
    if rows == [] then []
    else (if rows[0] in excluded then [] else [rows[0]]) + Without(rows[1..], excluded)
  }

  lemma Prepend(r: Row, rest: seq<Row>)
    requires Distinct(rest) && r !in AsSet(rest)
    ensures Distinct([r] + rest) && AsSet([r] + rest) == {r} + AsSet(rest)
  {
    assert forall k :: 0 <= k < |rest| ==> rest[k] in AsSet(rest);
  }

  lemma {:induction false} WithoutIs(rows: seq<Row>, excluded: set<Row>)
    requires Distinct(rows)
    ensures Distinct(Without(rows, excluded))
    ensures AsSet(Without(rows, excluded)) == AsSet(rows) - excluded
    decreases |rows|
  {
    if rows != [] {
      SplitPool(rows);
      WithoutIs(rows[1..], excluded);
      var rest := Without(rows[1..], excluded);
      Prepend(rows[0], rest);
      assert [] + rest == rest;
    }
  }

  function OfType(rows: seq<Row>, claimType: string): seq<Row> {
    if rows == [] then []
    else (if rows[0].claimType == claimType then [rows[0]] else []) + OfType(rows[1..], claimType)
  }

  lemma {:induction false} OfTypeIs(rows: seq<Row>, claimType: string)
    requires Distinct(rows)
    ensures Distinct(OfType(rows, claimType))
    ensures AsSet(OfType(rows, claimType)) == set r | r in rows && r.claimType == claimType
    decreases |rows|
  {
    if rows != [] {
      SplitPool(rows);
      OfTypeIs(rows[1..], claimType);
      var rest := OfType(rows[1..], claimType);
      Prepend(rows[0], rest);
      assert [] + rest == rest;
      assert forall r :: r in rows <==> r == rows[0] || r in rows[1..];
    }
  }

  /** `picked` is a largest draw of at most `n` rows from `stock` that the quota allows. */
  ghost predicate Drawn(picked: seq<Row>, n: int, stock: set<Row>, cap: int, taken: set<Row>) {
    Staged(picked, stock, cap, taken) && |picked| == Min(Max(n, 0), Capacity(stock, cap, taken))
  }

  lemma TakeIsDrawn(pool: seq<Row>, n: int, cap: int, taken: set<Row>)
    requires Distinct(pool) && AsSet(pool) !! taken
    ensures Drawn(Take(pool, n, cap, taken), n, AsSet(pool), cap, taken)
  {
    TakeSize(pool, n, cap, taken);
    TakeIsStaged(pool, n, cap, taken, AsSet(pool));
  }

  method SampleSubset(rows: seq<Row>, n: int, quota: TraceQuota, excluded: set<Row>) returns (picked: seq<Row>)
    requires quota.Valid() && Distinct(rows) && (AsSet(rows) - excluded) !! quota.taken
    modifies quota
    ensures quota.Valid() && quota.taken == old(quota.taken) + AsSet(picked)
    ensures Drawn(picked, n, AsSet(rows) - excluded, quota.cap, old(quota.taken))
  {
    WithoutIs(rows, excluded);
    var pool := Without(rows, excluded);
    ghost var shuffled;
    picked, shuffled := PickClaims(pool, n, quota);
    TakeIsDrawn(shuffled, n, quota.cap, old(quota.taken));
  }

  // ----- The typed sampler ---------------------------------------------------

  /** Targets in percent of the clean subset. */
  const TYPE_TARGETS: seq<(string, nat)> := [("numerical", 30), ("computational", 15), ("comparative", 15)]

  /** Rounding half to even, as Python does. */
  function RoundPercent(n: nat, percent: nat): (r: nat)
    ensures -50 <= n * percent - 100 * r <= 50
    ensures n * percent - 100 * r == 50 || n * percent - 100 * r == -50 ==> r % 2 == 0
  {
    var q, r := n * percent / 100, n * percent % 100;
    if r > 50 || (r == 50 && q % 2 == 1) then q + 1 else q
  }

  function TargetSum(n: nat, k: nat): nat
    requires k <= |TYPE_TARGETS|
  {
    if k == 0 then 0 else TargetSum(n, k - 1) + RoundPercent(n, TYPE_TARGETS[k - 1].1)
  }

  /** The rounded targets never ask for more than the whole. */
  lemma TargetsFit(n: nat)
    requires n > 0
    ensures TargetSum(n, 3) <= n
  {
    assert TargetSum(n, 3) == RoundPercent(n, 30) + RoundPercent(n, 15) + RoundPercent(n, 15) by {
      assert TargetSum(n, 1) == RoundPercent(n, 30);
      assert TargetSum(n, 2) == TargetSum(n, 1) + RoundPercent(n, 15);
    }
    assert 100 * RoundPercent(n, 30) <= 30 * n + 50;
    assert 100 * RoundPercent(n, 15) <= 15 * n + 50;
  }

  lemma {:induction false} TargetSumGrows(n: nat, j: nat, k: nat)
    requires j <= k <= |TYPE_TARGETS|
    ensures TargetSum(n, j) <= TargetSum(n, k)
  {
    if j < k {
      TargetSumGrows(n, j, k - 1);
    }
  }

  lemma TypesDiffer(k: nat)
    requires k < |TYPE_TARGETS|
    ensures forall m :: 0 <= m < k ==> TYPE_TARGETS[m].0 != TYPE_TARGETS[k].0
  {
    assert TYPE_TARGETS[0].0[0] == 'n' && TYPE_TARGETS[1].0[3] == 'p' && TYPE_TARGETS[2].0[4] == 'a';
    assert TYPE_TARGETS[1].0[4] == 'u' && TYPE_TARGETS[1].0[0] == 'c' && TYPE_TARGETS[2].0[0] == 'c';
  }

  /** Every row in `chosen` is of one of the first `k` types. */
  ghost predicate OfFirstTypes(chosen: seq<Row>, k: nat)
    requires k <= |TYPE_TARGETS|
  {
    forall r :: r in chosen ==> exists m :: 0 <= m < k && TYPE_TARGETS[m].0 == r.claimType
  }

  lemma {:induction false} OfTypeConcat(a: seq<Row>, b: seq<Row>, claimType: string)
    ensures OfType(a + b, claimType) == OfType(a, claimType) + OfType(b, claimType)
    decreases |a|
  {
    if a == [] {
      assert a + b == b;
    } else {
      OfTypeConcat(a[1..], b, claimType);
      OfTypeOfMore(a, claimType);
      OfTypeOfMore(a + b, claimType);
      hide OfType;
      assert (a + b)[1..] == a[1..] + b && (a + b)[0] == a[0];
    }
  }

  lemma OfTypeOfMore(a: seq<Row>, claimType: string)
    requires a != []
    ensures OfType(a, claimType) == (if a[0].claimType == claimType then [a[0]] else []) + OfType(a[1..], claimType)
  {
  }

  lemma {:induction false} OfTypeAllOrNone(a: seq<Row>, claimType: string)
    ensures (forall r :: r in a ==> r.claimType == claimType) ==> OfType(a, claimType) == a
    ensures (forall r :: r in a ==> r.claimType != claimType) ==> OfType(a, claimType) == []
  {
    if a != [] {
      assert a == [a[0]] + a[1..];
      OfTypeAllOrNone(a[1..], claimType);
    }
  }

  /** Nothing of this type can be drawn from `rows` any more. */
  ghost predicate UsedUp(rows: set<Row>, claimType: string, cap: int, taken: set<Row>) {
    forall r :: r in rows && r.claimType == claimType ==> |Of(taken, r.trace)| >= cap
  }

  lemma OfGrows(a: set<Row>, b: set<Row>, t: string)
    requires a <= b
    ensures |Of(a, t)| <= |Of(b, t)|
  {
    assert Of(b, t) == Of(a, t) + (Of(b, t) - Of(a, t));
  }

  lemma UsedUpStays(rows: set<Row>, claimType: string, cap: int, taken: set<Row>, rows': set<Row>, taken': set<Row>)
    requires UsedUp(rows, claimType, cap, taken) && rows' <= rows && taken <= taken'
    ensures UsedUp(rows', claimType, cap, taken')
  {
    forall r | r in rows' && r.claimType == claimType ensures |Of(taken', r.trace)| >= cap {
      OfGrows(taken, taken', r.trace);
    }
  }

  /** A draw stops short of `n` rows only when every row it leaves is of a used-up trace. */
  lemma {:induction false} TakeExhausts(pool: seq<Row>, n: int, cap: int, taken: set<Row>, r: Row)
    requires Distinct(pool) && |Take(pool, n, cap, taken)| < n
    requires r in pool && r !in Take(pool, n, cap, taken)
    ensures |Of(taken + AsSet(Take(pool, n, cap, taken)), r.trace)| >= cap
    decreases |pool|
  {
    var picked := Take(pool, n, cap, taken);
    SplitPool(pool);
    if |Of(taken, pool[0].trace)| < cap {
      var rest := Take(pool[1..], n - 1, cap, taken + {pool[0]});
      assert AsSet(picked) == {pool[0]} + AsSet(rest);
      assert taken + AsSet(picked) == taken + {pool[0]} + AsSet(rest);
      assert r in pool[1..];
      TakeExhausts(pool[1..], n - 1, cap, taken + {pool[0]}, r);
    } else if r == pool[0] {
      OfGrows(taken, taken + AsSet(picked), r.trace);
    } else {
      assert r in pool[1..];
      TakeExhausts(pool[1..], n, cap, taken, r);
    }
  }

  /** The target of type `k` is reached, or nothing more of that type could be drawn. */
  ghost predicate Reached(chosen: seq<Row>, stock: set<Row>, n: nat, k: nat, cap: int, taken: set<Row>)
    requires k < |TYPE_TARGETS|
  {
    |OfType(chosen, TYPE_TARGETS[k].0)| >= RoundPercent(n, TYPE_TARGETS[k].1)
    || UsedUp(stock - AsSet(chosen), TYPE_TARGETS[k].0, cap, taken)
  }

  lemma ReachedStays(chosen: seq<Row>, more: seq<Row>, stock: set<Row>, n: nat, k: nat, cap: int,
                     taken: set<Row>, taken': set<Row>)
    requires k < |TYPE_TARGETS| && Reached(chosen, stock, n, k, cap, taken) && taken <= taken'
    ensures Reached(chosen + more, stock, n, k, cap, taken')
  {
    hide UsedUp, RoundPercent, OfType;
    OfTypeConcat(chosen, more, TYPE_TARGETS[k].0);
    if UsedUp(stock - AsSet(chosen), TYPE_TARGETS[k].0, cap, taken) {
      UsedUpStays(stock - AsSet(chosen), TYPE_TARGETS[k].0, cap, taken, stock - AsSet(chosen + more), taken');
    }
  }

  /** The draw for one type: rows of that type, at most the type's share. */
  method PickType(rows: seq<Row>, n: nat, k: nat, quota: TraceQuota, ghost chosen: seq<Row>)
    returns (picked: seq<Row>)
    requires k < |TYPE_TARGETS| && quota.Valid() && Distinct(rows)
    requires (AsSet(rows) - AsSet(chosen)) !! quota.taken && OfFirstTypes(chosen, k)
    modifies quota
    ensures quota.Valid() && quota.taken == old(quota.taken) + AsSet(picked)
    ensures Staged(picked, AsSet(rows) - AsSet(chosen), quota.cap, old(quota.taken))
    ensures |picked| <= RoundPercent(n, TYPE_TARGETS[k].1)
    ensures forall r :: r in picked ==> r.claimType == TYPE_TARGETS[k].0
    ensures |picked| == RoundPercent(n, TYPE_TARGETS[k].1)
            || UsedUp(AsSet(rows) - AsSet(picked), TYPE_TARGETS[k].0, quota.cap, quota.taken)
  {
    hide Staged, Capacity, RoundPercent;
    var take := RoundPercent(n, TYPE_TARGETS[k].1);
    var sub := OfType(rows, TYPE_TARGETS[k].0);
    OfTypeIs(rows, TYPE_TARGETS[k].0);
    TypesDiffer(k);
    assert AsSet(sub) <= AsSet(rows) - AsSet(chosen);
    ghost var shuffled;
    picked, shuffled := PickClaims(sub, take, quota);
    TakeSize(shuffled, take, quota.cap, old(quota.taken));
    TakeIsStaged(shuffled, take, quota.cap, old(quota.taken), AsSet(rows) - AsSet(chosen));
    assert forall r :: r in picked ==> r in AsSet(picked);
    if |picked| < take {
      forall r | r in AsSet(rows) - AsSet(picked) && r.claimType == TYPE_TARGETS[k].0
        ensures |Of(quota.taken, r.trace)| >= quota.cap
      {
        assert r in AsSet(sub) && r in AsSet(shuffled);
        TakeExhausts(shuffled, take, quota.cap, old(quota.taken), r);
      }
    }
  }

  lemma JoinReached(chosen: seq<Row>, picked: seq<Row>, stock: set<Row>, n: nat, k: nat, cap: int,
                    taken: set<Row>, taken': set<Row>)
    requires k < |TYPE_TARGETS| && taken <= taken' && OfFirstTypes(chosen, k)
    requires forall m :: 0 <= m < k ==> Reached(chosen, stock, n, m, cap, taken)
    requires forall r :: r in picked ==> r.claimType == TYPE_TARGETS[k].0
    requires |picked| == RoundPercent(n, TYPE_TARGETS[k].1)
             || UsedUp(stock - AsSet(picked), TYPE_TARGETS[k].0, cap, taken')
    ensures forall m :: 0 <= m <= k ==> Reached(chosen + picked, stock, n, m, cap, taken')
  {
    hide RoundPercent, OfType;
    forall m: nat | m <= k ensures Reached(chosen + picked, stock, n, m, cap, taken') {
      if m < k {
        ReachedStays(chosen, picked, stock, n, m, cap, taken, taken');
      } else {
        OfTypeConcat(chosen, picked, TYPE_TARGETS[k].0);
        OfTypeAllOrNone(picked, TYPE_TARGETS[k].0);
        if |picked| != RoundPercent(n, TYPE_TARGETS[k].1) {
          UsedUpStays(stock - AsSet(picked), TYPE_TARGETS[k].0, cap, taken', stock - AsSet(chosen + picked), taken');
        }
      }
    }
  }

  /** The typed stage: for each type its share, or all that the quota allows of that type. */
  method TypedStage(rows: seq<Row>, n: nat, quota: TraceQuota) returns (chosen: seq<Row>)
    requires n > 0 && quota.Valid() && Distinct(rows) && AsSet(rows) !! quota.taken
    modifies quota
    ensures quota.Valid() && quota.taken == old(quota.taken) + AsSet(chosen)
    ensures Staged(chosen, AsSet(rows), quota.cap, old(quota.taken)) && |chosen| <= n
    ensures forall m :: 0 <= m < |TYPE_TARGETS| ==> Reached(chosen, AsSet(rows), n, m, quota.cap, quota.taken)
  {
    hide Staged, Capacity, Reached, UsedUp, RoundPercent;
    chosen := [];
    NothingStaged(AsSet(rows), quota.cap, quota.taken);
    assert quota.taken + AsSet([]) == quota.taken;
    for k := 0 to |TYPE_TARGETS|
      invariant quota.Valid() && quota.taken == old(quota.taken) + AsSet(chosen)
      invariant Staged(chosen, AsSet(rows), quota.cap, old(quota.taken))
      invariant |chosen| <= TargetSum(n, k) && OfFirstTypes(chosen, k)
      invariant forall m :: 0 <= m < k ==> Reached(chosen, AsSet(rows), n, m, quota.cap, quota.taken)
    {
      ghost var before := quota.taken;
      var picked := PickType(rows, n, k, quota, chosen);
      JoinStages(chosen, picked, AsSet(rows), quota.cap, old(quota.taken));
      assert AsSet(chosen + picked) == AsSet(chosen) + AsSet(picked);
      JoinReached(chosen, picked, AsSet(rows), n, k, quota.cap, before, quota.taken);
      chosen := chosen + picked;
    }
    TargetsFit(n);
  }

  lemma StageThenFill(chosen: seq<Row>, fill: seq<Row>, n: int, stock: set<Row>, cap: int, taken: set<Row>)
    requires Staged(chosen, stock, cap, taken) && |chosen| <= n
    requires Drawn(fill, n - |chosen|, stock - AsSet(chosen), cap, taken + AsSet(chosen))
    ensures Drawn(chosen + fill, n, stock, cap, taken)
  {
    hide Capacity;
    JoinStages(chosen, fill, stock, cap, taken);
  }

  /**
    Despite its typed stage the clean sampler also draws exactly min(n, capacity) rows; a type misses its target
    only when nothing more of it could be drawn.
   */
  method SampleClean(rows: seq<Row>, n: int, quota: TraceQuota, excluded: set<Row>) returns (chosen: seq<Row>)
    requires quota.Valid() && Distinct(rows) && (AsSet(rows) - excluded) !! quota.taken
    modifies quota
    ensures quota.Valid() && quota.taken == old(quota.taken) + AsSet(chosen)
    ensures Drawn(chosen, n, AsSet(rows) - excluded, quota.cap, old(quota.taken))
    ensures n > 0 ==>
              forall m :: 0 <= m < |TYPE_TARGETS| ==>
                Reached(chosen, AsSet(rows) - excluded, n, m, quota.cap, quota.taken)
  {
    hide Staged, Capacity, Reached;
    WithoutIs(rows, excluded);
    var left := Without(rows, excluded);
    if n <= 0 {
      chosen := [];
      NothingStaged(AsSet(left), quota.cap, quota.taken);
      assert quota.taken + AsSet([]) == quota.taken;
      return;
    }
    chosen := TypedStage(left, n, quota);
    ghost var before := quota.taken;
    WithoutIs(left, AsSet(chosen));
    var others := Without(left, AsSet(chosen));
    var fill;
    ghost var shuffled;
    fill, shuffled := PickClaims(others, n - |chosen|, quota);
    TakeIsDrawn(shuffled, n - |chosen|, quota.cap, before);
    StageThenFill(chosen, fill, n, AsSet(left), quota.cap, old(quota.taken));
    assert AsSet(chosen + fill) == AsSet(chosen) + AsSet(fill);
    forall m | 0 <= m < |TYPE_TARGETS| ensures Reached(chosen + fill, AsSet(left), n, m, quota.cap, quota.taken) {
      ReachedStays(chosen, fill, AsSet(left), n, m, quota.cap, before, quota.taken);
    }
    chosen := chosen + fill;
  }
}
