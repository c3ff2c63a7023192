/**
  The offline citation chain (evals/causal_ablation/pilot_runner.py): verify every claim, try one
  repair of a few wrong values, re-verify a scope, and keep the repair only if nothing in the scope fails.
 */
module CitationChain {
  import opened Wrappers

  const SPARSE_REPAIR_LIMIT := 3

  datatype Status = Pass | Fail | Unverifiable

  /** `bucket` is empty when the verdict has no failure class. */
  datatype Verdict = Verdict(status: Status, bucket: string, truth: string)

  datatype Failure<C> = Failure(claim: C, truth: string)

  /** A repair returns the rewritten text and, per failure, a record that may hold an updated claim. */
  type Fix<!C> = (string, seq<Failure<C>>) -> (string, seq<Option<C>>)

  datatype Repair<!C> = NoRepair | Named(name: string) | Given(fix: Fix<C>)

  /** Where the repair was judged: nowhere (it took no part), on the analysts involved, or on all claims. */
  datatype Arbiter = NotJudged | ByAgent | ByAll

  datatype Outcome<C> = Outcome(
    claims: seq<C>,
    verdicts: seq<Verdict>,
    flagged: bool,
    failIndices: seq<nat>,
    repairedIndices: set<nat>,
    repaired: bool,
    arbiter: Arbiter,
    allPass: Option<bool>,
    failBuckets: map<string, nat>,
    markdown: string)

  // ----- The parts -----------------------------------------------------------

  /** Claims are verified one by one. */
  function VerifyAll<C>(claims: seq<C>, verify: C -> Verdict): seq<Verdict> {
    seq(|claims|, i requires 0 <= i < |claims| => verify(claims[i]))
  }

  predicate WrongValue(v: Verdict) {
    v.status.Fail? && v.bucket == "value_mismatch"
  }

  function SparseOf(verdicts: seq<Verdict>, k: nat): (r: seq<nat>)
    requires k <= |verdicts|
    ensures |r| <= k
    ensures forall a :: 0 <= a < |r| ==> r[a] < k && WrongValue(verdicts[r[a]])
    ensures forall i: nat :: i in r <==> i < k && WrongValue(verdicts[i])
    ensures forall a, b :: 0 <= a < b < |r| ==> r[a] < r[b]
  {
    if k == 0 then []
    else
      var before := SparseOf(verdicts, k - 1);
      if WrongValue(verdicts[k - 1]) then before + [k - 1] else before
  }

  function FailsOf(verdicts: seq<Verdict>, k: nat): (r: seq<nat>)
    requires k <= |verdicts|
    ensures forall a :: 0 <= a < |r| ==> r[a] < k && verdicts[r[a]].status.Fail?
    ensures forall i: nat :: i in r <==> i < k && verdicts[i].status.Fail?
    ensures forall a, b :: 0 <= a < b < |r| ==> r[a] < r[b]
  {
    if k == 0 then []
    else
      var before := FailsOf(verdicts, k - 1);
      if verdicts[k - 1].status.Fail? then before + [k - 1] else before
  }

  /** The failures are paired with the records in order; the shorter list decides. */
  function ReplacedBy<C>(sparse: seq<nat>, records: seq<Option<C>>): map<nat, C> {
    if sparse == [] || records == [] then map[]
    else
      var rest := ReplacedBy(sparse[1..], records[1..]);
      if records[0].Some? then rest[sparse[0] := records[0].value] else rest
  }

  function Updated<C>(claims: seq<C>, replaced: map<nat, C>): seq<C> {
    seq(|claims|, i requires 0 <= i < |claims| => if i in replaced then replaced[i] else claims[i])
  }

  function AgentsOf(replaced: set<nat>, agents: seq<string>): set<string> {
    set i: nat | i in replaced && i < |agents| :: agents[i]
  }

  /** Claim `i` is re-verified after the claims in `replaced` changed. */
  predicate InScope(replaced: set<nat>, agents: Option<seq<string>>, i: nat) {
    agents.Some? ==> i < |agents.value| && agents.value[i] in AgentsOf(replaced, agents.value)
  }

  /** Every claim, or every claim of an analyst one of whose claims was repaired. */
  function ScopeOf(replaced: set<nat>, agents: Option<seq<string>>, k: nat): (r: seq<nat>)
    ensures forall a :: 0 <= a < |r| ==> r[a] < k
    ensures forall i: nat :: i in r <==> i < k && InScope(replaced, agents, i)
    ensures forall a, b :: 0 <= a < b < |r| ==> r[a] < r[b]
  {
    if k == 0 then []
    else
      var before := ScopeOf(replaced, agents, k - 1);
      if InScope(replaced, agents, k - 1) then before + [k - 1] else before
  }

  /** The names reach every repaired claim, and no name of a repaired claim's analyst stands beyond the claims. */
  predicate Fits(n: nat, replaced: set<nat>, agents: Option<seq<string>>) {
    agents.Some? ==>
      && (forall i: nat :: i in replaced ==> i < |agents.value|)
      && forall i: nat :: n <= i < |agents.value| ==> !InScope(replaced, agents, i)
  }

  /** The scope as it is computed, from the names alone. */
  function ReverifyScope(replaced: set<nat>, agents: Option<seq<string>>, n: nat): seq<nat> {
    ScopeOf(replaced, agents, if agents.Some? then |agents.value| else n)
  }

  lemma {:induction false} ScopeStops(replaced: set<nat>, agents: Option<seq<string>>, k: nat, m: nat)
    requires k <= m && forall i: nat :: k <= i < m ==> !InScope(replaced, agents, i)
    ensures ScopeOf(replaced, agents, m) == ScopeOf(replaced, agents, k)
  {
    if k < m {
      ScopeStops(replaced, agents, k, m - 1);
    }
  }

  /** No index goes astray exactly when the names fit, and the scope then is that of the claims. */
  lemma FitsIff(n: nat, replaced: set<nat>, agents: Option<seq<string>>)
    ensures Fits(n, replaced, agents) <==>
            && (agents.Some? ==> forall i: nat :: i in replaced ==> i < |agents.value|)
            && forall i: nat :: i in ReverifyScope(replaced, agents, n) ==> i < n
    ensures Fits(n, replaced, agents) ==> ReverifyScope(replaced, agents, n) == ScopeOf(replaced, agents, n)
  {
    if Fits(n, replaced, agents) && agents.Some? {
      var m := |agents.value|;
      if n <= m {
        ScopeStops(replaced, agents, n, m);
      } else {
        ScopeStops(replaced, agents, m, n);
      }
    }
    if agents.Some? {
      forall i: nat | n <= i < |agents.value| ensures InScope(replaced, agents, i) <==> i in ReverifyScope(replaced, agents, n) {
      }
    }
  }

  function Select<C>(claims: seq<C>, scope: seq<nat>): seq<C>
    requires forall s :: 0 <= s < |scope| ==> scope[s] < |claims|
  {
    seq(|scope|, s requires 0 <= s < |scope| => claims[scope[s]])
  }

  function CountBucket(verdicts: seq<Verdict>, bucket: string, k: nat): nat
    requires k <= |verdicts|
  {
    if k == 0 then 0
    else
      CountBucket(verdicts, bucket, k - 1)
      + (if verdicts[k - 1].status.Fail? && verdicts[k - 1].bucket == bucket then 1 else 0)
  }

  // ----- What a repair proposes ----------------------------------------------

  function Failures<C>(claims: seq<C>, verdicts: seq<Verdict>, sparse: seq<nat>): (r: seq<Failure<C>>)
    requires |verdicts| == |claims| && forall s :: 0 <= s < |sparse| ==> sparse[s] < |claims|
    ensures |r| == |sparse|
    ensures forall s :: 0 <= s < |r| ==> r[s].claim == claims[sparse[s]] && r[s].truth == verdicts[sparse[s]].truth
  {
    seq(|sparse|, s requires 0 <= s < |sparse| => Failure(claims[sparse[s]], verdicts[sparse[s]].truth))
  }

  function Sparse<C>(claims: seq<C>, verify: C -> Verdict): (r: seq<nat>)
    ensures forall a :: 0 <= a < |r| ==> r[a] < |claims| && WrongValue(verify(claims[r[a]]))
    ensures forall i: nat :: i in r <==> i < |claims| && WrongValue(verify(claims[i]))
    ensures forall a, b :: 0 <= a < b < |r| ==> r[a] < r[b]
  {
    SparseOf(VerifyAll(claims, verify), |claims|)
  }

  lemma {:induction false} ReplacedKeys<C>(sparse: seq<nat>, records: seq<Option<C>>)
    ensures forall i :: i in ReplacedBy(sparse, records) ==> i in sparse
    ensures |ReplacedBy(sparse, records)| <= |sparse|
  {
    if sparse != [] && records != [] {
      ReplacedKeys(sparse[1..], records[1..]);
    }
  }

  /** With distinct failures, each claim gets the record at its own place. */
  lemma {:induction false} ReplacedAt<C>(sparse: seq<nat>, records: seq<Option<C>>, s: nat)
    requires forall a, b :: 0 <= a < b < |sparse| ==> sparse[a] < sparse[b]
    requires s < |sparse|
    ensures sparse[s] in ReplacedBy(sparse, records) <==> s < |records| && records[s].Some?
    ensures s < |records| && records[s].Some? ==> ReplacedBy(sparse, records)[sparse[s]] == records[s].value
  {
    if records != [] {
      var rest := ReplacedBy(sparse[1..], records[1..]);
      FirstIsFree(sparse, records);
      if s > 0 {
        assert sparse[1..][s - 1] == sparse[s] && (s < |records| ==> records[1..][s - 1] == records[s]);
        assert sparse[s] in ReplacedBy(sparse, records) <==> sparse[s] in rest;
        ReplacedAt(sparse[1..], records[1..], s - 1);
      }
    }
  }

  lemma FirstIsFree<C>(sparse: seq<nat>, records: seq<Option<C>>)
    requires forall a, b :: 0 <= a < b < |sparse| ==> sparse[a] < sparse[b]
    requires sparse != [] && records != []
    ensures sparse[0] !in ReplacedBy(sparse[1..], records[1..])
  {
    hide ReplacedBy;
    ReplacedKeys(sparse[1..], records[1..]);
  }

  /** The repair's text and the claims it would change, with their new content. */
  function Repaired<C>(claims: seq<C>, verify: C -> Verdict, markdown: string, fix: Fix<C>): (string, seq<Option<C>>) {
    fix(markdown, Failures(claims, VerifyAll(claims, verify), Sparse(claims, verify)))
  }

  function Proposal<C>(claims: seq<C>, verify: C -> Verdict, markdown: string, fix: Fix<C>): (r: map<nat, C>)
    ensures forall i: nat :: i in r ==> i < |claims| && WrongValue(verify(claims[i]))
  {
    var sparse := Sparse(claims, verify);
    var records := Repaired(claims, verify, markdown, fix).1;
    ReplacedKeys(sparse, records);
    ReplacedBy(sparse, records)
  }

  /** A repair is tried only when it is switched on and there are one or two wrong values. */
  predicate Tried<C>(claims: seq<C>, verify: C -> Verdict, a4On: bool) {
    a4On && 0 < |Sparse(claims, verify)| < SPARSE_REPAIR_LIMIT
  }

  /** The repair stands: it changes a claim and no updated claim in the scope fails. */
  ghost predicate Stands<C>(claims: seq<C>, verify: C -> Verdict, replaced: map<nat, C>, agents: Option<seq<string>>)
    requires forall i: nat :: i in replaced ==> i < |claims|
  {
    replaced.Keys != {}
    && forall i: nat :: i < |claims| && InScope(replaced.Keys, agents, i) ==>
         !verify(Updated(claims, replaced)[i]).status.Fail?
  }

  ghost predicate Accepted<C>(claims: seq<C>, verify: C -> Verdict, markdown: string, a4On: bool,
                              fix: Fix<C>, agents: Option<seq<string>>)
  {
    var replaced := Proposal(claims, verify, markdown, fix);
    Tried(claims, verify, a4On) && Fits(|claims|, replaced.Keys, agents) && Stands(claims, verify, replaced, agents)
  }

  /** The claims at the end: the updated ones when the repair is accepted, else the given ones. */
  ghost function FinalClaims<C>(claims: seq<C>, verify: C -> Verdict, markdown: string, a4On: bool,
                                fix: Fix<C>, agents: Option<seq<string>>): seq<C>
  {
    if Accepted(claims, verify, markdown, a4On, fix, agents)
    then Updated(claims, Proposal(claims, verify, markdown, fix)) else claims
  }

  // ----- What the chain guarantees -------------------------------------------

  /** A repaired claim is always in the scope it is judged on. */
  lemma RepairedIsInScope(replaced: set<nat>, agents: Option<seq<string>>, i: nat)
    requires i in replaced && (agents.Some? ==> i < |agents.value|)
    ensures InScope(replaced, agents, i)
  {
  }

  /**
    An accepted repair leaves exactly the failures outside its scope, and no claim outside the scope changes;
    so a further run sees only the wrong values of the other analysts.
   */
  lemma FailuresAfter<C>(claims: seq<C>, verify: C -> Verdict, markdown: string, a4On: bool,
                         fix: Fix<C>, agents: Option<seq<string>>, i: nat)
    requires Accepted(claims, verify, markdown, a4On, fix, agents) && i < |claims|
    ensures var replaced := Proposal(claims, verify, markdown, fix).Keys;
            var final := FinalClaims(claims, verify, markdown, a4On, fix, agents);
            && (verify(final[i]).status.Fail? <==> verify(claims[i]).status.Fail? && !InScope(replaced, agents, i))
            && (i in Sparse(final, verify) <==> i in Sparse(claims, verify) && !InScope(replaced, agents, i))
            && (!InScope(replaced, agents, i) ==> final[i] == claims[i])
  {
    hide Proposal, Tried;
    var replaced := Proposal(claims, verify, markdown, fix);
    if i in replaced {
      RepairedIsInScope(replaced.Keys, agents, i);
    }
  }

  ghost predicate AnyFails<C>(claims: seq<C>, verify: C -> Verdict) {
    exists i :: 0 <= i < |claims| && verify(claims[i]).status.Fail?
  }

  lemma WrongValueFails<C>(claims: seq<C>, verify: C -> Verdict)
    requires Sparse(claims, verify) != []
    ensures AnyFails(claims, verify)
  {
    var i := Sparse(claims, verify)[0];
    assert WrongValue(verify(claims[i]));
  }

  /**
    The arbiters compared: judging on all claims accepts a repair exactly when judging on its analysts
    does and no claim of another analyst fails.
   */
  lemma AllAcceptsIff<C>(claims: seq<C>, verify: C -> Verdict, markdown: string, a4On: bool,
                         fix: Fix<C>, agents: seq<string>)
    requires Fits(|claims|, Proposal(claims, verify, markdown, fix).Keys, Some(agents))
    ensures var replaced := Proposal(claims, verify, markdown, fix).Keys;
            Accepted(claims, verify, markdown, a4On, fix, None) <==>
              Accepted(claims, verify, markdown, a4On, fix, Some(agents))
              && forall i: nat :: i < |claims| && verify(claims[i]).status.Fail? ==> InScope(replaced, Some(agents), i)
  {
    hide Proposal, Tried, AgentsOf;
    var replaced := Proposal(claims, verify, markdown, fix);
    var updated := Updated(claims, replaced);
    forall i: nat | i < |claims| && i in replaced ensures InScope(replaced.Keys, Some(agents), i) {
      RepairedIsInScope(replaced.Keys, Some(agents), i);
    }
    assert forall i: nat :: i < |claims| && i !in replaced ==> updated[i] == claims[i];
  }

  /** After a repair accepted on all claims nothing fails, and a second run tries nothing. */
  lemma AcceptedByAllIsFinal<C>(claims: seq<C>, verify: C -> Verdict, markdown: string, a4On: bool, fix: Fix<C>)
    requires Accepted(claims, verify, markdown, a4On, fix, None)
    ensures var final := FinalClaims(claims, verify, markdown, a4On, fix, None);
            !AnyFails(final, verify) && !Tried(final, verify, a4On)
  {
    hide Proposal, Accepted;
    var final := FinalClaims(claims, verify, markdown, a4On, fix, None);
    forall i: nat | i < |final| ensures !verify(final[i]).status.Fail? {
      FailuresAfter(claims, verify, markdown, a4On, fix, None, i);
    }
    if Sparse(final, verify) != [] {
      WrongValueFails(final, verify);
    }
  }

  /** The final claims: each wrong value has the content of its own record, if there is one, and nothing else changes. */
  lemma FinalClaimAt<C>(claims: seq<C>, verify: C -> Verdict, markdown: string, a4On: bool,
                        fix: Fix<C>, agents: Option<seq<string>>, s: nat)
    requires Accepted(claims, verify, markdown, a4On, fix, agents)
    requires s < |Sparse(claims, verify)|
    ensures var final := FinalClaims(claims, verify, markdown, a4On, fix, agents);
            var records := Repaired(claims, verify, markdown, fix).1;
            var at := Sparse(claims, verify)[s];
            && final[at] == (if s < |records| && records[s].Some? then records[s].value else claims[at])
            && forall i: nat :: i < |claims| && i !in Sparse(claims, verify) ==> final[i] == claims[i]
  {
    hide Stands, Sparse, ReplacedBy;
    var sparse, records := Sparse(claims, verify), Repaired(claims, verify, markdown, fix).1;
    ReplacedAt(sparse, records, s);
    ReplacedKeys(sparse, records);
  }

  /** At most two claims change, and each of them was a wrong value. */
  lemma AtMostTwoChange<C>(claims: seq<C>, verify: C -> Verdict, markdown: string, a4On: bool,
                           fix: Fix<C>, agents: Option<seq<string>>)
    ensures var replaced := Proposal(claims, verify, markdown, fix);
            var final := FinalClaims(claims, verify, markdown, a4On, fix, agents);
            && |final| == |claims|
            && (final != claims ==> |replaced| <= 2)
            && forall i: nat :: i < |claims| && final[i] != claims[i] ==>
                 i in replaced && verify(claims[i]).status.Fail? && verify(claims[i]).bucket == "value_mismatch"
  {
    hide Stands, Sparse;
    ReplacedKeys(Sparse(claims, verify), Repaired(claims, verify, markdown, fix).1);
  }

  // ----- The decisions, said of the verdicts ---------------------------------

  /** The claims whose verdict is a failure because of a wrong value. */
  ghost function WrongValues<C>(claims: seq<C>, verify: C -> Verdict): set<int> {
    set i | 0 <= i < |claims| && verify(claims[i]).status == Fail && verify(claims[i]).bucket == "value_mismatch"
  }

  lemma {:induction false} IncreasingSize(s: seq<nat>)
    requires forall a, b :: 0 <= a < b < |s| ==> s[a] < s[b]
    ensures |(set i: int | i in s)| == |s|
  {
    var all := set i: int | i in s;
    if s == [] {
      assert all == {};
    } else {
      var n := |s| - 1;
      IncreasingSize(s[..n]);
      var front := set i: int | i in s[..n];
      assert s == s[..n] + [s[n]];
      assert all == front + {s[n]};
      assert s[n] !in front;
    }
  }

  /** A repair is tried exactly when it is switched on and one or two claims have a wrong value. */
  lemma TriedIff<C>(claims: seq<C>, verify: C -> Verdict, a4On: bool)
    ensures Tried(claims, verify, a4On) <==> a4On && (|WrongValues(claims, verify)| == 1 || |WrongValues(claims, verify)| == 2)
  {
    var sparse := Sparse(claims, verify);
    IncreasingSize(sparse);
    assert WrongValues(claims, verify) == set i: int | i in sparse;
  }

  /** Record `s` of the repair changes claim `i`: the wrong value at place `s` of the list it was given. */
  ghost predicate Changes<C>(claims: seq<C>, verify: C -> Verdict, markdown: string, fix: Fix<C>, s: int, i: int) {
    var sparse, records := Sparse(claims, verify), Repaired(claims, verify, markdown, fix).1;
    0 <= s < |sparse| && sparse[s] == i && s < |records| && records[s].Some?
  }

  /** Which claims the repair would change, and to what. */
  lemma ProposalIs<C>(claims: seq<C>, verify: C -> Verdict, markdown: string, fix: Fix<C>, i: nat)
    ensures i in Proposal(claims, verify, markdown, fix) <==> exists s :: Changes(claims, verify, markdown, fix, s, i)
    ensures forall s :: Changes(claims, verify, markdown, fix, s, i) ==>
              i in Proposal(claims, verify, markdown, fix)
              && Proposal(claims, verify, markdown, fix)[i] == Repaired(claims, verify, markdown, fix).1[s].value
  {
    hide Sparse, Repaired, ReplacedBy;
    var sparse, records := Sparse(claims, verify), Repaired(claims, verify, markdown, fix).1;
    ReplacedKeys(sparse, records);
    forall s | 0 <= s < |sparse|
      ensures sparse[s] in ReplacedBy(sparse, records) <==> s < |records| && records[s].Some?
      ensures s < |records| && records[s].Some? ==> ReplacedBy(sparse, records)[sparse[s]] == records[s].value
    {
      ReplacedAt(sparse, records, s);
    }
    if i in Proposal(claims, verify, markdown, fix) {
      var s :| 0 <= s < |sparse| && sparse[s] == i;
      assert Changes(claims, verify, markdown, fix, s, i);
    }
  }

  /** Claim `i` is judged when `changed` is: without names every claim is, with names those of the same analyst. */
  ghost predicate SameAnalyst(agents: Option<seq<string>>, i: int, changed: int) {
    agents.Some? ==>
      0 <= i < |agents.value| && 0 <= changed < |agents.value| && agents.value[i] == agents.value[changed]
  }

  lemma InScopeIff(replaced: set<nat>, agents: Option<seq<string>>, i: nat)
    requires replaced != {}
    ensures InScope(replaced, agents, i) <==> exists changed: nat :: changed in replaced && SameAnalyst(agents, i, changed)
  {
    if agents.None? {
      assert exists changed: nat :: changed in replaced by {
        Inhabited(replaced);
      }
    }
  }

  lemma Inhabited<T>(s: set<T>)
    requires s != {}
    ensures exists x :: x in s
  {
  }

  /**
    When exactly a repair is accepted: it is tried, changes a claim, the names reach every changed claim and put no claim
    that does not exist beside one, and no claim of an analyst whose claim changed fails in its new form.
   */
  lemma AcceptedIff<C>(claims: seq<C>, verify: C -> Verdict, markdown: string, a4On: bool,
                       fix: Fix<C>, agents: Option<seq<string>>)
    ensures var replaced := Proposal(claims, verify, markdown, fix);
            Accepted(claims, verify, markdown, a4On, fix, agents) <==>
              && a4On && (|WrongValues(claims, verify)| == 1 || |WrongValues(claims, verify)| == 2)
              && replaced.Keys != {}
              && (agents.Some? ==> forall i: nat :: i in replaced ==> i < |agents.value|)
              && (agents.Some? ==> forall i: nat, changed: nat :: |claims| <= i && changed in replaced ==>
                                     !SameAnalyst(agents, i, changed))
              && forall i: nat, changed: nat :: i < |claims| && changed in replaced && SameAnalyst(agents, i, changed) ==>
                   verify(if i in replaced then replaced[i] else claims[i]).status != Fail
  {
    hide Proposal, Sparse, WrongValues, InScope, SameAnalyst, Tried, Fits, Stands;
    var replaced := Proposal(claims, verify, markdown, fix);
    TriedIff(claims, verify, a4On);
    if replaced.Keys != {} {
      FitsAnalysts(|claims|, replaced.Keys, agents);
      StandsIff(claims, verify, replaced, agents);
    } else {
      NothingToJudge(claims, verify, replaced, agents);
    }
  }

  lemma FitsAnalysts(n: nat, replaced: set<nat>, agents: Option<seq<string>>)
    requires replaced != {}
    ensures Fits(n, replaced, agents) <==>
              && (agents.Some? ==> forall i: nat :: i in replaced ==> i < |agents.value|)
              && (agents.Some? ==> forall i: nat, changed: nat :: n <= i && changed in replaced ==> !SameAnalyst(agents, i, changed))
  {
    forall i: nat
      ensures InScope(replaced, agents, i) <==> exists changed: nat :: changed in replaced && SameAnalyst(agents, i, changed)
    {
      InScopeIff(replaced, agents, i);
    }
    if agents.Some? {
      if Fits(n, replaced, agents) {
        forall i: nat, changed: nat | n <= i && changed in replaced ensures !SameAnalyst(agents, i, changed) {
          assert !InScope(replaced, agents, i);
        }
      }
      if forall i: nat, changed: nat :: n <= i && changed in replaced ==> !SameAnalyst(agents, i, changed) {
        assert forall i: nat :: n <= i ==> !InScope(replaced, agents, i);
      }
    }
  }

  lemma StandsIff<C>(claims: seq<C>, verify: C -> Verdict, replaced: map<nat, C>, agents: Option<seq<string>>)
    requires replaced.Keys != {} && forall i: nat :: i in replaced ==> i < |claims|
    ensures Stands(claims, verify, replaced, agents) <==>
              forall i: nat, changed: nat :: i < |claims| && changed in replaced && SameAnalyst(agents, i, changed) ==>
                verify(if i in replaced then replaced[i] else claims[i]).status != Fail
  {
    hide InScope, SameAnalyst;
    var updated := Updated(claims, replaced);
    assert forall i: nat :: i < |claims| ==> updated[i] == if i in replaced then replaced[i] else claims[i];
    forall i: nat
      ensures InScope(replaced.Keys, agents, i) <==> exists changed: nat :: changed in replaced && SameAnalyst(agents, i, changed)
    {
      InScopeIff(replaced.Keys, agents, i);
    }
    if Stands(claims, verify, replaced, agents) {
      forall i: nat, changed: nat | i < |claims| && changed in replaced && SameAnalyst(agents, i, changed)
        ensures verify(if i in replaced then replaced[i] else claims[i]).status != Fail
      {
        assert InScope(replaced.Keys, agents, i);
        assert !verify(updated[i]).status.Fail?;
      }
    } else {
      var i: nat :| i < |claims| && InScope(replaced.Keys, agents, i) && verify(updated[i]).status.Fail?;
      var changed: nat :| changed in replaced && SameAnalyst(agents, i, changed);
    }
  }

  /** The failing verdicts of a class. */
  ghost function InBucket(verdicts: seq<Verdict>, bucket: string, k: nat): set<int>
    requires k <= |verdicts|
  {
    set i | 0 <= i < k && verdicts[i].status == Fail && verdicts[i].bucket == bucket
  }

  lemma InBucketNext(verdicts: seq<Verdict>, bucket: string, k: nat)
    requires k < |verdicts|
    ensures InBucket(verdicts, bucket, 0) == {}
    ensures |InBucket(verdicts, bucket, k + 1)|
            == |InBucket(verdicts, bucket, k)| + if verdicts[k].status == Fail && verdicts[k].bucket == bucket then 1 else 0
  {
    var before, after := InBucket(verdicts, bucket, k), InBucket(verdicts, bucket, k + 1);
    var here := verdicts[k].status == Fail && verdicts[k].bucket == bucket;
    forall i ensures i in after <==> i in before || (i == k && here) {
    }
    assert k !in before;
    hide InBucket;
    assert after == if here then before + {k} else before;
  }

  /** The count of a failure class is the number of failing verdicts in it. */
  lemma {:induction false} BucketIsCount(verdicts: seq<Verdict>, bucket: string, k: nat)
    requires k <= |verdicts|
    ensures CountBucket(verdicts, bucket, k) == |InBucket(verdicts, bucket, k)|
  {
    if k == 0 {
      assert InBucket(verdicts, bucket, 0) == {};
    } else {
      hide InBucket;
      BucketIsCount(verdicts, bucket, k - 1);
      InBucketNext(verdicts, bucket, k - 1);
    }
  }

  // ----- The chain -----------------------------------------------------------

  lemma {:induction false} BucketSeen(verdicts: seq<Verdict>, i: nat, k: nat)
    requires i < k <= |verdicts| && verdicts[i].status.Fail?
    ensures CountBucket(verdicts, verdicts[i].bucket, k) > 0
  {
    if i < k - 1 {
      BucketSeen(verdicts, i, k - 1);
    }
  }

  /** How many verdicts fail in each named failure class; only classes that occur are listed. */
  method CountFailBuckets(verdicts: seq<Verdict>) returns (buckets: map<string, nat>)
    ensures forall b :: b in buckets <==> b != "" && CountBucket(verdicts, b, |verdicts|) > 0
    ensures forall b :: b in buckets ==> buckets[b] == CountBucket(verdicts, b, |verdicts|)
  {
    buckets := map[];
    for k := 0 to |verdicts|
      invariant forall b :: b in buckets <==> b != "" && CountBucket(verdicts, b, k) > 0
      invariant forall b :: b in buckets ==> buckets[b] == CountBucket(verdicts, b, k)
    {
      var v := verdicts[k];
      if v.status.Fail? && v.bucket != "" {
        buckets := buckets[v.bucket := (if v.bucket in buckets then buckets[v.bucket] else 0) + 1];
      }
    }
  }

  /** The verdicts with those of the scope replaced, slot by slot. */
  method Merge(verdicts: seq<Verdict>, scope: seq<nat>, renewed: seq<Verdict>) returns (merged: seq<Verdict>)
    requires |renewed| == |scope|
    requires forall a :: 0 <= a < |scope| ==> scope[a] < |verdicts|
    requires forall a, b :: 0 <= a < b < |scope| ==> scope[a] < scope[b]
    ensures |merged| == |verdicts|
    ensures forall a :: 0 <= a < |scope| ==> merged[scope[a]] == renewed[a]
    ensures forall i: nat :: i < |verdicts| && i !in scope ==> merged[i] == verdicts[i]
  {
    merged := verdicts;
    for slot := 0 to |scope|
      invariant |merged| == |verdicts|
      invariant forall a :: 0 <= a < slot ==> merged[scope[a]] == renewed[a]
      invariant forall i: nat :: i < |verdicts| && i !in scope ==> merged[i] == verdicts[i]
    {
      assert scope[slot] in scope;
      merged := merged[scope[slot] := renewed[slot]];
    }
  }

  lemma UntouchedOutside(n: nat, replaced: set<nat>, agents: Option<seq<string>>, i: nat)
    requires Fits(n, replaced, agents) && i < n && i !in ScopeOf(replaced, agents, n)
    ensures i !in replaced
  {
    if i in replaced {
      RepairedIsInScope(replaced, agents, i);
      assert false;
    }
  }

  /** Incremental re-verification is full verification: merging the scope's verdicts misses nothing. */
  lemma MergedIsFull<C>(claims: seq<C>, verify: C -> Verdict, replaced: map<nat, C>, agents: Option<seq<string>>,
                        scope: seq<nat>, merged: seq<Verdict>)
    requires Fits(|claims|, replaced.Keys, agents) && forall i: nat :: i in replaced ==> i < |claims|
    requires scope == ScopeOf(replaced.Keys, agents, |claims|) && |merged| == |claims|
    requires forall a :: 0 <= a < |scope| ==> merged[scope[a]] == verify(Updated(claims, replaced)[scope[a]])
    requires forall i: nat :: i < |claims| && i !in scope ==> merged[i] == verify(claims[i])
    ensures merged == VerifyAll(Updated(claims, replaced), verify)
  {
    hide InScope, Fits;
    var updated := Updated(claims, replaced);
    forall i: nat | i < |claims| ensures merged[i] == verify(updated[i]) {
      if i in scope {
        var a :| 0 <= a < |scope| && scope[a] == i;
      } else {
        UntouchedOutside(|claims|, replaced.Keys, agents, i);
      }
    }
  }

  /** Re-verify the updated claims of the scope; a repair is accepted when none of them fails. */
  method Judge<C>(claims: seq<C>, verify: C -> Verdict, verdicts: seq<Verdict>, replaced: map<nat, C>,
                  agents: Option<seq<string>>)
    returns (ok: bool, merged: seq<Verdict>)
    requires Fits(|claims|, replaced.Keys, agents) && forall i: nat :: i in replaced ==> i < |claims|
    requires verdicts == VerifyAll(claims, verify) && replaced.Keys != {}
    ensures ok <==> Stands(claims, verify, replaced, agents)
    ensures ok ==> merged == VerifyAll(Updated(claims, replaced), verify)
    ensures !ok ==> merged == verdicts
  {
    hide ScopeOf;
    var updated := Updated(claims, replaced);
    var scope := ReverifyScope(replaced.Keys, agents, |claims|);
    FitsIff(|claims|, replaced.Keys, agents);
    var again := VerifyAll(Select(updated, scope), verify);
    ok := forall a :: 0 <= a < |again| ==> !again[a].status.Fail?;
    merged := verdicts;
    if ok {
      merged := Merge(verdicts, scope, again);
      MergedIsFull(claims, verify, replaced, agents, scope, merged);
      forall i: nat | i < |claims| && InScope(replaced.Keys, agents, i) ensures !verify(updated[i]).status.Fail? {
        assert i in scope;
        var a :| 0 <= a < |scope| && scope[a] == i;
        assert !again[a].status.Fail?;
      }
    } else {
      var a :| 0 <= a < |again| && again[a].status.Fail?;
      assert scope[a] in scope;
      assert InScope(replaced.Keys, agents, scope[a]);
    }
  }

  datatype ChainError = UnknownRepair(name: string) | ScopeOutOfRange

  /** The named repair is the module's own; any other name is refused. */
  function Resolve<C>(repair: Repair<C>, moduleFix: Fix<C>): Result<Fix<C>, ChainError>
    requires !repair.NoRepair?
  {
    match repair
    case Given(fix) => Ok(fix)
    case Named(name) => if name == "module" then Ok(moduleFix) else Err(UnknownRepair(name))
  }

  /** The outcome of a chain whose repair, if any takes part, is `fix`. */
  ghost predicate IsOutcome<C>(o: Outcome<C>, claims: seq<C>, verify: C -> Verdict, markdown: string, tried: bool,
                               fix: Fix<C>, agents: Option<seq<string>>)
  {
    var accepted := tried && Accepted(claims, verify, markdown, true, fix, agents);
    && o.claims == (if accepted then FinalClaims(claims, verify, markdown, true, fix, agents) else claims)
    && o.verdicts == VerifyAll(o.claims, verify)
    && o.markdown == (if accepted then Repaired(claims, verify, markdown, fix).0 else markdown)
    && o.repaired == accepted
    && o.repairedIndices == (if accepted then Proposal(claims, verify, markdown, fix).Keys else {})
    && (o.flagged <==> AnyFails(claims, verify))
    && (forall i: nat :: i in o.failIndices <==> i < |o.claims| && verify(o.claims[i]).status.Fail?)
    && o.arbiter == (if !tried then NotJudged else if agents.Some? && agents.value != [] then ByAgent else ByAll)
    && o.allPass == (if tried then Some(!AnyFails(o.claims, verify)) else None)
    && (forall b :: b in o.failBuckets <==> b != "" && CountBucket(o.verdicts, b, |o.verdicts|) > 0)
    && (forall b :: b in o.failBuckets ==> o.failBuckets[b] == CountBucket(o.verdicts, b, |o.verdicts|))
  }

  method Summarize<C>(claims: seq<C>, verify: C -> Verdict, verdicts: seq<Verdict>)
    returns (fails: seq<nat>, buckets: map<string, nat>)
    requires verdicts == VerifyAll(claims, verify)
    ensures forall i: nat :: i in fails <==> i < |claims| && verify(claims[i]).status.Fail?
    ensures fails != [] <==> AnyFails(claims, verify)
    ensures forall b :: b in buckets <==> b != "" && CountBucket(verdicts, b, |verdicts|) > 0
    ensures forall b :: b in buckets ==> buckets[b] == CountBucket(verdicts, b, |verdicts|)
  {
    fails := FailsOf(verdicts, |verdicts|);
    buckets := CountFailBuckets(verdicts);
    if fails != [] {
      assert verify(claims[fails[0]]).status.Fail?;
    } else {
      forall i: nat | i < |claims| ensures !verify(claims[i]).status.Fail? {
        assert i !in fails;
      }
    }
  }

  /** The scope cannot be taken: the analysts' names do not fit the claims. */
  ghost predicate OutOfRange<C>(claims: seq<C>, verify: C -> Verdict, markdown: string, fix: Fix<C>,
                                agents: Option<seq<string>>)
  {
    var replaced := Proposal(claims, verify, markdown, fix).Keys;
    replaced != {} && !Fits(|claims|, replaced, agents)
  }

  method TryRepair<C>(claims: seq<C>, verify: C -> Verdict, verdicts: seq<Verdict>, sparse: seq<nat>,
                      markdown: string, fix: Fix<C>, agents: Option<seq<string>>)
    returns (fits: bool, accepted: bool, newClaims: seq<C>, newVerdicts: seq<Verdict>, newMarkdown: string,
             repaired: set<nat>)
    requires Tried(claims, verify, true)
    requires verdicts == VerifyAll(claims, verify) && sparse == Sparse(claims, verify)
    ensures fits <==> !OutOfRange(claims, verify, markdown, fix, agents)
    ensures accepted <==> Accepted(claims, verify, markdown, true, fix, agents)
    ensures newClaims == FinalClaims(claims, verify, markdown, true, fix, agents)
    ensures !accepted ==> newClaims == claims
    ensures newVerdicts == VerifyAll(newClaims, verify)
    ensures newMarkdown == if accepted then Repaired(claims, verify, markdown, fix).0 else markdown
    ensures repaired == if accepted then Proposal(claims, verify, markdown, fix).Keys else {}
  {
    hide Tried, Sparse, ReplacedBy, Stands;
    fits, accepted, newClaims, newVerdicts, newMarkdown, repaired := true, false, claims, verdicts, markdown, {};
    var (text, records) := fix(markdown, Failures(claims, verdicts, sparse));
    var replaced := ReplacedBy(sparse, records);
    assert replaced == Proposal(claims, verify, markdown, fix);
    if replaced.Keys != {} {
      FitsIff(|claims|, replaced.Keys, agents);
      fits := agents.Some? ==> forall i :: i in replaced ==> i < |agents.value|;
      if fits {
        fits := forall i :: i in ReverifyScope(replaced.Keys, agents, |claims|) ==> i < |claims|;
      }
      if !fits {
        return;
      }
      var ok, merged := Judge(claims, verify, verdicts, replaced, agents);
      if ok {
        accepted, newClaims, newVerdicts, newMarkdown, repaired :=
          true, Updated(claims, replaced), merged, text, replaced.Keys;
      }
    } else {
      NothingToJudge(claims, verify, replaced, agents);
    }
  }

  lemma NothingToJudge<C>(claims: seq<C>, verify: C -> Verdict, replaced: map<nat, C>, agents: Option<seq<string>>)
    requires forall i: nat :: i in replaced ==> i < |claims|
    requires replaced.Keys == {}
    ensures !Stands(claims, verify, replaced, agents)
  {
  }

  method RunCitationChain<C>(claims: seq<C>, verify: C -> Verdict, markdown: string, a4On: bool,
                             repair: Repair<C>, moduleFix: Fix<C>, agents: Option<seq<string>>)
    returns (r: Result<Outcome<C>, ChainError>)
    ensures var tried := !repair.NoRepair? && Tried(claims, verify, a4On);
            var fix := if repair.Given? then repair.fix else moduleFix;
            if tried && repair.Named? && repair.name != "module" then r == Err(UnknownRepair(repair.name))
            else if tried && OutOfRange(claims, verify, markdown, fix, agents) then r == Err(ScopeOutOfRange)
            else r.Ok? && IsOutcome(r.value, claims, verify, markdown, tried, fix, agents)
  {
    hide Accepted, Proposal, Repaired, Sparse, FinalClaims, OutOfRange, AnyFails, CountBucket;
    var verdicts := VerifyAll(claims, verify);
    var sparse := Sparse(claims, verify);
    var tried := a4On && !repair.NoRepair? && 0 < |sparse| < SPARSE_REPAIR_LIMIT;
    var accepted, newClaims, newVerdicts, newMarkdown, repaired := false, claims, verdicts, markdown, {};
    if tried {
      var resolved := Resolve(repair, moduleFix);
      if resolved.Err? {
        return Err(resolved.error);
      }
      var fix := resolved.value;
      var fits;
      fits, accepted, newClaims, newVerdicts, newMarkdown, repaired :=
        TryRepair(claims, verify, verdicts, sparse, markdown, fix, agents);
      if !fits {
        return Err(ScopeOutOfRange);
      }
      WrongValueFails(claims, verify);
    }
    var fails, buckets := Summarize(newClaims, verify, newVerdicts);
    var arbiter :=
      if !tried then NotJudged else if agents.Some? && agents.value != [] then ByAgent else ByAll;
    r := Ok(Outcome(newClaims, newVerdicts, fails != [] || accepted, fails, repaired, accepted, arbiter,
                    if tried then Some(fails == []) else None, buckets, newMarkdown));
  }
}
