/**
  What the scanner's reading of a text means (evals/judge_calibration/material.py), said without stepping through it:
  where a string begins and ends, and how deep the braces outside strings are nested.
 */
module QuotedDepth {
  import opened JsonBlocks

  /** How many backslashes stand directly before position `i`. */
  function Backslashes(text: string, i: nat): nat
    requires i <= |text|
  {
    if i == 0 || text[i - 1] != '\\' then 0 else Backslashes(text, i - 1) + 1
  }

  /** A character of a string is escaped exactly when an odd number of backslashes precedes it. */
  lemma {:induction false} EscapedIff(text: string, i: nat)
    requires i <= |text|
    ensures LexAt(text, i).esc <==> LexAt(text, i).inStr && Backslashes(text, i) % 2 == 1
  {
    if i > 0 {
      EscapedIff(text, i - 1);
      if !LexAt(text, i - 1).inStr && LexAt(text, i).inStr {
        assert text[i - 1] == '\"';
      }
    }
  }

  /** Position `a` opens a string that is still open in front of `i`: every quote in between is escaped. */
  ghost predicate OpenSince(text: string, a: nat, i: nat)
    requires i <= |text|
  {
    && a < i && text[a] == '\"' && !LexAt(text, a).inStr
    && forall b :: a < b < i && text[b] == '\"' ==> Backslashes(text, b) % 2 == 1
  }

  /** A position is inside a string exactly when some quote opened one that no unescaped quote has closed. */
  lemma {:induction false} InStringIff(text: string, i: nat)
    requires i <= |text|
    ensures LexAt(text, i).inStr <==> exists a :: OpenSince(text, a, i)
    decreases i
  {
    if i > 0 {
      InStringIff(text, i - 1);
      EscapedIff(text, i - 1);
      var n := i - 1;
      forall a: nat ensures OpenSince(text, a, i) <==>
                              if a == n then text[n] == '\"' && !LexAt(text, n).inStr
                              else OpenSince(text, a, n) && (text[n] == '\"' ==> Backslashes(text, n) % 2 == 1)
      {
      }
      if !LexAt(text, n).inStr && text[n] == '\"' {
        assert OpenSince(text, n, i);
      }
    }
  }

  /** The braces of this kind outside strings from `k` up to `i`. */
  ghost function Braces(text: string, brace: char, k: nat, i: nat): set<int>
    requires i <= |text|
  {
    set j: int | k <= j < i && text[j] == brace && !LexAt(text, j).inStr
  }

  ghost function Net(text: string, k: nat, i: nat): int
    requires i <= |text|
  {
    |Braces(text, '{', k, i)| - |Braces(text, '}', k, i)|
  }

  lemma BracesNext(text: string, brace: char, k: nat, i: nat)
    requires k <= i < |text|
    ensures |Braces(text, brace, k, k)| == 0
    ensures |Braces(text, brace, k, i + 1)|
            == |Braces(text, brace, k, i)| + if text[i] == brace && !LexAt(text, i).inStr then 1 else 0
  {
    hide LexAt;
    var before, after := Braces(text, brace, k, i), Braces(text, brace, k, i + 1);
    var here := text[i] == brace && !LexAt(text, i).inStr;
    assert Braces(text, brace, k, k) == {};
    forall j ensures j in after <==> j in before || (j == i && here) {
    }
    assert i !in before;
    hide Braces;
    assert after == if here then before + {i} else before;
  }

  /** What a character does to the surplus of opening braces. */
  function Change(text: string, i: nat): int
    requires i < |text|
  {
    if LexAt(text, i).inStr then 0 else if text[i] == '{' then 1 else if text[i] == '}' then -1 else 0
  }

  lemma NetNext(text: string, k: nat, i: nat)
    requires k <= i < |text|
    ensures Net(text, k, i + 1) == Net(text, k, i) + Change(text, i)
  {
    hide Braces, LexAt;
    BracesNext(text, '{', k, i);
    BracesNext(text, '}', k, i);
  }

  lemma NothingYet(text: string, i: nat)
    requires i <= |text|
    ensures Net(text, i, i) == 0
  {
    assert forall brace :: Braces(text, brace, i, i) == {};
  }

  lemma DepthStep(text: string, i: nat)
    requires i < |text|
    ensures var d := LexAt(text, i).depth + Change(text, i); LexAt(text, i + 1).depth == if d >= 0 then d else 0
  {
  }

  /** No stretch that ends at `i` has a greater surplus than `d`, and one has just that. */
  ghost predicate IsGreatest(text: string, i: nat, d: int)
    requires i <= |text|
  {
    && (forall k: nat :: k <= i ==> Net(text, k, i) <= d)
    && exists k: nat :: k <= i && Net(text, k, i) == d
  }

  lemma GreatestNext(text: string, i: nat, d: int)
    requires i < |text| && IsGreatest(text, i, d)
    ensures IsGreatest(text, i + 1, if d + Change(text, i) >= 0 then d + Change(text, i) else 0)
  {
    hide Net, Change;
    var e, next := if d + Change(text, i) >= 0 then d + Change(text, i) else 0, i + 1;
    NothingYet(text, next);
    forall k: nat | k <= next ensures Net(text, k, next) <= e {
      if k <= i {
        NetNext(text, k, i);
      }
    }
    var best: nat :| best <= i && Net(text, best, i) == d;
    NetNext(text, best, i);
    var here := if d + Change(text, i) >= 0 then best else next;
    assert Net(text, here, next) == e;
  }

  /**
    The depth is the greatest surplus of opening over closing braces outside strings that any stretch ending here has:
    surplus closing braces are forgotten.
   */
  lemma {:induction false} DepthIsGreatestSurplus(text: string, i: nat)
    requires i <= |text|
    ensures IsGreatest(text, i, LexAt(text, i).depth)
    decreases i
  {
    if i == 0 {
      NothingYet(text, 0);
    } else {
      hide LexAt, IsGreatest, Change;
      DepthIsGreatestSurplus(text, i - 1);
      DepthStep(text, i - 1);
      GreatestNext(text, i - 1, LexAt(text, i - 1).depth);
    }
  }
}
