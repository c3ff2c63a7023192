/**
  The launcher's pattern reader (scripts/FinanceAgentLauncher.cs) on any text, whoever wrote it: what
  `"key"\s*:\s*(\d+)` matches, and what number comes of it.
 */
module StateReader {
  import opened LauncherState
  import opened Wrappers

  predicate AllSpaces(s: string) {
    forall k :: 0 <= k < |s| ==> IsSpace(s[k])
  }

  /** A whole run of digits: at least one, and no further digit behind it. */
  predicate DigitRun(digits: string, rest: string) {
    && digits != "" && (forall k :: 0 <= k < |digits| ==> IsDigit(digits[k]))
    && (rest == "" || !IsDigit(rest[0]))
  }

  /** What comes behind the key: spaces, a colon, spaces, the digits and the rest of the text. */
  function Behind(before: string, after: string, digits: string, rest: string): string {
    before + (":" + (after + (digits + rest)))
  }

  function Quoted(key: string): string {
    "\"" + key + "\""
  }

  /** The pattern matches at the beginning of the text and captures these digits. */
  ghost predicate Matches(t: string, key: string, digits: string) {
    exists before, after, rest :: MatchesWith(t, key, before, after, digits, rest)
  }

  ghost predicate MatchesWith(t: string, key: string, before: string, after: string, digits: string, rest: string) {
    AllSpaces(before) && AllSpaces(after) && DigitRun(digits, rest) && t == Quoted(key) + Behind(before, after, digits, rest)
  }

  // ----- The parts of the pattern --------------------------------------------

  lemma {:induction false} AfterIff(t: string, lit: string)
    ensures After(t, lit) == if lit <= t then Some(t[|lit|..]) else None
    decreases |lit|
  {
    if lit != "" && t != "" {
      AfterIff(t[1..], lit[1..]);
      if t[0] == lit[0] {
        assert lit[1..] <= t[1..] <==> lit <= t;
        if lit <= t {
          assert t[1..][|lit[1..]|..] == t[|lit|..];
        }
      }
    }
  }

  lemma {:induction false} SkipsSpaces(spaces: string, rest: string)
    requires AllSpaces(spaces) && (rest == "" || !IsSpace(rest[0]))
    ensures SkipSpaces(spaces + rest) == rest
    decreases |spaces|
  {
    if spaces == "" {
      assert spaces + rest == rest;
    } else {
      assert (spaces + rest)[1..] == spaces[1..] + rest;
      SkipsSpaces(spaces[1..], rest);
    }
  }

  /** What is skipped is spaces, and all of them. */
  lemma {:induction false} Skipped(t: string) returns (spaces: string)
    ensures AllSpaces(spaces) && t == spaces + SkipSpaces(t)
    ensures SkipSpaces(t) == "" || !IsSpace(SkipSpaces(t)[0])
    decreases |t|
  {
    if t != "" && IsSpace(t[0]) {
      var more := Skipped(t[1..]);
      spaces := [t[0]] + more;
      assert t == [t[0]] + t[1..];
    } else {
      spaces := "";
    }
  }

  lemma {:induction false} Taken(t: string) returns (rest: string)
    ensures t == TakeDigits(t) + rest && (rest == "" || !IsDigit(rest[0]))
    ensures forall k :: 0 <= k < |TakeDigits(t)| ==> IsDigit(TakeDigits(t)[k])
    decreases |t|
  {
    hide IsDigit;
    if t != "" && IsDigit(t[0]) {
      rest := Taken(t[1..]);
      assert t == [t[0]] + t[1..];
    } else {
      rest := t;
    }
  }

  /** No digit is a space: the zeros of the scripts and their nine successors lie between the spaces. */
  lemma NoDigitIsSpace(c: char)
    requires IsDigit(c)
    ensures !IsSpace(c) && c != ':'
  {
    if !IsAsciiDigit(c) {
      var z :| z in OTHER_ZEROS && 0 <= c as int - z as int < 10;
      ZerosAreNoSpaces(z);
    }
  }

  /** The stretch of a digit class holds no space. */
  lemma ZerosAreNoSpaces(z: char)
    requires z in OTHER_ZEROS
    ensures z as int + 9 < 0x1680 || 0x1680 < z as int < z as int + 9 < 0x2000 || 0x3000 < z as int
    ensures 0xA0 < z as int
  {
  }

  // ----- What matches --------------------------------------------------------

  lemma AfterKeyIff(t: string, digits: string)
    ensures AfterKey(t) == Some(digits) <==>
              exists before, after, rest ::
                AllSpaces(before) && AllSpaces(after) && DigitRun(digits, rest) && t == Behind(before, after, digits, rest)
  {
    if AfterKey(t) == Some(digits) {
      AfterKeyIsPattern(t, digits);
    }
    if before, after, rest :| AllSpaces(before) && AllSpaces(after) && DigitRun(digits, rest)
                              && t == Behind(before, after, digits, rest) {
      PatternIsAfterKey(before, after, digits, rest);
    }
  }

  lemma AfterKeyIsPattern(t: string, digits: string)
    requires AfterKey(t) == Some(digits)
    ensures exists before, after, rest ::
              AllSpaces(before) && AllSpaces(after) && DigitRun(digits, rest) && t == Behind(before, after, digits, rest)
  {
    hide SkipSpaces, TakeDigits, IsSpace, IsDigit;
    var before := Skipped(t);
    var u := SkipSpaces(t);
    var after := Skipped(u[1..]);
    var rest := Taken(SkipSpaces(u[1..]));
    assert u == ":" + u[1..];
    assert t == Behind(before, after, digits, rest);
  }

  lemma PatternIsAfterKey(before: string, after: string, digits: string, rest: string)
    requires AllSpaces(before) && AllSpaces(after) && DigitRun(digits, rest)
    ensures AfterKey(Behind(before, after, digits, rest)) == Some(digits)
  {
    hide SkipSpaces, TakeDigits, IsDigit;
    var inner := digits + rest;
    NoDigitIsSpace(digits[0]);
    assert inner[0] == digits[0];
    SkipsSpaces(after, inner);
    TakeAllDigits(digits, rest);
    var u := ":" + (after + inner);
    assert !IsSpace(u[0]) && u[1..] == after + inner;
    SkipsSpaces(before, u);
  }

  /** The reader's match at the beginning of a text is the pattern's. */
  lemma MatchHereIff(t: string, key: string, digits: string)
    ensures MatchHere(t, key) == Some(digits) <==> Matches(t, key, digits)
  {
    hide AfterKey, AllSpaces, DigitRun, Behind;
    var lit := Quoted(key);
    AfterIff(t, lit);
    if MatchHere(t, key) == Some(digits) {
      var tail := t[|lit|..];
      AfterKeyIff(tail, digits);
      var before, after, rest :| AllSpaces(before) && AllSpaces(after) && DigitRun(digits, rest)
                                 && tail == Behind(before, after, digits, rest);
      assert t == lit + tail;
      assert MatchesWith(t, key, before, after, digits, rest);
    }
    if Matches(t, key, digits) {
      var before, after, rest :| MatchesWith(t, key, before, after, digits, rest);
      var tail := Behind(before, after, digits, rest);
      assert lit <= t && t[|lit|..] == tail;
      AfterKeyIff(tail, digits);
    }
  }

  // ----- The leftmost match --------------------------------------------------

  /** The pattern matches nowhere before position `i`. */
  ghost predicate NoMatchBefore(t: string, key: string, i: nat) {
    forall j, digits :: 0 <= j < i && j <= |t| ==> !Matches(t[j..], key, digits)
  }

  /** The digits found are those of the leftmost match, and nothing is found when there is none. */
  lemma {:induction false} FindIff(t: string, key: string, digits: string)
    ensures Find(t, key) == Some(digits) <==> exists i: nat :: i <= |t| && NoMatchBefore(t, key, i) && Matches(t[i..], key, digits)
    decreases |t|
  {
    hide Matches, MatchHere;
    MatchHereIff(t, key, digits);
    assert t[0..] == t;
    if t == "" {
      NothingInNothing(key, digits);
    } else {
      FindIff(t[1..], key, digits);
      FirstOrLater(t, key, digits);
    }
  }

  lemma NothingInNothing(key: string, digits: string)
    ensures !Matches("", key, digits)
  {
  }

  lemma FirstOrLater(t: string, key: string, digits: string)
    requires t != ""
    requires Find(t[1..], key) == Some(digits)
             <==> exists i: nat :: i <= |t[1..]| && NoMatchBefore(t[1..], key, i) && Matches(t[1..][i..], key, digits)
    ensures Find(t, key) == Some(digits) <==> exists i: nat :: i <= |t| && NoMatchBefore(t, key, i) && Matches(t[i..], key, digits)
  {
    hide Matches, MatchHere, Find;
    FindStep(t, key);
    forall d ensures MatchHere(t, key) == Some(d) <==> Matches(t, key, d) {
      MatchHereIff(t, key, d);
    }
    assert t[0..] == t;
    if MatchHere(t, key).Some? {
      var d := MatchHere(t, key).value;
      assert Matches(t[0..], key, d);
      assert NoMatchBefore(t, key, 0);
      forall i: nat | i <= |t| && NoMatchBefore(t, key, i) ensures i == 0 {
      }
    } else {
      forall i: nat | i <= |t[1..]|
        ensures t[1..][i..] == t[i + 1..] && (NoMatchBefore(t[1..], key, i) <==> NoMatchBefore(t, key, i + 1))
      {
        LaterStart(t, key, i);
      }
      if i: nat :| i <= |t| && NoMatchBefore(t, key, i) && Matches(t[i..], key, digits) {
        assert i > 0;
        assert t[1..][i - 1..] == t[i..] && NoMatchBefore(t[1..], key, i - 1);
      }
    }
  }

  lemma FindStep(t: string, key: string)
    requires t != ""
    ensures Find(t, key) == if MatchHere(t, key).Some? then MatchHere(t, key) else Find(t[1..], key)
  {
  }

  lemma LaterStart(t: string, key: string, i: nat)
    requires t != "" && i <= |t[1..]| && forall d :: !Matches(t, key, d)
    ensures t[1..][i..] == t[i + 1..]
    ensures NoMatchBefore(t[1..], key, i) <==> NoMatchBefore(t, key, i + 1)
  {
    hide Matches;
    assert t[0..] == t;
    assert forall j :: 0 <= j <= |t[1..]| ==> t[1..][j..] == t[j + 1..];
    if NoMatchBefore(t[1..], key, i) {
      forall j, d | 0 <= j < i + 1 && j <= |t| ensures !Matches(t[j..], key, d) {
        if j > 0 {
          assert t[1..][j - 1..] == t[j..];
        }
      }
    }
    if NoMatchBefore(t, key, i + 1) {
      forall j, d | 0 <= j < i && j <= |t[1..]| ensures !Matches(t[1..][j..], key, d) {
        assert t[1..][j..] == t[j + 1..];
      }
    }
  }

  // ----- The number ----------------------------------------------------------

  predicate AllZeros(zeros: string) {
    forall k :: 0 <= k < |zeros| ==> zeros[k] == '0'
  }

  lemma {:induction false} LeadingZeros(zeros: string, digits: string)
    requires AllZeros(zeros) && AllAscii(digits)
    ensures AllAscii(zeros + digits) && Parse(zeros + digits) == Parse(digits)
    decreases |digits|, |zeros|
  {
    if digits != "" {
      var n := |digits| - 1;
      LeadingZeros(zeros, digits[..n]);
      assert (zeros + digits)[..|zeros + digits| - 1] == zeros + digits[..n];
    } else if zeros != "" {
      var m := |zeros| - 1;
      LeadingZeros(zeros[..m], digits);
      assert (zeros + digits)[..|zeros + digits| - 1] == zeros[..m] + digits;
    } else {
      assert zeros + digits == digits;
    }
  }

  /** A key, a colon and a decimal number, with spaces wherever the pattern has them, and perhaps leading zeros. */
  function Spaced(key: string, before: string, after: string, zeros: string, n: nat, rest: string): string {
    Quoted(key) + Behind(before, after, zeros + Dec(n), rest)
  }

  /**
    In any text whose leftmost match is a number so written, that number is read; beyond 64 bits it reads as 0, and
    the 32-bit reader stops at its greatest integer.
   */
  lemma SpacedNumberReads(front: string, key: string, before: string, after: string, zeros: string, n: nat, rest: string)
    requires AllSpaces(before) && AllSpaces(after) && AllZeros(zeros) && (rest == "" || !IsDigit(rest[0]))
    requires NoMatchBefore(front + Spaced(key, before, after, zeros, n, rest), key, |front|)
    ensures var t := front + Spaced(key, before, after, zeros, n, rest);
            && ReadLong(t, key) == (if n <= LONG_MAX then n else 0)
            && ReadInt(t, key) == if n <= INT_MAX then n else if n <= LONG_MAX then INT_MAX else 0
  {
    hide Find, Behind, Dec, AllSpaces, NoMatchBefore, Parse, AllZeros;
    var spaced, digits := Spaced(key, before, after, zeros, n, rest), zeros + Dec(n);
    var t := front + spaced;
    ParseDec(n);
    LeadingZeros(zeros, Dec(n));
    assert t[|front|..] == spaced;
    assert MatchesWith(spaced, key, before, after, digits, rest);
    FindIff(t, key, digits);
  }

  /** Without a match the number is 0. */
  lemma NoMatchReadsZero(t: string, key: string)
    requires NoMatchBefore(t, key, |t| + 1)
    ensures ReadLong(t, key) == 0 && ReadInt(t, key) == 0
  {
    hide Find, Matches;
    if Find(t, key).Some? {
      FindIff(t, key, Find(t, key).value);
      assert false;
    }
  }

  /** A run of digits that are not all of ASCII is a match that reads as 0, whatever number stands behind it. */
  lemma OtherDigitsReadZero(front: string, key: string, before: string, after: string, digits: string, rest: string)
    requires AllSpaces(before) && AllSpaces(after) && DigitRun(digits, rest) && !AllAscii(digits)
    requires NoMatchBefore(front + (Quoted(key) + Behind(before, after, digits, rest)), key, |front|)
    ensures ReadLong(front + (Quoted(key) + Behind(before, after, digits, rest)), key) == 0
  {
    hide Find, Behind, AllSpaces, NoMatchBefore, DigitRun;
    var tail := Quoted(key) + Behind(before, after, digits, rest);
    var t := front + tail;
    assert t[|front|..] == tail;
    assert MatchesWith(tail, key, before, after, digits, rest);
    FindIff(t, key, digits);
  }
}
