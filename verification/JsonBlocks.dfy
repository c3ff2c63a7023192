/**
  The scanner that cuts the top-level `{...}` blocks out of a judge's material
  (evals/judge_calibration/material.py), and the JSON printer it has to cope with
  (strings and escapes as in section 7 of RFC 8259).

  Two results: on any text the blocks are exactly the excursions of the quote-aware
  nesting depth away from 0, and on printed JSON objects the scanner undoes the printer.
 */
module JsonBlocks {

  // ----- The lexical reading of a text ---------------------------------------

  /** Where a character stands: nesting depth, inside a string, just after a backslash. */
  datatype Lex = Lex(depth: nat, inStr: bool, esc: bool)

  function Step(l: Lex, c: char): Lex {
    if l.inStr then
      if l.esc then l.(esc := false)
      else if c == '\\' then l.(esc := true)
      else if c == '\"' then l.(inStr := false)
      else l
    else if c == '\"' then l.(inStr := true)
    else if c == '{' then l.(depth := l.depth + 1)
    else if c == '}' && l.depth > 0 then l.(depth := l.depth - 1)
    else l
  }

  /** The lexical state in front of position `i`. */
  function LexAt(text: string, i: nat): Lex
    requires i <= |text|
  {
    if i == 0 then Lex(0, false, false) else Step(LexAt(text, i - 1), text[i - 1])
  }

  /** `text[a..b]` is a top-level block: the depth is 0 at both ends and positive in between. */
  ghost predicate IsBlock(text: string, a: int, b: int) {
    && 0 <= a && a + 2 <= b <= |text|
    && LexAt(text, a).depth == 0
    && LexAt(text, b).depth == 0
    && forall k :: a < k < b ==> LexAt(text, k).depth > 0
  }

  // ----- The scanner ---------------------------------------------------------

  datatype Span = Span(lo: nat, hi: nat)

  /** The scanner's variables after `pos` characters; `start` is -1 outside a block. */
  datatype Scan = Scan(pos: nat, lex: Lex, start: int, spans: seq<Span>)

  const FRESH := Scan(0, Lex(0, false, false), -1, [])

  function Advance(s: Scan, c: char): Scan {
    var lex := Step(s.lex, c);
    var moved := s.(pos := s.pos + 1, lex := lex);
    if lex.depth > 0 && s.lex.depth == 0 then moved.(start := s.pos)
    else if lex.depth == 0 && s.lex.depth > 0 && s.start >= 0 then
      moved.(start := -1, spans := s.spans + [Span(s.start, s.pos + 1)])
    else moved
  }

  function Run(s: Scan, text: string): Scan
    decreases |text|
  {
    if text == "" then s else Run(Advance(s, text[0]), text[1..])
  }

  function Spans(text: string): seq<Span> {
    Run(FRESH, text).spans
  }

  ghost predicate Within(spans: seq<Span>, text: string) {
    forall k :: 0 <= k < |spans| ==> spans[k].lo <= spans[k].hi <= |text|
  }

  function Cut(text: string, spans: seq<Span>): seq<string>
    requires Within(spans, text)
  {
    seq(|spans|, k requires 0 <= k < |spans| => text[spans[k].lo..spans[k].hi])
  }

  /** The scanner `s` stands at position `i` of the text, and `blocks` are the texts of its spans. */
  ghost predicate Follows(s: Scan, text: string, i: nat, blocks: seq<string>) {
    && i <= |text| && Run(s, text[i..]) == Run(FRESH, text)
    && Within(s.spans, text) && blocks == Cut(text, s.spans)
  }

  lemma FollowsNext(s: Scan, text: string, i: nat, blocks: seq<string>)
    requires i < |text| && Follows(s, text, i, blocks)
    ensures var t := Advance(s, text[i]);
            && (t.spans == s.spans ==> Follows(t, text, i + 1, blocks))
            && (0 <= s.start <= i && t.spans == s.spans + [Span(s.start, i + 1)] ==>
                  Follows(t, text, i + 1, blocks + [text[s.start..i + 1]]))
  {
    hide Advance;
    assert text[i..][0] == text[i] && text[i..][1..] == text[i + 1..];
  }

  lemma FollowsAtEnds(text: string)
    ensures Follows(FRESH, text, 0, [])
    ensures forall s, blocks :: Follows(s, text, |text|, blocks) ==>
              s.spans == Spans(text) && Within(s.spans, text) && blocks == Cut(text, s.spans)
  {
    assert text[0..] == text && text[|text|..] == "";
  }

  /** The scanning loop. */
  method TopLevelJsonBlocks(text: string) returns (blocks: seq<string>)
    ensures Within(Spans(text), text)
    ensures blocks == Cut(text, Spans(text))
  {
    hide Follows, Run, Cut, Within, Spans;
    blocks := [];
    var depth: nat, start, inStr, esc := 0, -1, false, false;
    ghost var s := FRESH;
    FollowsAtEnds(text);
    var i := 0;
    while i < |text|
      invariant 0 <= i <= |text|
      invariant s == Scan(i, Lex(depth, inStr, esc), start, s.spans)
      invariant start < i && -1 <= start && (depth > 0 ==> start >= 0)
      invariant Follows(s, text, i, blocks)
    {
      var ch := text[i];
      FollowsNext(s, text, i, blocks);
      s := Advance(s, ch);
      if inStr {
        if esc {
          esc := false;
        } else if ch == '\\' {
          esc := true;
        } else if ch == '\"' {
          inStr := false;
        }
      } else if ch == '\"' {
        inStr := true;
      } else if ch == '{' {
        if depth == 0 {
          start := i;
        }
        depth := depth + 1;
      } else if ch == '}' && depth > 0 {
        depth := depth - 1;
        if depth == 0 && start >= 0 {
          blocks := blocks + [text[start..i + 1]];
          start := -1;
        }
      }
      i := i + 1;
    }
  }

  // ----- Exactness on any text -----------------------------------------------

  lemma {:induction false} RunConcat(s: Scan, a: string, b: string)
    ensures Run(s, a + b) == Run(Run(s, a), b)
    decreases |a|
  {
    if a == "" {
      assert a + b == b;
    } else {
      assert (a + b)[0] == a[0] && (a + b)[1..] == a[1..] + b;
      RunConcat(Advance(s, a[0]), a[1..], b);
    }
  }

  lemma RunOne(s: Scan, c: char)
    ensures Run(s, [c]) == Advance(s, c)
  {
    assert [c][1..] == "";
  }

  lemma RunBetween(s: Scan, a: char, inner: string, b: char)
    ensures Run(s, [a] + inner + [b]) == Advance(Run(Advance(s, a), inner), b)
  {
    RunOne(s, a);
    RunConcat(s, [a], inner);
    RunConcat(s, [a] + inner, [b]);
    RunOne(Run(Advance(s, a), inner), b);
  }

  ghost predicate Ordered(spans: seq<Span>) {
    forall j, k :: 0 <= j < k < |spans| ==> spans[j].hi <= spans[k].lo
  }

  /** What the scanner knows after `i` characters. */
  ghost predicate Knows(s: Scan, text: string, i: nat)
    requires i <= |text|
  {
    && s.pos == i && s.lex == LexAt(text, i)
    && (s.lex.depth == 0 ==> s.start == -1)
    && (s.lex.depth > 0 ==>
          0 <= s.start < i && LexAt(text, s.start).depth == 0
          && forall k :: s.start < k <= i ==> LexAt(text, k).depth > 0)
    && Ordered(s.spans)
    && (forall k :: 0 <= k < |s.spans| ==>
          s.spans[k].hi <= (if s.start >= 0 then s.start else i))
    && (forall sp :: sp in s.spans <==> sp.hi <= i && IsBlock(text, sp.lo, sp.hi))
  }

  /** A block that ends at the next character can only have begun at `start`. */
  lemma OpeningIsStart(s: Scan, text: string, i: nat, lo: nat)
    requires i < |text| && Knows(s, text, i)
    requires IsBlock(text, lo, i + 1)
    ensures s.lex.depth > 0 && s.start == lo
  {
    assert LexAt(text, i).depth > 0;
    assert LexAt(text, s.start).depth == 0 && LexAt(text, lo).depth == 0;
  }

  /** A block that ends here is the one the scanner has just closed. */
  lemma ClosedHere(s: Scan, text: string, i: nat, lo: nat)
    requires i < |text| && Knows(s, text, i)
    ensures IsBlock(text, lo, i + 1) <==>
            s.lex.depth > 0 && Step(s.lex, text[i]).depth == 0 && s.start == lo
  {
    assert LexAt(text, i + 1) == Step(LexAt(text, i), text[i]);
    if IsBlock(text, lo, i + 1) {
      OpeningIsStart(s, text, i, lo);
    }
  }

  lemma SpansAfterStep(s: Scan, text: string, i: nat)
    requires i < |text| && Knows(s, text, i)
    ensures var t := Advance(s, text[i]);
            forall sp :: sp in t.spans <==> sp.hi <= i + 1 && IsBlock(text, sp.lo, sp.hi)
  {
    var t := Advance(s, text[i]);
    forall sp: Span
      ensures sp in t.spans <==> sp.hi <= i + 1 && IsBlock(text, sp.lo, sp.hi)
    {
      if sp.hi == i + 1 {
        ClosedHere(s, text, i, sp.lo);
      }
    }
  }

  lemma KnowsAfterStep(s: Scan, text: string, i: nat)
    requires i < |text| && Knows(s, text, i)
    ensures Knows(Advance(s, text[i]), text, i + 1)
  {
    SpansAfterStep(s, text, i);
  }

  lemma {:induction false} ScanKnows(text: string, i: nat)
    requires i <= |text|
    ensures Knows(Run(FRESH, text[..i]), text, i)
    decreases i
  {
    if i > 0 {
      ScanKnows(text, i - 1);
      var s := Run(FRESH, text[..i - 1]);
      assert text[..i] == text[..i - 1] + [text[i - 1]];
      RunConcat(FRESH, text[..i - 1], [text[i - 1]]);
      KnowsAfterStep(s, text, i - 1);
      RunOne(s, text[i - 1]);
    }
  }

  /** The blocks are in order, disjoint, and exactly the excursions of the depth away from 0. */
  lemma BlocksAreExactlyTheExcursions(text: string)
    ensures Ordered(Spans(text))
    ensures forall lo: nat, hi: nat :: Span(lo, hi) in Spans(text) <==> IsBlock(text, lo, hi)
  {
    ScanKnows(text, |text|);
    assert text[..|text|] == text;
    assert forall lo: nat, hi: nat :: Span(lo, hi).hi == hi && Span(lo, hi).lo == lo;
  }

  // ----- The printer ---------------------------------------------------------

  datatype Json =
    | Atom(text: string)
    | Str(value: string)
    | Arr(items: seq<Json>)
    | Obj(members: seq<Member>)

  datatype Member = Member(key: string, value: Json)

  const HEX := "0123456789abcdef"

  /** How section 7 of RFC 8259 spells one character inside a string. */
  function EscapeChar(c: char): string {
    if c == '\"' then "\\\""
    else if c == '\\' then "\\\\"
    else if c == '\n' then "\\n"
    else if c == '\r' then "\\r"
    else if c == '\t' then "\\t"
    else if c < ' ' then "\\u00" + [HEX[c as int / 16], HEX[c as int % 16]]
    else [c]
  }

  function EscapeString(s: string): string {
    if s == "" then "" else EscapeChar(s[0]) + EscapeString(s[1..])
  }

  function Quoted(s: string): string {
    "\"" + EscapeString(s) + "\""
  }

  function Print(j: Json): string
    decreases j
  {
    match j
    case Atom(text) => text
    case Str(value) => Quoted(value)
    case Arr(items) => "[" + PrintItems(items) + "]"
    case Obj(members) => "{" + PrintMembers(members) + "}"
  }

  function PrintItems(items: seq<Json>): string
    decreases items
  {
    if items == [] then ""
    else Print(items[0]) + (if |items| == 1 then "" else ", ") + PrintItems(items[1..])
  }

  function PrintMembers(members: seq<Member>): string
    decreases members
  {
    if members == [] then ""
    else Quoted(members[0].key) + ": " + Print(members[0].value)
         + (if |members| == 1 then "" else ", ") + PrintMembers(members[1..])
  }

  /** Numbers and the three literals are written without quotes or braces. */
  predicate Plain(text: string) {
    forall k :: 0 <= k < |text| ==> text[k] != '\"' && text[k] != '{' && text[k] != '}'
  }

  ghost predicate WellFormed(j: Json)
    decreases j
  {
    match j
    case Atom(text) => Plain(text)
    case Str(_) => true
    case Arr(items) => forall k :: 0 <= k < |items| ==> WellFormed(items[k])
    case Obj(members) => forall k :: 0 <= k < |members| ==> WellFormed(members[k].value)
  }

  // ----- The scanner undoes the printer --------------------------------------

  ghost predicate Outside(s: Scan) {
    !s.lex.inStr && !s.lex.esc
  }

  /** Reading `text` from `s` changes nothing but the position. */
  ghost predicate PassesOver(s: Scan, text: string) {
    Run(s, text) == s.(pos := s.pos + |text|)
  }

  lemma PassesConcat(s: Scan, a: string, b: string)
    requires PassesOver(s, a) && PassesOver(s.(pos := s.pos + |a|), b)
    ensures PassesOver(s, a + b)
  {
    RunConcat(s, a, b);
  }

  lemma {:induction false} PassesPlain(s: Scan, text: string)
    requires Outside(s) && Plain(text)
    ensures PassesOver(s, text)
    decreases |text|
  {
    if text != "" {
      PassesPlain(s.(pos := s.pos + 1), text[1..]);
    }
  }

  lemma PassesPair(s: Scan, c: char)
    requires s.lex.inStr && !s.lex.esc
    ensures PassesOver(s, ['\\', c])
  {
    RunOne(Advance(s, '\\'), c);
    assert ['\\', c][1..] == [c];
  }

  lemma PassesInside(s: Scan, c: char)
    requires s.lex.inStr && !s.lex.esc && c != '\"' && c != '\\'
    ensures PassesOver(s, [c])
  {
    RunOne(s, c);
  }

  lemma PassesUnicode(s: Scan, a: char, b: char)
    requires s.lex.inStr && !s.lex.esc && a != '\"' && a != '\\' && b != '\"' && b != '\\'
    ensures PassesOver(s, "\\u00" + [a, b])
  {
    hide PassesOver, Run;
    PassesPair(s, 'u');
    var s2 := s.(pos := s.pos + 2);
    PassesInside(s2, '0');
    PassesInside(s2.(pos := s.pos + 3), '0');
    PassesInside(s2.(pos := s.pos + 4), a);
    PassesInside(s2.(pos := s.pos + 5), b);
    PassesConcat(s, ['\\', 'u'], ['0']);
    PassesConcat(s, ['\\', 'u'] + ['0'], ['0']);
    PassesConcat(s, ['\\', 'u'] + ['0'] + ['0'], [a]);
    PassesConcat(s, ['\\', 'u'] + ['0'] + ['0'] + [a], [b]);
    assert ['\\', 'u'] + ['0'] + ['0'] + [a] + [b] == "\\u00" + [a, b];
  }

  lemma PassesEscapeChar(s: Scan, c: char)
    requires s.lex.inStr && !s.lex.esc
    ensures PassesOver(s, EscapeChar(c))
  {
    hide PassesOver, Run;
    if c == '\"' || c == '\\' {
      PassesPair(s, c);
    } else if c == '\n' || c == '\r' || c == '\t' {
      PassesPair(s, EscapeChar(c)[1]);
    } else if c < ' ' {
      HexIsHarmless(c as int / 16);
      HexIsHarmless(c as int % 16);
      PassesUnicode(s, HEX[c as int / 16], HEX[c as int % 16]);
    } else {
      PassesInside(s, c);
    }
  }

  lemma HexIsHarmless(d: int)
    requires 0 <= d < 16
    ensures HEX[d] != '\"' && HEX[d] != '\\'
  {
  }

  lemma {:induction false} PassesEscaped(s: Scan, str: string)
    requires s.lex.inStr && !s.lex.esc
    ensures PassesOver(s, EscapeString(str))
    decreases |str|
  {
    if str != "" {
      PassesEscapeChar(s, str[0]);
      PassesEscaped(s.(pos := s.pos + |EscapeChar(str[0])|), str[1..]);
      PassesConcat(s, EscapeChar(str[0]), EscapeString(str[1..]));
    }
  }

  lemma PassesQuoted(s: Scan, str: string)
    requires Outside(s)
    ensures PassesOver(s, Quoted(str))
  {
    var inside := Advance(s, '\"');
    PassesEscaped(inside, str);
    RunBetween(s, '\"', EscapeString(str), '\"');
  }

  /** Inside a block every printed value leaves the scanner as it found it. */
  lemma {:induction false} PassesPrinted(s: Scan, j: Json)
    requires Outside(s) && s.lex.depth > 0 && WellFormed(j)
    ensures PassesOver(s, Print(j))
    decreases j
  {
    match j
    case Atom(text) => PassesPlain(s, text);
    case Str(value) => PassesQuoted(s, value);
    case Arr(items) =>
      PassesItems(Advance(s, '['), items);
      RunBetween(s, '[', PrintItems(items), ']');
    case Obj(members) =>
      PassesMembers(Advance(s, '{'), members);
      RunBetween(s, '{', PrintMembers(members), '}');
  }

  lemma {:induction false} PassesItems(s: Scan, items: seq<Json>)
    requires Outside(s) && s.lex.depth > 0
    requires forall k :: 0 <= k < |items| ==> WellFormed(items[k])
    ensures PassesOver(s, PrintItems(items))
    decreases items
  {
    if items != [] {
      var head := Print(items[0]);
      var sep := if |items| == 1 then "" else ", ";
      PassesPrinted(s, items[0]);
      PassesPlain(s.(pos := s.pos + |head|), sep);
      PassesConcat(s, head, sep);
      PassesItems(s.(pos := s.pos + |head + sep|), items[1..]);
      PassesConcat(s, head + sep, PrintItems(items[1..]));
    }
  }

  /** A member in front of `rest`, or the last one. */
  lemma PassesMember(s: Scan, m: Member, sep: string)
    requires Outside(s) && s.lex.depth > 0 && WellFormed(m.value) && Plain(sep)
    ensures PassesOver(s, Quoted(m.key) + ": " + Print(m.value) + sep)
    decreases m, 1
  {
    hide Run, PassesOver, Print, Quoted, Plain, WellFormed;
    var key, value := Quoted(m.key), Print(m.value);
    PassesQuoted(s, m.key);
    Separators();
    PassesPlain(s.(pos := s.pos + |key|), ": ");
    PassesConcat(s, key, ": ");
    PassesPrinted(s.(pos := s.pos + |key + ": "|), m.value);
    PassesConcat(s, key + ": ", value);
    PassesPlain(s.(pos := s.pos + |key + ": " + value|), sep);
    PassesConcat(s, key + ": " + value, sep);
  }

  lemma Separators()
    ensures Plain(": ") && Plain(", ") && Plain("")
  {
  }

  lemma PassesNothing(s: Scan)
    ensures PassesOver(s, "")
  {
  }

  lemma {:induction false} PassesMembers(s: Scan, members: seq<Member>)
    requires Outside(s) && s.lex.depth > 0
    requires forall k :: 0 <= k < |members| ==> WellFormed(members[k].value)
    ensures PassesOver(s, PrintMembers(members))
    decreases members
  {
    hide Run, PassesOver, Print, Quoted, Plain, WellFormed;
    if members == [] {
      PassesNothing(s);
    } else {
      var sep := if |members| == 1 then "" else ", ";
      var first := Quoted(members[0].key) + ": " + Print(members[0].value) + sep;
      Separators();
      PassesMember(s, members[0], sep);
      PassesMembers(s.(pos := s.pos + |first|), members[1..]);
      PassesConcat(s, first, PrintMembers(members[1..]));
    }
  }

  lemma ClosesBlock(s: Scan, len: nat)
    requires Outside(s) && s.lex.depth == 0 && s.start == -1
    ensures var inside := Advance(s, '{');
            Advance(inside.(pos := inside.pos + len), '}')
            == s.(pos := s.pos + len + 2, spans := s.spans + [Span(s.pos, s.pos + len + 2)])
  {
  }

  lemma OpensBlock(s: Scan)
    requires Outside(s) && s.lex.depth == 0
    ensures Outside(Advance(s, '{')) && Advance(s, '{').lex.depth > 0
  {
  }

  lemma PrintOfObject(j: Json)
    requires j.Obj? && WellFormed(j)
    ensures Print(j) == ['{'] + PrintMembers(j.members) + ['}']
    ensures forall k :: 0 <= k < |j.members| ==> WellFormed(j.members[k].value)
  {
    hide PrintMembers;
  }

  /** At depth 0 a printed object is reported as one block. */
  lemma ReportsObject(s: Scan, j: Json)
    requires Outside(s) && s.lex.depth == 0 && s.start == -1 && j.Obj? && WellFormed(j)
    ensures Run(s, Print(j)) == s.(pos := s.pos + |Print(j)|,
                                   spans := s.spans + [Span(s.pos, s.pos + |Print(j)|)])
  {
    hide Run, Print, PrintMembers, Advance, WellFormed, Outside;
    var inner := PrintMembers(j.members);
    PrintOfObject(j);
    OpensBlock(s);
    PassesMembers(Advance(s, '{'), j.members);
    ClosesBlock(s, |inner|);
    RunBetween(s, '{', inner, '}');
  }

  /** Gap text may hold anything but quotes and opening braces. */
  predicate IsGap(text: string) {
    forall k :: 0 <= k < |text| ==> text[k] != '\"' && text[k] != '{'
  }

  lemma {:induction false} PassesGap(s: Scan, text: string)
    requires Outside(s) && s.lex.depth == 0 && IsGap(text)
    ensures PassesOver(s, text)
    decreases |text|
  {
    if text != "" {
      PassesGap(s.(pos := s.pos + 1), text[1..]);
    }
  }

  /** A gap, then each object followed by its gap. */
  function Interleave(first: string, objs: seq<Json>, gaps: seq<string>): string
    requires |objs| == |gaps|
    decreases |objs|
  {
    if objs == [] then first
    else first + (Print(objs[0]) + Interleave(gaps[0], objs[1..], gaps[1..]))
  }

  ghost predicate Printable(objs: seq<Json>, gaps: seq<string>) {
    && |objs| == |gaps|
    && (forall k :: 0 <= k < |objs| ==> objs[k].Obj? && WellFormed(objs[k]))
    && forall k :: 0 <= k < |gaps| ==> IsGap(gaps[k])
  }

  /** Where the printed objects sit when the text begins at `from`. */
  ghost function Places(from: nat, first: string, objs: seq<Json>, gaps: seq<string>): seq<Span>
    requires |objs| == |gaps|
    decreases |objs|
  {
    if objs == [] then []
    else
      var lo := from + |first|;
      var hi := lo + |Print(objs[0])|;
      [Span(lo, hi)] + Places(hi, gaps[0], objs[1..], gaps[1..])
  }

  /** After a gap and an object the scanner stands where it began, with one more span. */
  lemma ReportsFirst(s: Scan, first: string, j: Json, rest: string)
    requires Outside(s) && s.lex.depth == 0 && s.start == -1
    requires IsGap(first) && j.Obj? && WellFormed(j)
    ensures var lo := s.pos + |first|; var hi := lo + |Print(j)|;
            Run(s, first + (Print(j) + rest)) == Run(s.(pos := hi, spans := s.spans + [Span(lo, hi)]), rest)
  {
    hide Run, Print, WellFormed, IsGap;
    PassesGap(s, first);
    var t := s.(pos := s.pos + |first|);
    RunConcat(s, first, Print(j) + rest);
    ReportsObject(t, j);
    RunConcat(t, Print(j), rest);
  }

  lemma PrintableRest(objs: seq<Json>, gaps: seq<string>)
    requires objs != [] && Printable(objs, gaps)
    ensures |objs| == |gaps| && objs[0].Obj? && WellFormed(objs[0]) && IsGap(gaps[0])
    ensures Printable(objs[1..], gaps[1..])
  {
    hide WellFormed, IsGap;
  }

  lemma InterleaveOne(from: nat, first: string, objs: seq<Json>, gaps: seq<string>)
    requires |objs| == |gaps| > 0
    ensures Interleave(first, objs, gaps) == first + (Print(objs[0]) + Interleave(gaps[0], objs[1..], gaps[1..]))
    ensures var lo := from + |first|; var hi := lo + |Print(objs[0])|;
            Places(from, first, objs, gaps) == [Span(lo, hi)] + Places(hi, gaps[0], objs[1..], gaps[1..])
  {
    hide Print;
  }

  lemma {:induction false} ScannerFindsPlaces(s: Scan, first: string, objs: seq<Json>, gaps: seq<string>)
    requires Outside(s) && s.lex.depth == 0 && s.start == -1
    requires IsGap(first) && |objs| == |gaps| && Printable(objs, gaps)
    ensures Run(s, Interleave(first, objs, gaps)).spans == s.spans + Places(s.pos, first, objs, gaps)
    decreases |objs|
  {
    hide Run, Print, Places, Interleave, WellFormed, IsGap, Printable;
    if objs == [] {
      OnlyGap(s, first, gaps);
    } else {
      PrintableRest(objs, gaps);
      InterleaveOne(s.pos, first, objs, gaps);
      ReportsFirst(s, first, objs[0], Interleave(gaps[0], objs[1..], gaps[1..]));
      var lo := s.pos + |first|;
      var hi := lo + |Print(objs[0])|;
      ScannerFindsPlaces(s.(pos := hi, spans := s.spans + [Span(lo, hi)]), gaps[0], objs[1..], gaps[1..]);
      assert s.spans + [Span(lo, hi)] + Places(hi, gaps[0], objs[1..], gaps[1..])
             == s.spans + ([Span(lo, hi)] + Places(hi, gaps[0], objs[1..], gaps[1..]));
    }
  }

  lemma OnlyGap(s: Scan, first: string, gaps: seq<string>)
    requires Outside(s) && s.lex.depth == 0 && IsGap(first) && gaps == []
    ensures Run(s, Interleave(first, [], gaps)).spans == s.spans + Places(s.pos, first, [], gaps)
  {
    hide Run, IsGap;
    PassesGap(s, first);
  }

  /** The first object stands where its place says, whatever is around it. */
  lemma PlacedFirst(before: string, first: string, head: string, rest: string)
    ensures var text := before + (first + (head + rest));
            && text == (before + first + head) + rest
            && text[|before| + |first|..|before| + |first| + |head|] == head
  {
    var text := before + (first + (head + rest));
    assert text == (before + first) + head + rest;
    assert ((before + first) + head + rest)[|before + first|..|before + first| + |head|] == head;
  }

  lemma {:induction false} PlacesHoldObjects(before: string, first: string, objs: seq<Json>, gaps: seq<string>)
    requires |objs| == |gaps|
    ensures |Places(|before|, first, objs, gaps)| == |objs|
    ensures Within(Places(|before|, first, objs, gaps), before + Interleave(first, objs, gaps))
    ensures forall k :: 0 <= k < |objs| ==>
              var p := Places(|before|, first, objs, gaps)[k];
              (before + Interleave(first, objs, gaps))[p.lo..p.hi] == Print(objs[k])
    decreases |objs|
  {
    if objs == [] {
      assert Places(|before|, first, objs, gaps) == [];
    } else {
      hide Print, Interleave, Places;
      var head, rest := Print(objs[0]), Interleave(gaps[0], objs[1..], gaps[1..]);
      var nextBefore := before + first + head;
      InterleaveOne(|before|, first, objs, gaps);
      PlacedFirst(before, first, head, rest);
      PlacesHoldObjects(nextBefore, gaps[0], objs[1..], gaps[1..]);
      var places, tail := Places(|before|, first, objs, gaps), Places(|nextBefore|, gaps[0], objs[1..], gaps[1..]);
      forall k | 0 <= k < |objs|
        ensures 0 <= places[k].lo <= places[k].hi <= |nextBefore + rest|
                && (nextBefore + rest)[places[k].lo..places[k].hi] == Print(objs[k])
      {
        if k > 0 {
          assert places[k] == tail[k - 1] && objs[k] == objs[1..][k - 1];
        }
      }
    }
  }

  /** Scanning the printed objects gives back their texts, in order and nothing else. */
  lemma ScannerUndoesPrinter(first: string, objs: seq<Json>, gaps: seq<string>)
    requires IsGap(first) && Printable(objs, gaps)
    ensures var text := Interleave(first, objs, gaps);
            && Within(Spans(text), text)
            && Cut(text, Spans(text)) == seq(|objs|, k requires 0 <= k < |objs| => Print(objs[k]))
  {
    hide Run, Print, Interleave, Places, WellFormed, IsGap;
    ScannerFindsPlaces(FRESH, first, objs, gaps);
    PlacesHoldObjects("", first, objs, gaps);
    assert "" + Interleave(first, objs, gaps) == Interleave(first, objs, gaps);
  }
}
