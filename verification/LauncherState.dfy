/**
  The launcher's hand-written JSON writer and its regex reader
  (scripts/FinanceAgentLauncher.cs). The watchdog keeps no memory between ticks
  but the file these two share, so reading must give back what was written
  whatever the distro name and the probe detail contain.
 */
module LauncherState {
  import opened Wrappers

  // ----- Writing -------------------------------------------------------------

  function ReplaceChar(s: string, c: char, sub: string): string {
    if s == "" then "" else (if s[0] == c then sub else [s[0]]) + ReplaceChar(s[1..], c, sub)
  }

  /** Backslashes first, then quotes, as two passes over the whole string. */
  function Escape(s: string): string {
    ReplaceChar(ReplaceChar(s, '\\', "\\\\"), '\"', "\\\"")
  }

  function Digit(d: nat): char
    requires d < 10
  {
    "0123456789"[d]
  }

  function Dec(n: nat): string
    decreases n
  {
    if n < 10 then [Digit(n)] else Dec(n / 10) + [Digit(n % 10)]
  }

  function DecInt(n: int): string {
    if n < 0 then "-" + Dec(-n) else Dec(n)
  }

  /** A field value: text is quoted and escaped, the rest is written as it stands. */
  datatype Value = Text(s: string) | Raw(s: string)

  datatype Field = Field(key: string, value: Value)

  function WriteValue(v: Value): string {
    match v
    case Text(s) => "\"" + Escape(s) + "\""
    case Raw(s) => s
  }

  function WriteFields(fields: seq<Field>): string
    decreases |fields|
  {
    if fields == [] then "}"
    else
      "\"" + fields[0].key + "\":"
      + (WriteValue(fields[0].value) + ((if |fields| == 1 then "" else ",") + WriteFields(fields[1..])))
  }

  function BoolText(b: bool): (r: string)
    ensures b ==> r == "true"
    ensures !b ==> r == "false"
  {
    if b then "true" else "false"
  }

  function Nullable(t: Option<string>): Value {
    match t
    case None => Raw("null")
    case Some(s) => Text(s)
  }

  /** The contents of distro_probe.json after one tick. */
  datatype Probe = Probe(
    probedAt: string, now: int, distro: string, ok: bool, exitCode: int, detail: Option<string>,
    failures: int, stale: bool, terminatedAt: Option<string>, terminatedEpoch: int, count: int)

  function Fields(p: Probe): seq<Field> {
    [ Field("probed_at", Text(p.probedAt)),
      Field("probed_at_epoch", Raw(DecInt(p.now))),
      Field("distro", Text(p.distro)),
      Field("ok", Raw(BoolText(p.ok))),
      Field("exit_code", Raw(DecInt(p.exitCode))),
      Field("detail", Nullable(p.detail)),
      Field("consecutive_failures", Raw(DecInt(p.failures))),
      Field("snapshot_stale", Raw(BoolText(p.stale))),
      Field("terminated_at", Nullable(p.terminatedAt)),
      Field("terminated_at_epoch", Raw(DecInt(p.terminatedEpoch))),
      Field("terminate_count", Raw(DecInt(p.count))) ]
  }

  function Render(p: Probe): string {
    "{" + WriteFields(Fields(p))
  }

  // ----- Reading -------------------------------------------------------------

  const LONG_MAX := 0x7fff_ffff_ffff_ffff
  const INT_MAX := 0x7fff_ffff

  predicate IsSpace(c: char) {
    c == ' ' || '\t' <= c <= '\r' || c == '\U{85}' || c == '\U{A0}' || c == '\U{1680}'
    || '\U{2000}' <= c <= '\U{200A}' || c == '\U{2028}' || c == '\U{2029}'
    || c == '\U{202F}' || c == '\U{205F}' || c == '\U{3000}'
  }

  predicate IsAsciiDigit(c: char) {
    '0' <= c <= '9'
  }

  /** The zeros of the other decimal digits of the Basic Multilingual Plane; nine more digits follow each. */
  const OTHER_ZEROS: string :=
    "\U{0660}\U{06F0}\U{07C0}\U{0966}\U{09E6}\U{0A66}\U{0AE6}\U{0B66}\U{0BE6}\U{0C66}\U{0CE6}\U{0D66}"
    + "\U{0DE6}\U{0E50}\U{0ED0}\U{0F20}\U{1040}\U{1090}\U{17E0}\U{1810}\U{1946}\U{19D0}\U{1A80}\U{1A90}"
    + "\U{1B50}\U{1BB0}\U{1C40}\U{1C50}\U{A620}\U{A8D0}\U{A900}\U{A9D0}\U{A9F0}\U{AA50}\U{ABF0}\U{FF10}"

  /** What the pattern's digit class matches: every decimal digit, not the ten of ASCII alone. */
  predicate IsDigit(c: char) {
    IsAsciiDigit(c) || ('\U{0660}' <= c && IsOtherDigit(c))
  }

  predicate IsOtherDigit(c: char) {
    exists z :: z in OTHER_ZEROS && 0 <= c as int - z as int < 10
  }

  /** What follows `lit` if `t` begins with it. */
  function After(t: string, lit: string): Option<string>
    decreases |lit|
  {
    if lit == "" then Some(t)
    else if t == "" || t[0] != lit[0] then None
    else After(t[1..], lit[1..])
  }

  function SkipSpaces(t: string): string {
    if t != "" && IsSpace(t[0]) then SkipSpaces(t[1..]) else t
  }

  function TakeDigits(t: string): string {
    if t != "" && IsDigit(t[0]) then [t[0]] + TakeDigits(t[1..]) else ""
  }

  /** The tail of the pattern: spaces, a colon, spaces, at least one digit. */
  function AfterKey(t: string): Option<string> {
    var u := SkipSpaces(t);
    if u == "" || u[0] != ':' then None
    else
      var digits := TakeDigits(SkipSpaces(u[1..]));
      if digits == "" then None else Some(digits)
  }

  /** The pattern `"key"\s*:\s*(\d+)` matched at the beginning of `t`: its digits. */
  function MatchHere(t: string, key: string): Option<string> {
    match After(t, "\"" + key + "\"")
    case None => None
    case Some(rest) => AfterKey(rest)
  }

  /** The digits of the leftmost match. */
  function Find(t: string, key: string): Option<string> {
    if t == "" then None
    else if MatchHere(t, key).Some? then MatchHere(t, key)
    else Find(t[1..], key)
  }

  function Parse(digits: string): nat
    requires forall k :: 0 <= k < |digits| ==> IsAsciiDigit(digits[k])
  {
    if digits == "" then 0
    else
      var last := digits[|digits| - 1];
      assert IsAsciiDigit(last);
      10 * Parse(digits[..|digits| - 1]) + (last as int - '0' as int)
  }

  predicate AllAscii(digits: string) {
    forall k :: 0 <= k < |digits| ==> IsAsciiDigit(digits[k])
  }

  /** 0 when there is no match, or its digits are not all ASCII, or the number does not fit a 64-bit integer. */
  function ReadLong(t: string, key: string): (r: nat)
    ensures r <= LONG_MAX
    ensures r > 0 ==> Find(t, key).Some? && AllAscii(Find(t, key).value) && r == Parse(Find(t, key).value)
  {
    match Find(t, key)
    case None => 0
    case Some(digits) => if AllAscii(digits) && Parse(digits) <= LONG_MAX then Parse(digits) else 0
  }

  function ReadInt(t: string, key: string): nat {
    var v := ReadLong(t, key);
    if v > INT_MAX then INT_MAX else v
  }

  // ----- Escaping ------------------------------------------------------------

  function EscapeChar(c: char): string {
    if c == '\\' then "\\\\" else if c == '\"' then "\\\"" else [c]
  }

  lemma {:induction false} ReplaceConcat(a: string, b: string, c: char, sub: string)
    ensures ReplaceChar(a + b, c, sub) == ReplaceChar(a, c, sub) + ReplaceChar(b, c, sub)
    decreases |a|
  {
    if a == "" {
      assert a + b == b;
    } else {
      assert (a + b)[0] == a[0] && (a + b)[1..] == a[1..] + b;
      ReplaceConcat(a[1..], b, c, sub);
    }
  }

  /** The two passes escape character by character; in the other order they would not. */
  lemma EscapeCons(s: string)
    requires s != ""
    ensures Escape(s) == EscapeChar(s[0]) + Escape(s[1..])
  {
    var first := if s[0] == '\\' then "\\\\" else [s[0]];
    var rest := ReplaceChar(s[1..], '\\', "\\\\");
    assert ReplaceChar(s, '\\', "\\\\") == first + rest;
    ReplaceConcat(first, rest, '\"', "\\\"");
    assert ReplaceChar(first, '\"', "\\\"") == EscapeChar(s[0]) by {
      assert first[1..] == (if s[0] == '\\' then "\\" else "");
      if s[0] == '\\' {
        assert first[1..][1..] == "";
      }
    }
  }

  /** Undoing section 7 of RFC 8259 for the two escapes the writer uses. */
  function Unescape(t: string): string
    decreases |t|
  {
    if t == "" then ""
    else if t[0] == '\\' && |t| > 1 then [t[1]] + Unescape(t[2..])
    else [t[0]] + Unescape(t[1..])
  }

  lemma {:induction false} UnescapeEscape(s: string)
    ensures Unescape(Escape(s)) == s
    decreases |s|
  {
    if s != "" {
      EscapeCons(s);
      UnescapeEscape(s[1..]);
      var e := Escape(s);
      if s[0] == '\\' || s[0] == '\"' {
        assert e[2..] == Escape(s[1..]);
      } else {
        assert e[1..] == Escape(s[1..]);
      }
    }
  }

  /** The body of a string in the grammar of RFC 8259, section 7 (without the hex form). */
  predicate JsonBody(t: string)
    decreases |t|
  {
    t == ""
    || (t[0] == '\\' && |t| > 1 && t[1] in "\"\\/bfnrt" && JsonBody(t[2..]))
    || (t[0] != '\\' && t[0] != '\"' && t[0] >= ' ' && JsonBody(t[1..]))
  }

  /** The written text is a legal JSON string exactly when it holds no control character. */
  lemma {:induction false} EscapeIsJsonIff(s: string)
    ensures JsonBody(Escape(s)) <==> forall k :: 0 <= k < |s| ==> s[k] >= ' '
    decreases |s|
  {
    if s != "" {
      EscapeCons(s);
      EscapeIsJsonIff(s[1..]);
      var e := Escape(s);
      assert forall k :: 1 <= k < |s| ==> s[k] == s[1..][k - 1];
      if s[0] == '\\' || s[0] == '\"' {
        assert e[2..] == Escape(s[1..]);
      } else {
        assert e[1..] == Escape(s[1..]);
      }
      assert (forall k :: 0 <= k < |s| ==> s[k] >= ' ')
        <==> s[0] >= ' ' && forall k :: 0 <= k < |s[1..]| ==> s[1..][k] >= ' ';
    }
  }

  // ----- What becomes a detail text ------------------------------------------

  const DETAIL_MAX_CHARS := 200

  function TrimStart(s: string): string {
    if s != "" && IsSpace(s[0]) then TrimStart(s[1..]) else s
  }

  function TrimEnd(s: string): string {
    if s != "" && IsSpace(s[|s| - 1]) then TrimEnd(s[..|s| - 1]) else s
  }

  /** Line breaks become spaces, the ends are trimmed, and the rest is cut; nothing stays nothing. */
  function Truncate(s: string): Option<string> {
    if s == "" then None
    else
      var t := TrimEnd(TrimStart(ReplaceChar(ReplaceChar(s, '\r', " "), '\n', " ")));
      Some(if |t| <= DETAIL_MAX_CHARS then t else t[..DETAIL_MAX_CHARS] + "\U{2026}")
  }

  lemma {:induction false} NothingToReplace(s: string, c: char, sub: string)
    requires c !in s
    ensures ReplaceChar(s, c, sub) == s
  {
    if s != "" {
      NothingToReplace(s[1..], c, sub);
    }
  }

  /** A text on one line that does not begin or end with a space is kept as it is, or cut after 200 characters. */
  lemma KeptByTruncate(s: string)
    requires 0 < |s| && '\r' !in s && '\n' !in s && !IsSpace(s[0]) && !IsSpace(s[|s| - 1])
    ensures Truncate(s) == Some(if |s| <= 200 then s else s[..200] + "\U{2026}")
    ensures Truncate("") == None
  {
    NothingToReplace(s, '\r', " ");
    NothingToReplace(s, '\n', " ");
  }

  /** Only line breaks are removed: the colour code of an error message makes the file illegal JSON. */
  lemma ControlCharReachesFile()
    ensures var message := "\U{1B}[31mno such distro"; Truncate(message) == Some(message) && !JsonBody(Escape(message))
  {
    var message := "\U{1B}[31mno such distro";
    assert message[0] == '\U{1B}' && message[|message| - 1] == 'o';
    KeptByTruncate(message);
    EscapeIsJsonIff(message);
  }

  // ----- Decimal numbers -----------------------------------------------------

  lemma {:induction false} DecIsDigits(n: nat)
    ensures |Dec(n)| > 0 && AllAscii(Dec(n))
    decreases n
  {
    if n >= 10 {
      DecIsDigits(n / 10);
    }
  }

  lemma {:induction false} ParseDec(n: nat)
    ensures |Dec(n)| > 0 && AllAscii(Dec(n)) && Parse(Dec(n)) == n
    decreases n
  {
    DecIsDigits(n);
    if n < 10 {
      assert [Digit(n)][..0] == "";
    } else {
      ParseDec(n / 10);
      var d := Dec(n);
      assert d[..|d| - 1] == Dec(n / 10) && d[|d| - 1] == Digit(n % 10);
    }
  }

  /** A number is written as its sign, if it is negative, and the digits of its size. */
  lemma DecIntIs(n: int)
    ensures exists digits :: digits != "" && AllAscii(digits) && Parse(digits) == (if n < 0 then -n else n)
                             && DecInt(n) == (if n < 0 then "-" else "") + digits
  {
    var size: nat := if n < 0 then -n else n;
    ParseDec(size);
    assert "" + Dec(size) == Dec(size);
  }

  lemma {:induction false} TakeAllDigits(digits: string, rest: string)
    requires forall k :: 0 <= k < |digits| ==> IsDigit(digits[k])
    requires rest == "" || !IsDigit(rest[0])
    ensures TakeDigits(digits + rest) == digits
    decreases |digits|
  {
    if digits == "" {
      assert digits + rest == rest;
    } else {
      assert (digits + rest)[1..] == digits[1..] + rest;
      TakeAllDigits(digits[1..], rest);
    }
  }

  // ----- No match inside what is written before the field --------------------

  /** Keys are made of letters and underscores. */
  predicate Name(key: string) {
    forall k :: 0 <= k < |key| ==> 'a' <= key[k] <= 'z' || key[k] == '_'
  }

  predicate NoQuote(t: string) {
    forall k :: 0 <= k < |t| ==> t[k] != '\"'
  }

  predicate Closes(rest: string) {
    rest != "" && (rest[0] == ',' || rest[0] == '}')
  }

  lemma AfterQuote(t: string, key: string)
    requires t != ""
    ensures t[0] != '\"' ==> MatchHere(t, key).None?
    ensures t[0] == '\"' ==> After(t, "\"" + key + "\"") == After(t[1..], key + "\"")
  {
    assert ("\"" + key + "\"")[1..] == key + "\"";
  }

  lemma {:induction false} FindPast(a: string, rest: string, key: string)
    requires NoQuote(a)
    ensures Find(a + rest, key) == Find(rest, key)
    decreases |a|
  {
    if a == "" {
      assert a + rest == rest;
    } else {
      AfterQuote(a + rest, key);
      assert (a + rest)[1..] == a[1..] + rest;
      FindPast(a[1..], rest, key);
    }
  }

  /** A quote followed by anything but the first letter of the key is not a match. */
  lemma FindPastQuote(rest: string, key: string)
    requires Name(key) && key != "" && rest != "" && rest[0] != key[0]
    ensures Find("\"" + rest, key) == Find(rest, key)
  {
    var t := "\"" + rest;
    AfterQuote(t, key);
    assert t[1..] == rest;
  }

  /** Escaped text imitating (a suffix of) the key is stopped at its closing quote. */
  lemma {:induction false} EscapedIsNotKey(s: string, rest: string, key: string)
    requires Name(key)
    ensures var r := After(Escape(s) + ("\"" + rest), key + "\""); r.None? || r == Some(rest)
    decreases |s|
  {
    var t := Escape(s) + ("\"" + rest);
    if s == "" {
      assert t == "\"" + rest;
      if key == "" {
        assert (key + "\"")[1..] == "" && t[1..] == rest;
      }
    } else {
      EscapeCons(s);
      assert t[0] == EscapeChar(s[0])[0];
      if key != "" && s[0] == key[0] {
        assert t[1..] == Escape(s[1..]) + ("\"" + rest);
        assert (key + "\"")[1..] == key[1..] + "\"";
        EscapedIsNotKey(s[1..], rest, key[1..]);
      }
    }
  }

  lemma ClosedKeyHasNoColon(s: string, rest: string, key: string)
    requires Name(key) && Closes(rest)
    ensures Find("\"" + (Escape(s) + ("\"" + rest)), key) == Find(Escape(s) + ("\"" + rest), key)
  {
    var u := Escape(s) + ("\"" + rest);
    var t := "\"" + u;
    AfterQuote(t, key);
    assert t[1..] == u;
    EscapedIsNotKey(s, rest, key);
  }

  lemma EscapeFirst(s: string, t: string)
    requires s != ""
    ensures Escape(s) + t == EscapeChar(s[0]) + (Escape(s[1..]) + t)
  {
    EscapeCons(s);
    Associate(EscapeChar(s[0]), Escape(s[1..]), t);
  }

  lemma Associate(a: string, b: string, c: string)
    ensures (a + b) + c == a + (b + c)
  {
  }

  lemma FindPastEscapedChar(c: char, s: string, rest: string, key: string)
    requires Name(key) && key != "" && Closes(rest)
    ensures var u := Escape(s) + ("\"" + rest);
            Find(EscapeChar(c) + u, key) == Find(u, key)
  {
    var u := Escape(s) + ("\"" + rest);
    if c == '\"' {
      assert EscapeChar(c) + u == "\\" + ("\"" + u);
      FindPast("\\", "\"" + u, key);
      ClosedKeyHasNoColon(s, rest, key);
    } else {
      FindPast(EscapeChar(c), u, key);
    }
  }

  lemma {:induction false} FindUpToClosingQuote(s: string, rest: string, key: string)
    requires Name(key) && key != "" && Closes(rest)
    ensures Find(Escape(s) + ("\"" + rest), key) == Find("\"" + rest, key)
    decreases |s|
  {
    var close := "\"" + rest;
    if s == "" {
      assert Escape(s) + close == close;
    } else {
      FindUpToClosingQuote(s[1..], rest, key);
      FindPastEscapedChar(s[0], s[1..], rest, key);
      EscapeFirst(s, close);
    }
  }

  lemma FindPastEscaped(s: string, rest: string, key: string)
    requires Name(key) && key != "" && Closes(rest)
    ensures Find(Escape(s) + ("\"" + rest), key) == Find(rest, key)
  {
    FindUpToClosingQuote(s, rest, key);
    FindPastQuote(rest, key);
  }

  lemma {:induction false} OnlyItsOwnKey(name: string, key: string, rest: string)
    requires Name(name) && Name(key)
    ensures After(name + ("\"" + rest), key + "\"") == if name == key then Some(rest) else None
    decreases |name|
  {
    var t := name + ("\"" + rest);
    if name == "" {
      assert t == "\"" + rest;
      assert t[1..] == rest;
      if key == "" {
        assert (key + "\"")[1..] == "";
      }
    } else if key != "" && name[0] == key[0] {
      assert t[1..] == name[1..] + ("\"" + rest) && (key + "\"")[1..] == key[1..] + "\"";
      OnlyItsOwnKey(name[1..], key[1..], rest);
      assert name == [name[0]] + name[1..] && key == [key[0]] + key[1..];
    }
  }

  /** The name of another field, or of this field when its value is no number, is passed over. */
  lemma FindPastName(name: string, rest: string, key: string)
    requires Name(name) && Name(key) && key != ""
    requires name == key ==> AfterKey(":" + rest).None?
    ensures Find("\"" + name + "\":" + rest, key) == Find(rest, key)
  {
    var colon := ":" + rest;
    var u := name + ("\"" + colon);
    var t := "\"" + u;
    assert "\"" + name + "\":" + rest == t;
    AfterQuote(t, key);
    assert t[1..] == u;
    OnlyItsOwnKey(name, key, colon);
    FindPast(name, "\"" + colon, key);
    FindPastQuote(colon, key);
    FindPast(":", rest, key);
  }

  ghost predicate Readable(fields: seq<Field>) {
    forall k :: 0 <= k < |fields| ==> Name(fields[k].key) && (fields[k].value.Raw? ==> NoQuote(fields[k].value.s))
  }

  lemma FindPastValue(v: Value, rest: string, key: string)
    requires v.Raw? ==> NoQuote(v.s)
    requires Name(key) && key != "" && Closes(rest)
    ensures Find(WriteValue(v) + rest, key) == Find(rest, key)
  {
    match v
    case Raw(s) => FindPast(s, rest, key);
    case Text(s) =>
      assert WriteValue(v) + rest == "\"" + (Escape(s) + ("\"" + rest));
      ClosedKeyHasNoColon(s, rest, key);
      FindPastEscaped(s, rest, key);
  }

  lemma FindPastField(fields: seq<Field>, key: string)
    requires fields != [] && Readable(fields) && Name(key) && key != ""
    requires fields[0].key == key ==> fields[0].value.Raw? && AfterKey(":" + WriteFieldsTail(fields)).None?
    ensures Find(WriteFields(fields), key) == Find(WriteFields(fields[1..]), key)
  {
    var rest := (if |fields| == 1 then "" else ",") + WriteFields(fields[1..]);
    FindPastName(fields[0].key, WriteFieldsTail(fields), key);
    FindPastValue(fields[0].value, rest, key);
    FindPast(if |fields| == 1 then "" else ",", WriteFields(fields[1..]), key);
  }

  /** What stands after the first field's colon. */
  function WriteFieldsTail(fields: seq<Field>): string
    requires fields != []
  {
    WriteValue(fields[0].value) + ((if |fields| == 1 then "" else ",") + WriteFields(fields[1..]))
  }

  lemma {:induction false} AbsentKey(fields: seq<Field>, key: string)
    requires Readable(fields) && Name(key) && key != ""
    requires forall k :: 0 <= k < |fields| ==> fields[k].key != key
    ensures Find(WriteFields(fields), key) == None
    decreases |fields|
  {
    if fields == [] {
      FindPast("}", "", key);
      assert "}" + "" == "}";
    } else {
      FindPastField(fields, key);
      AbsentKey(fields[1..], key);
    }
  }

  lemma AfterKeyNumber(n: nat, rest: string)
    requires Closes(rest)
    ensures AfterKey(":" + (Dec(n) + rest)) == Some(Dec(n))
  {
    var body := Dec(n) + rest;
    ParseDec(n);
    assert (":" + body)[1..] == body;
    TakeAllDigits(Dec(n), rest);
  }

  lemma AfterKeyNegative(n: nat, rest: string)
    ensures AfterKey(":" + (("-" + Dec(n)) + rest)).None?
  {
    var body := ("-" + Dec(n)) + rest;
    assert (":" + body)[1..] == body;
    assert TakeDigits(body) == "";
  }

  lemma FindNumber(name: string, n: nat, rest: string)
    requires Name(name) && Closes(rest)
    ensures Find("\"" + name + "\":" + (Dec(n) + rest), name) == Some(Dec(n))
  {
    var colon := ":" + (Dec(n) + rest);
    var u := name + ("\"" + colon);
    assert "\"" + name + "\":" + (Dec(n) + rest) == "\"" + u;
    AfterQuote("\"" + u, name);
    assert ("\"" + u)[1..] == u;
    OnlyItsOwnKey(name, name, colon);
    AfterKeyNumber(n, rest);
  }

  lemma NumberField(fields: seq<Field>, n: int)
    requires fields != [] && Readable(fields) && Name(fields[0].key) && fields[0].key != ""
    requires fields[0].value == Raw(DecInt(n))
    requires forall k :: 1 <= k < |fields| ==> fields[k].key != fields[0].key
    ensures Find(WriteFields(fields), fields[0].key) == if n >= 0 then Some(Dec(n)) else None
  {
    var key := fields[0].key;
    var rest := (if |fields| == 1 then "" else ",") + WriteFields(fields[1..]);
    if n >= 0 {
      FindNumber(key, n, rest);
    } else {
      AfterKeyNegative(-n, rest);
      FindPastField(fields, key);
      AbsentKey(fields[1..], key);
    }
  }

  /** Reading a numeric field of any written object whose names are distinct. */
  lemma {:induction false} ReadField(fields: seq<Field>, at: nat, n: int)
    requires Readable(fields) && at < |fields|
    requires fields[at].key != "" && fields[at].value == Raw(DecInt(n))
    requires forall k :: 0 <= k < |fields| && k != at ==> fields[k].key != fields[at].key
    ensures Find(WriteFields(fields), fields[at].key) == if n >= 0 then Some(Dec(n)) else None
    decreases at
  {
    hide Find, WriteFields, Dec, DecInt, Name, NoQuote;
    if at == 0 {
      NumberField(fields, n);
    } else {
      FindPastField(fields, fields[at].key);
      ReadField(fields[1..], at - 1, n);
    }
  }

  // ----- The round trip ------------------------------------------------------

  lemma {:induction false} DecIntHasNoQuote(n: int)
    ensures NoQuote(DecInt(n))
  {
    ParseDec(if n < 0 then -n else n);
  }

  lemma ShortNames()
    ensures Name("probed_at") && Name("distro") && Name("ok") && Name("exit_code") && Name("detail")
  {
  }

  lemma LongNames()
    ensures Name("probed_at_epoch") && Name("snapshot_stale") && Name("terminated_at")
  {
  }

  lemma KeyNames()
    ensures Name("consecutive_failures") && Name("terminated_at_epoch") && Name("terminate_count")
  {
  }

  lemma NamesOfFields(p: Probe)
    ensures forall k :: 0 <= k < 11 ==> Name(Fields(p)[k].key)
  {
    ShortNames();
    LongNames();
    KeyNames();
  }

  lemma FieldsReadable(p: Probe)
    ensures Readable(Fields(p))
  {
    NamesOfFields(p);
    forall k | 0 <= k < 11 && Fields(p)[k].value.Raw?
      ensures NoQuote(Fields(p)[k].value.s)
    {
      DecIntHasNoQuote(p.now);
      DecIntHasNoQuote(p.exitCode);
      DecIntHasNoQuote(p.failures);
      DecIntHasNoQuote(p.terminatedEpoch);
      DecIntHasNoQuote(p.count);
    }
  }

  lemma KeysDiffer(p: Probe, at: nat, k: nat)
    requires at < 11 && k < 11 && k != at
    ensures Fields(p)[k].key != Fields(p)[at].key && Fields(p)[at].key != ""
  {
  }

  lemma ReadRendered(p: Probe, at: nat, n: int)
    requires at < 11 && Fields(p)[at].value == Raw(DecInt(n)) && n <= LONG_MAX
    ensures ReadLong(Render(p), Fields(p)[at].key) == if n >= 0 then n else 0
  {
    var fields, key := Fields(p), Fields(p)[at].key;
    FieldsReadable(p);
    forall k | 0 <= k < 11 && k != at ensures fields[k].key != fields[at].key && fields[at].key != "" {
      KeysDiffer(p, at, k);
    }
    KeysDiffer(p, at, if at == 0 then 1 else 0);
    assert |fields| == 11;
    ReadOf(fields, at, n);
  }

  lemma ReadOf(fields: seq<Field>, at: nat, n: int)
    requires Readable(fields) && at < |fields| && fields[at].key != ""
    requires fields[at].value == Raw(DecInt(n)) && n <= LONG_MAX
    requires forall k :: 0 <= k < |fields| && k != at ==> fields[k].key != fields[at].key
    ensures ReadLong("{" + WriteFields(fields), fields[at].key) == if n >= 0 then n else 0
  {
    hide Find, Parse, Dec, WriteFields;
    ReadField(fields, at, n);
    FindPast("{", WriteFields(fields), fields[at].key);
    if n >= 0 {
      ParseDec(n);
    }
  }

  /**
    The three numbers that steer the watchdog survive the file, for every text in the
    other fields. A negative number would be read as 0: the pattern has no sign.
   */
  lemma StateRoundTrip(p: Probe)
    requires p.failures <= INT_MAX && p.count <= INT_MAX && p.terminatedEpoch <= LONG_MAX
    ensures ReadInt(Render(p), "consecutive_failures") == if p.failures >= 0 then p.failures else 0
    ensures ReadLong(Render(p), "terminated_at_epoch") == if p.terminatedEpoch >= 0 then p.terminatedEpoch else 0
    ensures ReadInt(Render(p), "terminate_count") == if p.count >= 0 then p.count else 0
  {
    ReadRendered(p, 6, p.failures);
    ReadRendered(p, 9, p.terminatedEpoch);
    ReadRendered(p, 10, p.count);
  }
}
