/** The two string printers and a reader. */
module Toml {
  // The strings of a rendered Codex agent (delivery/scripts/install.py, lines 831-837 and 902-919), read back as
  // the "String" section of TOML v1.0.0 prescribes.

  import opened Wrappers

  const QUOTE := '"'
  const DELIMITER := "\"\"\""

  // ----- The printer

  /** `s.replace(old, new)` for a non-empty `old`: left to right, without overlaps. */
  function Replace(s: string, part: string, other: string): string
    requires part != ""
  {
    if s == "" then ""
    else if part <= s then other + Replace(s[|part|..], part, other)
    else [s[0]] + Replace(s[1..], part, other)
  }

  function TomlString(value: string): string {
    "\"" + Replace(Replace(value, "\\", "\\\\"), "\"", "\\\"") + "\""
  }

  function TomlMultiline(value: string): string {
    Replace(Replace(value, "\\", "\\\\"), DELIMITER, "\\\"\"\"")
  }

  /** How the renderer sets a printed multi-line value: the lines are joined by newlines. */
  function Rendered(value: string): string {
    DELIMITER + "\n" + TomlMultiline(value) + "\n" + DELIMITER
  }

  // ----- The reader

  /** A character that may stand for itself in a basic string, a quotation mark and a backslash excepted. */
  predicate Unescaped(c: char) {
    c == '\t' || (' ' <= c && c != '"' && c != '\\' && c != '\U{7f}')
  }

  function HexDigit(c: char): Option<nat> {
    if '0' <= c <= '9' then Some(c as int - '0' as int)
    else if 'A' <= c <= 'F' then Some(c as int - 'A' as int + 10)
    else if 'a' <= c <= 'f' then Some(c as int - 'a' as int + 10)
    else None
  }

  function HexNumber(digits: string): Option<nat> {
    if digits == "" then Some(0)
    else
      match (HexNumber(digits[..|digits| - 1]), HexDigit(digits[|digits| - 1]))
      case (Some(n), Some(d)) => Some(16 * n + d)
      case _ => None
  }

  /** A Unicode scalar value as a one-character string. */
  function Scalar(n: nat): Option<string> {
    if n < 0xd800 || 0xe000 <= n < 0x11_0000 then Some([n as char]) else None
  }

  function CodePoint(s: string, digits: nat): Option<string> {
    if |s| <= digits then None
    else
      match HexNumber(s[1..digits + 1])
      case None => None
      case Some(n) => Scalar(n)
  }

  /** What the escape sequence after a backslash stands for, and its length. */
  function Escape(s: string): (r: Option<(string, nat)>)
    ensures r.Some? ==> 1 <= r.value.1 <= |s|
  {
    if s == "" then None
    else
      match s[0]
      case 'b' => Some(("\U{8}", 1))
      case 't' => Some(("\t", 1))
      case 'n' => Some(("\n", 1))
      case 'f' => Some(("\U{c}", 1))
      case 'r' => Some(("\r", 1))
      case '"' => Some(("\"", 1))
      case '\\' => Some(("\\", 1))
      case 'u' => (match CodePoint(s, 4) case None => None case Some(c) => Some((c, 5)))
      case 'U' => (match CodePoint(s, 8) case None => None case Some(c) => Some((c, 9)))
      case _ => None
  }

  /** The value of a string and the input after its closing delimiter. */
  type Parsed = Option<(string, string)>

  function Prepend(s: string, p: Parsed): Parsed {
    match p
    case None => None
    case Some((value, rest)) => Some((s + value, rest))
  }

  function SkipSpaces(s: string): (r: string)
    ensures |r| <= |s|
  {
    if s != "" && (s[0] == ' ' || s[0] == '\t') then SkipSpaces(s[1..]) else s
  }

  function SkipBlank(s: string): (r: string)
    ensures |r| <= |s|
  {
    if s != "" && (s[0] == ' ' || s[0] == '\t' || s[0] == '\n') then SkipBlank(s[1..])
    else if "\r\n" <= s then SkipBlank(s[2..])
    else s
  }

  predicate StartsLine(s: string) {
    "\n" <= s || "\r\n" <= s
  }

  /** The number of quotation marks `s` begins with. */
  function Quotes(s: string): (n: nat)
    ensures n <= |s| && (forall i :: 0 <= i < n ==> s[i] == QUOTE) && (n < |s| ==> s[n] != QUOTE)
  {
    if s != "" && s[0] == QUOTE then 1 + Quotes(s[1..]) else 0
  }

  function Min(a: nat, b: nat): nat { if a < b then a else b }

  /** The body of a multi-line basic string, up to and including its closing delimiter. */
  function MultilineBody(s: string): Parsed
    decreases |s|
  {
    if s == "" then None
    else if s[0] == QUOTE then
      if Quotes(s) < 3 then Prepend("\"", MultilineBody(s[1..]))
      else
        // the delimiter is the last three of up to five quotation marks
        var inside := Min(Quotes(s) - 3, 2);
        Some((s[..inside], s[inside + 3..]))
    else if s[0] == '\\' then
      if StartsLine(SkipSpaces(s[1..])) then MultilineBody(SkipBlank(s[1..]))
      else
        match Escape(s[1..])
        case None => None
        case Some((c, n)) => Prepend(c, MultilineBody(s[1 + n..]))
    else if s[0] == '\n' then Prepend("\n", MultilineBody(s[1..]))
    else if "\r\n" <= s then Prepend("\n", MultilineBody(s[2..]))
    else if Unescaped(s[0]) then Prepend([s[0]], MultilineBody(s[1..]))
    else None
  }

  /** The value of a token that is one multi-line basic string; a newline after the opening delimiter is trimmed. */
  function ReadMultiline(token: string): Option<string> {
    if !(DELIMITER <= token) then None
    else
      var s := token[3..];
      var body := if "\n" <= s then s[1..] else if "\r\n" <= s then s[2..] else s;
      match MultilineBody(body)
      case Some((value, "")) => Some(value)
      case _ => None
  }

  function BasicBody(s: string): Parsed
    decreases |s|
  {
    if s == "" then None
    else if s[0] == QUOTE then Some(("", s[1..]))
    else if s[0] == '\\' then
      match Escape(s[1..])
      case None => None
      case Some((c, n)) => Prepend(c, BasicBody(s[1 + n..]))
    else if Unescaped(s[0]) then Prepend([s[0]], BasicBody(s[1..]))
    else None
  }

  /** The value of a token that is one basic string. */
  function ReadBasic(token: string): Option<string> {
    if !("\"" <= token) then None
    else
      match BasicBody(token[1..])
      case Some((value, "")) => Some(value)
      case _ => None
  }

  // ----- When a value survives

  /** Characters TOML lets stand in the printed text, the escaped ones included. */
  predicate Printable(c: char) {
    Unescaped(c) || c == QUOTE || c == '\\'
  }

  /** No control characters other than tab and newline. */
  ghost predicate Lines(value: string) {
    forall i :: 0 <= i < |value| ==> Printable(value[i]) || value[i] == '\n'
  }

  ghost predicate MaximalRun(s: string, i: nat, j: nat) {
    && i < j <= |s|
    && (forall k :: i <= k < j ==> s[k] == QUOTE)
    && (i > 0 ==> s[i - 1] != QUOTE)
    && (j < |s| ==> s[j] != QUOTE)
  }

  /** Every maximal run of quotation marks is shorter than three or a multiple of three long. */
  ghost predicate GoodRuns(s: string) {
    forall i: nat, j: nat :: MaximalRun(s, i, j) ==> j - i < 3 || (j - i) % 3 == 0
  }

  lemma GoodRunsTail(s: string)
    requires s != "" && s[0] != QUOTE
    ensures GoodRuns(s) <==> GoodRuns(s[1..])
  {
    forall i: nat, j: nat ensures MaximalRun(s[1..], i, j) <==> MaximalRun(s, i + 1, j + 1) {
    }
    if GoodRuns(s) {
      forall i: nat, j: nat | MaximalRun(s[1..], i, j) ensures j - i < 3 || (j - i) % 3 == 0 {
        assert MaximalRun(s, i + 1, j + 1);
      }
    }
    if GoodRuns(s[1..]) {
      forall i: nat, j: nat | MaximalRun(s, i, j) ensures j - i < 3 || (j - i) % 3 == 0 {
        assert MaximalRun(s[1..], i - 1, j - 1);
      }
    }
  }

  lemma GoodRunsAfter(s: string, n: nat)
    requires n == Quotes(s) && n > 0
    ensures GoodRuns(s) <==> (n < 3 || n % 3 == 0) && GoodRuns(s[n..])
  {
    assert MaximalRun(s, 0, n);
    if GoodRuns(s) {
      forall i: nat, j: nat | MaximalRun(s[n..], i, j) ensures j - i < 3 || (j - i) % 3 == 0 {
        assert MaximalRun(s, i + n, j + n);
      }
    }
    if (n < 3 || n % 3 == 0) && GoodRuns(s[n..]) {
      forall i: nat, j: nat | MaximalRun(s, i, j) ensures j - i < 3 || (j - i) % 3 == 0 {
        if i >= n {
          assert MaximalRun(s[n..], i - n, j - n);
        } else {
          assert i == 0 && j == n;
        }
      }
    }
  }

  // ----- What the printer prints

  function Doubled(v: string): string { Replace(v, "\\", "\\\\") }

  lemma {:induction false} QuotesDoubled(v: string)
    ensures Quotes(Doubled(v)) == Quotes(v)
  {
    if v != "" {
      QuotesDoubled(v[1..]);
      DoubledStep(v);
    }
  }

  lemma DoubledStep(v: string)
    requires v != ""
    ensures Doubled(v) == (if v[0] == '\\' then "\\\\" else [v[0]]) + Doubled(v[1..])
  {
    assert "\\" <= v <==> v[0] == '\\';
  }

  lemma DelimiterIffQuotes(s: string)
    ensures DELIMITER <= s <==> Quotes(s) >= 3
  {
    if Quotes(s) >= 3 {
      assert s[0] == s[1] == s[2] == QUOTE;
      assert s[..3] == DELIMITER;
    }
  }

  function Guarded(s: string): string { Replace(s, DELIMITER, "\\\"\"\"") }

  lemma GuardedStep(c: char, t: string)
    requires !(DELIMITER <= [c] + t)
    ensures Guarded([c] + t) == [c] + Guarded(t)
  {
    assert ([c] + t)[1..] == t;
  }

  lemma PrintedPlain(v: string)
    requires v != "" && v[0] != '\\' && !(DELIMITER <= v)
    ensures TomlMultiline(v) == [v[0]] + TomlMultiline(v[1..])
  {
    DoubledStep(v);
    DelimiterIffQuotes(v);
    QuotesDoubled(v);
    DelimiterIffQuotes(Doubled(v));
    GuardedStep(v[0], Doubled(v[1..]));
  }

  lemma PrintedBackslash(v: string)
    requires v != "" && v[0] == '\\'
    ensures TomlMultiline(v) == "\\\\" + TomlMultiline(v[1..])
  {
    var t := Doubled(v[1..]);
    DoubledStep(v);
    assert "\\\\" + t == ['\\'] + (['\\'] + t);
    assert (['\\'] + (['\\'] + t))[0] == '\\' && (['\\'] + t)[0] == '\\';
    GuardedStep('\\', ['\\'] + t);
    GuardedStep('\\', t);
  }

  lemma PrintedTriple(v: string)
    requires DELIMITER <= v
    ensures TomlMultiline(v) == "\\\"\"\"" + TomlMultiline(v[3..])
  {
    DoubledStep(v);
    DoubledStep(v[1..]);
    DoubledStep(v[2..]);
    assert v[1..][1..] == v[2..] && v[2..][1..] == v[3..];
    assert Doubled(v) == DELIMITER + Doubled(v[3..]);
    assert (DELIMITER + Doubled(v[3..]))[3..] == Doubled(v[3..]);
  }

  // ----- Reading the print back

  const TAIL := "\n\"\"\""

  function Read(v: string): Parsed { MultilineBody(TomlMultiline(v) + TAIL) }

  lemma {:induction false} QuotesPrinted(v: string)
    ensures Quotes(TomlMultiline(v) + TAIL) == if Quotes(v) < 3 then Quotes(v) else 0
  {
    DelimiterIffQuotes(v);
    if v == "" {
      assert TomlMultiline(v) + TAIL == TAIL;
    } else if DELIMITER <= v {
      PrintedTriple(v);
    } else if v[0] == '\\' {
      PrintedBackslash(v);
    } else {
      PrintedPlain(v);
      var s := TomlMultiline(v) + TAIL;
      assert s[1..] == TomlMultiline(v[1..]) + TAIL;
      QuotesPrinted(v[1..]);
    }
  }

  lemma PrependInjective(x: string, p: Parsed, y: string, rest: string)
    ensures Prepend(x, p) == Some((x + y, rest)) <==> p == Some((y, rest))
  {
    if p.Some? {
      assert (x + p.value.0)[|x|..] == p.value.0 && (x + y)[|x|..] == y;
    }
  }

  lemma BodyPlain(c: char, x: string)
    requires Unescaped(c) || c == '\n'
    ensures MultilineBody([c] + x) == Prepend([c], MultilineBody(x))
  {
    assert ([c] + x)[0] == c && ([c] + x)[1..] == x;
  }

  lemma ReadPlain(v: string)
    requires v != "" && (Unescaped(v[0]) || v[0] == '\n')
    ensures Read(v) == Prepend([v[0]], Read(v[1..]))
  {
    hide MultilineBody, TomlMultiline;
    PrintedPlain(v);
    BodyPlain(v[0], TomlMultiline(v[1..]) + TAIL);
    assert TomlMultiline(v) + TAIL == [v[0]] + (TomlMultiline(v[1..]) + TAIL);
  }

  lemma BodyBackslash(x: string)
    ensures MultilineBody("\\\\" + x) == Prepend("\\", MultilineBody(x))
  {
    var s := "\\\\" + x;
    var t := s[1..];
    assert t[0] == '\\' && SkipSpaces(t) == t && !StartsLine(t);
    assert Escape(t) == Some(("\\", 1)) && s[2..] == x;
  }

  lemma BodyEscapedQuote(x: string)
    ensures MultilineBody("\\\"" + x) == Prepend("\"", MultilineBody(x))
  {
    var s := "\\\"" + x;
    var t := s[1..];
    assert t[0] == QUOTE && SkipSpaces(t) == t && !StartsLine(t);
    assert Escape(t) == Some(("\"", 1)) && s[2..] == x;
  }

  lemma BodyQuote(x: string)
    requires Quotes(x) < 2
    ensures MultilineBody("\"" + x) == Prepend("\"", MultilineBody(x))
  {
    QuotesMore(x);
    assert ("\"" + x)[1..] == x;
  }

  lemma BodyCloses(s: string)
    requires 3 <= Quotes(s) <= 5 && Quotes(s) < |s|
    ensures MultilineBody(s).Some? && MultilineBody(s).value.1 != ""
  {
  }

  lemma BodyTwoQuotes(x: string)
    ensures Quotes(x) == 0 ==> MultilineBody("\"\"" + x) == Prepend("\"\"", MultilineBody(x))
    ensures Quotes(x) in {1, 2} && Quotes(x) < |x| ==>
              MultilineBody("\"\"" + x).Some? && MultilineBody("\"\"" + x).value.1 != ""
  {
    hide MultilineBody, Quotes;
    QuotesMore(x);
    if Quotes(x) == 0 {
      BodyQuote("\"" + x);
      BodyQuote(x);
      assert "\"\"" + x == "\"" + ("\"" + x) && "\"" + "\"" == "\"\"";
      PrependTwice("\"", "\"", MultilineBody(x));
    } else if Quotes(x) < 3 && Quotes(x) < |x| {
      BodyCloses("\"\"" + x);
    }
  }

  lemma ReadBackslash(v: string)
    requires v != "" && v[0] == '\\'
    ensures Read(v) == Prepend("\\", Read(v[1..]))
  {
    hide MultilineBody;
    PrintedBackslash(v);
    var x := TomlMultiline(v[1..]) + TAIL;
    BodyBackslash(x);
    assert TomlMultiline(v) + TAIL == "\\\\" + x;
  }

  /** A control character is refused, or it was a carriage return and is lost in a line break. */
  lemma ReadControl(v: string)
    requires v != "" && !Printable(v[0]) && v[0] != '\n'
    ensures Read(v) != Some((v + "\n", ""))
  {
    PrintedPlain(v);
    var s := TomlMultiline(v) + TAIL;
    assert s[0] == v[0] == (v + "\n")[0];
    if "\r\n" <= s && Read(v).Some? {
      assert Read(v).value.0[0] == '\n';
    }
  }

  lemma ReadQuote(v: string)
    requires 0 < Quotes(v) < 3
    ensures Read(v) == Prepend("\"", Read(v[1..]))
  {
    DelimiterIffQuotes(v);
    PrintedPlain(v);
    QuotesPrinted(v);
    var s := TomlMultiline(v) + TAIL;
    assert s[0] == QUOTE && s[1..] == TomlMultiline(v[1..]) + TAIL;
  }

  lemma QuotesMore(s: string)
    ensures Quotes("\"\"" + s) == 2 + Quotes(s) && Quotes("\"" + s) == 1 + Quotes(s)
  {
    assert ("\"\"" + s)[1..] == "\"" + s && ("\"" + s)[1..] == s;
  }

  lemma ReadTriple(v: string)
    requires Quotes(v) >= 3
    ensures Quotes(v) in {4, 5} ==> Read(v).Some? && Read(v).value.1 != ""
    ensures Quotes(v) !in {4, 5} ==> Read(v) == Prepend(DELIMITER, Read(v[3..]))
  {
    hide MultilineBody, TomlMultiline, Quotes;
    DelimiterIffQuotes(v);
    PrintedTriple(v);
    var x := TomlMultiline(v[3..]) + TAIL;
    assert TomlMultiline(v) + TAIL == "\\\"" + ("\"\"" + x);
    BodyEscapedQuote("\"\"" + x);
    BodyTwoQuotes(x);
    QuotesPrinted(v[3..]);
    QuotesDrop(v, 3);
    assert x[|x| - 4] == '\n';
    PrependTwice("\"", "\"\"", MultilineBody(x));
    assert "\"" + "\"\"" == DELIMITER;
  }

  lemma PrependTwice(a: string, b: string, p: Parsed)
    ensures Prepend(a, Prepend(b, p)) == Prepend(a + b, p)
  {
    if p.Some? {
      assert a + (b + p.value.0) == a + b + p.value.0;
    }
  }

  lemma {:induction false} QuotesDrop(s: string, n: nat)
    requires n <= Quotes(s)
    ensures Quotes(s[n..]) == Quotes(s) - n
  {
    if n > 0 {
      QuotesDrop(s[1..], n - 1);
      assert s[1..][n - 1..] == s[n..];
    }
  }

  lemma GoodRunsShort(v: string)
    requires 0 < Quotes(v) < 3
    ensures GoodRuns(v) <==> GoodRuns(v[1..])
  {
    var n := Quotes(v);
    GoodRunsAfter(v, n);
    QuotesDrop(v, 1);
    if n == 2 {
      GoodRunsAfter(v[1..], 1);
      assert v[1..][1..] == v[2..];
    }
  }

  lemma GoodRunsTriple(v: string)
    requires Quotes(v) >= 3
    ensures Quotes(v) in {4, 5} ==> !GoodRuns(v)
    ensures Quotes(v) !in {4, 5} ==> (GoodRuns(v) <==> GoodRuns(v[3..]))
  {
    hide GoodRuns;
    var n := Quotes(v);
    GoodRunsAfter(v, n);
    QuotesDrop(v, 3);
    if n > 5 {
      GoodRunsAfter(v[3..], n - 3);
      assert v[3..][n - 3..] == v[n..];
    }
  }

  lemma LinesDrop(v: string, n: nat)
    requires n <= |v| && forall i :: 0 <= i < n ==> Printable(v[i]) || v[i] == '\n'
    ensures Lines(v) <==> Lines(v[n..])
  {
    if Lines(v[n..]) {
      forall i | 0 <= i < |v| ensures Printable(v[i]) || v[i] == '\n' {
        if i >= n {
          assert v[n..][i - n] == v[i];
        }
      }
    }
  }

  lemma {:induction false} ReadIff(v: string)
    ensures Read(v) == Some((v + "\n", "")) <==> Lines(v) && GoodRuns(v)
    decreases |v|
  {
    hide Lines, GoodRuns, Read, Prepend, Quotes;
    if v == "" {
      ReadEmpty();
    } else if v[0] == QUOTE {
      assert v[..1] == "\"";
      QuotesPositive(v);
      if Quotes(v) < 3 {
        ReadQuote(v);
        GoodRunsShort(v);
        ReadIffRest(v, 1);
        ReadIff(v[1..]);
      } else {
        ReadTriple(v);
        GoodRunsTriple(v);
        if Quotes(v) !in {4, 5} {
          ReadIffRest(v, 3);
          ReadIff(v[3..]);
        }
      }
    } else if !Printable(v[0]) && v[0] != '\n' {
      ReadControl(v);
      NotLines(v);
    } else {
      assert v[..1] == [v[0]];
      if v[0] == '\\' {
        ReadBackslash(v);
      } else {
        ReadPlain(v);
      }
      GoodRunsTail(v);
      ReadIffRest(v, 1);
      ReadIff(v[1..]);
    }
  }

  lemma NotLines(v: string)
    requires v != "" && !Printable(v[0]) && v[0] != '\n'
    ensures !Lines(v)
  {
  }

  lemma QuotesPositive(v: string)
    requires v != "" && v[0] == QUOTE
    ensures Quotes(v) > 0
    ensures Quotes(v) >= 3 ==> v[..3] == DELIMITER
  {
    DelimiterIffQuotes(v);
  }

  lemma ReadEmpty()
    ensures Read("") == Some(("" + "\n", "")) && Lines("") && GoodRuns("")
  {
    assert TomlMultiline("") + TAIL == TAIL;
    assert TAIL[1..] == DELIMITER;
    assert Quotes(DELIMITER) == 3 by { DelimiterIffQuotes(DELIMITER); }
    assert DELIMITER[..0] == "" && DELIMITER[3..] == "";
    assert MultilineBody(DELIMITER) == Some(("", ""));
    assert MultilineBody(TAIL) == Prepend("\n", MultilineBody(DELIMITER));
    assert "\n" + "" == "\n" && "" + "\n" == "\n";
  }

  lemma ReadIffRest(v: string, n: nat)
    requires n <= |v| && forall i :: 0 <= i < n ==> Printable(v[i]) || v[i] == '\n'
    requires Read(v) == Prepend(v[..n], Read(v[n..]))
    ensures Read(v) == Some((v + "\n", "")) <==> Read(v[n..]) == Some((v[n..] + "\n", ""))
    ensures Lines(v) <==> Lines(v[n..])
  {
    hide Read;
    LinesDrop(v, n);
    assert v + "\n" == v[..n] + (v[n..] + "\n");
    PrependInjective(v[..n], Read(v[n..]), v[n..] + "\n", "");
  }

  /**
   * For every text whatever: what the renderer printed is read back as the value and one newline exactly when the
   * value has no control characters but tab and newline and its quotation marks come in good runs.
   */
  lemma MultilineRoundTripIff(value: string)
    ensures ReadMultiline(Rendered(value)) == Some(value + "\n") <==> Lines(value) && GoodRuns(value)
  {
    var token := Rendered(value);
    assert token[3..] == "\n" + TomlMultiline(value) + "\n" + DELIMITER;
    assert token[3..][1..] == TomlMultiline(value) + TAIL;
    ReadIff(value);
  }

  // ----- One-line strings

  /** No control characters but tab. */
  ghost predicate OneLine(value: string) {
    forall i :: 0 <= i < |value| ==> Printable(value[i])
  }

  function Escaped(v: string): string { Replace(Doubled(v), "\"", "\\\"") }

  lemma QuoteStep(c: char, t: string)
    ensures Replace([c] + t, "\"", "\\\"")
         == (if c == QUOTE then "\\\"" else [c]) + Replace(t, "\"", "\\\"")
  {
    assert ([c] + t)[1..] == t && ([c] + t)[0] == c;
    assert c == QUOTE ==> ([c] + t)[..1] == "\"";
  }

  lemma EscapedStep(v: string)
    requires v != ""
    ensures Escaped(v) == (if v[0] == '\\' then "\\\\" else if v[0] == QUOTE then "\\\"" else [v[0]]) + Escaped(v[1..])
  {
    hide Replace;
    DoubledStep(v);
    var t := Doubled(v[1..]);
    if v[0] == '\\' {
      assert "\\\\" + t == ['\\'] + (['\\'] + t);
      QuoteStep('\\', ['\\'] + t);
      QuoteStep('\\', t);
    } else {
      QuoteStep(v[0], t);
    }
  }

  function ReadOne(v: string): Parsed { BasicBody(Escaped(v) + "\"") }

  lemma BasicEscape(c: char, x: string)
    requires c == QUOTE || c == '\\'
    ensures BasicBody(['\\', c] + x) == Prepend([c], BasicBody(x))
  {
    var s := ['\\', c] + x;
    assert s[1..][0] == c && s[2..] == x && Escape(s[1..]) == Some(([c], 1));
  }

  lemma ReadOneStep(v: string)
    requires v != ""
    ensures Printable(v[0]) ==> ReadOne(v) == Prepend([v[0]], ReadOne(v[1..]))
    ensures !Printable(v[0]) ==> ReadOne(v).None?
  {
    hide Escaped;
    EscapedStep(v);
    var x := Escaped(v[1..]) + "\"";
    if v[0] == QUOTE || v[0] == '\\' {
      BasicEscape(v[0], x);
      assert Escaped(v) + "\"" == ['\\', v[0]] + x;
    } else {
      assert Escaped(v) + "\"" == [v[0]] + x && ([v[0]] + x)[1..] == x;
    }
  }

  lemma {:induction false} ReadOneIff(v: string)
    ensures ReadOne(v) == Some((v, "")) <==> OneLine(v)
    decreases |v|
  {
    if v == "" {
      assert Escaped(v) + "\"" == "\"" && "\""[1..] == "";
    } else {
      hide ReadOne;
      ReadOneStep(v);
      ReadOneIff(v[1..]);
      assert v == [v[0]] + v[1..];
      PrependInjective([v[0]], ReadOne(v[1..]), v[1..], "");
      if OneLine(v[1..]) && Printable(v[0]) {
        assert forall i :: 0 < i < |v| ==> v[i] == v[1..][i - 1];
      }
    }
  }

  /** A printed one-line string is read back as it was exactly when it has no control characters but tab. */
  lemma StringRoundTripIff(value: string)
    ensures ReadBasic(TomlString(value)) == Some(value) <==> OneLine(value)
  {
    assert TomlString(value)[1..] == Escaped(value) + "\"";
    ReadOneIff(value);
  }
}
