/**
 The SQL text that the filter translator writes for string literals and for the patterns of the 'like' operator,
 and the way PostgreSQL reads that text back: string constants (sections 4.1.2.1 and 4.1.2.2 of its documentation)
 and pattern matching (section 9.7.1).
 */
module SqlText {
  import opened Wrappers

  /* ---------- Writing ---------- */

  const NUL := 0 as char
  const LIKE_SPECIAL := "%_"

  predicate IsPrintable(r: char) {
    ' ' <= r <= '~'
  }

  function HexDigit(n: nat): (c: char)
    requires n < 16
  {
    if n < 10 then ('0' as int + n) as char else ('a' as int + n - 10) as char
  }

  function Pow16(n: nat): (p: nat)
    ensures p > 0
  {
    if n == 0 then 1 else 16 * Pow16(n - 1)
  }

  /** A number as exactly 'width' lower case hexadecimal digits, like '%04x' and '%08x'. */
  function Hex(n: nat, width: nat): (text: string)
    requires n < Pow16(width)
    ensures |text| == width
  {
    if width == 0 then "" else Hex(n / 16, width - 1) + [HexDigit(n % 16)]
  }

  /** Whether the rune is written as an escape sequence that only strings with the 'e' prefix understand. */
  predicate Flags(r: char, special: string) {
    r != '\\' && r !in special && (r == '\'' || !IsPrintable(r))
  }

  /** The text written for one rune. */
  function Fragment(r: char, special: string): (text: string) {
    if r == '\\' || r in special then ['\\', r]
    else if r == '\'' then "\\'"
    else if r == '\n' then "\\n"
    else if r == '\t' then "\\t"
    else if IsPrintable(r) then [r]
    else if r as int < 0xFFFF then
      assert Pow16(4) == 0x1_0000;
      "\\u" + Hex(r as int, 4)
    else
      assert Pow16(8) == 0x1_0000_0000;
      "\\U" + Hex(r as int, 8)
  }

  function EscapeText(value: string, special: string): (text: string) {
    if value == "" then "" else Fragment(value[0], special) + EscapeText(value[1..], special)
  }

  predicate NeedsPrefix(value: string, special: string) {
    exists i :: 0 <= i < |value| && Flags(value[i], special)
  }

  /** Whatever the value, what is written are printable ASCII characters. */
  lemma {:induction false} EscapeTextIsAscii(value: string, special: string)
    requires forall c :: c in special ==> 0x20 <= c as int <= 0x7e
    ensures forall i :: 0 <= i < |EscapeText(value, special)| ==> 0x20 <= EscapeText(value, special)[i] as int <= 0x7e
  {
    if value != "" {
      EscapeTextIsAscii(value[1..], special);
      FragmentIsAscii(value[0], special);
    }
  }

  lemma FragmentIsAscii(r: char, special: string)
    requires forall c :: c in special ==> 0x20 <= c as int <= 0x7e
    ensures forall i :: 0 <= i < |Fragment(r, special)| ==> 0x20 <= Fragment(r, special)[i] as int <= 0x7e
  {
    if r as int < 0xFFFF {
      assert Pow16(4) == 0x1_0000;
      HexIsAscii(r as int, 4);
    }
    assert Pow16(8) == 0x1_0000_0000;
    HexIsAscii(r as int, 8);
  }

  lemma {:induction false} HexIsAscii(n: nat, width: nat)
    requires n < Pow16(width)
    ensures forall i :: 0 <= i < |Hex(n, width)| ==> 0x30 <= Hex(n, width)[i] as int <= 0x66
  {
    if width > 0 {
      HexIsAscii(n / 16, width - 1);
    }
  }

  lemma EscapeTextAppend(left: string, right: string, special: string)
    ensures EscapeText(left + right, special) == EscapeText(left, special) + EscapeText(right, special)
  {
    if left == "" {
      assert left + right == right;
    } else {
      assert (left + right)[1..] == left[1..] + right;
      EscapeTextAppend(left[1..], right, special);
    }
  }

  /** Appends to a buffer and sets the flag, rune by rune. */
  method TranslateString(value: string, special: string) returns (text: string, escaped: bool)
    ensures text == EscapeText(value, special)
    ensures escaped <==> NeedsPrefix(value, special)
  {
    text, escaped := "", false;
    for i := 0 to |value|
      invariant text == EscapeText(value[..i], special)
      invariant escaped <==> exists j :: 0 <= j < i && Flags(value[j], special)
    {
      var r := value[i];
      var before := text;
      if r == '\\' || r in special {
        text := text + ['\\'];
        text := text + [r];
      } else if r == '\'' {
        text := text + "\\'";
        escaped := true;
      } else if r == '\n' {
        text := text + "\\n";
        escaped := true;
      } else if r == '\t' {
        text := text + "\\t";
        escaped := true;
      } else if IsPrintable(r) {
        text := text + [r];
      } else if r as int < 0xFFFF {
        assert Pow16(4) == 0x1_0000;
        text := text + ("\\u" + Hex(r as int, 4));
        escaped := true;
      } else {
        assert Pow16(8) == 0x1_0000_0000;
        text := text + ("\\U" + Hex(r as int, 8));
        escaped := true;
      }
      assert text == before + Fragment(r, special);
      assert value[..i + 1] == value[..i] + [r];
      EscapeTextAppend(value[..i], [r], special);
      assert [r][1..] == "";
      assert EscapeText([r], special) == Fragment(r, special);
    }
    assert value[..|value|] == value;
  }

  /** The literal of a CEL string. */
  function Literal(value: string): (text: string) {
    (if NeedsPrefix(value, "") then "e'" else "'") + EscapeText(value, "") + "'"
  }

  datatype MatchKind = Contains | StartsWith | EndsWith {
    function Prefix(): string {
      if StartsWith? then "" else "%"
    }
    function Suffix(): string {
      if EndsWith? then "" else "%"
    }
  }

  /** The literal that follows the 'like' operator. */
  function PatternLiteral(kind: MatchKind, value: string): (text: string) {
    (if NeedsPrefix(value, LIKE_SPECIAL) then "e'" else "'")
    + kind.Prefix() + EscapeText(value, LIKE_SPECIAL) + kind.Suffix() + "'"
  }

  /* ---------- Reading: string constants ---------- */

  function HexValue(c: char): (n: Option<nat>)
    ensures n.Some? ==> n.value < 16
  {
    if '0' <= c <= '9' then Some(c as int - '0' as int)
    else if 'a' <= c <= 'f' then Some(c as int - 'a' as int + 10)
    else if 'A' <= c <= 'F' then Some(c as int - 'A' as int + 10)
    else None
  }

  function HexNumber(text: string): (n: Option<nat>) {
    if text == "" then Some(0)
    else
      var high := HexNumber(text[..|text| - 1]);
      var low := HexValue(text[|text| - 1]);
      if high.None? || low.None? then None else Some(16 * high.value + low.value)
  }

  /** The character of a code point. The server refuses zero; lone surrogates and numbers that are too large too. */
  function CodePoint(text: string): (c: Option<char>) {
    var n := HexNumber(text);
    if n.None? then None
    else if 0 < n.value < 0xD800 || 0xE000 <= n.value < 0x11_0000 then Some(n.value as char)
    else None
  }

  /** What a scanner took from its input: the value of the constant and the text after the closing quote. */
  datatype Scan = Scan(value: string, rest: string)

  function Prepend(text: string, scan: Option<Scan>): (r: Option<Scan>) {
    if scan.None? then None else Some(Scan(text + scan.value.value, scan.value.rest))
  }

  lemma PrependNothing(scan: Option<Scan>)
    ensures Prepend("", scan) == scan
  {
    if scan.Some? {
      assert "" + scan.value.value == scan.value.value;
    }
  }

  lemma PrependAppend(left: string, right: string, scan: Option<Scan>)
    ensures Prepend(left, Prepend(right, scan)) == Prepend(left + right, scan)
  {
    if scan.Some? {
      assert left + (right + scan.value.value) == left + right + scan.value.value;
    }
  }

  /** The body of a standard string constant: a doubled quote is a quote, a backslash is an ordinary character. */
  function ScanPlain(s: string): (r: Option<Scan>)
    decreases |s|
  {
    if s == "" then None
    else if s[0] != '\'' then Prepend(s[..1], ScanPlain(s[1..]))
    else if |s| > 1 && s[1] == '\'' then Prepend("'", ScanPlain(s[2..]))
    else Some(Scan("", s[1..]))
  }

  /**
   The body of a string constant with the 'e' prefix. The octal and '\x' forms denote bytes and are never written by
   the translator; they are refused here.
   */
  function ScanEscape(s: string): (r: Option<Scan>)
    decreases |s|
  {
    if s == "" then None
    else if s[0] == '\\' then
      if |s| == 1 || '0' <= s[1] <= '7' || s[1] == 'x' then None
      else if s[1] == 'u' then
        if |s| < 6 || CodePoint(s[2..6]).None? then None
        else Prepend([CodePoint(s[2..6]).value], ScanEscape(s[6..]))
      else if s[1] == 'U' then
        if |s| < 10 || CodePoint(s[2..10]).None? then None
        else Prepend([CodePoint(s[2..10]).value], ScanEscape(s[10..]))
      else
        var c := match s[1]
          case 'b' => 8 as char
          case 'f' => 12 as char
          case 'n' => '\n'
          case 'r' => '\r'
          case 't' => '\t'
          case other => other;
        Prepend([c], ScanEscape(s[2..]))
    else if s[0] != '\'' then Prepend(s[..1], ScanEscape(s[1..]))
    else if |s| > 1 && s[1] == '\'' then Prepend("'", ScanEscape(s[2..]))
    else Some(Scan("", s[1..]))
  }

  function ScanLiteral(s: string): (r: Option<Scan>) {
    if |s| > 1 && s[0] == 'e' && s[1] == '\'' then ScanEscape(s[2..])
    else if |s| > 0 && s[0] == '\'' then ScanPlain(s[1..])
    else None
  }

  lemma ScanOpening(inner: string)
    ensures ScanLiteral("e'" + inner) == ScanEscape(inner)
    ensures ScanLiteral("'" + inner) == ScanPlain(inner)
  {
    assert ("e'" + inner)[2..] == inner;
    assert ("'" + inner)[1..] == inner;
  }

  /** The text that follows a literal in a statement never starts with a quote. */
  predicate Follows(rest: string) {
    rest == "" || rest[0] != '\''
  }

  /* ---------- String literals round trip ---------- */

  lemma {:induction false} HexRoundTrip(n: nat, width: nat)
    requires n < Pow16(width)
    ensures HexNumber(Hex(n, width)) == Some(n)
  {
    if width > 0 {
      HexRoundTrip(n / 16, width - 1);
      var text := Hex(n, width);
      assert text[..width - 1] == Hex(n / 16, width - 1);
      assert HexValue(HexDigit(n % 16)) == Some(n % 16);
    }
  }

  lemma CodePointRoundTrip(r: char)
    requires r != NUL
    ensures r as int < 0x1_0000 ==> r as int < Pow16(4) && CodePoint(Hex(r as int, 4)) == Some(r)
    ensures r as int < Pow16(8) && CodePoint(Hex(r as int, 8)) == Some(r)
  {
    assert Pow16(4) == 0x1_0000;
    assert Pow16(8) == 0x1_0000_0000;
    if r as int < 0x1_0000 {
      HexRoundTrip(r as int, 4);
    }
    HexRoundTrip(r as int, 8);
  }

  /** A fragment read with the 'e' prefix gives back its rune, except that zero is refused. */
  lemma ScanFragment(r: char, special: string, tail: string)
    requires special == "" || special == LIKE_SPECIAL
    ensures ScanEscape(Fragment(r, special) + tail) == if r == NUL then None else Prepend([r], ScanEscape(tail))
  {
    var text := Fragment(r, special) + tail;
    if r == '\\' || r in special || r == '\'' || r == '\n' || r == '\t' {
      assert text[2..] == tail;
    } else if IsPrintable(r) {
      assert text[1..] == tail;
      assert text[..1] == [r];
    } else if r as int < 0xFFFF {
      assert Pow16(4) == 0x1_0000;
      assert text[2..6] == Hex(r as int, 4);
      assert text[6..] == tail;
      if r == NUL {
        HexRoundTrip(0, 4);
      } else {
        CodePointRoundTrip(r);
      }
    } else {
      assert Pow16(8) == 0x1_0000_0000;
      assert text[2..10] == Hex(r as int, 8);
      assert text[10..] == tail;
      CodePointRoundTrip(r);
    }
  }

  lemma {:induction false} ScanEscapedText(value: string, special: string, tail: string)
    requires special == "" || special == LIKE_SPECIAL
    ensures ScanEscape(EscapeText(value, special) + tail)
         == if NUL in value then None else Prepend(value, ScanEscape(tail))
  {
    if value == "" {
      assert EscapeText(value, special) + tail == tail;
      PrependNothing(ScanEscape(tail));
    } else {
      var rest := EscapeText(value[1..], special) + tail;
      assert EscapeText(value, special) + tail == Fragment(value[0], special) + rest;
      ScanFragment(value[0], special, rest);
      ScanEscapedText(value[1..], special, tail);
      PrependAppend([value[0]], value[1..], ScanEscape(tail));
      assert value == [value[0]] + value[1..];
    }
  }

  /** Without the prefix nothing is decoded: what is read is the escaped text itself. */
  lemma {:induction false} ScanPlainText(value: string, special: string, tail: string)
    requires special == "" || special == LIKE_SPECIAL
    requires !NeedsPrefix(value, special)
    ensures ScanPlain(EscapeText(value, special) + tail) == Prepend(EscapeText(value, special), ScanPlain(tail))
  {
    if value == "" {
      assert EscapeText(value, special) + tail == tail;
      PrependNothing(ScanPlain(tail));
    } else {
      var first, others := Fragment(value[0], special), EscapeText(value[1..], special);
      assert !Flags(value[0], special);
      assert forall i :: 0 <= i < |value| - 1 ==> value[1..][i] == value[i + 1];
      assert !NeedsPrefix(value[1..], special);
      ScanPlainText(value[1..], special, tail);
      assert EscapeText(value, special) + tail == first + (others + tail);
      PlainPrefix(first, others + tail);
      PrependAppend(first, others, ScanPlain(tail));
    }
  }

  lemma {:induction false} PlainPrefix(text: string, tail: string)
    requires '\'' !in text
    ensures ScanPlain(text + tail) == Prepend(text, ScanPlain(tail))
  {
    var s := text + tail;
    if text == "" {
      assert s == tail;
      PrependNothing(ScanPlain(tail));
    } else {
      PlainPrefix(text[1..], tail);
      assert s[1..] == text[1..] + tail;
      assert s[0] == text[0] && s[..1] == text[..1];
      PrependAppend(text[..1], text[1..], ScanPlain(tail));
      assert text == text[..1] + text[1..];
    }
  }

  lemma {:induction false} EscapeTextLength(value: string, special: string)
    ensures |EscapeText(value, special)| >= |value|
    ensures '\\' in value ==> |EscapeText(value, special)| > |value|
  {
    if value != "" {
      EscapeTextLength(value[1..], special);
    }
  }

  lemma {:induction false} EscapeTextIdentity(value: string, special: string)
    requires !NeedsPrefix(value, special)
    requires '\\' !in value && forall c :: c in special ==> c !in value
    ensures EscapeText(value, special) == value
  {
    if value != "" {
      assert !Flags(value[0], special);
      assert forall i :: 0 <= i < |value| - 1 ==> value[1..][i] == value[i + 1];
      assert !NeedsPrefix(value[1..], special);
      EscapeTextIdentity(value[1..], special);
    }
  }

  lemma FlaggedWithNul(value: string, special: string)
    requires NUL in value
    requires special == "" || special == LIKE_SPECIAL
    ensures NeedsPrefix(value, special)
  {
    var i :| 0 <= i < |value| && value[i] == NUL;
    assert Flags(value[i], special);
  }

  lemma ScanClosing(rest: string)
    requires Follows(rest)
    ensures ScanEscape("'" + rest) == ScanPlain("'" + rest) == Some(Scan("", rest))
  {
    assert ("'" + rest)[1..] == rest;
  }

  lemma LiteralShape(value: string, rest: string)
    ensures Literal(value) + rest
         == (if NeedsPrefix(value, "") then "e'" else "'") + (EscapeText(value, "") + ("'" + rest))
  {
  }

  /**
   A literal is one complete string constant that ends at its own closing quote, exactly for the strings without
   zero characters.
   */
  lemma LiteralIsOneToken(value: string, rest: string)
    requires Follows(rest)
    ensures var scan := ScanLiteral(Literal(value) + rest);
      && (scan.Some? <==> NUL !in value)
      && (scan.Some? ==> scan.value.rest == rest)
      && (scan.Some? ==> scan.value.value == if NeedsPrefix(value, "") then value else EscapeText(value, ""))
  {
    var body, tail := EscapeText(value, ""), "'" + rest;
    var closing := Some(Scan("", rest));
    ScanClosing(rest);
    LiteralShape(value, rest);
    ScanOpening(body + tail);
    if NeedsPrefix(value, "") {
      ScanEscapedText(value, "", tail);
      assert Prepend(value, closing) == Some(Scan(value, rest)) by { assert value + "" == value; }
    } else {
      if NUL in value { FlaggedWithNul(value, ""); }
      ScanPlainText(value, "", tail);
      assert Prepend(body, closing) == Some(Scan(body, rest)) by { assert body + "" == body; }
    }
  }

  /** When the literal of a string means that string. */
  predicate LiteralSafe(value: string) {
    NUL !in value && (NeedsPrefix(value, "") || '\\' !in value)
  }

  /** The value comes back exactly when there is no zero and a backslash comes with the prefix. */
  lemma LiteralRoundTrip(value: string, rest: string)
    requires Follows(rest)
    ensures ScanLiteral(Literal(value) + rest) == Some(Scan(value, rest)) <==> LiteralSafe(value)
  {
    LiteralIsOneToken(value, rest);
    if !NeedsPrefix(value, "") {
      EscapeTextLength(value, "");
      if '\\' !in value {
        EscapeTextIdentity(value, "");
      }
    }
  }

  /** A string for which it fails: one backslash is read back as two. */
  lemma BackslashIsDoubled()
    ensures ScanLiteral(Literal("\\")) == Some(Scan("\\\\", ""))
  {
    LiteralIsOneToken("\\", "");
    var value := "\\";
    assert Literal(value) + "" == Literal(value);
    assert value[1..] == "";
    assert EscapeText(value, "") == Fragment('\\', "") + EscapeText(value[1..], "") == "\\\\";
    assert !NeedsPrefix(value, "");
  }

  /* ---------- Reading: patterns ---------- */

  /** Whether the subject matches the pattern. A pattern that ends in the middle of an escape matches nothing. */
  predicate LikeMatch(pattern: string, subject: string)
    decreases |pattern| + |subject|
  {
    if pattern == "" then subject == ""
    else if pattern[0] == '%' then
      LikeMatch(pattern[1..], subject) || (subject != "" && LikeMatch(pattern, subject[1..]))
    else if subject == "" then false
    else if pattern[0] == '_' then LikeMatch(pattern[1..], subject[1..])
    else if pattern[0] == '\\' then
      |pattern| > 1 && subject[0] == pattern[1] && LikeMatch(pattern[2..], subject[1..])
    else subject[0] == pattern[0] && LikeMatch(pattern[1..], subject[1..])
  }

  /** What the CEL function means. */
  ghost predicate Holds(kind: MatchKind, subject: string, value: string) {
    match kind
    case Contains => exists i :: 0 <= i <= |subject| && value <= subject[i..]
    case StartsWith => value <= subject
    case EndsWith => exists i :: 0 <= i <= |subject| && value == subject[i..]
  }

  predicate IsSpecial(c: char) {
    c == '%' || c == '_' || c == '\\'
  }

  predicate HasSpecial(value: string) {
    exists i :: 0 <= i < |value| && IsSpecial(value[i])
  }

  /** Every character that is special in patterns preceded by a backslash. */
  function Quoted(value: string): (text: string) {
    if value == "" then ""
    else (if IsSpecial(value[0]) then ['\\', value[0]] else [value[0]]) + Quoted(value[1..])
  }

  lemma {:induction false} QuotedWithoutPrefix(value: string)
    requires !NeedsPrefix(value, LIKE_SPECIAL)
    ensures EscapeText(value, LIKE_SPECIAL) == Quoted(value)
  {
    if value != "" {
      assert !Flags(value[0], LIKE_SPECIAL);
      assert forall i :: 0 <= i < |value| - 1 ==> value[1..][i] == value[i + 1];
      assert !NeedsPrefix(value[1..], LIKE_SPECIAL);
      QuotedWithoutPrefix(value[1..]);
    }
  }

  lemma {:induction false} QuotedWithoutSpecial(value: string)
    requires !HasSpecial(value)
    ensures Quoted(value) == value
  {
    if value != "" {
      assert !IsSpecial(value[0]);
      assert forall i :: 0 <= i < |value| - 1 ==> value[1..][i] == value[i + 1];
      QuotedWithoutSpecial(value[1..]);
    }
  }

  /** Quoted text matches itself and nothing else, and never ends in the middle of an escape. */
  lemma {:induction false} QuotedMatchesItself(value: string, tail: string, subject: string)
    ensures LikeMatch(Quoted(value) + tail, subject)
       <==> value <= subject && LikeMatch(tail, subject[|value|..])
  {
    if value == "" {
      assert Quoted(value) + tail == tail;
    } else {
      var pattern, rest := Quoted(value) + tail, Quoted(value[1..]) + tail;
      var width := if IsSpecial(value[0]) then 2 else 1;
      assert pattern[width..] == rest;
      if subject != "" && subject[0] == value[0] {
        QuotedMatchesItself(value[1..], tail, subject[1..]);
        assert value <= subject <==> value[1..] <= subject[1..];
        if value <= subject {
          assert subject[|value|..] == subject[1..][|value| - 1..];
        }
      }
    }
  }

  lemma {:induction false} PercentMatches(tail: string, subject: string)
    ensures LikeMatch("%" + tail, subject) <==> exists i :: 0 <= i <= |subject| && LikeMatch(tail, subject[i..])
    decreases |subject|
  {
    var pattern := "%" + tail;
    assert pattern[1..] == tail;
    assert subject[0..] == subject;
    if subject == "" {
      assert LikeMatch(pattern, subject) <==> LikeMatch(tail, subject[0..]);
    } else {
      PercentMatches(tail, subject[1..]);
      if LikeMatch(pattern, subject[1..]) {
        var i :| 0 <= i <= |subject| - 1 && LikeMatch(tail, subject[1..][i..]);
        assert subject[1..][i..] == subject[i + 1..];
      }
      if i :| 0 <= i <= |subject| && LikeMatch(tail, subject[i..]) {
        if i > 0 {
          assert subject[1..][i - 1..] == subject[i..];
        }
      }
    }
  }

  lemma PercentMatchesAll(subject: string)
    ensures LikeMatch("%", subject)
  {
    PercentMatches("", subject);
    assert "%" + "" == "%";
    assert subject[|subject|..] == "";
  }

  /** A pattern with quoted text between the right wildcards is the CEL function. */
  lemma QuotedPatternExact(kind: MatchKind, value: string, subject: string)
    ensures LikeMatch(kind.Prefix() + Quoted(value) + kind.Suffix(), subject) <==> Holds(kind, subject, value)
  {
    var tail := Quoted(value) + kind.Suffix();
    forall s: string
      ensures LikeMatch(tail, s) <==> if kind.EndsWith? then value == s else value <= s
    {
      QuotedMatchesItself(value, kind.Suffix(), s);
      if value <= s {
        PercentMatchesAll(s[|value|..]);
      }
    }
    assert kind.Prefix() + Quoted(value) + kind.Suffix() == kind.Prefix() + tail;
    if kind.StartsWith? {
      assert kind.Prefix() + tail == tail;
    } else {
      PercentMatches(tail, subject);
    }
  }

  /** The pattern that the server reads from the emitted literal. */
  function DecodedPattern(kind: MatchKind, value: string): (pattern: string) {
    kind.Prefix() + (if NeedsPrefix(value, LIKE_SPECIAL) then value else EscapeText(value, LIKE_SPECIAL)) + kind.Suffix()
  }

  /** The tail of a pattern literal: the wildcard, if there is one, and the closing quote. */
  lemma ScanSuffix(suf: string, rest: string)
    requires suf == "" || suf == "%"
    requires Follows(rest)
    ensures ScanEscape(suf + ("'" + rest)) == Some(Scan(suf, rest))
    ensures ScanPlain(suf + ("'" + rest)) == Some(Scan(suf, rest))
  {
    var close := "'" + rest;
    ScanClosing(rest);
    if suf == "" {
      assert suf + close == close;
    } else {
      assert (suf + close)[1..] == close;
      assert (suf + close)[..1] == suf;
      assert suf + "" == suf;
    }
  }

  lemma ScanPrefix(pre: string, tail: string)
    requires pre == "" || pre == "%"
    ensures ScanEscape(pre + tail) == Prepend(pre, ScanEscape(tail))
    ensures ScanPlain(pre + tail) == Prepend(pre, ScanPlain(tail))
  {
    if pre == "" {
      assert pre + tail == tail;
      PrependNothing(ScanEscape(tail));
      PrependNothing(ScanPlain(tail));
    } else {
      assert (pre + tail)[1..] == tail;
      assert (pre + tail)[..1] == pre;
    }
  }

  lemma PatternShape(kind: MatchKind, value: string, rest: string)
    ensures PatternLiteral(kind, value) + rest
         == (if NeedsPrefix(value, LIKE_SPECIAL) then "e'" else "'")
            + (kind.Prefix() + (EscapeText(value, LIKE_SPECIAL) + (kind.Suffix() + ("'" + rest))))
  {
  }

  lemma PatternIsOneToken(kind: MatchKind, value: string, rest: string)
    requires Follows(rest)
    ensures ScanLiteral(PatternLiteral(kind, value) + rest)
         == if NUL in value then None else Some(Scan(DecodedPattern(kind, value), rest))
  {
    var pre, body, suf := kind.Prefix(), EscapeText(value, LIKE_SPECIAL), kind.Suffix();
    var close := suf + ("'" + rest);
    var inner := pre + (body + close);
    PatternShape(kind, value, rest);
    ScanOpening(inner);
    ScanSuffix(suf, rest);
    ScanPrefix(pre, body + close);
    if NeedsPrefix(value, LIKE_SPECIAL) {
      ScanEscapedText(value, LIKE_SPECIAL, close);
      PrependAppend(pre, value, Some(Scan(suf, rest)));
    } else {
      if NUL in value { FlaggedWithNul(value, LIKE_SPECIAL); }
      ScanPlainText(value, LIKE_SPECIAL, close);
      PrependAppend(pre, body, Some(Scan(suf, rest)));
    }
  }

  /** Whether the emitted pattern decides the CEL function on one subject. */
  ghost predicate PatternAgrees(kind: MatchKind, value: string, rest: string, subject: string) {
    var scan := ScanLiteral(PatternLiteral(kind, value) + rest);
    && scan.Some?
    && scan.value.rest == rest
    && (LikeMatch(scan.value.value, subject) <==> Holds(kind, subject, value))
  }

  predicate PatternSafe(value: string) {
    NUL !in value && (!NeedsPrefix(value, LIKE_SPECIAL) || !HasSpecial(value))
  }

  /**
   The pattern decides 'contains', 'startsWith' or 'endsWith' on every subject, exactly for the values without zero
   that need no prefix or have no special character.
   */
  lemma PatternExact(kind: MatchKind, value: string, rest: string)
    requires Follows(rest)
    ensures (forall subject :: PatternAgrees(kind, value, rest, subject)) <==> PatternSafe(value)
  {
    PatternIsOneToken(kind, value, rest);
    if PatternSafe(value) {
      if NeedsPrefix(value, LIKE_SPECIAL) {
        QuotedWithoutSpecial(value);
      } else {
        QuotedWithoutPrefix(value);
      }
      forall subject ensures PatternAgrees(kind, value, rest, subject) {
        QuotedPatternExact(kind, value, subject);
      }
    } else if NUL in value {
      assert !PatternAgrees(kind, value, rest, "");
    } else {
      var subject := RawPatternMisleads(kind, value);
      assert !PatternAgrees(kind, value, rest, subject);
    }
  }

  /** Whether the text, read as a pattern, ends in the middle of an escape. */
  predicate Dangling(value: string)
    decreases |value|
  {
    value != "" && if value[0] == '\\' then |value| == 1 || Dangling(value[2..]) else Dangling(value[1..])
  }

  /** A subject, no longer than the value and different from it, that the value matches when read as a pattern. */
  function Witness(value: string, suffix: string): (s: string)
    requires suffix == "" || suffix == "%"
    ensures |s| <= |value|
    ensures HasSpecial(value) ==> s != value
    decreases |value|
  {
    if value == "" then ""
    else if value[0] == '%' then Witness(value[1..], suffix)
    else if value[0] == '_' then "a" + Witness(value[1..], suffix)
    else if value[0] == '\\' then
      if |value| == 1 then suffix else [value[1]] + Witness(value[2..], suffix)
    else
      var s := [value[0]] + Witness(value[1..], suffix);
      assert HasSpecial(value) ==> HasSpecial(value[1..]) by {
        assert !IsSpecial(value[0]);
        assert forall i :: 1 <= i < |value| ==> value[i] == value[1..][i - 1];
      }
      assert s[1..] == Witness(value[1..], suffix);
      s
  }

  lemma {:induction false} WitnessMatches(value: string, suffix: string)
    requires suffix == "%" || (suffix == "" && !Dangling(value))
    ensures LikeMatch(value + suffix, Witness(value, suffix))
    decreases |value|
  {
    var subject := Witness(value, suffix);
    if value == "" {
      assert value + suffix == suffix;
      PercentMatchesAll("");
    } else if value[0] == '\\' {
      if |value| > 1 {
        WitnessMatches(value[2..], suffix);
        assert (value + suffix)[2..] == value[2..] + suffix;
        assert subject[1..] == Witness(value[2..], suffix);
      } else {
        assert (value + suffix)[2..] == "";
      }
    } else {
      WitnessMatches(value[1..], suffix);
      assert (value + suffix)[1..] == value[1..] + suffix;
      assert value[0] != '%' ==> subject[1..] == Witness(value[1..], suffix);
    }
  }

  lemma {:induction false} DanglingNeverMatches(value: string, subject: string)
    requires Dangling(value)
    ensures !LikeMatch(value, subject)
    decreases |value| + |subject|
  {
    if value[0] == '%' {
      DanglingNeverMatches(value[1..], subject);
    }
    if subject != "" {
      if value[0] == '%' {
        DanglingNeverMatches(value, subject[1..]);
      } else if value[0] == '\\' {
        if |value| > 1 { DanglingNeverMatches(value[2..], subject[1..]); }
      } else {
        DanglingNeverMatches(value[1..], subject[1..]);
      }
    }
  }

  /** An unquoted value with special characters decides some subject wrongly. */
  lemma RawPatternMisleads(kind: MatchKind, value: string) returns (subject: string)
    requires HasSpecial(value)
    ensures LikeMatch(kind.Prefix() + value + kind.Suffix(), subject) != Holds(kind, subject, value)
  {
    var pre, suf := kind.Prefix(), kind.Suffix();
    var pattern := pre + value + suf;
    assert pattern == pre + (value + suf);
    if kind.EndsWith? && Dangling(value) {
      subject := value;
      assert value == subject[0..];
      assert pattern[0] == '%' && pattern[1..] == value;
      assert Dangling(pattern);
      DanglingNeverMatches(pattern, subject);
    } else {
      subject := Witness(value, suf);
      WitnessMatches(value, suf);
      if kind.StartsWith? {
        assert pattern == value + suf;
      } else {
        PercentMatches(value + suf, subject);
        assert subject[0..] == subject;
      }
      assert !Holds(kind, subject, value);
    }
  }
}
