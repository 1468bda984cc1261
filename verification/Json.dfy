/**
 JSON text of strings and numbers as JSON.stringify prints them (section 7 of RFC 8259), and the field encoding of
 signed update manifests built on it.
 */
module Json {
  import opened Bytes
  import opened Wrappers

  /**
   A JavaScript number. `Finite` names a finite double; 0 and -0, which are equal and print alike, share a name.
   */
  datatype Number = Finite(double: int) | NaN | Infinite(negative: bool)

  /** A value of a parsed manifest. `Missing` is undefined or null, `Compound` an object or array with its JSON text. */
  datatype Value = Missing | Text(text: string) | Num(number: Number) | Boolean(flag: bool) | Compound(json: string)

  // ---- strings

  /** One character of a JSON string. */
  function EscapeChar(c: char): (s: string) {
    if c == '"' then "\\\""
    else if c == '\\' then "\\\\"
    else if c == '\U{8}' then "\\b"
    else if c == '\U{c}' then "\\f"
    else if c == '\n' then "\\n"
    else if c == '\r' then "\\r"
    else if c == '\t' then "\\t"
    else if c < ' ' then "\\u00" + [HexDigit(c as int / 16), HexDigit(c as int % 16)]
    else [c]
  }

  function Escape(s: string): string {
    if s == "" then "" else EscapeChar(s[0]) + Escape(s[1..])
  }

  /** JSON.stringify of a string. */
  function Quote(s: string): string {
    "\"" + Escape(s) + "\""
  }

  /** No escape is a prefix of another, and only a plain character starts without a backslash. */
  lemma EscapeCharPrefix(c: char, r: string, d: char, s: string)
    requires EscapeChar(c) + r == EscapeChar(d) + s
    ensures c == d && r == s
  {
    var x, y := EscapeChar(c) + r, EscapeChar(d) + s;
    assert x[0] == EscapeChar(c)[0] && y[0] == EscapeChar(d)[0];
    if x[0] == '\\' {
      assert x[1] == EscapeChar(c)[1] && y[1] == EscapeChar(d)[1];
      if x[1] == 'u' {
        assert x[4] == EscapeChar(c)[4] && y[4] == EscapeChar(d)[4];
        assert x[5] == EscapeChar(c)[5] && y[5] == EscapeChar(d)[5];
        HexDigitRoundTrip(c as int / 16);
        HexDigitRoundTrip(c as int % 16);
        HexDigitRoundTrip(d as int / 16);
        HexDigitRoundTrip(d as int % 16);
      }
    }
    assert c == d;
    assert r == x[|EscapeChar(c)|..] && s == y[|EscapeChar(d)|..];
  }

  /** JSON strings are told apart by their text. */
  lemma {:induction false} EscapeInjective(s: string, t: string)
    requires Escape(s) == Escape(t)
    ensures s == t
  {
    assert s == "" <==> Escape(s) == "";
    assert t == "" <==> Escape(t) == "";
    if s != "" {
      EscapeCharPrefix(s[0], Escape(s[1..]), t[0], Escape(t[1..]));
      EscapeInjective(s[1..], t[1..]);
      assert s == [s[0]] + s[1..] && t == [t[0]] + t[1..];
    }
  }

  lemma QuoteInjective(s: string, t: string)
    requires Quote(s) == Quote(t)
    ensures s == t
  {
    assert Escape(s) == Quote(s)[1..|Quote(s)| - 1];
    assert Escape(t) == Quote(t)[1..|Quote(t)| - 1];
    EscapeInjective(s, t);
  }

  // ---- the exact text

  /** How the control characters are written, in the order of their codes. */
  const CONTROL_TEXTS: seq<string> := [
    "\\u0000", "\\u0001", "\\u0002", "\\u0003", "\\u0004", "\\u0005", "\\u0006", "\\u0007",
    "\\b", "\\t", "\\n", "\\u000b", "\\f", "\\r", "\\u000e", "\\u000f",
    "\\u0010", "\\u0011", "\\u0012", "\\u0013", "\\u0014", "\\u0015", "\\u0016", "\\u0017",
    "\\u0018", "\\u0019", "\\u001a", "\\u001b", "\\u001c", "\\u001d", "\\u001e", "\\u001f"
  ]

  /** The text of one character: two are escaped by a backslash, the control characters as in the table, all others stand as they are. */
  lemma EscapeCharIsExact(c: char)
    ensures Quote([c]) == "\"" + (if c == '"' then "\\\"" else if c == '\\' then "\\\\" else if c < ' ' then CONTROL_TEXTS[c as int] else [c]) + "\""
  {
    assert [c][1..] == "" && Escape([c]) == EscapeChar(c) + Escape([c][1..]);
    assert Escape([c]) == EscapeChar(c);
    if c < ' ' {
      ControlText(c as int);
    }
  }

  lemma ControlText(n: nat)
    requires n < 32
    ensures EscapeChar(n as char) == CONTROL_TEXTS[n]
  {
    hide EscapeChar, HexDigit;
    if n < 16 {
      LowControlText(n);
    } else {
      HighControlText(n);
    }
  }

  lemma LowControlText(n: nat)
    requires n < 16
    ensures EscapeChar(n as char) == CONTROL_TEXTS[n]
  {
  }

  lemma HighControlText(n: nat)
    requires 16 <= n < 32
    ensures EscapeChar(n as char) == CONTROL_TEXTS[n]
  {
  }

  /** The text of a string is that of its characters one after the other. */
  lemma {:induction false} QuoteAppend(s: string, t: string)
    ensures Quote(s + t) == Quote(s)[..|Quote(s)| - 1] + Quote(t)[1..]
  {
    EscapeAppend(s, t);
  }

  lemma {:induction false} EscapeAppend(s: string, t: string)
    ensures Escape(s + t) == Escape(s) + Escape(t)
  {
    hide EscapeChar;
    if s == "" {
      assert s + t == t;
    } else {
      assert (s + t)[1..] == s[1..] + t;
      EscapeAppend(s[1..], t);
    }
  }

  lemma {:induction false} EscapePlain(s: string)
    requires forall k :: 0 <= k < |s| ==> s[k] >= ' ' && s[k] != '"' && s[k] != '\\'
    ensures Escape(s) == s
  {
    if s != "" {
      EscapePlain(s[1..]);
      assert s == [s[0]] + s[1..];
    }
  }

  /** So a string without quotes, backslashes and control characters stands between the quotes as it is. */
  lemma QuotePlain(s: string)
    requires forall k :: 0 <= k < |s| ==> s[k] >= ' ' && s[k] != '"' && s[k] != '\\'
    ensures Quote(s) == "\"" + s + "\""
  {
    EscapePlain(s);
  }

  // ---- reading strings back

  /** The character a two-character escape stands for. */
  function EscapedChar(c: char): Option<char> {
    if c == '"' || c == '\\' || c == '/' then Some(c)
    else if c == 'b' then Some('\U{8}')
    else if c == 'f' then Some('\U{c}')
    else if c == 'n' then Some('\n')
    else if c == 'r' then Some('\r')
    else if c == 't' then Some('\t')
    else None
  }

  /** The value of a character escape `uXXXX`; a surrogate is no character by itself. */
  function CodePoint(s: string): Option<char>
    requires |s| == 5
  {
    if s[0] != 'u' || HexDigitValue(s[1]) < 0 || HexDigitValue(s[2]) < 0 || HexDigitValue(s[3]) < 0 || HexDigitValue(s[4]) < 0 then None
    else
      var n := 4096 * HexDigitValue(s[1]) + 256 * HexDigitValue(s[2]) + 16 * HexDigitValue(s[3]) + HexDigitValue(s[4]);
      if 0xd800 <= n < 0xe000 then None else Some(n as char)
  }

  /** The inside of a JSON string by the grammar of section 7 of RFC 8259. */
  function Unescape(s: string): Option<string> {
    if s == "" then Some("")
    else if s[0] == '\\' then
      if |s| >= 2 && EscapedChar(s[1]).Some? then Prepend(EscapedChar(s[1]).value, Unescape(s[2..]))
      else if |s| >= 6 && CodePoint(s[1..6]).Some? then Prepend(CodePoint(s[1..6]).value, Unescape(s[6..]))
      else None
    else if s[0] < ' ' || s[0] == '"' then None
    else Prepend(s[0], Unescape(s[1..]))
  }

  function Prepend(c: char, rest: Option<string>): Option<string> {
    if rest.Some? then Some([c] + rest.value) else None
  }

  /** A JSON text that is a string. */
  function ParseString(t: string): Option<string> {
    if |t| < 2 || t[0] != '"' || t[|t| - 1] != '"' then None else Unescape(t[1..|t| - 1])
  }

  lemma UnescapeChar(c: char, rest: string)
    ensures Unescape(EscapeChar(c) + rest) == Prepend(c, Unescape(rest))
  {
    hide Unescape, CodePoint, EscapedChar;
    if |EscapeChar(c)| == 6 {
      UnescapeControl(c as int, rest);
    } else if |EscapeChar(c)| == 2 {
      ShortEscape(c);
      UnescapeShort(EscapeChar(c)[1], rest);
    } else {
      UnescapePlain(c, rest);
    }
  }

  lemma ShortEscape(c: char)
    requires |EscapeChar(c)| == 2
    ensures EscapeChar(c)[0] == '\\' && EscapedChar(EscapeChar(c)[1]) == Some(c)
  {
  }

  lemma UnescapeShort(e: char, rest: string)
    requires EscapedChar(e).Some?
    ensures Unescape(['\\', e] + rest) == Prepend(EscapedChar(e).value, Unescape(rest))
  {
    hide EscapedChar, CodePoint;
    assert (['\\', e] + rest)[2..] == rest;
  }

  lemma UnescapePlain(c: char, rest: string)
    requires c >= ' ' && c != '"' && c != '\\'
    ensures Unescape([c] + rest) == Prepend(c, Unescape(rest))
  {
    hide EscapedChar, CodePoint;
    assert ([c] + rest)[1..] == rest;
  }

  lemma UnescapeControl(n: int, rest: string)
    requires 0 <= n < 32
    ensures Unescape("\\u00" + [HexDigit(n / 16), HexDigit(n % 16)] + rest) == Prepend(n as char, Unescape(rest))
  {
    var e := "\\u00" + [HexDigit(n / 16), HexDigit(n % 16)];
    var s := e + rest;
    assert s[6..] == rest && s[1..6] == ['u', '0', '0', HexDigit(n / 16), HexDigit(n % 16)];
    ControlCodePoint(n);
    assert EscapedChar('u') == None;
  }

  lemma ControlCodePoint(n: int)
    requires 0 <= n < 32
    ensures CodePoint(['u', '0', '0', HexDigit(n / 16), HexDigit(n % 16)]) == Some(n as char)
  {
    HexDigitRoundTrip(n / 16);
    HexDigitRoundTrip(n % 16);
  }

  lemma {:induction false} UnescapeEscape(s: string)
    ensures Unescape(Escape(s)) == Some(s)
  {
    if s != "" {
      UnescapeEscape(s[1..]);
      UnescapeChar(s[0], Escape(s[1..]));
      assert s == [s[0]] + s[1..];
    }
  }

  /** Reading a quoted string as JSON gives the string back. */
  lemma ParseQuote(s: string)
    ensures ParseString(Quote(s)) == Some(s)
  {
    UnescapeEscape(s);
    assert Quote(s)[1..|Quote(s)| - 1] == Escape(s);
  }

  /** A JSON string holds no control character, so neither separator of the canonical text. */
  lemma {:induction false} EscapeIsPrintable(s: string)
    ensures forall c :: c in Escape(s) ==> c >= ' '
  {
    if s != "" {
      EscapeIsPrintable(s[1..]);
      var n := s[0] as int;
      assert n < 32 ==> HexDigit(n / 16) >= ' ' && HexDigit(n % 16) >= ' ';
      assert forall c :: c in EscapeChar(s[0]) ==> c >= ' ';
    }
  }

  // ---- numbers

  ghost predicate IsNumberText(s: string) {
    && s != "" && s[0] in "-0123456789"
    && forall c :: c in s ==> c in "0123456789+-.e"
  }

  /** What is used of the printing of finite numbers: different numbers have different texts, in JSON's alphabet. */
  ghost predicate PrintsNumbers(num: int -> string) {
    && (forall a, b :: num(a) == num(b) ==> a == b)
    && forall a :: IsNumberText(num(a))
  }

  // ---- fields

  /** encodeField: JSON for present values, nothing for absent ones. */
  function EncodeField(num: int -> string, v: Value): (s: string) {
    match v
    case Missing => ""
    case Text(text) => Quote(text)
    case Num(Finite(double)) => num(double)
    case Num(_) => "null"
    case Boolean(flag) => if flag then "true" else "false"
    case Compound(json) => json
  }

  /** The value up to what JSON keeps of it: NaN and the infinities become one. */
  function Kept(v: Value): Value {
    if v.Num? && !v.number.Finite? then Num(NaN) else v
  }

  predicate IsScalar(v: Value) {
    !v.Compound?
  }

  /** The encoding of a scalar holds neither separator. */
  lemma FieldIsPrintable(num: int -> string, v: Value)
    requires PrintsNumbers(num) && IsScalar(v)
    ensures forall c :: c in EncodeField(num, v) ==> c >= ' '
  {
    hide Escape;
    match v
    case Text(text) => EscapeIsPrintable(text);
    case Num(Finite(double)) => assert IsNumberText(num(double));
    case _ =>
  }

  /** Scalars are told apart by their encoding, except the numbers JSON turns into null. */
  lemma FieldIsExact(num: int -> string, u: Value, v: Value)
    requires PrintsNumbers(num) && IsScalar(u) && IsScalar(v)
    ensures EncodeField(num, u) == EncodeField(num, v) <==> Kept(u) == Kept(v)
  {
    var s, t := EncodeField(num, u), EncodeField(num, v);
    if s == t {
      FirstChar(num, u);
      FirstChar(num, v);
      if u.Text? && v.Text? {
        QuoteInjective(u.text, v.text);
      } else if u.Boolean? && v.Boolean? {
        assert s[0] == t[0];
      }
    }
  }

  /** What the first character of an encoding says about the value. */
  lemma FirstChar(num: int -> string, v: Value)
    requires PrintsNumbers(num) && IsScalar(v)
    ensures var s := EncodeField(num, v);
            && (s == "" <==> v.Missing?)
            && (s != "" ==> && (s[0] == '"' <==> v.Text?)
                            && (s[0] == 'n' <==> v.Num? && !v.number.Finite?)
                            && (s[0] == 't' <==> v == Boolean(true))
                            && (s[0] == 'f' <==> v == Boolean(false)))
  {
    if v.Num? && v.number.Finite? {
      assert IsNumberText(num(v.number.double));
    }
  }

  // ---- such a printing exists

  function Digits(n: nat): (s: string)
    ensures s != ""
  {
    if n < 10 then [('0' as int + n) as char] else Digits(n / 10) + [('0' as int + n % 10) as char]
  }

  function Decimal(n: int): string {
    if n < 0 then "-" + Digits(-n) else Digits(n)
  }

  lemma {:induction false} DigitsInjective(m: nat, n: nat)
    requires Digits(m) == Digits(n)
    ensures m == n
  {
    var s, t := Digits(m), Digits(n);
    assert m >= 10 <==> |s| > 1;
    assert n >= 10 <==> |t| > 1;
    assert s[|s| - 1] == t[|t| - 1];
    if m >= 10 && n >= 10 {
      assert Digits(m / 10) == s[..|s| - 1] && Digits(n / 10) == t[..|t| - 1];
      DigitsInjective(m / 10, n / 10);
    }
  }

  lemma {:induction false} DigitsAreDigits(n: nat)
    ensures forall c :: c in Digits(n) ==> c in "0123456789" && c != '-'
  {
    if n >= 10 {
      DigitsAreDigits(n / 10);
    }
    assert ('0' as int + n % 10) as char in "0123456789" by {
      assert "0123456789"[n % 10] == ('0' as int + n % 10) as char;
    }
  }

  lemma DecimalInjective(a: int, b: int)
    requires Decimal(a) == Decimal(b)
    ensures a == b
  {
    DigitsAreDigits(if a < 0 then -a else a);
    DigitsAreDigits(if b < 0 then -b else b);
    assert Digits(if a < 0 then -a else a)[0] in Digits(if a < 0 then -a else a);
    assert Digits(if b < 0 then -b else b)[0] in Digits(if b < 0 then -b else b);
    assert (Decimal(a)[0] == '-' <==> a < 0) && (Decimal(b)[0] == '-' <==> b < 0);
    if a < 0 {
      assert Digits(-a) == Decimal(a)[1..] && Digits(-b) == Decimal(b)[1..];
      DigitsInjective(-a, -b);
    } else {
      DigitsInjective(a, b);
    }
  }

  /** Decimal notation prints numbers as the manifest needs, so the condition on `num` can be met. */
  lemma DecimalPrintsNumbers()
    ensures PrintsNumbers(Decimal)
  {
    forall a, b | Decimal(a) == Decimal(b) ensures a == b {
      DecimalInjective(a, b);
    }
    forall a ensures IsNumberText(Decimal(a)) {
      var m := if a < 0 then -a else a;
      DigitsAreDigits(m);
      assert Digits(m)[0] in Digits(m);
      assert Decimal(a) == (if a < 0 then "-" else "") + Digits(m);
    }
  }
}
