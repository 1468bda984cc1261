/**
 Distinguished names as they are written: a printer with both escapes of section 2.4 of RFC 2253, a backslash before the
 character or hex pairs, and with quotes as Windows reports subjects. The parser undoes it but for one case, in which it loses
 the last attribute; publisher names are matched on what it reads.
 */
module DistinguishedNamePrinter {
  import opened Bytes
  import opened DistinguishedName
  import opened Json
  import opened Seqs
  import opened Texts
  import opened Wrappers
  import Utf8

  /**
   `Escaped` writes the characters of `hex` as hex pairs and puts a backslash before what else must be escaped and before all of
   `backslash` that may be (a backslash before a hex digit could be read as a hex pair).
   */
  datatype Style = Escaped(hex: set<char>, backslash: set<char>) | Quoted

  datatype Form = Plain | Backslash | Hex

  /** How many blanks stand around the parts of an attribute, and between its mark and the next one. */
  datatype Blanks = Blanks(beforeEquals: nat, afterEquals: nat, beforeMark: nat, afterMark: nat)

  /** An attribute, how its value is written, what separates it from the next one, and the blanks. */
  datatype Attribute = Attribute(key: string, value: string, style: Style, mark: char, blanks: Blanks)

  // ---- the printer

  /** What the parser reacts to inside a value. */
  predicate IsSpecial(c: char) {
    IsSeparator(c) || c == '"' || c == '\\'
  }

  /** How character k of a value is written. */
  function FormAt(v: string, k: nat, style: Style): Form
    requires k < |v| && style.Escaped?
  {
    if v[k] in style.hex then Hex
    else if IsSpecial(v[k]) || (IsSpace(v[k]) && (k == 0 || k == |v| - 1)) || (v[k] in style.backslash && !IsHex(v[k])) then Backslash
    else Plain
  }

  function HexPair(b: byte): (s: string)
    ensures |s| == 3
  {
    ['\\', HexDigit(b / 16), HexDigit(b % 16)]
  }

  function HexPairs(b: bytes): (s: string)
    ensures |s| == 3 * |b|
  {
    if b == [] then "" else HexPair(b[0]) + HexPairs(b[1..])
  }

  /** Character k as it is, behind a backslash, or as the hex pairs of its UTF-8 encoding. */
  function PrintChar(v: string, k: nat, style: Style): (s: string)
    requires k < |v| && style.Escaped?
    ensures s != ""
  {
    match FormAt(v, k, style)
    case Plain => [v[k]]
    case Backslash => ['\\', v[k]]
    case Hex => HexPairs(Utf8.EncodeChar(v[k]))
  }

  /** The value from character k on. */
  function EscapedFrom(v: string, k: nat, style: Style): string
    requires k <= |v| && style.Escaped?
    decreases |v| - k
  {
    if k == |v| then "" else PrintChar(v, k, style) + EscapedFrom(v, k + 1, style)
  }

  function PrintValue(a: Attribute): string {
    if a.style.Escaped? then EscapedFrom(a.value, 0, a.style) else "\"" + a.value + "\""
  }

  function Spaces(n: nat): (s: string)
    ensures |s| == n && forall k :: 0 <= k < n ==> s[k] == ' '
  {
    seq(n, _ => ' ')
  }

  function PrintKey(a: Attribute): string {
    a.key + Spaces(a.blanks.beforeEquals) + "="
  }

  /** The attribute without blanks behind it. */
  function PrintCore(a: Attribute): string {
    PrintKey(a) + Spaces(a.blanks.afterEquals) + PrintValue(a)
  }

  function PrintPair(a: Attribute): string {
    PrintCore(a) + Spaces(a.blanks.beforeMark)
  }

  function Print(attributes: seq<Attribute>): string {
    if attributes == [] then ""
    else if |attributes| == 1 then PrintPair(attributes[0])
    else PrintPair(attributes[0]) + [attributes[0].mark] + Spaces(attributes[0].blanks.afterMark) + Print(attributes[1..])
  }

  /** A key that needs no escape: nothing special in it, no whitespace around it. */
  predicate IsPlainKey(key: string) {
    && key != "" && !IsSpace(key[0]) && !IsSpace(key[|key| - 1])
    && forall k :: 0 <= k < |key| ==> !IsSpecial(key[k]) && key[k] != '='
  }

  /** Any value can be written escaped; quotes can hold any value without a quote. */
  predicate IsPrintable(a: Attribute) {
    IsPlainKey(a.key) && IsSeparator(a.mark) && (a.style.Quoted? ==> '"' !in a.value)
  }

  ghost predicate AllPrintable(attributes: seq<Attribute>) {
    forall k :: 0 <= k < |attributes| ==> IsPrintable(attributes[k])
  }

  /** The attributes one after the other; of a repeated key the last value stays. */
  function Collect(result: Attributes, attributes: seq<Attribute>): Attributes
    decreases |attributes|
  {
    if attributes == [] then result else Collect(result[attributes[0].key := attributes[0].value], attributes[1..])
  }

  function AttributesOf(attributes: seq<Attribute>): Attributes {
    Collect(map[], attributes)
  }

  // ---- hex pairs

  lemma HexPairReads(b: byte)
    ensures IsHex(HexDigit(b / 16)) && IsHex(HexDigit(b % 16))
    ensures 16 * HexDigitValue(HexDigit(b / 16)) + HexDigitValue(HexDigit(b % 16)) == b
  {
    HexDigitRoundTrip(b / 16);
    HexDigitRoundTrip(b % 16);
  }

  /** A run of hex pairs that no further one follows is read as its bytes. */
  lemma {:induction false} HexRunReads(s: string, i: nat, b: bytes)
    requires Occurs(s, HexPairs(b), i)
    requires !HexPairAt(s, i + 3 * |b|)
    ensures HexRun(s, i) == b
    decreases |b|
  {
    hide Occurs, HexPair;
    if b != [] {
      var pairs := HexPairs(b);
      OccursPrefix(s, pairs, i, 3);
      OccursSuffix(s, pairs, i, 3);
      assert pairs[..3] == HexPair(b[0]) && pairs[3..] == HexPairs(b[1..]);
      PairAt(s, i, b[0]);
      HexRunReads(s, i + 3, b[1..]);
    }
  }

  lemma PairAt(s: string, i: nat, b: byte)
    requires Occurs(s, HexPair(b), i)
    ensures HexPairAt(s, i) && 16 * HexDigitValue(s[i + 1]) + HexDigitValue(s[i + 2]) == b
  {
    CharsAt(s, HexPair(b), i, 0);
    CharsAt(s, HexPair(b), i, 1);
    CharsAt(s, HexPair(b), i, 2);
    HexPairReads(b);
  }

  lemma CharsAt(s: string, t: string, i: nat, k: nat)
    requires Occurs(s, t, i) && k < |t|
    ensures i + k < |s| && s[i + k] == t[k]
  {
    assert s[i..i + |t|][k] == s[i + k];
  }

  lemma OccursSuffix(s: string, t: string, i: nat, k: nat)
    requires Occurs(s, t, i) && k <= |t|
    ensures Occurs(s, t[k..], i + k)
  {
    SubSlice(s, i, i + |t|, k, |t|);
  }

  lemma OccursPrefix(s: string, t: string, i: nat, k: nat)
    requires Occurs(s, t, i) && k <= |t|
    ensures Occurs(s, t[..k], i)
  {
    SubSlice(s, i, i + |t|, 0, k);
  }

  lemma {:induction false} HexPairsAppend(a: bytes, b: bytes)
    ensures HexPairs(a + b) == HexPairs(a) + HexPairs(b)
  {
    hide HexPair;
    if a == [] {
      assert a + b == b;
    } else {
      HexPairsAppend(a[1..], b);
      assert (a + b)[1..] == a[1..] + b;
      Associate(HexPair(a[0]), HexPairs(a[1..]), HexPairs(b));
    }
  }

  // ---- printed characters

  /** From character k on, the first thing written that is no blank: no separator, and not the very end of an escaped last blank. */
  lemma {:induction false} FirstNonBlank(v: string, k: nat, style: Style) returns (n: nat)
    requires k < |v| && style.Escaped?
    ensures var t := EscapedFrom(v, k, style);
            && n < |t| && t[n] != ' ' && !IsSeparator(t[n]) && (forall m :: 0 <= m < n ==> t[m] == ' ')
            && (EndsInBackslashedSpace(v, style) ==> n + 1 < |t|)
    decreases |v| - k
  {
    hide HexPairs, Utf8.EncodeChar;
    var head, rest := PrintChar(v, k, style), EscapedFrom(v, k + 1, style);
    assert EscapedFrom(v, k, style) == head + rest;
    n := 0;
    if FormAt(v, k, style) == Plain {
      if v[k] == ' ' {
        n := FirstNonBlank(v, k + 1, style);
        n := n + 1;
      } else if k + 1 < |v| {
        SomethingPrinted(v, k + 1, style);
      }
    } else if FormAt(v, k, style) == Hex {
      BackslashFirst(Utf8.EncodeChar(v[k]));
    }
  }

  lemma SomethingPrinted(v: string, k: nat, style: Style)
    requires k < |v| && style.Escaped?
    ensures EscapedFrom(v, k, style) != ""
  {
  }

  /** The value ends in whitespace written behind a backslash. */
  predicate EndsInBackslashedSpace(v: string, style: Style) {
    style.Escaped? && v != "" && IsSpace(v[|v| - 1]) && v[|v| - 1] !in style.hex
  }

  lemma BackslashFirst(b: bytes)
    requires b != []
    ensures |HexPairs(b)| >= 3 && HexPairs(b)[0] == '\\'
  {
  }

  /** A blank inside a token that goes on does not end it. */
  lemma BlankIsKept(s: string, i: nat, t: string, key: Option<string>)
    requires Occurs(s, t, i) && t != "" && t[|t| - 1] != ' '
    requires forall k :: 0 <= k < |t| ==> !IsSeparator(t[k]) && (key.None? ==> t[k] != '=')
    ensures !EndsToken(s, NonSpace(s, i), key)
  {
    var j := NonSpace(s, i);
    CharsAt(s, t, i, |t| - 1);
    assert j < i + |t|;
    CharsAt(s, t, i, j - i);
  }

  /** A blank before something that is no separator does not end a value. */
  lemma ValueGoesOn(s: string, i: nat, n: nat, key: string)
    requires i + n < |s| && s[i + n] != ' ' && !IsSeparator(s[i + n])
    requires forall k :: i <= k < i + n ==> s[k] == ' '
    ensures !EndsToken(s, NonSpace(s, i), Some(key))
  {
    var j := NonSpace(s, i);
    assert j == i + n;
  }

  // ---- one attribute

  /** Blanks at position i before nothing, or before something else from position i + n on. */
  ghost predicate BlanksAt(s: string, i: nat, n: nat) {
    i + n <= |s| && forall k :: i <= k < i + n ==> s[k] == ' '
  }

  /** Blanks before a token are dropped. */
  lemma {:induction false} LeadingBlanks(s: string, i: nat, n: nat, key: Option<string>, result: Attributes)
    requires BlanksAt(s, i, n)
    ensures ParseFrom(s, i, false, key, "", result) == ParseFrom(s, i + n, false, key, "", result)
    decreases n
  {
    if n > 0 {
      LeadingBlanks(s, i + 1, n - 1, key, result);
    }
  }

  /** Blanks behind a token are dropped before the mark that ends it. */
  lemma TrailingBlanks(s: string, i: nat, n: nat, key: Option<string>, token: string, result: Attributes)
    requires BlanksAt(s, i, n) && EndsToken(s, i + n, key) && (i + n < |s| ==> s[i + n] != ' ')
    ensures ParseFrom(s, i, false, key, token, result) == ParseFrom(s, i + n, false, key, token, result)
  {
    if n > 0 && token == "" {
      LeadingBlanks(s, i, n, key, result);
    } else if n > 0 {
      var j := NonSpace(s, i);
      assert j == i + n;
    }
  }

  lemma BlanksOccur(s: string, i: nat, n: nat)
    requires Occurs(s, Spaces(n), i)
    ensures BlanksAt(s, i, n)
  {
    forall k | i <= k < i + n ensures s[k] == ' ' {
      CharsAt(s, Spaces(n), i, k - i);
    }
  }

  lemma {:induction false} KeyIsRead(s: string, i: nat, key: string, m: nat, n: nat, result: Attributes)
    requires IsPlainKey(key) && Occurs(s, key, i) && m <= |key|
    requires BlanksAt(s, i + |key|, n) && i + |key| + n < |s| && s[i + |key| + n] == '='
    ensures ParseFrom(s, i + m, false, None, key[..m], result) == ParseFrom(s, i + |key| + n + 1, false, Some(key), "", result)
    decreases |key| - m
  {
    hide ParseFrom, Occurs, IsPlainKey;
    if m == |key| {
      assert key[..m] == key;
      TrailingBlanks(s, i + m, n, None, key, result);
      EqualsStep(s, i + m + n, key, result);
    } else {
      KeyCharIsRead(s, i, key, m, result);
      KeyIsRead(s, i, key, m + 1, n, result);
    }
  }

  lemma EqualsStep(s: string, i: nat, key: string, result: Attributes)
    requires i < |s| && s[i] == '='
    ensures ParseFrom(s, i, false, None, key, result) == ParseFrom(s, i + 1, false, Some(key), "", result)
  {
  }

  lemma KeyCharIsRead(s: string, i: nat, key: string, m: nat, result: Attributes)
    requires IsPlainKey(key) && Occurs(s, key, i) && m < |key|
    ensures ParseFrom(s, i + m, false, None, key[..m], result) == ParseFrom(s, i + m + 1, false, None, key[..m + 1], result)
  {
    CharsAt(s, key, i, m);
    OccursSuffix(s, key, i, m);
    BlankIsKept(s, i + m, key[m..], None);
    assert key[..m] + [key[m]] == key[..m + 1];
  }

  /** The end of the run of characters written as hex pairs from k on. */
  function RunEnd(v: string, k: nat, style: Style): (m: nat)
    requires k <= |v| && style.Escaped?
    ensures k <= m <= |v| && (m < |v| ==> FormAt(v, m, style) != Hex) && (k < |v| && FormAt(v, k, style) == Hex ==> k < m)
    decreases |v| - k
  {
    if k == |v| || FormAt(v, k, style) != Hex then k else RunEnd(v, k + 1, style)
  }

  lemma {:induction false} RunIsPrinted(v: string, k: nat, style: Style)
    requires k <= |v| && style.Escaped?
    ensures var m := RunEnd(v, k, style);
            EscapedFrom(v, k, style) == HexPairs(Utf8.Encode(v[k..m])) + EscapedFrom(v, m, style)
    decreases |v| - k
  {
    hide FormAt, HexPairs, Utf8.EncodeChar, Utf8.Encode;
    var m := RunEnd(v, k, style);
    if m > k {
      RunIsPrinted(v, k + 1, style);
      var x, y, rest := Utf8.EncodeChar(v[k]), Utf8.Encode(v[k + 1..m]), EscapedFrom(v, m, style);
      EncodeFirst(v, k, m);
      HexPairsAppend(x, y);
      Associate(HexPairs(x), HexPairs(y), rest);
    } else {
      EncodeNothing(v, k);
    }
  }

  lemma EncodeFirst(v: string, k: nat, m: nat)
    requires k < m <= |v|
    ensures Utf8.Encode(v[k..m]) == Utf8.EncodeChar(v[k]) + Utf8.Encode(v[k + 1..m])
  {
    assert v[k..m][1..] == v[k + 1..m];
  }

  lemma EncodeNothing(v: string, k: nat)
    requires k <= |v|
    ensures HexPairs(Utf8.Encode(v[k..k])) == ""
  {
    assert v[k..k] == "";
  }

  /** What follows a value: the end of the text, a blank or a separator. */
  predicate EndsValue(s: string, i: nat) {
    i == |s| || (i < |s| && (s[i] == ' ' || IsSeparator(s[i])))
  }

  /**
   The value is written in s from p on, from character k: up to what ends it, or (`cut`) up to the end of s without the
   whitespace it ends in, whose backslash is then the last thing in s.
   */
  ghost predicate WrittenAt(s: string, p: nat, v: string, k: nat, style: Style, cut: bool)
    requires k <= |v| && style.Escaped?
  {
    var t := EscapedFrom(v, k, style);
    if cut then k < |v| && EndsInBackslashedSpace(v, style) && 0 < |t| && Occurs(s, t[..|t| - 1], p) && p + |t| - 1 == |s|
    else Occurs(s, t, p) && EndsValue(s, p + |t|)
  }

  /** Where what is written of the value ends. */
  function EndOf(p: nat, v: string, k: nat, style: Style, cut: bool): int
    requires k <= |v| && style.Escaped?
  {
    p + |EscapedFrom(v, k, style)| - if cut then 1 else 0
  }

  /** Behind the first part of what is written comes the rest. */
  lemma WrittenRest(s: string, p: nat, v: string, k: nat, style: Style, cut: bool, head: string, m: nat)
    requires k <= m <= |v| && style.Escaped? && WrittenAt(s, p, v, k, style, cut)
    requires EscapedFrom(v, k, style) == head + EscapedFrom(v, m, style) && (cut ==> m < |v|)
    ensures Occurs(s, head, p) && WrittenAt(s, p + |head|, v, m, style, cut)
    ensures EndOf(p + |head|, v, m, style, cut) == EndOf(p, v, k, style, cut)
  {
    hide Occurs, EndsInBackslashedSpace, EndsValue, EscapedFrom;
    var t, rest := EscapedFrom(v, k, style), EscapedFrom(v, m, style);
    if cut {
      SomethingPrinted(v, m, style);
      assert t[..|t| - 1] == head + rest[..|rest| - 1];
      OccursParts(s, head, rest[..|rest| - 1], p);
    } else {
      OccursParts(s, head, rest, p);
    }
  }

  lemma OccursParts(s: string, head: string, rest: string, p: nat)
    requires Occurs(s, head + rest, p)
    ensures Occurs(s, head, p) && Occurs(s, rest, p + |head|)
  {
    hide Occurs;
    var t := head + rest;
    OccursPrefix(s, t, p, |head|);
    OccursSuffix(s, t, p, |head|);
    assert t[..|head|] == head && t[|head|..] == rest;
  }

  lemma PairsAreRead(s: string, p: nat, b: bytes, key: Option<string>, token: string, result: Attributes)
    requires b != [] && Occurs(s, HexPairs(b), p) && !HexPairAt(s, p + 3 * |b|)
    ensures ParseFrom(s, p, false, key, token, result) == ParseFrom(s, p + 3 * |b|, false, key, token + Utf8.Decode(b), result)
  {
    hide Utf8.Decode, ParseFrom;
    BackslashFirst(b);
    CharsAt(s, HexPairs(b), p, 0);
    HexRunReads(s, p, b);
    EscapeStep(s, p, b, key, token, result);
  }

  lemma EscapeStep(s: string, p: nat, b: bytes, key: Option<string>, token: string, result: Attributes)
    requires p < |s| && s[p] == '\\' && HexRun(s, p) == b != []
    ensures ParseFrom(s, p, false, key, token, result) == ParseFrom(s, p + 3 * |b|, false, key, token + Utf8.Decode(b), result)
  {
  }

  lemma QuoteStep(s: string, p: nat, key: Option<string>, token: string, result: Attributes)
    requires p < |s| && s[p] == '"'
    ensures ParseFrom(s, p, false, key, token, result) == ParseFrom(s, p + 1, true, key, token, result)
  {
  }

  lemma BackslashStep(s: string, p: nat, key: Option<string>, token: string, result: Attributes)
    requires p < |s| && s[p] == '\\' && (p + 1 < |s| ==> !IsHex(s[p + 1]))
    ensures ParseFrom(s, p, false, key, token, result) ==
            if p + 1 < |s| then ParseFrom(s, p + 2, false, key, token + [s[p + 1]], result) else result
  {
  }

  lemma PlainStep(s: string, p: nat, key: string, token: string, result: Attributes)
    requires p < |s| && !IsSpecial(s[p])
    requires s[p] == ' ' ==> token != "" && !EndsToken(s, NonSpace(s, p), Some(key))
    ensures ParseFrom(s, p, false, Some(key), token, result) == ParseFrom(s, p + 1, false, Some(key), token + [s[p]], result)
  {
  }

  /** After a run of hex pairs no further pair follows. */
  lemma NoPairFollows(s: string, q: nat, v: string, m: nat, style: Style, cut: bool)
    requires m <= |v| && style.Escaped? && WrittenAt(s, q, v, m, style, cut) && (m < |v| ==> FormAt(v, m, style) != Hex)
    ensures !HexPairAt(s, q)
  {
    hide IsSpace, Utf8.EncodeChar, HexPairs;
    if m < |v| {
      SpecialIsNoHex(v[m]);
      var t := EscapedFrom(v, m, style);
      var shown := if cut then t[..|t| - 1] else t;
      assert t == PrintChar(v, m, style) + EscapedFrom(v, m + 1, style);
      if shown != "" {
        CharsAt(s, shown, q, 0);
      }
      if |shown| > 1 {
        CharsAt(s, shown, q, 1);
      }
    }
  }

  /** A backslash before what must be escaped is never taken for a hex pair. */
  lemma SpecialIsNoHex(c: char)
    ensures IsSpecial(c) || IsSpace(c) ==> !IsHex(c)
  {
  }

  /** A run of characters written as hex pairs is read in one step. */
  lemma RunIsRead(s: string, p: nat, v: string, k: nat, style: Style, cut: bool, key: string, result: Attributes) returns (q: nat)
    requires k < |v| && style.Escaped? && FormAt(v, k, style) == Hex && WrittenAt(s, p, v, k, style, cut)
    ensures var m := RunEnd(v, k, style);
            && (cut ==> m < |v|) && WrittenAt(s, q, v, m, style, cut) && EndOf(q, v, m, style, cut) == EndOf(p, v, k, style, cut)
            && ParseFrom(s, p, false, Some(key), v[..k], result) == ParseFrom(s, q, false, Some(key), v[..m], result)
  {
    hide Utf8.Encode, Utf8.Decode, ParseFrom, EscapedFrom, HexPairs, Occurs, WrittenAt, RunEnd, FormAt;
    var m := RunEnd(v, k, style);
    var b := Utf8.Encode(v[k..m]);
    RunIsPrinted(v, k, style);
    EncodeNotEmpty(v[k..m]);
    Utf8.DecodeEncode(v[k..m]);
    assert v[..k] + v[k..m] == v[..m];
    if cut {
      CutIsNoRun(s, p, v, k, style);
    }
    WrittenRest(s, p, v, k, style, cut, HexPairs(b), m);
    q := p + 3 * |b|;
    NoPairFollows(s, q, v, m, style, cut);
    PairsAreRead(s, p, b, Some(key), v[..k], result);
  }

  /** Whitespace written behind a backslash ends a run of hex pairs before it. */
  lemma {:induction false} CutIsNoRun(s: string, p: nat, v: string, k: nat, style: Style)
    requires k < |v| && style.Escaped? && WrittenAt(s, p, v, k, style, true)
    ensures RunEnd(v, k, style) < |v|
  {
    RunStopsBeforeLast(v, k, style);
  }

  lemma {:induction false} RunStopsBeforeLast(v: string, k: nat, style: Style)
    requires k < |v| && EndsInBackslashedSpace(v, style)
    ensures RunEnd(v, k, style) < |v|
    decreases |v| - k
  {
    hide IsSpace;
    if k + 1 < |v| {
      RunStopsBeforeLast(v, k + 1, style);
    }
  }

  lemma EncodeNotEmpty(t: string)
    requires t != ""
    ensures Utf8.Encode(t) != []
  {
  }

  /** What reading the value comes to: its end with the whole value, or, when its last character was cut off, nothing. */
  function ReadValue(s: string, end: int, v: string, cut: bool, key: string, result: Attributes): Attributes
    requires end >= 0
  {
    if cut then result else ParseFrom(s, end, false, Some(key), v, result)
  }

  /** A character that is not written as hex pairs is read by itself. */
  lemma CharIsRead(s: string, p: nat, v: string, k: nat, style: Style, cut: bool, key: string, result: Attributes)
    requires k < |v| && style.Escaped? && FormAt(v, k, style) != Hex && WrittenAt(s, p, v, k, style, cut) && (cut ==> k + 1 < |v|)
    ensures var q := p + |PrintChar(v, k, style)|;
            && WrittenAt(s, q, v, k + 1, style, cut) && EndOf(q, v, k + 1, style, cut) == EndOf(p, v, k, style, cut)
            && ParseFrom(s, p, false, Some(key), v[..k], result) == ParseFrom(s, q, false, Some(key), v[..k + 1], result)
  {
    hide ParseFrom, WrittenAt, EscapedFrom, Occurs, IsSpace, IsHex, NonSpace, EndsToken, FormAt;
    var head := PrintChar(v, k, style);
    PrintedInParts(v, k, style);
    WrittenRest(s, p, v, k, style, cut, head, k + 1);
    assert v[..k] + [v[k]] == v[..k + 1];
    CharsAt(s, head, p, 0);
    FormOf(v, k, style);
    if FormAt(v, k, style) == Backslash {
      CharsAt(s, head, p, 1);
      BackslashStep(s, p, Some(key), v[..k], result);
    } else {
      if v[k] == ' ' {
        BlankGoesOn(s, p, v, k, style, cut, key);
      }
      PlainStep(s, p, key, v[..k], result);
    }
  }

  lemma PrintedInParts(v: string, k: nat, style: Style)
    requires k < |v| && style.Escaped?
    ensures EscapedFrom(v, k, style) == PrintChar(v, k, style) + EscapedFrom(v, k + 1, style)
  {
  }

  /** Only what is no hex digit is put behind a backslash, and only what is neither special nor an edge blank is plain. */
  lemma FormOf(v: string, k: nat, style: Style)
    requires k < |v| && style.Escaped?
    ensures FormAt(v, k, style) == Backslash ==> !IsHex(v[k])
    ensures FormAt(v, k, style) == Plain ==> !IsSpecial(v[k]) && (v[k] == ' ' ==> 0 < k < |v| - 1)
  {
    SpecialIsNoHex(v[k]);
  }

  /** A plain blank of a value does not end it. */
  lemma BlankGoesOn(s: string, p: nat, v: string, k: nat, style: Style, cut: bool, key: string)
    requires k < |v| && style.Escaped? && WrittenAt(s, p, v, k, style, cut)
    ensures !EndsToken(s, NonSpace(s, p), Some(key))
  {
    hide EscapedFrom, EndsToken, NonSpace, IsSpace;
    var n := FirstNonBlank(v, k, style);
    var t := EscapedFrom(v, k, style);
    var shown := if cut then t[..|t| - 1] else t;
    forall m | 0 <= m <= n ensures p + m < |s| && s[p + m] == t[m] {
      CharsAt(s, shown, p, m);
    }
    forall j | p <= j < p + n ensures s[j] == ' ' {
      assert s[p + (j - p)] == t[j - p];
    }
    ValueGoesOn(s, p, n, key);
  }

  lemma {:induction false} ValueIsRead(s: string, p: nat, v: string, k: nat, style: Style, cut: bool, key: string, result: Attributes)
    requires k <= |v| && style.Escaped? && WrittenAt(s, p, v, k, style, cut)
    ensures EndOf(p, v, k, style, cut) >= 0
    ensures ParseFrom(s, p, false, Some(key), v[..k], result) == ReadValue(s, EndOf(p, v, k, style, cut), v, cut, key, result)
    decreases |v| - k
  {
    hide ParseFrom, FormAt, EscapedFrom, WrittenAt, IsSpace;
    if k == |v| {
      NothingWritten(s, p, v, style, cut);
      assert v[..k] == v;
    } else if FormAt(v, k, style) == Hex {
      var q := RunIsRead(s, p, v, k, style, cut, key, result);
      ValueIsRead(s, q, v, RunEnd(v, k, style), style, cut, key, result);
    } else if cut && k + 1 == |v| {
      LastIsLost(s, p, v, style, key, result);
    } else {
      CharIsRead(s, p, v, k, style, cut, key, result);
      ValueIsRead(s, p + |PrintChar(v, k, style)|, v, k + 1, style, cut, key, result);
    }
  }

  lemma NothingWritten(s: string, p: nat, v: string, style: Style, cut: bool)
    requires style.Escaped? && WrittenAt(s, p, v, |v|, style, cut)
    ensures !cut && EndOf(p, v, |v|, style, cut) == p
  {
  }

  /** The backslash of the whitespace that was cut off runs past the end of the text. */
  lemma LastIsLost(s: string, p: nat, v: string, style: Style, key: string, result: Attributes)
    requires v != "" && style.Escaped? && WrittenAt(s, p, v, |v| - 1, style, true)
    ensures EndOf(p, v, |v| - 1, style, true) >= 0
    ensures ParseFrom(s, p, false, Some(key), v[..|v| - 1], result) == result
  {
    hide IsSpace, ParseFrom, IsSpecial, IsHex;
    var k := |v| - 1;
    PrintedInParts(v, k, style);
    assert EscapedFrom(v, |v|, style) == "";
    var t := EscapedFrom(v, k, style);
    assert t == ['\\', v[k]];
    CharsAt(s, t[..1], p, 0);
    BackslashStep(s, p, Some(key), v[..k], result);
  }

  lemma {:induction false} QuotedIsRead(s: string, p: nat, v: string, k: nat, key: string, result: Attributes)
    requires k <= |v| && '"' !in v && Occurs(s, v + "\"", p)
    ensures ParseFrom(s, p + k, true, Some(key), v[..k], result) == ParseFrom(s, p + |v| + 1, false, Some(key), v, result)
    decreases |v| - k
  {
    CharsAt(s, v + "\"", p, k);
    if k < |v| {
      assert v[..k] + [v[k]] == v[..k + 1];
      QuotedIsRead(s, p, v, k + 1, key, result);
    } else {
      assert v[..k] == v;
    }
  }

  /** The attribute ends in whitespace written behind a backslash. */
  predicate LosesLast(a: Attribute) {
    EndsInBackslashedSpace(a.value, a.style)
  }

  /** What is left of an attribute at the end of a text when the text is trimmed. */
  function ShownPair(a: Attribute): string {
    if PrintValue(a) == "" then PrintKey(a)
    else if LosesLast(a) then PrintCore(a)[..|PrintCore(a)| - 1]
    else PrintCore(a)
  }

  /** A printed attribute is read back. */
  lemma PairIsRead(s: string, i: nat, a: Attribute, result: Attributes)
    requires IsPrintable(a) && Occurs(s, PrintCore(a), i) && EndsValue(s, i + |PrintCore(a)|)
    ensures ParseFrom(s, i, false, None, "", result) == ParseFrom(s, i + |PrintCore(a)|, false, Some(a.key), a.value, result)
  {
    hide ParseFrom, IsPlainKey, EscapedFrom, Occurs, EndsInBackslashedSpace, PrintKey;
    var start := i + |PrintKey(a)| + a.blanks.afterEquals;
    assert PrintCore(a)[..|PrintCore(a)|] == PrintCore(a);
    assert PrintValue(a)[..|PrintValue(a)|] == PrintValue(a);
    KeyOfPair(s, i, a, PrintCore(a), result);
    if a.style.Escaped? {
      assert a.value[..0] == "";
      ValueIsRead(s, start, a.value, 0, a.style, false, a.key, result);
    } else {
      QuotedPair(s, start, a, result);
    }
  }

  /** The key, the mark behind it and the blanks around that are read, and behind them comes what is shown of the value. */
  lemma KeyOfPair(s: string, i: nat, a: Attribute, shown: string, result: Attributes)
    requires IsPrintable(a) && Occurs(s, shown, i)
    requires |PrintKey(a)| + a.blanks.afterEquals <= |shown| <= |PrintCore(a)| && shown == PrintCore(a)[..|shown|]
    ensures var n := |PrintKey(a)| + a.blanks.afterEquals;
            && n + |PrintValue(a)| == |PrintCore(a)| && Occurs(s, PrintValue(a)[..|shown| - n], i + n)
            && ParseFrom(s, i, false, None, "", result) == ParseFrom(s, i + n, false, Some(a.key), "", result)
  {
    hide ParseFrom, IsPlainKey, PrintValue, Occurs, PrintKey;
    var key, blanks := PrintKey(a), Spaces(a.blanks.afterEquals);
    var n := |key| + |blanks|;
    assert shown == key + (blanks + PrintValue(a)[..|shown| - n]);
    OccursParts(s, key, blanks + PrintValue(a)[..|shown| - n], i);
    OccursParts(s, blanks, PrintValue(a)[..|shown| - n], i + |key|);
    BlanksOccur(s, i + |key|, |blanks|);
    PrintedKeyIsRead(s, i, a, result);
    LeadingBlanks(s, i + |key|, |blanks|, Some(a.key), result);
  }

  lemma PrintedKeyIsRead(s: string, i: nat, a: Attribute, result: Attributes)
    requires IsPrintable(a) && Occurs(s, PrintKey(a), i)
    ensures ParseFrom(s, i, false, None, "", result) == ParseFrom(s, i + |PrintKey(a)|, false, Some(a.key), "", result)
  {
    hide ParseFrom, IsPlainKey, Occurs;
    var blanks := Spaces(a.blanks.beforeEquals);
    assert PrintKey(a) == a.key + (blanks + "=");
    OccursParts(s, a.key, blanks + "=", i);
    OccursParts(s, blanks, "=", i + |a.key|);
    BlanksOccur(s, i + |a.key|, |blanks|);
    CharsAt(s, "=", i + |a.key| + |blanks|, 0);
    assert a.key[..0] == "";
    KeyIsRead(s, i, a.key, 0, |blanks|, result);
  }

  lemma QuotedPair(s: string, start: nat, a: Attribute, result: Attributes)
    requires a.style.Quoted? && '"' !in a.value && Occurs(s, PrintValue(a), start)
    ensures ParseFrom(s, start, false, Some(a.key), "", result) == ParseFrom(s, start + |PrintValue(a)|, false, Some(a.key), a.value, result)
  {
    hide ParseFrom, Occurs;
    var text := PrintValue(a);
    CharsAt(s, text, start, 0);
    QuoteStep(s, start, Some(a.key), "", result);
    OccursSuffix(s, text, start, 1);
    assert text[1..] == a.value + "\"" && a.value[..0] == "";
    QuotedIsRead(s, start + 1, a.value, 0, a.key, result);
  }

  /** The last attribute of a text, when trimming takes the whitespace it ends in, is lost. */
  lemma PairIsLost(s: string, i: nat, a: Attribute, result: Attributes)
    requires IsPrintable(a) && LosesLast(a) && Occurs(s, ShownPair(a), i) && i + |ShownPair(a)| == |s|
    ensures ParseFrom(s, i, false, None, "", result) == result
  {
    hide ParseFrom, IsPlainKey, EscapedFrom, Occurs, EndsInBackslashedSpace, PrintKey;
    var n := |PrintKey(a)| + a.blanks.afterEquals;
    LosingIsPrinted(a);
    KeyOfPair(s, i, a, ShownPair(a), result);
    assert a.value[..0] == "";
    ValueIsRead(s, i + n, a.value, 0, a.style, true, a.key, result);
  }

  lemma LosingIsPrinted(a: Attribute)
    requires LosesLast(a)
    ensures a.value != "" && a.style.Escaped? && PrintValue(a) != ""
  {
    SomethingPrinted(a.value, 0, a.style);
  }

  // ---- the whole name

  /** What is left of a printed name when it is trimmed. */
  function Shown(attributes: seq<Attribute>): string {
    if attributes == [] then ""
    else if |attributes| == 1 then ShownPair(attributes[0])
    else PrintPair(attributes[0]) + [attributes[0].mark] + Spaces(attributes[0].blanks.afterMark) + Shown(attributes[1..])
  }

  /** Does the name end in whitespace written behind a backslash? */
  predicate LosesEnd(attributes: seq<Attribute>) {
    attributes != [] && LosesLast(attributes[|attributes| - 1])
  }

  /** What the parser reads of a printed name: everything, or everything but the last attribute. */
  function Survivors(attributes: seq<Attribute>): seq<Attribute> {
    if LosesEnd(attributes) then attributes[..|attributes| - 1] else attributes
  }

  lemma SurvivorsOfMore(attributes: seq<Attribute>)
    requires |attributes| > 1
    ensures Survivors(attributes) == [attributes[0]] + Survivors(attributes[1..])
  {
    hide LosesLast;
    assert attributes[1..][|attributes| - 2] == attributes[|attributes| - 1];
    assert attributes[..|attributes| - 1] == [attributes[0]] + attributes[1..][..|attributes| - 2];
  }

  lemma {:induction false} ShownIsRead(s: string, i: nat, attributes: seq<Attribute>, result: Attributes)
    requires AllPrintable(attributes) && i <= |s| && s[i..] == Shown(attributes)
    ensures ParseFrom(s, i, false, None, "", result) == Collect(result, Survivors(attributes))
    decreases |attributes|
  {
    hide IsPrintable, PrintPair, ShownPair, ParseFrom, LosesLast, Survivors;
    if attributes == [] {
      NothingShown(s, i, result);
    } else if |attributes| == 1 {
      OneIsRead(s, i, attributes, result);
    } else {
      var a := attributes[0];
      var after := i + |PrintPair(a)|;
      SeparatorFollows(s, i, attributes);
      PairAndBlanks(s, i, a, result);
      SeparatorStep(s, after, a, result);
      LeadingBlanks(s, after + 1, a.blanks.afterMark, None, result[a.key := a.value]);
      ShownIsRead(s, after + 1 + a.blanks.afterMark, attributes[1..], result[a.key := a.value]);
      SurvivorsOfMore(attributes);
      assert Survivors(attributes)[1..] == Survivors(attributes[1..]);
    }
  }

  /** An attribute and the blanks before its mark are read. */
  lemma PairAndBlanks(s: string, i: nat, a: Attribute, result: Attributes)
    requires IsPrintable(a) && Occurs(s, PrintPair(a), i) && i + |PrintPair(a)| < |s| && IsSeparator(s[i + |PrintPair(a)|])
    ensures ParseFrom(s, i, false, None, "", result) == ParseFrom(s, i + |PrintPair(a)|, false, Some(a.key), a.value, result)
  {
    hide ParseFrom, IsPrintable, PrintCore, Occurs;
    var core, n := PrintCore(a), a.blanks.beforeMark;
    OccursParts(s, core, Spaces(n), i);
    BlanksOccur(s, i + |core|, n);
    PairIsRead(s, i, a, result);
    TrailingBlanks(s, i + |core|, n, Some(a.key), a.value, result);
  }

  lemma NothingShown(s: string, i: nat, result: Attributes)
    requires i == |s|
    ensures ParseFrom(s, i, false, None, "", result) == Collect(result, Survivors([]))
  {
  }

  lemma OneIsRead(s: string, i: nat, attributes: seq<Attribute>, result: Attributes)
    requires |attributes| == 1 && IsPrintable(attributes[0]) && i <= |s| && s[i..] == ShownPair(attributes[0])
    ensures ParseFrom(s, i, false, None, "", result) == Collect(result, Survivors(attributes))
  {
    hide IsPrintable, PrintCore, PrintKey, PrintValue, LosesLast;
    var a := attributes[0];
    assert Occurs(s, ShownPair(a), i);
    assert attributes[1..] == [] && attributes[..0] == [];
    if LosesLast(a) {
      PairIsLost(s, i, a, result);
    } else if PrintValue(a) == "" {
      EmptyIsPrinted(a);
      PrintedKeyIsRead(s, i, a, result);
    } else {
      PairIsRead(s, i, a, result);
    }
  }

  lemma EmptyIsPrinted(a: Attribute)
    requires PrintValue(a) == ""
    ensures a.value == "" && !LosesLast(a)
  {
    if a.style.Escaped? && a.value != "" {
      SomethingPrinted(a.value, 0, a.style);
    }
  }

  lemma SeparatorStep(s: string, i: nat, a: Attribute, result: Attributes)
    requires i < |s| && IsSeparator(s[i])
    ensures ParseFrom(s, i, false, Some(a.key), a.value, result) == ParseFrom(s, i + 1, false, None, "", result[a.key := a.value])
  {
  }

  lemma SeparatorFollows(s: string, i: nat, attributes: seq<Attribute>)
    requires |attributes| > 1 && IsPrintable(attributes[0]) && i <= |s| && s[i..] == Shown(attributes)
    ensures var a := attributes[0]; var after := i + |PrintPair(a)|;
            && Occurs(s, PrintPair(a), i)
            && after + 1 + a.blanks.afterMark <= |s| && IsSeparator(s[after])
            && BlanksAt(s, after + 1, a.blanks.afterMark)
            && s[after + 1 + a.blanks.afterMark..] == Shown(attributes[1..])
  {
    hide PrintPair, ShownPair;
    var a, tail := attributes[0], s[i..];
    var pair, n := PrintPair(a), |PrintPair(a)|;
    assert s[i..][..n] == pair;
    assert tail[n] == a.mark == s[i + n];
    forall k | i + n + 1 <= k < i + n + 1 + a.blanks.afterMark ensures s[k] == ' ' {
      assert s[k] == tail[k - i] == Spaces(a.blanks.afterMark)[k - i - n - 1];
    }
    assert tail[n + 1 + a.blanks.afterMark..] == Shown(attributes[1..]);
    assert tail[n + 1 + a.blanks.afterMark..] == s[i + n + 1 + a.blanks.afterMark..];
  }

  // ---- trimming a printed name

  /** Trimming takes away the blanks at the end and the whitespace written behind a last backslash. */
  lemma PairIsTrimmed(a: Attribute)
    requires IsPrintable(a)
    ensures ShownPair(a) != "" && IsTrimmed(ShownPair(a))
    ensures LosesLast(a) ==> PrintCore(a) != "" && IsSpace(PrintCore(a)[|PrintCore(a)| - 1])
  {
    hide IsSpace, EscapedFrom, HexPairs, Utf8.EncodeChar;
    var core, value := PrintCore(a), PrintValue(a);
    assert ShownPair(a)[0] == a.key[0];
    NoSpaceChars();
    if a.style.Escaped? && a.value != "" {
      SomethingPrinted(a.value, 0, a.style);
      LastPrinted(a.value, 0, a.style);
      assert core[|core| - 1] == value[|value| - 1];
      if LosesLast(a) {
        assert core[|core| - 2] == value[|value| - 2];
      }
    } else if a.style.Escaped? {
      NothingPrinted(a.style);
      assert value == "" && PrintKey(a)[|PrintKey(a)| - 1] == '=';
    } else {
      assert core[|core| - 1] == '"';
    }
  }

  lemma NothingPrinted(style: Style)
    requires style.Escaped?
    ensures EscapedFrom("", 0, style) == ""
  {
  }

  lemma NoSpaceChars()
    ensures !IsSpace('=') && !IsSpace('"') && !IsSpace('\\')
  {
  }

  /** The end of what is written of a value. */
  lemma {:induction false} LastPrinted(v: string, k: nat, style: Style)
    requires k < |v| && style.Escaped?
    ensures var t := EscapedFrom(v, k, style);
            && t != "" && (IsSpace(t[|t| - 1]) <==> EndsInBackslashedSpace(v, style))
            && (EndsInBackslashedSpace(v, style) ==> |t| >= 2 && t[|t| - 2] == '\\')
    decreases |v| - k
  {
    hide PrintChar, IsSpace;
    if k + 1 < |v| {
      LastPrinted(v, k + 1, style);
    } else {
      assert EscapedFrom(v, k + 1, style) == "";
      LastCharPrinted(v, style);
    }
  }

  lemma LastCharPrinted(v: string, style: Style)
    requires v != "" && style.Escaped?
    ensures var t := PrintChar(v, |v| - 1, style);
            && (IsSpace(t[|t| - 1]) <==> EndsInBackslashedSpace(v, style))
            && (EndsInBackslashedSpace(v, style) ==> |t| >= 2 && t[|t| - 2] == '\\')
  {
    hide HexPairs, Utf8.EncodeChar, IsSpace;
    HexPairsLast(Utf8.EncodeChar(v[|v| - 1]));
  }

  lemma {:induction false} HexPairsLast(b: bytes)
    requires b != []
    ensures !IsSpace(HexPairs(b)[3 * |b| - 1])
  {
    if |b| > 1 {
      HexPairsLast(b[1..]);
    } else {
      assert HexPairs(b)[2] == HexDigit(b[0] % 16);
    }
  }

  ghost predicate AllSpace(t: string) {
    forall k :: 0 <= k < |t| ==> IsSpace(t[k])
  }

  /** A printed name is what is shown of it and whitespace. */
  lemma {:induction false} ShownIsTrimmed(attributes: seq<Attribute>) returns (cut: string)
    requires AllPrintable(attributes)
    ensures IsTrimmed(Shown(attributes)) && (attributes != [] ==> Shown(attributes) != "")
    ensures AllSpace(cut) && Print(attributes) == Shown(attributes) + cut
    decreases |attributes|
  {
    hide IsPrintable, PrintPair, ShownPair, IsSpace;
    cut := "";
    if |attributes| == 1 {
      cut := OneIsTrimmed(attributes[0]);
    } else if attributes != [] {
      var rest := attributes[1..];
      cut := ShownIsTrimmed(rest);
      FirstIsTrimmed(attributes[0]);
      var text, head := Shown(attributes), PrintPair(attributes[0]) + [attributes[0].mark] + Spaces(attributes[0].blanks.afterMark);
      assert text[0] == PrintPair(attributes[0])[0] && text[|text| - 1] == Shown(rest)[|Shown(rest)| - 1];
      Associate(head, Shown(rest), cut);
    }
  }

  lemma OneIsTrimmed(a: Attribute) returns (cut: string)
    requires IsPrintable(a)
    ensures ShownPair(a) != "" && IsTrimmed(ShownPair(a))
    ensures AllSpace(cut) && PrintPair(a) == ShownPair(a) + cut
  {
    hide IsPrintable, LosesLast, PrintKey, PrintValue, IsTrimmed;
    PairIsTrimmed(a);
    var core, blanks := PrintCore(a), Spaces(a.blanks.beforeMark);
    if PrintValue(a) == "" {
      cut := Spaces(a.blanks.afterEquals) + blanks;
      assert core == PrintKey(a) + Spaces(a.blanks.afterEquals);
    } else if LosesLast(a) {
      cut := [core[|core| - 1]] + blanks;
    } else {
      cut := blanks;
    }
  }

  lemma FirstIsTrimmed(a: Attribute)
    requires IsPrintable(a)
    ensures PrintPair(a) != "" && !IsSpace(PrintPair(a)[0])
  {
    hide IsSpace, PrintValue;
    assert PrintPair(a)[0] == a.key[0];
  }

  lemma TrimShown(shown: string, cut: string)
    requires IsTrimmed(shown) && shown != "" && AllSpace(cut)
    ensures Trim(shown + cut) == shown
  {
    hide IsSpace;
    var text := shown + cut;
    assert text[0] == shown[0];
    assert TrimStart(text) == text;
    TrimEndShown(shown, cut);
  }

  lemma {:induction false} TrimEndShown(shown: string, cut: string)
    requires IsTrimmed(shown) && shown != "" && AllSpace(cut)
    ensures TrimEnd(shown + cut) == shown
    decreases |cut|
  {
    hide IsSpace;
    var text := shown + cut;
    if cut != "" {
      assert text[..|text| - 1] == shown + cut[..|cut| - 1];
      TrimEndShown(shown, cut[..|cut| - 1]);
    } else {
      assert text == shown;
    }
  }

  /**
   Parsing a printed name gives back its attributes, whatever the values, whatever is escaped in either way or quoted, and
   whatever separators and however many blanks stand around the parts - except that a last value ending in whitespace behind a backslash loses its attribute,
   because the name is trimmed first.
   */
  lemma ParsePrint(attributes: seq<Attribute>)
    requires AllPrintable(attributes)
    ensures Parse(Print(attributes)) == AttributesOf(Survivors(attributes))
  {
    hide IsTrimmed, AllPrintable, Print, Shown, LosesEnd, Survivors, Trim, ParseFrom, IsSpace;
    var s := Shown(attributes);
    var cut := ShownIsTrimmed(attributes);
    if attributes == [] {
      NothingToTrim();
    } else {
      TrimShown(s, cut);
    }
    assert s[0..] == s;
    ShownIsRead(s, 0, attributes, map[]);
  }

  lemma NothingToTrim()
    ensures Trim(Print([])) == Shown([])
  {
  }

  ghost predicate DistinctKeys(attributes: seq<Attribute>) {
    forall i, j :: 0 <= i < j < |attributes| ==> attributes[i].key != attributes[j].key
  }

  lemma {:induction false} CollectSnoc(result: Attributes, attributes: seq<Attribute>, a: Attribute)
    ensures Collect(result, attributes + [a]) == Collect(result, attributes)[a.key := a.value]
    decreases |attributes|
  {
    if attributes == [] {
      assert attributes + [a] == [a] && [a][1..] == [];
    } else {
      assert (attributes + [a])[1..] == attributes[1..] + [a];
      CollectSnoc(result[attributes[0].key := attributes[0].value], attributes[1..], a);
    }
  }

  lemma {:induction false} CollectKeys(result: Attributes, attributes: seq<Attribute>, key: string)
    requires key !in result && forall k :: 0 <= k < |attributes| ==> attributes[k].key != key
    ensures key !in Collect(result, attributes)
    decreases |attributes|
  {
    if attributes != [] {
      CollectKeys(result[attributes[0].key := attributes[0].value], attributes[1..], key);
    }
  }

  /**
   A name with distinct keys is read back exactly when it does not end in whitespace behind a backslash; else its last
   attribute is missing and all others are there.
   */
  lemma ParsePrintIff(attributes: seq<Attribute>)
    requires AllPrintable(attributes) && DistinctKeys(attributes)
    ensures Parse(Print(attributes)) == AttributesOf(attributes) <==> !LosesEnd(attributes)
    ensures LosesEnd(attributes) ==>
              var last := attributes[|attributes| - 1];
              && last.key !in Parse(Print(attributes))
              && AttributesOf(attributes) == Parse(Print(attributes))[last.key := last.value]
  {
    hide Parse, Print, LosesLast, AllPrintable;
    ParsePrint(attributes);
    if LosesEnd(attributes) {
      var rest, last := attributes[..|attributes| - 1], attributes[|attributes| - 1];
      assert attributes == rest + [last];
      CollectSnoc(map[], rest, last);
      CollectKeys(map[], rest, last.key);
    }
  }
}
