/**
 Base64 as Node.js implements it: the canonical encoder (section 4 of RFC 4648) and the lenient decoder of
 Buffer.from(text, "base64"), which skips characters outside the alphabet and stops at the first padding.
 */
module Base64 {
  import opened Bytes
  import opened Texts
  import opened Wrappers

  /** A 6-bit value. */
  type sextet = x: int | 0 <= x < 64

  /** The alphabet: A-Z, a-z, 0-9, `+`, `/`. */
  function Digit(s: sextet): (c: char) {
    var n: int := s;
    if n < 26 then ('A' as int + n) as char
    else if n < 52 then ('a' as int + (n - 26)) as char
    else if n < 62 then ('0' as int + (n - 52)) as char
    else if n == 62 then '+'
    else '/'
  }

  /** The value of a character of the alphabet, -1 for any other. The decoder also takes the URL-safe `-` and `_`. */
  function DigitValue(c: char): (v: int)
    ensures -1 <= v < 64
  {
    if 'A' <= c <= 'Z' then c as int - 'A' as int
    else if 'a' <= c <= 'z' then c as int - 'a' as int + 26
    else if '0' <= c <= '9' then c as int - '0' as int + 52
    else if c == '+' || c == '-' then 62
    else if c == '/' || c == '_' then 63
    else -1
  }

  lemma DigitRoundTrip(s: sextet)
    ensures DigitValue(Digit(s)) == s
    ensures Digit(s) != '=' && Digit(s) != '-' && Digit(s) != '_'
  {
  }

  // ---- encoding

  /** Three bytes as four sextets. */
  function Quad(a: byte, b: byte, c: byte): (q: seq<sextet>)
    ensures |q| == 4
  {
    [a / 4, a % 4 * 16 + b / 16, b % 16 * 4 + c / 64, c % 64]
  }

  function Encode(b: bytes): (s: string) {
    if b == [] then ""
    else if |b| == 1 then
      var q := Quad(b[0], 0, 0);
      [Digit(q[0]), Digit(q[1]), '=', '=']
    else if |b| == 2 then
      var q := Quad(b[0], b[1], 0);
      [Digit(q[0]), Digit(q[1]), Digit(q[2]), '=']
    else
      var q := Quad(b[0], b[1], b[2]);
      [Digit(q[0]), Digit(q[1]), Digit(q[2]), Digit(q[3])] + Encode(b[3..])
  }

  // ---- the bits

  /** The character of table 1 of RFC 4648 for a 6-bit value. */
  predicate Stands(c: char, v: int) {
    || (0 <= v < 26 && c as int == 'A' as int + v) || (26 <= v < 52 && c as int == 'a' as int + v - 26)
    || (52 <= v < 62 && c as int == '0' as int + v - 52) || (v == 62 && c == '+') || (v == 63 && c == '/')
  }

  /** The number with these four digits of 6 bits. */
  function OfDigits(p: int, q: int, r: int, s: int): int {
    0x4_0000 * p + 0x1000 * q + 64 * r + s
  }

  /** Three bytes are one 24-bit number, written as its four digits of 6 bits. */
  lemma EncodeThree(a: byte, b: byte, c: byte, rest: bytes) returns (v: seq<sextet>)
    ensures |v| == 4 && 0x1_0000 * a + 0x100 * b + c == OfDigits(v[0], v[1], v[2], v[3])
    ensures var s := Encode([a, b, c] + rest);
            |s| >= 4 && (forall k :: 0 <= k < 4 ==> Stands(s[k], v[k])) && s[4..] == Encode(rest)
  {
    v := Quad(a, b, c);
    assert ([a, b, c] + rest)[3..] == rest;
  }

  /** Of fewer bytes the missing ones are zero, and the digits they alone make are padding. */
  lemma EncodeRest(a: byte, b: byte) returns (v: seq<sextet>, w: seq<sextet>)
    ensures |v| == 3 && 0x1_0000 * a + 0x100 * b == OfDigits(v[0], v[1], v[2], 0)
    ensures |w| == 2 && 0x1_0000 * a == OfDigits(w[0], w[1], 0, 0)
    ensures var s := Encode([a, b]); |s| == 4 && (forall k :: 0 <= k < 3 ==> Stands(s[k], v[k])) && s[3] == '='
    ensures var s := Encode([a]); |s| == 4 && (forall k :: 0 <= k < 2 ==> Stands(s[k], w[k])) && s[2] == s[3] == '='
  {
    v, w := Quad(a, b, 0)[..3], Quad(a, 0, 0)[..2];
  }

  // ---- decoding

  /** The sextets of a text: up to the first `=`, skipping what is not in the alphabet. */
  function Sextets(s: string): (r: seq<sextet>) {
    if s == "" || s[0] == '=' then []
    else if DigitValue(s[0]) < 0 then Sextets(s[1..])
    else [DigitValue(s[0])] + Sextets(s[1..])
  }

  /** The three bytes four sextets hold. */
  function Byte0(p: int, q: int): byte
    requires 0 <= p < 64 && 0 <= q < 64
  {
    p * 4 + q / 16
  }

  function Byte1(q: int, r: int): byte
    requires 0 <= q < 64 && 0 <= r < 64
  {
    q % 16 * 16 + r / 4
  }

  function Byte2(r: int, s: int): byte
    requires 0 <= r < 64 && 0 <= s < 64
  {
    r % 4 * 64 + s
  }

  /** Whole bytes of a run of sextets; up to 7 left-over bits are dropped. */
  function FromSextets(q: seq<sextet>): (b: bytes) {
    if |q| < 2 then []
    else if |q| == 2 then [Byte0(q[0], q[1])]
    else if |q| == 3 then [Byte0(q[0], q[1]), Byte1(q[1], q[2])]
    else [Byte0(q[0], q[1]), Byte1(q[1], q[2]), Byte2(q[2], q[3])] + FromSextets(q[4..])
  }

  /** Buffer.from(s, "base64"). */
  function Decode(s: string): (b: bytes) {
    FromSextets(Sextets(s))
  }

  // ---- decoding inverts encoding

  lemma SplitBack(n: int, high: int, low: int)
    ensures n == 4 * high + low && 0 <= low < 4 ==> n / 4 == high && n % 4 == low
    ensures n == 16 * high + low && 0 <= low < 16 ==> n / 16 == high && n % 16 == low
    ensures n == 64 * high + low && 0 <= low < 64 ==> n / 64 == high && n % 64 == low
  {
  }

  /** The bytes of a quad, from its sextets. */
  lemma BytesOfQuad(a: int, b: int, c: int)
    requires 0 <= a < 256 && 0 <= b < 256 && 0 <= c < 256
    ensures var q := Quad(a, b, c); Byte0(q[0], q[1]) == a && Byte1(q[1], q[2]) == b && Byte2(q[2], q[3]) == c
  {
    SplitBack(a % 4 * 16 + b / 16, a % 4, b / 16);
    SplitBack(b % 16 * 4 + c / 64, b % 16, c / 64);
  }

  lemma FromQuad(q: seq<sextet>)
    requires |q| == 4
    ensures FromSextets(q) == [Byte0(q[0], q[1]), Byte1(q[1], q[2]), Byte2(q[2], q[3])]
    ensures FromSextets(q[..3]) == [Byte0(q[0], q[1]), Byte1(q[1], q[2])]
    ensures FromSextets(q[..2]) == [Byte0(q[0], q[1])]
  {
    hide Byte0, Byte1, Byte2;
    assert q[4..] == [];
  }

  lemma QuadRoundTrip(a: byte, b: byte, c: byte)
    ensures FromSextets(Quad(a, b, c)) == [a, b, c]
    ensures FromSextets(Quad(a, b, 0)[..3]) == [a, b]
    ensures FromSextets(Quad(a, 0, 0)[..2]) == [a]
  {
    hide Byte0, Byte1, Byte2, Quad, FromSextets;
    BytesOfQuad(a, b, c);
    BytesOfQuad(a, b, 0);
    BytesOfQuad(a, 0, 0);
    FromQuad(Quad(a, b, c));
    FromQuad(Quad(a, b, 0));
    FromQuad(Quad(a, 0, 0));
  }

  lemma SextetsOfDigit(s: sextet, rest: string)
    ensures Sextets([Digit(s)] + rest) == [s] + Sextets(rest)
  {
    DigitRoundTrip(s);
    assert ([Digit(s)] + rest)[1..] == rest;
  }

  lemma SextetsOfTwo(p: sextet, q: sextet, rest: string)
    ensures Sextets([Digit(p), Digit(q)] + rest) == [p, q] + Sextets(rest)
  {
    hide Digit, Sextets;
    SextetsOfDigit(q, rest);
    SextetsOfDigit(p, [Digit(q)] + rest);
    assert [Digit(p), Digit(q)] + rest == [Digit(p)] + ([Digit(q)] + rest);
  }

  lemma SextetsOfPadding(rest: string)
    ensures Sextets(['='] + rest) == []
  {
  }

  lemma SextetsOfDigits(q: seq<sextet>, rest: string)
    requires |q| == 4
    ensures Sextets([Digit(q[0]), Digit(q[1]), Digit(q[2]), Digit(q[3])] + rest) == q + Sextets(rest)
    ensures Sextets([Digit(q[0]), Digit(q[1]), Digit(q[2]), '=']) == q[..3]
    ensures Sextets([Digit(q[0]), Digit(q[1]), '=', '=']) == q[..2]
  {
    hide Digit, Sextets;
    var a, b, c, d := Digit(q[0]), Digit(q[1]), Digit(q[2]), Digit(q[3]);
    assert Sextets([a, b, c, d] + rest) == q + Sextets(rest) by {
      SextetsOfTwo(q[2], q[3], rest);
      SextetsOfTwo(q[0], q[1], [c, d] + rest);
      assert [a, b, c, d] + rest == [a, b] + ([c, d] + rest);
    }
    assert Sextets([a, b, c, '=']) == q[..3] by {
      SextetsOfPadding("");
      SextetsOfDigit(q[2], ['='] + "");
      SextetsOfTwo(q[0], q[1], [c] + (['='] + ""));
      assert [a, b, c, '='] == [a, b] + ([c] + (['='] + ""));
    }
    assert Sextets([a, b, '=', '=']) == q[..2] by {
      SextetsOfPadding("=");
      SextetsOfTwo(q[0], q[1], ['='] + "=");
      assert [a, b, '=', '='] == [a, b] + (['='] + "=");
    }
  }

  lemma {:induction false} DecodeEncode(b: bytes)
    ensures Decode(Encode(b)) == b
  {
    if |b| == 1 {
      QuadRoundTrip(b[0], 0, 0);
      SextetsOfDigits(Quad(b[0], 0, 0), "");
    } else if |b| == 2 {
      QuadRoundTrip(b[0], b[1], 0);
      SextetsOfDigits(Quad(b[0], b[1], 0), "");
    } else if |b| > 2 {
      DecodeEncode(b[3..]);
      DecodeQuad(b[0], b[1], b[2], b[3..]);
      assert b == [b[0], b[1], b[2]] + b[3..];
    }
  }

  /** The inductive step: three more bytes in front. */
  lemma DecodeQuad(x: byte, y: byte, z: byte, rest: bytes)
    requires Decode(Encode(rest)) == rest
    ensures Decode(Encode([x, y, z] + rest)) == [x, y, z] + rest
  {
    var q := Quad(x, y, z);
    var b := [x, y, z] + rest;
    assert b[3..] == rest;
    SextetsOfDigits(q, Encode(rest));
    QuadRoundTrip(x, y, z);
    QuadThen(q, Sextets(Encode(rest)));
  }

  lemma QuadThen(q: seq<sextet>, rest: seq<sextet>)
    requires |q| == 4
    ensures FromSextets(q + rest) == FromSextets(q) + FromSextets(rest)
  {
    assert (q + rest)[4..] == rest;
    assert q[4..] == [];
  }

  // ---- the canonical form as a grammar

  /** A character of the standard alphabet. */
  predicate IsStandard(c: char) {
    'A' <= c <= 'Z' || 'a' <= c <= 'z' || '0' <= c <= '9' || c == '+' || c == '/'
  }

  lemma StandardRoundTrip(c: char)
    requires IsStandard(c)
    ensures 0 <= DigitValue(c) && Digit(DigitValue(c)) == c
  {
  }

  lemma DigitIsStandard(s: sextet)
    ensures IsStandard(Digit(s))
  {
  }

  /**
   Canonical base64 (sections 3.5 and 4 of RFC 4648): groups of four alphabet characters, the last one possibly padded
   with the unused bits zero.
   */
  predicate IsCanonical(s: string) {
    if |s| < 4 then s == ""
    else if |s| == 4 && s[3] == '=' then
      if s[2] == '=' then IsStandard(s[0]) && IsStandard(s[1]) && DigitValue(s[1]) % 16 == 0
      else IsStandard(s[0]) && IsStandard(s[1]) && IsStandard(s[2]) && DigitValue(s[2]) % 4 == 0
    else IsStandard(s[0]) && IsStandard(s[1]) && IsStandard(s[2]) && IsStandard(s[3]) && IsCanonical(s[4..])
  }

  lemma {:induction false} EncodeIsCanonical(b: bytes)
    ensures IsCanonical(Encode(b))
  {
    if |b| > 2 {
      EncodeIsCanonical(b[3..]);
      var q := Quad(b[0], b[1], b[2]);
      DigitIsStandard(q[0]);
      DigitIsStandard(q[1]);
      DigitIsStandard(q[2]);
      DigitIsStandard(q[3]);
      assert Encode(b)[4..] == Encode(b[3..]);
    } else if |b| == 2 {
      var q := Quad(b[0], b[1], 0);
      DigitIsStandard(q[0]);
      DigitIsStandard(q[1]);
      DigitIsStandard(q[2]);
      DigitRoundTrip(q[2]);
    } else if |b| == 1 {
      var q := Quad(b[0], 0, 0);
      DigitIsStandard(q[0]);
      DigitIsStandard(q[1]);
      DigitRoundTrip(q[1]);
    }
  }

  /** Four sextets are those of the bytes they hold. */
  lemma QuadOfBytes(p: int, q: int, r: int, s: int)
    requires 0 <= p < 64 && 0 <= q < 64 && 0 <= r < 64 && 0 <= s < 64
    ensures Quad(Byte0(p, q), Byte1(q, r), Byte2(r, s)) == [p, q, r, s]
  {
    FirstOfBytes(p, q, r);
    SecondOfBytes(q, r, s);
    hide Byte0, Byte1, Byte2;
    QuadIs(Byte0(p, q), Byte1(q, r), Byte2(r, s), p, q, r, s);
  }

  lemma QuadIs(a: byte, b: byte, c: byte, p: int, q: int, r: int, s: int)
    requires 0 <= p < 64 && 0 <= q < 64 && 0 <= r < 64 && 0 <= s < 64
    requires a as int / 4 == p && a as int % 4 * 16 + b as int / 16 == q && b as int % 16 * 4 + c as int / 64 == r && c as int % 64 == s
    ensures Quad(a, b, c) == [p, q, r, s]
  {
  }

  lemma FirstOfBytes(p: int, q: int, r: int)
    requires 0 <= p < 64 && 0 <= q < 64 && 0 <= r < 64
    ensures Byte0(p, q) / 4 == p && Byte0(p, q) % 4 * 16 + Byte1(q, r) / 16 == q
  {
    assert q == 16 * (q / 16) + q % 16;
    SplitBack(Byte0(p, q), p, q / 16);
    SplitBack(Byte1(q, r), q % 16, r / 4);
  }

  lemma SecondOfBytes(q: int, r: int, s: int)
    requires 0 <= q < 64 && 0 <= r < 64 && 0 <= s < 64
    ensures Byte1(q, r) % 16 * 4 + Byte2(r, s) / 64 == r && Byte2(r, s) % 64 == s
  {
    assert r == 4 * (r / 4) + r % 4;
    SplitBack(Byte1(q, r), q % 16, r / 4);
    SplitBack(Byte2(r, s), r % 4, s);
  }

  /** The same for a last group of one byte, its unused bits zero. */
  lemma QuadOfOneByte(p: int, q: int)
    requires 0 <= p < 64 && 0 <= q < 64 && q % 16 == 0
    ensures Quad(Byte0(p, q), 0, 0)[..2] == [p, q]
  {
    SplitBack(Byte0(p, q), p, q / 16);
  }

  lemma QuadOfTwoBytes(p: int, q: int, r: int)
    requires 0 <= p < 64 && 0 <= q < 64 && 0 <= r < 64 && r % 4 == 0
    ensures Quad(Byte0(p, q), Byte1(q, r), 0)[..3] == [p, q, r]
  {
    var high, low, top := q / 16, q % 16, r / 4;
    assert q == 16 * high + low && r == 4 * top;
    SplitBack(Byte0(p, q), p, high);
    SplitBack(Byte1(q, r), low, top);
    var quad := Quad(Byte0(p, q), Byte1(q, r), 0);
    assert quad[0] == p;
    assert quad[1] == q;
    assert quad[2] == r;
  }

  lemma SextetsOfStandard(c: char, rest: string)
    requires IsStandard(c)
    ensures 0 <= DigitValue(c) && Digit(DigitValue(c)) == c && Sextets([c] + rest) == [DigitValue(c)] + Sextets(rest)
  {
    StandardRoundTrip(c);
    SextetsOfDigit(DigitValue(c), rest);
  }

  lemma OneByteRoundTrip(c: char, d: char)
    requires IsStandard(c) && IsStandard(d) && DigitValue(d) % 16 == 0
    ensures Encode(Decode([c, d, '=', '='])) == [c, d, '=', '=']
  {
    var p, q := DigitValue(c), DigitValue(d);
    SextetsOfStandard(d, "==");
    SextetsOfStandard(c, [d] + "==");
    assert [c, d, '=', '='] == [c] + ([d] + "==");
    assert Sextets("==") == [];
    assert Sextets([c, d, '=', '=']) == [p, q];
    QuadOfOneByte(p, q);
    var quad := Quad(Byte0(p, q), 0, 0);
    assert quad[0] == quad[..2][0] && quad[1] == quad[..2][1];
  }

  lemma TwoBytesRoundTrip(c: char, d: char, e: char)
    requires IsStandard(c) && IsStandard(d) && IsStandard(e) && DigitValue(e) % 4 == 0
    ensures Encode(Decode([c, d, e, '='])) == [c, d, e, '=']
  {
    hide IsStandard;
    var p, q, r := DigitValue(c), DigitValue(d), DigitValue(e);
    SextetsOfStandard(e, "=");
    SextetsOfStandard(d, [e] + "=");
    SextetsOfStandard(c, [d] + ([e] + "="));
    assert [c, d, e, '='] == [c] + ([d] + ([e] + "="));
    assert Sextets("=") == [];
    assert Sextets([c, d, e, '=']) == [p, q, r];
    hide DigitValue, Digit, Quad, Byte0, Byte1;
    QuadOfTwoBytes(p, q, r);
    var quad := Quad(Byte0(p, q), Byte1(q, r), 0);
    assert quad[0] == quad[..3][0] && quad[1] == quad[..3][1] && quad[2] == quad[..3][2];
  }

  lemma GroupRoundTrip(c: char, d: char, e: char, f: char, rest: string)
    requires IsStandard(c) && IsStandard(d) && IsStandard(e) && IsStandard(f) && Encode(Decode(rest)) == rest
    ensures Encode(Decode([c, d, e, f] + rest)) == [c, d, e, f] + rest
  {
    hide IsStandard, DigitValue, Digit, Sextets, Encode, FromSextets;
    var p, q, r, t := DigitValue(c), DigitValue(d), DigitValue(e), DigitValue(f);
    SextetsOfStandard(f, rest);
    SextetsOfStandard(e, [f] + rest);
    SextetsOfStandard(d, [e] + ([f] + rest));
    SextetsOfStandard(c, [d] + ([e] + ([f] + rest)));
    assert [c, d, e, f] + rest == [c] + ([d] + ([e] + ([f] + rest)));
    assert Sextets([c, d, e, f] + rest) == [p, q, r, t] + Sextets(rest);
    CanonicalStep(p, q, r, t, Sextets(rest));
  }

  lemma EmptyRoundTrip()
    ensures Encode(Decode("")) == ""
  {
  }

  /** Every canonical text is the encoding of what it decodes to. */
  lemma {:induction false} CanonicalRoundTrip(s: string)
    requires IsCanonical(s)
    ensures Encode(Decode(s)) == s
  {
    hide IsStandard, DigitValue, Encode, Decode;
    if |s| < 4 {
      EmptyRoundTrip();
    } else {
      if |s| == 4 && s[3] == '=' {
        if s[2] == '=' {
          OneByteRoundTrip(s[0], s[1]);
          assert s == [s[0], s[1], '=', '='];
        } else {
          TwoBytesRoundTrip(s[0], s[1], s[2]);
          assert s == [s[0], s[1], s[2], '='];
        }
      } else {
        CanonicalRoundTrip(s[4..]);
        GroupRoundTrip(s[0], s[1], s[2], s[3], s[4..]);
        assert s == [s[0], s[1], s[2], s[3]] + s[4..];
      }
    }
  }

  lemma CanonicalStep(p: int, q: int, r: int, t: int, rest: seq<sextet>)
    requires 0 <= p < 64 && 0 <= q < 64 && 0 <= r < 64 && 0 <= t < 64
    ensures Encode(FromSextets([p, q, r, t] + rest)) == [Digit(p), Digit(q), Digit(r), Digit(t)] + Encode(FromSextets(rest))
  {
    var all := [p, q, r, t] + rest;
    assert all[4..] == rest;
    var b := FromSextets(all);
    assert b == [Byte0(p, q), Byte1(q, r), Byte2(r, t)] + FromSextets(rest);
    assert b[3..] == FromSextets(rest);
    QuadOfBytes(p, q, r, t);
  }

  // ---- the strict decoder

  /** value.replace(/\s/g, ""). */
  function WithoutSpaces(s: string): (r: string) {
    if s == "" then "" else (if IsSpace(s[0]) then "" else [s[0]]) + WithoutSpaces(s[1..])
  }

  /** decodeStrictBase64: decode leniently, accept only what encodes back to the text without its whitespace. */
  function DecodeStrict(value: string): (r: Option<bytes>) {
    var compact := WithoutSpaces(value);
    var decoded := Decode(compact);
    if |compact| > 0 && Encode(decoded) == compact then Some(decoded) else None
  }

  /**
   Exactly the non-empty canonical encodings are accepted, wherever whitespace is put, and they decode to the bytes they
   encode.
   */
  lemma StrictIsExact(value: string)
    ensures DecodeStrict(value).Some? <==> WithoutSpaces(value) != "" && IsCanonical(WithoutSpaces(value))
    ensures forall b :: DecodeStrict(value) == Some(b) <==> b != [] && Encode(b) == WithoutSpaces(value)
  {
    var compact := WithoutSpaces(value);
    if IsCanonical(compact) {
      CanonicalRoundTrip(compact);
    }
    EncodeIsCanonical(Decode(compact));
    forall b ensures DecodeStrict(value) == Some(b) <==> b != [] && Encode(b) == compact {
      DecodeEncode(b);
    }
  }

  /** `value` is `text` with whitespace put into it. */
  ghost predicate IsSpaced(value: string, text: string) {
    if value == "" then text == ""
    else (IsWhite(value[0]) && IsSpaced(value[1..], text)) || (text != "" && value[0] == text[0] && IsSpaced(value[1..], text[1..]))
  }

  lemma {:induction false} SpacedWithout(value: string, text: string)
    requires IsSpaced(value, text) && forall k :: 0 <= k < |text| ==> !IsSpace(text[k])
    ensures WithoutSpaces(value) == text
    decreases |value|
  {
    if value != "" {
      hide IsSpace, IsWhite;
      IsSpaceIff(value[0]);
      if IsSpace(value[0]) {
        SpacedWithout(value[1..], text);
      } else {
        SpacedWithout(value[1..], text[1..]);
        assert text == [text[0]] + text[1..];
      }
    }
  }

  lemma {:induction false} CanonicalHasNoSpace(s: string)
    requires IsCanonical(s)
    ensures forall k :: 0 <= k < |s| ==> !IsSpace(s[k])
  {
    if |s| > 4 {
      CanonicalHasNoSpace(s[4..]);
      assert s == s[..4] + s[4..];
    }
  }

  /** The base64 of bytes decodes to them also with whitespace - line breaks, say - put into it anywhere. */
  lemma SpacedDecodes(value: string, b: bytes)
    requires b != [] && IsSpaced(value, Encode(b))
    ensures DecodeStrict(value) == Some(b)
  {
    hide Encode, DecodeStrict, IsCanonical, IsSpace, IsWhite;
    EncodeIsCanonical(b);
    CanonicalHasNoSpace(Encode(b));
    SpacedWithout(value, Encode(b));
    StrictIsExact(value);
  }
}
