/**
 UTF-8 as the name parser decodes escaped bytes: each valid sequence (section 4 of RFC 3629) is one character, any other
 byte is a Latin-1 character.
 */
module Utf8 {
  import opened Bytes
  import opened Seqs
  import opened Wrappers

  // ---- decoding

  /** utf8SequenceLength: how many bytes a sequence with this first byte has, 0 when none starts so. */
  function SequenceLength(lead: byte): (n: nat)
    ensures n <= 4
  {
    if lead < 0x80 then 1
    else if 0xc2 <= lead <= 0xdf then 2
    else if 0xe0 <= lead <= 0xef then 3
    else if 0xf0 <= lead <= 0xf4 then 4
    else 0
  }

  predicate IsContinuation(b: byte) {
    0x80 <= b < 0xc0
  }

  /** The second byte excludes overlong forms, surrogates and values above U+10FFFF. */
  predicate SecondFits(lead: byte, second: byte) {
    && IsContinuation(second)
    && (lead == 0xe0 ==> second >= 0xa0) && (lead == 0xed ==> second < 0xa0)
    && (lead == 0xf0 ==> second >= 0x90) && (lead == 0xf4 ==> second < 0x90)
  }

  function Value2(a: int, b: int): int { (a - 0xc0) * 64 + (b - 0x80) }

  function Value3(a: int, b: int, c: int): int { (a - 0xe0) * 4096 + (b - 0x80) * 64 + (c - 0x80) }

  function Value4(a: int, b: int, c: int, d: int): int { (a - 0xf0) * 262144 + (b - 0x80) * 4096 + (c - 0x80) * 64 + (d - 0x80) }

  predicate IsScalar(n: int) {
    0 <= n < 0xd800 || 0xe000 <= n < 0x11_0000
  }

  function CharOf(n: int): Option<char> {
    if IsScalar(n) then Some(n as char) else None
  }

  /** The strict decoder on the bytes of one sequence. */
  function TryDecode(b: bytes): Option<char>
    requires b != [] && |b| == SequenceLength(b[0])
  {
    if |b| == 1 then CharOf(b[0])
    else if !SecondFits(b[0], b[1]) then None
    else if |b| == 2 then CharOf(Value2(b[0], b[1]))
    else if !IsContinuation(b[2]) then None
    else if |b| == 3 then CharOf(Value3(b[0], b[1], b[2]))
    else if !IsContinuation(b[3]) then None
    else CharOf(Value4(b[0], b[1], b[2], b[3]))
  }

  /** decodeEscapedBytes. */
  function Decode(b: bytes): (s: string) {
    if b == [] then ""
    else
      var n := SequenceLength(b[0]);
      if n == 0 || n > |b| || TryDecode(b[..n]).None? then [b[0] as char] + Decode(b[1..])
      else [TryDecode(b[..n]).value] + Decode(b[n..])
  }

  /** One turn of the loop, at position i. */
  lemma DecodeTurn(b: bytes, i: nat)
    requires i < |b|
    ensures var n := SequenceLength(b[i]);
            Decode(b[i..]) == if n == 0 || i + n > |b| || TryDecode(b[i..i + n]).None? then [b[i] as char] + Decode(b[i + 1..])
                              else [TryDecode(b[i..i + n]).value] + Decode(b[i + n..])
  {
    hide TryDecode;
    var rest, n := b[i..], SequenceLength(b[i]);
    assert rest[0] == b[i] && rest[1..] == b[i + 1..];
    if i + n <= |b| {
      assert rest[..n] == b[i..i + n] && rest[n..] == b[i + n..];
    }
  }

  /** The loop of decodeEscapedBytes. */
  method DecodeEscapedBytes(b: bytes) returns (result: string)
    ensures result == Decode(b)
  {
    hide TryDecode, SequenceLength, Decode;
    DecodeBounds(b);
    result := "";
    var i := 0;
    while i < |b|
      invariant 0 <= i <= |b|
      invariant result + Decode(b[i..]) == Decode(b)
    {
      DecodeTurn(b, i);
      var length := SequenceLength(b[i]);
      var decoded := None;
      if length != 0 && i + length <= |b| {
        decoded := TryDecode(b[i..i + length]);
      }
      if decoded.None? {
        Associate(result, [b[i] as char], Decode(b[i + 1..]));
        result := result + [b[i] as char];
        i := i + 1;
      } else {
        Associate(result, [decoded.value], Decode(b[i + length..]));
        result := result + [decoded.value];
        i := i + length;
      }
    }
  }

  lemma DecodeBounds(b: bytes)
    ensures Decode(b[0..]) == Decode(b) && Decode(b[|b|..]) == ""
  {
    assert b[0..] == b && b[|b|..] == [];
  }

  // ---- encoding

  function EncodeChar(c: char): (b: bytes)
    ensures b != []
  {
    var n := c as int;
    if n < 0x80 then [n]
    else if n < 0x800 then [0xc0 + n / 64, 0x80 + n % 64]
    else if n < 0x1_0000 then [0xe0 + n / 4096, 0x80 + n / 64 % 64, 0x80 + n % 64]
    else [0xf0 + n / 262144, 0x80 + n / 4096 % 64, 0x80 + n / 64 % 64, 0x80 + n % 64]
  }

  function Encode(s: string): (b: bytes) {
    if s == "" then [] else EncodeChar(s[0]) + Encode(s[1..])
  }

  lemma Split64(n: int)
    requires n >= 0
    ensures n == n / 64 * 64 + n % 64 && 0 <= n % 64 < 64
    ensures n / 4096 == n / 64 / 64 && n / 262144 == n / 4096 / 64
  {
  }

  lemma CharRoundTrip(c: char)
    ensures |EncodeChar(c)| == SequenceLength(EncodeChar(c)[0])
    ensures TryDecode(EncodeChar(c)) == Some(c)
  {
    var n := c as int;
    if n < 0x800 {
      Split64(n);
    } else if n < 0x1_0000 {
      ThreeBytes(n);
    } else {
      FourBytes(n);
    }
  }

  lemma ThreeBytes(n: int)
    requires 0x800 <= n < 0x1_0000 && IsScalar(n)
    ensures SecondFits(0xe0 + n / 4096, 0x80 + n / 64 % 64) && 0xe0 + n / 4096 <= 0xef
    ensures Value3(0xe0 + n / 4096, 0x80 + n / 64 % 64, 0x80 + n % 64) == n
  {
    Split64(n);
    Split64(n / 64);
  }

  lemma FourBytes(n: int)
    requires 0x1_0000 <= n < 0x11_0000
    ensures SecondFits(0xf0 + n / 262144, 0x80 + n / 4096 % 64) && 0xf0 + n / 262144 <= 0xf4
    ensures Value4(0xf0 + n / 262144, 0x80 + n / 4096 % 64, 0x80 + n / 64 % 64, 0x80 + n % 64) == n
  {
    Split64(n);
    Split64(n / 64);
    Split64(n / 4096);
  }

  /** Decoding undoes encoding. */
  lemma {:induction false} DecodeEncode(s: string)
    ensures Decode(Encode(s)) == s
  {
    if s != "" {
      var head, rest := EncodeChar(s[0]), Encode(s[1..]);
      CharRoundTrip(s[0]);
      DecodeEncode(s[1..]);
      hide EncodeChar, TryDecode, SequenceLength;
      assert Encode(s)[0] == head[0];
      assert Encode(s)[..|head|] == head && Encode(s)[|head|..] == rest;
      assert s == [s[0]] + s[1..];
    }
  }

  // ---- what is decoded is the encoding of a character

  lemma Digits64(high: int, low: int)
    requires high >= 0 && 0 <= low < 64
    ensures (high * 64 + low) / 64 == high && (high * 64 + low) % 64 == low
  {
  }

  /** The second byte as a digit: above what fewer bytes hold, outside the surrogates, below 0x110000. */
  lemma ThreeIn(a: byte, b: byte, c: byte)
    requires 0xe0 <= a <= 0xef && SecondFits(a, b) && IsContinuation(c)
    ensures 0x800 <= Value3(a, b, c) < 0x1_0000 && IsScalar(Value3(a, b, c))
    ensures var n := Value3(a, b, c); a == 0xe0 + n / 4096 && b == 0x80 + n / 64 % 64 && c == 0x80 + n % 64
  {
    var n := Value3(a, b, c);
    Split64(n);
    Digits64((a - 0xe0) * 64 + (b - 0x80), c - 0x80);
    Digits64(a - 0xe0, b - 0x80);
  }

  lemma FourIn(a: byte, b: byte, c: byte, d: byte)
    requires 0xf0 <= a <= 0xf4 && SecondFits(a, b) && IsContinuation(c) && IsContinuation(d)
    ensures 0x1_0000 <= Value4(a, b, c, d) < 0x11_0000
    ensures var n := Value4(a, b, c, d); a == 0xf0 + n / 262144 && b == 0x80 + n / 4096 % 64 && c == 0x80 + n / 64 % 64 && d == 0x80 + n % 64
  {
    var n := Value4(a, b, c, d);
    Split64(n);
    Digits64((a - 0xf0) * 4096 + (b - 0x80) * 64 + (c - 0x80), d - 0x80);
    Digits64((a - 0xf0) * 64 + (b - 0x80), c - 0x80);
    Digits64(a - 0xf0, b - 0x80);
  }

  lemma DecodedIsEncoding(b: bytes)
    requires b != [] && |b| == SequenceLength(b[0]) && TryDecode(b).Some?
    ensures EncodeChar(TryDecode(b).value) == b
  {
    if |b| == 2 {
      Digits64(b[0] - 0xc0, b[1] - 0x80);
    } else if |b| == 3 {
      ThreeIn(b[0], b[1], b[2]);
    } else if |b| == 4 {
      FourIn(b[0], b[1], b[2], b[3]);
    }
  }

  /** A character's encoding at the front of the bytes is decoded; when there is none, the first byte is a Latin-1 character. */
  lemma DecodeIsExact(b: bytes, c: char)
    requires b != []
    ensures EncodeChar(c) <= b ==> Decode(b) == [c] + Decode(b[|EncodeChar(c)|..])
    ensures (forall x :: !(EncodeChar(x) <= b)) ==> Decode(b) == [b[0] as char] + Decode(b[1..])
  {
    hide EncodeChar, TryDecode, SequenceLength;
    var n := SequenceLength(b[0]);
    if EncodeChar(c) <= b {
      CharRoundTrip(c);
      assert EncodeChar(c)[0] == b[0] && b[..n] == EncodeChar(c);
    }
    if 0 < n <= |b| && TryDecode(b[..n]).Some? {
      DecodedIsEncoding(b[..n]);
      assert EncodeChar(TryDecode(b[..n]).value) <= b;
    }
  }
}
