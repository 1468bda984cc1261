/** K-sortable unique identifiers: a timestamp and random bytes as 27 base-62 digits. */
module Ksuid {
  import opened Bytes
  import opened Seqs
  import opened Texts
  import opened Wrappers

  const KSUID_EPOCH := 1400000000
  const WIDTH := 27

  /** BigInt("0x" + hex): the bytes as one number, most significant first. */
  function Number(b: bytes): (n: nat)
    ensures n < Pow256(|b|)
  {
    if b == [] then 0
    else
      assert 256 * (Number(b[..|b| - 1]) + 1) <= 256 * Pow256(|b| - 1);
      256 * Number(b[..|b| - 1]) + b[|b| - 1]
  }

  function Pow62(width: nat): (p: nat)
    ensures p > 0
  {
    if width == 0 then 1 else 62 * Pow62(width - 1)
  }

  /** The alphabet: 0-9, A-Z, a-z, in the order of their character codes. */
  function Digit(d: nat): (c: char)
    requires d < 62
  {
    if d < 10 then ('0' as int + d) as char
    else if d < 36 then ('A' as int + (d - 10)) as char
    else ('a' as int + (d - 36)) as char
  }

  /** The `width` lowest digits of n, most significant first. */
  function Digits(n: nat, width: nat): (s: string)
    ensures |s| == width
  {
    if width == 0 then "" else Digits(n / 62, width - 1) + [Digit(n % 62)]
  }

  function Encode(buf: bytes): string {
    Digits(Number(buf), WIDTH)
  }

  /** base62Encode: puts the digits before the result from the last one on. */
  method Base62Encode(buf: bytes) returns (result: string)
    ensures result == Encode(buf)
  {
    var n := Number(buf);
    result := "";
    for i := 0 to WIDTH
      invariant Encode(buf) == Digits(n, WIDTH - i) + result
    {
      Associate(Digits(n / 62, WIDTH - i - 1), [Digit(n % 62)], result);
      result := [Digit(n % 62)] + result;
      n := n / 62;
    }
  }

  // ---- decoding

  /** The value of a digit. */
  function DigitValue(c: char): (v: int)
    ensures v < 62
  {
    if '0' <= c <= '9' then c as int - '0' as int
    else if 'A' <= c <= 'Z' then c as int - 'A' as int + 10
    else if 'a' <= c <= 'z' then c as int - 'a' as int + 36
    else -1
  }

  function Value(s: string): int {
    if s == "" then 0 else Value(s[..|s| - 1]) * 62 + DigitValue(s[|s| - 1])
  }

  lemma DigitRoundTrip(d: nat)
    requires d < 62
    ensures DigitValue(Digit(d)) == d
  {
  }

  lemma {:induction false} ValueOfDigits(n: nat, width: nat)
    requires n < Pow62(width)
    ensures Value(Digits(n, width)) == n
    decreases width
  {
    if width > 0 {
      ValueOfDigits(n / 62, width - 1);
      DigitRoundTrip(n % 62);
      var s := Digits(n, width);
      assert s[..|s| - 1] == Digits(n / 62, width - 1);
    }
  }

  /** 62^27 is above 256^20: 27 digits hold every 20-byte buffer. */
  lemma DigitsSuffice()
    ensures Pow256(20) <= Pow62(WIDTH)
  {
    Cubes();
    Pow256Values();
    assert Pow256(9) == 256 * Pow256(8);
    assert Pow256(10) == 256 * Pow256(9);
    assert Pow256(11) == 256 * Pow256(10);
    assert Pow256(12) == 256 * Pow256(11);
    assert Pow256(13) == 256 * Pow256(12);
    assert Pow256(14) == 256 * Pow256(13);
    assert Pow256(15) == 256 * Pow256(14);
    assert Pow256(16) == 256 * Pow256(15);
    assert Pow256(17) == 256 * Pow256(16);
    assert Pow256(18) == 256 * Pow256(17);
    assert Pow256(19) == 256 * Pow256(18);
    assert Pow256(20) == 256 * Pow256(19);
  }

  lemma Cube(width: nat)
    ensures Pow62(width + 3) == 238328 * Pow62(width)
  {
    assert Pow62(width + 3) == 62 * Pow62(width + 2);
    assert Pow62(width + 2) == 62 * Pow62(width + 1);
  }

  lemma Cubes()
    ensures Pow62(27) == 2480707824361381849652170924082266893544595652608
  {
    Cube(0);
    Cube(3);
    Cube(6);
    Cube(9);
    Cube(12);
    Cube(15);
    Cube(18);
    Cube(21);
    Cube(24);
  }

  /** Decoding the digits gives back the number of every 20-byte buffer. */
  lemma DecodeEncode(buf: bytes)
    requires |buf| == 20
    ensures |Encode(buf)| == 27 && Value(Encode(buf)) == Number(buf)
  {
    hide Pow256, Pow62, Digits, Value, Number;
    DigitsSuffice();
    ValueOfDigits(Number(buf), WIDTH);
  }

  // ---- order

  lemma {:induction false} LexSnoc(a: string, x: char, b: string, y: char)
    requires |a| == |b|
    ensures LexLe(a + [x], b + [y]) <==> (a != b && LexLe(a, b)) || (a == b && x <= y)
  {
    if a == "" {
      assert [x][1..] == "" == [y][1..];
    } else {
      var s, t := a + [x], b + [y];
      assert s[1..] == a[1..] + [x] && t[1..] == b[1..] + [y] && s[0] == a[0] && t[0] == b[0];
      LexSnoc(a[1..], x, b[1..], y);
      assert a == [a[0]] + a[1..] && b == [b[0]] + b[1..];
    }
  }

  lemma DigitOrder(d: nat, e: nat)
    requires d < 62 && e < 62
    ensures Digit(d) <= Digit(e) <==> d <= e
  {
    DigitRoundTrip(d);
    DigitRoundTrip(e);
  }

  lemma EmptyOrder()
    ensures LexLe("", "")
  {
  }

  /** Texts of one width sort like the numbers they encode. */
  lemma {:induction false} DigitsOrder(m: nat, n: nat, width: nat)
    requires m < Pow62(width) && n < Pow62(width)
    ensures LexLe(Digits(m, width), Digits(n, width)) <==> m <= n
    decreases width
  {
    hide Digit, LexLe, Value;
    if width == 0 {
      EmptyOrder();
    } else {
      DigitsOrder(m / 62, n / 62, width - 1);
      ValueOfDigits(m / 62, width - 1);
      ValueOfDigits(n / 62, width - 1);
      DigitOrder(m % 62, n % 62);
      LexSnoc(Digits(m / 62, width - 1), Digit(m % 62), Digits(n / 62, width - 1), Digit(n % 62));
    }
  }

  /** String order of two encodings is the order of their numbers. */
  lemma EncodeOrder(a: bytes, b: bytes)
    requires |a| == |b| == 20
    ensures LexLe(Encode(a), Encode(b)) <==> Number(a) <= Number(b)
  {
    hide Pow256, Pow62, Digits, Number, LexLe;
    DigitsSuffice();
    DigitsOrder(Number(a), Number(b), WIDTH);
  }

  // ---- identifiers

  /** The big-endian bytes of a 32-bit number. */
  function ToBE32(n: nat): (b: bytes)
    requires n < 0x1_0000_0000
    ensures |b| == 4
  {
    [n / 0x100_0000, n / 0x1_0000 % 256, n / 0x100 % 256, n % 256]
  }

  /** generateKsuid at `now` seconds with these random bytes; a time outside 32 bits after the epoch throws. */
  method GenerateKsuid(now: nat, random: bytes) returns (id: Option<string>)
    requires |random| == 16
    ensures id.Some? <==> 0 <= now - 1400000000 < 0x1_0000_0000
    ensures id.Some? ==> id.value == Encode(ToBE32(now - 1400000000) + random) && |id.value| == 27
  {
    var ts := now - KSUID_EPOCH;
    if ts < 0 || ts >= 0x1_0000_0000 {
      return None;
    }
    var text := Base62Encode(ToBE32(ts) + random);
    id := Some(text);
  }

  lemma {:induction false} NumberAppend(a: bytes, b: bytes)
    ensures Number(a + b) == Number(a) * Pow256(|b|) + Number(b)
    decreases |b|
  {
    if b == [] {
      assert a + b == a;
    } else {
      var c := b[..|b| - 1];
      NumberAppend(a, c);
      LastByte(a + b);
      LastByte(b);
      assert (a + b)[..|a + b| - 1] == a + c;
      hide Number;
      ShiftByte(Number(a), Pow256(|c|), Number(c), b[|b| - 1]);
    }
  }

  lemma LastByte(b: bytes)
    requires b != []
    ensures Number(b) == 256 * Number(b[..|b| - 1]) + b[|b| - 1]
  {
  }

  lemma ShiftByte(a: int, p: int, c: int, d: int)
    ensures 256 * (a * p + c) + d == a * (256 * p) + (256 * c + d)
  {
  }

  lemma NumberOfBE32(n: nat)
    requires n < 0x1_0000_0000
    ensures Number(ToBE32(n)) == n
  {
    hide Number;
    var b := ToBE32(n);
    var x: int, y: int, z: int, w: int := b[0], b[1], b[2], b[3];
    FourBytes(b);
    SplitBE32(n);
  }

  lemma SplitBE32(n: nat)
    ensures n == 0x100_0000 * (n / 0x100_0000) + 0x1_0000 * (n / 0x1_0000 % 256) + 0x100 * (n / 0x100 % 256) + n % 256
  {
    var a, b := n / 0x100, n / 0x1_0000;
    assert n == 0x100 * a + n % 0x100;
    assert a / 0x100 == b && a == 0x100 * b + a % 0x100;
    assert b / 0x100 == n / 0x100_0000 && b == 0x100 * (b / 0x100) + b % 0x100;
  }

  lemma FourBytes(b: bytes)
    requires |b| == 4
    ensures var x: int, y: int, z: int, w: int := b[0], b[1], b[2], b[3];
            Number(b) == 0x100_0000 * x + 0x1_0000 * y + 0x100 * z + w
  {
    LastByte(b);
    LastByte(b[..3]);
    LastByte(b[..3][..2]);
    LastByte(b[..3][..2][..1]);
  }

  /** A later second sorts strictly later, whatever the random bytes. */
  lemma LaterSortsLater(early: nat, late: nat, r: bytes, s: bytes)
    requires early < late < 0x1_0000_0000 && |r| == |s| == 16
    ensures var a, b := Encode(ToBE32(early) + r), Encode(ToBE32(late) + s);
            LexLe(a, b) && a != b
  {
    hide Pow256, Number, Encode, LexLe, ToBE32, Value;
    var a, b, p := ToBE32(early) + r, ToBE32(late) + s, Pow256(16);
    NumberAppend(ToBE32(early), r);
    NumberAppend(ToBE32(late), s);
    NumberOfBE32(early);
    NumberOfBE32(late);
    assert Number(a) < Number(b) by {
      assert (early + 1) * p <= late * p;
    }
    EncodeOrder(a, b);
    DecodeEncode(a);
    DecodeEncode(b);
  }
}
