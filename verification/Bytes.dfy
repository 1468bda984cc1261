/** Bytes, little-endian integers, lowercase hex and the rounding of a 64-bit integer to a JavaScript number. */
module Bytes {
  import opened Arithmetic

  type byte = x: int | 0 <= x < 256
  type bytes = seq<byte>

  /** A hash prefix: the first 8 bytes of a digest. */
  type Hash8 = b: bytes | |b| == 8 witness [0, 0, 0, 0, 0, 0, 0, 0]

  function Zeros(n: nat): (b: bytes)
    ensures |b| == n
    ensures forall k :: 0 <= k < n ==> b[k] == 0
  {
    seq(n, _ => 0)
  }

  // ---- little-endian integers

  function Pow256(width: nat): (p: nat)
    ensures p >= 1
  {
    if width == 0 then 1 else 256 * Pow256(width - 1)
  }

  lemma Pow256Values()
    ensures Pow256(1) == 0x100
    ensures Pow256(2) == 0x1_0000
    ensures Pow256(4) == 0x1_0000_0000
    ensures Pow256(8) == 0x1_0000_0000_0000_0000
  {
    assert Pow256(1) == 256 * Pow256(0);
    assert Pow256(2) == 256 * Pow256(1);
    assert Pow256(3) == 256 * Pow256(2);
    assert Pow256(4) == 256 * Pow256(3);
    assert Pow256(5) == 256 * Pow256(4);
    assert Pow256(6) == 256 * Pow256(5);
    assert Pow256(7) == 256 * Pow256(6);
  }

  /** The `width` bytes of n, least significant first. */
  function ToLE(n: nat, width: nat): (b: bytes)
    requires n < Pow256(width)
    ensures |b| == width
  {
    if width == 0 then [] else [n % 256] + ToLE(n / 256, width - 1)
  }

  function FromLE(b: bytes): (n: nat)
    ensures n < Pow256(|b|)
  {
    if b == [] then 0 else b[0] + 256 * FromLE(b[1..])
  }

  lemma {:induction false} FromToLE(n: nat, width: nat)
    requires n < Pow256(width)
    ensures FromLE(ToLE(n, width)) == n
  {
    if width > 0 {
      FromToLE(n / 256, width - 1);
      assert ToLE(n, width)[1..] == ToLE(n / 256, width - 1);
    }
  }

  /** Whether Buffer.writeUIntLE of this width takes the value (it throws a RangeError otherwise). */
  predicate FitsUnsigned(n: int, width: nat) {
    0 <= n < Pow256(width)
  }

  // ---- hex

  function HexDigit(d: nat): (c: char)
    requires d < 16
  {
    "0123456789abcdef"[d]
  }

  function HexDigitValue(c: char): (d: int)
    ensures d < 16
  {
    if '0' <= c <= '9' then c as int - '0' as int
    else if 'a' <= c <= 'f' then c as int - 'a' as int + 10
    else if 'A' <= c <= 'F' then c as int - 'A' as int + 10
    else -1
  }

  /** Buffer.toString("hex"): two lowercase digits per byte. */
  function Hex(b: bytes): (s: string)
    ensures |s| == 2 * |b|
  {
    if b == [] then "" else [HexDigit(b[0] / 16), HexDigit(b[0] % 16)] + Hex(b[1..])
  }

  /** Buffer.from(s, "hex"), which stops at the first pair that is not hex. */
  function UnHex(s: string): (b: bytes)
    ensures 2 * |b| <= |s|
  {
    if |s| < 2 || HexDigitValue(s[0]) < 0 || HexDigitValue(s[1]) < 0 then []
    else [16 * HexDigitValue(s[0]) + HexDigitValue(s[1])] + UnHex(s[2..])
  }

  lemma HexDigitRoundTrip(d: nat)
    requires d < 16
    ensures HexDigitValue(HexDigit(d)) == d
  {
  }

  lemma UnHexStep(x: byte, rest: string)
    ensures UnHex([HexDigit(x / 16), HexDigit(x % 16)] + rest) == [x] + UnHex(rest)
  {
    HexDigitRoundTrip(x / 16);
    HexDigitRoundTrip(x % 16);
    hide HexDigit, HexDigitValue;
    var s := [HexDigit(x / 16), HexDigit(x % 16)] + rest;
    assert s[2..] == rest;
  }

  lemma {:induction false} UnHexHex(b: bytes)
    ensures UnHex(Hex(b)) == b
  {
    if |b| > 0 {
      UnHexHex(b[1..]);
      UnHexStep(b[0], Hex(b[1..]));
    }
  }

  lemma HexInjective(a: bytes, b: bytes)
    requires Hex(a) == Hex(b)
    ensures a == b
  {
    UnHexHex(a);
    UnHexHex(b);
  }

  // ---- JavaScript numbers

  const TWO_POW_53: nat := 0x20_0000_0000_0000

  /** The multiple of `unit` nearest to n, ties to the even multiple. */
  function NearestMultiple(n: nat, unit: nat): (r: nat)
    requires unit > 0
  {
    var q, rest := n / unit, n % unit;
    if 2 * rest < unit || (2 * rest == unit && q % 2 == 0) then q * unit else (q + 1) * unit
  }

  function RoundFrom(n: nat, unit: nat): (r: nat)
    requires unit > 0
    decreases n - unit
  {
    if n < TWO_POW_53 * unit then NearestMultiple(n, unit) else RoundFrom(n, 2 * unit)
  }

  /** Number(bigint): the nearest IEEE 754 double, ties to even. */
  function ToNumber(n: nat): (r: nat) {
    RoundFrom(n, 1)
  }

  function Pow2(k: nat): (p: nat)
    ensures p > 0
  {
    if k == 0 then 1 else 2 * Pow2(k - 1)
  }

  /** n is m times 2^k with m of at most 53 bits, or 2^53 itself. */
  ghost predicate IsScaledBy(n: int, m: nat, k: nat) {
    m <= TWO_POW_53 && n == m * Pow2(k)
  }

  /** The whole numbers a JavaScript number can hold: an integer of 53 bits, scaled by a power of two. */
  ghost predicate IsJsInteger(n: int) {
    exists m, k :: IsScaledBy(n, m, k)
  }

  /** A multiple of unit that is less than one unit is zero. */
  lemma SmallMultiple(unit: nat, d: int)
    requires 0 <= d && d * unit < unit
    ensures d == 0
  {
    assert d > 0 ==> d * unit >= unit by {
      if d > 0 { ProductGrows(1, unit, d, unit); }
    }
  }

  lemma MultipleHasNoRest(unit: nat, q: nat)
    requires unit > 0
    ensures q * unit % unit == 0
  {
    var n := q * unit;
    var p, rest := n / unit, n % unit;
    assert (q - p) * unit == q * unit - p * unit == rest;
    assert q >= p by {
      if q < p { assert (p - q) * unit >= unit by { ProductGrows(1, unit, p - q, unit); } }
    }
    SmallMultiple(unit, q - p);
  }

  lemma {:induction false} Pow2Add(j: nat, d: nat)
    ensures Pow2(j + d) == Pow2(d) * Pow2(j)
  {
    if d > 0 {
      Pow2Add(j, d - 1);
      assert Pow2(j + d) == 2 * Pow2(j + (d - 1));
      MulAssociates(2, Pow2(d - 1), Pow2(j));
    }
  }

  /** A scaled number is a multiple of every unit the rounding may stop at for it. */
  lemma ScaledIsMultiple(n: nat, m: nat, k: nat, j: nat)
    requires IsScaledBy(n, m, k) && (j == 0 || n >= TWO_POW_53 * Pow2(j - 1))
    ensures n % Pow2(j) == 0
  {
    hide Pow2;
    if j <= k {
      Pow2Add(j, k - j);
      MulAssociates(m, Pow2(k - j), Pow2(j));
      MultipleHasNoRest(Pow2(j), m * Pow2(k - j));
    } else {
      Pow2Add(k, j - 1 - k);
      ProductGrows(1, Pow2(k), Pow2(j - 1 - k), Pow2(k));
      ProductGrows(TWO_POW_53, Pow2(k), TWO_POW_53, Pow2(j - 1));
      ProductGrows(m, Pow2(k), TWO_POW_53, Pow2(k));
      Pow2Add(j - 1, 1);
      Pow2One();
      MultipleHasNoRest(Pow2(j), 0x10_0000_0000_0000);
    }
  }

  lemma Pow2One()
    ensures Pow2(1) == 2
  {
  }

  lemma {:induction false} RoundsToItself(n: nat, j: nat)
    requires j == 0 || n >= TWO_POW_53 * Pow2(j - 1)
    ensures RoundFrom(n, Pow2(j)) == n <==> IsJsInteger(n)
    decreases n - Pow2(j)
  {
    var unit := Pow2(j);
    if n < TWO_POW_53 * unit {
      NearestIsExact(n, unit);
      if n % unit == 0 {
        QuotientBelow(n, unit, TWO_POW_53);
        assert IsScaledBy(n, n / unit, j);
      }
      if IsJsInteger(n) {
        var m, k :| IsScaledBy(n, m, k);
        ScaledIsMultiple(n, m, k, j);
      }
    } else {
      assert Pow2(j + 1) == 2 * unit;
      RoundsToItself(n, j + 1);
    }
  }

  lemma NearestIsExact(n: nat, unit: nat)
    requires unit > 0
    ensures NearestMultiple(n, unit) == n <==> n % unit == 0
  {
    var q := n / unit;
    assert n == q * unit + n % unit && (q + 1) * unit == q * unit + unit;
  }

  lemma QuotientBelow(n: nat, unit: nat, limit: nat)
    requires unit > 0 && n < limit * unit && n % unit == 0
    ensures n / unit <= limit && n == n / unit * unit
  {
    var q := n / unit;
    assert n == q * unit + n % unit;
    assert q >= limit ==> q * unit >= limit * unit by {
      if q >= limit { ProductGrows(limit, unit, q, unit); }
    }
  }

  /** A number survives the conversion exactly when it is one a JavaScript number can hold. */
  lemma ToNumberIsExactIff(n: nat)
    ensures ToNumber(n) == n <==> IsJsInteger(n)
  {
    RoundsToItself(n, 0);
  }

  /** Every whole number up to 2^53 is one. */
  lemma SafeIntegersAreExact(n: nat)
    requires n <= TWO_POW_53
    ensures IsJsInteger(n)
  {
    assert IsScaledBy(n, n, 0);
  }

  /** 2^53 + 1 is read as 2^53. */
  lemma UnsafeIntegerRounds()
    ensures ToNumber(TWO_POW_53 + 1) == TWO_POW_53
  {
    assert RoundFrom(TWO_POW_53 + 1, 1) == RoundFrom(TWO_POW_53 + 1, 2);
    assert RoundFrom(TWO_POW_53 + 1, 2) == NearestMultiple(TWO_POW_53 + 1, 2);
    assert (TWO_POW_53 + 1) / 2 == 0x10_0000_0000_0000;
    assert (TWO_POW_53 + 1) % 2 == 1;
  }
}
