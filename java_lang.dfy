/**
 * The small part of the Java platform that `ByteArrayTag` relies on:
 * the primitive types `byte` and `int`, the bitwise `&` on `int`,
 * array loads with their bounds check, `Arrays.equals` on byte arrays,
 * and `Integer.toHexString`.
 */
module JavaLang {

  /** The largest `int`; also the largest length a Java array can have. */
  const INT_MAX: int := 0x7fff_ffff

  /** Java `byte`: 8-bit two's complement. */
  newtype int8 = x: int | -0x80 <= x < 0x80

  /** Java `int`: 32-bit two's complement. */
  newtype int32 = x: int | -0x8000_0000 <= x < 0x8000_0000

  /** The exceptions the modelled code can raise. */
  datatype Exception = ArrayIndexOutOfBounds(index: int32)

  /** The outcome of an expression that either yields a value or throws. */
  datatype Result<T> = Ok(value: T) | Throws(exception: Exception)

  /** A value that may be absent. */
  datatype Option<T> = None | Some(value: T)

  // ---------------------------------------------------------------------
  // Two's complement and the bitwise `&`
  // ---------------------------------------------------------------------

  /** The 32 bits of `x`, read as an unsigned number. */
  function Unsigned(x: int32): (u: nat)
    ensures u < 0x1_0000_0000
    ensures u % 0x1_0000_0000 == x as int % 0x1_0000_0000
  {
    if x < 0 then x as int + 0x1_0000_0000 else x as int
  }

  /** The `int` whose 32 bits, read as an unsigned number, are `u`. */
  function Signed(u: nat): (x: int32)
    requires u < 0x1_0000_0000
    ensures Unsigned(x) == u
  {
    (if u < 0x8000_0000 then u else u - 0x1_0000_0000) as int32
  }

  /**
   * The bitwise AND of two naturals, one binary digit at a time
   * (least significant first).
   */
  function BitAnd(a: nat, b: nat): (r: nat)
  {
    if a == 0 || b == 0 then 0
    else 2 * BitAnd(a / 2, b / 2) + (if a % 2 == 1 && b % 2 == 1 then 1 else 0)
  }

  /** No bit is set in `a & b` that is not set in `b`; in particular `a & b <= b`. */
  lemma {:induction false} BitAndBound(a: nat, b: nat)
    ensures BitAnd(a, b) <= b
  {
    if a != 0 && b != 0 {
      BitAndBound(a / 2, b / 2);
    }
  }

  /**
   * Java's `x & y` on `int`: the AND of the two's-complement bit patterns.
   * Against a non-negative mask `y` the result lies between 0 and `y`.
   */
  function And(x: int32, y: int32): (r: int32)
    ensures 0 <= y ==> 0 <= r <= y
  {
    BitAndBound(Unsigned(x), Unsigned(y));
    Signed(BitAnd(Unsigned(x), Unsigned(y)))
  }

  /** Against a mask whose lowest bit is set, the lowest bit of `a` survives as is. */
  lemma OddMaskStep(a: nat, m: nat)
    requires m % 2 == 1
    ensures BitAnd(a, m) == 2 * BitAnd(a / 2, m / 2) + a % 2
  {
  }

  /** `2^k`. */
  function Pow2(k: nat): (r: nat)
    ensures r >= 1
  {
    if k == 0 then 1 else 2 * Pow2(k - 1)
  }

  /** The mask of `k` low bits is odd, and halving it leaves the mask of `k - 1` bits. */
  lemma MaskHalves(k: nat)
    requires k > 0
    ensures (Pow2(k) - 1) % 2 == 1 && (Pow2(k) - 1) / 2 == Pow2(k - 1) - 1
  {
  }

  lemma {:induction false} MulAtLeast(d: int, k: int)
    requires d > 0 && k >= 1
    ensures d * k >= d
  {
    if k > 1 {
      MulAtLeast(d, k - 1);
      assert d * k == d * (k - 1) + d;
    }
  }

  /** Quotient and remainder are unique. */
  lemma ModUnique(a: nat, d: nat, s: nat, t: nat)
    requires d > 0 && a == d * s + t && t < d
    ensures a % d == t
  {
    var s', t' := a / d, a % d;
    if s' > s {
      MulAtLeast(d, s' - s);
    } else if s > s' {
      MulAtLeast(d, s - s');
    }
  }

  /** The remainder modulo `2p` is the lowest bit plus twice the remainder of the rest modulo `p`. */
  lemma ModOfDouble(a: nat, p: nat)
    requires p >= 1
    ensures a % (2 * p) == 2 * ((a / 2) % p) + a % 2
  {
    var q, r := a / 2, a % 2;
    var s, t := q / p, q % p;
    assert q == p * s + t;
    assert a == (2 * p) * s + (2 * t + r);
    ModUnique(a, 2 * p, s, 2 * t + r);
  }

  /** `a & (2^k - 1)` keeps exactly the `k` low bits of `a`. */
  lemma {:induction false} BitAndLowMask(a: nat, k: nat)
    ensures BitAnd(a, Pow2(k) - 1) == a % Pow2(k)
  {
    if k == 0 {
    } else if a == 0 {
      ModUnique(0, Pow2(k), 0, 0);
    } else {
      MaskHalves(k);
      OddMaskStep(a, Pow2(k) - 1);
      BitAndLowMask(a / 2, k - 1);
      ModOfDouble(a, Pow2(k - 1));
    }
  }

  /**
   * `x & 0xFF` is the unsigned value of the low byte of `x`: for a value
   * widened from a negative `byte` it is that value plus 256.
   */
  lemma AndLowByte(x: int32)
    ensures 0 <= And(x, 0xFF) < 0x100
    ensures And(x, 0xFF) as int == x as int % 0x100
  {
    var u := Unsigned(x);
    assert Unsigned(0xFF) == 0xFF;
    BitAndLowByte(u);
    UnsignedLowByte(x);
  }

  /** `a & 0xFF` keeps exactly the low eight bits of `a`. */
  lemma BitAndLowByte(a: nat)
    ensures BitAnd(a, 0xFF) == a % 0x100
  {
    assert Pow2(8) == 0x100;
    BitAndLowMask(a, 8);
  }

  /** Reading the bits as unsigned does not change the low byte. */
  lemma UnsignedLowByte(x: int32)
    ensures Unsigned(x) % 0x100 == x as int % 0x100
  {
  }

  // ---------------------------------------------------------------------
  // Arrays
  // ---------------------------------------------------------------------

  /**
   * The array load `a[index]`: the element when `index` is within the
   * array's bounds, an `ArrayIndexOutOfBoundsException` otherwise.
   */
  function ArrayLoad<T>(a: seq<T>, index: int32): (r: Result<T>)
    ensures r.Ok? <==> 0 <= index as int < |a|
    ensures r.Ok? ==> r.value == a[index]
    ensures r.Throws? ==> r.exception == ArrayIndexOutOfBounds(index)
  {
    if 0 <= index as int < |a| then Ok(a[index]) else Throws(ArrayIndexOutOfBounds(index))
  }

  /** `Arrays.equals(a, b)`: the same length, and equal elements at every index. */
  predicate ArraysEquals<T(==)>(a: seq<T>, b: seq<T>)
  {
    |a| == |b| && forall i :: 0 <= i < |a| ==> a[i] == b[i]
  }

  /** Element-wise equality of arrays is equality of their contents. */
  lemma ArraysEqualsIsContentEquality<T>(a: seq<T>, b: seq<T>)
    ensures ArraysEquals(a, b) <==> a == b
  {
    if ArraysEquals(a, b) {
      assert a == b;
    }
  }

  // ---------------------------------------------------------------------
  // Hexadecimal text
  // ---------------------------------------------------------------------

  /** The characters `Integer.toHexString` writes: `0`-`9` and `a`-`f`. */
  predicate IsHexDigit(c: char)
  {
    '0' <= c <= '9' || 'a' <= c <= 'f'
  }

  predicate AllHexDigits(s: string)
  {
    forall i :: 0 <= i < |s| ==> IsHexDigit(s[i])
  }

  /** The value of one hexadecimal digit. */
  function DigitValue(c: char): (d: nat)
    requires IsHexDigit(c)
    ensures d < 16
  {
    if c <= '9' then c as int - '0' as int else c as int - 'a' as int + 10
  }

  /** `Character.forDigit(d, 16)`: the lower-case digit for `d`. */
  function ForDigit(d: nat): (c: char)
    requires d < 16
    ensures IsHexDigit(c) && DigitValue(c) == d
    ensures c == '0' <==> d == 0
  {
    if d < 10 then ('0' as int + d) as char else ('a' as int + d - 10) as char
  }

  /** The value of a string of hexadecimal digits, most significant first. */
  function HexValue(s: string): (n: nat)
    requires AllHexDigits(s)
  {
    if s == [] then 0 else HexValue(s[..|s| - 1]) * 16 + DigitValue(s[|s| - 1])
  }

  /**
   * The hexadecimal digits of `n` without leading zeros; zero is the
   * single digit `0`.
   */
  function HexOf(n: nat): (s: string)
    ensures 1 <= |s|
    ensures AllHexDigits(s)
    ensures |s| == 1 <==> n < 16
    ensures |s| > 1 ==> s[0] != '0'
  {
    if n < 16 then [ForDigit(n)] else HexOf(n / 16) + [ForDigit(n % 16)]
  }

  /** Reading back the digits `HexOf` writes gives back the number. */
  lemma {:induction false} HexOfRoundTrip(n: nat)
    ensures HexValue(HexOf(n)) == n
  {
    if n >= 16 {
      var s := HexOf(n);
      assert s[..|s| - 1] == HexOf(n / 16);
      HexOfRoundTrip(n / 16);
    }
  }

  /**
   * `Integer.toHexString(i)`: the digits of the unsigned value of the 32
   * bits of `i`, without leading zeros.
   */
  function ToHexString(i: int32): (r: string)
    ensures AllHexDigits(r) && HexValue(r) == Unsigned(i)
    ensures |r| > 1 ==> r[0] != '0'
  {
    HexOfRoundTrip(Unsigned(i));
    HexOf(Unsigned(i))
  }

  /**
   * What `Integer.toHexString` gives for a value of one byte: one digit
   * below 16, two from 16 on, denoting the value in both cases.
   */
  lemma ToHexStringOfByteValue(i: int32)
    requires 0 <= i < 0x100
    ensures ToHexString(i) == if i < 16 then [ForDigit(i as int)]
                              else [ForDigit(i as int / 16), ForDigit(i as int % 16)]
  {
    if i >= 16 {
      assert HexOf(i as int / 16) == [ForDigit(i as int / 16)];
    }
  }
}
