/**
 Machine words as subsets of the integers, with the conversions, shifts and
 bitwise OR that the Go source applies to them written out as arithmetic.
 */
module Words {

  type byte = x: int | 0 <= x < 0x100
  type uint32 = x: int | 0 <= x < 0x1_0000_0000
  type uint64 = x: int | 0 <= x < 0x1_0000_0000_0000_0000
  type int32 = x: int | -0x8000_0000 <= x < 0x8000_0000
  type int64 = x: int | -0x8000_0000_0000_0000 <= x < 0x8000_0000_0000_0000

  const TWO31: nat := 0x8000_0000
  const TWO32: nat := 0x1_0000_0000
  const TWO63: nat := 0x8000_0000_0000_0000
  const TWO64: nat := 0x1_0000_0000_0000_0000

  /** Two's complement: the 64-bit pattern of a signed number, sign-extended. */
  function ToUint64(x: int64): (u: uint64)
    ensures ToInt64(u) == x
  {
    if x < 0 then x + TWO64 else x
  }

  /** The signed number a 64-bit pattern stands for. */
  function ToInt64(u: uint64): int64 {
    if u < TWO63 then u else u - TWO64
  }

  /** The signed number a 32-bit pattern stands for. */
  function ToInt32(u: uint32): int32 {
    if u < TWO31 then u else u - TWO32
  }

  function AddUint64(a: uint64, b: uint64): uint64 {
    (a + b) % TWO64
  }

  function Pow2(n: nat): (p: nat)
    ensures p >= 1
  {
    if n == 0 then 1 else 2 * Pow2(n - 1)
  }

  lemma Pow2Plus8(n: nat)
    ensures Pow2(n + 7) == 128 * Pow2(n)
    ensures Pow2(n + 8) == 256 * Pow2(n)
  {
    assert Pow2(n + 2) == 4 * Pow2(n);
    assert Pow2(n + 4) == 4 * Pow2(n + 2);
    assert Pow2(n + 6) == 4 * Pow2(n + 4);
  }

  lemma Pow2Widths()
    ensures Pow2(32) == TWO32
    ensures Pow2(64) == TWO64
  {
    Pow2Plus8(0);
    Pow2Plus8(8);
    Pow2Plus8(16);
    Pow2Plus8(24);
    Pow2Plus8(32);
    Pow2Plus8(40);
    Pow2Plus8(48);
    Pow2Plus8(56);
  }

  /** The low `width` bits of `x`: conversion to a word of that width. */
  function Low(x: nat, width: nat): nat
    decreases width
  {
    if width == 0 then 0 else x % 2 + 2 * Low(x / 2, width - 1)
  }

  /** Left shift of `x` in a word of `width` bits; bits pushed past the top are lost. */
  function ShiftLeft(x: nat, shift: nat, width: nat): nat
    decreases shift
  {
    if shift == 0 then Low(x, width)
    else if width == 0 then 0
    else 2 * ShiftLeft(x, shift - 1, width - 1)
  }

  lemma {:induction false} LowBound(x: nat, width: nat)
    ensures Low(x, width) < Pow2(width) && Low(x, width) <= x
    ensures x < Pow2(width) ==> Low(x, width) == x
    decreases width
  {
    if width > 0 {
      LowBound(x / 2, width - 1);
    }
  }

  /** Conversion to a word is reduction modulo its size. */
  lemma {:induction false} LowIsMod(x: nat, width: nat)
    ensures Low(x, width) == x % Pow2(width)
    decreases width
  {
    if width > 0 {
      LowIsMod(x / 2, width - 1);
      ModDouble(x, Pow2(width - 1));
    }
  }

  lemma ModDouble(x: nat, p: nat)
    requires p > 0
    ensures x % (2 * p) == x % 2 + 2 * ((x / 2) % p)
  {
    var y := x / 2;
    var q, r := y / p, y % p;
    var t := q * p;
    assert y == t + r;
    assert q * (2 * p) == 2 * t;
    ModUnique(x, 2 * p, q, x % 2 + 2 * r);
  }

  lemma Regroup<T>(a: seq<T>, b: seq<T>, c: seq<T>, d: seq<T>)
    ensures a + (b + (c + d)) == (a + (b + c)) + d
  {
    assert b + (c + d) == (b + c) + d;
    assert a + ((b + c) + d) == (a + (b + c)) + d;
  }

  lemma TakeTwice<T>(s: seq<T>, m: nat, k: nat)
    requires m + k <= |s|
    ensures s[..m + k] == s[..m] + s[m..][..k]
    ensures s[m..][k..] == s[m + k..]
  {
  }

  lemma ModUnique(x: int, m: int, q: int, r: int)
    requires m > 0 && x == q * m + r && 0 <= r < m
    ensures x % m == r
  {
    var k := q - x / m;
    assert k * m == x % m - r;
    MultipleIsFar(k, m);
  }

  lemma MultipleIsFar(k: int, m: int)
    requires m > 0
    ensures k > 0 ==> k * m >= m
    ensures k < 0 ==> k * m <= -m
  {
    if k > 0 {
      assert (k - 1) * m >= 0;
    } else if k < 0 {
      assert (-k - 1) * m >= 0;
    }
  }

  /** Bitwise OR, one bit at a time. */
  function BitOr(a: nat, b: nat): nat
    decreases a + b
  {
    if a == 0 && b == 0 then 0
    else 2 * BitOr(a / 2, b / 2) + (if a % 2 == 1 || b % 2 == 1 then 1 else 0)
  }

  lemma {:induction false} BitOrZero(b: nat)
    ensures BitOr(0, b) == b
  {
    if b > 0 {
      BitOrZero(b / 2);
    }
  }

  lemma {:induction false} BitOrSelfZero(a: nat)
    ensures BitOr(a, 0) == a
  {
    if a > 0 {
      BitOrSelfZero(a / 2);
    }
  }
}
