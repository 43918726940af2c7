/** Machine integers as mathematical integers, and the bitwise operators on them. */
module Bits {

  const TWO16: int := 0x1_0000
  const TWO32: int := 0x1_0000_0000
  const TWO63: int := 0x8000_0000_0000_0000
  const TWO64: int := 0x1_0000_0000_0000_0000

  type Byte = b: int | 0 <= b < 256
  type U16 = x: int | 0 <= x < 0x1_0000
  type U32 = x: int | 0 <= x < 0x1_0000_0000
  type U64 = x: int | 0 <= x < 0x1_0000_0000_0000_0000
  type I64 = x: int | -0x8000_0000_0000_0000 <= x < 0x8000_0000_0000_0000

  /** Conversion to an unsigned 64-bit integer, and back to a signed one. */
  function Wrap64(x: int): (r: U64) { x % TWO64 }

  function Wrap32(x: int): (r: U32) { x % TWO32 }

  function Signed64(x: int): (r: I64)
    ensures Wrap64(r) == Wrap64(x)
  {
    var w := x % TWO64;
    if w < TWO63 then w else w - TWO64
  }

  lemma Signed64Inverse(x: I64)
    ensures Signed64(Wrap64(x)) == x
  {}

  lemma WrapSmall(x: U64)
    ensures Wrap64(x) == x
  {}

  lemma WrapIdempotent(x: int)
    ensures Wrap64(Wrap64(x)) == Wrap64(x) && Signed64(Wrap64(x)) == Signed64(x)
  {}

  /** Adding multiples of 2^64 does not change the 64-bit reading. */
  lemma Signed64Shift(x: int, k: int)
    ensures Wrap64(x + k * TWO64) == Wrap64(x)
    ensures Signed64(x + k * TWO64) == Signed64(x)
  {
    ModOfSum(x, k, TWO64);
  }

  // ---------- powers of two ----------

  function Pow2(n: nat): (r: int)
    ensures r > 0
  {
    if n == 0 then 1 else 2 * Pow2(n - 1)
  }

  lemma {:induction false} Pow2Sum(a: nat, b: nat)
    ensures Pow2(a + b) == Pow2(a) * Pow2(b)
    decreases b
  {
    if b > 0 {
      Pow2Sum(a, b - 1);
      assert Pow2(a + b) == 2 * Pow2(a + (b - 1));
    }
  }

  lemma {:induction false} Pow2Monotone(a: nat, b: nat)
    requires a <= b
    ensures Pow2(a) <= Pow2(b)
    decreases b
  {
    if a < b { Pow2Monotone(a, b - 1); }
  }

  lemma Pow2Small()
    ensures Pow2(0) == 1 && Pow2(1) == 2 && Pow2(2) == 4 && Pow2(3) == 8 && Pow2(4) == 16
    ensures Pow2(5) == 32 && Pow2(6) == 64 && Pow2(7) == 128 && Pow2(8) == 256
  {
    assert Pow2(1) == 2 * Pow2(0);
    assert Pow2(4) == 2 * Pow2(3);
    assert Pow2(7) == 2 * Pow2(6);
  }

  lemma Pow2Large()
    ensures Pow2(16) == TWO16 && Pow2(32) == TWO32
    ensures Pow2(63) == TWO63 && Pow2(64) == TWO64
  {
    Pow2Small();
    Pow2Sum(8, 8);
    Pow2Sum(16, 16);
    Pow2Sum(32, 32);
    assert Pow2(64) == 2 * Pow2(63);
  }

  // ---------- bitwise operators on naturals ----------

  /** Bit number k of x. */
  function Bit(x: nat, k: nat): (r: nat)
    ensures r <= 1
    decreases k
  {
    if k == 0 then x % 2 else Bit(x / 2, k - 1)
  }

  function And(x: nat, y: nat): (r: nat)
    ensures r <= x && r <= y
  {
    if x == 0 || y == 0 then 0 else 2 * And(x / 2, y / 2) + (if x % 2 == 1 && y % 2 == 1 then 1 else 0)
  }

  function Or(x: nat, y: nat): (r: nat)
    ensures x <= r && y <= r
    decreases x + y
  {
    if x == 0 then y
    else if y == 0 then x
    else 2 * Or(x / 2, y / 2) + (if x % 2 + y % 2 > 0 then 1 else 0)
  }

  function Xor(x: nat, y: nat): (r: nat)
    decreases x + y
  {
    if x == 0 then y
    else if y == 0 then x
    else 2 * Xor(x / 2, y / 2) + (x + y) % 2
  }

  lemma {:induction false} BitZero(k: nat)
    ensures Bit(0, k) == 0
  {
    if k > 0 { BitZero(k - 1); }
  }

  lemma {:induction false} BitOr(x: nat, y: nat, k: nat)
    ensures Bit(Or(x, y), k) == if Bit(x, k) + Bit(y, k) > 0 then 1 else 0
    decreases k
  {
    if x == 0 || y == 0 {
      BitZero(k);
    } else if k > 0 {
      BitOr(x / 2, y / 2, k - 1);
      assert Or(x, y) / 2 == Or(x / 2, y / 2);
    }
  }

  lemma {:induction false} BitPow2(i: nat, k: nat)
    ensures Bit(Pow2(i), k) == if i == k then 1 else 0
    decreases k
  {
    if i == 0 {
      if k > 0 { BitZero(k - 1); }
    } else if k > 0 {
      BitPow2(i - 1, k - 1);
    }
  }

  /** Reading a bit off a decomposition of the number around it. */
  lemma {:induction false} BitSplit(x: nat, k: nat, high: nat, bit: nat, low: nat)
    requires bit <= 1 && low < Pow2(k)
    requires x == (2 * high + bit) * Pow2(k) + low
    ensures Bit(x, k) == bit
    decreases k
  {
    if k > 0 {
      var h, m := 2 * high + bit, Pow2(k - 1);
      assert h * Pow2(k) == 2 * (h * m);
      assert x / 2 == h * m + low / 2;
      BitSplit(x / 2, k - 1, high, bit, low / 2);
    }
  }

  /** Testing bit k: compare what is left below weight 2^(k+1) with 2^k. */
  lemma TestBit(x: nat, k: nat, mask: nat, high: nat, rest: nat)
    requires mask == Pow2(k)
    requires rest < 2 * mask && x == (2 * mask) * high + rest
    ensures And(x, mask) != 0 <==> rest >= mask
  {
    AndPow2(x, k);
    if rest >= mask {
      Regroup(high, 1, mask);
      BitSplit(x, k, high, 1, rest - mask);
    } else {
      Regroup(high, 0, mask);
      BitSplit(x, k, high, 0, rest);
    }
  }

  lemma Regroup(h: int, bit: int, m: int)
    ensures (2 * h + bit) * m == (2 * m) * h + bit * m
  {}

  /** x & 2^k keeps bit k alone. */
  lemma {:induction false} AndPow2(x: nat, k: nat)
    ensures And(x, Pow2(k)) == if Bit(x, k) == 1 then Pow2(k) else 0
    decreases k
  {
    if x == 0 {
      BitZero(k);
    } else if k > 0 {
      AndPow2(x / 2, k - 1);
      assert Pow2(k) / 2 == Pow2(k - 1) && Pow2(k) % 2 == 0;
    }
  }

  /** Two numbers below 2^n with the same n low bits are equal. */
  lemma {:induction false} BitsDetermine(x: nat, y: nat, n: nat)
    requires x < Pow2(n) && y < Pow2(n)
    requires forall k: nat :: k < n ==> Bit(x, k) == Bit(y, k)
    ensures x == y
    decreases n
  {
    if n > 0 {
      forall k: nat | k < n - 1
        ensures Bit(x / 2, k) == Bit(y / 2, k)
      {
        assert Bit(x, k + 1) == Bit(y, k + 1);
      }
      BitsDetermine(x / 2, y / 2, n - 1);
      assert Bit(x, 0) == Bit(y, 0);
    }
  }

  lemma {:induction false} OrXorBound(x: nat, y: nat, k: nat)
    requires x < Pow2(k) && y < Pow2(k)
    ensures Or(x, y) < Pow2(k) && Xor(x, y) < Pow2(k)
    decreases k
  {
    if k > 0 && x > 0 && y > 0 { OrXorBound(x / 2, y / 2, k - 1); }
  }

  /** Or-ing in bits that lie above a value adds them. */
  lemma {:induction false} OrShifted(a: nat, c: nat, k: nat)
    requires a < Pow2(k)
    ensures Or(a, c * Pow2(k)) == a + c * Pow2(k)
    decreases k
  {
    if k > 0 {
      var h := c * Pow2(k - 1);
      assert c * Pow2(k) == 2 * h by { ProductDouble(c, Pow2(k - 1)); }
      NonNegativeProduct(c, Pow2(k - 1));
      OrShifted(a / 2, c, k - 1);
      OrEven(a, h);
    }
  }

  lemma ProductDouble(c: int, m: int)
    ensures c * (2 * m) == 2 * (c * m)
  {}

  lemma OrEven(a: nat, h: nat)
    ensures Or(a, 2 * h) == 2 * Or(a / 2, h) + a % 2
  {
    assert (2 * h) / 2 == h && (2 * h) % 2 == 0;
  }

  /** x & (2^k - 1) is the remainder modulo 2^k. */
  lemma AndMask(x: nat, k: nat)
    ensures And(x, Pow2(k) - 1) == x % Pow2(k)
  {
    var c, r := AndMaskQuotient(x, k);
    RemainderUnique(x, Pow2(k), c, r);
  }

  lemma {:induction false} AndMaskQuotient(x: nat, k: nat) returns (c: nat, r: nat)
    ensures And(x, Pow2(k) - 1) == r < Pow2(k)
    ensures x == Pow2(k) * c + r
    decreases k
  {
    if k == 0 {
      c, r := x, 0;
    } else {
      var m := Pow2(k - 1);
      assert Pow2(k) == 2 * m;
      hide And, Pow2;
      var r';
      c, r' := AndMaskQuotient(x / 2, k - 1);
      r := 2 * r' + x % 2;
      assert And(x, Pow2(k) - 1) == r by {
        AndOdd(x, m - 1);
        assert 2 * (m - 1) + 1 == Pow2(k) - 1;
      }
      DoubleProduct(m, c);
    }
  }

  lemma DoubleProduct(m: int, c: int)
    ensures (2 * m) * c == 2 * (m * c)
  {}

  lemma AndOdd(x: nat, h: nat)
    ensures And(x, 2 * h + 1) == 2 * And(x / 2, h) + x % 2
  {
    assert (2 * h + 1) / 2 == h && (2 * h + 1) % 2 == 1;
  }

  /** Below bit s, adding multiples of 2^s changes nothing. */
  lemma {:induction false} ModularBits(low: nat, high: nat, s: nat, k: nat)
    requires k < s
    ensures Bit(low + Pow2(s) * high, k) == Bit(low, k)
    decreases k
  {
    var m := Pow2(s - 1) * high;
    assert Pow2(s) * high == 2 * m by { DoubleProduct(Pow2(s - 1), high); }
    assert (low + 2 * m) % 2 == low % 2 && (low + 2 * m) / 2 == low / 2 + m;
    if k > 0 { ModularBits(low / 2, high, s - 1, k - 1); }
  }

  /** From bit s on, the bits are those of the quotient by 2^s. */
  lemma {:induction false} ShiftedBits(low: nat, high: nat, s: nat, k: nat)
    requires low < Pow2(s)
    ensures Bit(low + Pow2(s) * high, k + s) == Bit(high, k)
    decreases s
  {
    if s > 0 {
      var m := Pow2(s - 1) * high;
      assert Pow2(s) * high == 2 * m by { DoubleProduct(Pow2(s - 1), high); }
      assert (low + 2 * m) / 2 == low / 2 + m;
      ShiftedBits(low / 2, high, s - 1, k);
    }
  }

  lemma NonNegativeProduct(x: int, y: int)
    requires x >= 0 && y >= 0
    ensures x * y >= 0
  {}

  lemma MulAtLeast(d: int, k: int)
    requires d > 0 && k >= 1
    ensures d * k >= d
  {}

  lemma RemainderUnique(x: int, d: int, q: int, r: int)
    requires 0 <= r < d && x == d * q + r
    ensures x / d == q && x % d == r
  {
    var q', r' := x / d, x % d;
    assert x == d * q' + r';
    if q > q' {
      MulAtLeast(d, q - q');
    } else if q < q' {
      MulAtLeast(d, q' - q);
    }
  }

  lemma ModOfSum(x: int, k: int, d: int)
    requires d > 0
    ensures (x + k * d) % d == x % d
  {
    assert x + k * d == d * (x / d + k) + x % d;
    RemainderUnique(x + k * d, d, x / d + k, x % d);
  }
}
