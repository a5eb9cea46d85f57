/** Machine words by arithmetic on their binary digits: `Bit(x, j)` is digit `j`,
    a left shift is repeated doubling modulo 2^64, a right shift repeated
    halving, and `Or` and `Xor` work digit by digit. */
module Bits {
  import opened Prelude

  function Pow2(n: nat): (p: nat)
    ensures p > 0
  {
    if n == 0 then 1 else 2 * Pow2(n - 1)
  }

  const MOD64: nat := 0x1_0000_0000_0000_0000

  predicate Bit(x: nat, j: nat) {
    if j == 0 then x % 2 == 1 else Bit(x / 2, j - 1)
  }

  function Double(x: u64): u64 {
    2 * x % MOD64
  }

  /** `x << n`, discarding what leaves the word. */
  function ShiftLeft(x: u64, n: nat): u64
    decreases n
  {
    if n == 0 then x else ShiftLeft(Double(x), n - 1)
  }

  /** `x >> n`. */
  function ShiftRight(x: u64, n: nat): u64 {
    if n == 0 then x else ShiftRight(x / 2, n - 1)
  }

  /** `x | y`, digit by digit over the low `width` digits. */
  function OrDigits(x: nat, y: nat, width: nat): (r: nat)
    ensures r < Pow2(width)
  {
    if width == 0 then 0
    else 2 * OrDigits(x / 2, y / 2, width - 1) + (if x % 2 == 1 || y % 2 == 1 then 1 else 0)
  }

  function Or(x: u64, y: u64): u64 {
    Pow64();
    OrDigits(x, y, 64)
  }

  lemma Pow64()
    ensures Pow2(64) == MOD64
  {
    Pow2Square(4, 16);
    Pow2Square(8, 0x100);
    Pow2Square(16, 0x1_0000);
    Pow2Square(32, 0x1_0000_0000);
  }

  lemma Pow2Square(n: nat, v: nat)
    requires Pow2(n) == v
    ensures Pow2(2 * n) == v * v
  {
    Pow2Sum(n, n);
  }

  lemma {:induction false} Pow2Sum(a: nat, b: nat)
    ensures Pow2(a + b) == Pow2(a) * Pow2(b)
  {
    if b > 0 {
      Pow2Sum(a, b - 1);
      assert Pow2(a + b) == 2 * Pow2(a + (b - 1));
    }
  }

  lemma {:induction false} BitOr(x: nat, y: nat, width: nat, j: nat)
    requires j < width
    ensures Bit(OrDigits(x, y, width), j) == (Bit(x, j) || Bit(y, j))
  {
    if j > 0 {
      BitOr(x / 2, y / 2, width - 1, j - 1);
    }
  }

  lemma {:induction false} BitShiftRight(x: u64, n: nat, j: nat)
    ensures Bit(ShiftRight(x, n), j) == Bit(x, j + n)
  {
    if n > 0 {
      BitShiftRight(x / 2, n - 1, j);
    }
  }

  /** Halving a remainder by an even modulus. */
  lemma HalfRemainder(x: nat, p: nat)
    requires p > 0
    ensures x % (2 * p) / 2 == x / 2 % p && x % (2 * p) % 2 == x % 2
  {
    var q, r := x / 2 / p, x / 2 % p;
    assert x / 2 == p * q + r;
    var s := 2 * r + x % 2;
    assert x == (2 * p) * q + s;
    Division(x, 2 * p, q, s);
  }

  /** Truncation to `m` digits keeps them. */
  lemma {:induction false} BitTruncated(x: nat, m: nat, j: nat)
    requires j < m
    ensures Bit(x % Pow2(m), j) == Bit(x, j)
  {
    HalfRemainder(x, Pow2(m - 1));
    if j > 0 {
      BitTruncated(x / 2, m - 1, j - 1);
    }
  }

  lemma {:induction false} BitShiftLeft(x: u64, n: nat, j: nat)
    requires j < 64
    ensures Bit(ShiftLeft(x, n), j) == (j >= n && Bit(x, j - n))
    decreases n
  {
    if n > 0 {
      BitShiftLeft(Double(x), n - 1, j);
      if j >= n - 1 {
        Pow64();
        BitTruncated(2 * x, 64, j - (n - 1));
      }
    }
  }

  /** `1 << n` has digit `n` and no other. */
  lemma BitOfOne(n: nat, j: nat)
    requires n < 64 && j < 64
    ensures Bit(ShiftLeft(1, n), j) == (j == n)
  {
    BitShiftLeft(1, n, j);
    if j > n {
      ZeroHasNoBits(j - n - 1);
    }
  }

  lemma {:induction false} ZeroHasNoBits(j: nat)
    ensures !Bit(0, j)
  {
    if j > 0 {
      ZeroHasNoBits(j - 1);
    }
  }

  lemma {:induction false} HighBitsClear(x: nat, width: nat, j: nat)
    requires x < Pow2(width) && j >= width
    ensures !Bit(x, j)
  {
    if width == 0 {
      ZeroHasNoBits(j);
    } else {
      HighBitsClear(x / 2, width - 1, j - 1);
    }
  }

  /** A shift that carries the top digits of the word below into the bottom. */
  lemma BitFunnel(x: u64, below: u64, n: nat, j: nat)
    requires 0 < n < 64 && j < 64
    ensures Bit(Or(ShiftLeft(x, n), ShiftRight(below, 64 - n)), j)
         == if j >= n then Bit(x, j - n) else Bit(below, j + 64 - n)
  {
    BitOr(ShiftLeft(x, n), ShiftRight(below, 64 - n), 64, j);
    BitShiftLeft(x, n, j);
    BitShiftRight(below, 64 - n, j);
    if j >= n {
      Pow64();
      HighBitsClear(below, 64, j + (64 - n));
    }
  }

  // ------------------------------------------------------------------ exclusive or

  /** `x ^ y`. */
  function Xor(x: nat, y: nat): nat
    decreases x + y
  {
    if x == 0 && y == 0 then 0
    else 2 * Xor(x / 2, y / 2) + (if x % 2 != y % 2 then 1 else 0)
  }

  /** The recursion of `Xor`, also valid at zero. */
  lemma XorHalves(x: nat, y: nat)
    ensures Xor(x, y) % 2 == (if x % 2 != y % 2 then 1 else 0) && Xor(x, y) / 2 == Xor(x / 2, y / 2)
  {
  }

  lemma {:induction false} XorZero(x: nat)
    ensures Xor(x, 0) == x && Xor(0, x) == x
  {
    if x > 0 {
      XorZero(x / 2);
    }
  }

  lemma {:induction false} XorSelf(x: nat)
    ensures Xor(x, x) == 0
  {
    if x > 0 {
      XorSelf(x / 2);
    }
  }

  lemma {:induction false} XorCommutes(x: nat, y: nat)
    ensures Xor(x, y) == Xor(y, x)
    decreases x + y
  {
    if x > 0 || y > 0 {
      XorCommutes(x / 2, y / 2);
    }
  }

  lemma {:induction false} XorAssociates(x: nat, y: nat, z: nat)
    ensures Xor(Xor(x, y), z) == Xor(x, Xor(y, z))
    decreases x + y + z
  {
    if x > 0 || y > 0 || z > 0 {
      XorAssociates(x / 2, y / 2, z / 2);
      XorHalves(x, y);
      XorHalves(y, z);
      XorHalves(Xor(x, y), z);
      XorHalves(x, Xor(y, z));
    }
  }

  /** Pairs of equal differences regroup freely. */
  lemma XorSwapsInner(a: nat, b: nat, c: nat, d: nat)
    ensures Xor(Xor(a, b), Xor(c, d)) == Xor(Xor(a, c), Xor(b, d))
  {
    XorAssociates(a, b, Xor(c, d));
    XorAssociates(b, c, d);
    XorCommutes(b, c);
    XorAssociates(c, b, d);
    XorAssociates(a, c, Xor(b, d));
  }

  lemma {:induction false} XorBound(x: nat, y: nat, width: nat)
    requires x < Pow2(width) && y < Pow2(width)
    ensures Xor(x, y) < Pow2(width)
  {
    if width > 0 {
      XorBound(x / 2, y / 2, width - 1);
    }
  }

  /** `a` moved up by `k` digits, without bound. */
  function Scale(a: nat, k: nat): nat {
    if k == 0 then a else 2 * Scale(a, k - 1)
  }

  lemma {:induction false} ScaleSum(a: nat, j: nat, k: nat)
    ensures Scale(Scale(a, j), k) == Scale(a, j + k)
  {
    if k > 0 {
      ScaleSum(a, j, k - 1);
    }
  }

  lemma {:induction false} ScaleAdds(a: nat, b: nat, k: nat)
    ensures Scale(a + b, k) == Scale(a, k) + Scale(b, k)
  {
    if k > 0 {
      ScaleAdds(a, b, k - 1);
    }
  }

  lemma {:induction false} ScalePow2(n: nat, k: nat)
    ensures Scale(Pow2(n), k) == Pow2(n + k)
  {
    if k > 0 {
      ScalePow2(n, k - 1);
    }
  }

  lemma {:induction false} ScaleBound(a: nat, n: nat, k: nat)
    ensures a < Pow2(n) ==> Scale(a, k) < Pow2(n + k)
    ensures Scale(a, k) >= a
  {
    if k > 0 {
      ScaleBound(a, n, k - 1);
    }
  }

  /** High and low digits do not interact. */
  lemma {:induction false} XorSplit(k: nat, a: nat, r: nat, b: nat, s: nat)
    requires r < Pow2(k) && s < Pow2(k)
    ensures Xor(Scale(a, k) + r, Scale(b, k) + s) == Scale(Xor(a, b), k) + Xor(r, s)
  {
    hide Xor;
    if k == 0 {
      XorZero(0);
    } else {
      XorSplit(k - 1, a, r / 2, b, s / 2);
      XorOfDoubles(Scale(a, k - 1), r, Scale(b, k - 1), s);
      XorHalves(r, s);
    }
  }

  lemma XorOfDoubles(x: nat, r: nat, y: nat, s: nat)
    ensures Xor(2 * x + r, 2 * y + s) == 2 * Xor(x + r / 2, y + s / 2) + Xor(r, s) % 2
  {
    hide Xor;
    assert (2 * x + r) / 2 == x + r / 2 && (2 * y + s) / 2 == y + s / 2;
    XorHalves(2 * x + r, 2 * y + s);
    XorHalves(r, s);
  }

  // ------------------------------------------------------------------------ parity

  /** Whether an odd number of digits is set. */
  predicate OddOnes(x: nat) {
    if x == 0 then false else (x % 2 == 1) != OddOnes(x / 2)
  }

  lemma {:induction false} ParityOfXor(x: nat, y: nat)
    ensures OddOnes(Xor(x, y)) == (OddOnes(x) != OddOnes(y))
    decreases x + y
  {
    if x > 0 || y > 0 {
      ParityOfXor(x / 2, y / 2);
      XorHalves(x, y);
    }
  }

  // ------------------------------------------------------------------------- bytes

  function XorByte(x: Byte, y: Byte): Byte {
    Pow2Square(4, 16);
    XorBound(x, y, 8);
    Xor(x, y)
  }

  lemma XorByteLaws(x: Byte, y: Byte, z: Byte)
    ensures XorByte(x, 0) == x && XorByte(x, x) == 0
    ensures XorByte(x, y) == XorByte(y, x)
    ensures XorByte(XorByte(x, y), z) == XorByte(x, XorByte(y, z))
  {
    XorZero(x);
    XorSelf(x);
    XorCommutes(x, y);
    XorAssociates(x, y, z);
  }
}
