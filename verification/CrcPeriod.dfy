/** The period of the checksum register: started from 1 and clocked without input, it
    returns to 1 exactly at the multiples of 32767. Two flipped bits cancel only at
    such a distance. */
module CrcPeriod {
  import opened Prelude
  import opened Bits
  import opened Crc16

  /** The register as sixteen flip-flops, least significant first. */
  datatype Flops = Flops(
    b0: bool, b1: bool, b2: bool, b3: bool, b4: bool, b5: bool, b6: bool, b7: bool,
    b8: bool, b9: bool, b10: bool, b11: bool, b12: bool, b13: bool, b14: bool, b15: bool)

  const ONE: Flops :=
    Flops(true, false, false, false, false, false, false, false,
          false, false, false, false, false, false, false, false)

  const PERIOD: nat := 32767

  /** The digits of a register. */
  function Read(v: u16): Flops {
    Flops(Bit(v, 0), Bit(v, 1), Bit(v, 2), Bit(v, 3), Bit(v, 4), Bit(v, 5), Bit(v, 6), Bit(v, 7),
          Bit(v, 8), Bit(v, 9), Bit(v, 10), Bit(v, 11), Bit(v, 12), Bit(v, 13), Bit(v, 14), Bit(v, 15))
  }

  /** One clock: the top digit leaves and is fed back at digits 0, 5 and 12. */
  function Clock(r: Flops): Flops {
    Flops(r.b15, r.b0, r.b1, r.b2, r.b3, r.b4 != r.b15, r.b5, r.b6, r.b7, r.b8, r.b9, r.b10, r.b11 != r.b15,
          r.b12, r.b13, r.b14)
  }

  /** The flip-flops after `n` clocks from 1. */
  function Clocks(n: nat): Flops {
    if n == 0 then ONE else Clock(Clocks(n - 1))
  }

  // ------------------------------------------------------- flip-flops and numbers

  lemma {:induction false} BitXor(x: nat, y: nat, j: nat)
    ensures Bit(Xor(x, y), j) == (Bit(x, j) != Bit(y, j))
  {
    hide Xor;
    XorHalves(x, y);
    if j > 0 {
      BitXor(x / 2, y / 2, j - 1);
    }
  }

  lemma {:induction false} SameBits(x: nat, y: nat, n: nat)
    requires x < Pow2(n) && y < Pow2(n)
    requires forall j :: 0 <= j < n ==> Bit(x, j) == Bit(y, j)
    ensures x == y
  {
    if n > 0 {
      assert Bit(x, 0) == Bit(y, 0);
      forall j | 0 <= j < n - 1
        ensures Bit(x / 2, j) == Bit(y / 2, j)
      {
        assert Bit(x, j + 1) == Bit(y, j + 1);
      }
      SameBits(x / 2, y / 2, n - 1);
    }
  }

  lemma {:induction false} TopBit(v: nat, n: nat)
    requires v < Pow2(n + 1)
    ensures Bit(v, n) <==> v >= Pow2(n)
  {
    if n > 0 {
      TopBit(v / 2, n - 1);
    }
  }

  /** Dropping the top digit leaves the others. */
  lemma BitOfRest(v: u16, j: nat)
    requires j < 15
    ensures Bit(Rest(v), j) == Bit(v, j)
  {
    hide Bit;
    Powers();
    BitTruncated(v, 15, j);
    Division(v, TOP, Top(v), Rest(v));
  }

  lemma BitOfShift(v: u16, j: nat)
    requires j < 16
    ensures var fed := v >= TOP && (j == 0 || j == 5 || j == 12);
            Bit(Shift(v), j) == ((j > 0 && Bit(v, j - 1)) != fed)
  {
    hide Xor;
    ShiftIsDoubling(v);
    BitXor(2 * Rest(v), Feedback(v >= TOP), j);
    BitOfPoly(j);
    ZeroHasNoBits(j);
    if j > 0 {
      BitOfRest(v, j - 1);
    }
  }

  lemma BitOfPoly(j: nat)
    requires j < 16
    ensures Bit(POLY, j) <==> j == 0 || j == 5 || j == 12
  {
    assert Read(POLY) == Flops(
      true, false, false, false, false, true, false, false, false, false, false, false, true, false, false, false);
  }

  lemma ReadShift(v: u16)
    ensures Read(Shift(v)) == Clock(Read(v))
  {
    hide Bit, Shift;
    Powers();
    TopBit(v, 15);
    forall j | 0 <= j < 16
      ensures Bit(Shift(v), j) == ((j > 0 && Bit(v, j - 1)) != (v >= TOP && (j == 0 || j == 5 || j == 12)))
    {
      BitOfShift(v, j);
    }
  }

  lemma {:induction false} ShiftsSum(v: u16, a: nat, b: nat)
    ensures Shifts(v, a + b) == Shifts(Shifts(v, a), b)
    decreases a
  {
    hide Shift;
    if a > 0 {
      ShiftsSum(Shift(v), a - 1, b);
    }
  }

  lemma OnlyOneIsOne(v: u16)
    ensures Read(v) == ONE <==> v == 1
  {
    Powers();
    ReadOne();
    if Read(v) == ONE {
      hide Bit;
      forall j | 0 <= j < 16
        ensures Bit(v, j) == Bit(1, j)
      {
      }
      SameBits(v, 1, 16);
    }
  }

  lemma ReadOne()
    ensures Read(1) == ONE
  {
  }

  lemma {:induction false} ClocksAreShifts(n: nat)
    ensures Clocks(n) == Read(Shifts(1, n))
  {
    hide Clock, Read, Shift;
    if n == 0 {
      ReadOne();
    } else {
      ClocksAreShifts(n - 1);
      ReadShift(Shifts(1, n - 1));
      ShiftsSum(1, n - 1, 1);
      assert Shifts(Shifts(1, n - 1), 1) == Shift(Shifts(1, n - 1));
    }
  }

  // -------------------------------------------------------------------- squaring

  /** The state after twice as many clocks: the register's polynomial squared
      modulo the generator, digit by digit. */
  function Squared(r: Flops): Flops {
    Flops(
      (((r.b0 != r.b8) != r.b10) != r.b12) != r.b14, r.b14,
      (((r.b1 != r.b9) != r.b11) != r.b13) != r.b15, r.b15, ((r.b2 != r.b10) != r.b12) != r.b14,
      ((r.b8 != r.b10) != r.b12) != r.b14, (((r.b3 != r.b11) != r.b13) != r.b14) != r.b15,
      ((r.b9 != r.b11) != r.b13) != r.b15, ((r.b4 != r.b12) != r.b14) != r.b15,
      (r.b10 != r.b12) != r.b14, (r.b5 != r.b13) != r.b15, (r.b11 != r.b13) != r.b15,
      ((r.b6 != r.b8) != r.b10) != r.b12, r.b12, ((r.b7 != r.b9) != r.b11) != r.b13, r.b13)
  }

  lemma SquaredOfClock(r: Flops)
    ensures Squared(Clock(r)) == Clock(Clock(Squared(r)))
  {
    if r.b15 {
    } else {
    }
  }

  lemma {:induction false} SquaredIsTwice(n: nat)
    ensures Clocks(2 * n) == Squared(Clocks(n))
  {
    assert Squared(ONE) == ONE;
    hide Squared, Clock;
    if n > 0 {
      SquaredIsTwice(n - 1);
      SquaredOfClock(Clocks(n - 1));
      assert Clocks(2 * n) == Clock(Clocks(2 * n - 1));
    }
  }

  lemma Next(n: nat)
    ensures Clocks(2 * n) == Squared(Clocks(n)) && Clocks(2 * n + 1) == Clock(Squared(Clocks(n)))
  {
    hide Squared, Clock;
    SquaredIsTwice(n);
  }

  // ---------------------------------------------------------------------- powers

  lemma ReturnsAt32767()
    ensures Clocks(PERIOD) == ONE
  {
    assert Clocks(0) == ONE;
    hide Clocks;
    Next(0); Next(1); Next(3); Next(7); Next(15); Next(31); Next(63); Next(127); Next(255);
    Next(511); Next(1023); Next(2047); Next(4095); Next(8191); Next(16383);
  }

  lemma NotAt217()
    ensures Clocks(217) != ONE
  {
    assert Clocks(0) == ONE;
    hide Clocks;
    Next(0); Next(1); Next(3); Next(6); Next(13); Next(27); Next(54); Next(108);
  }

  lemma NotAt1057()
    ensures Clocks(1057) != ONE
  {
    assert Clocks(0) == ONE;
    hide Clocks;
    Next(0); Next(1); Next(2); Next(4); Next(8); Next(16); Next(33); Next(66); Next(132); Next(264);
    Next(528);
  }

  lemma NotAt4681()
    ensures Clocks(4681) != ONE
  {
    assert Clocks(0) == ONE;
    hide Clocks;
    Next(0); Next(1); Next(2); Next(4); Next(9); Next(18); Next(36); Next(73); Next(146); Next(292);
    Next(585); Next(1170); Next(2340);
  }

  // --------------------------------------------------------------------- periods

  lemma {:induction false} StartsOver(a: nat, b: nat)
    requires Clocks(a) == ONE
    ensures Clocks(a + b) == Clocks(b)
  {
    hide Clock;
    if b > 0 {
      StartsOver(a, b - 1);
    }
  }

  lemma {:induction false} MultipleReturns(m: nat, k: nat)
    requires Clocks(m) == ONE
    ensures Clocks(k * m) == ONE
  {
    hide Clock;
    if k > 0 {
      MultipleReturns(m, k - 1);
      Distribute(k - 1, 1, m);
      StartsOver((k - 1) * m, m);
    }
  }

  lemma {:induction false} RemainderReturns(a: nat, m: nat)
    requires m > 0 && Clocks(m) == ONE && Clocks(a) == ONE
    ensures Clocks(a % m) == ONE
  {
    hide Clocks;
    if a < m {
      Division(a, m, 0, a);
    } else {
      StartsOver(m, a - m);
      AddTurns(a - m, 1, m);
      RemainderReturns(a - m, m);
    }
  }

  lemma {:induction false} LeastReturn(d: nat, from: nat) returns (m: nat)
    requires 0 < from <= d && Clocks(d) == ONE
    requires forall k :: 0 < k < from ==> Clocks(k) != ONE
    ensures from <= m <= d && Clocks(m) == ONE
    ensures forall k :: 0 < k < m ==> Clocks(k) != ONE
    decreases d - from
  {
    hide Clocks;
    if Clocks(from) == ONE {
      m := from;
    } else {
      m := LeastReturn(d, from + 1);
    }
  }

  lemma SmallDivisor(m: nat)
    requires 0 < m <= 181 && PERIOD % m == 0
    ensures m in {1, 7, 31, 151}
  {
  }

  /** 32767 is 7 times 31 times 151. */
  lemma ProperDivisor(m: nat)
    requires 0 < m < PERIOD && PERIOD % m == 0
    ensures 217 % m == 0 || 1057 % m == 0 || 4681 % m == 0
  {
    var q := PERIOD / m;
    assert PERIOD == m * q;
    if m <= 181 {
      SmallDivisor(m);
    } else {
      if q > 181 {
        MulMonotone(182, q, m);
        assert false;
      }
      Division(PERIOD, q, m, 0);
      SmallDivisor(q);
    }
  }

  lemma MultipleOf(n: nat, m: nat)
    requires m > 0 && n % m == 0 && Clocks(m) == ONE
    ensures Clocks(n) == ONE
  {
    hide Clocks;
    var k := n / m;
    assert n == k * m;
    MultipleReturns(m, k);
  }

  /** The register's period is 32767. */
  lemma ReturnsIff(d: nat)
    ensures Clocks(d) == ONE <==> d % PERIOD == 0
  {
    hide Clocks;
    ReturnsAt32767();
    if d % PERIOD == 0 {
      MultipleOf(d, PERIOD);
    } else if Clocks(d) == ONE {
      RemainderReturns(d, PERIOD);
      var m := LeastReturn(d % PERIOD, 1);
      RemainderReturns(PERIOD, m);
      ProperDivisor(m);
      NotAt217();
      NotAt1057();
      NotAt4681();
      if 217 % m == 0 {
        MultipleOf(217, m);
      } else if 1057 % m == 0 {
        MultipleOf(1057, m);
      } else {
        MultipleOf(4681, m);
      }
    }
  }

  /** Clocked without input, a register holding just its top bit comes back to it
      exactly every 32767 clocks. */
  lemma TopReturnsIff(d: nat)
    ensures Shifts(TOP, d) == TOP <==> d % PERIOD == 0
  {
    hide Shifts, Clocks, Xor;
    ReturnsIff(d);
    ClocksAreShifts(d);
    OnlyOneIsOne(Shifts(1, d));
    ScaleConstants(1);
    ShiftsDouble(1, 15);
    ShiftsSum(1, 15, d);
    ShiftsSum(1, d, 15);
    if Shifts(TOP, d) == TOP {
      ShiftsLinear(Shifts(1, d), 1, 15);
      XorSelf(TOP);
      ShiftsZero(Xor16(Shifts(1, d), 1), 15);
      XorNothing(Shifts(1, d), 1);
    }
  }

  lemma XorNothing(x: nat, y: nat)
    requires Xor(x, y) == 0
    ensures x == y
  {
    XorAssociates(x, y, y);
    XorSelf(y);
    XorZero(x);
    XorZero(y);
  }
}
