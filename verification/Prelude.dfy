/** Shared vocabulary: optional values, bytes, clock readings, and the 32-bit
    wrap-around arithmetic of sequence numbers (`wrapping_add`, `wrapping_sub`). */
module Prelude {

  datatype Option<+T> = None | Some(value: T)

  datatype Result<+T, +E> = Ok(value: T) | Err(error: E)

  /** The parts one after another. */
  function Concat<T>(parts: seq<seq<T>>): seq<T> {
    if parts == [] then [] else Concat(parts[..|parts| - 1]) + parts[|parts| - 1]
  }

  const MOD32: nat := 0x1_0000_0000

  /** Half of the sequence space: a forward distance above it means "older". */
  const HALF32: nat := 0x8000_0000

  type u16 = x: int | 0 <= x < 0x1_0000

  type u32 = x: int | 0 <= x < 0x1_0000_0000

  type u64 = x: int | 0 <= x < 0x1_0000_0000_0000_0000

  type Byte = x: int | 0 <= x < 256

  type Bytes = seq<Byte>

  function Wrap(n: int): (r: u32) {
    n % MOD32
  }

  function WrapSub(a: u32, b: u32): (r: u32) {
    Wrap(a - b)
  }

  function WrapAdd(a: u32, b: u32): (r: u32) {
    Wrap(a + b)
  }

  function Max(a: int, b: int): int {
    if a > b then a else b
  }

  /** Two numbers less than `m` apart with the same remainder are equal. */
  lemma SameRemainder(a: int, b: int, m: int)
    requires 0 < m && b <= a < b + m && a % m == b % m
    ensures a == b
  {
    var turns := a / m - b / m;
    assert a - b == m * turns;
    if turns >= 1 {
      MulAtLeast(m, turns);
    } else if turns <= -1 {
      MulAtLeast(m, -turns);
    }
  }

  lemma MulAtLeast(m: int, q: int)
    requires m > 0 && q >= 1
    ensures m * q >= m
  {
  }

  lemma Distribute(a: int, b: int, m: int)
    ensures (a + b) * m == a * m + b * m
  {
  }

  /** Adding whole turns does not change a remainder. */
  lemma AddTurns(a: int, q: int, m: int)
    requires m > 0
    ensures (a + q * m) % m == a % m
  {
    var d := (a + q * m) / m - a / m;
    var r, s := (a + q * m) % m, a % m;
    assert r - s == m * (q - d);
    if q != d {
      if q > d { MulAtLeast(m, q - d); } else { MulAtLeast(m, d - q); }
    }
  }

  /** Wrapping keeps the remainder by any divisor of the sequence space. */
  lemma WrapKeepsRemainder(k: int, m: int)
    requires m > 0 && MOD32 % m == 0
    ensures Wrap(k) % m == k % m
  {
    var laps, perLap := k / MOD32, MOD32 / m;
    assert MOD32 == perLap * m;
    LapsInUnits(laps, perLap, m);
    AddTurns(Wrap(k), laps * perLap, m);
  }

  lemma LapsInUnits(laps: int, perLap: int, m: int)
    requires MOD32 == perLap * m
    ensures laps * MOD32 == (laps * perLap) * m
  {
  }

  /** Positions less than a lap apart wrap to different sequences. */
  lemma WrapsApart(k: int, gap: int)
    requires 0 < gap < MOD32
    ensures Wrap(k + gap) != Wrap(k)
  {
  }

  /** Walking the wrapped forward distance from an unwrapped position lands on
      a position that wraps to the sequence. */
  lemma PositionWraps(s: u32, cursor: int)
    ensures Wrap(cursor + WrapSub(s, Wrap(cursor))) == s
  {
  }

  /** Wrapped addition follows the unwrapped one. */
  lemma WrapAddWraps(cursor: int, n: u32)
    ensures WrapAdd(Wrap(cursor), n) == Wrap(cursor + n)
  {
  }

  /** Walking back the wrapped distance lands on the sequence. */
  lemma AgeWraps(s: u32, top: int)
    ensures Wrap(top - WrapSub(Wrap(top), s)) == s
  {
  }

  lemma WrapSubWraps(a: int, b: int)
    ensures WrapSub(Wrap(a), Wrap(b)) == Wrap(a - b)
  {
  }

  lemma WrapSmall(n: int)
    requires 0 <= n < MOD32
    ensures Wrap(n) == n && Wrap(-n) == if n == 0 then 0 else MOD32 - n
  {
  }

  /** Quotient and remainder are determined by the decomposition. */
  lemma Division(x: int, m: int, q: int, r: int)
    requires 0 <= r < m && x == q * m + r
    ensures x / m == q && x % m == r
  {
    var d := x / m - q;
    assert x % m - r == m * -d;
    if d >= 1 {
      MulAtLeast(m, d);
    } else if d <= -1 {
      MulAtLeast(m, -d);
    }
  }

  lemma MulMonotone(a: int, b: int, m: int)
    requires a <= b && m >= 0
    ensures a * m <= b * m
  {
  }

  lemma QuotientBelow(x: int, m: int, n: int)
    requires m > 0
    ensures x / m < n <==> x < n * m
  {
    var q := x / m;
    assert x == q * m + x % m;
    if q < n {
      MulMonotone(q + 1, n, m);
      assert (q + 1) * m == q * m + m;
    } else {
      MulMonotone(n, q, m);
    }
  }

  // ------------------------------------------------------------------------ time

  /** Clocks are read in nanoseconds. */
  const SECOND: nat := 1_000_000_000

  /** `duration_since`, which saturates at zero. */
  function Since(now: nat, earlier: nat): nat {
    if now >= earlier then now - earlier else 0
  }
}
