/**
 The boot clock: 64-bit division by shifting and subtracting, and the uptime computed
 with it from the time-stamp counter.
 */
module Tsc {
  import opened Words
  import opened Bits

  const MICROS: nat := 1_000_000
  const CAL_MS: nat := 50

  /** x >> k */
  function Shr(x: nat, k: nat): nat {
    if k == 0 then x else Shr(x / 2, k - 1)
  }

  /** The prefix one bit longer is the shorter one doubled, plus that bit. */
  lemma {:induction false} ShrStep(x: nat, k: nat)
    ensures Shr(x, k) == 2 * Shr(x, k + 1) + (if Bit(x, k) then 1 else 0)
  {
    if k > 0 { ShrStep(x / 2, k - 1); }
  }

  lemma {:induction false} ShrBound(x: nat, k: nat, n: nat)
    requires k <= n && x < Pow2(n)
    ensures Shr(x, k) < Pow2(n - k)
  {
    if k > 0 { ShrBound(x / 2, k - 1, n - 1); }
  }

  lemma {:induction false} Pow2Grows(m: nat, n: nat)
    requires m <= n
    ensures Pow2(m) <= Pow2(n)
  {
    if m < n { Pow2Grows(m, n - 1); }
  }

  /** Setting a bit below the lowest set one adds its weight. */
  lemma {:induction false} SetBitAdds(q: nat, i: nat)
    ensures SetBit(2 * Pow2(i) * q, i) == 2 * Pow2(i) * q + Pow2(i)
  {
    if i > 0 {
      assert 2 * Pow2(i) * q == 2 * (2 * Pow2(i - 1) * q);
      Halve(2 * Pow2(i - 1) * q, 0);
      SetBitAdds(q, i - 1);
    }
  }

  /** The shifted remainder cannot overflow: it never exceeds a prefix of n. */
  lemma PrefixFits(n: u64, i: nat)
    requires i < 64
    ensures 2 * Shr(n, i + 1) + 1 < U64
  {
    assert Pow2(64) == U64 by { Powers(); }
    ShrBound(n, i + 1, 64);
    Pow2Grows(64 - (i + 1), 63);
    assert 2 * Pow2(63) == Pow2(64);
  }

  lemma Powers()
    ensures Pow2(64) == U64
  {
    assert Pow2(4) == 16;
    Pow2Sum(4, 4);
    Pow2Sum(8, 8);
    Pow2Sum(16, 16);
    Pow2Sum(32, 32);
  }

  lemma {:induction false} Pow2Sum(a: nat, b: nat)
    ensures Pow2(a + b) == Pow2(a) * Pow2(b)
  {
    if a > 0 {
      Pow2Sum(a - 1, b);
      assert Pow2(a + b) == 2 * (Pow2(a - 1) * Pow2(b));
    }
  }

  /** One round: the next bit of n brought down, and d subtracted when it goes in. */
  lemma Round(n: u64, d: u64, i: nat, quo: nat, r: nat)
    requires i < 64 && quo * d + r == Shr(n, i + 1) && quo < Pow2(63 - i) && (d > 0 ==> r < d)
    ensures 2 * r + 1 < U64
    ensures var r2 := 2 * r + (if Bit(n, i) then 1 else 0);
            && (2 * quo) * d + r2 == Shr(n, i)
            && (2 * quo + 1) * d + (r2 - d) == Shr(n, i)
            && (d > 0 ==> r2 - d < d)
    ensures 2 * quo + 1 < Pow2(63 - (i - 1))
  {
    PrefixFits(n, i);
    ShrStep(n, i);
    Twice(quo, d);
    assert Pow2(64 - i) == 2 * Pow2(63 - i);
  }

  lemma Twice(x: nat, y: nat)
    ensures (2 * x) * y == 2 * (x * y) && (2 * x + 1) * y == 2 * (x * y) + y && x * y >= 0
    ensures y * (2 * x) == 2 * y * x && y * (2 * x + 1) == 2 * y * x + y
  {
  }

  /** The quotient's bits so far are above i, and there is room for bit i. */
  lemma QuotientBit(i: nat, quo: nat)
    requires i < 64 && quo < Pow2(63 - i)
    ensures Pow2(i + 1) * quo == Pow2(i) * (2 * quo)
    ensures SetBit(Pow2(i + 1) * quo, i) == Pow2(i) * (2 * quo + 1) < U64
  {
    Twice(quo, Pow2(i));
    SetBitAdds(quo, i);
    QuotientFits(i, quo);
  }

  lemma QuotientFits(i: nat, quo: nat)
    requires i < 64 && quo < Pow2(63 - i)
    ensures Pow2(i) * (2 * quo + 1) < U64
  {
    Powers();
    Pow2Sum(i, 64 - i);
  }

  /** Where the division stands when k bits of n are still to come: quo is the quotient q without its k trailing
      zeros. */
  ghost predicate Standing(n: u64, d: u64, k: nat, quo: nat, q: nat, r: nat) {
    && k <= 64 && quo < Pow2(64 - k) && q == Pow2(k) * quo
    && quo * d + r == Shr(n, k)
    && (if d > 0 then r < d else quo == Pow2(64 - k) - 1)
  }

  lemma NextBit(n: u64, d: u64, i: nat, quo: nat, q: nat, r: nat)
    requires i < 64 && Standing(n, d, i + 1, quo, q, r)
    ensures 2 * r + 1 < U64 && SetBit(q, i) < U64
    ensures var r2 := 2 * r + (if Bit(n, i) then 1 else 0);
            if r2 >= d then Standing(n, d, i, 2 * quo + 1, SetBit(q, i), r2 - d) else Standing(n, d, i, 2 * quo, q, r2)
  {
    Round(n, d, i, quo, r);
    QuotientBit(i, quo);
  }

  /** x << 1 in 64 bits */
  function Shl1(x: u64): (y: u64)
    ensures 2 * x < U64 ==> y == 2 * x
  {
    2 * x % U64
  }

  lemma StandingAtStart(n: u64, d: u64)
    ensures Standing(n, d, 64, 0, 0, 0)
  {
    Powers();
    ShrBound(n, 64, 64);
  }

  lemma StandingAtEnd(n: u64, d: u64, quo: nat, q: nat, r: nat)
    requires Standing(n, d, 0, quo, q, r)
    ensures q * d + r == n && if d > 0 then r < d else q == U64 - 1
  {
    Powers();
  }

  /** udiv64: quotient and remainder for every divisor; dividing by zero gives all ones and n. */
  method Udiv64(n: u64, d: u64) returns (q: u64, r: u64)
    ensures q * d + r == n
    ensures d > 0 ==> r < d
    ensures d == 0 ==> q == U64 - 1
  {
    q, r := 0, 0;
    ghost var quo: nat, k: nat := 0, 64;
    var i := 63;
    StandingAtStart(n, d);
    while i >= 0
      invariant k == i + 1 && Standing(n, d, k, quo, q, r)
    {
      NextBit(n, d, i, quo, q, r);
      r := Shl1(r);
      if Bit(n, i) { r := r + 1; }
      if r >= d {
        r := r - d;
        q := SetBit(q, i);
        quo := 2 * quo + 1;
      } else {
        quo := 2 * quo;
      }
      k := i;
      i := i - 1;
    }
    StandingAtEnd(n, d, quo, q, r);
  }

  // ---------------------------------------------------------------- uptime

  /** Microseconds in `cycles` of a counter of `hz`, counting whole cycles per microsecond. */
  function Micros(cycles: nat, hz: nat): nat
    requires hz >= MICROS
  {
    cycles / (hz / MICROS)
  }

  /** Cycles between two readings of a 64-bit counter. */
  function Elapsed(from: u64, to: u64): u64 { (to - from) % U64 }

  /** What the counter reads n cycles after it read `from`. */
  function Later(from: u64, n: nat): u64 { (from + n) % 0x1_0000_0000_0000_0000 }

  /** One more at every cycle, and 0 after the largest number. */
  lemma CounterTicks(from: u64, n: nat)
    ensures Later(from, 0) == from
    ensures Later(from, n + 1) == if Later(from, n) == 0xffff_ffff_ffff_ffff then 0 else Later(from, n) + 1
  {
    var q, r := (from + n) / U64, (from + n) % U64;
    assert from + n == q * U64 + r;
    if r + 1 == U64 {
      Remainder(from + n + 1, q + 1, 0);
    } else {
      Remainder(from + n + 1, q, r + 1);
    }
  }

  lemma Remainder(x: nat, q: nat, r: u64)
    requires x == q * U64 + r
    ensures x % U64 == r
  {
  }

  /** The cycles between two readings are those that passed, if that is less than a whole turn of the counter. */
  lemma ElapsedExact(from: u64, n: u64)
    ensures Elapsed(from, Later(from, n)) == n
  {
    if from + n < U64 {
      assert Later(from, n) == from + n;
    } else {
      assert Later(from, n) == from + n - U64;
    }
  }

  class Clock {
    var tscHz: u64
    var tscBoot: u64

    /** tsc_calibrate: t0 and t1 read around 50 ms, then the counter read at boot. */
    method Calibrate(t0: u64, t1: u64, now: u64)
      modifies this
      ensures tscBoot == now
      ensures forall n: u64 :: t1 == Later(t0, n) && n * 1000 < 0x1_0000_0000_0000_0000 ==>
                tscHz == 20 * n && (tscHz >= 1_000_000 <==> n >= 50_000)
    {
      tscHz := (t1 - t0) % U64 * 1000 % U64 / CAL_MS;
      tscBoot := now;
      forall n: u64 | t1 == Later(t0, n) && n * 1000 < U64 ensures tscHz == 20 * n {
        ElapsedExact(t0, n);
        assert n * 1000 / 50 == 20 * n;
      }
    }

    /** md_uptime at counter reading `now`: n cycles after boot, the whole microseconds of n, in seconds and rest. */
    method Uptime(now: u64) returns (sec: u32, usec: u32)
      ensures usec < 1_000_000
      ensures forall n: u64 :: now == Later(tscBoot, n) && tscHz >= 1_000_000 ==>
                var us := n / (tscHz / 1_000_000);
                sec == us / 1_000_000 % 0x1_0000_0000 && usec == us % 1_000_000
      ensures if tscHz >= MICROS then (sec, usec) == Pair(Elapsed(tscBoot, now), tscHz)
              else sec == (U64 - 1) / MICROS % U32 && usec == (U64 - 1) % MICROS
    {
      var cycles := (now - tscBoot) % U64;
      var perUs, _ := Udiv64(tscHz, MICROS);
      var us, _ := Udiv64(cycles, perUs);
      var whole, rem := Udiv64(us, MICROS);
      sec := whole % U32;
      usec := rem;
      DivisionUnique(tscHz, MICROS, perUs);
      if tscHz >= MICROS { DivisionUnique(cycles, perUs, us); }
      DivisionUnique(us, MICROS, whole);
      forall n: u64 | now == Later(tscBoot, n) ensures Elapsed(tscBoot, now) == n { ElapsedExact(tscBoot, n); }
    }
  }

  lemma DivisionUnique(n: nat, d: nat, q: nat)
    requires d > 0 && q * d <= n < q * d + d
    ensures q == n / d
  {
    var k := n / d;
    assert n == k * d + n % d;
    if q < k { MulMonotone(d, q + 1, k); }
    if k < q { MulMonotone(d, k + 1, q); }
  }

  /** The (sec, usec) pair md_uptime gives for a number of elapsed cycles. */
  function Pair(cycles: nat, hz: nat): (nat, nat)
    requires hz >= MICROS
  {
    (Micros(cycles, hz) / MICROS % U32, Micros(cycles, hz) % MICROS)
  }

  lemma DivMonotone(a: nat, b: nat, d: nat)
    requires d > 0 && a <= b
    ensures a / d <= b / d
  {
    assert b == b / d * d + b % d;
    assert (b / d + 1) * d == b / d * d + d;
    DivBelow(a, d, b / d);
  }

  /** The pair is the elapsed time exactly as long as the seconds fit 32 bits. */
  lemma PairExact(cycles: nat, hz: nat)
    requires hz >= MICROS
    ensures Pair(cycles, hz).0 * MICROS + Pair(cycles, hz).1 == Micros(cycles, hz)
            <==> Micros(cycles, hz) < U32 * MICROS
  {
  }

  /** The pair p is no later than the pair q. */
  predicate NoLater(p: (nat, nat), q: (nat, nat)) { p.0 < q.0 || (p.0 == q.0 && p.1 <= q.1) }

  /** Until then it never goes back. */
  lemma PairMonotone(c: nat, c': nat, hz: nat)
    requires hz >= MICROS && c <= c' && Micros(c', hz) < U32 * MICROS
    ensures NoLater(Pair(c, hz), Pair(c', hz))
  {
    DivMonotone(c, c', hz / MICROS);
  }

  /** So of two readings the later one gives no earlier pair, and the pair is the time that passed. */
  lemma ReadingsMonotone(boot: u64, n: u64, n': u64, hz: nat)
    requires hz >= MICROS && n <= n' && n' / (hz / 1_000_000) < 0x1_0000_0000 * 1_000_000
    ensures var p, p' := Pair(Elapsed(boot, Later(boot, n)), hz), Pair(Elapsed(boot, Later(boot, n')), hz);
            && p'.0 * 1_000_000 + p'.1 == n' / (hz / 1_000_000)
            && p.0 * 1_000_000 + p.1 <= p'.0 * 1_000_000 + p'.1
            && (p.0 < p'.0 || (p.0 == p'.0 && p.1 <= p'.1))
  {
    ElapsedExact(boot, n);
    ElapsedExact(boot, n');
    DivMonotone(n, n', hz / MICROS);
    PairExact(n, hz);
    PairExact(n', hz);
    PairMonotone(n, n', hz);
  }

  /** At any frequency it goes back when the seconds come to 2^32. */
  lemma PairWraps(hz: nat) returns (c: nat, c': nat)
    requires hz >= MICROS
    ensures c <= c' && Micros(c, hz) == U32 * MICROS - 1 && Micros(c', hz) == U32 * MICROS
    ensures !NoLater(Pair(c, hz), Pair(c', hz))
    ensures forall later: nat :: Micros(later, hz) >= U32 * MICROS ==> c' <= later
  {
    var per := hz / MICROS;
    c, c' := (U32 * MICROS - 1) * per, U32 * MICROS * per;
    DivisionUnique(c, per, U32 * MICROS - 1);
    DivisionUnique(c', per, U32 * MICROS);
    assert c + per == c';
    forall later: nat | Micros(later, hz) >= U32 * MICROS ensures c' <= later {
      if later < c' { DivBelow(later, per, U32 * MICROS - 1); }
    }
  }

  /** Up to a count of cycles the pair never goes back exactly as long as the seconds fit 32 bits by then. */
  lemma MonotoneUpTo(last: nat, hz: nat)
    requires hz >= MICROS
    ensures (forall c: nat, c': nat :: c <= c' <= last ==> NoLater(Pair(c, hz), Pair(c', hz)))
            <==> Micros(last, hz) < U32 * MICROS
  {
    if Micros(last, hz) < U32 * MICROS {
      forall c: nat, c': nat | c <= c' <= last ensures NoLater(Pair(c, hz), Pair(c', hz)) {
        DivMonotone(c', last, hz / MICROS);
        PairMonotone(c, c', hz);
      }
    } else {
      var c, c' := PairWraps(hz);
      assert c <= c' <= last;
    }
  }

  /** Whole cycles per microsecond are no more than the real ones, so the clock is never slow. */
  lemma NeverSlow(cycles: nat, hz: nat)
    requires hz >= MICROS
    ensures cycles * MICROS / hz <= Micros(cycles, hz)
    ensures hz % MICROS == 0 ==> cycles * MICROS / hz == Micros(cycles, hz)
  {
    var per, us := hz / MICROS, Micros(cycles, hz);
    assert us * per <= cycles < us * per + per;
    assert per * MICROS <= hz;
    calc {
      cycles * MICROS;
    < (us * per + per) * MICROS;
    == (us + 1) * (per * MICROS);
    <= { MulMonotone(us + 1, per * MICROS, hz); }
      (us + 1) * hz;
    }
    DivBelow(cycles * MICROS, hz, us);
    if hz % MICROS == 0 {
      assert us * hz == us * per * MICROS <= cycles * MICROS;
      DivisionUnique(cycles * MICROS, hz, us);
    }
  }

  lemma MulMonotone(x: nat, a: nat, b: nat)
    requires a <= b
    ensures x * a <= x * b
  {
  }

  lemma DivBelow(n: nat, d: nat, q: nat)
    requires d > 0 && n < (q + 1) * d
    ensures n / d <= q
  {
    if n / d > q { MulMonotone(d, q + 1, n / d); }
  }
}
