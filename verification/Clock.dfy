/** Fixed-point time (kernel/arch/x86_64/cpu/timer.c): nanoseconds to timer ticks by a
    32.32 scale, timer ticks to nanoseconds by a 128/64 division, and the one-shot timer. */
module Clock {
  import opened Words

  const TWO32: nat := 0x1_0000_0000
  const TWO64: nat := 0x1_0000_0000_0000_0000
  const NS_PER_SEC: nat := 1_000_000_000

  // ---------------------------------------------------------------- the 128/64 step

  /** floor(a * b / d), saturated; 0 for d == 0. */
  function MulDiv(a: nat, b: nat, d: nat): nat {
    if d == 0 then 0 else Min(a * b / d, U64_MAX)
  }

  lemma DivBounds(x: nat, d: nat)
    requires d > 0
    ensures x / d * d <= x < (x / d + 1) * d
  {
  }

  lemma DivAtLeast(x: nat, d: nat, k: nat)
    requires d > 0
    ensures x / d >= k <==> x >= k * d
  {
    DivBounds(x, d);
    if x / d >= k { MulMono(k, x / d, d); }
    if x / d < k { MulMono(x / d + 1, k, d); }
  }

  lemma DivMono(x: nat, y: nat, d: nat)
    requires d > 0 && x <= y
    ensures x / d <= y / d
  {
    DivAtLeast(x, d, x / d);
    LowerQuotient(x, y, d, x / d);
  }

  lemma LowerQuotient(x: nat, y: nat, d: nat, k: nat)
    requires d > 0 && k * d <= x <= y
    ensures k <= y / d
  {
    DivAtLeast(y, d, k);
  }

  lemma MulMono(a: nat, b: nat, c: nat)
    requires a <= b
    ensures a * c <= b * c && c * a <= c * b
  {
  }

  lemma Product(a: nat, b: nat)
    requires a <= U64_MAX && b <= U64_MAX
    ensures a * b / TWO64 <= U64_MAX
  {
    MulMono(a, U64_MAX, b);
    MulMono(b, U64_MAX, U64_MAX);
    assert a * b < TWO64 * TWO64;
    DivAtLeast(a * b, TWO64, TWO64);
  }

  /** The processor's division of hi:lo by d: it faults unless the quotient fits in 64 bits,
      which hi < d says. */
  method Divide(hi: nat, lo: nat, d: nat) returns (q: nat)
    requires lo < TWO64 && hi < d
    ensures q * d <= hi * TWO64 + lo < (q + 1) * d && q <= U64_MAX
  {
    QuotientFits(hi, lo, d);
    DivBounds(hi * TWO64 + lo, d);
    q := (hi * TWO64 + lo) / d;
  }

  lemma QuotientIs(x: nat, d: nat, q: nat)
    requires q * d <= x < (q + 1) * d
    ensures x / d == q
  {
    DivAtLeast(x, d, q);
    DivAtLeast(x, d, q + 1);
  }

  /** mul_u64_div_u64: a 64 x 64 product in two halves, divided only where the division
      does not fault. */
  method MulU64DivU64(a: nat, b: nat, d: nat) returns (q: nat)
    requires a <= U64_MAX && b <= U64_MAX && d <= U64_MAX
    ensures q == MulDiv(a, b, d) && q <= U64_MAX
    ensures q == if d == 0 then 0 else if a * b / d <= U64_MAX then a * b / d else U64_MAX
  {
    if d == 0 { return 0; }
    Product(a, b);
    var hi, lo := a * b / TWO64, a * b % TWO64;
    assert a * b == hi * TWO64 + lo;
    if hi >= d {
      QuotientTooWide(hi, lo, d);
      return U64_MAX;
    }
    q := Divide(hi, lo, d);
    QuotientIs(a * b, d, q);
  }

  lemma QuotientFits(hi: nat, lo: nat, d: nat)
    requires 0 < d && hi < d && lo < TWO64
    ensures (hi * TWO64 + lo) / d <= U64_MAX
  {
    MulMono(hi + 1, d, TWO64);
    DivAtLeast(hi * TWO64 + lo, d, TWO64);
  }

  lemma QuotientTooWide(hi: nat, lo: nat, d: nat)
    requires 0 < d <= hi
    ensures (hi * TWO64 + lo) / d >= TWO64
  {
    MulMono(d, hi, TWO64);
    DivAtLeast(hi * TWO64 + lo, d, TWO64);
  }

  // ---------------------------------------------------------------- scale and ticks

  /** num / den is the number of ticks per nanosecond; scale is that number * 2^32. */
  datatype Rate = Rate(num: nat, den: nat, scale: nat)

  function RateOf(num: nat, den: nat): Rate { Rate(num, den, MulDiv(num, TWO32, den)) }

  /** (ns * scale) >> 32, truncated to 64 bits */
  function TicksFromNs(ns: nat, scale: nat): nat {
    if scale == 0 then 0 else ns * scale / TWO32 % TWO64
  }

  lemma HalvesJoin(hi: nat, lo: nat)
    requires lo < TWO64
    ensures (hi * TWO64 + lo) / TWO32 == hi * TWO32 + lo / TWO32
  {
  }

  lemma HighHalf(hi: nat, lo: nat)
    requires lo < TWO64
    ensures (hi * TWO32 + lo / TWO32) % TWO64 == hi % TWO32 * TWO32 + lo / TWO32
  {
    assert hi * TWO32 == hi / TWO32 * TWO64 + hi % TWO32 * TWO32;
  }

  lemma MiddleBits(x: nat)
    ensures x / TWO64 % TWO32 * TWO32 + x % TWO64 / TWO32 == x / TWO32 % TWO64
  {
    var hi, lo := x / TWO64, x % TWO64;
    assert x == hi * TWO64 + lo;
    HalvesJoin(hi, lo);
    HighHalf(hi, lo);
  }

  /** ticks_from_ns; the two halves of (hi << 32) | (lo >> 32) have no bit in common. */
  method ComputeTicks(ns: nat, scale: nat) returns (ticks: nat)
    ensures ticks == TicksFromNs(ns, scale)
    ensures ticks == ns * scale / 0x1_0000_0000 % 0x1_0000_0000_0000_0000
  {
    if scale == 0 { return 0; }
    var x := ns * scale;
    var hi, lo := x / TWO64, x % TWO64;
    MiddleBits(x);
    ticks := hi % TWO32 * TWO32 + lo / TWO32;
  }

  /** What timer_oneshot_ns waits for ns. */
  function OneshotTicks(ns: nat, r: Rate): nat {
    if TicksFromNs(ns, r.scale) == 0 then 1 else TicksFromNs(ns, r.scale)
  }

  /** timer_now_ns at time-stamp counter value tsc. */
  function NowNs(tsc: nat, r: Rate): nat {
    if r.num == 0 then 0 else MulDiv(tsc, r.den, r.num)
  }

  /** The timer has been initialised; both parts of the rate are 64-bit words. */
  predicate Configured(r: Rate) {
    0 < r.num <= U64_MAX && 0 < r.den <= U64_MAX && r == RateOf(r.num, r.den) && r.scale > 0
  }

  /** And its scale loses no high bits. */
  predicate Exact(r: Rate) { Configured(r) && r.num * TWO32 / r.den <= U64_MAX }

  predicate ExactNs(ns: nat, r: Rate) { ns * r.scale / TWO32 < TWO64 }

  /** The clock at tsc is not saturated. */
  predicate ExactTsc(tsc: nat, r: Rate) { r.num > 0 && tsc * r.den / r.num <= U64_MAX }

  lemma ScaleBounds(r: Rate)
    requires Exact(r)
    ensures r.scale * r.den <= r.num * TWO32 < r.scale * r.den + r.den
  {
    DivBounds(r.num * TWO32, r.den);
    assert (r.scale + 1) * r.den == r.scale * r.den + r.den;
  }

  /** Rounding: with ns * num / den the true number of ticks,
      ns * num / den >= ticks > ns * num / den - ns / 2^32 - 1. */
  lemma TicksBounds(ns: nat, r: Rate)
    requires Exact(r) && ExactNs(ns, r)
    ensures var ticks := TicksFromNs(ns, r.scale);
            && ticks * r.den <= ns * r.num
            && ns * r.num * TWO32 < (ticks + 1) * r.den * TWO32 + ns * r.den
  {
    var t := TicksFromNs(ns, r.scale);
    assert t == ns * r.scale / TWO32;
    DivBounds(ns * r.scale, TWO32);
    ScaleBounds(r);
    UpperBound(ns, r, t);
    LowerBound(ns, r, t);
  }

  lemma UpperBound(ns: nat, r: Rate, t: nat)
    requires t * TWO32 <= ns * r.scale && r.scale * r.den <= r.num * TWO32
    ensures t * r.den <= ns * r.num
  {
    MulMono(t * TWO32, ns * r.scale, r.den);
    MulMono(r.scale * r.den, r.num * TWO32, ns);
    assert ns * r.scale * r.den == ns * (r.scale * r.den);
    assert t * TWO32 * r.den == t * r.den * TWO32;
    assert ns * (r.num * TWO32) == ns * r.num * TWO32;
  }

  lemma LowerBound(ns: nat, r: Rate, t: nat)
    requires ns * r.scale < (t + 1) * TWO32 && r.num * TWO32 < r.scale * r.den + r.den && r.den > 0
    ensures ns * r.num * TWO32 < (t + 1) * r.den * TWO32 + ns * r.den
  {
    MulMono(ns * r.scale + 1, (t + 1) * TWO32, r.den);
    MulMono(r.num * TWO32, r.scale * r.den + r.den, ns);
    assert ns * (r.scale * r.den + r.den) == ns * r.scale * r.den + ns * r.den;
    assert (ns * r.scale + 1) * r.den == ns * r.scale * r.den + r.den;
    assert (t + 1) * TWO32 * r.den == (t + 1) * r.den * TWO32;
    assert ns * (r.num * TWO32) == ns * r.num * TWO32;
  }

  // ---------------------------------------------------------------- the clock

  /** The clock has reached time s exactly when tsc is at least s * num / den ticks. */
  lemma ClockReaches(tsc: nat, s: nat, r: Rate)
    requires ExactTsc(tsc, r)
    ensures NowNs(tsc, r) >= s <==> tsc * r.den >= s * r.num
  {
    DivAtLeast(tsc * r.den, r.num, s);
  }

  lemma ClockMonotone(a: nat, b: nat, r: Rate)
    requires a <= b
    ensures NowNs(a, r) <= NowNs(b, r)
  {
    if r.num > 0 {
      MulMono(a, b, r.den);
      DivMono(a * r.den, b * r.den, r.num);
    }
  }

  /** A wait of so many ticks, if they last no longer than ns, is over when the clock has
      advanced by ns. */
  lemma ShortEnough(tsc: nat, ticks: nat, ns: nat, r: Rate)
    requires r.num > 0 && ticks * r.den <= ns * r.num && ExactTsc(tsc + ticks, r)
    ensures NowNs(tsc + ticks, r) <= NowNs(tsc, r) + ns
  {
    var k := tsc * r.den / r.num;
    MulMono(tsc, tsc + ticks, r.den);
    DivMono(tsc * r.den, (tsc + ticks) * r.den, r.num);
    DivBounds(tsc * r.den, r.num);
    DivAtLeast((tsc + ticks) * r.den, r.num, k + ns + 1);
    assert (tsc + ticks) * r.den == tsc * r.den + ticks * r.den;
    assert (k + ns + 1) * r.num == (k + 1) * r.num + ns * r.num;
  }

  /** The ticks computed for ns last no longer than ns, wrapped and saturated or not. */
  lemma TicksWithin(ns: nat, r: Rate)
    requires Configured(r)
    ensures TicksFromNs(ns, r.scale) * r.den <= ns * r.num
  {
    var x, t := ns * r.scale / TWO32, TicksFromNs(ns, r.scale);
    DivBounds(ns * r.scale, TWO32);
    DivBounds(r.num * TWO32, r.den);
    MulMono(r.scale, r.num * TWO32 / r.den, r.den);
    MulMono(t, x, TWO32);
    UpperBound(ns, r, t);
  }

  /** The wait programmed for ns at counter value tsc is over in time. */
  predicate OnTime(tsc: nat, ns: nat, r: Rate) {
    var w := OneshotTicks(ns, r);
    tsc + w <= U64_MAX && ExactTsc(tsc + w, r) ==> NowNs(tsc + w, r) <= NowNs(tsc, r) + ns
  }

  /** A wait of ns is never late, whenever it starts, exactly when ns is at least as long
      as a tick. A shorter wait is rounded up to a tick, and some start makes it late. */
  lemma WaitIsNotLate(ns: nat, r: Rate)
    requires Configured(r)
    ensures (forall tsc: nat :: OnTime(tsc, ns, r)) <==> r.den <= ns * r.num
  {
    hide NowNs, TicksFromNs, ExactTsc;
    if r.den <= ns * r.num {
      LongWait(ns, r);
    } else {
      OneTickWait(ns, r);
      LateStart(ns, r);
      var tsc: nat :| OneTickLate(tsc, ns, r);
      assert !OnTime(tsc, ns, r);
    }
  }

  lemma LongWait(ns: nat, r: Rate)
    requires Configured(r) && r.den <= ns * r.num
    ensures forall tsc: nat :: OnTime(tsc, ns, r)
  {
    TicksWithin(ns, r);
    hide NowNs, TicksFromNs, ExactTsc;
    forall tsc: nat ensures OnTime(tsc, ns, r) {
      var w := OneshotTicks(ns, r);
      if tsc + w <= U64_MAX && ExactTsc(tsc + w, r) { ShortEnough(tsc, w, ns, r); }
    }
  }

  lemma OneTickWait(ns: nat, r: Rate)
    requires Configured(r) && r.den > ns * r.num
    ensures OneshotTicks(ns, r) == 1
  {
    TicksWithin(ns, r);
    var t := TicksFromNs(ns, r.scale);
    if t > 0 { MulMono(1, t, r.den); }
  }

  /** One tick from counter value tsc on takes the clock past ns. */
  predicate OneTickLate(tsc: nat, ns: nat, r: Rate) {
    tsc + 1 <= U64_MAX && ExactTsc(tsc + 1, r) && NowNs(tsc + 1, r) > NowNs(tsc, r) + ns
  }

  /** A counter value at which a single tick takes the clock past ns: 0 when the tick is
      longer than ns + 1, else just before the fractions of a tick add up to one more. */
  lemma LateStart(ns: nat, r: Rate)
    requires 0 < r.num <= U64_MAX && r.den <= U64_MAX && r.den > ns * r.num
    ensures exists tsc: nat :: OneTickLate(tsc, ns, r)
  {
    var a, b := r.den / r.num, r.den % r.num;
    assert r.den == a * r.num + b;
    DivAtLeast(r.den, r.num, ns);
    MulMono(1, r.num, a);
    if a > ns {
      assert OneTickLate(0, ns, r);
    } else {
      var t := Carry(r.num, b);
      CarryIs(r.num, a, b, t);
      CarryLate(t, a, ns, r);
    }
  }

  lemma CarryLate(t: nat, a: nat, ns: nat, r: Rate)
    requires 0 < r.num && t < r.num <= U64_MAX && a == ns
    requires t * r.den / r.num == t * a && (t + 1) * r.den / r.num == (t + 1) * a + 1 <= U64_MAX
    ensures OneTickLate(t, ns, r)
  {
    assert (t + 1) * a == t * a + a;
  }

  /** The last t for which t times the fraction b / n stays below 1. */
  function Carry(n: nat, b: nat): nat
    requires 0 < b < n
  {
    (n - 1) / b
  }

  lemma CarryIs(n: nat, a: nat, b: nat, t: nat)
    requires 0 < b < n && t == Carry(n, b)
    ensures t < n && t * (a * n + b) / n == t * a && (t + 1) * (a * n + b) / n == (t + 1) * a + 1
    ensures (t + 1) * a + 1 <= a * n + b
  {
    CarryBounds(n, b, t);
    WholeAndCarry(n, a, b, t, 0);
    WholeAndCarry(n, a, b, t + 1, 1);
    MulMono(t + 1, n, a);
  }

  lemma CarryBounds(n: nat, b: nat, t: nat)
    requires 0 < b < n && t == Carry(n, b)
    ensures t < n && t * b < n <= (t + 1) * b < 2 * n
  {
    DivBounds(n - 1, b);
    assert (t + 1) * b == t * b + b;
    if t >= n {
      MulMono(n, t, b);
      MulMono(1, b, n);
    }
  }

  /** k ticks of a + b / n each make k * a and c carries. */
  lemma WholeAndCarry(n: nat, a: nat, b: nat, k: nat, c: nat)
    requires 0 < n && c * n <= k * b < (c + 1) * n
    ensures k * (a * n + b) / n == k * a + c
  {
    Distribute(n, a, b, k);
    Collect(n, k * a, c);
    Collect(n, k * a, c + 1);
    QuotientIs(k * (a * n + b), n, k * a + c);
  }

  lemma Distribute(n: nat, a: nat, b: nat, k: nat)
    ensures k * (a * n + b) == k * a * n + k * b
  {
  }

  lemma Collect(n: nat, x: nat, c: nat)
    ensures (x + c) * n == x * n + c * n
  {
  }

  /** At 100 MHz a tick lasts 10 ns: a wait of 1 ns ends 10 ns later, and a wait of 10 ns
      is rounded down to no tick, made one again, and is on time. */
  lemma SubTickWaits()
    ensures var r := RateOf(100_000_000, NS_PER_SEC);
            && Configured(r) && TicksFromNs(1, r.scale) == TicksFromNs(10, r.scale) == 0
            && NowNs(0 + OneshotTicks(1, r), r) == NowNs(0, r) + 10
            && !OnTime(0, 1, r) && forall tsc: nat :: OnTime(tsc, 10, r)
  {
    var r := RateOf(100_000_000, NS_PER_SEC);
    assert r.scale == 429_496_729;
    WaitIsNotLate(10, r);
  }

  /** How long one tick is, rounded up to whole nanoseconds. */
  function TickNs(r: Rate): nat
    requires r.num > 0
  {
    (r.den + r.num - 1) / r.num
  }

  /** No wait, however short, is late by more than the tick it is rounded up to. */
  lemma WaitBound(tsc: nat, ns: nat, r: Rate)
    requires Configured(r) && ExactTsc(tsc + OneshotTicks(ns, r), r)
    ensures NowNs(tsc + OneshotTicks(ns, r), r) <= NowNs(tsc, r) + Max(ns, TickNs(r))
    ensures r.den <= ns * r.num ==> NowNs(tsc + OneshotTicks(ns, r), r) <= NowNs(tsc, r) + ns
  {
    var w := OneshotTicks(ns, r);
    TicksWithin(ns, r);
    if w * r.den <= ns * r.num {
      ShortEnough(tsc, w, ns, r);
    } else {
      DivBounds(r.den + r.num - 1, r.num);
      assert (TickNs(r) + 1) * r.num == TickNs(r) * r.num + r.num;
      ShortEnough(tsc, w, TickNs(r), r);
    }
  }

  /** A slice of q < 2^32 ns armed at counter value t is short by less than two ticks. */
  lemma SliceRounding(t: nat, q: nat, r: Rate)
    requires Exact(r) && q < TWO32 && ExactNs(q, r) && ExactTsc(t, r)
    ensures (NowNs(t, r) + q) * r.num < (t + OneshotTicks(q, r) + 2) * r.den
  {
    var n, w, k := NowNs(t, r), OneshotTicks(q, r), TicksFromNs(q, r.scale);
    DivBounds(t * r.den, r.num);
    TicksBounds(q, r);
    MulMono(q, TWO32, r.den);
    assert q * r.num * TWO32 < (k + 1) * r.den * TWO32 + TWO32 * r.den == (k + 2) * r.den * TWO32;
    assert q * r.num < (k + 2) * r.den;
    MulMono(k + 2, w + 2, r.den);
    assert (n + q) * r.num == n * r.num + q * r.num;
    assert (t + w + 2) * r.den == t * r.den + (w + 2) * r.den;
  }
}
