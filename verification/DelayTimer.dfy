/** The delay driver over the generic timer: a 64-bit tick count seen through 32 bits as a down counter. */
module DelayTimer {
  import opened Arithmetic
  import opened Wrappers

  const U32: nat := 0x1_0000_0000
  const U64: nat := 0x1_0000_0000_0000_0000
  const MHZ_TICKS_PER_SEC: nat := 1_000_000
  const SLACK: nat := 1000

  /** The timer value at tick count `t`: the complement of its low 32 bits. */
  function TimerValue(t: nat): (r: nat)
    ensures r < U32
  {
    U32 - 1 - t % U32
  }

  /** 32-bit subtraction. */
  function Sub32(a: nat, b: nat): (r: nat)
    requires a < U32 && b < U32
    ensures r < U32
  {
    (a - b) % U32
  }

  /** Subtracting timer values gives the ticks that passed, whole turns of the 32-bit counter left out. */
  lemma {:induction false} DeltaIsElapsed(start: nat, now: nat)
    requires start <= now
    ensures Sub32(TimerValue(start), TimerValue(now)) == (now - start) % U32
    ensures Sub32(TimerValue(start), TimerValue(now)) <= now - start
    ensures now - start < U32 ==> Sub32(TimerValue(start), TimerValue(now)) == now - start
  {
    var a, b, d := start % U32, now % U32, now - start;
    assert TimerValue(start) - TimerValue(now) == b - a;
    var q := now / U32 - start / U32;
    assert d == q * U32 + (b - a);
    ModShift(b - a, q);
  }

  lemma {:induction false} ModShift(x: int, q: int)
    ensures (q * U32 + x) % U32 == x % U32
  {
    var k := x / U32;
    assert q * U32 + x == (q + k) * U32 + x % U32;
    Remainder(q + k, x % U32);
  }

  lemma {:induction false} Remainder(k: int, r: int)
    requires 0 <= r < U32
    ensures (k * U32 + r) % U32 == r
  {
  }

  // ----- how many ticks to wait

  /** The macro that divides and rounds up, in the order it adds. */
  function DivRoundUp(n: nat, d: nat): nat
    requires d > 0
  {
    (n + d - 1) / d
  }

  /** The ticks that udelay waits for. */
  function TotalDelta(usec: nat, mult: nat, div: nat): nat
    requires mult > 0
  {
    DivRoundUp(usec * div, mult) + 1
  }

  /** The least number of whole ticks that is not below n/d. */
  lemma {:induction false} DivRoundUpLeast(n: nat, d: nat)
    requires d > 0
    ensures DivRoundUp(n, d) * d >= n && DivRoundUp(n, d) * d < n + d
  {
    var q, r := (n + d - 1) / d, (n + d - 1) % d;
    assert q * d == n + d - 1 - r;
  }

  /** The total is one more than the least number of ticks that covers the request. */
  lemma {:induction false} OneTickMore(usec: nat, mult: nat, div: nat)
    requires mult > 0
    ensures TotalDelta(usec, mult, div) > 0
    ensures usec * div <= (TotalDelta(usec, mult, div) - 1) * mult < usec * div + mult
  {
    DivRoundUpLeast(usec * div, mult);
  }

  lemma {:induction false} LeastIsUnique(n: nat, d: nat, q: nat)
    requires d > 0 && n <= q * d < n + d
    ensures q == DivRoundUp(n, d)
  {
    var p := DivRoundUp(n, d);
    DivRoundUpLeast(n, d);
    if p < q {
      Apart(p, q, d);
    } else if q < p {
      Apart(q, p, d);
    }
  }

  lemma {:induction false} Apart(p: nat, q: nat, d: nat)
    requires p < q
    ensures p * d + d <= q * d
  {
    MulMono(p + 1, q, d);
    assert (p + 1) * d == p * d + d;
  }

  /** For 32-bit arguments nothing exceeds 64 bits: not the product, not the sum in the rounding macro, not the total;
      and the first assertion of udelay holds. */
  lemma {:induction false} NoOverflow(usec: nat, mult: nat, div: nat)
    requires usec < U32 && 0 < mult < U32 && 0 < div < U32
    ensures usec * div + mult < U64 && TotalDelta(usec, mult, div) < U64 && usec < (U64 - 1) / div
  {
    MulMono(usec, U32 - 1, div);
    TotalBelow(usec * div, mult);
    QuotientAtLeast(U64 - 1, div, U32 + 1);
  }

  lemma {:induction false} TotalBelow(n: nat, mult: nat)
    requires mult > 0
    ensures DivRoundUp(n, mult) < n + mult
  {
    DivRoundUpLeast(n, mult);
    var q := DivRoundUp(n, mult);
    MulMono(1, mult, q);
    assert mult * q == q * mult;
  }

  lemma {:induction false} QuotientAtLeast(n: nat, d: nat, k: nat)
    requires d > 0 && k * d <= n
    ensures n / d >= k
  {
    var q := n / d;
    if q < k {
      Apart(q, k, d);
    }
  }

  // ----- reducing the clock ratio

  /** Reducing the ratio by ten does not change the delay. */
  lemma {:induction false} ReduceKeepsDelta(usec: nat, mult: nat, div: nat)
    requires mult > 0
    ensures TotalDelta(usec, 10 * mult, 10 * div) == TotalDelta(usec, mult, div)
  {
    var n, q := usec * div, DivRoundUp(usec * div, mult);
    DivRoundUpLeast(n, mult);
    assert usec * (10 * div) == 10 * n;
    assert q * (10 * mult) == 10 * (q * mult);
    LeastIsUnique(10 * n, 10 * mult, q);
  }

  /** The driver's parameters for a frequency: the ratio of one million to it, reduced by ten while both divide. The
      ratio stays the same, so does the delay for any time, and nothing divisible by ten is left. */
  method Ratio(freq: nat) returns (mult: nat, div: nat)
    requires freq < U32
    ensures 0 < mult <= MHZ_TICKS_PER_SEC && div <= freq && (div == 0 <==> freq == 0)
    ensures mult * freq == div * MHZ_TICKS_PER_SEC
    ensures mult % 10 != 0 || div % 10 != 0
    ensures forall usec: nat :: TotalDelta(usec, mult, div) == TotalDelta(usec, MHZ_TICKS_PER_SEC, freq)
  {
    mult, div := MHZ_TICKS_PER_SEC, freq;
    while mult % 10 == 0 && div % 10 == 0
      invariant 0 < mult <= MHZ_TICKS_PER_SEC && div <= freq && (div == 0 <==> freq == 0)
      invariant mult * freq == div * MHZ_TICKS_PER_SEC
      invariant forall usec: nat :: TotalDelta(usec, mult, div) == TotalDelta(usec, MHZ_TICKS_PER_SEC, freq)
      decreases mult
    {
      forall usec: nat ensures TotalDelta(usec, mult / 10, div / 10) == TotalDelta(usec, mult, div) {
        ReduceKeepsDelta(usec, mult / 10, div / 10);
      }
      CrossTenth(mult, div, freq);
      mult, div := mult / 10, div / 10;
    }
  }

  lemma {:induction false} CrossTenth(mult: nat, div: nat, freq: nat)
    requires mult % 10 == 0 && div % 10 == 0 && mult * freq == div * MHZ_TICKS_PER_SEC
    ensures (mult / 10) * freq == (div / 10) * MHZ_TICKS_PER_SEC
  {
    var m, d := mult / 10, div / 10;
    assert mult == 10 * m && div == 10 * d;
    assert 10 * (m * freq) == mult * freq;
  }

  // ----- the wait

  /** The loop ends at the poll that reads tick count `now`. */
  predicate Done(start: nat, now: nat, total: nat) {
    Sub32(TimerValue(start), TimerValue(now)) >= total
  }

  /** Whenever the loop ends, and however far apart its polls are, at least `total` ticks have passed. */
  lemma {:induction false} NeverFewerTicks(start: nat, now: nat, total: nat)
    requires start <= now && Done(start, now, total)
    ensures now - start >= total
  {
    DeltaIsElapsed(start, now);
  }

  /** In real time: with a tick count that is the whole part of the frequency times the time, the time from the call
      to the return, in microseconds, is not below the one asked for. */
  lemma {:induction false} NeverEarly(usec: nat, mult: nat, div: nat, freq: real, called: real, returned: real)
    requires mult > 0 && freq > 0.0 && freq * mult as real == MHZ_TICKS_PER_SEC as real * div as real
    requires 0 <= (freq * called).Floor <= (freq * returned).Floor
    requires Done((freq * called).Floor, (freq * returned).Floor, TotalDelta(usec, mult, div))
    ensures (returned - called) * MHZ_TICKS_PER_SEC as real >= usec as real
  {
    var total := TotalDelta(usec, mult, div);
    NeverFewerTicks((freq * called).Floor, (freq * returned).Floor, total);
    FloorGap(freq * called, freq * returned, total);
    Distribute(freq, returned, called);
    EnoughTicks(usec, mult, div, freq * (returned - called));
    Swap(freq, returned - called, mult as real);
    Positive(freq, mult as real);
    InMicroseconds(usec as real, div as real, freq * mult as real, returned - called);
  }

  /** In real time: a delay that ends within SLACK ticks of its total, as `Wait` does, is over the request by less than
      1002 ticks. */
  lemma {:induction false} NeverLate(usec: nat, mult: nat, div: nat, freq: real, called: real, returned: real)
    requires mult > 0 && freq > 0.0 && freq * mult as real == MHZ_TICKS_PER_SEC as real * div as real
    requires (freq * returned).Floor - (freq * called).Floor < TotalDelta(usec, mult, div) + SLACK
    ensures ((returned - called) * MHZ_TICKS_PER_SEC as real) * div as real
      < usec as real * div as real + 1002.0 * mult as real
  {
    var q, m := DivRoundUp(usec * div, mult), mult as real;
    DivRoundUpLeast(usec * div, mult);
    CastMul(q, mult);
    CastMul(usec, div);
    Distribute(freq, returned, called);
    var ticks := freq * (returned - called);
    assert ticks < q as real + 1001.0;
    ScaleBelow(ticks, q as real + 1001.0, m);
    assert (q as real + 1001.0) * m == q as real * m + 1001.0 * m;
    Swap(freq, returned - called, m);
    Swap(MHZ_TICKS_PER_SEC as real, div as real, returned - called);
    assert ticks * m == (MHZ_TICKS_PER_SEC as real * div as real) * (returned - called);
  }

  lemma {:induction false} ScaleBelow(a: real, b: real, m: real)
    requires a < b && m > 0.0
    ensures a * m < b * m
  {
    Positive(b - a, m);
    assert (b - a) * m == b * m - a * m;
  }

  lemma {:induction false} FloorGap(x: real, y: real, total: nat)
    requires y.Floor - x.Floor >= total
    ensures y - x >= total as real - 1.0
  {
  }

  lemma {:induction false} Distribute(a: real, b: real, c: real)
    ensures a * (b - c) == a * b - a * c
  {
  }

  /** One tick less than the total still covers the request. */
  lemma {:induction false} EnoughTicks(usec: nat, mult: nat, div: nat, ticks: real)
    requires mult > 0 && ticks >= TotalDelta(usec, mult, div) as real - 1.0
    ensures ticks * mult as real >= usec as real * div as real
  {
    var q := DivRoundUp(usec * div, mult);
    DivRoundUpLeast(usec * div, mult);
    CastMul(q, mult);
    CastMul(usec, div);
    Scale(ticks, q as real, mult as real);
  }

  lemma {:induction false} CastMul(a: nat, b: nat)
    ensures (a * b) as real == a as real * b as real
    decreases b
  {
    if b > 0 {
      CastMul(a, b - 1);
      assert a * b == a * (b - 1) + a;
      Distribute(a as real, b as real, 1.0);
      assert (b - 1) as real == b as real - 1.0;
    }
  }

  lemma {:induction false} Scale(a: real, b: real, m: real)
    requires a >= b && m >= 0.0
    ensures a * m >= b * m
  {
    assert (a - b) * m >= 0.0;
  }

  /** `k` ticks a second times the divisor: from ticks to microseconds. */
  lemma {:induction false} InMicroseconds(u: real, d: real, k: real, time: real)
    requires k > 0.0 && k == 1_000_000.0 * d && k * time >= u * d
    ensures time * 1_000_000.0 >= u
  {
    SameProduct(u, 1_000_000.0 * d, k);
    Million(u, d);
    Million(k, time);
    Cancel(k, 1_000_000.0 * time, u);
  }

  lemma {:induction false} SameProduct(u: real, a: real, b: real)
    requires a == b
    ensures u * a == b * u
  {
  }

  lemma {:induction false} Million(a: real, b: real)
    ensures a * (1_000_000.0 * b) == 1_000_000.0 * (a * b)
  {
  }

  lemma {:induction false} Swap(f: real, t: real, m: real)
    ensures (f * t) * m == (f * m) * t
  {
  }

  lemma {:induction false} Positive(a: real, b: real)
    requires a > 0.0 && b > 0.0
    ensures a * b > 0.0
  {
  }

  lemma {:induction false} Cancel(k: real, x: real, y: real)
    requires k > 0.0 && k * x >= k * y
    ensures x >= y
  {
    assert x == k * x / k && y == k * y / k;
  }

  /** Polls that follow each other within 1000 ticks, and that come to the end of the delay. */
  ghost predicate Polled(clock: nat -> nat, polls: nat, total: nat) {
    && (forall k :: 0 <= k < polls ==> Next(clock, k))
    && clock(polls) >= clock(0) + total
  }

  predicate Next(clock: nat -> nat, k: nat) { clock(k) <= clock(k + 1) <= clock(k) + SLACK }

  /** The 64-bit computation of the total, and the assertion before it. */
  method ComputeTotal(usec: nat, mult: nat, div: nat) returns (total: nat)
    requires usec < U32 && 0 < mult < U32 && 0 < div < U32
    ensures total == TotalDelta(usec, mult, div)
  {
    NoOverflow(usec, mult, div);
    assert usec < (U64 - 1) / div;
    ghost var n := usec * div;
    SmallMod(n);
    var product := (usec * div) % U64;
    SmallMod(n + mult);
    var sum := (product + mult) % U64;
    assert sum == n + mult;
    total := (sum - 1) / mult + 1;
  }

  lemma {:induction false} SmallMod(x: nat)
    requires x < U64
    ensures x % U64 == x
  {
  }

  /** The polling loop. */
  method Wait(total: nat, clock: nat -> nat, ghost polls: nat) returns (k: nat)
    requires total < U32 - 1 - SLACK && polls > 0 && Polled(clock, polls, total)
    ensures 0 < k <= polls && total <= clock(k) - clock(0) && (total > 0 ==> clock(k) - clock(0) < total + SLACK)
    ensures forall j :: 0 < j < k ==> clock(j) - clock(0) < total
  {
    var start := TimerValue(clock(0));
    k := 1;
    assert Next(clock, 0);
    DeltaIsElapsed(clock(0), clock(1));
    var delta := Sub32(start, TimerValue(clock(1)));
    while delta < total
      invariant 0 < k <= polls && clock(0) <= clock(k) <= clock(k - 1) + SLACK
      invariant delta == clock(k) - clock(0) && (k == 1 || clock(k - 1) - clock(0) < total)
      invariant forall j :: 0 < j < k ==> clock(j) - clock(0) < total
      decreases polls - k
    {
      assert Next(clock, k);
      k := k + 1;
      DeltaIsElapsed(clock(0), clock(k));
      delta := Sub32(start, TimerValue(clock(k)));
    }
  }

  class Driver {
    var mult: nat
    var div: nat

    constructor ()
      ensures mult == 0 && div == 0
    {
      mult, div := 0, 0;
    }

    /** Sets the clock ratio up; a frequency of zero fails the assertion of timer_init. */
    method Init(freq: nat) returns (ok: bool)
      requires freq < U32
      modifies this
      ensures ok <==> freq != 0
      ensures ok ==> 0 < mult < U32 && 0 < div < U32 && mult * freq == div * MHZ_TICKS_PER_SEC
      ensures !ok ==> mult == old(mult) && div == old(div)
    {
      var m, d := Ratio(freq);
      if m == 0 || d == 0 {
        return false;
      }
      mult, div := m, d;
      ok := true;
    }

    /** `clock(0)` is the tick count at the start and `clock(k)` that at poll `k`. The result is the poll that ends the
        delay, the first at which the ticks have passed and before the 32-bit counter comes round; `None` stands for a
        failed assertion. */
    method UDelay(usec: nat, clock: nat -> nat, ghost polls: nat) returns (r: Option<nat>)
      requires usec < U32 && mult < U32 && div < U32
      requires mult > 0 ==> polls > 0 && Polled(clock, polls, TotalDelta(usec, mult, div))
      ensures r.None? <==> mult == 0 || div == 0 || TotalDelta(usec, mult, div) >= U32 - 1 - SLACK
      ensures r.Some? ==> var total, k := TotalDelta(usec, mult, div), r.value;
        && 0 < k <= polls && total <= clock(k) - clock(0) < total + SLACK < U32
        && forall j :: 0 < j < k ==> clock(j) - clock(0) < total
    {
      if mult == 0 || div == 0 {
        return None;
      }
      var total := ComputeTotal(usec, mult, div);
      if total >= U32 - 1 - SLACK {
        return None;
      }
      var k := Wait(total, clock, polls);
      r := Some(k);
    }

    /** Milliseconds. The assertion multiplies in `unsigned long`, `wide` when that has 64 bits; the call multiplies
        in 32 bits. With 64 bits a request that does not fit 32 bits fails the assertion; with 32 bits both wrap
        alike, and only the product 2^32 - 1 fails it. */
    method MDelay(msec: nat, wide: bool, clock: nat -> nat, ghost polls: nat) returns (r: Option<nat>)
      requires msec < U32 && mult < U32 && div < U32
      requires mult > 0 ==> polls > 0 && Polled(clock, polls, TotalDelta(Microseconds(msec), mult, div))
      ensures r.None? <==> (MDelayAsserts(msec, wide) || mult == 0 || div == 0
                            || TotalDelta(Microseconds(msec), mult, div) >= U32 - 1 - SLACK)
      ensures r.Some? ==> var total, k := TotalDelta(Microseconds(msec), mult, div), r.value;
        && 0 < k <= polls && total <= clock(k) - clock(0) < total + SLACK < U32
        && forall j :: 0 < j < k ==> clock(j) - clock(0) < total
      ensures r.Some? && (wide || msec * 1000 < U32) ==> clock(r.value) - clock(0) >= TotalDelta(msec * 1000, mult, div)
    {
      MillisecondsKeptIff(msec, wide);
      var product := if wide then (msec * 1000) % U64 else (msec * 1000) % U32;
      if product >= U32 - 1 {
        return None;
      }
      r := UDelay((msec * 1000) % U32, clock, polls);
    }
  }

  /** The microseconds that mdelay asks udelay for. */
  function Microseconds(msec: nat): nat { (msec * 1000) % U32 }

  /** The assertion of mdelay fails. */
  predicate MDelayAsserts(msec: nat, wide: bool) {
    if wide then msec * 1000 >= U32 - 1 else (msec * 1000) % U32 == U32 - 1
  }

  /** The microseconds asked for are all of the milliseconds exactly when they fit 32 bits. A request that passes the
      assertion of a 64-bit build always does. */
  lemma {:induction false} MillisecondsKeptIff(msec: nat, wide: bool)
    requires msec < U32
    ensures Microseconds(msec) == msec * 1000 <==> msec * 1000 < U32
    ensures wide && !MDelayAsserts(msec, wide) ==> Microseconds(msec) == msec * 1000
    ensures (msec * 1000) % U64 == msec * 1000
  {
  }

  /** With a 32-bit `unsigned long` a request of 4294968 milliseconds passes the assertion and waits for 704
      microseconds. */
  lemma {:induction false} WrappedDelayExample()
    ensures !MDelayAsserts(4_294_968, false) && MDelayAsserts(4_294_968, true)
    ensures Microseconds(4_294_968) == 704
  {
  }
}
