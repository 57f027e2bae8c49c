/** Model of the `WAITER` alarm timer template of
    arduino/libraries/Waiter/Waiter.h.

    The template is generic over a signed `alarm_t` and a downshift
    `SHIFT`; both are captured by `Params`.  The time source `TIMER()` is
    replaced by an explicit `now` argument, a sample of the 32-bit
    `clock_t` counter, which wraps.  Every `alarm_t` value is an `int` in
    the signed range of the width, produced by `ToAlarm`, the two's
    complement reinterpretation of the low `bits` bits. */
module Waiter {
  import opened Useful

  /** `clock_t`, an `unsigned long`: a 32-bit counter that wraps. */
  type Clock = t: int | 0 <= t < 0x1_0000_0000

  /** The template parameters: the width of `alarm_t` in bits and `SHIFT`. */
  datatype Params = Params(bits: nat, shift: nat)

  /** `alarm_t` is a signed integer type of 8, 16 or 32 bits, and the
      template's `OVERFLOW` guard, `bit(SHIFT + ALARM_SHIFT)`, only exists
      when `SHIFT + ALARM_SHIFT < 32`. */
  predicate Valid(p: Params)
  {
    && (p.bits == 8 || p.bits == 16 || p.bits == 32)
    && p.shift + (p.bits - 1) < 32
  }

  /** `typedef WAITER<> Waiter`: `int32_t`, no shift, millisecond clock. */
  const MillisParams: Params := Params(32, 0)

  /** `typedef WAITER<int16_t, 10> WaitSec`. */
  const SecondsParams: Params := Params(16, 10)

  /** Number of distinct `alarm_t` values, 2^bits, written out for the
      three widths `alarm_t` can have. */
  function Modulus(p: Params): (r: nat)
    ensures r == Pow2(p.bits)
  {
    Pow2Constants();
    Pow2Of16();
    Pow2Of8();
    if p.bits == 32 then 0x1_0000_0000
    else if p.bits == 16 then 0x1_0000
    else if p.bits == 8 then 0x100
    else Pow2(p.bits)
  }

  /** `bit(ALARM_SHIFT)`: half of `Modulus`. */
  function Half(p: Params): (r: nat)
    requires Valid(p)
    ensures r == Pow2(p.bits - 1)
  {
    Pow2Constants();
    Pow2Of16();
    Pow2Of8();
    assert Pow2(8) == 2 * Pow2(7);
    if p.bits == 32 then 0x8000_0000
    else if p.bits == 16 then 0x8000
    else 0x80
  }

  /** `a` is a value of type `alarm_t`. */
  predicate InRange(p: Params, a: int)
    requires Valid(p)
  {
    -(Half(p) as int) <= a < Half(p)
  }

  /** `x` and `y` agree in their low `bits` bits. */
  predicate Congruent(p: Params, x: int, y: int)
  {
    (x - y) % Modulus(p) == 0
  }

  // ---------------------------------------------------------------------
  // Modular arithmetic used by the wrap-around proofs

  lemma DivModUnique(x: int, m: int, q: int, r: int)
    requires m > 0
    requires x == q * m + r
    requires 0 <= r < m
    ensures x / m == q
    ensures x % m == r
  {
    var q0, r0 := x / m, x % m;
    assert x == q0 * m + r0;
    assert (q - q0) * m == r0 - r;
    if q > q0 {
      MulAtLeast(q - q0, m);
      assert false;
    } else if q < q0 {
      MulAtLeast(q0 - q, m);
      assert false;
    }
  }

  lemma MulAtLeast(a: int, m: int)
    requires a >= 1
    requires m > 0
    ensures a * m >= m
  {
    assert a * m == (a - 1) * m + m;
    assert (a - 1) * m >= 0;
  }

  lemma MultipleMod(k: int, m: int)
    requires m > 0
    ensures (k * m) % m == 0
  {
    DivModUnique(k * m, m, k, 0);
  }

  /** A difference divisible by `m` is `m` times its quotient. */
  lemma DivisibleIsMultiple(x: int, m: int)
    requires m > 0
    requires x % m == 0
    ensures x == (x / m) * m
  {
  }

  lemma CongruentTrans(p: Params, x: int, y: int, z: int)
    requires Congruent(p, x, y)
    requires Congruent(p, y, z)
    ensures Congruent(p, x, z)
  {
    var m := Modulus(p);
    DivisibleIsMultiple(x - y, m);
    DivisibleIsMultiple(y - z, m);
    var k := (x - y) / m + (y - z) / m;
    assert x - z == k * m;
    MultipleMod(k, m);
  }

  lemma CongruentSym(p: Params, x: int, y: int)
    requires Congruent(p, x, y)
    ensures Congruent(p, y, x)
  {
    var m := Modulus(p);
    DivisibleIsMultiple(x - y, m);
    assert y - x == (-((x - y) / m)) * m;
    MultipleMod(-((x - y) / m), m);
  }

  lemma CongruentShift(p: Params, x: int, y: int, c: int)
    requires Congruent(p, x, y)
    ensures Congruent(p, x + c, y + c)
    ensures Congruent(p, c - x, c - y)
  {
    assert (x + c) - (y + c) == x - y;
    CongruentSym(p, x, y);
    assert (c - x) - (c - y) == y - x;
  }

  lemma CongruentMod(p: Params, x: int, y: int)
    requires Congruent(p, x, y)
    ensures x % Modulus(p) == y % Modulus(p)
  {
    var m := Modulus(p);
    DivisibleIsMultiple(x - y, m);
    var k := (x - y) / m;
    assert x == (y / m + k) * m + y % m;
    DivModUnique(x, m, y / m + k, y % m);
  }

  /** Dropping whole turns of the 32-bit clock before a right shift by
      `SHIFT` changes the result by a multiple of `Modulus`: this is where
      `SHIFT + ALARM_SHIFT < 32` is needed. */
  lemma ShiftCongruent(p: Params, x: int, y: int)
    requires Valid(p)
    requires (x - y) % ULONG_MODULUS == 0
    ensures Congruent(p, x / Pow2(p.shift), y / Pow2(p.shift))
  {
    var s := Pow2(p.shift);
    var hi := Pow2(32 - p.shift);
    var gap := Pow2(32 - p.shift - p.bits);
    var m := Modulus(p);
    ClockSplits(p);
    DivisibleIsMultiple(x - y, ULONG_MODULUS);
    var k := (x - y) / ULONG_MODULUS;
    ShiftByMultiple(x, y, k, s, hi);
    MulAssoc(k, gap, m);
    MultipleMod(k * gap, m);
  }

  /** 2^32 is 2^SHIFT times a multiple of `Modulus`. */
  lemma ClockSplits(p: Params)
    requires Valid(p)
    ensures ULONG_MODULUS == Pow2(p.shift) * Pow2(32 - p.shift)
    ensures Pow2(32 - p.shift) == Pow2(32 - p.shift - p.bits) * Modulus(p)
  {
    Pow2Constants();
    Pow2Add(p.shift, 32 - p.shift);
    Pow2Add(32 - p.shift - p.bits, p.bits);
  }

  /** `Modulus` is twice `Half`. */
  lemma ModulusHalves(p: Params)
    requires Valid(p)
    ensures Modulus(p) == 2 * Half(p)
    ensures Half(p) >= 1
  {
  }

  /** Both candidate residues of `x` differ from it by a multiple of `m`. */
  lemma SignedResidue(x: int, m: int)
    requires m > 0
    ensures (x - x % m) % m == 0
    ensures (x - (x % m - m)) % m == 0
  {
    MultipleMod(x / m, m);
    assert x - x % m == (x / m) * m;
    MultipleMod(x / m + 1, m);
    assert x - (x % m - m) == (x / m + 1) * m;
  }

  /** Adding `k` whole multiples of `s * h` before dividing by `s` adds
      `k * h` to the quotient. */
  lemma ShiftByMultiple(x: int, y: int, k: int, s: int, h: int)
    requires s > 0
    requires x - y == k * (s * h)
    ensures x / s - y / s == k * h
  {
    MulAssoc(k, h, s);
    assert k * (s * h) == (k * h) * s;
    DivModUnique(x, s, y / s + k * h, y % s);
  }

  lemma MulSucc(k: int, d: int)
    ensures (k + 1) * d == k * d + d
  {
  }

  lemma MulAssoc(a: int, b: int, c: int)
    ensures a * (b * c) == (a * b) * c
    ensures a * (c * b) == (a * b) * c
  {
  }

  /** Reducing modulo `m` changes a number by a multiple of `m`. */
  lemma ModDiffDivisible(x: int, m: int)
    requires m > 0
    ensures (x % m - x) % m == 0
  {
    MultipleMod(-(x / m), m);
    assert x % m - x == -(x / m) * m;
  }

  // ---------------------------------------------------------------------
  // alarm_t

  /** Conversion of an integer to `alarm_t`: keep the low `bits` bits and
      read them as a two's complement number. */
  function ToAlarm(p: Params, x: int): (r: int)
    requires Valid(p)
    ensures InRange(p, r)
    ensures Congruent(p, x, r)
  {
    var m := x % Modulus(p);
    ModulusHalves(p);
    SignedResidue(x, Modulus(p));
    if m < Half(p) then m else m - Modulus(p)
  }

  /** Every `alarm_t` value converts to itself. */
  lemma ToAlarmFixes(p: Params, x: int)
    requires Valid(p)
    requires InRange(p, x)
    ensures ToAlarm(p, x) == x
  {
    var m := Modulus(p);
    ModulusHalves(p);
    if x >= 0 {
      DivModUnique(x, m, 0, x);
    } else {
      DivModUnique(x, m, -1, x + m);
    }
  }

  /** Two integers convert to the same `alarm_t` exactly when they agree in
      their low `bits` bits. */
  lemma ToAlarmCongruent(p: Params, x: int, y: int)
    requires Valid(p)
    ensures ToAlarm(p, x) == ToAlarm(p, y) <==> Congruent(p, x, y)
  {
    if Congruent(p, x, y) {
      CongruentMod(p, x, y);
    }
    if ToAlarm(p, x) == ToAlarm(p, y) {
      CongruentSym(p, y, ToAlarm(p, y));
      CongruentTrans(p, x, ToAlarm(p, x), y);
    }
  }

  /** `TIME_MAX = bit(ALARM_SHIFT) - 1`: the largest `alarm_t` value. */
  function TimeMax(p: Params): (r: int)
    requires Valid(p)
    ensures InRange(p, r)
    ensures !InRange(p, r + 1)
    ensures r == Half(p) - 1
  {
    ToAlarmFixes(p, Bit(p.bits - 1) - 1);
    ToAlarm(p, Bit(p.bits - 1) - 1)
  }

  // ---------------------------------------------------------------------
  // difference, compare, adjust

  /** `difference(now, time)`: `(now >> SHIFT) - time` as `alarm_t`. */
  function Difference(p: Params, now: Clock, time: int): (r: int)
    requires Valid(p)
    ensures InRange(p, r)
    ensures Congruent(p, now / Pow2(p.shift) - time, r)
  {
    ToAlarm(p, now / Pow2(p.shift) - time)
  }

  /** `compare(now, time)`: the signed difference is not negative. */
  predicate Compare(p: Params, now: Clock, time: int)
    requires Valid(p)
  {
    Difference(p, now, time) >= 0
  }

  /** `t / 2^s` rounded up, on unbounded integers: the value `adjust` is
      meant to compute. */
  function CeilShift(s: nat, t: int): (r: int)
  {
    (t + Pow2(s) - 1) / Pow2(s)
  }

  /** `CeilShift(s, t)` is the least `q` with `t <= q * 2^s`. */
  lemma CeilShiftIsCeiling(s: nat, t: int)
    ensures t <= CeilShift(s, t) * Pow2(s)
    ensures (CeilShift(s, t) - 1) * Pow2(s) < t
  {
    var b := Pow2(s);
    var q, r := (t + b - 1) / b, (t + b - 1) % b;
    assert t + b - 1 == q * b + r;
    assert (q - 1) * b == q * b - b;
  }

  /** `adjust(time)`: `(time + bit(SHIFT) - 1) >> SHIFT`, where the sum is
      an `unsigned long` and may wrap, converted to `alarm_t`.  The wrap
      never matters: the result agrees with the exact rounded-up quotient
      in every bit `alarm_t` keeps. */
  function Adjust(p: Params, time: Clock): (r: int)
    requires Valid(p)
    ensures InRange(p, r)
    ensures Congruent(p, r, CeilShift(p.shift, time))
  {
    var sum := (time + Bit(p.shift) - 1) % ULONG_MODULUS;
    var r := ToAlarm(p, sum / Pow2(p.shift));
    WrappedCeil(p, time);
    CongruentSym(p, sum / Pow2(p.shift), r);
    CongruentTrans(p, r, sum / Pow2(p.shift), CeilShift(p.shift, time));
    r
  }

  /** Rounding up with a wrapping `unsigned long` sum agrees with exact
      rounding up in the bits `alarm_t` keeps. */
  lemma WrappedCeil(p: Params, time: int)
    requires Valid(p)
    ensures Congruent(p, ((time + Pow2(p.shift) - 1) % ULONG_MODULUS) / Pow2(p.shift), CeilShift(p.shift, time))
  {
    var x := time + Pow2(p.shift) - 1;
    ModDiffDivisible(x, ULONG_MODULUS);
    ShiftCongruent(p, x % ULONG_MODULUS, x);
  }

  /** With `SHIFT == 0`, `adjust` is the plain conversion to `alarm_t`. */
  lemma AdjustWithoutShift(p: Params, time: Clock)
    requires Valid(p)
    requires p.shift == 0
    ensures Adjust(p, time) == ToAlarm(p, time)
    ensures p.bits == 32 && time < 0x8000_0000 ==> Adjust(p, time) == time
  {
    assert CeilShift(0, time) == time;
    ToAlarmFixes(p, Adjust(p, time));
    ToAlarmCongruent(p, Adjust(p, time), time);
    if p.bits == 32 && time < 0x8000_0000 {
      Pow2Constants();
      ToAlarmFixes(p, time);
    }
  }

  // ---------------------------------------------------------------------
  // The timer

  /** A `WAITER` instance: its `alarmTime`. */
  datatype Timer = Timer(alarmTime: int)

  /** The constructor `WAITER()`. */
  function Fresh(): (r: Timer)
  {
    Timer(0)
  }

  /** `set(duration)`: the alarm falls `duration` units after the rounded-up
      current time. */
  function Set(p: Params, now: Clock, duration: int): (w: Timer)
    requires Valid(p)
    requires InRange(p, duration)
    ensures InRange(p, w.alarmTime)
    ensures Congruent(p, w.alarmTime, CeilShift(p.shift, now) + duration)
  {
    var w := Timer(ToAlarm(p, Adjust(p, now) + duration));
    CongruentShift(p, Adjust(p, now), CeilShift(p.shift, now), duration);
    CongruentSym(p, Adjust(p, now) + duration, w.alarmTime);
    CongruentTrans(p, w.alarmTime, Adjust(p, now) + duration, CeilShift(p.shift, now) + duration);
    w
  }

  /** `reset()`, that is `set(0)`: the alarm is the adjusted current time. */
  function Reset(p: Params, now: Clock): (w: Timer)
    requires Valid(p)
    ensures w == Timer(Adjust(p, now))
  {
    ToAlarmFixes(p, Adjust(p, now));
    Set(p, now, 0)
  }

  /** `alarm(duration)`: `duration` units past the alarm time have come. */
  predicate Alarm(p: Params, w: Timer, now: Clock, duration: int)
    requires Valid(p)
    requires InRange(p, duration)
  {
    Compare(p, now, ToAlarm(p, w.alarmTime + duration))
  }

  /** The answer of `wait` or `repeat` and the timer after the call. */
  datatype Polled = Polled(fired: bool, timer: Timer)

  /** `wait(duration)`: when the alarm has come, rebase it to the same
      sample of the clock; otherwise leave it alone. */
  function Wait(p: Params, w: Timer, now: Clock, duration: int): (r: Polled)
    requires Valid(p)
    requires InRange(p, duration)
    ensures r.fired == Alarm(p, w, now, duration)
    ensures r.fired ==> r.timer == Reset(p, now)
    ensures !r.fired ==> r.timer == w
  {
    if Compare(p, now, ToAlarm(p, w.alarmTime + duration)) then
      Polled(true, Timer(Adjust(p, now)))
    else
      Polled(false, w)
  }

  /** `repeat(duration)`: when the alarm has come, move it on by exactly
      `duration`, whatever the clock says; otherwise leave it alone. */
  function Repeat(p: Params, w: Timer, now: Clock, duration: int): (r: Polled)
    requires Valid(p)
    requires InRange(p, duration)
    ensures r.fired == Alarm(p, w, now, duration)
    ensures r.fired ==> InRange(p, r.timer.alarmTime)
    ensures r.fired ==> Congruent(p, r.timer.alarmTime, w.alarmTime + duration)
    ensures !r.fired ==> r.timer == w
  {
    if Compare(p, now, ToAlarm(p, w.alarmTime + duration)) then
      CongruentSym(p, w.alarmTime + duration, ToAlarm(p, w.alarmTime + duration));
      Polled(true, Timer(ToAlarm(p, w.alarmTime + duration)))
    else
      Polled(false, w)
  }

  // ---------------------------------------------------------------------
  // Unit helpers

  /** `x * y` on `unsigned long`. */
  function MulULong(x: nat, y: nat): (r: Clock)
    ensures x * y < ULONG_MODULUS ==> r == x * y
  {
    (x * y) % ULONG_MODULUS
  }

  /** `ms(time)`. */
  function Ms(p: Params, time: Clock): (r: int)
    requires Valid(p)
    ensures InRange(p, r)
    ensures Congruent(p, r, CeilShift(p.shift, time))
  {
    Adjust(p, time)
  }

  /** `seconds(time)`: `adjust` of the 32-bit product, which is the exact
      product as long as it does not wrap. */
  function Seconds(p: Params, time: Clock): (r: int)
    requires Valid(p)
    ensures InRange(p, r)
    ensures Congruent(p, r, CeilShift(p.shift, (time * 1000) % ULONG_MODULUS))
    ensures time * 1000 < ULONG_MODULUS ==> Congruent(p, r, CeilShift(p.shift, time * 1000))
  {
    Adjust(p, MulULong(time, 1000))
  }

  /** `minutes(time)`: `adjust` of the chained 32-bit products, which are the
      exact product as long as they do not wrap. */
  function Minutes(p: Params, time: Clock): (r: int)
    requires Valid(p)
    ensures InRange(p, r)
    ensures Congruent(p, r, CeilShift(p.shift, ((time * 1000) % ULONG_MODULUS * 60) % ULONG_MODULUS))
    ensures time * 60000 < ULONG_MODULUS ==> Congruent(p, r, CeilShift(p.shift, time * 60000))
  {
    var t := MulULong(MulULong(time, 1000), 60);
    assert time * 60000 < ULONG_MODULUS ==> t == time * 60000;
    Adjust(p, t)
  }

  /** `hours(time)`: `adjust` of the chained 32-bit products, which are the
      exact product as long as they do not wrap. */
  function Hours(p: Params, time: Clock): (r: int)
    requires Valid(p)
    ensures InRange(p, r)
    ensures Congruent(p, r, CeilShift(p.shift,
      (((time * 1000) % ULONG_MODULUS * 60) % ULONG_MODULUS * 60) % ULONG_MODULUS))
    ensures time * 3600000 < ULONG_MODULUS ==> Congruent(p, r, CeilShift(p.shift, time * 3600000))
  {
    var t := MulULong(MulULong(MulULong(time, 1000), 60), 60);
    assert time * 3600000 < ULONG_MODULUS ==> t == time * 3600000;
    Adjust(p, t)
  }

  /** `days(time)`: `adjust` of the chained 32-bit products, which are the
      exact product as long as they do not wrap. */
  function Days(p: Params, time: Clock): (r: int)
    requires Valid(p)
    ensures InRange(p, r)
    ensures Congruent(p, r, CeilShift(p.shift,
      ((((time * 1000) % ULONG_MODULUS * 60) % ULONG_MODULUS * 60) % ULONG_MODULUS * 24) % ULONG_MODULUS))
    ensures time * 86400000 < ULONG_MODULUS ==> Congruent(p, r, CeilShift(p.shift, time * 86400000))
  {
    var t := MulULong(MulULong(MulULong(MulULong(time, 1000), 60), 60), 24);
    assert time * 86400000 < ULONG_MODULUS ==> t == time * 86400000;
    Adjust(p, t)
  }

  // ---------------------------------------------------------------------
  // Properties

  /** A fresh timer has its alarm at time 0, so it is due whenever the
      shifted clock lies in the first half of its `alarm_t` turn. */
  lemma FreshIsDue(p: Params, now: Clock)
    requires Valid(p)
    ensures Fresh().alarmTime == 0
    ensures Alarm(p, Fresh(), now, 0) <==> (now / Pow2(p.shift)) % Modulus(p) < Half(p)
  {
    ToAlarmFixes(p, 0);
  }

  /** `difference` computed from the wrapped clock and a converted target
      agrees with the conversion of the true difference. */
  lemma DifferenceTracksClock(p: Params, clock: nat, target: int)
    requires Valid(p)
    ensures Difference(p, clock % ULONG_MODULUS, ToAlarm(p, target))
         == ToAlarm(p, clock / Pow2(p.shift) - target)
  {
    var now: Clock := clock % ULONG_MODULUS;
    var s := Pow2(p.shift);
    var t := ToAlarm(p, target);
    ModDiffDivisible(clock, ULONG_MODULUS);
    ShiftCongruent(p, now, clock);
    // now >> SHIFT - t  agrees with  clock >> SHIFT - t  agrees with  clock >> SHIFT - target
    CongruentShift(p, now / s, clock / s, -t);
    CongruentSym(p, target, t);
    CongruentShift(p, t, target, clock / s);
    CongruentTrans(p, now / s - t, clock / s - t, clock / s - target);
    ToAlarmCongruent(p, now / s - t, clock / s - target);
  }

  /** Wrap-around safety of `compare`: let `clock` be the true, unbounded
      count of the time source, so that `now` is `clock` modulo 2^32, and
      let `target` be the true alarm time.  When the true gap fits in
      `alarm_t` (between `-bit(ALARM_SHIFT)` and `TIME_MAX`), `compare`
      answers exactly whether the target has been reached. */
  lemma CompareWrapSafe(p: Params, clock: nat, target: int)
    requires Valid(p)
    requires InRange(p, clock / Pow2(p.shift) - target)
    ensures Compare(p, clock % ULONG_MODULUS, ToAlarm(p, target)) <==> clock / Pow2(p.shift) >= target
  {
    DifferenceTracksClock(p, clock, target);
    ToAlarmFixes(p, clock / Pow2(p.shift) - target);
  }

  /** The bound in `CompareWrapSafe` is tight: one unit past `TIME_MAX`
      the signed difference wraps to the most negative value, and an alarm
      that is long overdue reads as not yet due. */
  lemma CompareWrapsPastTimeMax(p: Params, clock: nat, target: int)
    requires Valid(p)
    requires clock / Pow2(p.shift) - target == TimeMax(p) + 1
    ensures clock / Pow2(p.shift) >= target
    ensures !Compare(p, clock % ULONG_MODULUS, ToAlarm(p, target))
  {
    var gap := clock / Pow2(p.shift) - target;
    DifferenceTracksClock(p, clock, target);
    assert gap == Half(p);
    ModulusHalves(p);
    DivModUnique(gap, Modulus(p), 0, gap);
    assert ToAlarm(p, gap) == -(Half(p) as int);
  }

  /** Rounding up the wrapped clock sample of true time `start` agrees
      with rounding up `start` itself in the bits `alarm_t` keeps. */
  lemma CeilOfWrapped(p: Params, start: int)
    requires Valid(p)
    ensures Congruent(p, CeilShift(p.shift, start % ULONG_MODULUS), CeilShift(p.shift, start))
  {
    var s0 := start % ULONG_MODULUS;
    var k := Pow2(p.shift);
    var a := s0 + k - 1;
    var b := start + k - 1;
    ModDiffDivisible(start, ULONG_MODULUS);
    assert a - b == s0 - start;
    ShiftCongruent(p, a, b);
  }

  /** The alarm time `set(d)` stores at the wrapped clock sample of true
      time `start`, moved on by `e`, agrees in the bits `alarm_t` keeps
      with the exact deadline: the rounded-up true start plus `d + e`. */
  lemma SetAlarmCongruent(p: Params, start: nat, d: int, e: int)
    requires Valid(p)
    requires InRange(p, d)
    ensures Congruent(p, Set(p, start % ULONG_MODULUS, d).alarmTime + e,
                      CeilShift(p.shift, start) + d + e)
  {
    var a := Set(p, start % ULONG_MODULUS, d).alarmTime;
    var c0 := CeilShift(p.shift, start % ULONG_MODULUS);
    var c1 := CeilShift(p.shift, start);
    var x0 := c0 + d;
    var x1 := c1 + d;
    CeilOfWrapped(p, start);
    CongruentShift(p, c0, c1, d);
    CongruentTrans(p, a, x0, x1);
    CongruentShift(p, a, x1, e);
  }

  /** After `set(d)` at true clock `start`, `alarm(e)` at true clock `clock`
      is true exactly when the shifted clock has reached the rounded-up
      start plus `d + e`, provided that gap fits in `alarm_t`. */
  lemma AlarmAfterSet(p: Params, start: nat, clock: nat, d: int, e: int)
    requires Valid(p)
    requires InRange(p, d) && InRange(p, e)
    requires InRange(p, clock / Pow2(p.shift) - (CeilShift(p.shift, start) + d + e))
    ensures Alarm(p, Set(p, start % ULONG_MODULUS, d), clock % ULONG_MODULUS, e)
        <==> clock / Pow2(p.shift) >= CeilShift(p.shift, start) + d + e
  {
    var x := Set(p, start % ULONG_MODULUS, d).alarmTime + e;
    var target := CeilShift(p.shift, start) + d + e;
    SetAlarmCongruent(p, start, d, e);
    ToAlarmCongruent(p, x, target);
    CompareWrapSafe(p, clock, target);
  }


  /** `now / 2^s` falls short of `CeilShift(s, now)` by one exactly when
      `now` is not a multiple of 2^s. */
  lemma FloorBelowCeil(s: nat, now: nat)
    ensures now / Pow2(s) - CeilShift(s, now) == if now % Pow2(s) == 0 then 0 else -1
  {
    var b := Pow2(s);
    var q, r := now / b, now % b;
    if r == 0 {
      DivModUnique(now + b - 1, b, q, b - 1);
    } else {
      DivModUnique(now + b - 1, b, q + 1, r - 1);
    }
  }

  /** Right after `reset()`, at the same clock sample, the signed
      difference is the rounded-down clock less the rounded-up clock. */
  lemma DifferenceAtReset(p: Params, now: Clock)
    requires Valid(p)
    ensures Difference(p, now, Adjust(p, now)) == now / Pow2(p.shift) - CeilShift(p.shift, now)
  {
    var a := Adjust(p, now);
    var c := CeilShift(p.shift, now);
    var q := now / Pow2(p.shift);
    var g := q - c;
    FloorBelowCeil(p.shift, now);
    CongruentShift(p, a, c, q);
    ToAlarmCongruent(p, q - a, g);
    ModulusHalves(p);
    ToAlarmFixes(p, g);
  }

  /** `alarm()` right after `reset()`, at the same clock sample, is true
      exactly when the sample is a multiple of 2^SHIFT: `adjust` rounds the
      alarm up while `difference` rounds the clock down.  So with
      `SHIFT == 0` it is always true. */
  lemma AlarmRightAfterReset(p: Params, now: Clock)
    requires Valid(p)
    ensures Alarm(p, Reset(p, now), now, 0) <==> now % Pow2(p.shift) == 0
    ensures p.shift == 0 ==> Alarm(p, Reset(p, now), now, 0)
  {
    var a := Adjust(p, now);
    assert ToAlarm(p, a + 0) == a by { ToAlarmFixes(p, a); }
    DifferenceAtReset(p, now);
    FloorBelowCeil(p.shift, now);
    assert Pow2(0) == 1;
  }


  /** For `WaitSec`, `WAITER<int16_t, 10>`, `alarm()` right after `reset()`
      at the same sample is true only on whole multiples of 1024 ms. */
  lemma WaitSecAlarmRightAfterReset(now: Clock)
    ensures Alarm(SecondsParams, Reset(SecondsParams, now), now, 0) <==> now % 1024 == 0
  {
    Pow2Of8();
    assert Pow2(10) == 4 * Pow2(8);
    AlarmRightAfterReset(SecondsParams, now);
  }

  /** The three polls test the same condition. */
  lemma PollsAgree(p: Params, w: Timer, now: Clock, duration: int)
    requires Valid(p)
    requires InRange(p, duration)
    ensures Wait(p, w, now, duration).fired == Repeat(p, w, now, duration).fired
    ensures Wait(p, w, now, duration).fired == Compare(p, now, ToAlarm(p, w.alarmTime + duration))
  {
  }

  /** The timer and the number of accepted calls after `repeat(duration)`
      is polled at each of the clock samples in turn. */
  datatype Run = Run(timer: Timer, fired: nat)

  function RepeatRun(p: Params, w: Timer, nows: seq<Clock>, duration: int): (r: Run)
    requires Valid(p)
    requires InRange(p, duration)
    decreases |nows|
  {
    if |nows| == 0 then
      Run(w, 0)
    else
      var first := Repeat(p, w, nows[0], duration);
      var rest := RepeatRun(p, first.timer, nows[1..], duration);
      Run(rest.timer, rest.fired + if first.fired then 1 else 0)
  }

  /** One accepted `repeat` followed by `k` more lands where `k + 1` steps
      from the start would. */
  lemma RepeatStep(p: Params, a: int, a1: int, k: int, d: int)
    requires Valid(p)
    requires Congruent(p, a1, a + d)
    ensures ToAlarm(p, a1 + k * d) == ToAlarm(p, a + (k + 1) * d)
  {
    var kd := k * d;
    MulSucc(k, d);
    CongruentShift(p, a1, a + d, kd);
    assert a + d + kd == a + (k + 1) * d;
    ToAlarmCongruent(p, a1 + kd, a + (k + 1) * d);
  }

  /** `repeat` is phase locked: however late the calls come, after `k`
      accepted calls the alarm is exactly `k * duration` past where it
      started, modulo the width of `alarm_t`. */
  lemma {:induction false} RepeatNoDrift(p: Params, w: Timer, nows: seq<Clock>, duration: int)
    requires Valid(p)
    requires InRange(p, duration)
    requires InRange(p, w.alarmTime)
    ensures RepeatRun(p, w, nows, duration).timer.alarmTime
         == ToAlarm(p, w.alarmTime + RepeatRun(p, w, nows, duration).fired * duration)
    decreases |nows|
  {
    var r := RepeatRun(p, w, nows, duration);
    if |nows| == 0 {
      ToAlarmFixes(p, w.alarmTime);
    } else {
      var first := Repeat(p, w, nows[0], duration);
      var rest := RepeatRun(p, first.timer, nows[1..], duration);
      var k := rest.fired;
      RepeatNoDrift(p, first.timer, nows[1..], duration);
      assert r.timer == rest.timer;
      if first.fired {
        assert r.fired == k + 1;
        RepeatStep(p, w.alarmTime, first.timer.alarmTime, k, duration);
      } else {
        assert r.fired == k;
        assert first.timer == w;
      }
    }
  }
}
