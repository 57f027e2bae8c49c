/** Model of the Enttec framing decoder `EnttecClass` of
    arduino/enttec/enttectest.h.

    The decoder is a record and `read` is a pure step function: it takes
    the record, one input code and the current sample of the millisecond
    clock, and returns the new record together with the trace of calls
    the decoder makes on its DMX sink and on its hooks.  The sink keeps
    nothing the decoder reads back, so the trace is all of it. */
module Enttec {
  import Useful
  import Waiter

  /** `byte` / `unsigned char`. */
  type Byte = x: int | 0 <= x < 0x100

  /** `unsigned int` on the AVR targets: 16 bits. */
  type UInt = x: int | 0 <= x < 0x1_0000

  /** The enumerators of `state`. */
  const START: Byte := 0
  const COMMAND: Byte := 1
  const LOWCHAN: Byte := 2
  const HIGHCHAN: Byte := 3
  const DATA: Byte := 4
  const FINISH: Byte := 5

  /** The framing constants a `ConstsClass` provides (pin numbers are left
      out). */
  datatype Consts = Consts(
    charBase: Byte,
    enttecStart: Byte,
    enttecSend: Byte,
    enttecFinish: Byte,
    idleTime: Waiter.Clock,
    absMaxChannels: UInt)

  /** `EnttecConsts`: the standard framing. */
  const EnttecConsts: Consts := Consts(0, 0x7E, 0x06, 0xE7, 200, 512)

  /** `ManualConsts`: framing typed on a keyboard, offset by a space. */
  const ManualConsts: Consts := Consts(
    ' ' as int, 'S' as int - ' ' as int, 'C' as int - ' ' as int, 'F' as int - ' ' as int,
    200, 512)

  /** The calls the decoder makes: `dmx.maxChannel(n)`, `dmx.write(i, v)`,
      `error(tag)` and `ok()`. */
  datatype Event =
    | MaxChannel(channels: int)
    | Write(channel: int, value: Byte)
    | Error(message: char)
    | Ok

  /** The fields of `EnttecClass`; `led` is the level written to `ledPin`.
      The decoder only ever changes its `Waiter timer` through `reset()`,
      so the timer is kept as `resetAt`, the clock sample of the last
      `reset()`; the `WAITER` itself is `Restart(resetAt)`. */
  datatype Decoder = Decoder(
    state: Byte,
    ch: Byte,
    readMaxChannels: UInt,
    maxChannels: UInt,
    count: UInt,
    resetAt: Waiter.Clock,
    led: bool)

  /** A decoder and the calls it made to get there. */
  datatype Step = Step(dec: Decoder, events: seq<Event>)

  /** The decoder's `Waiter timer` is `WAITER<>`: `int32_t`, no shift. */
  const TimerParams: Waiter.Params := Waiter.MillisParams

  /** `consts.idleTime` passed as an `alarm_t` duration. */
  function IdleDuration(c: Consts): (r: int)
    ensures Waiter.InRange(TimerParams, r)
    ensures Waiter.Congruent(TimerParams, c.idleTime, r)
  {
    Waiter.ToAlarm(TimerParams, c.idleTime)
  }

  /** The timer `reset()` leaves at clock sample `now`. */
  function Restart(now: Waiter.Clock): (t: Waiter.Timer)
    ensures t.alarmTime == Waiter.Adjust(TimerParams, now)
  {
    Waiter.Reset(TimerParams, now)
  }

  /** `timer.alarm(consts.idleTime)` at clock sample `now`, for the timer
      last reset at sample `resetAt`, in closed form: the 32-bit residue of
      `now - resetAt - idleTime` reads as a non-negative `int32_t`.
      IdleAlarmIsWaiterAlarm shows this is the WAITER's own answer. */
  predicate IdleAlarm(c: Consts, resetAt: Waiter.Clock, now: Waiter.Clock)
  {
    (now - resetAt - c.idleTime) % 0x1_0000_0000 < 0x8000_0000
  }

  /** The closed form is the sign of the `int32_t` conversion of
      `now - (resetAt + idleTime)`. */
  lemma IdleAlarmIsSign(c: Consts, resetAt: Waiter.Clock, now: Waiter.Clock)
    ensures IdleAlarm(c, resetAt, now)
        <==> Waiter.ToAlarm(TimerParams, now - (resetAt + c.idleTime)) >= 0
  {
    assert Waiter.Modulus(TimerParams) == 0x1_0000_0000;
    assert Waiter.Half(TimerParams) == 0x8000_0000;
    assert now - (resetAt + c.idleTime) == now - resetAt - c.idleTime;
  }

  /** Converting the sum of two values to `int32_t` keeps it congruent to
      the sum of anything congruent to them. */
  lemma SumCongruent(x: int, a: int, y: int, b: int)
    requires Waiter.Congruent(TimerParams, x, a)
    requires Waiter.Congruent(TimerParams, y, b)
    ensures Waiter.Congruent(TimerParams, x + y, Waiter.ToAlarm(TimerParams, a + b))
  {
    var p := TimerParams;
    Waiter.CongruentShift(p, x, a, y);
    Waiter.CongruentShift(p, y, b, a);
    Waiter.CongruentTrans(p, x + y, a + y, a + b);
    Waiter.CongruentTrans(p, x + y, a + b, Waiter.ToAlarm(p, a + b));
  }

  /** With no shift, `difference(now, t)` depends only on `t` modulo 2^32. */
  lemma DifferenceOfCongruent(now: Waiter.Clock, x: int, y: int, t: int)
    requires Waiter.Congruent(TimerParams, x + y, t)
    ensures Waiter.Difference(TimerParams, now, t) == Waiter.ToAlarm(TimerParams, now - (x + y))
  {
    var p := TimerParams;
    var s := x + y;
    Waiter.CongruentShift(p, s, t, now);
    Waiter.ToAlarmCongruent(p, now - s, now - t);
    assert Useful.Pow2(0) == 1;
  }

  /** The timer `reset()` leaves at `now` holds `now` in all 32 bits. */
  lemma RestartCongruent(now: Waiter.Clock)
    ensures Waiter.Congruent(TimerParams, now, Restart(now).alarmTime)
  {
    Waiter.AdjustWithoutShift(TimerParams, now);
  }

  /** With an alarm time agreeing with `x` and a duration agreeing with
      `y` in all 32 bits, `alarm(duration)` is the sign of the `int32_t`
      conversion of `now - (x + y)`. */
  lemma AlarmIsSign(w: Waiter.Timer, now: Waiter.Clock, dur: int, x: int, y: int)
    requires Waiter.InRange(TimerParams, dur)
    requires Waiter.Congruent(TimerParams, x, w.alarmTime)
    requires Waiter.Congruent(TimerParams, y, dur)
    ensures Waiter.Alarm(TimerParams, w, now, dur)
        <==> Waiter.ToAlarm(TimerParams, now - (x + y)) >= 0
  {
    var a := w.alarmTime;
    var t := Waiter.ToAlarm(TimerParams, a + dur);
    SumCongruent(x, a, y, dur);
    DifferenceOfCongruent(now, x, y, t);
  }

  /** For any timer whose alarm time agrees with `resetAt` in all 32 bits,
      `alarm(consts.idleTime)` is the closed form. */
  lemma IdleAlarmOfCongruent(c: Consts, resetAt: Waiter.Clock, w: Waiter.Timer, now: Waiter.Clock)
    requires Waiter.Congruent(TimerParams, resetAt, w.alarmTime)
    ensures IdleAlarm(c, resetAt, now) <==> Waiter.Alarm(TimerParams, w, now, IdleDuration(c))
  {
    AlarmIsSign(w, now, IdleDuration(c), resetAt, c.idleTime);
    IdleAlarmIsSign(c, resetAt, now);
  }

  /** The closed form agrees, on every clock sample, with `alarm` on the
      timer `reset()` left at `resetAt`. */
  lemma IdleAlarmIsWaiterAlarm(c: Consts, resetAt: Waiter.Clock, now: Waiter.Clock)
    ensures IdleAlarm(c, resetAt, now)
        <==> Waiter.Alarm(TimerParams, Restart(resetAt), now, IdleDuration(c))
  {
    RestartCongruent(resetAt);
    IdleAlarmOfCongruent(c, resetAt, Restart(resetAt), now);
  }

  /** `ch = ch_ - consts.charBase`, stored in an `unsigned char`. */
  function Ch(c: Consts, code: int): (r: Byte)
  {
    (code - c.charBase) % 0x100
  }

  /** `++state` on a `byte`. */
  function Next(s: Byte): (r: Byte)
  {
    (s + 1) % 0x100
  }

  /** The condition under which `read` abandons a frame: a start delimiter
      arrives mid-frame while `idle`, the answer of
      `timer.alarm(consts.idleTime)`, holds. */
  predicate IdleResync(c: Consts, d: Decoder, ch: Byte, idle: bool)
  {
    d.state != START && ch == c.enttecStart && idle
  }

  // ---------------------------------------------------------------------
  // The members of EnttecClass.  Each takes `now`, the clock sample of
  // the current `read`, at which any `timer.reset()` of the call happens.

  /** `reset()`: forget the channel count, tell the sink, restart the idle
      timer and put the LED out.  `state` is left alone. */
  function Reset(d: Decoder, now: Waiter.Clock): (r: Step)
  {
    Step(d.(maxChannels := 0, resetAt := now, led := false), [MaxChannel(0)])
  }

  /** The `error(tag)` hook: both implementations report the tag and then
      call `reset()`. */
  function ErrorHook(d: Decoder, tag: char, now: Waiter.Clock): (r: Step)
  {
    var s := Reset(d, now);
    Step(s.dec, [Error(tag)] + s.events)
  }

  /** The `ok()` hook: light the LED. */
  function OkHook(s: Step): (r: Step)
  {
    Step(s.dec.(led := true), s.events + [Ok])
  }

  /** `matches(match)`: advance on the expected byte; otherwise report
      `'M'` and go back to START.  Also answers whether it matched. */
  function Matches(d: Decoder, expected: Byte, now: Waiter.Clock): (r: (Step, bool))
  {
    if d.ch == expected then
      (Step(d.(state := Next(d.state)), []), true)
    else
      var e := ErrorHook(d, 'M', now);
      (Step(e.dec.(state := START), e.events), false)
  }

  /** The FINISH case: test the finish delimiter, call `ok()` when it
      matches, and go back to START either way. */
  function FinishCase(c: Consts, d: Decoder, now: Waiter.Clock): (r: Step)
  {
    var (s, matched) := Matches(d, c.enttecFinish, now);
    var s' := if matched then OkHook(s) else s;
    Step(s'.dec.(state := START), s'.events)
  }

  /** The HIGHCHAN case: add the high byte to the declared count and check
      it.  The two `break`s after an error skip `++state`. */
  function HighChanCase(c: Consts, d: Decoder, now: Waiter.Clock): (r: Step)
  {
    var declared: UInt := (d.readMaxChannels + d.ch * 0x100) % 0x1_0000;
    var d1 := d.(readMaxChannels := declared);
    if d1.maxChannels != declared then
      if declared <= c.absMaxChannels then
        var d2 := d1.(maxChannels := declared);
        if declared == 0 then
          var e := ErrorHook(d2, '0', now);
          Step(e.dec, [MaxChannel(0)] + e.events)
        else
          Step(d2.(count := 0, state := Next(d2.state)), [MaxChannel(declared)])
      else
        ErrorHook(d1, 'C', now)
    else
      Step(d1.(count := 0, state := Next(d1.state)), [])
  }

  /** The DATA case: pass the byte on while channels remain; once all are
      filled, fall through to FINISH with the same byte. */
  function DataCase(c: Consts, d: Decoder, now: Waiter.Clock): (r: Step)
  {
    if d.count < d.maxChannels then
      Step(d.(count := d.count + 1), [Write(d.count, d.ch)])
    else
      FinishCase(c, d.(state := Next(d.state)), now)
  }

  /** The `switch( state )` of `read`. */
  function Dispatch(c: Consts, d: Decoder, now: Waiter.Clock): (r: Step)
  {
    if d.state == START then
      Matches(d, c.enttecStart, now).0
    else if d.state == COMMAND then
      Matches(d, c.enttecSend, now).0
    else if d.state == LOWCHAN then
      Step(d.(readMaxChannels := d.ch, state := Next(d.state)), [])
    else if d.state == HIGHCHAN then
      HighChanCase(c, d, now)
    else if d.state == DATA then
      DataCase(c, d, now)
    else if d.state == FINISH then
      FinishCase(c, d, now)
    else
      Step(d, [])
  }

  /** `read(ch_)` once the clock has been sampled: `idle` is the answer of
      the idle test on the old timer and `now` the sample at which
      `reset()` restarts it.  A code below `charBase` is ignored outright; every other
      code leaves the idle timer restarted, whatever else happens. */
  function ReadAt(c: Consts, d: Decoder, code: int, idle: bool, now: Waiter.Clock): (r: Step)
    ensures code < c.charBase ==> r == Step(d, [])
    ensures code >= c.charBase ==> r.dec.resetAt == now
  {
    if code < c.charBase then
      Step(d, [])
    else
      var ch := Ch(c, code);
      var d1 := d.(ch := ch);
      var s1 := if IdleResync(c, d, ch, idle) then
          var e := ErrorHook(d1, 'R', now);
          Step(e.dec.(state := START), e.events)
        else
          Step(d1, []);
      var s2 := Dispatch(c, s1.dec.(resetAt := now), now);
      Step(s2.dec, s1.events + s2.events)
  }

  /** `read(ch_)` at clock sample `now`: the idle test and every `reset()`
      of the call see the same sample. */
  function Read(c: Consts, d: Decoder, code: int, now: Waiter.Clock): (r: Step)
  {
    ReadAt(c, d, code, IdleAlarm(c, d.resetAt, now), now)
  }

  /** One input: a code and the clock sample at which it arrives. */
  datatype Input = Input(code: int, now: Waiter.Clock)

  /** The calls `events` made ahead of the step `s`. */
  function Then(events: seq<Event>, s: Step): (r: Step)
  {
    Step(s.dec, events + s.events)
  }

  lemma ThenThen(a: seq<Event>, b: seq<Event>, s: Step)
    ensures Then(a, Then(b, s)) == Then(a + b, s)
  {
    assert a + (b + s.events) == (a + b) + s.events;
  }

  /** `read` applied to each input in turn, collecting the calls. */
  function ReadSeq(c: Consts, d: Decoder, inputs: seq<Input>): (r: Step)
    decreases |inputs|, 1
  {
    if |inputs| == 0 then Step(d, []) else ReadFirst(c, d, inputs)
  }

  /** The first `read` of a non-empty run, then the rest of the run. */
  function ReadFirst(c: Consts, d: Decoder, inputs: seq<Input>): (r: Step)
    requires |inputs| > 0
    decreases |inputs|, 0
  {
    var first := Read(c, d, inputs[0].code, inputs[0].now);
    Then(first.events, ReadSeq(c, first.dec, inputs[1..]))
  }

  /** A whole run of `read` calls.  Proofs about runs step through them
      with `ReadAllNil` and `ReadAllFirst`. */
  function ReadAll(c: Consts, d: Decoder, inputs: seq<Input>): (r: Step)
  {
    ReadSeq(c, d, inputs)
  }

  /** An empty run changes nothing and calls nothing. */
  lemma ReadAllNil(c: Consts, d: Decoder)
    ensures ReadAll(c, d, []) == Step(d, [])
  {
  }

  /** A run whose first `read` gives `s` is the calls of `s` followed by
      the run of the rest from the decoder `s` leaves. */
  lemma ReadAllFirst(c: Consts, d: Decoder, inputs: seq<Input>, s: Step)
    requires |inputs| > 0
    requires Read(c, d, inputs[0].code, inputs[0].now) == s
    ensures ReadAll(c, d, inputs) == Then(s.events, ReadAll(c, s.dec, inputs[1..]))
  {
    assert ReadSeq(c, d, inputs) == ReadFirst(c, d, inputs);
  }

  /** A statically allocated decoder before `dmxInit()`: every field zero.
      The timer as its constructor leaves it is the one a reset at sample
      0 leaves (`FreshIsRestartAtZero`). */
  const Zeroed: Decoder := Decoder(START, 0, 0, 0, 0, 0, false)

  /** The `WAITER()` constructor and `reset()` at clock sample 0 leave the
      same timer, so a zero `resetAt` stands for a fresh timer. */
  lemma FreshIsRestartAtZero()
    ensures Restart(Zeroed.resetAt) == Waiter.Fresh()
  {
    Waiter.AdjustWithoutShift(TimerParams, 0);
  }

  /** The decoder after `dmxInit()` at clock sample `now` (the pin and
      delay calls are left out; its last act is `reset()`). */
  function Init(now: Waiter.Clock): (r: Step)
  {
    Reset(Zeroed, now)
  }

  // ---------------------------------------------------------------------
  // Properties of one call of read

  /** What holds of the decoder between calls: `state` is one of the six
      enumerators, the configured channel count is within the ceiling, and
      in DATA the write index has not passed it. */
  predicate Valid(c: Consts, d: Decoder)
  {
    && d.state <= FINISH
    && d.maxChannels <= c.absMaxChannels
    && (d.state == DATA ==> d.count <= d.maxChannels)
  }

  /** `dmxInit()` leaves a valid decoder in START with no channels, and
      tells the sink so. */
  lemma InitIsValid(c: Consts, now: Waiter.Clock)
    ensures Valid(c, Init(now).dec)
    ensures Init(now).dec.state == START && Init(now).dec.maxChannels == 0
    ensures Init(now).events == [MaxChannel(0)]
  {
  }

  /** Past the `charBase` filter and without a resync, `read` stores the
      byte, restarts the timer and dispatches on `state`. */
  lemma ReadDispatches(c: Consts, d: Decoder, code: int, idle: bool, now: Waiter.Clock)
    requires code >= c.charBase
    requires !IdleResync(c, d, Ch(c, code), idle)
    ensures ReadAt(c, d, code, idle, now)
         == Dispatch(c, d.(ch := Ch(c, code), resetAt := now), now)
  {
  }

  /** Past the `charBase` filter and with a resync, `read` reports `'R'`,
      resets, forces START and then dispatches on the same byte. */
  lemma ReadResyncs(c: Consts, d: Decoder, code: int, idle: bool, now: Waiter.Clock)
    requires code >= c.charBase
    requires IdleResync(c, d, Ch(c, code), idle)
    ensures ReadAt(c, d, code, idle, now).events
         == [Error('R'), MaxChannel(0)]
          + Dispatch(c, d.(ch := Ch(c, code), state := START, maxChannels := 0, led := false,
                           resetAt := now), now).events
    ensures ReadAt(c, d, code, idle, now).dec
         == Dispatch(c, d.(ch := Ch(c, code), state := START, maxChannels := 0, led := false,
                           resetAt := now), now).dec
  {
  }

  /** `read` keeps `Valid`, and every call it makes on the sink respects
      the ceiling: channel counts at most `absMaxChannels`, writes below
      the configured count. */
  lemma ReadKeepsValid(c: Consts, d: Decoder, code: int, idle: bool, now: Waiter.Clock)
    requires Valid(c, d)
    ensures Valid(c, ReadAt(c, d, code, idle, now).dec)
    ensures forall e | e in ReadAt(c, d, code, idle, now).events ::
      && (e.MaxChannel? ==> 0 <= e.channels <= c.absMaxChannels)
      && (e.Write? ==> 0 <= e.channel < ReadAt(c, d, code, idle, now).dec.maxChannels)
  {
    if code < c.charBase {
    } else if IdleResync(c, d, Ch(c, code), idle) {
      IdleResyncRestarts(c, d, code, idle, now);
    } else if d.state == START || d.state == COMMAND {
      DelimiterStep(c, d, code, idle, now);
    } else if d.state == LOWCHAN {
      LowChanStep(c, d, code, idle, now);
    } else if d.state == HIGHCHAN {
      HighChanStep(c, d, code, idle, now);
    } else if d.state == DATA && d.count < d.maxChannels {
      DataStep(c, d, code, idle, now);
    } else {
      FinishStep(c, d, code, idle, now);
    }
  }

  /** Idle resynchronisation: the error is `'R'`, the decoder is forced to
      START, and the same start byte then opens a new frame, so the call
      ends in COMMAND with the channel count cleared. */
  lemma IdleResyncRestarts(c: Consts, d: Decoder, code: int, idle: bool, now: Waiter.Clock)
    requires code >= c.charBase
    requires IdleResync(c, d, Ch(c, code), idle)
    ensures ReadAt(c, d, code, idle, now).events == [Error('R'), MaxChannel(0)]
    ensures ReadAt(c, d, code, idle, now).dec
         == d.(ch := c.enttecStart, state := COMMAND, maxChannels := 0, led := false,
               resetAt := now)
  {
    ReadResyncs(c, d, code, idle, now);
  }

  /** START and COMMAND: the expected delimiter advances `state` by one
      and changes nothing else; any other byte reports `'M'`, returns to
      START and, through `reset()`, drops the channel count. */
  lemma DelimiterStep(c: Consts, d: Decoder, code: int, idle: bool, now: Waiter.Clock)
    requires code >= c.charBase
    requires d.state == START || d.state == COMMAND
    requires !IdleResync(c, d, Ch(c, code), idle)
    ensures var expected := if d.state == START then c.enttecStart else c.enttecSend;
      var r := ReadAt(c, d, code, idle, now);
      && (Ch(c, code) == expected ==>
            && r.events == []
            && r.dec == d.(ch := expected, state := d.state + 1,
                           resetAt := now))
      && (Ch(c, code) != expected ==>
            && r.events == [Error('M'), MaxChannel(0)]
            && r.dec == d.(ch := Ch(c, code), state := START, maxChannels := 0, led := false,
                           resetAt := now))
  {
    ReadDispatches(c, d, code, idle, now);
  }

  /** LOWCHAN: the byte is the low half of the declared count. */
  lemma LowChanStep(c: Consts, d: Decoder, code: int, idle: bool, now: Waiter.Clock)
    requires code >= c.charBase
    requires d.state == LOWCHAN
    requires !IdleResync(c, d, Ch(c, code), idle)
    ensures ReadAt(c, d, code, idle, now).events == []
    ensures ReadAt(c, d, code, idle, now).dec
         == d.(ch := Ch(c, code), readMaxChannels := Ch(c, code), state := HIGHCHAN,
               resetAt := now)
  {
    ReadDispatches(c, d, code, idle, now);
  }

  /** HIGHCHAN: the byte is added as the high half of the declared count
      (in 16 bits).  A count equal to the configured one starts the data
      without telling the sink; a new count within the ceiling is passed
      on; a new count of 0 or one above the ceiling is an error that
      leaves the decoder in HIGHCHAN with no channels. */
  lemma HighChanStep(c: Consts, d: Decoder, code: int, idle: bool, now: Waiter.Clock)
    requires code >= c.charBase
    requires d.state == HIGHCHAN
    requires d.maxChannels <= c.absMaxChannels
    requires !IdleResync(c, d, Ch(c, code), idle)
    ensures var declared := (d.readMaxChannels + Ch(c, code) * 0x100) % 0x1_0000;
      var r := ReadAt(c, d, code, idle, now);
      var d' := d.(ch := Ch(c, code), readMaxChannels := declared,
                   resetAt := now);
      && r.dec.readMaxChannels == declared
      && (declared == d.maxChannels ==>
            r.events == [] && r.dec == d'.(count := 0, state := DATA))
      && (declared != d.maxChannels && 0 < declared <= c.absMaxChannels ==>
            && r.events == [MaxChannel(declared)]
            && r.dec == d'.(maxChannels := declared, count := 0, state := DATA))
      && (declared != d.maxChannels && declared == 0 ==>
            && r.events == [MaxChannel(0), Error('0'), MaxChannel(0)]
            && r.dec == d'.(maxChannels := 0, led := false))
      && (declared > c.absMaxChannels ==>
            && r.events == [Error('C'), MaxChannel(0)]
            && r.dec == d'.(maxChannels := 0, led := false))
  {
    ReadDispatches(c, d, code, idle, now);
    var d0 := d.(ch := Ch(c, code), resetAt := now);
    assert ReadAt(c, d, code, idle, now) == HighChanCase(c, d0, now);
  }

  /** DATA with channels left: the byte goes to the next channel. */
  lemma DataStep(c: Consts, d: Decoder, code: int, idle: bool, now: Waiter.Clock)
    requires code >= c.charBase
    requires d.state == DATA
    requires d.count < d.maxChannels
    requires !IdleResync(c, d, Ch(c, code), idle)
    ensures ReadAt(c, d, code, idle, now).events == [Write(d.count, Ch(c, code))]
    ensures ReadAt(c, d, code, idle, now).dec
         == d.(ch := Ch(c, code), count := d.count + 1, resetAt := now)
  {
    ReadDispatches(c, d, code, idle, now);
  }

  /** `read` tests the byte against the finish delimiter in FINISH, and in
      DATA once every channel has been written. */
  predicate AtFinish(d: Decoder)
  {
    d.state == FINISH || (d.state == DATA && d.count >= d.maxChannels)
  }

  /** The finish test: `ok()` on the delimiter, `'M'` otherwise, and START
      afterwards either way. */
  lemma FinishStep(c: Consts, d: Decoder, code: int, idle: bool, now: Waiter.Clock)
    requires code >= c.charBase
    requires AtFinish(d)
    requires !IdleResync(c, d, Ch(c, code), idle)
    ensures var r := ReadAt(c, d, code, idle, now);
      && (Ch(c, code) == c.enttecFinish ==>
            && r.events == [Ok]
            && r.dec == d.(ch := c.enttecFinish, state := START, led := true,
                           resetAt := now))
      && (Ch(c, code) != c.enttecFinish ==>
            && r.events == [Error('M'), MaxChannel(0)]
            && r.dec == d.(ch := Ch(c, code), state := START, maxChannels := 0, led := false,
                           resetAt := now))
  {
    ReadDispatches(c, d, code, idle, now);
  }

  /** Off the finish test, no call of `read` reaches `ok()`. */
  lemma NoOkOffFinish(c: Consts, d: Decoder, code: int, idle: bool, now: Waiter.Clock)
    requires code < c.charBase || !AtFinish(d) || IdleResync(c, d, Ch(c, code), idle)
    ensures Ok !in ReadAt(c, d, code, idle, now).events
  {
    if code < c.charBase {
    } else if IdleResync(c, d, Ch(c, code), idle) {
      IdleResyncRestarts(c, d, code, idle, now);
    } else if d.state == START || d.state == COMMAND {
      DelimiterStep(c, d, code, idle, now);
    } else if d.state == LOWCHAN {
      LowChanStep(c, d, code, idle, now);
    } else if d.state == DATA {
      DataStep(c, d, code, idle, now);
    } else if d.state == HIGHCHAN {
      ReadDispatches(c, d, code, idle, now);
      HighChanNoOk(c, d.(ch := Ch(c, code), resetAt := now), now);
    } else {
      ReadDispatches(c, d, code, idle, now);
    }
  }

  /** The HIGHCHAN case never calls `ok()`. */
  lemma HighChanNoOk(c: Consts, d: Decoder, now: Waiter.Clock)
    ensures Ok !in HighChanCase(c, d, now).events
  {
  }

  /** `ok()` is called exactly when the finish delimiter is tested and
      matches. */
  lemma OkOnlyOnFinish(c: Consts, d: Decoder, code: int, idle: bool, now: Waiter.Clock)
    ensures Ok in ReadAt(c, d, code, idle, now).events
        <==> && code >= c.charBase
             && AtFinish(d)
             && !IdleResync(c, d, Ch(c, code), idle)
             && Ch(c, code) == c.enttecFinish
  {
    if code >= c.charBase && AtFinish(d) && !IdleResync(c, d, Ch(c, code), idle) {
      FinishStep(c, d, code, idle, now);
    } else {
      NoOkOffFinish(c, d, code, idle, now);
    }
  }
}
