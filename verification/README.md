# Enttec decoder and WAITER timer

A Dafny model of the firmware side of the cheerlights DMX bridge. It has three parts.

- **The `EnttecClass` frame decoder** (arduino/enttec/enttectest.h). It is fed one serial code per `read` call. It strips `charBase` and follows the Enttec framing through six states: START, COMMAND, LOWCHAN, HIGHCHAN, DATA and FINISH. It reads a little-endian channel count and checks it against `absMaxChannels`. It passes data bytes to a DMX sink and reports through the `error(tag)` and `ok()` hooks. A `Waiter` timer lets it resynchronise when a start delimiter arrives after an idle gap.
- **The `WAITER` alarm timer template** (arduino/libraries/Waiter/Waiter.h). It is generic over a signed `alarm_t` and a `SHIFT`. Its comparisons must stay right when the 32-bit clock wraps.
- **The `incmod`, `decmod` and `bit` macros** (arduino/libraries/Useful/Useful.h).

The modules follow the source files:

- `Useful` (useful.dfy);
- `Waiter` (waiter.dfy);
- `Enttec` (enttec.dfy), which holds one `read` and its hooks;
- `EnttecFrames` (enttec_frames.dfy), which holds runs of `read` over whole frames and the worked examples.

**How it is modelled.**

- The decoder is an immutable record. `read` is a pure step function.
- Each step returns the new record and the trace of calls the decoder made on its sink and hooks: `MaxChannel(n)`, `Write(i, v)`, `Error(tag)` and `Ok`.
- The time source `TIMER()` is a `now` parameter.
- The constant sets `EnttecConsts` (enttectest.h:181-192) and `ManualConsts` (enttectest.h:213-219) are values of the `Consts` datatype.
- The decoder's timer is stored as `resetAt`, the clock sample of its last `reset()`. The decoder only ever changes that timer through `reset()`, and otherwise only polls it with `alarm()`, so this loses nothing. `Enttec.Restart(resetAt)` is the `WAITER` itself. `Enttec.IdleAlarmIsWaiterAlarm` proves that the closed-form idle test equals the `WAITER`'s `alarm`.

**A zero-length header does not always raise `'0'`.** enttectest.h:137 compares the declared count with the configured one before it tests for zero. After any reset the configured count is 0, so a declared 0 enters DATA silently and the frame reaches `ok()` (`EnttecFrames.ZeroFrameAfterInit`). `'0'` is raised only once channels are configured (`EnttecFrames.ZeroFrameRejected`).

## Model

| member | source | states |
|---|---|---|
| Useful.Bit | arduino/libraries/Useful/Useful.h:32 | for every shift below 32, `1ul << x` loses no bit and is exactly 2^x, between 1 and 2^32 - 1 |
| Useful.IncMod | arduino/libraries/Useful/Useful.h:30 | for `0 <= v < m`, the stored value stays in [0, m) and is `v + 1` modulo m |
| Useful.DecMod | arduino/libraries/Useful/Useful.h:31 | for `0 <= v < m`, the stored value stays in [0, m) and is `v - 1` modulo m |
| Useful.DecModUndoesIncMod | arduino/libraries/Useful/Useful.h:30-31 | on [0, m), `decmod` after `incmod` gives back the original value |
| Useful.IncModUndoesDecMod | arduino/libraries/Useful/Useful.h:30-31 | on [0, m), `incmod` after `decmod` gives back the original value |
| Waiter.Half | arduino/libraries/Waiter/Waiter.h:59 | `bit(ALARM_SHIFT)` is 2^(bits-1) for each of the three widths |
| Waiter.ShiftCongruent | arduino/libraries/Waiter/Waiter.h:61-65 | dropping whole turns of the 32-bit clock before `>> SHIFT` changes the result by a multiple of 2^bits; this is where the `OVERFLOW` guard `SHIFT + ALARM_SHIFT < 32` is used |
| Waiter.ToAlarm | arduino/libraries/Waiter/Waiter.h:58-59 | converting to `alarm_t` gives a value in the signed range that agrees with the input in the low `bits` bits |
| Waiter.ToAlarmFixes | arduino/libraries/Waiter/Waiter.h:58-59 | an `alarm_t` value converts to itself |
| Waiter.ToAlarmCongruent | arduino/libraries/Waiter/Waiter.h:58-59 | two integers convert to the same `alarm_t` if and only if they agree in their low `bits` bits |
| Waiter.TimeMax | arduino/libraries/Waiter/Waiter.h:67 | `TIME_MAX` is the largest `alarm_t` value, 2^(bits-1) - 1: one more is out of range |
| Waiter.Difference | arduino/libraries/Waiter/Waiter.h:80-82 | `difference` is in range and agrees with `(now >> SHIFT) - time` in the low `bits` bits |
| Waiter.CeilShiftIsCeiling | arduino/libraries/Waiter/Waiter.h:91-96 | the rounding `adjust` aims at is the least q with `t <= q * 2^SHIFT` |
| Waiter.Adjust | arduino/libraries/Waiter/Waiter.h:94-96 | `adjust(t)` is in range and agrees with the exact rounded-up `t / 2^SHIFT` in every bit `alarm_t` keeps, although the 32-bit sum may wrap |
| Waiter.WrappedCeil | arduino/libraries/Waiter/Waiter.h:94-96 | the wrap of the `unsigned long` sum in `adjust` does not change the rounded quotient modulo 2^bits |
| Waiter.AdjustWithoutShift | arduino/libraries/Waiter/Waiter.h:94-96 | with `SHIFT == 0`, `adjust` is the plain conversion to `alarm_t`, and the identity on `int32_t` values below 2^31 |
| Waiter.Set | arduino/libraries/Waiter/Waiter.h:103-105 | after `set(d)` the alarm time is in range and agrees with the rounded-up clock plus `d` |
| Waiter.Reset | arduino/libraries/Waiter/Waiter.h:110-112 | `reset()`, as `set(0)`, leaves the alarm time at exactly `adjust(now)` |
| Waiter.Wait | arduino/libraries/Waiter/Waiter.h:126-133 | `wait` fires exactly when `alarm(d)` would; when it fires the timer is the one `reset()` at the same sample leaves; otherwise the timer is unchanged |
| Waiter.Repeat | arduino/libraries/Waiter/Waiter.h:138-144 | `repeat` fires exactly when `alarm(d)` would; when it fires the alarm moves on by `d` modulo 2^bits, whatever the clock says; otherwise the timer is unchanged |
| Waiter.PollsAgree | arduino/libraries/Waiter/Waiter.h:119-144 | `alarm`, `wait` and `repeat` answer the same test, `compare(now, alarmTime + d)` |
| Waiter.MulULong | arduino/libraries/Waiter/Waiter.h:158-181 | a product of `unsigned long` values is the exact product when it does not wrap |
| Waiter.Ms | arduino/libraries/Waiter/Waiter.h:151-153 | `ms(t)` is in range and agrees with the rounded-up `t / 2^SHIFT` |
| Waiter.Seconds | arduino/libraries/Waiter/Waiter.h:158-160 | `seconds(t)` is in range and is `adjust` of the wrapped 32-bit product `t * 1000`, which is exact when it does not wrap |
| Waiter.Minutes | arduino/libraries/Waiter/Waiter.h:165-167 | `minutes(t)` is in range and is `adjust` of the chained wrapped products `t * 1000 * 60`, exact when they do not wrap |
| Waiter.Hours | arduino/libraries/Waiter/Waiter.h:172-174 | `hours(t)` is in range and is `adjust` of the chained wrapped products `t * 1000 * 60 * 60`, exact when they do not wrap |
| Waiter.Days | arduino/libraries/Waiter/Waiter.h:179-181 | `days(t)` is in range and is `adjust` of the chained wrapped products `t * 1000 * 60 * 60 * 24`, exact when they do not wrap |
| Waiter.FreshIsDue | arduino/libraries/Waiter/Waiter.h:71-73 | a fresh timer's alarm time is 0, and `alarm()` on it is true exactly when the shifted clock lies in the first half of an `alarm_t` turn |
| Waiter.DifferenceTracksClock | arduino/libraries/Waiter/Waiter.h:80-82 | `difference` on the wrapped clock sample equals the conversion of the true difference between the unbounded clock and the target |
| Waiter.CompareWrapSafe | arduino/libraries/Waiter/Waiter.h:80-89 | when the true gap between the shifted unbounded clock and the target fits in `alarm_t`, `compare` on the wrapped sample answers exactly whether the target has been reached |
| Waiter.CompareWrapsPastTimeMax | arduino/libraries/Waiter/Waiter.h:67-89 | the bound is tight: one unit past `TIME_MAX`, an alarm that is due reads as not due |
| Waiter.CeilOfWrapped | arduino/libraries/Waiter/Waiter.h:94-96 | rounding up the wrapped clock sample agrees, modulo 2^bits, with rounding up the true time |
| Waiter.SetAlarmCongruent | arduino/libraries/Waiter/Waiter.h:103-105 | the alarm time `set(d)` stores at a wrapped sample, moved on by `e`, agrees modulo 2^bits with the exact deadline |
| Waiter.AlarmAfterSet | arduino/libraries/Waiter/Waiter.h:103-121 | after `set(d)` at true time `start`, `alarm(e)` at true time `clock` is true exactly when the shifted clock has reached the rounded-up start plus `d + e`, provided the gap fits in `alarm_t` |
| Waiter.DifferenceAtReset | arduino/libraries/Waiter/Waiter.h:80-96 | at the sample of a `reset()`, `difference` is the rounded-down clock less the rounded-up clock |
| Waiter.AlarmRightAfterReset | arduino/libraries/Waiter/Waiter.h:110-121 | `alarm()` right after `reset()` at the same sample is true exactly when the sample is a multiple of 2^SHIFT, so always when `SHIFT == 0` |
| Waiter.WaitSecAlarmRightAfterReset | arduino/libraries/Waiter/Waiter.h:110-121 | for `WaitSec` (`WAITER<int16_t, 10>`, Waiter.h:188), `alarm()` right after `reset()` at the same sample is true exactly when the sample is a multiple of 1024 ms |
| Waiter.RepeatNoDrift | arduino/libraries/Waiter/Waiter.h:138-144 | over any sequence of polls, after k accepted `repeat(d)` calls the alarm is exactly the start plus k times d, modulo 2^bits |
| Enttec.IdleDuration | arduino/enttec/enttectest.h:115 | `consts.idleTime` passed as an `int32_t` duration is in range and agrees with `idleTime` modulo 2^32 |
| Enttec.Restart | arduino/enttec/enttectest.h:119 | the timer `timer.reset()` leaves at sample `now` holds `adjust(now)` |
| Enttec.RestartCongruent | arduino/enttec/enttectest.h:119 | that timer agrees with `now` in all 32 bits |
| Enttec.IdleAlarmIsSign | arduino/enttec/enttectest.h:115 | the closed-form idle test is the sign of the `int32_t` conversion of `now - (resetAt + idleTime)` |
| Enttec.AlarmIsSign | arduino/libraries/Waiter/Waiter.h:119-121 | for `WAITER<>`, `alarm(d)` is the sign of the `int32_t` conversion of `now - (alarm time + d)`, computed from any values congruent to them |
| Enttec.IdleAlarmOfCongruent | arduino/enttec/enttectest.h:115 | for any timer whose alarm time agrees with `resetAt`, `timer.alarm(idleTime)` is the closed-form idle test |
| Enttec.IdleAlarmIsWaiterAlarm | arduino/enttec/enttectest.h:115 | the closed-form idle test equals `alarm(idleTime)` on the timer `reset()` left at `resetAt`, at every clock sample |
| Enttec.ReadAt | arduino/enttec/enttectest.h:108-119 | a code below `charBase` changes nothing and calls nothing; every other code leaves the timer reset at `now` |
| Enttec.FreshIsRestartAtZero | arduino/libraries/Waiter/Waiter.h:71-73 | the `WAITER()` constructor leaves the same timer as a `reset()` at sample 0 |
| Enttec.InitIsValid | arduino/enttec/enttectest.h:54-74 | on the zero-initialised decoder, `dmxInit()`'s final `reset()` leaves it valid, in START, with no channels, and tells the sink 0 channels |
| Enttec.IdleResyncRestarts | arduino/enttec/enttectest.h:115-124 | an idle resync reports `'R'` then `MaxChannel(0)`, and the same byte opens a new frame, so the call ends in COMMAND with no channels |
| Enttec.DelimiterStep | arduino/enttec/enttectest.h:93-128 | in START and COMMAND the expected byte advances `state` by one and changes nothing else; any other byte reports `'M'`, resets and returns to START |
| Enttec.LowChanStep | arduino/enttec/enttectest.h:130-133 | in LOWCHAN the byte is stored as the low half of the count and the decoder moves to HIGHCHAN |
| Enttec.HighChanStep | arduino/enttec/enttectest.h:135-154 | in HIGHCHAN the declared count is the stored count plus 256 times the byte, in 16 bits. If it equals the configured count, the decoder enters DATA silently. A new count within the ceiling is passed to the sink before entering DATA. A new 0 gives `MaxChannel(0)` then `'0'`, and a count above the ceiling gives `'C'`; both leave the decoder in HIGHCHAN with no channels |
| Enttec.HighChanNoOk | arduino/enttec/enttectest.h:135-154 | the HIGHCHAN case never calls `ok()` |
| Enttec.DataStep | arduino/enttec/enttectest.h:156-161 | in DATA with channels left, the byte is written to channel `count` and `count` grows by one |
| Enttec.FinishStep | arduino/enttec/enttectest.h:156-171 | in FINISH, and in DATA once every channel is written, the finish byte calls `ok()` and anything else reports `'M'`; START follows either way |
| Enttec.ReadKeepsValid | arduino/enttec/enttectest.h:108-173 | `read` keeps `state` among the six values, the configured count within the ceiling and `count <= maxChannels` in DATA; every `MaxChannel` call is within the ceiling and every write is below the configured count |
| Enttec.NoOkOffFinish | arduino/enttec/enttectest.h:121-171 | off the finish test, no `read` calls `ok()` |
| Enttec.OkOnlyOnFinish | arduino/enttec/enttectest.h:166-171 | `read` calls `ok()` if and only if the code passes the filter, the finish test is reached without a resync, and the byte is the finish delimiter |
| EnttecFrames.Code | arduino/enttec/enttectest.h:112 | adding `charBase` to a framing byte gives a code that passes the filter and decodes back to that byte |
| EnttecFrames.PromptFirst | arduino/enttec/enttectest.h:115 | the first input of a run with no late start delimiter does not resynchronise |
| EnttecFrames.ReadAllAppend | arduino/enttec/enttectest.h:108-173 | feeding `a + b` is feeding `a`, then `b` from where `a` left the decoder |
| EnttecFrames.DelimiterThen | arduino/enttec/enttectest.h:121-128 | a START or COMMAND `read` at the head of a run either moves on silently or reports `'M'` and resets |
| EnttecFrames.LowChanThen | arduino/enttec/enttectest.h:130-133 | a LOWCHAN `read` at the head of a run stores the low count byte |
| EnttecFrames.HighChanThen | arduino/enttec/enttectest.h:135-154 | a HIGHCHAN `read` at the head of a run has the four outcomes of the count check |
| EnttecFrames.HighChanErrorThen | arduino/enttec/enttectest.h:137-149 | a `'0'` or `'C'` header error keeps the decoder in HIGHCHAN, holding the count it computed and no channels |
| EnttecFrames.HighByteCount | arduino/enttec/enttectest.h:136 | whatever its outcome, a HIGHCHAN `read` leaves the 16-bit sum of the stored count and 256 times the byte |
| EnttecFrames.WriteThen | arduino/enttec/enttectest.h:156-161 | a DATA `read` with a channel left writes one channel |
| EnttecFrames.FinishThen | arduino/enttec/enttectest.h:163-171 | the finish test at the head of a run calls `ok()` or reports `'M'`, and returns to START |
| EnttecFrames.ResyncThen | arduino/enttec/enttectest.h:115-124 | a late start delimiter outside START at the head of a run reports `'R'` and opens a new frame |
| EnttecFrames.DataThen | arduino/enttec/enttectest.h:156-161 | in DATA with room, the data bytes of a run are written in order to consecutive channels from `count` on |
| EnttecFrames.PreambleThen | arduino/enttec/enttectest.h:121-133 | start delimiter, send command and low count byte bring the decoder from START to HIGHCHAN without a call |
| EnttecFrames.LowHighBytes | arduino/enttec/enttectest.h:130-136 | a count below 2^16 sent low byte first is rebuilt exactly by `readMaxChannels += ch << 8` |
| EnttecFrames.HighByteThen | arduino/enttec/enttectest.h:135-154 | an accepted high byte enters DATA with the count; the sink is told only if the count changed |
| EnttecFrames.HeaderThen | arduino/enttec/enttectest.h:121-154 | from START, a header declaring an accepted count enters DATA with that count |
| EnttecFrames.FrameDelivered | arduino/enttec/enttectest.h:108-173 | from START, a frame with an accepted count gives `MaxChannel(n)` if the count changed, then writes channels 0 to n - 1 in order, then calls `ok()`. It ends in START with n channels and the LED lit |
| EnttecFrames.ZeroFrameRejected | arduino/enttec/enttectest.h:137-149 | with channels configured, an empty frame reports `'0'` and stays in HIGHCHAN; its finish byte is added as another high byte and reports `'C'`; `ok()` is never called |
| EnttecFrames.HeaderErrorReadsAnotherHighByte | arduino/enttec/enttectest.h:136-148 | after a `'0'` or `'C'` error the decoder stays in HIGHCHAN, and the next byte is added on top as another high byte, modulo 2^16 |
| EnttecFrames.IdleAlarmTracksGap | arduino/enttec/enttectest.h:115 | on the wrapping clock, the idle test fires exactly when `idleTime` ms of true time have passed since the last reset, while that gap fits in `int32_t` |
| EnttecFrames.GapResyncs | arduino/enttec/enttectest.h:115-124 | a start delimiter at least `idleTime` ms after the last reset, outside START, reports `'R'` and opens a new frame |
| EnttecFrames.FullFrameExample | arduino/enttec/enttectest.h:108-192 | after `dmxInit()`, the standard three-channel frame sets 3 channels, writes 0x11, 0x22 and 0x33 to channels 0 to 2, and calls `ok()` |
| EnttecFrames.KeyboardFrameExample | arduino/enttec/enttectest.h:108-219 | with the keyboard framing (`ManualConsts`), typing `S C ! <space> A F` after `dmxInit()` sets 1 channel, writes `'A' - ' '` to channel 0, calls `ok()` and ends in START with the LED on |
| EnttecFrames.ZeroFrameAfterInit | arduino/enttec/enttectest.h:137 | after `dmxInit()` an empty frame raises no `'0'` and reaches `ok()` |
| EnttecFrames.ZeroFrameAfterFrameExample | arduino/enttec/enttectest.h:137-148 | after a frame configured 3 channels, an empty frame reports `'0'` and then `'C'`, and ends in HIGHCHAN |
| EnttecFrames.OverCeilingExample | arduino/enttec/enttectest.h:138-148 | a declared count of 513 reports `'C'` and leaves the decoder in HIGHCHAN with no channels |
| EnttecFrames.SendMismatchAlone | arduino/enttec/enttectest.h:93-103 | in COMMAND, a byte that is neither the send command nor a start delimiter reports `'M'` and returns to START with no channels |
| EnttecFrames.MismatchThen | arduino/enttec/enttectest.h:121-128 | from START, a start delimiter followed by a wrong send byte reports `'M'` and ends in START with no channels |
| EnttecFrames.MismatchExample | arduino/enttec/enttectest.h:93-128 | with the standard framing, `0x7E 0x99` reports `'M'` and ends in START with no channels |
| EnttecFrames.IdleResyncExample | arduino/enttec/enttectest.h:115-124 | `0x7E 0x06`, then at least 200 ms of silence, then `0x7E`: the decoder reports `'R'` and expects a send byte next |

## Left out

- Enttec.ReadAt: the integer widths are those of the AVR targets: `int` and `unsigned int` are 16 bits, `byte` and `unsigned char` are 8 bits, and `clock_t` is 32 bits. In particular `readMaxChannels += ch << 8` is taken modulo 2^16. After a `'C'` error has left 0xFF00 in `readMaxChannels`, a further high byte of 0x01 wraps the count to 0. On a target with a 32-bit `unsigned int` the count would be 65536 and raise `'C'`.
- Enttec.ReadAt: one clock sample per call. The source reads `TIMER()` separately for the idle test (Waiter.h:120), for `timer.reset()` (enttectest.h:119), and for the `reset()` of a later `'M'`, `'0'` or `'C'` error (enttectest.h:72). The model uses a single `now` for all of them. The clock does not stop during a call, so the real timer ends at the last of those samples. `resetAt == now` holds only under the one-sample assumption.
- Waiter.Set: `alarmTime + duration` and the other `alarm_t` sums are taken as two's-complement wrap-around. In C++ a signed overflow is undefined behaviour; the model assumes two's-complement wrap-around for these sums.
- Enttec.ReadAt: the `error` hook is modelled as "report the tag, then `reset()`". That is what both implementations do (enttectest.h:79-81 and 247-253). The Serial logging of `EnttecTest::error` is left out.
- `dmxInit` (enttectest.h:54-64): the pin modes, `digitalWrite`, `delay` and `usePin` calls are hardware setup. Only its final `reset()` is modelled (`Enttec.Init`). The LED is a boolean, set by `ok()` and cleared by `reset()`.
- `DmxTestClass`, `DmxDummyClass` and `SKPangConsts` (enttectest.h:197-272): a logging sink, a no-op sink and pin numbers. The sink is the recorded trace.
- The DMX transmitter (arduino/libraries/DmxSimple/DmxSimple.h) is not part of this model: only its declarations are visible. It is represented by the `MaxChannel` and `Write` events.
- htdocs/cheerlights.js is not part of this model. It is browser code for network polling and DOM updates.
- The `TIMER()` template argument and `millis` (Waiter.h:50): the clock is a `now` parameter.
- The `WaitSec` and other typedefs (Waiter.h:185-217) are instances of `Params`. Only `WAITER<>`, which the decoder uses, and `WAITER<int16_t, 10>` are named.
- The `freeMemory` and `printFreeMemory` debug code, the `assert` typedef trick and the `length` and `quote` macros (Useful.h:28-68): they are debug or compile-time only.
- `Enttec.Read` and `Enttec.Matches` carry no contracts of their own. Their behaviour is stated by the `Enttec.ReadAt` contract and by the step lemmas (`Enttec.DelimiterStep`, `Enttec.FinishStep`, `Enttec.IdleAlarmIsWaiterAlarm`).
- Several members that model source code carry no contracts of their own. Lemmas about them state their behaviour instead:
  - `Waiter.Compare` (Waiter.h:87-89): `Waiter.CompareWrapSafe`, `Waiter.CompareWrapsPastTimeMax`, `Waiter.PollsAgree`.
  - `Waiter.Alarm` (Waiter.h:119-121): `Waiter.AlarmAfterSet`, `Waiter.AlarmRightAfterReset`, `Waiter.PollsAgree`.
  - `Waiter.Fresh` (Waiter.h:71-73): `Waiter.FreshIsDue`, `Enttec.FreshIsRestartAtZero`.
  - `Enttec.Reset` and `Enttec.ErrorHook` (enttectest.h:69-81, 247-253): `Enttec.DelimiterStep`, `Enttec.HighChanStep`, `Enttec.IdleResyncRestarts`.
  - `Enttec.OkHook` (enttectest.h:86-88): `Enttec.FinishStep`, `Enttec.OkOnlyOnFinish`.
  - `Enttec.Init` (enttectest.h:54-64): `Enttec.InitIsValid`.
  - `Enttec.Dispatch`, `Enttec.HighChanCase`, `Enttec.DataCase` and `Enttec.FinishCase` (enttectest.h:121-171): `Enttec.HighChanStep`, `Enttec.HighChanNoOk`, `Enttec.DataStep`, `Enttec.FinishStep`. The lemmas `Enttec.ReadDispatches` and `Enttec.ReadResyncs` only unfold `Enttec.ReadAt` into its two branches for these step lemmas; they state nothing beyond its body, so they have no row.
  - `Enttec.Next` (`++state` on a `byte`, enttectest.h:95, 132, 153, 163): `Enttec.DelimiterStep`, `Enttec.LowChanStep`, `Enttec.HighChanStep`.
  - `Enttec.IdleResync` (the resync condition, enttectest.h:115): `Enttec.IdleResyncRestarts`, `EnttecFrames.GapResyncs`.
  - `Useful.ShiftLeftULong` (the `1ul << x` of Useful.h:32): `Useful.Bit`.
  - `Waiter.Valid` (the `ALARM_SHIFT` and `OVERFLOW` template constraint, Waiter.h:59-65): `Waiter.ShiftCongruent`.
  - `Enttec.Ch` (enttectest.h:112): `EnttecFrames.Code`, which is its inverse.
  - `Enttec.IdleAlarm` (enttectest.h:115): `Enttec.IdleAlarmIsWaiterAlarm`, `Enttec.IdleAlarmIsSign`, `EnttecFrames.IdleAlarmTracksGap`.
- `Enttec.Init`: `dmxInit()` and `reset()` never write `state`, `count`, `readMaxChannels` or `ch`. They start at 0 (START) only because the decoder is a zero-initialised static object. The model assumes this and starts from `Enttec.Zeroed`. `Enttec.InitIsValid`, `EnttecFrames.FullFrameExample`, `EnttecFrames.KeyboardFrameExample` and `EnttecFrames.ZeroFrameAfterInit` rest on that assumption.
