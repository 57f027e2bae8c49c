/** Whole Enttec frames fed through the decoder of
    arduino/enttec/enttectest.h, one `read` per code: a well-formed frame
    is delivered in full, the two header quirks of the code, and the
    worked examples of the framing.

    The run lemmas are stated as "this prefix of the inputs makes these
    calls and leaves this decoder, then the rest of the run follows", so
    that they compose by plain substitution. */
module EnttecFrames {
  import opened Useful
  import Waiter
  import opened Enttec

  /** The raw code that decodes to framing byte `v`. */
  function Code(c: Consts, v: Byte): (code: int)
    ensures code >= c.charBase
    ensures Ch(c, code) == v
  {
    v + c.charBase
  }

  /** The inputs begin with the codes of `bytes`. */
  predicate StartsWith(c: Consts, inputs: seq<Input>, bytes: seq<Byte>)
  {
    && |inputs| >= |bytes|
    && forall i | 0 <= i < |bytes| :: inputs[i].code == Code(c, bytes[i])
  }

  /** A frame carrying `data`: start and send delimiters, the channel count
      low byte first, the data, the finish delimiter. */
  function FrameBytes(c: Consts, data: seq<Byte>): (r: seq<Byte>)
    requires |data| < 0x1_0000
  {
    [c.enttecStart, c.enttecSend, |data| % 0x100, |data| / 0x100] + data + [c.enttecFinish]
  }

  /** The sink writes of `data` placed from channel `k` on. */
  function Writes(k: int, data: seq<Byte>): (r: seq<Event>)
  {
    seq(|data|, i requires 0 <= i < |data| => Write(k + i, data[i]))
  }

  /** The sample of the last timer reset before input `i` of a run that
      starts with the timer reset at `t`: every input of a frame passes
      the `charBase` filter, so each one resets the timer at its own clock
      sample. */
  function ResetBefore(t: Waiter.Clock, inputs: seq<Input>, i: int): (r: Waiter.Clock)
    requires 0 <= i <= |inputs|
  {
    if i == 0 then t else inputs[i - 1].now
  }

  /** No start delimiter of the run arrives once the idle timeout has run
      out, so the run never resynchronises. */
  predicate Prompt(c: Consts, t: Waiter.Clock, inputs: seq<Input>)
  {
    forall i | 0 <= i < |inputs| ::
      !(Ch(c, inputs[i].code) == c.enttecStart && IdleAlarm(c, ResetBefore(t, inputs, i), inputs[i].now))
  }

  lemma PromptSuffix(c: Consts, t: Waiter.Clock, inputs: seq<Input>, k: int)
    requires Prompt(c, t, inputs)
    requires 0 <= k <= |inputs|
    ensures Prompt(c, ResetBefore(t, inputs, k), inputs[k..])
  {
    forall i | 0 <= i < |inputs| - k
      ensures ResetBefore(ResetBefore(t, inputs, k), inputs[k..], i) == ResetBefore(t, inputs, k + i)
    {
    }
  }

  /** A run holding no start delimiter is always prompt. */
  lemma PromptWithoutStart(c: Consts, t: Waiter.Clock, inputs: seq<Input>)
    requires forall i | 0 <= i < |inputs| :: Ch(c, inputs[i].code) != c.enttecStart
    ensures Prompt(c, t, inputs)
  {
  }

  /** The first input of a prompt run does not resynchronise. */
  lemma PromptFirst(c: Consts, d: Decoder, inputs: seq<Input>)
    requires |inputs| > 0
    requires Prompt(c, d.resetAt, inputs)
    ensures !IdleResync(c, d, Ch(c, inputs[0].code), IdleAlarm(c, d.resetAt, inputs[0].now))
  {
    assert ResetBefore(d.resetAt, inputs, 0) == d.resetAt;
  }

  lemma WritesSplit(k: int, data: seq<Byte>)
    requires |data| > 0
    ensures Writes(k, data) == [Write(k, data[0])] + Writes(k + 1, data[1..])
  {
  }

  /** A run is its first `read`, sampled at that input's clock, followed
      by the rest of the run. */
  lemma ReadAllStep(c: Consts, d: Decoder, inputs: seq<Input>)
    requires |inputs| > 0
    ensures var x := inputs[0];
      var s := ReadAt(c, d, x.code, IdleAlarm(c, d.resetAt, x.now), x.now);
      ReadAll(c, d, inputs) == Then(s.events, ReadAll(c, s.dec, inputs[1..]))
  {
    ReadAllFirst(c, d, inputs, Read(c, d, inputs[0].code, inputs[0].now));
  }

  /** A run is the run of its first input followed by the rest. */
  lemma ReadAllHead(c: Consts, d: Decoder, inputs: seq<Input>)
    requires |inputs| > 0
    ensures var h := ReadAll(c, d, inputs[..1]);
      ReadAll(c, d, inputs) == Then(h.events, ReadAll(c, h.dec, inputs[1..]))
  {
    var s := Read(c, d, inputs[0].code, inputs[0].now);
    ReadAllFirst(c, d, inputs, s);
    ReadAllFirst(c, d, inputs[..1], s);
    assert inputs[..1][1..] == [];
    ReadAllNil(c, s.dec);
    assert s.events + [] == s.events;
    assert ReadAll(c, d, inputs[..1]) == s;
  }

  /** Feeding `a + b` is feeding `a` and then `b`. */
  lemma {:induction false} ReadAllAppend(c: Consts, d: Decoder, a: seq<Input>, b: seq<Input>)
    ensures var ra := ReadAll(c, d, a);
      ReadAll(c, d, a + b) == Then(ra.events, ReadAll(c, ra.dec, b))
    decreases |a|
  {
    if |a| == 0 {
      assert a + b == b;
      ReadAllNil(c, d);
    } else {
      var h := ReadAll(c, d, a[..1]);
      var r1 := ReadAll(c, h.dec, a[1..]);
      assert (a + b)[..1] == a[..1];
      assert (a + b)[1..] == a[1..] + b;
      calc {
        ReadAll(c, d, a + b);
        { ReadAllHead(c, d, a + b); }
        Then(h.events, ReadAll(c, h.dec, a[1..] + b));
        { ReadAllAppend(c, h.dec, a[1..], b); }
        Then(h.events, Then(r1.events, ReadAll(c, r1.dec, b)));
        { ThenThen(h.events, r1.events, ReadAll(c, r1.dec, b));
          ReadAllHead(c, d, a); }
        Then(ReadAll(c, d, a).events, ReadAll(c, ReadAll(c, d, a).dec, b));
      }
    }
  }

  // ---------------------------------------------------------------------
  // One prompt `read` at the head of a run

  /** START and COMMAND at the head of a run: the expected delimiter moves
      on without a call, anything else reports `'M'` and resets.  In START
      the resync test cannot fire, so only COMMAND needs promptness. */
  lemma DelimiterThen(c: Consts, d: Decoder, inputs: seq<Input>)
    requires |inputs| > 0 && inputs[0].code >= c.charBase
    requires d.state == START || d.state == COMMAND
    requires d.state == START || Prompt(c, d.resetAt, inputs)
    ensures var x := inputs[0];
      var ch := Ch(c, x.code);
      var expected := if d.state == START then c.enttecStart else c.enttecSend;
      && (ch == expected ==>
            ReadAll(c, d, inputs)
            == ReadAll(c, d.(ch := ch, state := d.state + 1, resetAt := x.now), inputs[1..]))
      && (ch != expected ==>
            ReadAll(c, d, inputs)
            == Then([Error('M'), MaxChannel(0)],
                    ReadAll(c, d.(ch := ch, state := START, maxChannels := 0, led := false,
                                  resetAt := x.now), inputs[1..])))
  {
    var x := inputs[0];
    if d.state != START {
      PromptFirst(c, d, inputs);
    }
    ReadAllStep(c, d, inputs);
    DelimiterStep(c, d, x.code, IdleAlarm(c, d.resetAt, x.now), x.now);
  }

  /** LOWCHAN at the head of a run: the low count byte is stored. */
  lemma LowChanThen(c: Consts, d: Decoder, inputs: seq<Input>)
    requires |inputs| > 0 && inputs[0].code >= c.charBase
    requires d.state == LOWCHAN
    requires Prompt(c, d.resetAt, inputs)
    ensures var x := inputs[0];
      ReadAll(c, d, inputs)
      == ReadAll(c, d.(ch := Ch(c, x.code), readMaxChannels := Ch(c, x.code), state := HIGHCHAN,
                       resetAt := x.now), inputs[1..])
  {
    var x := inputs[0];
    PromptFirst(c, d, inputs);
    ReadAllStep(c, d, inputs);
    LowChanStep(c, d, x.code, IdleAlarm(c, d.resetAt, x.now), x.now);
  }

  /** HIGHCHAN at the head of a run, in its four outcomes. */
  lemma HighChanThen(c: Consts, d: Decoder, inputs: seq<Input>)
    requires |inputs| > 0 && inputs[0].code >= c.charBase
    requires d.state == HIGHCHAN && d.maxChannels <= c.absMaxChannels
    requires Prompt(c, d.resetAt, inputs)
    ensures var x := inputs[0];
      var declared := (d.readMaxChannels + Ch(c, x.code) * 0x100) % 0x1_0000;
      var d' := d.(ch := Ch(c, x.code), readMaxChannels := declared, resetAt := x.now);
      var rest := inputs[1..];
      && (declared == d.maxChannels ==>
            ReadAll(c, d, inputs) == ReadAll(c, d'.(count := 0, state := DATA), rest))
      && (declared != d.maxChannels && 0 < declared <= c.absMaxChannels ==>
            ReadAll(c, d, inputs)
            == Then([MaxChannel(declared)],
                    ReadAll(c, d'.(maxChannels := declared, count := 0, state := DATA), rest)))
      && (declared != d.maxChannels && declared == 0 ==>
            ReadAll(c, d, inputs)
            == Then([MaxChannel(0), Error('0'), MaxChannel(0)],
                    ReadAll(c, d'.(maxChannels := 0, led := false), rest)))
      && (declared > c.absMaxChannels ==>
            ReadAll(c, d, inputs)
            == Then([Error('C'), MaxChannel(0)],
                    ReadAll(c, d'.(maxChannels := 0, led := false), rest)))
  {
    var x := inputs[0];
    PromptFirst(c, d, inputs);
    ReadAllStep(c, d, inputs);
    HighChanStep(c, d, x.code, IdleAlarm(c, d.resetAt, x.now), x.now);
  }

  /** The errors of HIGHCHAN at the head of a run: a new count of 0, or
      one above the ceiling.  Either way the decoder stays in HIGHCHAN
      holding the count it computed, with no channels. */
  lemma HighChanErrorThen(c: Consts, d: Decoder, inputs: seq<Input>)
    requires |inputs| > 0 && inputs[0].code >= c.charBase
    requires d.state == HIGHCHAN && d.maxChannels <= c.absMaxChannels
    requires Prompt(c, d.resetAt, inputs)
    requires var declared := (d.readMaxChannels + Ch(c, inputs[0].code) * 0x100) % 0x1_0000;
      declared > c.absMaxChannels || (declared == 0 && d.maxChannels != 0)
    ensures var x := inputs[0];
      var declared := (d.readMaxChannels + Ch(c, x.code) * 0x100) % 0x1_0000;
      ReadAll(c, d, inputs)
      == Then(if declared == 0 then [MaxChannel(0), Error('0'), MaxChannel(0)]
              else [Error('C'), MaxChannel(0)],
              ReadAll(c, d.(ch := Ch(c, x.code), readMaxChannels := declared, maxChannels := 0,
                            led := false, resetAt := x.now), inputs[1..]))
  {
    HighChanThen(c, d, inputs);
  }

  /** Whatever its outcome, one HIGHCHAN `read` leaves the 16-bit sum of
      the stored count and the new high byte in `readMaxChannels`. */
  lemma HighByteCount(c: Consts, d: Decoder, inputs: seq<Input>)
    requires |inputs| == 1 && inputs[0].code >= c.charBase
    requires d.state == HIGHCHAN && d.maxChannels <= c.absMaxChannels
    requires Prompt(c, d.resetAt, inputs)
    ensures ReadAll(c, d, inputs).dec.readMaxChannels
         == (d.readMaxChannels + Ch(c, inputs[0].code) * 0x100) % 0x1_0000
  {
    var x := inputs[0];
    var s := ReadAt(c, d, x.code, IdleAlarm(c, d.resetAt, x.now), x.now);
    PromptFirst(c, d, inputs);
    ReadAllStep(c, d, inputs);
    assert inputs[1..] == [];
    ReadAllNil(c, s.dec);
    HighChanStep(c, d, x.code, IdleAlarm(c, d.resetAt, x.now), x.now);
  }

  /** DATA with a channel left, at the head of a run: one write. */
  lemma WriteThen(c: Consts, d: Decoder, inputs: seq<Input>)
    requires |inputs| > 0 && inputs[0].code >= c.charBase
    requires d.state == DATA && d.count < d.maxChannels
    requires Prompt(c, d.resetAt, inputs)
    ensures var x := inputs[0];
      ReadAll(c, d, inputs)
      == Then([Write(d.count, Ch(c, x.code))],
              ReadAll(c, d.(ch := Ch(c, x.code), count := d.count + 1, resetAt := x.now),
                      inputs[1..]))
  {
    var x := inputs[0];
    PromptFirst(c, d, inputs);
    ReadAllStep(c, d, inputs);
    DataStep(c, d, x.code, IdleAlarm(c, d.resetAt, x.now), x.now);
  }

  /** The finish test at the head of a run. */
  lemma FinishThen(c: Consts, d: Decoder, inputs: seq<Input>)
    requires |inputs| > 0 && inputs[0].code >= c.charBase
    requires AtFinish(d)
    requires Prompt(c, d.resetAt, inputs)
    ensures var x := inputs[0];
      var ch := Ch(c, x.code);
      && (ch == c.enttecFinish ==>
            ReadAll(c, d, inputs)
            == Then([Ok], ReadAll(c, d.(ch := ch, state := START, led := true,
                                        resetAt := x.now), inputs[1..])))
      && (ch != c.enttecFinish ==>
            ReadAll(c, d, inputs)
            == Then([Error('M'), MaxChannel(0)],
                    ReadAll(c, d.(ch := ch, state := START, maxChannels := 0, led := false,
                                  resetAt := x.now), inputs[1..])))
  {
    var x := inputs[0];
    PromptFirst(c, d, inputs);
    ReadAllStep(c, d, inputs);
    FinishStep(c, d, x.code, IdleAlarm(c, d.resetAt, x.now), x.now);
  }

  /** A start delimiter after the idle timeout, at the head of a run,
      outside START: `'R'`, and a new frame opens on the same byte. */
  lemma ResyncThen(c: Consts, d: Decoder, inputs: seq<Input>)
    requires |inputs| > 0 && inputs[0].code >= c.charBase
    requires d.state != START && Ch(c, inputs[0].code) == c.enttecStart
    requires IdleAlarm(c, d.resetAt, inputs[0].now)
    ensures var x := inputs[0];
      ReadAll(c, d, inputs)
      == Then([Error('R'), MaxChannel(0)],
              ReadAll(c, d.(ch := c.enttecStart, state := COMMAND, maxChannels := 0, led := false,
                            resetAt := x.now), inputs[1..]))
  {
    var x := inputs[0];
    ReadAllStep(c, d, inputs);
    IdleResyncRestarts(c, d, x.code, IdleAlarm(c, d.resetAt, x.now), x.now);
  }

  // ---------------------------------------------------------------------
  // Frames

  /** In DATA with room for `data`, a prompt run that begins with the
      bytes of `data` writes them to consecutive channels from `count` on
      and stays in DATA for the rest of the run. */
  lemma {:induction false} DataThen(c: Consts, d: Decoder, data: seq<Byte>, inputs: seq<Input>)
    requires d.state == DATA
    requires d.count + |data| <= d.maxChannels
    requires StartsWith(c, inputs, data)
    requires Prompt(c, d.resetAt, inputs)
    ensures ReadAll(c, d, inputs)
         == Then(Writes(d.count, data),
                 ReadAll(c, d.(ch := if |data| == 0 then d.ch else data[|data| - 1],
                               count := d.count + |data|,
                               resetAt := ResetBefore(d.resetAt, inputs, |data|)),
                         inputs[|data|..]))
    decreases |data|
  {
    if |data| == 0 {
      assert inputs[0..] == inputs;
    } else {
      var n := |data|;
      var x := inputs[0];
      var d1 := d.(ch := data[0], count := d.count + 1, resetAt := x.now);
      var done := d.(ch := data[n - 1], count := d.count + n, resetAt := ResetBefore(d.resetAt, inputs, n));
      assert StartsWith(c, inputs[1..], data[1..]);
      PromptSuffix(c, d.resetAt, inputs, 1);
      assert inputs[1..][n - 1..] == inputs[n..];
      assert d1.(ch := if n - 1 == 0 then d1.ch else data[1..][n - 2],
                 count := d1.count + (n - 1),
                 resetAt := ResetBefore(d1.resetAt, inputs[1..], n - 1)) == done;
      calc {
        ReadAll(c, d, inputs);
        { WriteThen(c, d, inputs); }
        Then([Write(d.count, data[0])], ReadAll(c, d1, inputs[1..]));
        { DataThen(c, d1, data[1..], inputs[1..]); }
        Then([Write(d.count, data[0])], Then(Writes(d.count + 1, data[1..]), ReadAll(c, done, inputs[n..])));
        { ThenThen([Write(d.count, data[0])], Writes(d.count + 1, data[1..]), ReadAll(c, done, inputs[n..]));
          WritesSplit(d.count, data); }
        Then(Writes(d.count, data), ReadAll(c, done, inputs[n..]));
      }
    }
  }

  /** From START, a start delimiter, send command and low count byte `lo`,
      prompt after the first, bring the decoder to HIGHCHAN without a
      call. */
  lemma PreambleThen(c: Consts, d: Decoder, lo: Byte, inputs: seq<Input>)
    requires d.state == START
    requires StartsWith(c, inputs, [c.enttecStart, c.enttecSend, lo])
    requires Prompt(c, inputs[0].now, inputs[1..])
    ensures ReadAll(c, d, inputs)
         == ReadAll(c, d.(ch := lo, readMaxChannels := lo, state := HIGHCHAN,
                          resetAt := inputs[2].now),
                    inputs[3..])
  {
    DelimiterThen(c, d, inputs);
    var d1 := d.(ch := c.enttecStart, state := COMMAND, resetAt := inputs[0].now);
    DelimiterThen(c, d1, inputs[1..]);
    var d2 := d.(ch := c.enttecSend, state := LOWCHAN, resetAt := inputs[1].now);
    PromptSuffix(c, inputs[0].now, inputs[1..], 1);
    assert inputs[1..][1..] == inputs[2..];
    LowChanThen(c, d2, inputs[2..]);
    assert inputs[2..][1..] == inputs[3..];
  }

  /** A count below 2^16 is its low byte plus 256 times its high byte. */
  lemma LowHighBytes(n: nat)
    requires n < 0x1_0000
    ensures (n % 0x100 + (n / 0x100) * 0x100) % 0x1_0000 == n
  {
  }

  /** A low and a high byte make a count below 2^16 without wrapping. */
  lemma HighByteSum(lo: int, hi: int)
    requires 0 <= lo < 0x100 && 0 <= hi < 0x100
    ensures (lo + hi * 0x100) % 0x1_0000 == lo + hi * 0x100
  {
  }

  /** Reducing to 16 bits before an addition does not change the sum's
      16-bit residue. */
  lemma ModAddLeft(x: int, y: int)
    ensures (x % 0x1_0000 + y) % 0x1_0000 == (x + y) % 0x1_0000
  {
  }

  /** The header bytes of a frame declaring `n` channels. */
  function Header(c: Consts, n: nat): (r: seq<Byte>)
    requires n < 0x1_0000
  {
    [c.enttecStart, c.enttecSend, n % 0x100, n / 0x100]
  }

  /** HIGHCHAN holding the low byte of an accepted count `n`, at the head
      of a prompt run whose first byte is its high byte: DATA with `n`
      channels; the sink is told only if the count changed. */
  lemma HighByteThen(c: Consts, d: Decoder, n: nat, inputs: seq<Input>)
    requires d.state == HIGHCHAN && d.maxChannels <= c.absMaxChannels
    requires n <= c.absMaxChannels && n < 0x1_0000
    requires n > 0 || d.maxChannels == 0
    requires d.readMaxChannels == n % 0x100
    requires |inputs| > 0 && inputs[0].code == Code(c, n / 0x100)
    requires Prompt(c, d.resetAt, inputs)
    ensures ReadAll(c, d, inputs)
         == Then(if d.maxChannels == n then [] else [MaxChannel(n)],
                 ReadAll(c, d.(ch := n / 0x100, readMaxChannels := n, maxChannels := n,
                               count := 0, state := DATA, resetAt := inputs[0].now),
                         inputs[1..]))
  {
    LowHighBytes(n);
    HighChanThen(c, d, inputs);
  }

  /** From START, a prompt header declaring a count the decoder accepts
      enters DATA with that count; the sink is told only if it changed. */
  lemma HeaderThen(c: Consts, d: Decoder, n: nat, inputs: seq<Input>)
    requires Valid(c, d) && d.state == START
    requires n <= c.absMaxChannels && n < 0x1_0000
    requires n > 0 || d.maxChannels == 0
    requires StartsWith(c, inputs, Header(c, n))
    requires Prompt(c, inputs[0].now, inputs[1..])
    ensures ReadAll(c, d, inputs)
         == Then(if d.maxChannels == n then [] else [MaxChannel(n)],
                 ReadAll(c, d.(ch := n / 0x100, readMaxChannels := n, maxChannels := n,
                               count := 0, state := DATA, resetAt := inputs[3].now),
                         inputs[4..]))
  {
    var h := Header(c, n);
    assert StartsWith(c, inputs, [c.enttecStart, c.enttecSend, n % 0x100]) by {
      assert forall i | 0 <= i < 3 :: h[i] == [c.enttecStart, c.enttecSend, n % 0x100][i];
    }
    PreambleThen(c, d, n % 0x100, inputs);
    var d3 := d.(ch := n % 0x100, readMaxChannels := n % 0x100, state := HIGHCHAN,
                 resetAt := inputs[2].now);
    PromptSuffix(c, inputs[0].now, inputs[1..], 2);
    assert inputs[1..][2..] == inputs[3..];
    assert inputs[3].code == Code(c, h[3]);
    HighByteThen(c, d3, n, inputs[3..]);
    assert inputs[3..][1..] == inputs[4..];
  }

  /** From START, a prompt frame whose count the decoder accepts is
      delivered: the sink is told the count if it changed, every byte is
      written in order from channel 0, `ok()` is called, and the decoder
      ends in START with the count configured and the LED lit.  A count
      of 0 is accepted when the configured count is already 0. */
  lemma FrameDelivered(c: Consts, d: Decoder, data: seq<Byte>, inputs: seq<Input>)
    requires Valid(c, d) && d.state == START
    requires |data| <= c.absMaxChannels
    requires |data| > 0 || d.maxChannels == 0
    requires StartsWith(c, inputs, FrameBytes(c, data)) && |inputs| == |data| + 5
    requires Prompt(c, inputs[0].now, inputs[1..])
    ensures var r := ReadAll(c, d, inputs);
      && r.events == (if d.maxChannels == |data| then [] else [MaxChannel(|data|)])
                     + Writes(0, data) + [Ok]
      && r.dec.state == START
      && r.dec.maxChannels == |data|
      && r.dec.led
      && r.dec.resetAt == inputs[|inputs| - 1].now
  {
    var n := |data|;
    var bytes := FrameBytes(c, data);
    var told := if d.maxChannels == n then [] else [MaxChannel(n)];
    var body := inputs[4..];
    var dh := d.(ch := n / 0x100, readMaxChannels := n, maxChannels := n,
                 count := 0, state := DATA, resetAt := inputs[3].now);
    var rest := body[n..];
    var x := inputs[4 + n];
    var df := dh.(ch := if n == 0 then dh.ch else data[n - 1], count := n, resetAt := inputs[3 + n].now);
    var dz := df.(ch := c.enttecFinish, state := START, led := true, resetAt := x.now);
    assert rest == [x];
    calc {
      ReadAll(c, d, inputs);
      { assert StartsWith(c, inputs, Header(c, n)) by {
          assert forall i | 0 <= i < 4 :: bytes[i] == Header(c, n)[i];
        }
        HeaderThen(c, d, n, inputs); }
      Then(told, ReadAll(c, dh, body));
      { assert StartsWith(c, body, data) by {
          assert forall i | 0 <= i < n :: bytes[4 + i] == data[i];
        }
        PromptSuffix(c, inputs[0].now, inputs[1..], 3);
        assert inputs[1..][3..] == body;
        DataThen(c, dh, data, body); }
      Then(told, Then(Writes(0, data), ReadAll(c, df, rest)));
      { assert Ch(c, x.code) == c.enttecFinish by {
          assert bytes[4 + n] == c.enttecFinish;
        }
        PromptSuffix(c, inputs[0].now, inputs[1..], 3 + n);
        assert inputs[1..][3 + n..] == rest;
        FinishThen(c, df, rest);
        assert rest[1..] == [];
        ReadAllNil(c, dz); }
      Then(told, Then(Writes(0, data), Then([Ok], Step(dz, []))));
    }
    assert told + (Writes(0, data) + ([Ok] + [])) == told + Writes(0, data) + [Ok];
  }

  /** The zero-count quirk: with channels configured, a frame declaring 0
      channels reports `'0'` and stays in HIGHCHAN, so its finish byte is
      read as a second high byte, which lands above the ceiling and
      reports `'C'`.  `ok()` is never called. */
  lemma ZeroFrameRejected(c: Consts, d: Decoder, inputs: seq<Input>)
    requires Valid(c, d) && d.state == START
    requires d.maxChannels != 0
    requires c.enttecFinish * 0x100 > c.absMaxChannels
    requires StartsWith(c, inputs, FrameBytes(c, [])) && |inputs| == 5
    requires Prompt(c, inputs[0].now, inputs[1..])
    ensures var r := ReadAll(c, d, inputs);
      && r.events == [MaxChannel(0), Error('0'), MaxChannel(0), Error('C'), MaxChannel(0)]
      && r.dec.state == HIGHCHAN
      && r.dec.maxChannels == 0
      && r.dec.readMaxChannels == c.enttecFinish * 0x100
  {
    assert FrameBytes(c, []) == [c.enttecStart, c.enttecSend, 0, 0, c.enttecFinish];
    var d3 := d.(ch := 0, readMaxChannels := 0, state := HIGHCHAN, resetAt := inputs[2].now);
    var d4 := d3.(maxChannels := 0, led := false, resetAt := inputs[3].now);
    var d5 := d4.(ch := c.enttecFinish, readMaxChannels := c.enttecFinish * 0x100,
                  resetAt := inputs[4].now);
    var zero, ceiling := [MaxChannel(0), Error('0'), MaxChannel(0)], [Error('C'), MaxChannel(0)];
    assert inputs[3].code == Code(c, 0) && inputs[4].code == Code(c, c.enttecFinish);
    calc {
      ReadAll(c, d, inputs);
      { PreambleThen(c, d, 0, inputs); }
      ReadAll(c, d3, inputs[3..]);
      { PromptSuffix(c, inputs[0].now, inputs[1..], 2);
        assert inputs[1..][2..] == inputs[3..];
        HighChanErrorThen(c, d3, inputs[3..]);
        assert inputs[3..][1..] == inputs[4..]; }
      Then(zero, ReadAll(c, d4, inputs[4..]));
      { PromptSuffix(c, inputs[0].now, inputs[1..], 3);
        assert inputs[1..][3..] == inputs[4..];
        HighByteSum(0, c.enttecFinish);
        HighChanErrorThen(c, d4, inputs[4..]);
        assert inputs[4..][1..] == []; }
      Then(zero, Then(ceiling, ReadAll(c, d5, [])));
      { ReadAllNil(c, d5); }
      Then(zero, Then(ceiling, Step(d5, [])));
    }
    assert zero + (ceiling + []) == [MaxChannel(0), Error('0'), MaxChannel(0), Error('C'), MaxChannel(0)];
  }

  /** After a header error the decoder is still in HIGHCHAN and keeps the
      count it computed, so the next byte is added on top of it as one
      more high byte. */
  lemma HeaderErrorReadsAnotherHighByte(c: Consts, d: Decoder, inputs: seq<Input>)
    requires Valid(c, d) && d.state == HIGHCHAN
    requires |inputs| == 2
    requires inputs[0].code >= c.charBase && inputs[1].code >= c.charBase
    requires Prompt(c, d.resetAt, inputs)
    requires var declared := (d.readMaxChannels + Ch(c, inputs[0].code) * 0x100) % 0x1_0000;
      declared > c.absMaxChannels || (declared == 0 && d.maxChannels != 0)
    ensures ReadAll(c, d, inputs[..1]).dec.state == HIGHCHAN
    ensures ReadAll(c, d, inputs).dec.readMaxChannels
         == (d.readMaxChannels + (Ch(c, inputs[0].code) + Ch(c, inputs[1].code)) * 0x100) % 0x1_0000
  {
    var a: int, h: int, h': int := d.readMaxChannels, Ch(c, inputs[0].code), Ch(c, inputs[1].code);
    var declared := (a + h * 0x100) % 0x1_0000;
    var e := if declared == 0 then [MaxChannel(0), Error('0'), MaxChannel(0)]
             else [Error('C'), MaxChannel(0)];
    var d1 := d.(ch := h, readMaxChannels := declared, maxChannels := 0, led := false,
                 resetAt := inputs[0].now);
    assert ReadAll(c, d, inputs[..1]) == Then(e, Step(d1, [])) by {
      HighChanErrorThen(c, d, inputs[..1]);
      assert inputs[..1][1..] == [];
      ReadAllNil(c, d1);
    }
    ReadAllHead(c, d, inputs);
    PromptSuffix(c, d.resetAt, inputs, 1);
    HighByteCount(c, d1, inputs[1..]);
    ModAddLeft(a + h * 0x100, h' * 0x100);
  }

  /** The idle test of a timer restarted at true time `start`, made at true
      time `clock` (both seen through the wrapping 32-bit clock): it fires
      exactly when `idleTime` milliseconds have passed, as long as the
      distance from the deadline fits in an `int32_t`. */
  lemma IdleAlarmTracksGap(c: Consts, start: nat, clock: nat)
    requires c.idleTime < 0x8000_0000
    requires Waiter.InRange(TimerParams, clock - (start + c.idleTime))
    ensures IdleAlarm(c, start % ULONG_MODULUS, clock % ULONG_MODULUS)
        <==> clock >= start + c.idleTime
  {
    var p := TimerParams;
    Pow2Constants();
    assert Waiter.Half(p) == 0x8000_0000;
    Waiter.ToAlarmFixes(p, c.idleTime);
    assert IdleDuration(c) == c.idleTime;
    assert Pow2(0) == 1;
    assert Waiter.CeilShift(0, start) == start;
    assert clock / Pow2(p.shift) == clock;
    Waiter.AlarmAfterSet(p, start, clock, 0, c.idleTime);
    IdleAlarmIsWaiterAlarm(c, start % ULONG_MODULUS, clock % ULONG_MODULUS);
  }

  /** Outside START, with the timer last reset at true time `start`, a
      start delimiter arriving at true time `clock`, at least `idleTime`
      later (and less than 2^31 ms past the deadline), resynchronises:
      `'R'`, and a new frame opens on the same byte. */
  lemma GapResyncs(c: Consts, d: Decoder, start: nat, clock: nat)
    requires c.idleTime < 0x8000_0000
    requires d.state != START && d.resetAt == start % ULONG_MODULUS
    requires start + c.idleTime <= clock < start + c.idleTime + 0x8000_0000
    ensures var x := Input(Code(c, c.enttecStart), clock % ULONG_MODULUS);
      ReadAll(c, d, [x])
      == Then([Error('R'), MaxChannel(0)],
              Step(d.(ch := c.enttecStart, state := COMMAND, maxChannels := 0, led := false,
                      resetAt := x.now), []))
  {
    var x := Input(Code(c, c.enttecStart), clock % ULONG_MODULUS);
    Pow2Constants();
    IdleAlarmTracksGap(c, start, clock);
    ResyncThen(c, d, [x]);
    assert [x][1..] == [];
    ReadAllNil(c, d.(ch := c.enttecStart, state := COMMAND, maxChannels := 0, led := false,
                     resetAt := x.now));
  }

  // ---------------------------------------------------------------------
  // Worked examples with the standard framing

  /** A three-channel frame straight after `dmxInit()`: the sink is set to
      3 channels, gets the three bytes in order, and `ok()` is called. */
  lemma FullFrameExample(t0: Waiter.Clock, inputs: seq<Input>)
    requires StartsWith(EnttecConsts, inputs, [0x7E, 0x06, 0x03, 0x00, 0x11, 0x22, 0x33, 0xE7])
    requires |inputs| == 8
    ensures var s := Init(t0);
      var r := ReadAll(EnttecConsts, s.dec, inputs);
      && s.events + r.events
         == [MaxChannel(0), MaxChannel(3), Write(0, 0x11), Write(1, 0x22), Write(2, 0x33), Ok]
      && r.dec.state == START && r.dec.maxChannels == 3 && r.dec.led
  {
    var c := EnttecConsts;
    var data: seq<Byte> := [0x11, 0x22, 0x33];
    InitIsValid(c, t0);
    assert FrameBytes(c, data) == [0x7E, 0x06, 0x03, 0x00, 0x11, 0x22, 0x33, 0xE7] by {
      assert |data| % 0x100 == 3 && |data| / 0x100 == 0;
      assert [c.enttecStart, c.enttecSend, 3, 0] + data + [c.enttecFinish]
          == [0x7E, 0x06, 0x03, 0x00, 0x11, 0x22, 0x33, 0xE7];
    }
    PromptWithoutStart(c, inputs[0].now, inputs[1..]);
    FrameDelivered(c, Init(t0).dec, data, inputs);
    assert Writes(0, data) == [Write(0, 0x11), Write(1, 0x22), Write(2, 0x33)];
  }

  /** The keyboard framing: after `dmxInit()`, typing `S C ! <space> A F`
      sets one channel, writes `'A' - ' '` to channel 0 and calls `ok()`. */
  lemma KeyboardFrameExample(t0: Waiter.Clock, inputs: seq<Input>)
    requires |inputs| == 6
    requires forall i | 0 <= i < 6 :: inputs[i].code == "SC! AF"[i] as int
    ensures var s := Init(t0);
      var r := ReadAll(ManualConsts, s.dec, inputs);
      && s.events + r.events == [MaxChannel(0), MaxChannel(1), Write(0, 'A' as int - ' ' as int), Ok]
      && r.dec.state == START && r.dec.maxChannels == 1 && r.dec.led
  {
    var c := ManualConsts;
    var data: seq<Byte> := [33];
    InitIsValid(c, t0);
    assert StartsWith(c, inputs, FrameBytes(c, data)) by {
      assert FrameBytes(c, data) == [51, 35, 1, 0, 33, 38];
    }
    PromptWithoutStart(c, inputs[0].now, inputs[1..]);
    FrameDelivered(c, Init(t0).dec, data, inputs);
    assert Writes(0, data) == [Write(0, 33)];
  }

  /** An empty frame straight after `dmxInit()` is accepted: the declared
      0 equals the count `reset()` left, so there is no `'0'` error. */
  lemma ZeroFrameAfterInit(t0: Waiter.Clock, inputs: seq<Input>)
    requires StartsWith(EnttecConsts, inputs, [0x7E, 0x06, 0x00, 0x00, 0xE7])
    requires |inputs| == 5
    ensures var s := Init(t0);
      var r := ReadAll(EnttecConsts, s.dec, inputs);
      && s.events + r.events == [MaxChannel(0), Ok]
      && r.dec.state == START && r.dec.led
  {
    var c := EnttecConsts;
    InitIsValid(c, t0);
    assert FrameBytes(c, []) == [0x7E, 0x06, 0x00, 0x00, 0xE7];
    PromptWithoutStart(c, inputs[0].now, inputs[1..]);
    FrameDelivered(c, Init(t0).dec, [], inputs);
  }

  /** An empty frame after a frame that configured channels is rejected
      with `'0'`, and its finish byte then draws `'C'`. */
  lemma ZeroFrameAfterFrameExample(d: Decoder, inputs: seq<Input>)
    requires Valid(EnttecConsts, d) && d.state == START && d.maxChannels == 3
    requires StartsWith(EnttecConsts, inputs, [0x7E, 0x06, 0x00, 0x00, 0xE7])
    requires |inputs| == 5
    ensures var r := ReadAll(EnttecConsts, d, inputs);
      && r.events == [MaxChannel(0), Error('0'), MaxChannel(0), Error('C'), MaxChannel(0)]
      && r.dec.state == HIGHCHAN
  {
    var c := EnttecConsts;
    assert FrameBytes(c, []) == [0x7E, 0x06, 0x00, 0x00, 0xE7];
    PromptWithoutStart(c, inputs[0].now, inputs[1..]);
    ZeroFrameRejected(c, d, inputs);
  }

  /** A declared count of 513 (low byte 0x01, high byte 0x02) is above the
      ceiling: `'C'`, and the decoder waits in HIGHCHAN. */
  lemma OverCeilingExample(d: Decoder, inputs: seq<Input>)
    requires Valid(EnttecConsts, d) && d.state == START
    requires StartsWith(EnttecConsts, inputs, [0x7E, 0x06, 0x01, 0x02])
    requires |inputs| == 4
    ensures var r := ReadAll(EnttecConsts, d, inputs);
      && r.events == [Error('C'), MaxChannel(0)]
      && r.dec.state == HIGHCHAN && r.dec.maxChannels == 0
  {
    var c := EnttecConsts;
    var d3 := d.(ch := 1, readMaxChannels := 1, state := HIGHCHAN, resetAt := inputs[2].now);
    var d4 := d3.(ch := 2, readMaxChannels := 513, maxChannels := 0, led := false,
                  resetAt := inputs[3].now);
    assert ReadAll(c, d, inputs) == ReadAll(c, d3, inputs[3..]) by {
      PromptWithoutStart(c, inputs[0].now, inputs[1..]);
      PreambleThen(c, d, 1, inputs);
    }
    assert ReadAll(c, d3, inputs[3..]) == Then([Error('C'), MaxChannel(0)], Step(d4, [])) by {
      assert Prompt(c, d3.resetAt, inputs[3..]) by {
        PromptWithoutStart(c, inputs[0].now, inputs[1..]);
        PromptSuffix(c, inputs[0].now, inputs[1..], 2);
        assert inputs[1..][2..] == inputs[3..];
      }
      HighByteSum(1, 2);
      HighChanErrorThen(c, d3, inputs[3..]);
      assert inputs[3..][1..] == [];
      ReadAllNil(c, d4);
    }
  }

  /** In COMMAND, a lone byte that is neither the send command nor a start
      delimiter reports `'M'` and resets into START. */
  lemma SendMismatchAlone(c: Consts, d: Decoder, inputs: seq<Input>)
    requires d.state == COMMAND
    requires |inputs| == 1 && inputs[0].code >= c.charBase
    requires Ch(c, inputs[0].code) != c.enttecSend && Ch(c, inputs[0].code) != c.enttecStart
    ensures ReadAll(c, d, inputs)
         == Step(d.(ch := Ch(c, inputs[0].code), state := START, maxChannels := 0, led := false,
                    resetAt := inputs[0].now),
                 [Error('M'), MaxChannel(0)])
  {
    var d2 := d.(ch := Ch(c, inputs[0].code), state := START, maxChannels := 0, led := false,
                 resetAt := inputs[0].now);
    PromptWithoutStart(c, d.resetAt, inputs);
    DelimiterThen(c, d, inputs);
    assert inputs[1..] == [];
    ReadAllNil(c, d2);
  }

  /** From START, a start delimiter followed by a byte that is neither the
      send command nor a start delimiter reports `'M'` and leaves the
      decoder in START with no channels. */
  lemma MismatchThen(c: Consts, d: Decoder, inputs: seq<Input>)
    requires d.state == START
    requires |inputs| == 2 && inputs[0].code == Code(c, c.enttecStart) && inputs[1].code >= c.charBase
    requires Ch(c, inputs[1].code) != c.enttecSend && Ch(c, inputs[1].code) != c.enttecStart
    ensures ReadAll(c, d, inputs)
         == Step(d.(ch := Ch(c, inputs[1].code), state := START, maxChannels := 0, led := false,
                    resetAt := inputs[1].now),
                 [Error('M'), MaxChannel(0)])
  {
    var d1 := d.(ch := c.enttecStart, state := COMMAND, resetAt := inputs[0].now);
    DelimiterThen(c, d, inputs);
    SendMismatchAlone(c, d1, inputs[1..]);
  }

  /** A wrong send byte reports `'M'` and puts the decoder back in START
      with no channels, ready for a fresh start delimiter. */
  lemma MismatchExample(d: Decoder, inputs: seq<Input>)
    requires d.state == START
    requires StartsWith(EnttecConsts, inputs, [0x7E, 0x99]) && |inputs| == 2
    ensures var r := ReadAll(EnttecConsts, d, inputs);
      && r.events == [Error('M'), MaxChannel(0)]
      && r.dec.state == START && r.dec.maxChannels == 0
  {
    MismatchThen(EnttecConsts, d, inputs);
  }

  /** A partial frame `0x7E 0x06`, then silence of at least `idleTime`
      (but under 2^31 ms), then `0x7E`: the decoder reports `'R'` and
      treats the new `0x7E` as the start of a frame, so it next expects
      the send byte.  Times are true millisecond counts; the decoder sees
      them through the wrapping 32-bit clock. */
  lemma IdleResyncExample(d: Decoder, t0: Waiter.Clock, t1: nat, t2: nat)
    requires d.state == START
    requires t1 + 200 <= t2 < t1 + 200 + 0x8000_0000
    ensures var inputs := [Input(0x7E, t0), Input(0x06, t1 % ULONG_MODULUS),
                           Input(0x7E, t2 % ULONG_MODULUS)];
      var r := ReadAll(EnttecConsts, d, inputs);
      && r.events == [Error('R'), MaxChannel(0)]
      && r.dec.state == COMMAND && r.dec.maxChannels == 0
  {
    var c := EnttecConsts;
    var x0, x1, x2 := Input(0x7E, t0), Input(0x06, t1 % ULONG_MODULUS), Input(0x7E, t2 % ULONG_MODULUS);
    var d1 := d.(ch := 0x7E, state := COMMAND, resetAt := x0.now);
    var d2 := d1.(ch := 0x06, state := LOWCHAN, resetAt := x1.now);
    var d3 := d2.(ch := 0x7E, state := COMMAND, maxChannels := 0, led := false,
                  resetAt := x2.now);
    assert ReadAll(c, d, [x0, x1]) == Step(d2, []) by {
      DelimiterThen(c, d, [x0, x1]);
      assert [x0, x1][1..] == [x1];
      PromptWithoutStart(c, d1.resetAt, [x1]);
      DelimiterThen(c, d1, [x1]);
      assert [x1][1..] == [];
      ReadAllNil(c, d2);
    }
    GapResyncs(c, d2, t1, t2);
    assert [x0, x1, x2] == [x0, x1] + [x2];
    ReadAllAppend(c, d, [x0, x1], [x2]);
  }
}
