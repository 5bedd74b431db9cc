/** The byte framer of the analyzer's decode step, as a pure transition
    function over the four fields it keeps between calls (the buffer, the
    start time of the pending message, the expected total length and the
    type byte). The class in analyzer.dfy runs the same step in place and is
    proved against Step. */
module Framer {
  import opened Protocol

  datatype State = State(buffer: seq<Byte>, msgStart: Option<Time>, expectedLen: nat, typ: Byte)

  /** The fields as a fresh analyzer has them. The type field does not
      exist before the first type byte is seen; 0 stands for it and is never
      read before it is overwritten. */
  const Initial: State := State([], None, 0, 0)

  /** What holds between two calls of the decode step. The expected length
      is never reset after a message, so while one or two bytes are buffered
      it still holds a stale value; that value is 0 or at least 3 and so can
      never equal the buffer's length. */
  predicate Inv(s: State)
  {
    && (s.expectedLen == 0 || s.expectedLen >= 3)
    && (s.buffer == [] <==> s.msgStart.None?)
    && (s.buffer != [] ==> s.buffer[0] == StartMarker)
    && (|s.buffer| >= 2 ==> s.typ == s.buffer[1])
    && (|s.buffer| >= 3 ==> s.expectedLen == s.buffer[2] as int + 3 && |s.buffer| < s.expectedLen)
  }

  /** Waiting for a start marker. */
  predicate Idle(s: State)
  {
    Inv(s) && s.buffer == []
  }

  /** The four-way branch that takes one byte into the state: open a buffer
      on the start marker while empty, then the type byte, then the length
      byte, then payload bytes up to the expected length; anything else (a
      byte other than the marker while empty) is dropped. */
  function Accept(s: State, b: Byte, startTime: Time): State
  {
    if |s.buffer| == 0 && b == StartMarker then
      s.(buffer := [b], msgStart := Some(startTime))
    else if |s.buffer| == 1 then
      s.(typ := b, buffer := s.buffer + [b])
    else if |s.buffer| == 2 then
      s.(expectedLen := b + 3, buffer := s.buffer + [b])
    else if 0 < |s.buffer| < s.expectedLen then
      s.(buffer := s.buffer + [b])
    else
      s
  }

  /** The buffer holds as many bytes as the header announced. */
  predicate Complete(s: State)
  {
    |s.buffer| > 0 && |s.buffer| == s.expectedLen
  }

  datatype StepResult = StepResult(next: State, out: Option<RawMessage>)

  /** One call of the decode step: accept the byte, and if that completes the
      message, hand it out and empty the buffer. */
  function Step(s: State, b: Byte, startTime: Time, endTime: Time): (r: StepResult)
    requires Inv(s)
    ensures Inv(r.next)
    ensures r.out.Some? ==> WellFramed(r.out.value.bytes) && r.next.buffer == []
  {
    var a := Accept(s, b, startTime);
    if Complete(a) then
      StepResult(a.(buffer := [], msgStart := None), Some(RawMessage(a.buffer, a.msgStart.value, endTime)))
    else
      StepResult(a, None)
  }

  datatype FeedResult = FeedResult(next: State, out: seq<RawMessage>)

  /** The host's side: the bytes of a capture delivered one at a time, in
      order, with every message the framer hands out collected. */
  function Feed(s: State, bs: seq<TimedByte>): (r: FeedResult)
    requires Inv(s)
    ensures Inv(r.next)
    decreases |bs|
  {
    if bs == [] then
      FeedResult(s, [])
    else
      var prev := Feed(s, bs[..|bs| - 1]);
      var last := bs[|bs| - 1];
      var step := Step(prev.next, last.value, last.startTime, last.endTime);
      FeedResult(step.next, prev.out + if step.out.Some? then [step.out.value] else [])
  }

  /** Every message handed out over a run of bytes is well-framed. */
  lemma {:induction false} FeedOutputsWellFramed(s: State, bs: seq<TimedByte>)
    requires Inv(s)
    ensures forall i :: 0 <= i < |Feed(s, bs).out| ==> WellFramed(Feed(s, bs).out[i].bytes)
    decreases |bs|
  {
    if bs != [] {
      FeedOutputsWellFramed(s, bs[..|bs| - 1]);
    }
  }

  /** A fresh analyzer is idle. */
  lemma InitialIsIdle()
    ensures Idle(Initial)
  {
  }

  /** While idle, a byte other than the start marker changes nothing and
      produces nothing. */
  lemma NoiseIsDropped(s: State, b: Byte, startTime: Time, endTime: Time)
    requires Idle(s) && b != StartMarker
    ensures Step(s, b, startTime, endTime) == StepResult(s, None)
  {
  }

  /** While idle, the start marker opens a one-byte buffer and records its
      start time; nothing else changes. */
  lemma StartMarkerOpens(s: State, startTime: Time, endTime: Time)
    requires Idle(s)
    ensures Step(s, StartMarker, startTime, endTime)
         == StepResult(s.(buffer := [StartMarker], msgStart := Some(startTime)), None)
  {
  }

  /** Once a message has started, every byte, the start marker included, is
      appended: there is no resynchronisation in the middle of a message. */
  lemma BusyAppends(s: State, b: Byte, startTime: Time, endTime: Time)
    requires Inv(s) && s.buffer != []
    ensures var r := Step(s, b, startTime, endTime);
      if r.out.Some? then r.out.value.bytes == s.buffer + [b] else r.next.buffer == s.buffer + [b]
    ensures Step(s, b, startTime, endTime).next.msgStart == if Step(s, b, startTime, endTime).out.Some? then None else s.msgStart
  {
  }

  /** A message is handed out exactly when the buffer reaches the total
      declared by its length byte. It is the whole buffer, starts at the
      start marker's time and ends at the current byte's end time; afterwards
      the buffer is empty, there is no pending start, and the expected length
      and type keep the finished message's values. */
  lemma EmitsExactlyWhenComplete(s: State, b: Byte, startTime: Time, endTime: Time)
    requires Inv(s)
    ensures var bytes := s.buffer + [b];
      Step(s, b, startTime, endTime).out.Some? <==> |s.buffer| >= 2 && |bytes| == bytes[2] as int + 3
    ensures var bytes := s.buffer + [b];
      |s.buffer| >= 2 && |bytes| == bytes[2] as int + 3 ==>
        Step(s, b, startTime, endTime)
        == StepResult(State([], None, |bytes|, bytes[1]), Some(RawMessage(bytes, s.msgStart.value, endTime)))
  {
  }

  /** A zero-length payload: from idle, the start marker, the type and a
      length byte of 0 complete a three-byte message on the third byte, with
      an expected length of 3. */
  lemma ZeroLengthPayload(s: State, typ: Byte, t0: TimedByte, t1: TimedByte, t2: TimedByte)
    requires Idle(s)
    requires t0.value == StartMarker && t1.value == typ && t2.value == 0
    ensures var r0 := Step(s, t0.value, t0.startTime, t0.endTime);
      var r1 := Step(r0.next, t1.value, t1.startTime, t1.endTime);
      var r2 := Step(r1.next, t2.value, t2.startTime, t2.endTime);
      && r0.out.None? && r1.out.None?
      && r2.out == Some(RawMessage([StartMarker, typ, 0], t0.startTime, t2.endTime))
      && r2.next.expectedLen == 3 && r2.next.buffer == []
  {
    var r0 := Step(s, t0.value, t0.startTime, t0.endTime);
    assert r0.next.buffer == [StartMarker];
    var r1 := Step(r0.next, t1.value, t1.startTime, t1.endTime);
    assert r1.next.buffer == [StartMarker, typ];
    assert r1.next.msgStart == Some(t0.startTime);
    assert r1.next.buffer + [t2.value] == [StartMarker, typ, 0];
  }

  /** Feeding a concatenation is feeding the parts one after the other. */
  lemma {:induction false} FeedAppend(s: State, xs: seq<TimedByte>, ys: seq<TimedByte>)
    requires Inv(s)
    ensures Feed(s, xs + ys)
         == FeedResult(Feed(Feed(s, xs).next, ys).next, Feed(s, xs).out + Feed(Feed(s, xs).next, ys).out)
    decreases |ys|
  {
    var p := Feed(s, xs);
    if ys == [] {
      assert xs + ys == xs;
    } else {
      var init := ys[..|ys| - 1];
      var last := ys[|ys| - 1];
      var all := xs + ys;
      var q := Feed(p.next, init);
      var step := Step(q.next, last.value, last.startTime, last.endTime);
      var extra := if step.out.Some? then [step.out.value] else [];
      assert Feed(s, all) == FeedResult(step.next, (p.out + q.out) + extra) by {
        assert all[..|all| - 1] == xs + init && all[|all| - 1] == last;
        FeedSnoc(s, all);
        FeedAppend(s, xs, init);
      }
      assert Feed(p.next, ys) == FeedResult(step.next, q.out + extra) by {
        FeedSnoc(p.next, ys);
      }
      assert (p.out + q.out) + extra == p.out + (q.out + extra);
    }
  }

  /** From idle, a run of bytes none of which is the start marker is dropped
      entirely: this is how the framer gets back in step after noise. */
  lemma {:induction false} NoiseRunDropped(s: State, bs: seq<TimedByte>)
    requires Idle(s)
    requires forall i :: 0 <= i < |bs| ==> bs[i].value != StartMarker
    ensures Feed(s, bs) == FeedResult(s, [])
    decreases |bs|
  {
    if bs != [] {
      NoiseRunDropped(s, bs[..|bs| - 1]);
      NoiseIsDropped(s, bs[|bs| - 1].value, bs[|bs| - 1].startTime, bs[|bs| - 1].endTime);
    }
  }

  /** From idle, every proper, non-empty prefix of a well-framed message is
      silently buffered: the buffer holds exactly the bytes seen so far and
      the pending start time is the start marker's. */
  lemma {:induction false} PrefixBuffered(s: State, bs: seq<TimedByte>, k: nat)
    requires Idle(s) && WellFramed(Values(bs))
    requires 1 <= k < |bs|
    ensures Feed(s, bs[..k]).out == []
    ensures Feed(s, bs[..k]).next.buffer == Values(bs)[..k]
    ensures Feed(s, bs[..k]).next.msgStart == Some(bs[0].startTime)
    decreases k
  {
    var vs := Values(bs);
    if k == 1 {
      assert bs[..k][..0] == [];
      StartMarkerOpens(s, bs[0].startTime, bs[0].endTime);
    } else {
      PrefixBuffered(s, bs, k - 1);
      var prev := Feed(s, bs[..k - 1]);
      var last := bs[k - 1];
      assert bs[..k][..k - 1] == bs[..k - 1] && bs[..k][k - 1] == last;
      MidMessageStep(prev.next, vs, k, last.value, last.startTime, last.endTime);
    }
  }

  /** One step inside a well-framed message that does not finish it: the
      byte is buffered and nothing is handed out. */
  lemma MidMessageStep(s: State, vs: seq<Byte>, k: nat, b: Byte, startTime: Time, endTime: Time)
    requires Inv(s) && WellFramed(vs)
    requires 2 <= k < |vs| && s.buffer == vs[..k - 1] && b == vs[k - 1]
    ensures Step(s, b, startTime, endTime) == StepResult(Accept(s, b, startTime), None)
    ensures Accept(s, b, startTime).buffer == vs[..k]
    ensures Accept(s, b, startTime).msgStart == s.msgStart
  {
    assert s.buffer + [b] == vs[..k];
  }

  /** Framing round trip: from idle, the bytes of a well-framed message fed
      one at a time produce nothing until the last byte, which produces one
      message whose bytes are exactly the input, starting at the first byte's
      start time and ending at the last byte's end time. The framer is idle
      again afterwards. */
  lemma {:induction false} FramingRoundTrip(s: State, bs: seq<TimedByte>)
    requires Idle(s) && WellFramed(Values(bs))
    ensures forall k :: 1 <= k < |bs| ==> Feed(s, bs[..k]).out == []
    ensures Feed(s, bs).out == [RawMessage(Values(bs), bs[0].startTime, bs[|bs| - 1].endTime)]
    ensures Idle(Feed(s, bs).next) && Feed(s, bs).next.msgStart.None?
  {
    forall k | 1 <= k < |bs|
      ensures Feed(s, bs[..k]).out == []
    {
      PrefixBuffered(s, bs, k);
    }
    var n := |bs|;
    PrefixBuffered(s, bs, n - 1);
    var prev := Feed(s, bs[..n - 1]);
    var last := bs[n - 1];
    FinalStep(prev.next, Values(bs), last.value, last.startTime, last.endTime);
    FeedSnoc(s, bs);
  }

  /** Feed on a non-empty run is Feed on all but the last byte, then one
      step. */
  lemma FeedSnoc(s: State, bs: seq<TimedByte>)
    requires Inv(s) && bs != []
    ensures var prev := Feed(s, bs[..|bs| - 1]);
      var last := bs[|bs| - 1];
      var step := Step(prev.next, last.value, last.startTime, last.endTime);
      Feed(s, bs) == FeedResult(step.next, prev.out + if step.out.Some? then [step.out.value] else [])
  {
  }

  /** The step that finishes a well-framed message hands out all its bytes
      and leaves the framer idle. */
  lemma FinalStep(s: State, vs: seq<Byte>, b: Byte, startTime: Time, endTime: Time)
    requires Inv(s) && WellFramed(vs)
    requires s.buffer == vs[..|vs| - 1] && b == vs[|vs| - 1]
    ensures Step(s, b, startTime, endTime)
         == StepResult(State([], None, |vs|, vs[1]), Some(RawMessage(vs, s.msgStart.value, endTime)))
  {
    assert s.buffer + [b] == vs;
    EmitsExactlyWhenComplete(s, b, startTime, endTime);
  }

  /** Resynchronisation as the framer does it: noise before a message, with
      no start marker in it, is dropped, and the message that follows comes
      out whole. */
  lemma {:induction false} NoiseThenMessage(s: State, noise: seq<TimedByte>, bs: seq<TimedByte>)
    requires Idle(s) && WellFramed(Values(bs))
    requires forall i :: 0 <= i < |noise| ==> noise[i].value != StartMarker
    ensures Feed(s, noise + bs).out == [RawMessage(Values(bs), bs[0].startTime, bs[|bs| - 1].endTime)]
  {
    NoiseRunDropped(s, noise);
    FeedAppend(s, noise, bs);
    FramingRoundTrip(s, bs);
    var q := Feed(s, bs);
    assert Feed(s, noise + bs) == FeedResult(q.next, [] + q.out);
  }
}
