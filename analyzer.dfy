/** The high-level analyzer object: it keeps the framer's four fields and
    updates them in place on every byte the host delivers, handing out a
    decoded frame whenever a message completes. */
module Analyzer {
  import opened Protocol
  import opened Framer
  import opened Messages

  class Hla {
    var buffer: seq<Byte>
    var msgStart: Option<Time>
    var expectedLen: nat
    var typ: Byte

    /** The four fields as a framer state. */
    function Snapshot(): State
      reads this
    {
      State(buffer, msgStart, expectedLen, typ)
    }

    predicate Valid()
      reads this
    {
      Inv(Snapshot())
    }

    constructor ()
      ensures Valid() && Snapshot() == Initial
    {
      buffer := [];
      msgStart := None;
      expectedLen := 0;
      typ := 0;
    }

    /** Takes one byte with its start and end times. The new fields are the
        framer's next state; the result is the decoded message exactly when
        the framer completes one. */
    method Decode(b: Byte, startTime: Time, endTime: Time) returns (r: Option<Frame>)
      requires Valid()
      modifies this
      ensures Valid()
      ensures Snapshot() == Step(old(Snapshot()), b, startTime, endTime).next
      ensures r == Interpret(Step(old(Snapshot()), b, startTime, endTime).out)
    {
      if |buffer| == 0 && b == StartMarker {
        buffer := [];
        msgStart := Some(startTime);
        buffer := buffer + [b];
      } else if |buffer| == 1 {
        typ := b;
        buffer := buffer + [b];
      } else if |buffer| == 2 {
        expectedLen := b + 3;
        buffer := buffer + [b];
      } else if 0 < |buffer| < expectedLen {
        buffer := buffer + [b];
      }

      if |buffer| > 0 && |buffer| == expectedLen {
        var msg: Decoded;
        if typ == MonitorCode {
          msg := MonitorType(buffer);
        } else {
          msg := UnknownType(buffer);
        }
        var response := Frame(msgStart.value, endTime, msg);
        buffer := [];
        msgStart := None;
        return Some(response);
      }
      return None;
    }
  }

  // The decode step as the source writes it, where the monitor decoder
  // reads offsets 3 to 17 without checking the message's size. On a shorter
  // type-0xB3 message the read raises before the buffer is reset, so the
  // full buffer stays behind and every later byte raises again.

  datatype Outcome = Returned(frame: Option<Frame>) | Raised

  datatype AsWrittenResult = AsWrittenResult(next: State, outcome: Outcome)

  /** The part of the framer invariant that still holds once a raise has
      left a full buffer behind. */
  predicate Loose(s: State)
  {
    (s.expectedLen == 0 || s.expectedLen >= 3) && (s.buffer != [] ==> s.msgStart.Some?)
  }

  function DecodeAsWritten(s: State, b: Byte, startTime: Time, endTime: Time): (r: AsWrittenResult)
    requires Loose(s)
    ensures Loose(r.next)
    ensures r.outcome.Raised? ==> Complete(r.next) && r.next.typ == MonitorCode && |r.next.buffer| < MonitorSize
  {
    var a := Accept(s, b, startTime);
    if !Complete(a) then
      AsWrittenResult(a, Returned(None))
    else if a.typ == MonitorCode && |a.buffer| < MonitorSize then
      AsWrittenResult(a, Raised)
    else
      var msg := if a.typ == MonitorCode then MonitorType(a.buffer) else UnknownType(a.buffer);
      AsWrittenResult(a.(buffer := [], msgStart := None), Returned(Some(Frame(a.msgStart.value, endTime, msg))))
  }

  /** Once a raise has left a short monitor message in the buffer, every
      further byte, whatever its value, raises again and changes nothing. */
  lemma StuckAfterRaise(s: State, b: Byte, startTime: Time, endTime: Time)
    requires Loose(s) && Complete(s) && s.typ == MonitorCode && |s.buffer| < MonitorSize
    ensures DecodeAsWritten(s, b, startTime, endTime) == AsWrittenResult(s, Raised)
  {
  }

  /** As written: the three bytes 54 B3 00 (a monitor message with an empty
      payload) make the third call raise, and the call after it raises too,
      even on a fresh start marker. */
  lemma ShortMonitorFrameSticks(t0: Time, t1: Time, t2: Time, t3: Time)
    ensures var r0 := DecodeAsWritten(Initial, StartMarker, t0, t0);
      var r1 := DecodeAsWritten(r0.next, MonitorCode, t1, t1);
      var r2 := DecodeAsWritten(r1.next, 0, t2, t2);
      var r3 := DecodeAsWritten(r2.next, StartMarker, t3, t3);
      && r0.outcome == Returned(None) && r1.outcome == Returned(None)
      && r2.outcome == Raised && r3 == AsWrittenResult(r2.next, Raised)
  {
    var r0 := DecodeAsWritten(Initial, StartMarker, t0, t0);
    var r1 := DecodeAsWritten(r0.next, MonitorCode, t1, t1);
    var r2 := DecodeAsWritten(r1.next, 0, t2, t2);
    assert r1.next.buffer == [StartMarker, MonitorCode];
    assert r2.next.buffer == [StartMarker, MonitorCode, 0];
    StuckAfterRaise(r2.next, StartMarker, t3, t3);
  }

  /** Corrected: a completed monitor message too short for its fields is
      reported as Truncated with its size and time span, and the framer is
      idle again, ready for the next start marker. */
  lemma ShortMonitorFrameRecovers(s: State, b: Byte, startTime: Time, endTime: Time)
    requires Inv(s)
    requires var r := Step(s, b, startTime, endTime);
      r.out.Some? && r.out.value.bytes[1] == MonitorCode && |r.out.value.bytes| < MonitorSize
    ensures var r := Step(s, b, startTime, endTime);
      && Interpret(r.out) == Some(Frame(r.out.value.startTime, endTime, Truncated(|r.out.value.bytes|)))
      && Idle(r.next)
  {
    EmitsExactlyWhenComplete(s, b, startTime, endTime);
  }

  /** Corrected, on the same three bytes as ShortMonitorFrameSticks: the
      third byte yields a Truncated frame and the next start marker opens a
      new message. */
  lemma ShortMonitorFrameExample(t0: Time, t1: Time, t2: Time, t3: Time)
    ensures var r0 := Step(Initial, StartMarker, t0, t0);
      var r1 := Step(r0.next, MonitorCode, t1, t1);
      var r2 := Step(r1.next, 0, t2, t2);
      var r3 := Step(r2.next, StartMarker, t3, t3);
      && r0.out.None? && r1.out.None?
      && Interpret(r2.out) == Some(Frame(t0, t2, Truncated(3)))
      && r3.out.None? && r3.next.buffer == [StartMarker] && r3.next.msgStart == Some(t3)
  {
    var r0 := Step(Initial, StartMarker, t0, t0);
    var r1 := Step(r0.next, MonitorCode, t1, t1);
    assert r1.next.buffer + [0] == [StartMarker, MonitorCode, 0];
  }
}
