/** Shared vocabulary of the STWBC2-HB serial stream: bytes, timestamps,
    the timestamped byte the capture host delivers, and the raw message the
    framer hands to the message decoders. */
module Protocol {

  /** One byte of the serial stream, as the host delivers it (0..255). */
  type Byte = b: int | 0 <= b < 256

  /** Timestamps are opaque: the analyzer only copies them. */
  type Time = int

  /** The byte that opens every message. */
  const StartMarker: Byte := 0x54

  datatype Option<+T> = None | Some(value: T)

  /** One byte of the stream with the times at which it started and ended. */
  datatype TimedByte = TimedByte(value: Byte, startTime: Time, endTime: Time)

  /** A complete message as the framer assembles it: start marker, type,
      payload length, payload; the start time of its first byte and the end
      time of its last. */
  datatype RawMessage = RawMessage(bytes: seq<Byte>, startTime: Time, endTime: Time)

  /** The shape of every message on the wire: it opens with the start
      marker and its total size is the declared payload length plus the
      three header bytes. */
  predicate WellFramed(bytes: seq<Byte>)
  {
    |bytes| >= 3 && bytes[0] == StartMarker && |bytes| == bytes[2] as int + 3
  }

  /** The byte values of a run of timestamped bytes. */
  function Values(bs: seq<TimedByte>): (vs: seq<Byte>)
    ensures |vs| == |bs|
    ensures forall i :: 0 <= i < |bs| ==> vs[i] == bs[i].value
  {
    if bs == [] then [] else Values(bs[..|bs| - 1]) + [bs[|bs| - 1].value]
  }
}
