/** The message decoders: the monitor decoder for type 0xB3, which reads
    little-endian fields at fixed offsets, the pass-through decoder for every
    other type, and the dispatch between them. */
module Messages {
  import opened Protocol

  /** The type byte of a monitor message. */
  const MonitorCode: Byte := 0xB3

  /** A monitor message is read up to offset 17, so it needs 18 bytes. */
  const MonitorSize: nat := 18

  function Pow256(n: nat): (p: nat)
    ensures p >= 1
  {
    if n == 0 then 1 else 256 * Pow256(n - 1)
  }

  /** An unsigned little-endian number: the first byte is the least
      significant. */
  function LittleEndian(s: seq<Byte>): (v: nat)
    ensures v < Pow256(|s|)
  {
    if s == [] then 0 else s[0] + 256 * LittleEndian(s[1..])
  }

  /** The inverse of LittleEndian: the `width` bytes of `v`, least
      significant first. */
  function ToLittleEndian(v: nat, width: nat): (s: seq<Byte>)
    requires v < Pow256(width)
    ensures |s| == width && LittleEndian(s) == v
  {
    if width == 0 then [] else [v % 256] + ToLittleEndian(v / 256, width - 1)
  }

  /** No information is lost: the bytes of a number, read back at the same
      width, are the bytes we started with. */
  lemma {:induction false} LittleEndianInjective(s: seq<Byte>)
    ensures ToLittleEndian(LittleEndian(s), |s|) == s
  {
    if s != [] {
      LittleEndianInjective(s[1..]);
      var v := LittleEndian(s);
      assert v % 256 == s[0] && v / 256 == LittleEndian(s[1..]);
    }
  }

  /** A two-byte field as the source spells it out. */
  lemma LittleEndian2(s: seq<Byte>)
    requires |s| == 2
    ensures LittleEndian(s) == s[0] as int + s[1] as int * 256
  {
    assert s[1..][1..] == [];
  }

  /** A four-byte field as the source spells it out. */
  lemma LittleEndian4(s: seq<Byte>)
    requires |s| == 4
    ensures LittleEndian(s) == s[0] as int + s[1] as int * 256 + s[2] as int * 65536 + s[3] as int * 16777216
  {
    LittleEndian2(s[2..]);
    assert s[1..][1..] == s[2..];
  }

  /** The two worked values: frequency bytes 10 00 00 00 read as 16, and
      a two-byte field FF FF as 65535. */
  lemma LittleEndianExamples()
    ensures LittleEndian([0x10, 0x00, 0x00, 0x00]) == 16
    ensures LittleEndian([0xFF, 0xFF]) == 65535
  {
    LittleEndian4([0x10, 0x00, 0x00, 0x00]);
    LittleEndian2([0xFF, 0xFF]);
  }

  /** A decoded message. A monitor message carries the type and length
      bytes and the seven fields; any other type is passed through as its
      type, declared length and raw payload. A monitor message too short to
      hold its fields is Truncated, with the number of bytes it had. */
  datatype Decoded =
    | Monitor(typ: Byte, len: Byte, state: Byte, frequency: nat, controlError: Byte,
              dutyCycle: Byte, bridgeVoltage: nat, rxPower: nat, inputVoltage: nat)
    | Unknown(typ: Byte, len: Byte, data: seq<Byte>)
    | Truncated(size: nat)

  /** What the analyzer hands to the display: the message's time span and
      its decoded content. */
  datatype Frame = Frame(startTime: Time, endTime: Time, msg: Decoded)

  /** The monitor decoder. Offsets 14 and 15 are not read. */
  function MonitorType(frame: seq<Byte>): (r: Decoded)
    ensures r.Monitor? <==> |frame| >= MonitorSize
    ensures r.Truncated? <==> |frame| < MonitorSize
    ensures r.Truncated? ==> r.size == |frame|
    ensures r.Monitor? ==>
      && r.typ == frame[1] && r.len == frame[2] && r.state == frame[3]
      && r.frequency == frame[4] as int + frame[5] as int * 256 + frame[6] as int * 65536 + frame[7] as int * 16777216
      && r.controlError == frame[8] && r.dutyCycle == frame[9]
      && r.bridgeVoltage == frame[10] as int + frame[11] as int * 256
      && r.rxPower == frame[12] as int + frame[13] as int * 256
      && r.inputVoltage == frame[16] as int + frame[17] as int * 256
    ensures r.Monitor? ==>
      && r.frequency < 0x1_0000_0000
      && r.bridgeVoltage < 0x1_0000 && r.rxPower < 0x1_0000 && r.inputVoltage < 0x1_0000
  {
    if |frame| < MonitorSize then
      Truncated(|frame|)
    else
      LittleEndian4(frame[4..8]);
      LittleEndian2(frame[10..12]);
      LittleEndian2(frame[12..14]);
      LittleEndian2(frame[16..18]);
      Monitor(frame[1], frame[2], frame[3], LittleEndian(frame[4..8]), frame[8], frame[9],
              LittleEndian(frame[10..12]), LittleEndian(frame[12..14]), LittleEndian(frame[16..18]))
  }

  /** The pass-through decoder: the type, the declared length and the
      payload, with nothing lost (the start marker aside). */
  function UnknownType(frame: seq<Byte>): (r: Decoded)
    requires |frame| >= 3
    ensures r.Unknown?
    ensures [frame[0], r.typ, r.len] + r.data == frame
  {
    Unknown(frame[1], frame[2], frame[3..])
  }

  /** Dispatch on the type byte: 0xB3 goes to the monitor decoder, every
      other value to the pass-through decoder. */
  function Dispatch(typ: Byte, frame: seq<Byte>): (r: Decoded)
    requires |frame| >= 3
    ensures r.Unknown? <==> typ != MonitorCode
    ensures r.Unknown? ==> r == UnknownType(frame)
    ensures !r.Unknown? ==> r == MonitorType(frame)
  {
    if typ == MonitorCode then MonitorType(frame) else UnknownType(frame)
  }

  /** A raw message decoded, keeping its time span. */
  function ToFrame(m: RawMessage): (f: Frame)
    requires |m.bytes| >= 3
    ensures f.startTime == m.startTime && f.endTime == m.endTime
    ensures f.msg.Unknown? <==> m.bytes[1] != MonitorCode
  {
    Frame(m.startTime, m.endTime, Dispatch(m.bytes[1], m.bytes))
  }

  /** What one call of the decode step returns, given what the framer
      handed out. */
  function Interpret(o: Option<RawMessage>): (r: Option<Frame>)
    requires o.Some? ==> |o.value.bytes| >= 3
    ensures r.Some? <==> o.Some?
  {
    if o.Some? then Some(ToFrame(o.value)) else None
  }

  /** A monitor message whose fields fit their widths on the wire. */
  predicate ValidMonitor(m: Decoded)
  {
    && m.Monitor?
    && m.frequency < Pow256(4)
    && m.bridgeVoltage < Pow256(2) && m.rxPower < Pow256(2) && m.inputVoltage < Pow256(2)
  }

  /** The 18 bytes of a monitor message, with `reserved` at offsets 14-15. */
  function EncodeMonitor(m: Decoded, reserved: seq<Byte>): (f: seq<Byte>)
    requires ValidMonitor(m) && |reserved| == 2
    ensures |f| == MonitorSize && f[0] == StartMarker
    ensures f[1] == m.typ && f[2] == m.len && f[3] == m.state
    ensures f[4..8] == ToLittleEndian(m.frequency, 4)
    ensures f[8] == m.controlError && f[9] == m.dutyCycle
    ensures f[10..12] == ToLittleEndian(m.bridgeVoltage, 2)
    ensures f[12..14] == ToLittleEndian(m.rxPower, 2)
    ensures f[14..16] == reserved
    ensures f[16..18] == ToLittleEndian(m.inputVoltage, 2)
  {
    var head := [StartMarker, m.typ, m.len, m.state];
    var frequency := ToLittleEndian(m.frequency, 4);
    var bytes := [m.controlError, m.dutyCycle];
    var bridge := ToLittleEndian(m.bridgeVoltage, 2);
    var rx := ToLittleEndian(m.rxPower, 2);
    var input := ToLittleEndian(m.inputVoltage, 2);
    var f := head + frequency + bytes + bridge + rx + reserved + input;
    assert f[4..8] == frequency;
    assert f[10..12] == bridge;
    assert f[12..14] == rx;
    assert f[14..16] == reserved;
    assert f[16..18] == input;
    f
  }

  /** Decoding an encoded monitor message gives back its fields, whatever
      the reserved bytes hold. */
  lemma MonitorRoundTrip(m: Decoded, reserved: seq<Byte>)
    requires ValidMonitor(m) && |reserved| == 2
    ensures MonitorType(EncodeMonitor(m, reserved)) == m
  {
    var f := EncodeMonitor(m, reserved);
    assert LittleEndian(f[4..8]) == m.frequency;
    assert LittleEndian(f[10..12]) == m.bridgeVoltage;
    assert LittleEndian(f[12..14]) == m.rxPower;
    assert LittleEndian(f[16..18]) == m.inputVoltage;
  }

  /** The other direction: an 18-byte monitor message is determined by its
      decoded fields and its reserved bytes. */
  lemma MonitorReencode(f: seq<Byte>)
    requires |f| == MonitorSize && f[0] == StartMarker
    ensures ValidMonitor(MonitorType(f))
    ensures EncodeMonitor(MonitorType(f), f[14..16]) == f
  {
    var m := MonitorType(f);
    LittleEndianInjective(f[4..8]);
    LittleEndianInjective(f[10..12]);
    LittleEndianInjective(f[12..14]);
    LittleEndianInjective(f[16..18]);
    assert f == f[..4] + f[4..8] + f[8..10] + f[10..12] + f[12..14] + f[14..16] + f[16..18];
  }

  /** Offsets 14 and 15, and anything after offset 17, do not influence
      the monitor decoder. */
  lemma MonitorIgnoresReserved(f: seq<Byte>, g: seq<Byte>)
    requires |f| >= MonitorSize && |g| >= MonitorSize
    requires f[..14] == g[..14] && f[16..18] == g[16..18]
    ensures MonitorType(f) == MonitorType(g)
  {
    assert f[4..8] == f[..14][4..8] && g[4..8] == g[..14][4..8];
    assert f[10..12] == f[..14][10..12] && g[10..12] == g[..14][10..12];
    assert f[12..14] == f[..14][12..14] && g[12..14] == g[..14][12..14];
  }

  /** For a well-framed message, the pass-through payload is exactly as long
      as the declared length. */
  lemma FramedUnknownLength(frame: seq<Byte>)
    requires WellFramed(frame)
    ensures |UnknownType(frame).data| == UnknownType(frame).len
  {
  }

  /** A well-framed monitor message decodes to Truncated exactly when its
      declared payload is shorter than the 15 bytes the fields occupy. */
  lemma FramedMonitorTruncatedIff(frame: seq<Byte>)
    requires WellFramed(frame)
    ensures MonitorType(frame).Truncated? <==> frame[2] < MonitorSize - 3
  {
  }

  /** The pass-through example: type 0x99, length 2, payload AA BB. */
  lemma UnknownExample()
    ensures Dispatch(0x99, [StartMarker, 0x99, 2, 0xAA, 0xBB]) == Unknown(0x99, 2, [0xAA, 0xBB])
  {
  }

  /** The truncation example: a monitor message with an empty payload. */
  lemma TruncatedExample()
    ensures Dispatch(MonitorCode, [StartMarker, MonitorCode, 0]) == Truncated(3)
  {
  }
}
