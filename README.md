# STWBC2-HB high-level analyzer, modelled in Dafny

The analyzer decodes the serial byte stream of the STWBC2-HB wireless
charging and power delivery chip. The capture host delivers one timestamped
byte at a time. A byte framer collects each message: a start marker `0x54`,
a type byte, a payload-length byte, then the payload. When a message is
complete it is dispatched on its type byte. Type `0xB3` goes to the monitor
decoder, which reads little-endian fields at fixed offsets. Every other type
goes to a pass-through decoder that keeps the type, the declared length and
the raw payload.

Files:

- `protocol.dfy` (module `Protocol`): bytes, opaque timestamps, the
  timestamped input byte, the raw message, and the well-framed shape
  (`|bytes| == bytes[2] + 3`, first byte `0x54`).
- `framer.dfy` (module `Framer`): the framer's four fields as a `State`, the
  invariant that holds between calls, the per-byte transition `Step`, `Feed`
  for a whole run of bytes, and the framing lemmas.
- `messages.dfy` (module `Messages`): little-endian reading and its inverse,
  the monitor and pass-through decoders, the dispatch on the type byte, and an
  encoder used to prove that monitor decoding loses nothing but the reserved
  bytes.
- `analyzer.dfy` (module `Analyzer`): the analyzer object `Hla`. Its fields
  are updated in place by `Decode`, which is proved to follow `Framer.Step`
  and `Messages.Interpret`. The module also holds the decode step as the
  source writes it, for the finding below.

The framer has no resynchronisation in the middle of a message. A fresh
`0x54` after an interrupted message does not start a new message: once a
message has started, every byte, `0x54` included, is appended to it. Bytes
are dropped only while the framer is idle. `Framer.BusyAppends` states this.
`Framer.NoiseThenMessage` states the resynchronisation the framer does have:
noise before a message is dropped and the message comes out whole.

## Model

| member | source | states |
|---|---|---|
| Framer.Step | HighLevelAnalyzer.py:99-135 | one byte keeps the framer invariant: a non-empty buffer starts with 0x54 and has a start time; typ is buffer[1] once two bytes are in; from three bytes on, expectedLen is buffer[2] + 3 and exceeds the buffer's length; expectedLen is 0 or at least 3. A handed-out message is well-framed and leaves the buffer empty |
| Framer.Feed | HighLevelAnalyzer.py:84-137 | the framer invariant holds after any run of bytes delivered one at a time |
| Framer.FeedOutputsWellFramed | HighLevelAnalyzer.py:99-135 | every message handed out over any run of bytes starts with 0x54 and holds exactly its declared payload length plus 3 bytes |
| Framer.InitialIsIdle | HighLevelAnalyzer.py:10-12 | the initial fields (no start time, empty buffer, expected length 0) satisfy the invariant, with the buffer empty |
| Framer.NoiseIsDropped | HighLevelAnalyzer.py:99-121 | while the buffer is empty, a byte other than 0x54 changes no field and returns nothing |
| Framer.StartMarkerOpens | HighLevelAnalyzer.py:99-103 | while the buffer is empty, 0x54 opens the buffer [0x54] and records the byte's start time; nothing else changes and nothing is returned |
| Framer.BusyAppends | HighLevelAnalyzer.py:105-118 | once a message has started, every byte, 0x54 included, is appended to it: no resynchronisation mid-message |
| Framer.EmitsExactlyWhenComplete | HighLevelAnalyzer.py:121-135 | a message is returned exactly when the buffer plus the new byte reaches buffer[2] + 3 bytes; it is that whole buffer, with the start marker's start time and the current byte's end time; afterwards the buffer is empty, msgStart is None, and expectedLen and typ keep the finished message's values |
| Framer.ZeroLengthPayload | HighLevelAnalyzer.py:110-121 | from idle, 0x54, a type and a length byte 0 complete a three-byte message on the third byte, with expectedLen 3 |
| Framer.FeedAppend | HighLevelAnalyzer.py:84-137 | feeding two runs one after the other is feeding their concatenation, with the messages concatenated |
| Framer.NoiseRunDropped | HighLevelAnalyzer.py:99-121 | from idle, a run with no 0x54 in it changes nothing and returns nothing |
| Framer.MidMessageStep | HighLevelAnalyzer.py:105-121 | a byte inside a well-framed message that does not finish it is appended and nothing is returned |
| Framer.PrefixBuffered | HighLevelAnalyzer.py:99-121 | from idle, after each proper non-empty prefix of a well-framed message, nothing has been returned, the buffer is exactly that prefix and the start time is the first byte's |
| Framer.FinalStep | HighLevelAnalyzer.py:121-135 | the last byte of a well-framed message returns all its bytes and leaves the framer idle |
| Framer.FramingRoundTrip | HighLevelAnalyzer.py:99-135 | from idle, feeding 0x54, t, N, p0..p(N-1) returns nothing for the first N + 2 bytes and then one message whose bytes are the input, from the first byte's start time to the last byte's end time; the framer is idle afterwards |
| Framer.NoiseThenMessage | HighLevelAnalyzer.py:99-135 | noise without 0x54 followed by a well-framed message returns exactly that message |
| Messages.LittleEndian | HighLevelAnalyzer.py:56-61 | an n-byte little-endian value is below 256^n |
| Messages.ToLittleEndian | HighLevelAnalyzer.py:56-61 | the n bytes of a value below 256^n read back, little-endian, as that value |
| Messages.LittleEndianInjective | HighLevelAnalyzer.py:56-61 | reading bytes little-endian and writing the value back at the same width gives the same bytes |
| Messages.LittleEndian2 | HighLevelAnalyzer.py:59-61 | a two-byte little-endian field is b0 + b1 * 256 |
| Messages.LittleEndian4 | HighLevelAnalyzer.py:56 | a four-byte little-endian field is b0 + b1 * 256 + b2 * 65536 + b3 * 16777216 |
| Messages.LittleEndianExamples | HighLevelAnalyzer.py:56-59 | bytes 10 00 00 00 read as 16 and bytes FF FF read as 65535 |
| Messages.MonitorType | HighLevelAnalyzer.py:32-67 | with at least 18 bytes: type b[1], length b[2], state b[3], frequency b4 + b5*256 + b6*65536 + b7*16777216 below 2^32, control error b[8], duty cycle b[9], bridge voltage (b10, b11), rx power (b12, b13) and input voltage (b16, b17) each below 65536; with fewer than 18 bytes: Truncated with the size |
| Messages.UnknownType | HighLevelAnalyzer.py:69-82 | an Unknown message whose type, length and data, after the first byte, give back the whole message: type b[1], length b[2], data b[3..] |
| Messages.Dispatch | HighLevelAnalyzer.py:124-130 | type 0xB3 goes to the monitor decoder, every other type to the pass-through decoder |
| Messages.ToFrame | HighLevelAnalyzer.py:124-130 | the frame keeps the message's start and end times; it is an Unknown message exactly when byte 1 is not 0xB3 |
| Messages.Interpret | HighLevelAnalyzer.py:121-137 | a frame is returned exactly when the framer hands out a message |
| Messages.EncodeMonitor | HighLevelAnalyzer.py:42-52 | the 18-byte monitor layout: start marker first, the reserved bytes at offsets 14-15 |
| Messages.MonitorRoundTrip | HighLevelAnalyzer.py:55-66 | decoding an encoded monitor message gives back every field, whatever the reserved bytes hold |
| Messages.MonitorReencode | HighLevelAnalyzer.py:55-66 | an 18-byte monitor message is rebuilt exactly from its decoded fields and bytes 14-15 |
| Messages.MonitorIgnoresReserved | HighLevelAnalyzer.py:55-61 | changing bytes 14-15, or any byte after offset 17, leaves the monitor decoding unchanged |
| Messages.FramedUnknownLength | HighLevelAnalyzer.py:79-81 | for a well-framed message, the pass-through data is exactly as long as the declared length |
| Messages.FramedMonitorTruncatedIff | HighLevelAnalyzer.py:55-61 | a well-framed monitor message is Truncated exactly when its declared payload length is below 15 |
| Messages.UnknownExample | HighLevelAnalyzer.py:79-81 | type 0x99, length 2, payload AA BB decodes to Unknown(0x99, 2, [AA, BB]) |
| Messages.TruncatedExample | HighLevelAnalyzer.py:125-127 | a monitor message with an empty payload decodes to Truncated(3) |
| Analyzer.Hla.constructor | HighLevelAnalyzer.py:9-12 | a new analyzer has an empty buffer, no start time and expected length 0, and satisfies the invariant |
| Analyzer.Hla.Decode | HighLevelAnalyzer.py:84-137 | the fields are updated in place to the framer's next state, the invariant is kept, and the result is the decoded frame exactly when a message completes; the dispatch reads the stored type field |
| Analyzer.DecodeAsWritten | HighLevelAnalyzer.py:99-135 | the source's step, where a short 0xB3 message raises before the reset: after a raise the buffer is full, typ is 0xB3 and the buffer holds fewer than 18 bytes |
| Analyzer.StuckAfterRaise | HighLevelAnalyzer.py:116-127 | as written, after a raise every later byte raises again and changes nothing |
| Analyzer.ShortMonitorFrameSticks | HighLevelAnalyzer.py:99-135 | as written, 54 B3 00 raises on the third byte and the following start marker raises too |
| Analyzer.ShortMonitorFrameRecovers | HighLevelAnalyzer.py:121-135 | corrected: a completed 0xB3 message shorter than 18 bytes yields a Truncated frame with its size and time span, and the framer is idle afterwards |
| Analyzer.ShortMonitorFrameExample | HighLevelAnalyzer.py:121-135 | corrected: 54 B3 00 yields Truncated(3) on the third byte, and the next 0x54 opens a new message |

## Findings

| source | as written | input that shows it | evidently intended | confidence | as-written member | corrected member |
|---|---|---|---|---|---|---|
| HighLevelAnalyzer.py:55-61 | `monitor_type` reads offsets 3 to 17 with no size check. `decode` resets the buffer only after the decoder returns (lines 127, 133-134). A short 0xB3 message raises `IndexError` and leaves its full buffer in place. Each later byte completes the same message again and raises again. | the bytes 54 B3 00, assuming the host keeps calling `decode` after an exception | the short message is reported as a decoding failure and framing goes on with the next start marker | medium; not executed | Analyzer.ShortMonitorFrameSticks | Analyzer.ShortMonitorFrameRecovers |

The rest of the model uses the corrected behaviour: `Messages.MonitorType`
returns `Truncated` and the framer resets.

## Left out

- Saleae plumbing: the imports, the `HighLevelAnalyzer` base class and the construction of `AnalyzerFrame` (lines 1, 65, 80) come from a foreign library. `Messages.Frame` stands in for the returned frame: its start and end times and the decoded fields.
- Reading the byte out of the host's frame (`frame.data['data'][0]`, line 96) is host plumbing. `Hla.Decode` takes the byte and the two times as parameters.
- Settings and the `__init__` print (lines 16-18, 27-30) are inert configuration and I/O.
- All `print` diagnostics (lines 54-62, 79) are I/O only.
- The `result_types` display format and the `info` summary strings (lines 21-25, 66, 81) are UI rendering. The decoded fields they render are in `Messages.Decoded`.
- The unused `frames` class attribute (line 13) is not modelled. The class-level defaults of lines 10-12 become per-instance fields set by the constructor. Line 101 replaces the shared class-level list before the first append, so no list is shared between instances.
- The `type` attribute does not exist until the first type byte is stored (line 107). The model starts it at 0. The invariant shows it is never read before it is set.
- Timestamps are opaque integers. The analyzer only copies them.
- Messages.MonitorType departs from the source on purpose. For a 0xB3 message shorter than 18 bytes it returns `Truncated` and the framer resets. The source raises and gets stuck, as the finding above shows. `Analyzer.DecodeAsWritten` models the source's behaviour. What the host does with a raised exception is not part of this model.
- No maximum message length and no timeout exist in the source. An unfinished message stays buffered and is never returned. `Framer.PrefixBuffered` states this for every proper prefix.
