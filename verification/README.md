# GenericHRLib heart-rate measurement decoder, in Dafny

This project models the Heart Rate Measurement decoder of GenericHRLib: the
part of `GenericHRDevice.CharacteristicListener` that turns the payload of
the Bluetooth GATT characteristic 0x2A37 into a `HeartRateReading`, plus the
`MemoryStreamExtensions.ReadUInt16` helper it reads with. The payload layout
is the one in section 3.1 of the Bluetooth Heart Rate Service specification.
Byte 0 is the flags byte. Bit 0 selects an 8-bit or a little-endian 16-bit
BPM at offset 1. Bits 1-2 hold the sensor-contact status. Bit 3 announces a
16-bit energy-expended word. Bit 4 announces 16-bit RR intervals that fill
the rest of the payload.

The decoder is a pure function, `HeartRate.Decode(buf: seq<bv8>): Option<Reading>`:

- `None` is the early return on an empty payload, so no event is raised.
- `Some(r)` is the one reading handed to `HeartRateUpdated`.

The model follows the code as written:

- The memory stream is a cursor (`Stream.Cursor`). Its `ReadByte` yields -1
  at the end of the buffer and leaves the position where it is.
- `ReadUInt16` is `(ushort)(lo | (hi << 8))` computed on 32-bit
  two's-complement ints. A missing high byte therefore gives `0xFF00 | lo`,
  and a missing low byte gives `0xFFFF`.
- `minLength` is computed but never used, so a payload shorter than its
  flags imply still produces a reading, with sentinel values in the missing
  fields.

Modules:

- `Wrappers`: `Option` and `Result`.
- `Stream`: the memory-stream cursor, `ReadByte`, and `ReadUInt16` with the
  bit-level lemmas behind it.
- `HeartRate`: the `ContactSensorStatus`, flag and `Reading` types; `Decode`;
  the RR loop, both as a recursive function and as a loop method.
- `Layout`: an offset-based reference decoder (`Expected`), the proof that
  `Decode` agrees with it on every payload, and the field-by-field facts.
- `Encoder`: a model-side encoder and round trips in both directions.
- `Checked`: `minLength`, which the source computes but never applies, and
  an extension of it by the energy-expended word (see Findings). `DecodeMinLength` applies `minLength`
  exactly as computed: the flags byte and the BPM field.
  `DecodeChecked` extends `minLength` by the energy-expended word.

For the payload `[0x00, 72]` the contact status is `(0 >> 1) & 3 = 0`,
which is `NotSupported`.

## Model

| member | source | states |
|---|---|---|
| Stream.ReadByte | GenericHRLib/GenericHRDevice.cs:132 | a one-byte read yields the byte and advances by one; at the end of the buffer it yields -1 and the position stays put, so the position never passes the end |
| Stream.CombineWord | GenericHRLib/GenericHRDevice.cs:159 | `(ushort)(lo \| (hi << 8))` on the two ReadByte results is the little-endian value lo + 256*hi when both bytes exist, 0xFF00 + lo when only the low byte exists, 0xFFFF when neither does |
| Stream.ReadUInt16 | GenericHRLib/GenericHRDevice.cs:158-159 | ReadUInt16 reads low byte then high byte and advances by at most two without passing the end; its value is the offset-based WordAt: the little-endian word when both bytes exist, 0xFF00 + low byte when only the low byte does, 0xFFFF when neither does, and always in 0..65535 |
| HeartRate.ContactStatusBits | GenericHRLib/GenericHRDevice.cs:123 | the contact status depends only on bits 1-2 of the flags, and each of the four bit patterns gives a different ContactSensorStatus member |
| HeartRate.ReadIntervals | GenericHRLib/GenericHRDevice.cs:142-143 | n successive ReadUInt16 calls yield n values in read order, the k-th being the word at offset pos + 2k, and leave the cursor at min(pos + 2n, length) |
| HeartRate.Decode | GenericHRLib/GenericHRDevice.cs:111-148 | an empty payload yields no reading and a non-empty one yields exactly one; Flags is the raw first byte, reserved bits included; Status comes from bits 1-2; EnergyExpended is present iff bit 3 is set and RRIntervals is non-null iff bit 4 is set |
| HeartRate.ReadRRIntervals | GenericHRLib/GenericHRDevice.cs:140-145 | the loop that fills (length - position) / 2 slots one ReadUInt16 at a time returns the same intervals and final position as ReadIntervals, and each interval is the little-endian word of two bytes inside the buffer |
| HeartRate.IntervalsWithinBuffer | GenericHRLib/GenericHRDevice.cs:140-143 | reading the allocated number of intervals advances the position by two per interval, stops with at most one byte left, and reads only bytes inside the buffer |
| Layout.DecodeMatchesLayout | GenericHRLib/GenericHRDevice.cs:121-146 | for every non-empty payload the cursor-based decoder equals the offset-based reading: BPM at offset 1, energy expended right after the BPM field, RR intervals right after that |
| Layout.BeatsPerMinuteField | GenericHRLib/GenericHRDevice.cs:132 | when the payload holds the BPM field, BPM is the byte at offset 1 (0..255) without IsShort and the little-endian word at offsets 1-2 (0..65535) with it |
| Layout.EnergyExpendedField | GenericHRLib/GenericHRDevice.cs:135-136 | a flagged and present energy-expended value is the little-endian word right after the BPM field |
| Layout.IntervalsFillRemainder | GenericHRLib/GenericHRDevice.cs:138-146 | the RR count is the number of whole words after the fixed fields: an odd trailing byte is dropped, and every interval is a 16-bit little-endian word of bytes inside the payload |
| Layout.NoIntervalsWhenOverrun | GenericHRLib/GenericHRDevice.cs:140 | when the fixed fields leave fewer than two bytes, an RR-flagged reading carries an empty, non-null interval list; the count is never negative |
| Layout.ShortPayloadSentinels | GenericHRLib/GenericHRDevice.cs:132 | a payload too short for its BPM field still yields a reading: BPM is -1 for the 8-bit form, 0xFFFF with no byte and 0xFF00 + low byte with one byte for the 16-bit form |
| Layout.FlagsOnlyPayload | GenericHRLib/GenericHRDevice.cs:132 | the payload [0x00] yields BeatsPerMinute = -1 with no optional fields |
| Layout.ShortFlagsOnlyPayload | GenericHRLib/GenericHRDevice.cs:159 | the payload [0x01] yields BeatsPerMinute = 65535 |
| Layout.TruncatedEnergyExpended | GenericHRLib/GenericHRDevice.cs:135-136 | for every energy-expended payload that ends one byte into the energy-expended word, the value reads as 0xFF00 plus that low byte |
| Layout.TruncatedEnergyExpendedPayload | GenericHRLib/GenericHRDevice.cs:135-136 | [0x08, 72, 0x10] yields BPM 72 and energy expended 0xFF10 |
| Layout.PlainBpmPayload | GenericHRLib/GenericHRDevice.cs:121-133 | [0x00, 72] yields flags 0, status NotSupported, BPM 72 and no optional fields |
| Layout.EnergyExpendedPayload | GenericHRLib/GenericHRDevice.cs:135-136 | [0x08, 72, 0x10, 0x00] yields energy expended 16 |
| Layout.IntervalsPayload | GenericHRLib/GenericHRDevice.cs:138-146 | [0x11, 100, 0, 0x3C, 0x01, 0x50, 0x00] yields a 16-bit BPM of 100 and RR intervals [316, 80] |
| Encoder.DecodeEncode | GenericHRLib/GenericHRDevice.cs:121-146 | for any flags byte and field values that fit (BPM in the width bit 0 selects, 16-bit words, optional fields present exactly when flagged), decoding the encoding of BPM, then energy expended, then RR returns those same fields |
| Encoder.EncodeDecode | GenericHRLib/GenericHRDevice.cs:121-146 | a payload holding its announced fixed fields decodes to a well-formed reading whose encoding is the payload up to the bytes the decoder ignores, which with RR intervals is at most one odd byte |
| Checked.DecodeChecked | GenericHRLib/GenericHRDevice.cs:126 | with the length check applied, an empty payload is Empty, a payload shorter than its announced fixed fields is Truncated, and every accepted reading is the as-written reading, is well-formed and re-encodes to a prefix of the payload |
| Checked.DecodeCheckedEncode | GenericHRLib/GenericHRDevice.cs:126 | the checked decoder accepts every encoded reading and returns it unchanged |
| Checked.UncheckedTruncation | GenericHRLib/GenericHRDevice.cs:126 | as written, [0x00] raises a reading with BPM -1 that no encoding produces; applying `minLength` (DecodeMinLength) and the extended check (DecodeChecked) both reject it as Truncated |
| Checked.DecodeMinLength | GenericHRLib/GenericHRDevice.cs:126 | with `minLength` (3 with IsShort, else 2) applied exactly as computed, an empty payload is Empty, a payload shorter than minLength is Truncated, and an accepted reading is the as-written one whose BPM is the byte at offset 1, or with IsShort the little-endian word at offsets 1-2, never a sentinel |
| Checked.MinLengthVersusChecked | GenericHRLib/GenericHRDevice.cs:126-136 | `DecodeMinLength` and `DecodeChecked` differ exactly on energy-expended payloads that hold the BPM field but not the whole energy-expended word, and there `minLength` accepts while the extended check returns Truncated |
| Checked.MinLengthMissesEnergy | GenericHRLib/GenericHRDevice.cs:126-136 | [0x08, 72] passes `minLength` and yields energy expended 0xFFFF read past the end of the payload; the extended check drops it as Truncated |

## Left out

- `Initialize`, `GetHeartRateDevice`, `ServiceFromDevice` and `CharacteristicFromService` (GenericHRLib/GenericHRDevice.cs:55-107) are blocking WinRT Bluetooth calls. Beyond throwing `HRDeviceException` on a null or failed result, they have no logic to state.
- The `DataReader.FromBuffer` copy (GenericHRLib/GenericHRDevice.cs:115-117) is a foreign buffer API. The payload is taken directly as a `seq<bv8>`.
- `HeartRateUpdated.Invoke` (GenericHRLib/GenericHRDevice.cs:148) is event dispatch. It is modelled as `Decode` returning `Some(reading)`. The `NullReferenceException` it throws when no handler is attached is not modelled.
- `Dispose`, the `_service` field and the characteristic UUID setup (GenericHRLib/GenericHRDevice.cs:49-53, 152-153) are resource and platform plumbing.
- `Debug.WriteLine` diagnostics are output only.
- GenericHRLibProgram/Program.cs is a console front end: it prints each BPM and then busy-waits.
- Reconnecting, backoff and a connection state machine are not present in the code, so nothing of them is modelled.
- `HeartRateReading` is a mutable C# struct. It is modelled as an immutable datatype, because the decoder only sets its fields once before raising the event.

## Findings

| source | as written | input that shows it | evidently intended | confidence | as-written member | corrected member |
|---|---|---|---|---|---|---|
| GenericHRLib/GenericHRDevice.cs:126 | `minLength` is computed and never checked, so a payload shorter than its flags imply still raises a reading whose missing fields are stream sentinels | [0x00] yields BeatsPerMinute = -1; [0x01] yields 65535 | drop a payload shorter than `minLength`, that is, one missing part of its BPM field; `Checked.DecodeChecked` also drops one missing part of its energy-expended word | medium; not executed | Checked.UncheckedTruncation | Checked.DecodeMinLength |
