/** The field layout of a Heart Rate Measurement payload stated by offsets
    rather than by a moving cursor, and the proof that the cursor-based
    decoder reads exactly those offsets. The facts about widths, optional
    fields, RR counting and short payloads are stated against this layout. */
module Layout {
  import opened Wrappers
  import opened Stream
  import opened HeartRate

  /** BPM is a 16-bit word when IsShort is set, a single byte otherwise. */
  function BpmWidth(flags: bv8): nat {
    if HasFlag(flags, IsShort) then 2 else 1
  }

  /** Offset of the energy-expended word: right after the BPM field. */
  function EnergyOffset(flags: bv8): nat {
    1 + BpmWidth(flags)
  }

  /** Offset of the first RR interval: after the energy-expended word when
      there is one. It is also the shortest payload holding every fixed
      field the flags announce. */
  function IntervalsOffset(flags: bv8): nat {
    EnergyOffset(flags) + (if HasFlag(flags, HasEnergyExpended) then 2 else 0)
  }

  /** The number of whole 2-byte words from offset `off` to the end of the
      payload; none when `off` is already past the end. */
  function WordCount(buf: seq<bv8>, off: nat): nat {
    (|buf| - Min(off, |buf|)) / 2
  }

  /** The words at offsets `off`, `off + 2`, ... that fit in the payload. */
  function WordsFrom(buf: seq<bv8>, off: nat): (ws: seq<int>)
    ensures |ws| == WordCount(buf, off)
    ensures forall k :: 0 <= k < |ws| ==> ws[k] == WordAt(buf, off + 2 * k)
  {
    seq(WordCount(buf, off), k requires 0 <= k < WordCount(buf, off) => WordAt(buf, off + 2 * k))
  }

  /** Words taken from an offset inside the payload cover it up to at most
      one trailing byte, and each is a 16-bit little-endian value of bytes
      inside the payload. */
  lemma WordsFromBounds(buf: seq<bv8>, off: nat)
    requires off <= |buf|
    ensures var ws := WordsFrom(buf, off);
      && off + 2 * |ws| <= |buf| < off + 2 * |ws| + 2
      && forall k :: 0 <= k < |ws| ==>
           off + 2 * k + 1 < |buf| &&
           ws[k] == LittleEndian(buf[off + 2 * k], buf[off + 2 * k + 1]) &&
           0 <= ws[k] < 0x1_0000
  {}

  /** The reading a payload stands for, field by field at fixed offsets. */
  function Expected(buf: seq<bv8>): Reading
    requires |buf| > 0
  {
    var flags := buf[0];
    Reading(
      flags,
      ContactStatus(flags),
      if HasFlag(flags, IsShort) then WordAt(buf, 1) else ByteAt(buf, 1).AsInt(),
      if HasFlag(flags, HasEnergyExpended) then Some(WordAt(buf, EnergyOffset(flags))) else None,
      if HasFlag(flags, HasRRInterval) then Some(WordsFrom(buf, IntervalsOffset(flags))) else None)
  }

  /** The cursor-based decoder reads every field at its fixed offset: BPM at
      offset 1, energy expended right after it, RR intervals after that. */
  lemma DecodeMatchesLayout(buf: seq<bv8>)
    requires |buf| > 0
    ensures Decode(buf) == Some(Expected(buf))
  {
    var flags := buf[0];
    var afterFlags := Cursor(buf, 1);
    assert ReadRaw(Cursor(buf, 0)) == Step(Byte(flags), afterFlags);
    var bpm :=
      if HasFlag(flags, IsShort) then ReadUInt16(afterFlags) else ReadByte(afterFlags);
    assert bpm.value == Expected(buf).beatsPerMinute;
    assert bpm.next.pos == Min(EnergyOffset(flags), |buf|);
    var ee :=
      if HasFlag(flags, HasEnergyExpended) then
        var w := ReadUInt16(bpm.next);
        Step(Some(w.value), w.next)
      else Step(None, bpm.next);
    assert ee.value == Expected(buf).energyExpended by {
      WordAtClamped(buf, EnergyOffset(flags));
    }
    assert ee.next.pos == Min(IntervalsOffset(flags), |buf|);
    var rr :=
      if HasFlag(flags, HasRRInterval) then Some(ReadIntervals(ee.next, IntervalsLeft(ee.next)).value)
      else None;
    assert rr == Expected(buf).rrIntervals by {
      if HasFlag(flags, HasRRInterval) {
        IntervalsAtOffset(buf, IntervalsOffset(flags), ee.next);
      }
    }
    assert Decode(buf) == Some(Reading(flags, ContactStatus(flags), bpm.value, ee.value, rr));
  }

  /** The RR loop started at the clamped offset `off` reads the words at
      offsets `off`, `off + 2`, ... */
  lemma IntervalsAtOffset(buf: seq<bv8>, off: nat, c: Cursor)
    requires c.buf == buf && c.pos == Min(off, |buf|)
    ensures ReadIntervals(c, IntervalsLeft(c)).value == WordsFrom(buf, off)
  {
    var count := WordCount(buf, off);
    assert IntervalsLeft(c) == count;
    var rr := ReadIntervals(c, count).value;
    if off <= |buf| {
      assert c.pos == off;
      assert rr == WordsFrom(buf, off);
    } else {
      assert count == 0;
    }
  }

  /** BPM width: one byte at offset 1 without IsShort, a little-endian word
      at offsets 1-2 with it, whenever the payload holds the field. */
  lemma BeatsPerMinuteField(buf: seq<bv8>)
    requires |buf| > 0 && |buf| >= 1 + BpmWidth(buf[0])
    ensures var bpm := Decode(buf).value.beatsPerMinute;
      if HasFlag(buf[0], IsShort) then
        bpm == LittleEndian(buf[1], buf[2]) && 0 <= bpm < 0x1_0000
      else
        bpm == buf[1] as int && 0 <= bpm < 0x100
  {
    DecodeMatchesLayout(buf);
  }

  /** Energy expended, when flagged and present, is the little-endian word
      right after the BPM field. */
  lemma EnergyExpendedField(buf: seq<bv8>)
    requires |buf| > 0 && HasFlag(buf[0], HasEnergyExpended)
    requires |buf| >= IntervalsOffset(buf[0])
    ensures var e := EnergyOffset(buf[0]);
      Decode(buf).value.energyExpended == Some(LittleEndian(buf[e], buf[e + 1]))
  {
    DecodeMatchesLayout(buf);
  }

  /** RR intervals fill the rest of the payload: their count is the number
      of whole words after the fixed fields, an odd trailing byte is
      dropped, and every interval is a little-endian word of bytes inside
      the payload, so no interval is a past-the-end sentinel. */
  lemma IntervalsFillRemainder(buf: seq<bv8>)
    requires |buf| > 0 && HasFlag(buf[0], HasRRInterval)
    requires |buf| >= IntervalsOffset(buf[0])
    ensures var rr := Decode(buf).value.rrIntervals.value;
      var off := IntervalsOffset(buf[0]);
      && off + 2 * |rr| <= |buf| < off + 2 * |rr| + 2
      && forall k :: 0 <= k < |rr| ==>
           off + 2 * k + 1 < |buf| &&
           rr[k] == LittleEndian(buf[off + 2 * k], buf[off + 2 * k + 1]) &&
           0 <= rr[k] < 0x1_0000
  {
    DecodeMatchesLayout(buf);
    WordsFromBounds(buf, IntervalsOffset(buf[0]));
  }

  /** When the fixed fields already overrun the payload, an RR-flagged
      reading still carries an (empty) interval list. */
  lemma NoIntervalsWhenOverrun(buf: seq<bv8>)
    requires |buf| > 0 && HasFlag(buf[0], HasRRInterval)
    requires |buf| <= IntervalsOffset(buf[0]) + 1
    ensures Decode(buf).value.rrIntervals == Some([])
  {
    DecodeMatchesLayout(buf);
  }

  /** A payload shorter than its BPM field is still decoded: the missing
      byte reads as -1 for a 1-byte BPM, and a 16-bit BPM reads as 0xFFFF
      with no byte or 0xFF00 plus the low byte with one. */
  lemma ShortPayloadSentinels(buf: seq<bv8>)
    requires 0 < |buf| < 1 + BpmWidth(buf[0])
    ensures Decode(buf).Some?
    ensures var bpm := Decode(buf).value.beatsPerMinute;
      if !HasFlag(buf[0], IsShort) then bpm == -1
      else if |buf| == 1 then bpm == 0xFFFF
      else bpm == 0xFF00 + buf[1] as int
  {
    DecodeMatchesLayout(buf);
  }

  /** A payload of only the flags byte 0x00: BeatsPerMinute is -1. */
  lemma FlagsOnlyPayload()
    ensures Decode([0x00]) == Some(Reading(0x00, NotSupported, -1, None, None))
  {
    ShortPayloadSentinels([0x00]);
  }

  /** A payload of only the flags byte 0x01 (IsShort): BeatsPerMinute is 65535. */
  lemma ShortFlagsOnlyPayload()
    ensures Decode([0x01]) == Some(Reading(0x01, NotSupported, 0xFFFF, None, None))
  {
    ShortPayloadSentinels([0x01]);
  }

  /** An energy-expended word missing its high byte reads as 0xFF00 plus
      its low byte. */
  lemma TruncatedEnergyExpended(buf: seq<bv8>)
    requires |buf| > 0 && HasFlag(buf[0], HasEnergyExpended)
    requires |buf| == EnergyOffset(buf[0]) + 1
    ensures Decode(buf).value.energyExpended == Some(0xFF00 + buf[EnergyOffset(buf[0])] as int)
  {
    DecodeMatchesLayout(buf);
  }

  /** Worked payload: [0x08, 72, 0x10] has energy expended 0xFF10. */
  lemma TruncatedEnergyExpendedPayload()
    ensures Decode([0x08, 72, 0x10]) == Some(Reading(0x08, NotSupported, 72, Some(0xFF10), None))
  {
    DecodeMatchesLayout([0x08, 72, 0x10]);
  }

  /** Worked payload: flags 0x00 and an 8-bit BPM of 72. */
  lemma PlainBpmPayload()
    ensures Decode([0x00, 72]) == Some(Reading(0x00, NotSupported, 72, None, None))
  {
    DecodeMatchesLayout([0x00, 72]);
  }

  /** Worked payload: an energy-expended word 0x0010 after the BPM. */
  lemma EnergyExpendedPayload()
    ensures Decode([0x08, 72, 0x10, 0x00]) == Some(Reading(0x08, NotSupported, 72, Some(16), None))
  {
    DecodeMatchesLayout([0x08, 72, 0x10, 0x00]);
  }

  /** Worked payload: a 16-bit BPM of 100 followed by RR intervals 316 and 80. */
  lemma IntervalsPayload()
    ensures Decode([0x11, 100, 0, 0x3C, 0x01, 0x50, 0x00])
      == Some(Reading(0x11, NotSupported, 100, None, Some([316, 80])))
  {
    var buf: seq<bv8> := [0x11, 100, 0, 0x3C, 0x01, 0x50, 0x00];
    assert Expected(buf) == Reading(0x11, NotSupported, 100, None, Some([316, 80])) by {
      assert HasFlag(buf[0], IsShort) && !HasFlag(buf[0], HasEnergyExpended);
      assert HasFlag(buf[0], HasRRInterval) && IntervalsOffset(buf[0]) == 3;
      assert WordAt(buf, 1) == 100;
      assert WordsFrom(buf, 3) == [316, 80] by {
        assert WordAt(buf, 3) == 316 && WordAt(buf, 5) == 80;
      }
    }
    DecodeMatchesLayout(buf);
  }
}
