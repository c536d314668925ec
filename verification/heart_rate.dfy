/** The Heart Rate Measurement decoder of GenericHRDevice.CharacteristicListener
    (GenericHRLib/GenericHRDevice.cs:109-150): the payload of GATT
    characteristic 0x2A37, as laid out in section 3.1 of the Bluetooth Heart
    Rate Service specification, becomes a HeartRateReading.

    The model follows the code as written: a non-empty payload always yields a
    reading, and a read past the end of the payload yields the stream's -1
    rather than an error. */
module HeartRate {
  import opened Wrappers
  import opened Stream

  /** The sensor-contact field of the flags byte (bits 1-2). */
  datatype ContactSensorStatus = NotSupported | NotSupported2 | NoContact | Contact

  /** The C# cast of the values 0..3 to ContactSensorStatus. */
  function StatusOfValue(v: bv8): ContactSensorStatus
    requires v < 4
  {
    if v == 0 then NotSupported
    else if v == 1 then NotSupported2
    else if v == 2 then NoContact
    else Contact
  }

  /** The declared members of HeartRateFlags. */
  const IsShort: bv8 := 1
  const HasEnergyExpended: bv8 := 1 << 3
  const HasRRInterval: bv8 := 1 << 4

  /** Enum.HasFlag: every bit of `flag` is set in `flags`. */
  predicate HasFlag(flags: bv8, flag: bv8) {
    flags & flag == flag
  }

  /** `(ContactSensorStatus)(((int)flags >> 1) & 3)`. */
  function ContactStatus(flags: bv8): ContactSensorStatus {
    StatusOfValue((flags >> 1) & 3)
  }

  /** The contact status depends on bits 1-2 alone, and each of the four
      bit patterns gives a different member. */
  lemma ContactStatusBits(flags: bv8)
    ensures ContactStatus(flags) == NotSupported <==> flags & 6 == 0
    ensures ContactStatus(flags) == NotSupported2 <==> flags & 6 == 2
    ensures ContactStatus(flags) == NoContact <==> flags & 6 == 4
    ensures ContactStatus(flags) == Contact <==> flags & 6 == 6
  {}

  /** HeartRateReading. `flags` is the raw first byte, reserved bits
      included; `energyExpended` is C#'s `int?` and `rrIntervals` the
      `int[]` that stays null unless the RR flag is set. */
  datatype Reading = Reading(
    flags: bv8,
    status: ContactSensorStatus,
    beatsPerMinute: int,
    energyExpended: Option<int>,
    rrIntervals: Option<seq<int>>)

  /** The RR loop: `n` ReadUInt16 calls in a row, collected in read order. */
  function ReadIntervals(c: Cursor, n: nat): (r: Step<seq<int>>)
    requires c.Valid()
    ensures r.next.Valid() && r.next.buf == c.buf
    ensures r.next.pos == Min(c.pos + 2 * n, |c.buf|)
    ensures |r.value| == n
    ensures forall k :: 0 <= k < n ==> r.value[k] == WordAt(c.buf, c.pos + 2 * k)
  {
    if n == 0 then Step([], c)
    else
      var done := ReadIntervals(c, n - 1);
      WordAtClamped(c.buf, c.pos + 2 * (n - 1));
      var w := ReadUInt16(done.next);
      Step(done.value + [w.value], w.next)
  }

  /** The number of RR intervals the decoder allocates once the cursor is
      at `c`: the remaining bytes divided by sizeof(ushort). */
  function IntervalsLeft(c: Cursor): nat
    requires c.Valid()
  {
    (|c.buf| - c.pos) / 2
  }

  /** CharacteristicListener from line 111 on. `None` is the early return on
      an empty payload; `Some(reading)` is the reading handed to the
      HeartRateUpdated event. `minLength` (line 126) is computed by the
      source but never consulted, so it has no counterpart here. */
  function Decode(buf: seq<bv8>): (r: Option<Reading>)
    ensures r.None? <==> |buf| == 0
    ensures r.Some? ==> r.value.flags == buf[0]
    ensures r.Some? ==> r.value.status == ContactStatus(buf[0])
    ensures r.Some? ==> (r.value.energyExpended.Some? <==> HasFlag(buf[0], HasEnergyExpended))
    ensures r.Some? ==> (r.value.rrIntervals.Some? <==> HasFlag(buf[0], HasRRInterval))
  {
    if |buf| == 0 then None
    else
      var first := ReadRaw(Cursor(buf, 0));
      var flags := first.value.b;
      var isShort := HasFlag(flags, IsShort);
      var contact := ContactStatus(flags);
      var hasEE := HasFlag(flags, HasEnergyExpended);
      var hasRR := HasFlag(flags, HasRRInterval);
      var bpm := if isShort then ReadUInt16(first.next) else ReadByte(first.next);
      var ee :=
        if hasEE then
          var w := ReadUInt16(bpm.next);
          Step(Some(w.value), w.next)
        else Step(None, bpm.next);
      var rr :=
        if hasRR then Some(ReadIntervals(ee.next, IntervalsLeft(ee.next)).value)
        else None;
      Some(Reading(flags, contact, bpm.value, ee.value, rr))
  }

  /** The RR loop as written: allocate `(Length - Position) / 2` slots, then
      fill them one ReadUInt16 at a time. It computes what ReadIntervals
      describes, and every interval is the little-endian word of two bytes
      inside the buffer. */
  method ReadRRIntervals(c: Cursor) returns (intervals: seq<int>, after: Cursor)
    requires c.Valid()
    ensures Step(intervals, after) == ReadIntervals(c, IntervalsLeft(c))
    ensures forall k :: 0 <= k < |intervals| ==>
      c.pos + 2 * k + 1 < |c.buf| &&
      intervals[k] == LittleEndian(c.buf[c.pos + 2 * k], c.buf[c.pos + 2 * k + 1])
  {
    var count := IntervalsLeft(c);
    intervals := [];
    after := c;
    var i := 0;
    while i < count
      invariant i <= count
      invariant Step(intervals, after) == ReadIntervals(c, i)
    {
      ReadIntervalsStep(c, i);
      var w := ReadUInt16(after);
      intervals := intervals + [w.value];
      after := w.next;
      i := i + 1;
    }
    IntervalsWithinBuffer(c);
  }

  /** One more loop iteration appends one more ReadUInt16. */
  lemma ReadIntervalsStep(c: Cursor, n: nat)
    requires c.Valid()
    ensures var done := ReadIntervals(c, n);
      var w := ReadUInt16(done.next);
      ReadIntervals(c, n + 1) == Step(done.value + [w.value], w.next)
  {}

  /** Reading the `(Length - Position) / 2` intervals the decoder allocates
      stops at most one byte before the end and reads only bytes inside the
      buffer. */
  lemma IntervalsWithinBuffer(c: Cursor)
    requires c.Valid()
    ensures var rr := ReadIntervals(c, IntervalsLeft(c));
      && rr.next.pos == c.pos + 2 * |rr.value|
      && rr.next.pos <= |c.buf| < rr.next.pos + 2
      && forall k :: 0 <= k < |rr.value| ==>
           c.pos + 2 * k + 1 < |c.buf| &&
           rr.value[k] == LittleEndian(c.buf[c.pos + 2 * k], c.buf[c.pos + 2 * k + 1])
  {
    var count := IntervalsLeft(c);
    var rr := ReadIntervals(c, count);
    assert c.pos + 2 * count <= |c.buf| < c.pos + 2 * count + 2;
    forall k | 0 <= k < count
      ensures c.pos + 2 * k + 1 < |c.buf|
      ensures rr.value[k] == LittleEndian(c.buf[c.pos + 2 * k], c.buf[c.pos + 2 * k + 1])
    {
      assert rr.value[k] == WordAt(c.buf, c.pos + 2 * k);
    }
  }
}
