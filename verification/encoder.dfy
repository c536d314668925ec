/** A model-side encoder for Heart Rate Measurement payloads, the partner of
    the decoder: it lays out the fields of a reading in the order the
    decoder reads them (flags, BPM, energy expended, RR intervals), all
    multi-byte fields little-endian. */
module Encoder {
  import opened Wrappers
  import opened Stream
  import opened HeartRate
  import opened Layout

  predicate IsUInt16(v: int) {
    0 <= v < 0x1_0000
  }

  /** The readings an encoder can produce: the status agrees with the flags,
      BPM fits the width IsShort selects, the optional fields are present
      exactly when flagged, and every word fits 16 bits. */
  predicate WellFormed(r: Reading) {
    && r.status == ContactStatus(r.flags)
    && 0 <= r.beatsPerMinute < (if HasFlag(r.flags, IsShort) then 0x1_0000 else 0x100)
    && (r.energyExpended.Some? <==> HasFlag(r.flags, HasEnergyExpended))
    && (r.energyExpended.Some? ==> IsUInt16(r.energyExpended.value))
    && (r.rrIntervals.Some? <==> HasFlag(r.flags, HasRRInterval))
    && (r.rrIntervals.Some? ==>
          forall k :: 0 <= k < |r.rrIntervals.value| ==> IsUInt16(r.rrIntervals.value[k]))
  }

  lemma Successor(b: bv8)
    requires b < 0xFF
    ensures (b + 1) as int == b as int + 1
  {}

  /** Bytes with the same value are the same byte. */
  lemma SameValue(a: bv8, b: bv8)
    requires a as int == b as int
    ensures a == b
  {}

  /** The byte whose value is `v`, counted up from zero. Counting up keeps
      the int-to-bitvector conversion of `v as bv8` out of the word proofs,
      where the solver does not finish with it (HighByteOfWord). */
  function ByteOf(v: nat): bv8
    requires v < 0x100
  {
    if v == 0 then 0 else ByteOf(v - 1) + 1
  }

  /** ByteOf(v) has value `v`. */
  lemma {:induction false} ByteOfHasValue(v: nat)
    requires v < 0x100
    ensures ByteOf(v) as int == v
  {
    if v > 0 {
      ByteOfHasValue(v - 1);
      Successor(ByteOf(v - 1));
    }
  }

  /** Writing a byte's value gives the byte back. */
  lemma ByteOfValue(b: bv8)
    ensures ByteOf(b as int) == b
  {
    ByteOfHasValue(b as int);
    SameValue(ByteOf(b as int), b);
  }

  /** One 16-bit value as two bytes, low byte first. */
  function Word(v: int): (bytes: seq<bv8>)
    requires IsUInt16(v)
    ensures |bytes| == 2 && LittleEndian(bytes[0], bytes[1]) == v
  {
    ByteOfHasValue(v % 256);
    ByteOfHasValue(v / 256);
    [ByteOf(v % 256), ByteOf(v / 256)]
  }

  lemma SplitWord(l: int, h: int)
    requires 0 <= l < 256 && 0 <= h < 256
    ensures (l + 256 * h) % 256 == l && (l + 256 * h) / 256 == h
  {}

  lemma LowByteOfWord(lo: bv8, hi: bv8)
    ensures ByteOf(LittleEndian(lo, hi) % 256) == lo
  {
    SplitWord(lo as int, hi as int);
    ByteOfValue(lo);
  }

  lemma HighByteOfWord(lo: bv8, hi: bv8)
    ensures 0 <= LittleEndian(lo, hi) / 256 < 256
    ensures ByteOf(LittleEndian(lo, hi) / 256) == hi
  {
    SplitWord(lo as int, hi as int);
    ByteOfValue(hi);
  }

  /** A word written from the value of two bytes is those two bytes. */
  lemma WordOfLittleEndian(lo: bv8, hi: bv8)
    ensures IsUInt16(LittleEndian(lo, hi)) && Word(LittleEndian(lo, hi)) == [lo, hi]
  {
    LowByteOfWord(lo, hi);
    HighByteOfWord(lo, hi);
  }

  /** A sequence of 16-bit values, each as a little-endian word, in order. */
  function Words(vs: seq<int>): (bytes: seq<bv8>)
    requires forall k :: 0 <= k < |vs| ==> IsUInt16(vs[k])
    ensures |bytes| == 2 * |vs|
    ensures forall k :: 0 <= k < |vs| ==> bytes[2 * k..2 * k + 2] == Word(vs[k])
  {
    if vs == [] then []
    else
      var rest := Words(vs[1..]);
      assert forall k :: 1 <= k < |vs| ==> vs[1..][k - 1] == vs[k];
      Word(vs[0]) + rest
  }

  /** The BPM field: one byte, or a little-endian word with IsShort. */
  function BpmBytes(r: Reading): (bytes: seq<bv8>)
    requires WellFormed(r)
    ensures |bytes| == BpmWidth(r.flags)
  {
    if HasFlag(r.flags, IsShort) then Word(r.beatsPerMinute) else [ByteOf(r.beatsPerMinute)]
  }

  /** The energy-expended field: a word when present, nothing otherwise. */
  function EnergyBytes(r: Reading): (bytes: seq<bv8>)
    requires WellFormed(r)
    ensures |bytes| == IntervalsOffset(r.flags) - EnergyOffset(r.flags)
  {
    if r.energyExpended.Some? then Word(r.energyExpended.value) else []
  }

  /** The RR-interval field: one word per interval, nothing when absent. */
  function IntervalBytes(r: Reading): (bytes: seq<bv8>)
    requires WellFormed(r)
    ensures |bytes| == if r.rrIntervals.Some? then 2 * |r.rrIntervals.value| else 0
  {
    if r.rrIntervals.Some? then Words(r.rrIntervals.value) else []
  }

  /** The payload for a well-formed reading. */
  function Encode(r: Reading): (buf: seq<bv8>)
    requires WellFormed(r)
    ensures |buf| > 0 && buf[0] == r.flags
    ensures |buf| == IntervalsOffset(r.flags) + (if r.rrIntervals.Some? then 2 * |r.rrIntervals.value| else 0)
  {
    [r.flags] + BpmBytes(r) + EnergyBytes(r) + IntervalBytes(r)
  }

  /** Where each field of an encoded reading sits in the payload. */
  lemma EncodeSlices(r: Reading)
    requires WellFormed(r)
    ensures var buf := Encode(r);
      && buf[1..EnergyOffset(r.flags)] == BpmBytes(r)
      && buf[EnergyOffset(r.flags)..IntervalsOffset(r.flags)] == EnergyBytes(r)
      && buf[IntervalsOffset(r.flags)..] == IntervalBytes(r)
  {
    var buf := Encode(r);
    var eo := EnergyOffset(r.flags);
    var off := IntervalsOffset(r.flags);
    assert buf == [r.flags] + BpmBytes(r) + EnergyBytes(r) + IntervalBytes(r);
  }

  /** The BPM field reads back as the reading's BPM. */
  lemma EncodedBpm(r: Reading)
    requires WellFormed(r)
    ensures Expected(Encode(r)).beatsPerMinute == r.beatsPerMinute
  {
    var buf := Encode(r);
    EncodeSlices(r);
    var bytes := BpmBytes(r);
    assert buf[1] == bytes[0];
    if HasFlag(r.flags, IsShort) {
      assert buf[2] == bytes[1];
    } else {
      ByteOfHasValue(r.beatsPerMinute);
    }
  }

  /** The energy-expended field reads back as the reading's value. */
  lemma EncodedEnergy(r: Reading)
    requires WellFormed(r)
    ensures Expected(Encode(r)).energyExpended == r.energyExpended
  {
    var buf := Encode(r);
    EncodeSlices(r);
    var eo := EnergyOffset(r.flags);
    var bytes := EnergyBytes(r);
    if r.energyExpended.Some? {
      assert buf[eo] == bytes[0] && buf[eo + 1] == bytes[1];
    }
  }

  /** Word `k` written after offset `off` reads back from offset `off + 2k`. */
  lemma WordFromWords(buf: seq<bv8>, off: nat, vs: seq<int>, k: nat)
    requires forall j :: 0 <= j < |vs| ==> IsUInt16(vs[j])
    requires off <= |buf| && buf[off..] == Words(vs) && k < |vs|
    ensures WordAt(buf, off + 2 * k) == vs[k]
  {
    var bytes := Words(vs);
    var w := Word(vs[k]);
    assert bytes[2 * k..2 * k + 2] == w;
    assert buf[off + 2 * k] == bytes[2 * k] == w[0];
    assert buf[off + 2 * k + 1] == bytes[2 * k + 1] == w[1];
  }

  /** Words written after offset `off` read back from `off` on. */
  lemma WordsFromWords(buf: seq<bv8>, off: nat, vs: seq<int>)
    requires forall k :: 0 <= k < |vs| ==> IsUInt16(vs[k])
    requires off <= |buf| && buf[off..] == Words(vs)
    ensures WordsFrom(buf, off) == vs
  {
    assert |buf| == off + 2 * |vs|;
    assert WordCount(buf, off) == |vs|;
    var ws := WordsFrom(buf, off);
    forall k | 0 <= k < |vs|
      ensures ws[k] == vs[k]
    {
      WordFromWords(buf, off, vs, k);
    }
  }

  /** The RR field reads back as the reading's intervals. */
  lemma EncodedIntervals(r: Reading)
    requires WellFormed(r)
    ensures Expected(Encode(r)).rrIntervals == r.rrIntervals
  {
    EncodeSlices(r);
    if r.rrIntervals.Some? {
      WordsFromWords(Encode(r), IntervalsOffset(r.flags), r.rrIntervals.value);
    }
  }

  /** Decoding an encoded reading gives the reading back. */
  lemma DecodeEncode(r: Reading)
    requires WellFormed(r)
    ensures Decode(Encode(r)) == Some(r)
  {
    var buf := Encode(r);
    DecodeMatchesLayout(buf);
    EncodedBpm(r);
    EncodedEnergy(r);
    EncodedIntervals(r);
  }

  /** Words written from values read off `bytes` are `bytes` again. */
  lemma {:induction false} WordsOfLittleEndian(bytes: seq<bv8>, vs: seq<int>)
    requires |bytes| == 2 * |vs|
    requires forall k :: 0 <= k < |vs| ==> vs[k] == LittleEndian(bytes[2 * k], bytes[2 * k + 1])
    ensures forall k :: 0 <= k < |vs| ==> IsUInt16(vs[k])
    ensures Words(vs) == bytes
  {
    forall k | 0 <= k < |vs| ensures IsUInt16(vs[k]) {
      WordOfLittleEndian(bytes[2 * k], bytes[2 * k + 1]);
    }
    if vs != [] {
      WordsOfLittleEndian(bytes[2..], vs[1..]);
      WordOfLittleEndian(bytes[0], bytes[1]);
      assert Words(vs) == Word(vs[0]) + Words(vs[1..]);
      assert bytes == bytes[..2] + bytes[2..];
    }
  }

  /** How many bytes of a payload the decoder turns into fields: the fixed
      fields plus every whole RR word when RR intervals are flagged. */
  function ConsumedLength(buf: seq<bv8>): (n: nat)
    requires |buf| > 0
    ensures IntervalsOffset(buf[0]) <= |buf| ==> n <= |buf|
    ensures IntervalsOffset(buf[0]) <= |buf| && HasFlag(buf[0], HasRRInterval) ==> |buf| - n <= 1
  {
    var off := IntervalsOffset(buf[0]);
    off + (if HasFlag(buf[0], HasRRInterval) then 2 * WordCount(buf, off) else 0)
  }

  /** Words read from offset `off` on, written again, are the bytes they
      were read from. */
  lemma WordsOfWordsFrom(buf: seq<bv8>, off: nat)
    requires off <= |buf|
    ensures var ws := WordsFrom(buf, off);
      && (forall k :: 0 <= k < |ws| ==> IsUInt16(ws[k]))
      && off + 2 * |ws| <= |buf|
      && Words(ws) == buf[off..off + 2 * |ws|]
  {
    var ws := WordsFrom(buf, off);
    WordsFromBounds(buf, off);
    var bytes := buf[off..off + 2 * |ws|];
    forall k | 0 <= k < |ws|
      ensures ws[k] == LittleEndian(bytes[2 * k], bytes[2 * k + 1])
    {
      assert bytes[2 * k] == buf[off + 2 * k];
    }
    WordsOfLittleEndian(bytes, ws);
  }

  /** A payload holding every fixed field its flags announce decodes to a
      reading an encoder could have produced. */
  lemma ExpectedWellFormed(buf: seq<bv8>)
    requires |buf| > 0 && |buf| >= IntervalsOffset(buf[0])
    ensures WellFormed(Expected(buf))
  {
    WordsOfWordsFrom(buf, IntervalsOffset(buf[0]));
  }

  /** The re-encoded BPM field is the slice of the payload it was read from. */
  lemma ExpectedBpmBytes(buf: seq<bv8>)
    requires |buf| > 0 && |buf| >= IntervalsOffset(buf[0])
    ensures WellFormed(Expected(buf))
    ensures BpmBytes(Expected(buf)) == buf[1..EnergyOffset(buf[0])]
  {
    ExpectedWellFormed(buf);
    if HasFlag(buf[0], IsShort) {
      WordOfLittleEndian(buf[1], buf[2]);
      assert [buf[1], buf[2]] == buf[1..3];
    } else {
      ByteOfValue(buf[1]);
      assert [buf[1]] == buf[1..2];
    }
  }

  /** The re-encoded energy-expended field is the slice of the payload it
      was read from. */
  lemma ExpectedEnergyBytes(buf: seq<bv8>)
    requires |buf| > 0 && |buf| >= IntervalsOffset(buf[0])
    ensures WellFormed(Expected(buf))
    ensures EnergyBytes(Expected(buf)) == buf[EnergyOffset(buf[0])..IntervalsOffset(buf[0])]
  {
    ExpectedWellFormed(buf);
    var eo := EnergyOffset(buf[0]);
    if HasFlag(buf[0], HasEnergyExpended) {
      WordOfLittleEndian(buf[eo], buf[eo + 1]);
      assert [buf[eo], buf[eo + 1]] == buf[eo..eo + 2];
    }
  }

  /** The re-encoded RR field is the slice of the payload it was read from. */
  lemma ExpectedIntervalBytes(buf: seq<bv8>)
    requires |buf| > 0 && |buf| >= IntervalsOffset(buf[0])
    ensures WellFormed(Expected(buf))
    ensures ConsumedLength(buf) <= |buf|
    ensures IntervalBytes(Expected(buf)) == buf[IntervalsOffset(buf[0])..ConsumedLength(buf)]
  {
    ExpectedWellFormed(buf);
    WordsOfWordsFrom(buf, IntervalsOffset(buf[0]));
  }

  /** A payload prefix split at the field boundaries. */
  lemma SplitPrefix(buf: seq<bv8>, eo: nat, off: nat, n: nat)
    requires 1 <= eo <= off <= n <= |buf|
    ensures buf[..n] == [buf[0]] + buf[1..eo] + buf[eo..off] + buf[off..n]
  {}

  /** The positional reading of a payload re-encodes to the bytes it was
      read from. */
  lemma ExpectedReencodes(buf: seq<bv8>)
    requires |buf| > 0 && |buf| >= IntervalsOffset(buf[0])
    ensures WellFormed(Expected(buf))
    ensures ConsumedLength(buf) <= |buf|
    ensures Encode(Expected(buf)) == buf[..ConsumedLength(buf)]
  {
    ExpectedBpmBytes(buf);
    ExpectedEnergyBytes(buf);
    ExpectedIntervalBytes(buf);
    SplitPrefix(buf, EnergyOffset(buf[0]), IntervalsOffset(buf[0]), ConsumedLength(buf));
  }

  /** A payload holding every fixed field its flags announce decodes to a
      well-formed reading that re-encodes to the bytes the decoder consumed;
      only bytes the decoder ignores (beyond the fixed fields without RR, or
      an odd trailing byte with RR) are lost. */
  lemma EncodeDecode(buf: seq<bv8>)
    requires |buf| > 0 && |buf| >= IntervalsOffset(buf[0])
    ensures Decode(buf).Some? && WellFormed(Decode(buf).value)
    ensures ConsumedLength(buf) <= |buf|
    ensures Encode(Decode(buf).value) == buf[..ConsumedLength(buf)]
    ensures HasFlag(buf[0], HasRRInterval) ==> |buf| - ConsumedLength(buf) <= 1
  {
    DecodeMatchesLayout(buf);
    ExpectedReencodes(buf);
  }
}
