/** `minLength`, which the source computes but never applies, and an
    extension of it by the energy-expended word.

    CharacteristicListener computes `minLength` (GenericHRLib/GenericHRDevice.cs:126)
    and then ignores it, so a payload shorter than its flags announce still
    raises HeartRateUpdated, with -1 or 0xFFxx in the missing fields. This
    module states that behaviour as a counterexample and defines two guarded
    decoders:
    - DecodeMinLength applies `minLength` exactly as computed. That covers
      the flags byte and the BPM field only.
    - DecodeChecked extends `minLength` by the energy-expended word. Every
      field of a reading it accepts comes from bytes of the payload. */
module Checked {
  import opened Wrappers
  import opened Stream
  import opened HeartRate
  import opened Layout
  import opened Encoder

  datatype DecodeError = Empty | Truncated

  /** The payload is dropped when it is empty or shorter than the fixed
      fields its flags announce (the flags byte, the BPM field and the
      energy-expended word); otherwise it is decoded as before. */
  function DecodeChecked(buf: seq<bv8>): (r: Result<Reading, DecodeError>)
    ensures r == Failure(Empty) <==> |buf| == 0
    ensures r == Failure(Truncated) <==> 0 < |buf| < IntervalsOffset(buf[0])
    ensures r.Success? ==> Decode(buf) == Some(r.value)
    ensures r.Success? ==> WellFormed(r.value) && Encode(r.value) <= buf
  {
    if |buf| == 0 then Failure(Empty)
    else if |buf| < IntervalsOffset(buf[0]) then Failure(Truncated)
    else
      EncodeDecode(buf);
      Success(Decode(buf).value)
  }

  /** The checked decoder accepts every encoded reading unchanged. */
  lemma DecodeCheckedEncode(r: Reading)
    requires WellFormed(r)
    ensures DecodeChecked(Encode(r)) == Success(r)
  {
    DecodeEncode(r);
  }

  /** As written, the one-byte payload [0x00] raises a reading whose BPM is
      -1, which no encoder could have produced; both guarded decoders drop it
      as truncated. */
  lemma UncheckedTruncation()
    ensures Decode([0x00]).Some? && Decode([0x00]).value.beatsPerMinute == -1
    ensures !WellFormed(Decode([0x00]).value)
    ensures DecodeMinLength([0x00]) == Failure(Truncated)
    ensures DecodeChecked([0x00]) == Failure(Truncated)
  {
    FlagsOnlyPayload();
  }

  /** `minLength` as the source computes it: the flags byte plus the BPM
      field, three bytes with IsShort and two without. The energy-expended
      word is not counted. */
  function MinLength(flags: bv8): nat {
    if HasFlag(flags, IsShort) then 3 else 2
  }

  /** The decoder with `minLength` applied exactly as computed: an empty
      payload or one shorter than `minLength` is dropped. In every accepted
      reading the BPM field comes from payload bytes. */
  function DecodeMinLength(buf: seq<bv8>): (r: Result<Reading, DecodeError>)
    ensures r == Failure(Empty) <==> |buf| == 0
    ensures r == Failure(Truncated) <==> 0 < |buf| < MinLength(buf[0])
    ensures r.Success? ==> Decode(buf) == Some(r.value)
    ensures r.Success? ==>
      r.value.beatsPerMinute ==
        (if HasFlag(buf[0], IsShort) then LittleEndian(buf[1], buf[2]) else buf[1] as int)
  {
    if |buf| == 0 then Failure(Empty)
    else if |buf| < MinLength(buf[0]) then Failure(Truncated)
    else
      BeatsPerMinuteField(buf);
      Success(Decode(buf).value)
  }

  /** The two guards differ only on energy-expended payloads that hold the
      BPM field but not the whole energy-expended word: `minLength` lets
      those through, the extended check drops them. Everywhere else the two
      decoders give the same result. */
  lemma MinLengthVersusChecked(buf: seq<bv8>)
    ensures DecodeMinLength(buf) != DecodeChecked(buf) <==>
      (|buf| > 0 && HasFlag(buf[0], HasEnergyExpended) &&
       MinLength(buf[0]) <= |buf| < MinLength(buf[0]) + 2)
    ensures DecodeMinLength(buf) != DecodeChecked(buf) ==>
      DecodeMinLength(buf).Success? && DecodeChecked(buf) == Failure(Truncated)
    ensures (|buf| > 0 ==> !HasFlag(buf[0], HasEnergyExpended)) ==>
      DecodeMinLength(buf) == DecodeChecked(buf)
  {}

  /** [0x08, 72] passes `minLength`, and its energy expended is then read
      from past the end of the payload as 0xFFFF. The extended check drops
      it. */
  lemma MinLengthMissesEnergy()
    ensures DecodeMinLength([0x08, 72]) == Success(Reading(0x08, NotSupported, 72, Some(0xFFFF), None))
    ensures DecodeChecked([0x08, 72]) == Failure(Truncated)
  {}
}
