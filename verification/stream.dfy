/** A model of the read side of a .NET MemoryStream over a fixed byte buffer,
    as the heart-rate decoder uses it (GenericHRLib/GenericHRDevice.cs:119-146),
    and of the `ReadUInt16` extension the decoder defines on top of it
    (GenericHRLib/GenericHRDevice.cs:156-160).

    MemoryStream.ReadByte returns the next byte as an `int` and advances the
    position by one; at the end of the buffer it returns -1 and leaves the
    position where it is. The position therefore never passes the end. */
module Stream {

  /** The outcome of one ReadByte call: a byte, or end of stream. */
  datatype ByteRead = Byte(b: bv8) | EndOfStream {

    /** The `int` that ReadByte hands back: the byte's value, or -1. */
    function AsInt(): (v: int)
      ensures -1 <= v < 256
      ensures v == -1 <==> EndOfStream?
    {
      if Byte? then b as int else -1
    }

    /** The same `int` as the 32 bits C#'s `|` and `<<` operate on
        (two's complement, so -1 is all ones). */
    function Bits(): bv32 {
      if Byte? then b as bv32 else 0xFFFF_FFFF
    }
  }

  /** A stream over `buf` whose next read happens at `pos`. */
  datatype Cursor = Cursor(buf: seq<bv8>, pos: nat) {
    predicate Valid() {
      pos <= |buf|
    }
  }

  /** A value read from a stream, together with the stream after the read. */
  datatype Step<+T> = Step(value: T, next: Cursor)

  function Min(a: nat, b: nat): nat {
    if a <= b then a else b
  }

  /** Reference reading of offset `i`, independent of any cursor: the byte
      there, or end of stream at or past the end of the buffer. */
  function ByteAt(buf: seq<bv8>, i: nat): ByteRead {
    if i < |buf| then Byte(buf[i]) else EndOfStream
  }

  /** A 16-bit little-endian value: low byte first. */
  function LittleEndian(lo: bv8, hi: bv8): int {
    lo as int + 256 * hi as int
  }

  /** Reference value of a 16-bit read starting at offset `i`: the
      little-endian word when both bytes exist, 0xFF00 with the low byte when
      only the low byte exists, and 0xFFFF when neither does. */
  function WordAt(buf: seq<bv8>, i: nat): int {
    if i + 2 <= |buf| then LittleEndian(buf[i], buf[i + 1])
    else if i + 1 == |buf| then 0xFF00 + buf[i] as int
    else 0xFFFF
  }

  /** Stream.ReadByte, keeping whether the end was hit. */
  function ReadRaw(c: Cursor): (r: Step<ByteRead>)
    requires c.Valid()
    ensures r.next.Valid() && r.next.buf == c.buf
    ensures r.value == ByteAt(c.buf, c.pos)
    ensures r.next.pos == Min(c.pos + 1, |c.buf|)
  {
    if c.pos < |c.buf| then Step(Byte(c.buf[c.pos]), c.(pos := c.pos + 1))
    else Step(EndOfStream, c)
  }

  /** Stream.ReadByte as C# sees it: an `int` that is -1 at end of stream. */
  function ReadByte(c: Cursor): (r: Step<int>)
    requires c.Valid()
    ensures r.next.Valid() && r.next.buf == c.buf
    ensures r.next.pos == Min(c.pos + 1, |c.buf|)
    ensures c.pos < |c.buf| ==> r.value == c.buf[c.pos] as int
    ensures c.pos == |c.buf| ==> r.value == -1
  {
    var raw := ReadRaw(c);
    Step(raw.value.AsInt(), raw.next)
  }

  /** The 16 bits a C# `(ushort)` cast keeps of a 32-bit `int`. */
  function Ushort(w: bv32): bv16 {
    (w & 0xFFFF) as bv16
  }

  lemma WordOfTwoBytes(lo: bv8, hi: bv8)
    ensures Ushort((lo as bv32) | ((hi as bv32) << 8)) as int == LittleEndian(lo, hi)
  {
    assert Ushort((lo as bv32) | ((hi as bv32) << 8)) == (lo as bv16) + (hi as bv16) * 256;
  }

  lemma WordOfLowByteOnly(lo: bv8)
    ensures Ushort((lo as bv32) | (0xFFFF_FFFF << 8)) as int == 0xFF00 + lo as int
  {
    assert Ushort((lo as bv32) | (0xFFFF_FFFF << 8)) == 0xFF00 + lo as bv16;
  }

  lemma WordOfNoByte(hi: bv32)
    ensures Ushort(0xFFFF_FFFF | (hi << 8)) as int == 0xFFFF
  {}

  /** `(ushort)(lo | (hi << 8))` on the two `int`s ReadByte returned. A -1
      low byte sets every bit; a -1 high byte sets bits 8 and up. */
  function CombineWord(lo: ByteRead, hi: ByteRead): (r: int)
    ensures lo.Byte? && hi.Byte? ==> r == LittleEndian(lo.b, hi.b)
    ensures lo.Byte? && hi.EndOfStream? ==> r == 0xFF00 + lo.b as int
    ensures lo.EndOfStream? ==> r == 0xFFFF
  {
    var w := lo.Bits() | (hi.Bits() << 8);
    if lo.Byte? && hi.Byte? then
      WordOfTwoBytes(lo.b, hi.b);
      Ushort(w) as int
    else if lo.Byte? then
      WordOfLowByteOnly(lo.b);
      Ushort(w) as int
    else
      WordOfNoByte(hi.Bits());
      Ushort(w) as int
  }

  /** MemoryStreamExtensions.ReadUInt16: two ReadByte calls, low byte first. */
  function ReadUInt16(c: Cursor): (r: Step<int>)
    requires c.Valid()
    ensures r.next.Valid() && r.next.buf == c.buf
    ensures r.next.pos == Min(c.pos + 2, |c.buf|)
    ensures r.value == WordAt(c.buf, c.pos)
    ensures 0 <= r.value < 0x1_0000
  {
    var lo := ReadRaw(c);
    var hi := ReadRaw(lo.next);
    Step(CombineWord(lo.value, hi.value), hi.next)
  }

  /** Reading at the clamped position is reading at the offset itself: past
      the end, both see end of stream. */
  lemma WordAtClamped(buf: seq<bv8>, i: nat)
    ensures WordAt(buf, Min(i, |buf|)) == WordAt(buf, i)
  {}
}
