/**
 Bit packing of date-times in ChainPack: milliseconds since 2018-02-02, or seconds when
 no milliseconds are left, then seven bits of quarter-hour offset when it is not zero,
 then two flag bits.  The packed number is written with the signed integer code.
 */
module DateTimeCode {
  import opened ByteStrings
  import opened IntCode

  const SHV_EPOCH_MSEC := 1517529600000

  /** Seven-bit two's complement field of the quarter-hour quotient. */
  function OffsetField(minutesFromUtc: int): nat
  {
    TruncDiv(minutesFromUtc, 15) % 128
  }

  /** The number that `cchainpack_pack_date_time` hands to the integer packer. */
  function Pack(epochMsec: int, minutesFromUtc: int): int
  {
    var msecs := epochMsec - SHV_EPOCH_MSEC;
    var offset := OffsetField(minutesFromUtc);
    var whole := msecs % 1000 == 0;
    var d := if whole then msecs / 1000 else msecs;
    var shifted := if offset != 0 then d * 128 + offset else d;
    shifted * 4 + (if offset != 0 then 1 else 0) + (if whole then 2 else 0)
  }

  /** The CP_DateTime case of `cchainpack_unpack_next`; None is its overflow error. */
  function Unpack(d: int): Option<(int, int)>
  {
    var hasOffset, whole := d % 2 == 1, d / 2 % 2 == 1;
    var d2 := d / 4;
    var offset := if hasOffset then Wrap(d2 % 128, 128) else 0;
    var d3 := if hasOffset then d2 / 128 else d2;
    if whole && !(-TWO_63 <= d3 * 1000 < TWO_63) then None
    else Some(((if whole then d3 * 1000 else d3) + SHV_EPOCH_MSEC, offset * 15))
  }

  predicate Representable(epochMsec: int, minutesFromUtc: int)
  {
    && -TWO_63 <= epochMsec - SHV_EPOCH_MSEC < TWO_63
    && -TWO_63 < Pack(epochMsec, minutesFromUtc) < TWO_63
  }

  /** Every date-time within 2^54 ms of the SHV epoch can be packed, whatever its offset. */
  lemma NearEpochIsRepresentable(epochMsec: int, minutesFromUtc: int)
    requires -0x40_0000_0000_0000 <= epochMsec - SHV_EPOCH_MSEC < 0x40_0000_0000_0000
    ensures Representable(epochMsec, minutesFromUtc)
  {
  }

  lemma FlagBits(hi: int, f: nat)
    requires f < 4
    ensures (hi * 4 + f) % 2 == f % 2 && (hi * 4 + f) / 2 % 2 == f / 2 && (hi * 4 + f) / 4 == hi
  {
  }

  lemma WrapOfField(q: int)
    ensures Wrap(q % 128 % 128, 128) == Wrap(q, 128)
  {
  }

  /**
   The packed number: the lowest bit tells of an offset, the next one of whole seconds, then seven bits of offset if
   there is one, and the time above them.
   */
  lemma PackedFields(epochMsec: int, minutesFromUtc: int)
    ensures var p, t := Pack(epochMsec, minutesFromUtc), epochMsec - 1517529600000;
      var q := TruncDiv(minutesFromUtc, 15) % 128;
      && (p % 2 == 1 <==> q != 0)
      && (p / 2 % 2 == 1 <==> t % 1000 == 0)
      && (q != 0 ==> p / 4 % 128 == q)
      && (if q != 0 then p / 512 else p / 4) == if t % 1000 == 0 then t / 1000 else t
  {
    var msecs, offset := epochMsec - SHV_EPOCH_MSEC, OffsetField(minutesFromUtc);
    var whole := msecs % 1000 == 0;
    var d := if whole then msecs / 1000 else msecs;
    var shifted := if offset != 0 then d * 128 + offset else d;
    FlagBits(shifted, (if offset != 0 then 1 else 0) + (if whole then 2 else 0));
  }

  /** Milliseconds survive exactly; the offset survives as its quarter-hour quotient in seven bits. */
  lemma PackRoundTrip(epochMsec: int, minutesFromUtc: int)
    requires Representable(epochMsec, minutesFromUtc)
    ensures Unpack(Pack(epochMsec, minutesFromUtc))
         == Some((epochMsec, Wrap(TruncDiv(minutesFromUtc, 15), 128) * 15))
  {
    var msecs := epochMsec - SHV_EPOCH_MSEC;
    var offset := OffsetField(minutesFromUtc);
    var whole := msecs % 1000 == 0;
    var d := if whole then msecs / 1000 else msecs;
    var shifted := if offset != 0 then d * 128 + offset else d;
    FlagBits(shifted, (if offset != 0 then 1 else 0) + (if whole then 2 else 0));
    WrapOfField(TruncDiv(minutesFromUtc, 15));
    if offset != 0 {
      assert shifted / 128 == d && shifted % 128 == offset;
    }
  }

  /** The quarter-hour part of the offset is kept exactly for quotients of -64 to 63, and for no others. */
  lemma OffsetSurvivesIffInRange(epochMsec: int, minutesFromUtc: int)
    requires Representable(epochMsec, minutesFromUtc)
    ensures var q := TruncDiv(minutesFromUtc, 15);
      Unpack(Pack(epochMsec, minutesFromUtc)) == Some((epochMsec, q * 15)) <==> -64 <= q <= 63
  {
    PackRoundTrip(epochMsec, minutesFromUtc);
  }

  /** A date-time behind its schema byte: the instant, the offset and what follows. */
  function Decode(s: Bytes): Option<(int, int, Bytes)>
  {
    var d := DecodeInt(s);
    if d.Underflow? then None
    else
      var t := Unpack(d.num);
      if t.None? then None else Some((t.value.0, t.value.1, d.rest))
  }

  /** Through the byte code: the packed bytes followed by anything decode to the same instant. */
  lemma CodeRoundTrip(epochMsec: int, minutesFromUtc: int, packed: int, rest: Bytes)
    requires Representable(epochMsec, minutesFromUtc)
    requires -TWO_63 < packed < TWO_63 && packed == Pack(epochMsec, minutesFromUtc)
    ensures Decode(EncodeInt(packed) + rest) == Some((epochMsec, Wrap(TruncDiv(minutesFromUtc, 15), 128) * 15, rest))
  {
    hide EncodeInt, DecodeInt, Pack, Unpack, Representable;
    IntRoundTrip(packed, rest);
    PackRoundTrip(epochMsec, minutesFromUtc);
  }
}
