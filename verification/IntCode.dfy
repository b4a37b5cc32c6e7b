/**
 The integer data code of ChainPack (libshvchainpack/c/cchainpack.c): one to four
 bytes whose head byte starts with a unary length mark, or a head byte 1111nnnn
 followed by n + 4 big-endian bytes.  Signed numbers keep their magnitude and put
 the sign into the highest bit that the chosen form can hold.
 */
module IntCode {
  import opened ByteStrings

  lemma {:induction false} Pow2Adds(a: nat, b: nat)
    ensures Pow2(a + b) == Pow2(a) * Pow2(b)
  {
    if a > 0 {
      Pow2Adds(a - 1, b);
    }
  }

  lemma {:induction false} Pow2Monotone(a: nat, b: nat)
    requires a <= b
    ensures Pow2(a) <= Pow2(b)
  {
    if a < b {
      Pow2Monotone(a, b - 1);
    }
  }

  lemma Pow2Constants()
    ensures Pow2(4) == 16 && Pow2(5) == 32 && Pow2(6) == 64 && Pow2(7) == 128 && Pow2(8) == 256
    ensures Pow2(16) == 0x1_0000 && Pow2(32) == TWO_32 && Pow2(63) == TWO_63 && Pow2(64) == TWO_64
  {
    assert Pow2(4) == 16;
    assert Pow2(8) == 256;
    Pow2Adds(8, 8);
    Pow2Adds(16, 16);
    Pow2Adds(32, 32);
  }

  // ---------------------------------------------------------------- bit lengths

  /** Number of significant bits; 0 for 0 (`significant_bits_part_length`). */
  function SignificantBits(n: nat): nat
  {
    if n == 0 then 0 else 1 + SignificantBits(n / 2)
  }

  lemma {:induction false} SignificantBitsIsLog(n: nat, k: nat)
    ensures SignificantBits(n) <= k <==> n < Pow2(k)
  {
    if n > 0 && k > 0 {
      SignificantBitsIsLog(n / 2, k - 1);
    }
  }

  lemma {:induction false} SignificantBitsOfShift(n: nat, k: nat)
    requires n >= Pow2(k)
    ensures SignificantBits(n) == k + SignificantBits(n / Pow2(k))
  {
    if k > 0 {
      SignificantBitsOfShift(n / 2, k - 1);
      DivDiv(n, 2, Pow2(k - 1));
    }
  }

  lemma HalvingStep(n: nat, k: nat, limit: nat)
    requires limit == Pow2(k)
    ensures SignificantBits(n) == if n >= limit then k + SignificantBits(n / limit) else SignificantBits(n)
  {
    if n >= limit {
      SignificantBitsOfShift(n, k);
    }
  }

  /** The table look-up form used when the compiler has no count-leading-zeros builtin. */
  function SignificantBitsByHalving(n: nat): (len: nat)
    requires n < TWO_64
    ensures len == SignificantBits(n)
  {
    HalvingConstants();
    HalvingStep(n, 32, 0x1_0000_0000);
    if n >= 0x1_0000_0000 then 32 + BitsOfWord(n / 0x1_0000_0000) else BitsOfWord(n)
  }

  function BitsOfWord(n: nat): (len: nat)
    requires n < 0x1_0000_0000
    ensures len == SignificantBits(n)
  {
    HalvingConstants();
    HalvingStep(n, 16, 0x1_0000);
    if n >= 0x1_0000 then 16 + BitsOfHalf(n / 0x1_0000) else BitsOfHalf(n)
  }

  function BitsOfHalf(n: nat): (len: nat)
    requires n < 0x1_0000
    ensures len == SignificantBits(n)
  {
    HalvingConstants();
    HalvingStep(n, 8, 0x100);
    if n >= 0x100 then 8 + BitsOfByte(n / 0x100) else BitsOfByte(n)
  }

  function BitsOfByte(n: nat): (len: nat)
    requires n < 0x100
    ensures len == SignificantBits(n)
  {
    HalvingConstants();
    HalvingStep(n, 4, 0x10);
    if n >= 0x10 then 4 + BitsOfNibble(n / 0x10) else BitsOfNibble(n)
  }

  function BitsOfNibble(n: nat): (len: nat)
    requires n < 16
    ensures len == SignificantBits(n)
  {
    SmallBits(n);
    [0, 1, 2, 2, 3, 3, 3, 3, 4, 4, 4, 4, 4, 4, 4, 4][n]
  }

  lemma HalvingConstants()
    ensures Pow2(4) == 0x10 && Pow2(8) == 0x100 && Pow2(16) == 0x1_0000 && Pow2(32) == 0x1_0000_0000
  {
    Pow2Constants();
  }

  lemma SmallBits(n: nat)
    requires n < 16
    ensures SignificantBits(n) == [0, 1, 2, 2, 3, 3, 3, 3, 4, 4, 4, 4, 4, 4, 4, 4][n]
  {
  }

  /** `bytes_needed`; C division truncates, so a bit length of 0 needs one byte. */
  function BytesNeeded(bitLen: nat): nat
  {
    if bitLen == 0 then 1
    else if bitLen <= 28 then (bitLen - 1) / 7 + 1
    else (bitLen - 1) / 8 + 2
  }

  /** Payload bits of the head form that takes `cnt` bytes. */
  function Capacity(cnt: nat): nat
    requires cnt >= 1
  {
    if cnt <= 4 then 7 * cnt else 8 * (cnt - 1)
  }

  /** `expand_bit_len`: position of the sign bit. */
  function SignPosition(bitLen: nat): nat
    requires bitLen >= 1
  {
    var cnt := BytesNeeded(bitLen);
    if bitLen <= 28 then cnt * 7 - 1 else (cnt - 1) * 8 - 1
  }

  lemma SignPositionIsLastPayloadBit(bitLen: nat)
    requires bitLen >= 1
    ensures SignPosition(bitLen) == Capacity(BytesNeeded(bitLen)) - 1
    ensures bitLen - 1 <= SignPosition(bitLen)
    ensures bitLen <= 64 ==> SignPosition(bitLen) <= 63
  {
  }

  /** The form chosen for a bit length is the shortest one whose payload can hold it. */
  lemma BytesNeededIsShortest(bitLen: nat, cnt: nat)
    requires cnt >= 1
    ensures bitLen <= Capacity(BytesNeeded(bitLen))
    ensures bitLen <= Capacity(cnt) ==> BytesNeeded(bitLen) <= cnt
  {
  }

  // ---------------------------------------------------------------- encoding

  function Pow256(k: nat): (p: nat)
    ensures p >= 1
  {
    if k == 0 then 1 else 256 * Pow256(k - 1)
  }

  lemma {:induction false} Pow256IsPow2(k: nat)
    ensures Pow256(k) == Pow2(8 * k)
  {
    if k > 0 {
      Pow256IsPow2(k - 1);
      Pow2Constants();
      Pow2Adds(8, 8 * (k - 1));
    }
  }

  /** The low `cnt` base-256 digits of `num`, most significant first. */
  function BigEndian(num: nat, cnt: nat): (s: Bytes)
    ensures |s| == cnt
  {
    if cnt == 0 then [] else [(num / Pow256(cnt - 1)) % 256] + BigEndian(num, cnt - 1)
  }

  function FromBigEndian(acc: nat, s: Bytes): nat
    decreases |s|
  {
    if s == [] then acc else FromBigEndian(acc * 256 + s[0], s[1..])
  }

  lemma DigitAndRest(n: nat, p: nat)
    requires p > 0
    ensures (n / p) % 256 * p + n % p == n % (256 * p)
  {
    var q, r := n / p, n % p;
    var qq, d := q / 256, q % 256;
    assert n == q * p + r && q == qq * 256 + d;
    MulDistributes(qq * 256, d, p);
    MulAssociates(qq, 256, p);
    TwoDigitBound(d, r, 256, p);
    DivModUnique(n, 256 * p, qq, d * p + r);
  }

  lemma {:induction false} BigEndianInverts(acc: nat, n: nat, cnt: nat)
    ensures FromBigEndian(acc, BigEndian(n, cnt)) == acc * Pow256(cnt) + n % Pow256(cnt)
    decreases cnt
  {
    if cnt > 0 {
      var p := Pow256(cnt - 1);
      var d := (n / p) % 256;
      BigEndianInverts(acc * 256 + d, n, cnt - 1);
      DigitAndRest(n, p);
      assert BigEndian(n, cnt)[1..] == BigEndian(n, cnt - 1);
      MulDistributes(acc * 256, d, p);
      MulAssociates(acc, 256, p);
    } else {
      assert n % 1 == 0;
    }
  }

  /** Unary length mark of a head byte and the span of the payload bits beside it. */
  function HeadMark(cnt: nat): nat requires 1 <= cnt <= 4 { [0, 0x80, 0xC0, 0xE0][cnt - 1] }
  function HeadSpan(cnt: nat): nat requires 1 <= cnt <= 4 { [128, 64, 32, 16][cnt - 1] }

  /** `pack_uint_data_helper`. */
  function EncodeData(num: nat, bitLen: nat): (s: Bytes)
    requires bitLen <= 64
    ensures |s| == BytesNeeded(bitLen)
  {
    var cnt := BytesNeeded(bitLen);
    var raw := BigEndian(num, cnt);
    if bitLen <= 28 then [HeadMark(cnt) + raw[0] % HeadSpan(cnt)] + raw[1..]
    else [0xf0 + (cnt - 5)] + raw[1..]
  }

  /** `cchainpack_pack_uint_data`. */
  function EncodeUInt(num: nat): (s: Bytes)
    requires num < TWO_64
    ensures |s| >= 1
  {
    Pow2Constants();
    SignificantBitsIsLog(num, 64);
    EncodeData(num, SignificantBits(num))
  }

  /** `cchainpack_pack_int_data`; INT64_MIN is outside, since the code negates its argument. */
  function EncodeInt(snum: int): (s: Bytes)
    requires -TWO_63 < snum < TWO_63
    ensures |s| >= 1
  {
    MagnitudeBits(snum);
    EncodeData(SignedData(snum), SignedLength(snum))
  }

  /** The bits to be stored: those of the magnitude and the sign bit. */
  function SignedLength(snum: int): nat { SignificantBits(Abs(snum)) + 1 }

  /** The magnitude with the sign bit set for negative numbers. */
  function SignedData(snum: int): nat
  {
    Abs(snum) + if snum < 0 then Pow2(SignPosition(SignedLength(snum))) else 0
  }

  /** Setting the sign bit with `|` adds it: the magnitude lies below it. */
  lemma SignBitIsFree(mag: nat, bits: nat)
    requires mag < Pow2(bits)
    ensures mag < Pow2(SignPosition(bits + 1))
  {
    Pow2Monotone(bits, SignPosition(bits + 1));
  }

  // ---------------------------------------------------------------- decoding

  datatype Head = Head(extra: nat, payload: nat, bitLen: nat)

  /** What `unpack_uint` learns from the first byte. */
  function ReadHead(b: byte): (h: Head)
    ensures h.bitLen >= 7
  {
    if b < 0x80 then Head(0, b, 7)
    else if b < 0xC0 then Head(1, b - 0x80, 14)
    else if b < 0xE0 then Head(2, b - 0xC0, 21)
    else if b < 0xF0 then Head(3, b - 0xE0, 28)
    else Head(b - 0xF0 + 4, 0, 8 * (b - 0xF0 + 4))
  }

  datatype Decoded = Underflow | Decoded(num: int, bitLen: nat, rest: Bytes)

  /** `unpack_uint`: numbers of more than 64 bits come back as UINT64_MAX. */
  function DecodeUInt(s: Bytes): (r: Decoded)
    ensures r.Decoded? ==> |r.rest| < |s| && r.num >= 0 && r.bitLen >= 7
  {
    if s == [] then Underflow
    else
      var h := ReadHead(s[0]);
      if |s| < 1 + h.extra then Underflow
      else
        var num := FromBigEndian(h.payload, s[1..1 + h.extra]);
        Decoded(if h.bitLen > 64 then UINT64_MAX else num, h.bitLen, s[1 + h.extra..])
  }

  /** `unpack_int`: sign bit on top of the magnitude; more than 64 bits come back as INT64_MAX. */
  function DecodeInt(s: Bytes): (r: Decoded)
    ensures r.Decoded? ==> |r.rest| < |s|
  {
    var d := DecodeUInt(s);
    if d.Underflow? then Underflow
    else if d.bitLen > 64 then d.(num := INT64_MAX)
    else
      var sign := Pow2(d.bitLen - 1);
      if d.num / sign % 2 == 1 then d.(num := -(d.num - sign)) else d
  }

  // ---------------------------------------------------------------- round trips

  lemma HeadOfForm(cnt: nat, raw: nat)
    requires 1 <= cnt <= 4 && raw < HeadSpan(cnt)
    ensures ReadHead(HeadMark(cnt) + raw) == Head(cnt - 1, raw, Capacity(cnt))
  {
  }

  lemma LeadingDigit(num: nat, cnt: nat)
    requires 1 <= cnt <= 4 && num < Pow2(7 * cnt)
    ensures num / Pow256(cnt - 1) < HeadSpan(cnt)
  {
    Pow2Constants();
    Pow256IsPow2(cnt - 1);
    Pow2Adds(8 * (cnt - 1), 8 - cnt);
    assert 8 * (cnt - 1) + (8 - cnt) == 7 * cnt;
    assert HeadSpan(cnt) == Pow2(8 - cnt);
    QuotientBound(num, Pow256(cnt - 1), HeadSpan(cnt));
  }

  /** A head byte, as many payload bytes as it announces, and anything after them. */
  lemma DecodeParts(head: byte, payload: Bytes, rest: Bytes)
    requires |payload| == ReadHead(head).extra && ReadHead(head).bitLen <= 64
    ensures DecodeUInt([head] + payload + rest)
         == Decoded(FromBigEndian(ReadHead(head).payload, payload), ReadHead(head).bitLen, rest)
  {
  }

  lemma ShortFormHead(num: nat, cnt: nat)
    requires 1 <= cnt <= 4 && num < Pow2(7 * cnt)
    ensures num / Pow256(cnt - 1) < HeadSpan(cnt)
    ensures BigEndian(num, cnt)[0] % HeadSpan(cnt) == num / Pow256(cnt - 1)
  {
    LeadingDigit(num, cnt);
    SmallMod(num / Pow256(cnt - 1), 256);
    SmallMod(num / Pow256(cnt - 1), HeadSpan(cnt));
  }

  lemma ShortFormValue(num: nat, head: nat, cnt: nat)
    requires cnt >= 1 && head == num / Pow256(cnt - 1)
    ensures FromBigEndian(head, BigEndian(num, cnt)[1..]) == num
  {
    DivModIdentity(num, Pow256(cnt - 1));
    assert BigEndian(num, cnt)[1..] == BigEndian(num, cnt - 1);
    BigEndianInverts(head, num, cnt - 1);
  }

  lemma ShortFormRoundTrip(num: nat, cnt: nat, rest: Bytes)
    requires 1 <= cnt <= 4 && num < Pow2(7 * cnt)
    ensures var raw := BigEndian(num, cnt);
      DecodeUInt([HeadMark(cnt) + raw[0] % HeadSpan(cnt)] + raw[1..] + rest) == Decoded(num, 7 * cnt, rest)
  {
    DivModIdentity(num, Pow256(cnt - 1));
    var head := num / Pow256(cnt - 1);
    ShortFormHead(num, cnt);
    ShortFormValue(num, head, cnt);
    HeadOfForm(cnt, head);
    DecodeParts(HeadMark(cnt) + head, BigEndian(num, cnt)[1..], rest);
  }

  lemma LongFormRoundTrip(num: nat, cnt: nat, rest: Bytes)
    requires 5 <= cnt <= 9 && num < Pow2(8 * (cnt - 1))
    ensures DecodeUInt([0xf0 + (cnt - 5)] + BigEndian(num, cnt)[1..] + rest) == Decoded(num, 8 * (cnt - 1), rest)
  {
    assert BigEndian(num, cnt)[1..] == BigEndian(num, cnt - 1);
    BigEndianInverts(0, num, cnt - 1);
    Pow256IsPow2(cnt - 1);
    SmallMod(num, Pow256(cnt - 1));
    DecodeParts(0xf0 + (cnt - 5), BigEndian(num, cnt)[1..], rest);
  }

  /** The decoder inverts the encoder for every number that fits the chosen form. */
  lemma DataRoundTrip(num: nat, bitLen: nat, rest: Bytes)
    requires bitLen <= 64 && num < Pow2(Capacity(BytesNeeded(bitLen)))
    ensures DecodeUInt(EncodeData(num, bitLen) + rest) == Decoded(num, Capacity(BytesNeeded(bitLen)), rest)
  {
    var cnt := BytesNeeded(bitLen);
    if bitLen <= 28 {
      ShortFormRoundTrip(num, cnt, rest);
    } else {
      LongFormRoundTrip(num, cnt, rest);
    }
  }

  lemma UIntRoundTrip(num: nat, rest: Bytes)
    requires num < TWO_64
    ensures DecodeUInt(EncodeUInt(num) + rest).Decoded?
    ensures DecodeUInt(EncodeUInt(num) + rest).num == num
    ensures DecodeUInt(EncodeUInt(num) + rest).rest == rest
  {
    Pow2Constants();
    var bitLen := SignificantBits(num);
    SignificantBitsIsLog(num, 64);
    SignificantBitsIsLog(num, bitLen);
    BytesNeededIsShortest(bitLen, 1);
    Pow2Monotone(bitLen, Capacity(BytesNeeded(bitLen)));
    DataRoundTrip(num, bitLen, rest);
  }

  lemma MagnitudeBits(snum: int)
    requires -TWO_63 < snum < TWO_63
    ensures var bits := SignificantBits(Abs(snum)); bits <= 63 && Abs(snum) < Pow2(bits)
  {
    Pow2Constants();
    SignificantBitsIsLog(Abs(snum), 63);
    SignificantBitsIsLog(Abs(snum), SignificantBits(Abs(snum)));
  }

  /** The number handed to the byte packer for a signed value fits the form chosen for it. */
  lemma SignedFits(snum: int, bitLen: nat, pos: nat, cap: nat)
    requires -TWO_63 < snum < TWO_63 && bitLen == SignedLength(snum)
    requires pos == SignPosition(bitLen) && cap == Capacity(BytesNeeded(bitLen))
    ensures bitLen <= 64 && pos <= 63 && cap == pos + 1 && Abs(snum) < Pow2(pos) && Pow2(cap) == 2 * Pow2(pos)
  {
    MagnitudeBits(snum);
    FormFits(Abs(snum), bitLen, pos, cap);
  }

  lemma FormFits(mag: nat, bitLen: nat, pos: nat, cap: nat)
    requires 1 <= bitLen <= 64 && mag < Pow2(bitLen - 1)
    requires pos == SignPosition(bitLen) && cap == Capacity(BytesNeeded(bitLen))
    ensures pos <= 63 && cap == pos + 1 && mag < Pow2(pos) && Pow2(cap) == 2 * Pow2(pos)
  {
    SignPositionIsLastPayloadBit(bitLen);
    SignBitIsFree(mag, bitLen - 1);
  }

  lemma DecodeSigned(s: Bytes, d: Decoded, mag: nat, neg: bool)
    requires d.Decoded? && d == DecodeUInt(s) && 1 <= d.bitLen <= 64
    requires mag < Pow2(d.bitLen - 1) && d.num == mag + if neg then Pow2(d.bitLen - 1) else 0
    ensures DecodeInt(s) == d.(num := if neg then -(mag as int) else mag)
  {
    var sign := Pow2(d.bitLen - 1);
    if neg {
      DivModUnique(mag + sign, sign, 1, mag);
    } else {
      SmallMod(mag, sign);
    }
  }

  /** The sign position the encoder picks is the one the decoder derives from the head byte. */
  lemma SignPositionAgrees(snum: int, rest: Bytes)
    requires -TWO_63 < snum < TWO_63
    ensures var pos := SignPosition(SignedLength(snum));
      && pos <= 63 && Abs(snum) < Pow2(pos)
      && DecodeUInt(EncodeInt(snum) + rest)
         == Decoded(Abs(snum) + (if snum < 0 then Pow2(pos) else 0), pos + 1, rest)
  {
    var bitLen := SignedLength(snum);
    SignedFits(snum, bitLen, SignPosition(bitLen), Capacity(BytesNeeded(bitLen)));
    DataRoundTrip(SignedData(snum), bitLen, rest);
  }

  lemma IntRoundTrip(snum: int, rest: Bytes)
    requires -TWO_63 < snum < TWO_63
    ensures DecodeInt(EncodeInt(snum) + rest).Decoded?
    ensures DecodeInt(EncodeInt(snum) + rest).num == snum
    ensures DecodeInt(EncodeInt(snum) + rest).rest == rest
  {
    SignPositionAgrees(snum, rest);
    var s := EncodeInt(snum) + rest;
    DecodeSigned(s, DecodeUInt(s), Abs(snum), snum < 0);
  }

  /** No head form that can hold the number is shorter than its code, and codes grow with magnitude. */
  lemma EncodeUIntIsShortest(num: nat, cnt: nat)
    requires num < TWO_64 && cnt >= 1
    ensures num < Pow2(Capacity(cnt)) <==> |EncodeUInt(num)| <= cnt
  {
    var bitLen := SignificantBits(num);
    SignificantBitsIsLog(num, Capacity(cnt));
    BytesNeededIsShortest(bitLen, cnt);
    if |EncodeUInt(num)| <= cnt {
      assert Capacity(BytesNeeded(bitLen)) <= Capacity(cnt);
    }
  }

  /** The same for signed numbers: magnitude and sign bit must fit. */
  lemma EncodeIntIsShortest(snum: int, cnt: nat)
    requires -TWO_63 < snum < TWO_63 && cnt >= 1
    ensures Abs(snum) < Pow2(Capacity(cnt) - 1) <==> |EncodeInt(snum)| <= cnt
  {
    var bitLen := SignificantBits(Abs(snum)) + 1;
    SignificantBitsIsLog(Abs(snum), Capacity(cnt) - 1);
    BytesNeededIsShortest(bitLen, cnt);
    if |EncodeInt(snum)| <= cnt {
      assert Capacity(BytesNeeded(bitLen)) <= Capacity(cnt);
    }
  }

  lemma EncodedLengthIsMonotone(a: int, b: int)
    requires -TWO_63 < a < TWO_63 && -TWO_63 < b < TWO_63 && Abs(a) <= Abs(b)
    ensures |EncodeInt(a)| <= |EncodeInt(b)|
    ensures |EncodeUInt(Abs(a))| <= |EncodeUInt(Abs(b))|
  {
    EncodeIntIsShortest(b, |EncodeInt(b)|);
    EncodeIntIsShortest(a, |EncodeInt(b)|);
    EncodeUIntIsShortest(Abs(b), |EncodeUInt(Abs(b))|);
    EncodeUIntIsShortest(Abs(a), |EncodeUInt(Abs(b))|);
  }

  // ---------------------------------------------------------------- the C loops

  lemma ShiftByte(num: nat, k: nat)
    ensures num / Pow256(k) / 256 == num / Pow256(k + 1)
    ensures BigEndian(num, k + 1) == [num / Pow256(k) % 256] + BigEndian(num, k)
  {
    DivDiv(num, Pow256(k), 256);
  }

  /** Fills the byte array from its end, shifting the number. */
  method FillBytes(bytes: array<byte>, num: nat, cnt: nat)
    requires cnt <= bytes.Length
    modifies bytes
    ensures bytes[..cnt] == BigEndian(num, cnt)
  {
    var n, i := num, cnt;
    while i > 0
      invariant 0 <= i <= cnt
      invariant n == num / Pow256(cnt - i)
      invariant bytes[i..cnt] == BigEndian(num, cnt - i)
    {
      ShiftByte(num, cnt - i);
      ghost var done := bytes[i..cnt];
      i := i - 1;
      bytes[i] := n % 256;
      n := n / 256;
      assert bytes[i..cnt] == [bytes[i]] + done;
    }
  }

  /** Fills the byte array and rewrites the head byte. */
  method PackUIntDataHelper(num: nat, bitLen: nat) returns (code: Bytes)
    requires bitLen <= 64 && num < TWO_64
    ensures code == EncodeData(num, bitLen)
  {
    var cnt := BytesNeeded(bitLen);
    var bytes := new byte[32];
    FillBytes(bytes, num, cnt);
    ghost var raw := bytes[..cnt];
    if bitLen <= 28 {
      bytes[0] := HeadMark(cnt) + bytes[0] % HeadSpan(cnt);
    } else {
      bytes[0] := 0xf0 + (cnt - 5);
    }
    assert bytes[..cnt] == [bytes[0]] + raw[1..];
    code := bytes[..cnt];
  }

  lemma {:induction false} FromBigEndianBound(acc: nat, s: Bytes, k: nat)
    requires acc < Pow2(k)
    ensures FromBigEndian(acc, s) < Pow2(k + 8 * |s|)
    decreases |s|
  {
    if s != [] {
      Pow2Constants();
      Pow2Adds(k, 8);
      TwoDigitBound(acc, s[0], Pow2(k), 256);
      FromBigEndianBound(acc * 256 + s[0], s[1..], k + 8);
    }
  }

  lemma {:induction false} FromBigEndianSnoc(acc: nat, s: Bytes, b: byte)
    ensures FromBigEndian(acc, s + [b]) == FromBigEndian(acc, s) * 256 + b
    decreases |s|
  {
    if s != [] {
      assert (s + [b])[1..] == s[1..] + [b];
      FromBigEndianSnoc(acc * 256 + s[0], s[1..], b);
    } else {
      assert [b][1..] == [];
    }
  }

  /** Payload bits beside the length mark, so that the number has `headBits + 8 * extra` bits. */
  lemma HeadBits(b: byte)
    ensures var h := ReadHead(b); h.bitLen >= 8 * h.extra && h.payload < Pow2(h.bitLen - 8 * h.extra)
  {
    Pow2Constants();
  }

  /** Another payload byte; nothing wraps while 64 bits are enough. */
  lemma AddPayload(payload: nat, s: Bytes, b: byte, headBits: nat)
    requires payload < Pow2(headBits) && headBits + 8 * (|s| + 1) <= 64
    ensures (FromBigEndian(payload, s) * 256 + b) % TWO_64 == FromBigEndian(payload, s + [b])
  {
    FromBigEndianSnoc(payload, s, b);
    FromBigEndianBound(payload, s + [b], headBits);
    Pow2Monotone(headBits + 8 * (|s| + 1), 64);
    Pow2Constants();
    SmallMod(FromBigEndian(payload, s + [b]), TWO_64);
  }

  /** The payload loop; the accumulator wraps at 64 bits, which shows only if they are not enough. */
  method UnpackPayload(s: Bytes, extra: nat, payload: nat, ghost headBits: nat) returns (ok: bool, num: nat)
    requires payload < Pow2(headBits)
    ensures ok <==> extra <= |s|
    ensures ok && headBits + 8 * extra <= 64 ==> num == FromBigEndian(payload, s[..extra])
  {
    num, ok := payload, false;
    var i := 0;
    assert s[..0] == [];
    while i < extra
      invariant 0 <= i <= extra && i <= |s|
      invariant headBits + 8 * extra <= 64 ==> num == FromBigEndian(payload, s[..i])
    {
      if i >= |s| {
        return;
      }
      if headBits + 8 * extra <= 64 {
        AddPayload(payload, s[..i], s[i], headBits);
        assert s[..i + 1] == s[..i] + [s[i]];
      }
      num := (num * 256 + s[i]) % TWO_64;
      i := i + 1;
    }
    ok := true;
  }

  method UnpackUInt(s: Bytes) returns (r: Decoded)
    ensures r == DecodeUInt(s)
  {
    if s == [] {
      return Underflow;
    }
    var h := ReadHead(s[0]);
    HeadBits(s[0]);
    var ok, num := UnpackPayload(s[1..], h.extra, h.payload, h.bitLen - 8 * h.extra);
    if !ok {
      return Underflow;
    }
    assert s[1..][..h.extra] == s[1..1 + h.extra];
    r := Decoded(if h.bitLen > 64 then UINT64_MAX else num, h.bitLen, s[1 + h.extra..]);
  }

  method UnpackInt(s: Bytes) returns (r: Decoded)
    ensures r == DecodeInt(s)
  {
    r := UnpackUInt(s);
    if r.Decoded? {
      if r.bitLen > 64 {
        r := r.(num := INT64_MAX);
      } else {
        var sign := Pow2(r.bitLen - 1);
        if r.num / sign % 2 == 1 {
          r := r.(num := -(r.num - sign));
        }
      }
    }
  }
}
