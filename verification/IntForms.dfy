/** What the integer codes of ChainPack look like, byte by byte. */
module IntForms {
  import opened ByteStrings
  import opened IntCode

  lemma Powers()
    ensures Pow256(0) == 1 && Pow256(1) == 0x100 && Pow256(2) == 0x1_0000 && Pow256(3) == 0x100_0000
    ensures Pow2(7) == 0x80 && Pow2(14) == 0x4000 && Pow2(21) == 0x20_0000 && Pow2(28) == 0x1000_0000
  {
    Pow2Constants();
    Pow2Adds(7, 7);
    Pow2Adds(14, 7);
    Pow2Adds(14, 14);
  }

  /** The byte of a number at a power of 256. */
  function ByteAt(n: nat, p: nat): byte
    requires p > 0
  {
    n / p % 0x100
  }

  lemma FirstByte(n: nat, k: nat, p: nat, more: Bytes)
    requires k > 0 && p == Pow256(k - 1) && more == BigEndian(n, k - 1)
    ensures BigEndian(n, k) == [ByteAt(n, p)] + more
  {
  }

  /** The bytes of a number of up to four bytes, the highest one first. */
  lemma FewBytes(n: nat)
    ensures BigEndian(n, 1) == [ByteAt(n, 1)]
    ensures BigEndian(n, 2) == [ByteAt(n, 0x100), ByteAt(n, 1)]
    ensures BigEndian(n, 3) == [ByteAt(n, 0x1_0000), ByteAt(n, 0x100), ByteAt(n, 1)]
    ensures BigEndian(n, 4) == [ByteAt(n, 0x100_0000), ByteAt(n, 0x1_0000), ByteAt(n, 0x100), ByteAt(n, 1)]
  {
    var none: Bytes := [];
    assert BigEndian(n, 0) == none;
    hide BigEndian, Pow256, Pow2, ByteAt;
    Powers();
    var d, c, b := ByteAt(n, 1), ByteAt(n, 0x100), ByteAt(n, 0x1_0000);
    FirstByte(n, 1, 1, none);
    assert [d] + none == [d];
    FirstByte(n, 2, 0x100, [d]);
    FirstByte(n, 3, 0x1_0000, [c, d]);
    FirstByte(n, 4, 0x100_0000, [b, c, d]);
  }

  /** A short form: the highest byte gives way to the length mark and the bits that do not fill a byte. */
  lemma ShortForm(n: nat, bits: nat, cnt: nat, top: byte, rest: Bytes, mark: nat, span: nat, high: nat)
    requires bits <= 28 && cnt == BytesNeeded(bits) && 1 <= cnt <= 4 && BigEndian(n, cnt) == [top] + rest
    requires mark == HeadMark(cnt) && span == HeadSpan(cnt) && top % span == high && mark + high < 0x100
    ensures EncodeData(n, bits) == [mark + high] + rest
  {
  }

  lemma OneOrTwoBytes(n: nat, bits: nat, cnt: nat)
    requires bits <= 14 && cnt == BytesNeeded(bits) && n < if cnt == 1 then 0x80 else 0x4000
    ensures cnt == 1 ==> EncodeData(n, bits) == [n]
    ensures cnt == 2 ==> EncodeData(n, bits) == [0x80 + n / 0x100, ByteAt(n, 1)]
  {
    assert cnt == 1 || cnt == 2;
    FewBytes(n);
    TopByte(n, cnt);
    Heads();
    hide BigEndian, EncodeData, ByteAt, HeadMark, HeadSpan, BytesNeeded;
    if cnt == 1 {
      ShortForm(n, bits, cnt, ByteAt(n, 1), [], 0, 0x80, n);
    } else {
      ShortForm(n, bits, cnt, ByteAt(n, 0x100), [ByteAt(n, 1)], 0x80, 0x40, n / 0x100);
    }
  }

  lemma ThreeOrFourBytes(n: nat, bits: nat, cnt: nat)
    requires 14 < bits <= 28 && cnt == BytesNeeded(bits) && n < if cnt == 3 then 0x20_0000 else 0x1000_0000
    ensures cnt == 3 ==> EncodeData(n, bits) == [0xC0 + n / 0x1_0000, ByteAt(n, 0x100), ByteAt(n, 1)]
    ensures cnt == 4 ==>
      EncodeData(n, bits) == [0xE0 + n / 0x100_0000, ByteAt(n, 0x1_0000), ByteAt(n, 0x100), ByteAt(n, 1)]
  {
    assert cnt == 3 || cnt == 4;
    FewBytes(n);
    TopByte(n, cnt);
    Heads();
    hide BigEndian, EncodeData, ByteAt, HeadMark, HeadSpan, BytesNeeded;
    var low := [ByteAt(n, 0x100), ByteAt(n, 1)];
    if cnt == 3 {
      ShortForm(n, bits, cnt, ByteAt(n, 0x1_0000), low, 0xC0, 0x20, n / 0x1_0000);
    } else {
      ShortForm(n, bits, cnt, ByteAt(n, 0x100_0000), [ByteAt(n, 0x1_0000)] + low, 0xE0, 0x10, n / 0x100_0000);
    }
  }

  /** The four short forms, for data that fit them. */
  lemma ShortForms(n: nat, bits: nat)
    requires bits <= 28 && n < Pow2(7 * BytesNeeded(bits))
    ensures bits <= 7 ==> EncodeData(n, bits) == [n]
    ensures 7 < bits <= 14 ==> EncodeData(n, bits) == [0x80 + n / 0x100, ByteAt(n, 1)]
    ensures 14 < bits <= 21 ==> EncodeData(n, bits) == [0xC0 + n / 0x1_0000, ByteAt(n, 0x100), ByteAt(n, 1)]
    ensures 21 < bits ==>
      EncodeData(n, bits) == [0xE0 + n / 0x100_0000, ByteAt(n, 0x1_0000), ByteAt(n, 0x100), ByteAt(n, 1)]
  {
    hide EncodeData, ByteAt, Pow2;
    Powers();
    if bits <= 14 {
      OneOrTwoBytes(n, bits, BytesNeeded(bits));
    } else {
      ThreeOrFourBytes(n, bits, BytesNeeded(bits));
    }
  }

  lemma Heads()
    ensures HeadMark(1) == 0 && HeadMark(2) == 0x80 && HeadMark(3) == 0xC0 && HeadMark(4) == 0xE0
    ensures HeadSpan(1) == 0x80 && HeadSpan(2) == 0x40 && HeadSpan(3) == 0x20 && HeadSpan(4) == 0x10
  {
  }

  /** In numbers of so many bits, the highest byte has no others. */
  lemma TopByte(n: nat, cnt: nat)
    requires 1 <= cnt <= 4 && n < [0x80, 0x4000, 0x20_0000, 0x1000_0000][cnt - 1]
    ensures cnt == 1 ==> ByteAt(n, 1) % 0x80 == n
    ensures cnt == 2 ==> ByteAt(n, 0x100) % 0x40 == n / 0x100
    ensures cnt == 3 ==> ByteAt(n, 0x1_0000) % 0x20 == n / 0x1_0000
    ensures cnt == 4 ==> ByteAt(n, 0x100_0000) % 0x10 == n / 0x100_0000
  {
  }

  /** The long form: the number of bytes, and the bytes. */
  lemma LongForm(n: nat, bits: nat)
    requires 28 < bits <= 64
    ensures var k := (bits - 1) / 8 + 1;
      4 <= k <= 8 && EncodeData(n, bits) == [0xF0 + (k - 4)] + BigEndian(n, k)
  {
    var k := (bits - 1) / 8 + 1;
    assert BytesNeeded(bits) == k + 1;
    assert BigEndian(n, k + 1)[1..] == BigEndian(n, k);
  }

  /** The number in `k` bytes and no fewer, behind their count. */
  ghost predicate IsLong(n: nat, k: nat, s: Bytes)
  {
    4 <= k <= 8 && Pow2(8 * k - 8) <= n < Pow2(8 * k) && s == [0xF0 + (k - 4)] + BigEndian(n, k)
  }

  /** Unsigned numbers: the form is decided by their size. */
  lemma UIntForms(n: nat)
    requires n < TWO_64
    ensures n < 0x80 ==> EncodeUInt(n) == [n]
    ensures 0x80 <= n < 0x4000 ==> EncodeUInt(n) == [0x80 + n / 0x100, ByteAt(n, 1)]
    ensures 0x4000 <= n < 0x20_0000 ==> EncodeUInt(n) == [0xC0 + n / 0x1_0000, ByteAt(n, 0x100), ByteAt(n, 1)]
    ensures 0x20_0000 <= n < 0x1000_0000 ==>
      EncodeUInt(n) == [0xE0 + n / 0x100_0000, ByteAt(n, 0x1_0000), ByteAt(n, 0x100), ByteAt(n, 1)]
    ensures 0x1000_0000 <= n ==> exists k: nat :: IsLong(n, k, EncodeUInt(n))
  {
    var bits := SignificantBits(n);
    SizeDecides(n, bits);
    assert EncodeUInt(n) == EncodeData(n, bits);
    hide SignificantBits, EncodeData, EncodeUInt, Pow2, BigEndian;
    if bits <= 28 {
      Pow2Monotone(bits, 7 * BytesNeeded(bits));
      ShortForms(n, bits);
    } else {
      var k := (bits - 1) / 8 + 1;
      LongForm(n, bits);
      LongSize(n, bits, k);
      assert IsLong(n, k, EncodeUInt(n));
    }
  }

  lemma SizeDecides(n: nat, bits: nat)
    requires bits == SignificantBits(n) && n < TWO_64
    ensures n < Pow2(bits) && bits <= 64
    ensures (n < 0x80 <==> bits <= 7) && (n < 0x4000 <==> bits <= 14)
    ensures (n < 0x20_0000 <==> bits <= 21) && (n < 0x1000_0000 <==> bits <= 28)
  {
    hide SignificantBits, Pow2;
    Powers();
    Pow2Constants();
    SignificantBitsIsLog(n, bits);
    SignificantBitsIsLog(n, 7);
    SignificantBitsIsLog(n, 14);
    SignificantBitsIsLog(n, 21);
    SignificantBitsIsLog(n, 28);
    SignificantBitsIsLog(n, 64);
  }

  lemma LongSize(n: nat, bits: nat, k: nat)
    requires bits == SignificantBits(n) && 28 < bits <= 64 && k == (bits - 1) / 8 + 1
    ensures 4 <= k <= 8 && Pow2(8 * k - 8) <= n < Pow2(8 * k)
  {
    hide SignificantBits, Pow2;
    SignificantBitsIsLog(n, 8 * k);
    SignificantBitsIsLog(n, 8 * k - 8);
  }

  /** Signed numbers of one byte: the second bit is the sign. */
  lemma SmallIntForm(n: int)
    requires -64 < n < 64
    ensures EncodeInt(n) == [if n < 0 then 64 - n else n]
  {
    var bits := SignedLength(n);
    SmallSize(n, bits);
    hide SignificantBits, EncodeData, SignedLength;
    ShortForms(SignedData(n), bits);
  }

  lemma SmallSize(n: int, bits: nat)
    requires -64 < n < 64 && bits == SignedLength(n)
    ensures bits <= 7 && BytesNeeded(bits) == 1 && Pow2(7) == 128
    ensures SignedData(n) == if n < 0 then 64 - n else n
  {
    assert Pow2(6) == 64;
    SignificantBitsIsLog(Abs(n), 6);
  }
}
