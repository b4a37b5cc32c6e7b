/** The C packers of ChainPack, writing byte by byte into a pack context. */
module ChainPackPackers {
  import opened ByteStrings
  import opened IntCode
  import opened RpcValues
  import opened Codecs
  import opened ChainPack
  import opened PackContexts
  import DateTimeCode

  method CopyCode(ctx: PackContext, num: nat, bitLen: nat)
    requires ctx.Valid() && bitLen <= 64 && num < TWO_64
    modifies ctx, ctx.data
    ensures ctx.Valid() && ctx.log == old(ctx.log) + EncodeData(num, bitLen)
  {
    var bytes := PackUIntDataHelper(num, bitLen);
    for i := 0 to |bytes|
      invariant ctx.Valid() && ctx.log == old(ctx.log) + bytes[..i]
    {
      var n := ctx.CopyByte(bytes[i]);
      assert bytes[..i + 1] == bytes[..i] + [bytes[i]];
    }
    assert bytes[..|bytes|] == bytes;
  }

  method PackUIntData(ctx: PackContext, num: nat)
    requires ctx.Valid() && num < TWO_64
    modifies ctx, ctx.data
    ensures ctx.Valid() && ctx.log == old(ctx.log) + EncodeUInt(num)
  {
    var bitLen := SignificantBitsByHalving(num);
    Pow2Constants();
    SignificantBitsIsLog(num, 64);
    CopyCode(ctx, num, bitLen);
  }

  lemma SignedCodeFits(snum: int, bitLen: nat, pos: nat)
    requires -TWO_63 < snum < TWO_63 && bitLen == SignedLength(snum) && pos == SignPosition(bitLen)
    ensures bitLen <= 64 && Abs(snum) + Pow2(pos) < TWO_64
  {
    SignedFits(snum, bitLen, pos, Capacity(BytesNeeded(bitLen)));
    Pow2Monotone(pos, 63);
    Pow2Constants();
  }

  method PackIntData(ctx: PackContext, snum: int)
    requires ctx.Valid() && -TWO_63 < snum < TWO_63
    modifies ctx, ctx.data
    ensures ctx.Valid() && ctx.log == old(ctx.log) + EncodeInt(snum)
  {
    var num := Abs(snum);
    var bitLen := SignificantBits(num) + 1;
    var pos := SignPosition(bitLen);
    SignedCodeFits(snum, bitLen, pos);
    if snum < 0 {
      num := num + Pow2(pos);
    }
    CopyCode(ctx, num, bitLen);
  }

  method PackUInt(ctx: PackContext, u: nat)
    requires ctx.Valid() && u < TWO_64
    modifies ctx, ctx.data
    ensures ctx.Valid() && ctx.log == old(ctx.log) + PackLeaf(UInt(u))
  {
    var n: nat;
    if u < 64 {
      n := ctx.CopyByte(u % 64);
    } else {
      n := ctx.CopyByte(CP_UINT);
      PackUIntData(ctx, u);
      Append3(old(ctx.log), [CP_UINT], EncodeUInt(u), []);
    }
  }

  method PackInt(ctx: PackContext, i: int)
    requires ctx.Valid() && -TWO_63 < i < TWO_63
    modifies ctx, ctx.data
    ensures ctx.Valid() && ctx.log == old(ctx.log) + PackLeaf(Int(i))
  {
    var n: nat;
    if 0 <= i < 64 {
      n := ctx.CopyByte(i % 64 + 64);
    } else {
      n := ctx.CopyByte(CP_INT);
      PackIntData(ctx, i);
      Append3(old(ctx.log), [CP_INT], EncodeInt(i), []);
    }
  }

  method PackDecimal(ctx: PackContext, m: int, e: int)
    requires ctx.Valid() && Accepts(Decimal(m, e))
    modifies ctx, ctx.data
    ensures ctx.Valid() && ctx.log == old(ctx.log) + PackLeaf(Decimal(m, e))
  {
    Append3(ctx.log, [CP_DECIMAL], EncodeInt(m), EncodeInt(e));
    var n := ctx.CopyByte(CP_DECIMAL);
    PackIntData(ctx, m);
    PackIntData(ctx, e);
  }

  method PackDateTime(ctx: PackContext, ms: int, min: int)
    requires ctx.Valid() && Accepts(DateTime(ms, min))
    modifies ctx, ctx.data
    ensures ctx.Valid() && ctx.log == old(ctx.log) + PackLeaf(DateTime(ms, min))
  {
    var packed := DateTimeCode.Pack(ms, min);
    Append3(ctx.log, [CP_DATE_TIME], EncodeInt(packed), []);
    var n := ctx.CopyByte(CP_DATE_TIME);
    PackIntData(ctx, packed);
  }

  method PackBytes(ctx: PackContext, b: Body, data: Bytes)
    requires b == String(data) || b == Blob(data)
    requires ctx.Valid() && Accepts(b)
    modifies ctx, ctx.data
    ensures ctx.Valid() && ctx.log == old(ctx.log) + PackLeaf(b)
  {
    var schema := if b.Blob? then CP_BLOB else CP_STRING;
    Append3(ctx.log, [schema], EncodeUInt(|data|), data);
    var n := ctx.CopyByte(schema);
    PackUIntData(ctx, |data|);
    n := ctx.CopyBytes(data);
  }

  method PackDouble(ctx: PackContext, bits: Bytes)
    requires ctx.Valid() && |bits| == 8
    modifies ctx, ctx.data
    ensures ctx.Valid() && ctx.log == old(ctx.log) + PackLeaf(Double(bits))
  {
    var n := ctx.CopyByte(CP_DOUBLE);
    for i := 0 to 8
      invariant ctx.Valid() && ctx.log == old(ctx.log) + ([CP_DOUBLE] + bits[..i])
    {
      n := ctx.CopyByte(bits[i]);
      assert bits[..i + 1] == bits[..i] + [bits[i]];
      Append3(old(ctx.log), [CP_DOUBLE] + bits[..i], [bits[i]], []);
      Append3([CP_DOUBLE], bits[..i], [bits[i]], []);
    }
    assert bits[..8] == bits;
  }

  /** The packer that goes with a leaf; a leaf that cannot be packed is left out. */
  method PackScalar(ctx: PackContext, b: Body)
    requires ctx.Valid()
    modifies ctx, ctx.data
    ensures ctx.Valid() && ctx.log == old(ctx.log) + Leaf(b)
  {
    if !Accepts(b) {
      assert ctx.log + [] == ctx.log;
      return;
    }
    var n: nat;
    match b {
      case Null => n := ctx.CopyByte(CP_NULL);
      case Bool(x) => n := ctx.CopyByte(if x then CP_TRUE else CP_FALSE);
      case Int(i) => PackInt(ctx, i);
      case UInt(u) => PackUInt(ctx, u);
      case Double(bits) => PackDouble(ctx, bits);
      case Decimal(m, e) => PackDecimal(ctx, m, e);
      case DateTime(ms, min) => PackDateTime(ctx, ms, min);
      case String(s) => PackBytes(ctx, b, s);
      case Blob(s) => PackBytes(ctx, b, s);
    }
  }
}
