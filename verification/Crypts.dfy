/** The keystream encoder (libshvcore/src/utils/crypt.cpp). */
module Crypts {
  import opened ByteStrings

  /** Exclusive or of the lowest `n` bits. */
  function XorBits(a: nat, b: nat, n: nat): (r: nat)
    ensures r < Pow2(n)
  {
    if n == 0 then 0 else (if a % 2 == b % 2 then 0 else 1) + 2 * XorBits(a / 2, b / 2, n - 1)
  }

  lemma {:induction false} XorBitsCancel(a: nat, k: nat, n: nat)
    requires a < Pow2(n)
    ensures XorBits(XorBits(a, k, n), k, n) == a
    decreases n
  {
    if n > 0 {
      XorBitsCancel(a / 2, k / 2, n - 1);
      var x := XorBits(a, k, n);
      assert x / 2 == XorBits(a / 2, k / 2, n - 1) && x % 2 == (if a % 2 == k % 2 then 0 else 1);
    }
  }

  lemma ByteBits()
    ensures Pow2(8) == 256
  {
  }

  function Xor(a: byte, b: byte): byte
  {
    ByteBits();
    XorBits(a, b, 8)
  }

  lemma XorCancels(a: byte, k: byte)
    ensures Xor(Xor(a, k), k) == a
  {
    ByteBits();
    XorBitsCancel(a, k, 8);
  }

  predicate IsLetter(b: byte) { 65 <= b <= 90 || 97 <= b <= 122 }

  /** Letters stand for themselves; any other byte is a digit and a letter. */
  function CodeByte(b: byte): (s: Bytes)
    ensures 1 <= |s| <= 2 && forall i | 0 <= i < |s| :: IsLetter(s[i]) || 48 <= s[i] <= 57
  {
    if IsLetter(b) then [b]
    else
      var b1, rest := b % 10, b / 10;
      [48 + b1, if b1 % 2 == 1 then 65 + rest else 97 + rest]
  }

  datatype Taken = Taken(b: byte, rest: Bytes)

  /** Byte arithmetic wraps; a digit at the very end stands for itself. */
  function TakeByte(s: Bytes): (r: Taken)
    requires s != []
    ensures |r.rest| < |s|
  {
    var b := s[0];
    if IsLetter(b) then Taken(b, s[1..])
    else
      var b1: byte := (b as int - 48) % 256;
      if |s| < 2 then Taken(b, s[1..])
      else
        var c: int := (s[1] as int - (if b1 % 2 == 1 then 65 else 97)) % 256;
        Taken((10 * c + b1 as int) % 256, s[2..])
  }

  /** The code is prefix-free: what is written for a byte is read back as that byte. */
  lemma CodeRoundTrip(b: byte, rest: Bytes)
    ensures TakeByte(CodeByte(b) + rest) == Taken(b, rest)
  {
    var s := CodeByte(b) + rest;
    if IsLetter(b) {
      assert s[1..] == rest;
    } else {
      TwoParts(b, s, rest);
    }
  }

  lemma TwoParts(b: byte, s: Bytes, rest: Bytes)
    requires !IsLetter(b) && s == CodeByte(b) + rest
    ensures TakeByte(s) == Taken(b, rest)
  {
    var code := CodeByte(b);
    assert s[0] == code[0] && s[1] == code[1] && s[2..] == rest;
    DigitAndLetter(b);
  }

  /** The digit and the letter give the byte back. */
  lemma DigitAndLetter(b: byte)
    requires !IsLetter(b)
    ensures var low, base := b % 10, if b % 10 % 2 == 1 then 65 else 97;
      && CodeByte(b) == [48 + low, base + b / 10] && !IsLetter(48 + low)
      && (48 + low - 48) % 256 == low && (base + b / 10 - base) % 256 == b / 10
      && (10 * (b / 10) + low) % 256 == b
  {
  }

  // ---------------------------------------------------------------- the keystream

  type Generator = nat -> nat

  function KeyByte(seed: nat): byte { seed % 256 }

  /** Code of `data` with the keystream that follows `seed`. */
  function Encode(gen: Generator, seed: nat, data: Bytes): Bytes
    decreases |data|
  {
    if data == [] then []
    else
      var next := gen(seed);
      CodeByte(Xor(data[0], KeyByte(next))) + Encode(gen, next, data[1..])
  }

  function Decode(gen: Generator, seed: nat, s: Bytes): Bytes
    decreases |s|
  {
    if s == [] then []
    else
      var next := gen(seed);
      var t := TakeByte(s);
      [Xor(t.b, KeyByte(next))] + Decode(gen, next, t.rest)
  }

  lemma {:induction false} DecodeUndoesEncode(gen: Generator, seed: nat, data: Bytes)
    ensures Decode(gen, seed, Encode(gen, seed, data)) == data
    decreases |data|
  {
    if data != [] {
      var next := gen(seed);
      var rest := Encode(gen, next, data[1..]);
      CodeRoundTrip(Xor(data[0], KeyByte(next)), rest);
      XorCancels(data[0], KeyByte(next));
      DecodeUndoesEncode(gen, next, data[1..]);
      assert CodeByte(Xor(data[0], KeyByte(next))) + rest != [];
      assert data == [data[0]] + data[1..];
    }
  }

  // ---------------------------------------------------------------- padding and white space

  predicate IsSpace(b: byte) { b == 32 || 9 <= b <= 13 }

  function WithoutSpace(s: Bytes): Bytes
  {
    if s == [] then [] else if IsSpace(s[0]) then WithoutSpace(s[1..]) else [s[0]] + WithoutSpace(s[1..])
  }

  lemma {:induction false} SpacesAround(a: Bytes, b: Bytes)
    ensures WithoutSpace(a + b) == WithoutSpace(a) + WithoutSpace(b)
    decreases |a|
  {
    if a == [] {
      assert a + b == b;
    } else {
      assert (a + b)[1..] == a[1..] + b;
      SpacesAround(a[1..], b);
    }
  }

  /** Blanks, tabs and the line breaks are left out wherever they are, and no other bytes. */
  lemma SpaceIsIgnoredIff(w: byte)
    ensures w in {9, 10, 11, 12, 13, 32} <==>
      forall a: Bytes, b: Bytes :: WithoutSpace(a + [w] + b) == WithoutSpace(a + b)
  {
    var none: Bytes := [];
    assert none + [w] + none == [w] && none + none == none && [w][1..] == none;
    forall a: Bytes, b: Bytes | IsSpace(w) ensures WithoutSpace(a + [w] + b) == WithoutSpace(a + b) {
      SpacesAround(a + [w], b);
      SpacesAround(a, [w]);
      SpacesAround(a, b);
    }
    if !IsSpace(w) {
      assert WithoutSpace([w]) == [w];
      assert WithoutSpace(none + [w] + none) != WithoutSpace(none + none);
    }
  }

  /**
   The plain bytes that are encoded: the data up to its first NUL, then a NUL and random bytes while the code is
   too short.
   */
  predicate Padded(data: Bytes, plain: Bytes)
  {
    var text := UpToNul(data);
    text <= plain && (|plain| > |text| ==> plain[|text|] == 0)
  }

  function DecodeArray(gen: Generator, s: Bytes): Bytes
  {
    if s == [] then [] else var t := TakeByte(s); Decode(gen, t.b, t.rest)
  }

  function Decrypt(gen: Generator, s: Bytes): Bytes { UpToNul(DecodeArray(gen, WithoutSpace(s))) }

  lemma {:induction false} PaddingIsCut(data: Bytes, plain: Bytes)
    requires Padded(data, plain)
    ensures UpToNul(plain) == UpToNul(data)
  {
  }

  lemma {:induction false} NothingToRemove(s: Bytes)
    requires forall i | 0 <= i < |s| :: !IsSpace(s[i])
    ensures WithoutSpace(s) == s
  {
    if s != [] {
      NothingToRemove(s[1..]);
    }
  }

  lemma {:induction false} CodeHasNoSpace(gen: Generator, seed: nat, data: Bytes)
    ensures forall i | 0 <= i < |Encode(gen, seed, data)| :: !IsSpace(Encode(gen, seed, data)[i])
    decreases |data|
  {
    if data != [] {
      CodeHasNoSpace(gen, gen(seed), data[1..]);
    }
  }

  // ---------------------------------------------------------------- the loops

  lemma {:induction false} EncodeAppend(gen: Generator, seed: nat, data: Bytes, b: byte)
    ensures Encode(gen, seed, data + [b])
         == Encode(gen, seed, data) + CodeByte(Xor(b, KeyByte(gen(SeedAfter(gen, seed, |data|)))))
    decreases |data|
  {
    if data == [] {
      assert data + [b] == [b] && [b][1..] == [];
    } else {
      assert (data + [b])[1..] == data[1..] + [b];
      EncodeAppend(gen, gen(seed), data[1..], b);
    }
  }

  function SeedAfter(gen: Generator, seed: nat, n: nat): nat
    decreases n
  {
    if n == 0 then seed else SeedAfter(gen, gen(seed), n - 1)
  }

  lemma {:induction false} SeedStep(gen: Generator, seed: nat, n: nat)
    ensures SeedAfter(gen, seed, n + 1) == gen(SeedAfter(gen, seed, n))
    decreases n
  {
    if n > 0 {
      SeedStep(gen, gen(seed), n - 1);
    }
  }

  /** What has been written for the plain bytes so far, and the seed it has come to. */
  ghost predicate Written(gen: Generator, salt: byte, plain: Bytes, dest: Bytes, seed: nat)
  {
    seed == SeedAfter(gen, salt, |plain|) && dest == CodeByte(salt) + Encode(gen, salt, plain)
  }

  lemma WriteOne(gen: Generator, salt: byte, plain: Bytes, dest: Bytes, seed: nat, b: byte)
    requires Written(gen, salt, plain, dest, seed)
    ensures Written(gen, salt, plain + [b], dest + CodeByte(Xor(b, KeyByte(gen(seed)))), gen(seed))
  {
    EncodeAppend(gen, salt, plain, b);
    SeedStep(gen, salt, |plain|);
  }

  /** The part of `encrypt` that encodes the data up to its first NUL. */
  method EncryptData(gen: Generator, data: Bytes, salt: byte) returns (dest: Bytes, seed: nat)
    ensures Written(gen, salt, UpToNul(data), dest, seed)
  {
    seed := salt;
    dest := CodeByte(salt);
    assert dest + [] == dest;
    var rest := data;
    ghost var plain: Bytes := [];
    assert plain + UpToNul(rest) == UpToNul(data);
    while rest != [] && rest[0] != 0
      invariant plain + UpToNul(rest) == UpToNul(data)
      invariant Written(gen, salt, plain, dest, seed)
      decreases |rest|
    {
      WriteOne(gen, salt, plain, dest, seed, rest[0]);
      Regroup(plain, rest[0], UpToNul(rest[1..]));
      seed := gen(seed);
      dest := dest + CodeByte(Xor(rest[0], KeyByte(seed)));
      plain := plain + [rest[0]];
      rest := rest[1..];
    }
    assert plain + [] == plain;
  }

  lemma Regroup(a: Bytes, b: byte, c: Bytes)
    ensures a + ([b] + c) == a + [b] + c
  {
  }

  /** Decryption of any encryption, with white space put into it anywhere, gives the data up to its first NUL. */
  lemma DecryptUndoesEncrypt(gen: Generator, data: Bytes, salt: byte, plain: Bytes, spaced: Bytes)
    requires Padded(data, plain)
    requires WithoutSpace(spaced) == CodeByte(salt) + Encode(gen, salt, plain)
    ensures Decrypt(gen, spaced) == UpToNul(data)
  {
    CodeRoundTrip(salt, Encode(gen, salt, plain));
    DecodeUndoesEncode(gen, salt, plain);
    PaddingIsCut(data, plain);
  }

  /**
   `encrypt`: `salt` is the random first byte, `random` the bytes that `std::rand` yields for the padding.
   The code has at least the minimal length, and however white space is put into it, it decrypts to the data
   up to its first NUL.
   */
  method Encrypt(gen: Generator, data: Bytes, minLength: nat, salt: byte, random: nat -> byte) returns (dest: Bytes)
    requires salt != 0
    ensures |dest| >= minLength && forall spaced: Bytes | WithoutSpace(spaced) == dest ::
      Decrypt(gen, spaced) == UpToNul(data)
  {
    var seed: nat;
    dest, seed := EncryptData(gen, data, salt);
    ghost var text := UpToNul(data);
    ghost var plain := text;
    var bb: byte, turn := 0, 0;
    while |dest| < minLength
      invariant turn == |plain| - |text| && text <= plain
      invariant if turn == 0 then bb == 0 else plain[|text|] == 0
      invariant Written(gen, salt, plain, dest, seed)
      decreases minLength - |dest|
    {
      WriteOne(gen, salt, plain, dest, seed, bb);
      seed := gen(seed);
      dest := dest + CodeByte(Xor(bb, KeyByte(seed)));
      plain := plain + [bb];
      bb := random(turn);
      turn := turn + 1;
    }
    forall spaced: Bytes | WithoutSpace(spaced) == dest ensures Decrypt(gen, spaced) == UpToNul(data) {
      DecryptUndoesEncrypt(gen, data, salt, plain, spaced);
    }
  }

  method DecodeAll(gen: Generator, s: Bytes) returns (ret: Bytes)
    ensures ret == DecodeArray(gen, s)
  {
    ret := [];
    if s == [] {
      return;
    }
    var t := TakeByte(s);
    var seed: nat, rest := t.b, t.rest;
    while rest != []
      invariant ret + Decode(gen, seed, rest) == DecodeArray(gen, s)
      decreases |rest|
    {
      seed := gen(seed);
      t := TakeByte(rest);
      ret := ret + [Xor(t.b, KeyByte(seed))];
      rest := t.rest;
    }
  }

  /** The code itself holds no white space, so that it is one of the texts that decrypt to the data. */
  lemma CodeIsItsOwnSpacing(gen: Generator, salt: byte, plain: Bytes)
    ensures var code := CodeByte(salt) + Encode(gen, salt, plain); WithoutSpace(code) == code
  {
    CodeHasNoSpace(gen, salt, plain);
    NothingToRemove(CodeByte(salt) + Encode(gen, salt, plain));
  }

  // ---------------------------------------------------------------- byte by byte

  predicate Bit(n: nat, i: nat) { n / Pow2(i) % 2 == 1 }

  lemma BitAbove(n: nat, i: nat)
    requires i > 0
    ensures Bit(n, i) == Bit(n / 2, i - 1)
  {
    DivDiv(n, 2, Pow2(i - 1));
  }

  /** A bit of the exclusive or is set exactly if one of the two is. */
  lemma {:induction false} XorIsBitwise(a: nat, b: nat, n: nat, i: nat)
    requires i < n
    ensures Bit(XorBits(a, b, n), i) <==> Bit(a, i) != Bit(b, i)
    decreases n
  {
    var x, low := XorBits(a, b, n), if a % 2 == b % 2 then 0 else 1;
    DivModUnique(x, 2, XorBits(a / 2, b / 2, n - 1), low);
    if i > 0 {
      BitAbove(x, i);
      BitAbove(a, i);
      BitAbove(b, i);
      XorIsBitwise(a / 2, b / 2, n - 1, i - 1);
    }
  }

  /** The bytes that a code is made of. */
  function TakeAll(s: Bytes): Bytes
    decreases |s|
  {
    if s == [] then [] else var t := TakeByte(s); [t.b] + TakeAll(t.rest)
  }

  lemma TakeAllFirst(b: byte, rest: Bytes)
    ensures TakeAll(CodeByte(b) + rest) == [b] + TakeAll(rest)
  {
    CodeRoundTrip(b, rest);
    assert CodeByte(b) + rest != [];
  }

  /** Byte `i` of the code is that of the data, combined with the lowest byte of the generator's number `i + 1`. */
  lemma {:induction false} EncodedByte(gen: Generator, seed: nat, data: Bytes, i: nat)
    requires i < |data|
    ensures var code := TakeAll(Encode(gen, seed, data));
      && |code| == |data|
      && forall k | 0 <= k < 8 ::
           Bit(code[i], k) <==> Bit(data[i], k) != Bit(SeedAfter(gen, seed, i + 1) % 256, k)
    decreases |data|
  {
    var next := gen(seed);
    var first, rest := Xor(data[0], KeyByte(next)), Encode(gen, next, data[1..]);
    TakeAllFirst(first, rest);
    EncodedLength(gen, next, data[1..]);
    if i == 0 {
      forall k | 0 <= k < 8 ensures Bit(first, k) <==> Bit(data[0], k) != Bit(next % 256, k) {
        XorIsBitwise(data[0], next % 256, 8, k);
      }
    } else {
      EncodedByte(gen, next, data[1..], i - 1);
    }
  }

  lemma {:induction false} EncodedLength(gen: Generator, seed: nat, data: Bytes)
    ensures |TakeAll(Encode(gen, seed, data))| == |data|
    decreases |data|
  {
    if data != [] {
      TakeAllFirst(Xor(data[0], KeyByte(gen(seed))), Encode(gen, gen(seed), data[1..]));
      EncodedLength(gen, gen(seed), data[1..]);
    }
  }

  // ---------------------------------------------------------------- the generator

  /** `createGenerator`: a linear congruence. */
  function Congruence(a: nat, b: nat, m: nat): Generator
    requires m > 0
  {
    (x: nat) => (x * a + b) % m
  }

  function Power(a: nat, n: nat): nat { if n == 0 then 1 else a * Power(a, n - 1) }

  /** 1 + a + ... up to the power below `n`. */
  function Powers(a: nat, n: nat): nat { if n == 0 then 0 else 1 + a * Powers(a, n - 1) }

  lemma SameRemainder(x: int, y: int, k: int, m: int)
    requires m > 0 && x == y + k * m
    ensures x % m == y % m
  {
    DivModUnique(x, m, y / m + k, y % m);
  }

  lemma StepOfRemainder(x: nat, a: nat, b: nat, m: nat)
    requires m > 0
    ensures ((x % m) * a + b) % m == (x * a + b) % m
  {
    DivModIdentity(x, m);
    var q, r := x / m, x % m;
    MulDistributes(q * m, r, a);
    MulAssociates(a, q, m);
    assert x * a + b == r * a + b + (a * q) * m;
    SameRemainder(x * a + b, r * a + b, a * q, m);
  }

  lemma NextTerm(a: nat, b: nat, seed: nat, n: nat)
    ensures (Power(a, n) * seed + b * Powers(a, n)) * a + b == Power(a, n + 1) * seed + b * Powers(a, n + 1)
  {
    var p, q := Power(a, n), Powers(a, n);
    MulDistributes(p * seed, b * q, a);
    MulAssociates(a, p, seed);
    MulAssociates(b, q, a);
    assert b * (1 + a * q) == b + b * (a * q) by { MulDistributes(1, a * q, b); }
  }

  /** The numbers of the generator, in closed form. */
  lemma {:induction false} GeneratorInClosedForm(a: nat, b: nat, m: nat, seed: nat, n: nat)
    requires m > 0 && n > 0
    ensures SeedAfter(Congruence(a, b, m), seed, n) == (Power(a, n) * seed + b * Powers(a, n)) % m
  {
    var gen := Congruence(a, b, m);
    var x := Power(a, n - 1) * seed + b * Powers(a, n - 1);
    NextTerm(a, b, seed, n - 1);
    SeedStep(gen, seed, n - 1);
    if n == 1 {
      FirstTerm(a, b, seed);
    } else {
      GeneratorInClosedForm(a, b, m, seed, n - 1);
    }
    hide Power, Powers, SeedAfter;
    StepOfRemainder(x, a, b, m);
  }

  lemma FirstTerm(a: nat, b: nat, seed: nat)
    ensures Power(a, 0) * seed + b * Powers(a, 0) == seed
  {
  }
}
