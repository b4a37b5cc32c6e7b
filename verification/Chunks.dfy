/**
 Escaped and sized byte strings, read in chunks: the NUL-terminated C string of ChainPack, the
 quoted string and the two quoted blobs of CPON, and the length-prefixed string of ChainPack.
 */
module Chunks {
  import opened ByteStrings

  const BACKSLASH: byte := 92
  const QUOTE: byte := 34

  /** Hexadecimal blobs are read only; the text they stand for is given all the same. */
  datatype Alphabet = CString | CponString | CponBlob | CponHex

  // ---------------------------------------------------------------- writing

  function Hexify(n: nat): byte
    requires n < 16
  {
    if n <= 9 then 48 + n else 97 + (n - 10)
  }

  /** Bytes written for one data byte. */
  function EscapeByte(a: Alphabet, b: byte): (s: Bytes)
    ensures 1 <= |s| <= 3
  {
    match a
    case CString => if b == 0 || b == BACKSLASH then [BACKSLASH, b] else [b]
    case CponString =>
      if b == 0 then [BACKSLASH, 48]               // \0
      else if b == BACKSLASH then [BACKSLASH, BACKSLASH]
      else if b == 9 then [BACKSLASH, 116]         // \t
      else if b == 8 then [BACKSLASH, 98]          // \b
      else if b == 13 then [BACKSLASH, 114]        // \r
      else if b == 10 then [BACKSLASH, 110]        // \n
      else if b == QUOTE then [BACKSLASH, QUOTE]
      else [b]
    case CponBlob =>
      if b == BACKSLASH then [BACKSLASH, BACKSLASH]
      else if b == 9 then [BACKSLASH, 116]
      else if b == 13 then [BACKSLASH, 114]
      else if b == 10 then [BACKSLASH, 110]
      else if b == QUOTE then [BACKSLASH, QUOTE]
      else if b < 32 || b >= 127 then [BACKSLASH, Hexify(b / 16), Hexify(b % 16)]
      else [b]
    case CponHex => [Hexify(b / 16), Hexify(b % 16)]
  }

  function Escape(a: Alphabet, data: Bytes): Bytes
  {
    if data == [] then [] else EscapeByte(a, data[0]) + Escape(a, data[1..])
  }

  function Terminator(a: Alphabet): Bytes { if a == CString then [0] else [QUOTE] }

  // ---------------------------------------------------------------- reading

  /** Value of a hexadecimal digit, -1 for any other byte. */
  function Unhex(b: byte): int
  {
    if 48 <= b <= 57 then b - 48
    else if 97 <= b <= 102 then b - 97 + 10
    else if 65 <= b <= 70 then b - 65 + 10
    else -1
  }

  datatype Step = Malformed | Stop(rest: Bytes) | Emit(b: byte, escaped: bool, rest: Bytes)

  function UnescapeChar(a: Alphabet, b: byte): byte
    requires a == CString || a == CponString
  {
    if b == 48 then 0
    else if a == CString then b
    else if b == 98 then 8
    else if b == 102 then 12
    else if b == 110 then 10
    else if b == 114 then 13
    else if b == 116 then 9
    else b
  }

  /** Input behind the blanks that may precede a pair of hexadecimal digits. */
  function PastBlanks(s: Bytes): (r: Bytes)
    ensures |r| <= |s|
  {
    if s != [] && (s[0] <= 32 || s[0] >= 128) then PastBlanks(s[1..]) else s
  }

  function NextHex(s: Bytes): (r: Step)
    ensures !r.Malformed? ==> |r.rest| < |s|
  {
    var t := PastBlanks(s);
    if t == [] then Malformed
    else if t[0] == QUOTE then Stop(t[1..])
    else if |t| < 2 || Unhex(t[0]) < 0 || Unhex(t[1]) < 0 then Malformed
    else Emit(16 * Unhex(t[0]) + Unhex(t[1]), false, t[2..])
  }

  /** One turn of the unescaping loop; running out of input counts as malformed. */
  function Next(a: Alphabet, s: Bytes): (r: Step)
    ensures !r.Malformed? ==> |r.rest| < |s|
  {
    if a == CponHex then NextHex(s)
    else if s == [] then Malformed
    else if s[0] == BACKSLASH then
      if |s| < 2 then Malformed
      else if a != CponBlob then Emit(UnescapeChar(a, s[1]), true, s[2..])
      else if s[1] == 116 then Emit(9, true, s[2..])
      else if s[1] == 114 then Emit(13, true, s[2..])
      else if s[1] == 110 then Emit(10, true, s[2..])
      else if s[1] == QUOTE || s[1] == BACKSLASH then Emit(s[1], true, s[2..])
      else if Unhex(s[1]) < 0 || |s| < 3 || Unhex(s[2]) < 0 then Malformed
      else Emit(16 * Unhex(s[1]) + Unhex(s[2]), true, s[3..])
    else if s[0] == (if a == CString then 0 else QUOTE) then Stop(s[1..])
    else if a == CponBlob && s[0] >= 128 then Malformed
    else Emit(s[0], false, s[1..])
  }

  datatype Text = Broken | Text(data: Bytes, rest: Bytes)

  function Unescape(a: Alphabet, s: Bytes): (r: Text)
    ensures r.Text? ==> |r.rest| < |s|
    decreases |s|
  {
    match Next(a, s)
    case Malformed => Broken
    case Stop(r) => Text([], r)
    case Emit(b, _, r) =>
      var more := Unescape(a, r);
      if more.Broken? then Broken else Text([b] + more.data, more.rest)
  }

  /** Each alphabet is unambiguous: the bytes written for a data byte decode to that byte alone. */
  lemma EscapedByteDecodes(a: Alphabet, b: byte, rest: Bytes)
    ensures var r := Next(a, EscapeByte(a, b) + rest); r.Emit? && r.b == b && r.rest == rest
  {
    if a == CponHex || a == CponBlob {
      HexDigitsDecode(b, rest);
    }
  }

  lemma HexDigitsDecode(b: byte, rest: Bytes)
    ensures var high, low := Hexify(b / 16), Hexify(b % 16);
      && 16 * Unhex(high) + Unhex(low) == b && Unhex(high) >= 0 && Unhex(low) >= 0
      && NextHex([high, low] + rest) == Emit(b, false, rest)
  {
    assert ([Hexify(b / 16), Hexify(b % 16)] + rest)[2..] == rest;
  }

  lemma UnescapeFirst(a: Alphabet, b: byte, more: Bytes)
    requires Unescape(a, more).Text?
    ensures var t := Unescape(a, more); Unescape(a, EscapeByte(a, b) + more) == Text([b] + t.data, t.rest)
  {
    EscapedByteDecodes(a, b, more);
  }

  lemma {:induction false} EscapeRoundTrip(a: Alphabet, data: Bytes, rest: Bytes)
    ensures Unescape(a, Escape(a, data) + (Terminator(a) + rest)) == Text(data, rest)
  {
    var tail := Terminator(a) + rest;
    if data == [] {
      assert Escape(a, data) + tail == tail && tail[1..] == rest;
    } else {
      var more := Escape(a, data[1..]) + tail;
      assert Escape(a, data) + tail == EscapeByte(a, data[0]) + more;
      EscapeRoundTrip(a, data[1..], rest);
      UnescapeFirst(a, data[0], more);
      assert data == [data[0]] + data[1..];
    }
  }

  // ---------------------------------------------------------------- the chunked reader

  ghost function Prepend(chunk: Bytes, t: Text): Text
  {
    if t.Broken? then Broken else Text(chunk + t.data, t.rest)
  }

  lemma PrependTwice(x: Bytes, y: Bytes, t: Text)
    ensures Prepend(x, Prepend(y, t)) == Prepend(x + y, t)
    ensures Prepend([], t) == t
  {
  }

  /** One turn of the loop, seen from the text that is still expected. */
  lemma UnescapeTurn(a: Alphabet, s: Bytes, chunk: Bytes)
    ensures match Next(a, s)
            case Malformed => Prepend(chunk, Unescape(a, s)) == Broken
            case Stop(r) => Prepend(chunk, Unescape(a, s)) == Text(chunk, r)
            case Emit(b, _, r) => Prepend(chunk, Unescape(a, s)) == Prepend(chunk + [b], Unescape(a, r))
  {
    match Next(a, s)
    case Malformed =>
    case Stop(r) => assert chunk + [] == chunk;
    case Emit(b, _, r) => PrependTwice(chunk, [b], Unescape(a, r));
  }

  /** A string item of the unpack context: the chunk buffer, its fill, and the unread input. */
  class StringItem {
    const chunk: array<byte>
    var chunkSize: nat
    var lastChunk: bool
    var sizeToLoad: nat
    var rest: Bytes

    ghost predicate Valid()
      reads this
    {
      1 <= chunk.Length && chunkSize <= chunk.Length
    }

    constructor (chunkLen: nat, input: Bytes, size: nat)
      requires chunkLen >= 1
      ensures Valid() && fresh(chunk) && chunk.Length == chunkLen
      ensures rest == input && sizeToLoad == size && !lastChunk
    {
      chunk := new byte[chunkLen];
      chunkSize, lastChunk, sizeToLoad, rest := 0, false, size, input;
    }

    /** What is still to come, given whether the terminator has been seen. */
    ghost function Remaining(a: Alphabet): Text
      reads this
    {
      if lastChunk then Text([], rest) else Unescape(a, rest)
    }

    /** Reads one chunk; an escape ends a chunk of a C string early. */
    method UnpackEscaped(a: Alphabet) returns (ok: bool)
      requires Valid() && !lastChunk
      modifies this, chunk
      ensures Valid()
      ensures if ok then old(Unescape(a, rest)) == Prepend(chunk[..chunkSize], Remaining(a))
              else old(Unescape(a, rest)) == Broken
      ensures ok ==> |rest| < |old(rest)|
    {
      chunkSize := 0;
      ghost var all := Unescape(a, rest);
      PrependTwice([], [], all);
      assert chunk[..0] == [];
      while chunkSize < chunk.Length
        invariant chunkSize <= chunk.Length && !lastChunk
        invariant all == Prepend(chunk[..chunkSize], Unescape(a, rest))
        invariant if chunkSize > 0 then |rest| < |old(rest)| else rest == old(rest)
        decreases |rest|
      {
        UnescapeTurn(a, rest, chunk[..chunkSize]);
        var step := Next(a, rest);
        if step.Malformed? {
          return false;
        }
        rest := step.rest;
        if step.Stop? {
          lastChunk := true;
          assert chunk[..chunkSize] + [] == chunk[..chunkSize];
          return true;
        }
        ghost var before := chunk[..chunkSize];
        chunk[chunkSize] := step.b;
        chunkSize := chunkSize + 1;
        assert chunk[..chunkSize] == before + [step.b];
        if step.escaped && a == CString {
          return true;
        }
      }
      ok := true;
    }

    /** Concatenates chunks until the last one: the result does not depend on the chunk length. */
    method ReadEscaped(a: Alphabet) returns (r: Option<Bytes>)
      requires Valid() && !lastChunk
      modifies this, chunk
      ensures Valid()
      ensures match old(Unescape(a, rest))
              case Broken => r == None
              case Text(data, after) => r == Some(data) && rest == after
    {
      ghost var all := Unescape(a, rest);
      PrependTwice([], [], all);
      var str: Bytes := [];
      while !lastChunk
        invariant Valid()
        invariant all == Prepend(str, Remaining(a))
        decreases !lastChunk, |rest|
      {
        var ok := UnpackEscaped(a);
        if !ok {
          return None;
        }
        PrependTwice(str, chunk[..chunkSize], Remaining(a));
        str := str + chunk[..chunkSize];
      }
      assert str + [] == str;
      r := Some(str);
    }

    /** Reads one chunk of a string whose length is known. */
    method UnpackSized() returns (ok: bool)
      requires Valid()
      modifies this, chunk
      ensures Valid()
      ensures ok ==> old(rest) == chunk[..chunkSize] + rest && sizeToLoad + chunkSize == old(sizeToLoad)
      ensures ok ==> lastChunk == (sizeToLoad == 0) && (chunkSize > 0 || lastChunk)
      ensures !ok ==> |old(rest)| < old(sizeToLoad)
    {
      chunkSize := 0;
      while sizeToLoad > 0 && chunkSize < chunk.Length
        invariant chunkSize <= chunk.Length
        invariant old(rest) == chunk[..chunkSize] + rest
        invariant sizeToLoad + chunkSize == old(sizeToLoad)
      {
        if rest == [] {
          return false;
        }
        ghost var before := chunk[..chunkSize];
        chunk[chunkSize] := rest[0];
        rest := rest[1..];
        chunkSize := chunkSize + 1;
        assert chunk[..chunkSize] == before + [chunk[chunkSize - 1]];
        sizeToLoad := sizeToLoad - 1;
      }
      lastChunk := sizeToLoad == 0;
      ok := true;
    }

    method ReadSized() returns (r: Option<Bytes>)
      requires Valid() && !lastChunk
      modifies this, chunk
      ensures Valid()
      ensures if |old(rest)| < old(sizeToLoad) then r == None
              else r == Some(old(rest)[..old(sizeToLoad)]) && rest == old(rest)[old(sizeToLoad)..]
    {
      var str: Bytes := [];
      while !lastChunk
        invariant Valid()
        invariant old(rest) == str + rest && |str| + sizeToLoad == old(sizeToLoad)
        invariant lastChunk ==> sizeToLoad == 0
        decreases !lastChunk, sizeToLoad
      {
        var ok := UnpackSized();
        if !ok {
          return None;
        }
        str := str + chunk[..chunkSize];
      }
      r := Some(str);
    }
  }

  /** Strings written with any alphabet come back whole, whatever the chunk length of the reader. */
  method ReadBack(a: Alphabet, data: Bytes, rest: Bytes, chunkLen: nat) returns (r: Bytes, after: Bytes)
    requires chunkLen >= 1
    ensures r == data && after == rest
  {
    EscapeRoundTrip(a, data, rest);
    var item := new StringItem(chunkLen, Escape(a, data) + (Terminator(a) + rest), 0);
    var read := item.ReadEscaped(a);
    r, after := read.value, item.rest;
  }
}
