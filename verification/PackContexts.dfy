/**
 The output context of the C packers (libshvchainpack/c/ccpcp.c): a fixed buffer with an
 optional overflow handler that flushes it to a stream, or a dry run that only counts.
 `log` records every byte handed in; `Valid` says what became of it.
 */
module PackContexts {
  import opened ByteStrings

  class PackContext {
    const data: array?<byte>   // null for a dry run
    const hasHandler: bool
    var start: nat
    var current: nat
    var overflow: bool         // err_no is BUFFER_OVERFLOW
    var bytesWritten: nat
    var flushed: Bytes         // what the handler has sent to the stream
    ghost var log: Bytes

    function End(): nat { if data == null then 0 else data.Length }

    predicate IsDryRun() { !hasHandler && data == null }

    ghost function Buffered(): Bytes
      reads this, data
      requires start <= current <= End()
    {
      if data == null then [] else data[start..current]
    }

    /** With a handler nothing is lost; without one the buffer holds a prefix, complete iff it fits. */
    ghost predicate Consistent(total: Bytes)
      reads this, data
    {
      && start == 0 && current <= End()
      && (!hasHandler ==> flushed == [])
      && (IsDryRun() ==> !overflow)
      && (hasHandler && End() > 0 ==> !overflow && flushed + Buffered() == total)
      && (hasHandler && End() == 0 ==> flushed == [] && (overflow <==> total != []))
      && (!hasHandler && data != null ==>
            && Buffered() <= total
            && (overflow <==> |total| > End())
            && (!overflow ==> Buffered() == total))
    }

    ghost predicate Valid()
      reads this, data
    {
      Consistent(log) && bytesWritten == |log|
    }

    constructor (buffer: array?<byte>, handler: bool)
      ensures Valid() && log == [] && data == buffer && hasHandler == handler && flushed == []
    {
      data, hasHandler := buffer, handler;
      start, current, overflow, bytesWritten, flushed, log := 0, 0, false, 0, [], [];
    }

    /** `pack_overflow_handler`: sends the buffer byte by byte and rewinds. */
    method Flush()
      requires start <= current <= End()
      modifies this`start, this`current, this`flushed
      ensures start == current == 0
      ensures flushed == old(flushed) + old(Buffered())
    {
      ghost var from, held := start, Buffered();
      while start < current
        invariant from <= start <= current == old(current) <= End()
        invariant flushed == old(flushed) + held[..start - from]
      {
        assert held[..start + 1 - from] == held[..start - from] + [data[start]];
        flushed := flushed + [data[start]];
        start := start + 1;
      }
      start, current := 0, 0;
    }

    /** Number of free bytes, possibly fewer than asked for, or 0 after setting the error. */
    method MakeSpace(sizeHint: nat) returns (free: nat)
      requires start == 0 && current <= End() && sizeHint > 0
      modifies this`start, this`current, this`flushed, this`overflow
      ensures start == 0 && current <= End() && (free > 0 ==> free == End() - current)
      ensures flushed + Buffered() == old(flushed + Buffered())
      ensures !hasHandler ==> flushed == old(flushed) && current == old(current)
      ensures old(overflow) ==> overflow && free == 0
      ensures !old(overflow) ==> (overflow <==> free == 0)
      ensures !old(overflow) && hasHandler ==> (overflow <==> End() == 0)
      ensures !old(overflow) && !hasHandler ==> (overflow <==> End() - current < sizeHint)
    {
      if overflow {
        return 0;
      }
      free := End() - current;
      if free < sizeHint {
        if !hasHandler {
          overflow := true;
          return 0;
        }
        Flush();
        free := End() - current;
        if free < 1 {
          overflow := true;
          return 0;
        }
      }
    }

    method CopyByte(b: byte) returns (n: nat)
      requires Valid()
      modifies this, data
      ensures Valid() && log == old(log) + [b]
    {
      bytesWritten := bytesWritten + 1;
      if IsDryRun() {
        log := log + [b];
        return 1;
      }
      var free := 0;
      if !overflow {
        free := MakeSpace(1);
      }
      if free < 1 {
        overflow := true;
        log := log + [b];
        return 0;
      }
      ghost var before := Buffered();
      data[current] := b;
      current := current + 1;
      assert Buffered() == before + [b];
      log := log + [b];
      n := 1;
    }

    /** memcpy of a part that fits. */
    method CopyPart(part: Bytes)
      requires data != null && start == 0 && current + |part| <= End()
      modifies this`current, data
      ensures current == old(current) + |part|
      ensures data[..current] == old(data[..current]) + part
    {
      forall i | 0 <= i < |part| {
        data[current + i] := part[i];
      }
      current := current + |part|;
    }

    /** One round: makes space and copies what fits; 0 means the error was set. */
    method CopyRound(s: Bytes, copied: nat, ghost before: Bytes) returns (n: nat)
      requires copied < |s| && !IsDryRun() && (hasHandler || copied == 0)
      requires !overflow && Consistent(before + s[..copied])
      modifies this`start, this`current, this`flushed, this`overflow, data
      ensures copied + n <= |s|
      ensures n == 0 ==> overflow && Consistent(before + s)
      ensures n > 0 ==> !overflow && Consistent(before + s[..copied + n]) && (hasHandler || copied + n == |s|)
    {
      ghost var done := before + s[..copied];
      var free := MakeSpace(|s|);
      if free == 0 {
        overflow := true;
        return 0;
      }
      n := if |s| - copied > free then free else |s| - copied;
      ghost var held := Buffered();
      var part := s[copied..copied + n];
      CopyPart(part);
      MorePart(before, s, copied, n);
      Append3(flushed, held, part, []);
    }

    /** The whole length is the size hint of every round, so a block that does not fit starts with a flush. */
    method CopyBytes(s: Bytes) returns (copied: nat)
      requires Valid()
      modifies this, data
      ensures Valid() && log == old(log) + s
    {
      bytesWritten := bytesWritten + |s|;
      ghost var before := log;
      log := log + s;
      if IsDryRun() {
        return |s|;
      }
      copied := 0;
      assert before + s[..0] == before && before + s[..|s|] == log;
      if overflow {
        return 0;
      }
      while copied < |s|
        invariant copied <= |s| && log == before + s && bytesWritten == |log|
        invariant hasHandler || copied == 0 || copied == |s|
        invariant !overflow && Consistent(before + s[..copied])
      {
        var n := CopyRound(s, copied, before);
        if n == 0 {
          return 0;
        }
        copied := copied + n;
      }
    }
  }

  // ---------------------------------------------------------------- runs

  /** A write of one byte or of a block. */
  datatype Piece = Byte(b: byte) | Block(s: Bytes)

  function BytesOf(w: Piece): Bytes { if w.Byte? then [w.b] else w.s }

  function Concat(ws: seq<Piece>): Bytes
  {
    if ws == [] then [] else Concat(ws[..|ws| - 1]) + BytesOf(ws[|ws| - 1])
  }

  /** Every run of byte and block writes, for every buffer size. */
  method RunWrites(size: nat, handler: bool, ws: seq<Piece>)
    returns (flushed: Bytes, buffered: Bytes, ok: bool, counted: nat)
    ensures counted == |Concat(ws)|
    ensures handler && size > 0 ==> ok && flushed + buffered == Concat(ws)
    ensures !handler ==> flushed == [] && buffered <= Concat(ws) && |buffered| <= size
    ensures !handler ==> (ok <==> |Concat(ws)| <= size)
    ensures !handler && ok ==> buffered == Concat(ws)
  {
    var buffer := new byte[size];
    var ctx := new PackContext(buffer, handler);
    RunInto(ctx, ws);
    flushed, buffered, ok, counted := ctx.flushed, ctx.data[..ctx.current], !ctx.overflow, ctx.bytesWritten;
  }

  method RunInto(ctx: PackContext, ws: seq<Piece>)
    requires ctx.Valid() && ctx.log == []
    modifies ctx, ctx.data
    ensures ctx.Valid() && ctx.log == Concat(ws)
  {
    for i := 0 to |ws|
      invariant ctx.Valid() && ctx.log == Concat(ws[..i])
    {
      assert ws[..i + 1][..i] == ws[..i];
      var n: nat;
      match ws[i] {
        case Byte(b) => n := ctx.CopyByte(b);
        case Block(s) => n := ctx.CopyBytes(s);
      }
    }
    assert ws[..|ws|] == ws;
  }

  /** A dry run counts exactly the length that a real run would need. */
  method DryRun(ws: seq<Piece>) returns (counted: nat)
    ensures counted == |Concat(ws)|
  {
    var ctx := new PackContext(null, false);
    RunInto(ctx, ws);
    counted := ctx.bytesWritten;
  }

  lemma MorePart(before: Bytes, s: Bytes, copied: nat, n: nat)
    requires copied + n <= |s|
    ensures before + s[..copied + n] == before + s[..copied] + s[copied..copied + n]
  {
  }
}
