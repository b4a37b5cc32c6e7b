/** The C++ stream readers: recursive `read`, the container loops, and `readPath`. */
module StreamReaders {
  import opened ByteStrings
  import opened RpcValues
  import opened Codecs
  import opened CodecPath
  import DecimalDigits

  class StreamReader {
    const codec: Codec
    var rest: Bytes          // unread input
    var containerEnd: bool   // the last item was the end of a container

    constructor (codec: Codec, input: Bytes)
      ensures this.codec == codec && rest == input && !containerEnd
    {
      this.codec := codec;
      rest := input;
      containerEnd := false;
    }

    /** Reads a value with its metadata; None is the parse exception. */
    method ReadValue() returns (r: Option<Value>)
      modifies this
      ensures match old(Read(codec, rest))
              case Fail => r == None
              case Got(v, end, after) => r == Some(v) && containerEnd == end && rest == after
      decreases |rest|, 2
    {
      var meta: seq<Entry> := [];
      var p := codec.peek(rest);
      if p.PeekError? {
        return None;
      }
      rest := p.rest;
      if p.AtMeta? {
        var m := ParseEntries(MetaKind);
        if m.None? {
          return None;
        }
        meta := m.value;
      }
      r := UnpackItem(meta);
    }

    method UnpackItem(meta: seq<Entry>) returns (r: Option<Value>)
      modifies this
      ensures match old(ReadItem(codec, meta, rest))
              case Fail => r == None
              case Got(v, end, after) => r == Some(v) && containerEnd == end && rest == after
      decreases |rest|, 1
    {
      var x := codec.lex(rest);
      if x.LexError? {
        return None;
      }
      rest := x.rest;
      containerEnd := x.item.End?;
      var body := Invalid;
      match x.item {
        case Scalar(b) => body := b;
        case Begin(ListKind) =>
          var l := ParseList();
          if l.None? {
            return None;
          }
          body := List(l.value);
        case Begin(MapKind) =>
          var m := ParseEntries(MapKind);
          if m.None? {
            return None;
          }
          body := Map(m.value);
        case Begin(IMapKind) =>
          var m := ParseEntries(IMapKind);
          if m.None? {
            return None;
          }
          body := IMap(m.value);
        case Begin(MetaKind) => return None;
        case _ =>
      }
      if meta != [] && body.Invalid? {
        return None;
      }
      r := Some(Value(meta, body));
    }

    method ParseList() returns (r: Option<seq<Value>>)
      modifies this
      ensures match old(ReadList(codec, rest, []))
              case ListFail => r == None
              case GotList(vs, after) => r == Some(vs) && rest == after && !containerEnd
      decreases |rest|, 3
    {
      var lst: seq<Value> := [];
      while true
        invariant |rest| <= |old(rest)|
        invariant ReadList(codec, rest, lst) == old(ReadList(codec, rest, []))
        decreases |rest|
      {
        var v := ReadValue();
        if v.None? {
          return None;
        }
        if containerEnd {
          containerEnd := false;
          return Some(lst);
        }
        lst := lst + [v.value];
      }
    }

    method ParseEntries(kind: Kind) returns (r: Option<seq<Entry>>)
      modifies this
      ensures match old(ReadEntries(codec, kind, rest, []))
              case EntriesFail => r == None
              case GotEntries(es, after) => r == Some(es) && rest == after && !containerEnd
      decreases |rest|, 3
    {
      var entries: seq<Entry> := [];
      while true
        invariant |rest| <= |old(rest)|
        invariant ReadEntries(codec, kind, rest, entries) == old(ReadEntries(codec, kind, rest, []))
        decreases |rest|
      {
        var k := ReadValue();
        if k.None? {
          return None;
        }
        if containerEnd {
          containerEnd := false;
          return Some(entries);
        }
        var v := ReadValue();
        if v.None? {
          return None;
        }
        var key := KeyFrom(codec, kind, k.value.body);
        if key.None? {
          return None;
        }
        entries := Store(kind, entries, key.value, v.value);
      }
    }

    /** Moves into the container met next and stops in front of the value for `key`. */
    method Descend(key: Bytes) returns (found: Located)
      modifies this
      ensures var entry := old(Open(codec, rest));
        if entry.LexError? then found == ScanError
        else if !entry.item.Begin? || entry.item.kind == MetaKind then found == Missing
        else found == Scan(codec, entry.item.kind, key, entry.rest, 0)
      ensures found.At? ==> rest == found.rest
    {
      var p := codec.peek(rest);
      if p.PeekError? {
        return ScanError;
      }
      rest := p.rest;
      if p.AtMeta? {
        var m := ParseEntries(MetaKind);
        if m.None? {
          return ScanError;
        }
      }
      var x := codec.lex(rest);
      if x.LexError? {
        return ScanError;
      }
      if !x.item.Begin? || x.item.kind == MetaKind {
        return Missing;
      }
      rest := x.rest;
      var kind, index := x.item.kind, 0;
      while true
        invariant Scan(codec, kind, key, rest, index) == Scan(codec, kind, key, x.rest, 0)
        invariant kind != ListKind ==> index == 0
        decreases |rest|
      {
        if AtEnd(codec, rest) {
          return Missing;
        }
        if kind == ListKind {
          if DecimalDigits.ToString(index) == key {
            return At(rest);
          }
          index := index + 1;
        } else {
          var mapKey := ReadValue();
          if mapKey.None? {
            return ScanError;
          }
          var number := ToInt(codec, mapKey.value.body);
          if kind != MapKind && number.None? {
            return ScanError;
          }
          if (if kind == MapKind then AsString(mapKey.value.body) else DecimalDigits.ToString(number.value)) == key {
            return At(rest);
          }
        }
        var skip := ReadValue();
        if skip.None? {
          return ScanError;
        }
      }
    }

    method ReadPathValue(keys: seq<Bytes>) returns (r: PathResult)
      modifies this
      ensures r == old(ReadPath(codec, keys, rest))
    {
      var i := 0;
      while i < |keys|
        invariant 0 <= i <= |keys|
        invariant ReadPath(codec, keys[i..], rest) == old(ReadPath(codec, keys, rest))
      {
        var found := Descend(keys[i]);
        assert keys[i..][1..] == keys[i + 1..];
        if found.ScanError? {
          return PathError;
        }
        if found.Missing? {
          return NotFound;
        }
        i := i + 1;
      }
      assert keys[i..] == [];
      var v := ReadValue();
      r := if v.None? then PathError else Found(v.value);
    }
  }
}
