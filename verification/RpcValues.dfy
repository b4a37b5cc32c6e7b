/**
 RPC values (libshvchainpack/include/shv/chainpack/rpcvalue.h): a body and metadata,
 both of which hold further values.  A std::map is an entry list in strictly increasing
 key order; metadata is one such list, its integer keys before its string keys, which is
 the order in which the writers emit the two maps it is made of.
 */
module RpcValues {
  import opened ByteStrings

  datatype Key = IKey(i: int) | SKey(s: Bytes)

  datatype Entry = Entry(key: Key, val: Value)

  datatype Value = Value(meta: seq<Entry>, body: Body)

  datatype Body =
    | Invalid
    | Null
    | Bool(b: bool)
    | Int(i: int)
    | UInt(u: int)
    | Double(bits: Bytes)
    | Decimal(mantissa: int, exponent: int)
    | DateTime(msec: int, minutes: int)
    | String(str: Bytes)
    | Blob(blob: Bytes)
    | List(items: seq<Value>)
    | Map(entries: seq<Entry>)
    | IMap(entries: seq<Entry>)
  {
    predicate IsContainer() { List? || Map? || IMap? }
  }

  predicate KeyLess(a: Key, b: Key)
  {
    match (a, b)
    case (IKey(i), IKey(j)) => i < j
    case (IKey(_), SKey(_)) => true
    case (SKey(_), IKey(_)) => false
    case (SKey(s), SKey(t)) => Less(s, t)
  }

  lemma KeyLessIsAsymmetric(a: Key, b: Key)
    requires KeyLess(a, b)
    ensures !KeyLess(b, a) && a != b
  {
    if a.SKey? {
      LessIsAsymmetric(a.s, b.s);
    }
  }

  ghost predicate Sorted(es: seq<Entry>)
  {
    forall i, j | 0 <= i < j < |es| :: KeyLess(es[i].key, es[j].key)
  }

  /** Assignment through `operator[]` of an ordered map. */
  function Insert(es: seq<Entry>, key: Key, val: Value): seq<Entry>
  {
    if es == [] || KeyLess(key, es[0].key) then [Entry(key, val)] + es
    else if es[0].key == key then [Entry(key, val)] + es[1..]
    else [es[0]] + Insert(es[1..], key, val)
  }

  function Erase(es: seq<Entry>, key: Key): seq<Entry>
  {
    if es == [] then []
    else if es[0].key == key then es[1..]
    else [es[0]] + Erase(es[1..], key)
  }

  /** The value under a key. */
  function Lookup(es: seq<Entry>, key: Key): Option<Value>
  {
    if es == [] then None else if es[0].key == key then Some(es[0].val) else Lookup(es[1..], key)
  }

  lemma KeyLessIsTotal(a: Key, b: Key)
    ensures a == b || KeyLess(a, b) || KeyLess(b, a)
  {
    if a.SKey? && b.SKey? {
      LessIsTotal(a.s, b.s);
    }
  }

  lemma KeyLessIsTransitive(a: Key, b: Key, c: Key)
    requires KeyLess(a, b) && KeyLess(b, c)
    ensures KeyLess(a, c)
  {
    if a.SKey? && b.SKey? && c.SKey? {
      LessIsTransitive(a.s, b.s, c.s);
    }
  }

  /** All keys are above this one. */
  ghost predicate Above(es: seq<Entry>, key: Key) { forall i | 0 <= i < |es| :: KeyLess(key, es[i].key) }

  lemma {:induction false} NothingUnder(es: seq<Entry>, low: Key, key: Key)
    requires Above(es, low) && (key == low || KeyLess(key, low))
    ensures Lookup(es, key) == None
  {
    if es != [] {
      if key != low {
        KeyLessIsTransitive(key, low, es[0].key);
      }
      KeyLessIsAsymmetric(key, es[0].key);
      NothingUnder(es[1..], low, key);
    }
  }

  lemma SortedInFront(e: Entry, es: seq<Entry>)
    requires Sorted(es) && Above(es, e.key)
    ensures Sorted([e] + es)
  {
  }

  lemma FrontIsLeast(es: seq<Entry>)
    requires Sorted(es) && es != []
    ensures Sorted(es[1..]) && Above(es[1..], es[0].key)
  {
  }

  lemma LookupInFront(e: Entry, es: seq<Entry>, key: Key)
    ensures Lookup([e] + es, key) == if key == e.key then Some(e.val) else Lookup(es, key)
  {
    assert ([e] + es)[1..] == es;
  }

  lemma {:induction false} InsertKeepsAbove(es: seq<Entry>, low: Key, key: Key, val: Value)
    requires Above(es, low) && KeyLess(low, key)
    ensures Above(Insert(es, key, val), low)
  {
    if es != [] && !KeyLess(key, es[0].key) && es[0].key != key {
      InsertKeepsAbove(es[1..], low, key, val);
    }
  }

  /** Setting a key: the list stays sorted, and as a map it changes at that key alone. */
  lemma {:induction false} InsertSets(es: seq<Entry>, key: Key, val: Value)
    requires Sorted(es)
    ensures Sorted(Insert(es, key, val))
    ensures forall k :: Lookup(Insert(es, key, val), k) == if k == key then Some(val) else Lookup(es, k)
  {
    if es == [] || KeyLess(key, es[0].key) {
      if es != [] {
        FrontIsLeast(es);
        forall i | 0 <= i < |es| ensures KeyLess(key, es[i].key) {
          if i > 0 {
            KeyLessIsTransitive(key, es[0].key, es[i].key);
          }
        }
      }
      SortedInFront(Entry(key, val), es);
      forall k ensures Lookup(Insert(es, key, val), k) == if k == key then Some(val) else Lookup(es, k) {
        LookupInFront(Entry(key, val), es, k);
      }
    } else if es[0].key == key {
      FrontIsLeast(es);
      SortedInFront(Entry(key, val), es[1..]);
      forall k ensures Lookup(Insert(es, key, val), k) == if k == key then Some(val) else Lookup(es, k) {
        LookupInFront(Entry(key, val), es[1..], k);
      }
    } else {
      FrontIsLeast(es);
      KeyLessIsTotal(key, es[0].key);
      InsertSets(es[1..], key, val);
      InsertKeepsAbove(es[1..], es[0].key, key, val);
      SortedInFront(es[0], Insert(es[1..], key, val));
      forall k ensures Lookup(Insert(es, key, val), k) == if k == key then Some(val) else Lookup(es, k) {
        LookupInFront(es[0], Insert(es[1..], key, val), k);
      }
    }
  }

  lemma {:induction false} EraseKeepsAbove(es: seq<Entry>, low: Key, key: Key)
    requires Above(es, low)
    ensures Above(Erase(es, key), low)
  {
    if es != [] && es[0].key != key {
      EraseKeepsAbove(es[1..], low, key);
    }
  }

  /** Forgetting a key: the same, and nothing is left under it. */
  lemma {:induction false} EraseForgets(es: seq<Entry>, key: Key)
    requires Sorted(es)
    ensures Sorted(Erase(es, key))
    ensures forall k :: Lookup(Erase(es, key), k) == if k == key then None else Lookup(es, k)
  {
    if es != [] {
      FrontIsLeast(es);
      if es[0].key == key {
        NothingUnder(es[1..], key, key);
      } else {
        EraseForgets(es[1..], key);
        EraseKeepsAbove(es[1..], es[0].key, key);
        SortedInFront(es[0], Erase(es[1..], key));
        forall k ensures Lookup(Erase(es, key), k) == if k == key then None else Lookup(es, k) {
          LookupInFront(es[0], Erase(es[1..], key), k);
        }
      }
    }
  }

  /** A key above all keys present goes to the end. */
  lemma {:induction false} InsertAtEnd(es: seq<Entry>, key: Key, val: Value)
    requires forall e | e in es :: KeyLess(e.key, key)
    ensures Insert(es, key, val) == es + [Entry(key, val)]
  {
    if es != [] {
      assert es[0] in es;
      KeyLessIsAsymmetric(es[0].key, key);
      InsertAtEnd(es[1..], key, val);
      assert es == [es[0]] + es[1..];
    }
  }
}
