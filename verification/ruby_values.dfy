/**
 * The Ruby values that the client and the Hash helpers handle: nil,
 * booleans, integers, strings, arrays and hashes.  A Hash is kept as an
 * association list in insertion order, because Ruby hashes iterate in
 * insertion order and deleting then re-inserting a key moves it to the end.
 */
module RubyValues {
  import opened Wrappers

  /** A Hash key: a String or a Symbol. */
  datatype Key = Str(s: string) | Sym(name: string)

  /** `key.to_s`: a String is itself, a Symbol is its name. */
  function ToS(k: Key): string {
    match k
    case Str(s) => s
    case Sym(name) => name
  }

  datatype Value =
    | Nil
    | Bool(b: bool)
    | Int(i: int)
    | Text(s: string)
    | Arr(items: seq<Value>)
    | Hash(entries: seq<Entry>)

  /** One key/value pair of a Hash. */
  datatype Entry = Entry(key: Key, val: Value)

  /** The exceptions the modelled code lets escape. */
  datatype RubyError = NotImplementedError | TypeError | NoMethodError

  /** Ruby truthiness: every value except nil and false. */
  predicate Truthy(v: Value) {
    v != Nil && v != Bool(false)
  }

  /** A Ruby Hash never holds the same key twice. */
  predicate DistinctKeys(h: seq<Entry>) {
    forall i, j | 0 <= i < j < |h| :: h[i].key != h[j].key
  }

  /** `hash.keys`: the keys in insertion order. */
  function Keys(h: seq<Entry>): (ks: seq<Key>)
    ensures |ks| == |h|
    ensures forall i | 0 <= i < |h| :: ks[i] == h[i].key
  {
    if h == [] then [] else [h[0].key] + Keys(h[1..])
  }

  /** `hash[k]`: the value stored under `k`, if any. */
  function Lookup(h: seq<Entry>, k: Key): Option<Value> {
    if h == [] then None
    else if h[0].key == k then Some(h[0].val)
    else Lookup(h[1..], k)
  }

  /** `hash[k]`, and the value `hash.delete(k)` returns: nil when `k` is absent. */
  function ValueAt(h: seq<Entry>, k: Key): Value {
    match Lookup(h, k)
    case Some(v) => v
    case None => Nil
  }

  /** The effect of `hash.delete(k)`: the entry under `k` goes, the others keep their order. */
  function Remove(h: seq<Entry>, k: Key): seq<Entry> {
    if h == [] then []
    else if h[0].key == k then h[1..]
    else [h[0]] + Remove(h[1..], k)
  }

  /**
   * `hash[k] = v`: an existing key keeps its position and takes the new
   * value; a new key is appended.
   */
  function Store(h: seq<Entry>, k: Key, v: Value): seq<Entry> {
    if h == [] then [Entry(k, v)]
    else if h[0].key == k then [Entry(k, v)] + h[1..]
    else [h[0]] + Store(h[1..], k, v)
  }

  /** The key-to-value view of a Hash (for a repeated key the first entry wins, as in Lookup). */
  function AsMap(h: seq<Entry>): map<Key, Value> {
    if h == [] then map[] else AsMap(h[1..])[h[0].key := h[0].val]
  }

  lemma {:induction false} AsMapKeys(h: seq<Entry>)
    ensures forall k :: k in AsMap(h) <==> k in Keys(h)
  {
    if h != [] {
      AsMapKeys(h[1..]);
      assert Keys(h) == [h[0].key] + Keys(h[1..]);
    }
  }

  lemma {:induction false} LookupAsMap(h: seq<Entry>, k: Key)
    ensures Lookup(h, k) == if k in AsMap(h) then Some(AsMap(h)[k]) else None
  {
    if h != [] {
      LookupAsMap(h[1..], k);
    }
  }

  /** In a Hash without repeated keys every entry is what the map view gives for its key. */
  lemma {:induction false} AsMapEntries(h: seq<Entry>)
    requires DistinctKeys(h)
    ensures forall i | 0 <= i < |h| :: h[i].key in AsMap(h) && AsMap(h)[h[i].key] == h[i].val
  {
    if h != [] {
      AsMapEntries(h[1..]);
      forall i | 0 < i < |h|
        ensures h[i].key in AsMap(h) && AsMap(h)[h[i].key] == h[i].val
      {
        assert h[1..][i - 1] == h[i];
      }
    }
  }

  /** A key missing from the map view is carried by no entry. */
  lemma {:induction false} AbsentFromEntries(h: seq<Entry>, k: Key)
    requires k !in AsMap(h)
    ensures forall i | 0 <= i < |h| :: h[i].key != k
  {
    AsMapKeys(h);
  }

  lemma {:induction false} HeadNotInTail(h: seq<Entry>)
    requires DistinctKeys(h) && h != []
    ensures h[0].key !in AsMap(h[1..])
  {
    AsMapKeys(h[1..]);
    assert forall j | 0 <= j < |h| - 1 :: Keys(h[1..])[j] == h[j + 1].key;
  }

  /** Putting a fresh key in front of a Hash keeps its keys distinct. */
  lemma DistinctCons(e: Entry, r: seq<Entry>)
    requires DistinctKeys(r) && e.key !in AsMap(r)
    ensures DistinctKeys([e] + r)
  {
    AbsentFromEntries(r, e.key);
    var h := [e] + r;
    forall i, j | 0 <= i < j < |h| ensures h[i].key != h[j].key {
      assert h[j] == r[j - 1];
      if i > 0 {
        assert h[i] == r[i - 1];
      }
    }
  }

  lemma {:induction false} RemoveAsMap(h: seq<Entry>, k: Key)
    requires DistinctKeys(h)
    ensures DistinctKeys(Remove(h, k))
    ensures AsMap(Remove(h, k)) == AsMap(h) - {k}
  {
    if h != [] {
      HeadNotInTail(h);
      RemoveAsMap(h[1..], k);
      if h[0].key != k {
        DistinctCons(h[0], Remove(h[1..], k));
      }
    }
  }

  lemma {:induction false} StoreAsMap(h: seq<Entry>, k: Key, v: Value)
    requires DistinctKeys(h)
    ensures DistinctKeys(Store(h, k, v))
    ensures AsMap(Store(h, k, v)) == AsMap(h)[k := v]
  {
    if h != [] {
      HeadNotInTail(h);
      if h[0].key != k {
        StoreAsMap(h[1..], k, v);
        DistinctCons(h[0], Store(h[1..], k, v));
      } else {
        DistinctCons(Entry(k, v), h[1..]);
        assert ([Entry(k, v)] + h[1..])[1..] == h[1..];
      }
    }
  }

  /** Storing a key that is not there appends it. */
  lemma {:induction false} StoreAbsent(h: seq<Entry>, k: Key, v: Value)
    requires forall i | 0 <= i < |h| :: h[i].key != k
    ensures Store(h, k, v) == h + [Entry(k, v)]
  {
    if h != [] {
      StoreAbsent(h[1..], k, v);
    }
  }
}
