/**
 * The core-class helpers the client relies on: key normalisation of a Hash
 * (`with_indifferent_access` and `with_indifferent_access!`, built on the
 * private `resolve`) and the `blank?` / `present?` predicates of Hash,
 * String and NilClass.
 */
module ClassHelpers {
  import opened Wrappers
  import opened RubyValues

  function Max(a: nat, b: nat): nat {
    if a < b then b else a
  }

  /** The largest element of `s`, 0 when it is empty. */
  function MaxOf(s: seq<nat>): nat {
    if s == [] then 0 else Max(s[0], MaxOf(s[1..]))
  }

  /** How deeply Hashes nest inside a value (normalisation never enters arrays). */
  function Depth(v: Value): nat {
    match v
    case Hash(h) => 1 + MaxOf(seq(|h|, i requires 0 <= i < |h| => Depth(h[i].val)))
    case _ => 0
  }

  /** The deepest nesting among the values of a Hash. */
  function MaxDepth(h: seq<Entry>): nat {
    MaxOf(seq(|h|, i requires 0 <= i < |h| => Depth(h[i].val)))
  }

  lemma HashDepth(h: seq<Entry>)
    ensures Depth(Hash(h)) == 1 + MaxDepth(h)
  {
  }

  lemma MaxDepthCons(h: seq<Entry>)
    ensures h == [] ==> MaxDepth(h) == 0
    ensures h != [] ==> MaxDepth(h) == Max(Depth(h[0].val), MaxDepth(h[1..]))
  {
    if h != [] {
      var s := seq(|h|, i requires 0 <= i < |h| => Depth(h[i].val));
      assert s[1..] == seq(|h| - 1, i requires 0 <= i < |h| - 1 => Depth(h[1..][i].val));
    }
  }

  lemma {:induction false} LookupDepth(h: seq<Entry>, k: Key)
    ensures Depth(ValueAt(h, k)) <= MaxDepth(h)
  {
    MaxDepthCons(h);
    if h != [] && h[0].key != k {
      LookupDepth(h[1..], k);
    }
  }

  lemma {:induction false} RemoveDepth(h: seq<Entry>, k: Key)
    ensures MaxDepth(Remove(h, k)) <= MaxDepth(h)
  {
    MaxDepthCons(h);
    if h != [] {
      MaxDepthCons(h[1..]);
      MaxDepthCons(Remove(h, k));
      if h[0].key != k {
        RemoveDepth(h[1..], k);
        assert Remove(h, k)[1..] == Remove(h[1..], k);
      }
    }
  }

  lemma {:induction false} StoreDepth(h: seq<Entry>, k: Key, v: Value)
    ensures MaxDepth(Store(h, k, v)) <= Max(MaxDepth(h), Depth(v))
  {
    MaxDepthCons(h);
    MaxDepthCons(Store(h, k, v));
    if h == [] {
      assert Store(h, k, v)[1..] == [];
      MaxDepthCons([]);
    } else if h[0].key == k {
      assert Store(h, k, v)[1..] == h[1..];
    } else {
      StoreDepth(h[1..], k, v);
      assert Store(h, k, v)[1..] == Store(h[1..], k, v);
    }
  }

  /**
   * The value `resolve` stores back: a Hash after `with_indifferent_access!`
   * has normalised it, any other value as it is.
   */
  function Indifferent(v: Value): (r: Value)
    ensures Depth(r) <= Depth(v)
    decreases Depth(v), 3, 0
  {
    match v
    case Hash(h) =>
      HashDepth(h);
      HashDepth(NormalizeEntries(h));
      Hash(NormalizeEntries(h))
    case _ => v
  }

  /** `with_indifferent_access!` on a Hash's entries: resolve each key of the snapshot `keys`. */
  function NormalizeEntries(h: seq<Entry>): (r: seq<Entry>)
    ensures MaxDepth(r) <= MaxDepth(h)
    decreases 1 + MaxDepth(h), 2, 0
  {
    ResolveAll(h, Keys(h))
  }

  /** Resolve the keys `ks` one after the other, each on the Hash the previous one left. */
  function ResolveAll(h: seq<Entry>, ks: seq<Key>): (r: seq<Entry>)
    ensures MaxDepth(r) <= MaxDepth(h)
    decreases 1 + MaxDepth(h), 1, |ks|
  {
    if ks == [] then h else ResolveAll(ResolveEntries(h, ks[0]), ks[1..])
  }

  /**
   * `resolve(key)`: delete the entry under `key`, then store its value
   * (normalised when it is a Hash) under `key.to_s`.
   */
  function ResolveEntries(h: seq<Entry>, k: Key): (r: seq<Entry>)
    ensures MaxDepth(r) <= MaxDepth(h)
    decreases 1 + MaxDepth(h), 0, 0
  {
    var v := ValueAt(h, k);
    LookupDepth(h, k);
    RemoveDepth(h, k);
    StoreDepth(Remove(h, k), Str(ToS(k)), Indifferent(v));
    Store(Remove(h, k), Str(ToS(k)), Indifferent(v))
  }

  /** Every Hash inside the value (arrays aside) holds each key once, as Ruby guarantees. */
  predicate WellFormed(v: Value) {
    match v
    case Hash(h) => DistinctKeys(h) && forall i {:trigger h[i]} | 0 <= i < |h| :: WellFormed(h[i].val)
    case _ => true
  }

  /** Indifferent-access form: every key of every Hash inside the value (arrays aside) is a String. */
  predicate IsNormal(v: Value) {
    match v
    case Hash(h) => DistinctKeys(h) && forall i | 0 <= i < |h| :: h[i].key.Str? && IsNormal(h[i].val)
    case _ => true
  }

  lemma {:induction false} NormalIsWellFormed(v: Value)
    requires IsNormal(v)
    ensures WellFormed(v)
  {
    match v
    case Hash(h) =>
      forall i | 0 <= i < |h| ensures WellFormed(h[i].val) {
        NormalIsWellFormed(h[i].val);
      }
    case _ =>
  }

  /** The entry that a key of the map view comes from. */
  lemma EntryOf(h: seq<Entry>, x: Key) returns (i: nat)
    requires DistinctKeys(h) && x in AsMap(h)
    ensures i < |h| && h[i].key == x && AsMap(h)[x] == h[i].val
  {
    AsMapEntries(h);
    AsMapKeys(h);
    i :| 0 <= i < |h| && Keys(h)[i] == x;
  }

  /** The map view holds each entry of a Hash under its key. */
  lemma EntryInMap(h: seq<Entry>, i: nat)
    requires DistinctKeys(h) && i < |h|
    ensures h[i].key in AsMap(h) && AsMap(h)[h[i].key] == h[i].val
  {
    AsMapEntries(h);
  }

  lemma WellFormedEntriesToMap(h: seq<Entry>)
    requires DistinctKeys(h)
    requires forall i | 0 <= i < |h| :: WellFormed(h[i].val)
    ensures forall x | x in AsMap(h) :: WellFormed(AsMap(h)[x])
  {
  }

  lemma WellFormedMapToEntries(h: seq<Entry>)
    requires DistinctKeys(h)
    requires forall x | x in AsMap(h) :: WellFormed(AsMap(h)[x])
    ensures forall i | 0 <= i < |h| :: WellFormed(h[i].val)
  {
    forall i | 0 <= i < |h| ensures WellFormed(h[i].val) {
      EntryInMap(h, i);
    }
  }

  /** WellFormed read through the key-to-value view of a Hash. */
  lemma WellFormedViaMap(h: seq<Entry>)
    requires DistinctKeys(h)
    ensures WellFormed(Hash(h)) ==> forall x | x in AsMap(h) :: WellFormed(AsMap(h)[x])
    ensures (forall x | x in AsMap(h) :: WellFormed(AsMap(h)[x])) ==> WellFormed(Hash(h))
  {
    if WellFormed(Hash(h)) {
      WellFormedEntriesToMap(h);
    }
    if forall x | x in AsMap(h) :: WellFormed(AsMap(h)[x]) {
      WellFormedMapToEntries(h);
    }
  }

  /** IsNormal read through the key-to-value view of a Hash. */
  lemma IsNormalViaMap(h: seq<Entry>)
    requires DistinctKeys(h)
    ensures IsNormal(Hash(h)) <==> forall x | x in AsMap(h) :: x.Str? && IsNormal(AsMap(h)[x])
  {
    if forall x | x in AsMap(h) :: x.Str? && IsNormal(AsMap(h)[x]) {
      forall i | 0 <= i < |h| ensures h[i].key.Str? && IsNormal(h[i].val) {
        EntryInMap(h, i);
      }
    }
    if forall i | 0 <= i < |h| :: h[i].key.Str? && IsNormal(h[i].val) {
      forall x | x in AsMap(h) ensures x.Str? && IsNormal(AsMap(h)[x]) {
        var i := EntryOf(h, x);
      }
    }
  }

  /** `resolve(key)` seen through the map view: `key` goes, `key.to_s` receives its (normalised) value. */
  lemma ResolveAsMap(h: seq<Entry>, k: Key)
    requires DistinctKeys(h)
    ensures DistinctKeys(ResolveEntries(h, k))
    ensures ValueAt(h, k) == if k in AsMap(h) then AsMap(h)[k] else Nil
    ensures AsMap(ResolveEntries(h, k)) == (AsMap(h) - {k})[Str(ToS(k)) := Indifferent(ValueAt(h, k))]
  {
    LookupAsMap(h, k);
    RemoveAsMap(h, k);
    StoreAsMap(Remove(h, k), Str(ToS(k)), Indifferent(ValueAt(h, k)));
  }

  /** Normalising a well-formed value yields indifferent-access form. */
  lemma {:induction false} IndifferentIsNormal(v: Value)
    requires WellFormed(v)
    ensures IsNormal(Indifferent(v))
    decreases Depth(v), 1, 0
  {
    match v
    case Hash(h) =>
      HashDepth(h);
      WellFormedViaMap(h);
      AsMapKeys(h);
      ResolveAllNormal(h, Keys(h));
    case _ =>
  }

  /**
   * Resolving the keys `ks` leaves a Hash in indifferent-access form, as long
   * as every key not in `ks` already is a String holding a normal value.
   */
  lemma {:induction false} ResolveAllNormal(h: seq<Entry>, ks: seq<Key>)
    requires DistinctKeys(h)
    requires forall x | x in AsMap(h) :: WellFormed(AsMap(h)[x])
    requires forall x | x in AsMap(h) && x !in ks :: x.Str? && IsNormal(AsMap(h)[x])
    ensures IsNormal(Hash(ResolveAll(h, ks)))
    decreases 1 + MaxDepth(h), 0, |ks|
  {
    if ks == [] {
      IsNormalViaMap(h);
    } else {
      var k := ks[0];
      var v := ValueAt(h, k);
      var h' := ResolveEntries(h, k);
      ResolveAsMap(h, k);
      LookupDepth(h, k);
      IndifferentIsNormal(v);
      NormalIsWellFormed(Indifferent(v));
      forall x | x in AsMap(h') && x !in ks[1..]
        ensures x.Str? && IsNormal(AsMap(h')[x])
      {
        if x != Str(ToS(k)) {
          assert x in AsMap(h) && x != k;
        }
      }
      ResolveAllNormal(h', ks[1..]);
    }
  }

  /** A value already in indifferent-access form is left exactly as it is, key order included. */
  lemma {:induction false} NormalIsFixed(v: Value)
    requires IsNormal(v)
    ensures Indifferent(v) == v
  {
    match v
    case Hash(h) =>
      forall i | 0 <= i < |h| ensures Indifferent(h[i].val) == h[i].val {
        NormalIsFixed(h[i].val);
      }
      ResolveRotates(h, 0);
      assert h[0..] + h[..0] == h;
    case _ =>
  }

  /**
   * On a normal Hash each `resolve` deletes the first entry and appends it
   * again: after `i` steps the entries are rotated by `i`.
   */
  lemma {:induction false} ResolveRotates(h: seq<Entry>, i: nat)
    requires DistinctKeys(h)
    requires forall j | 0 <= j < |h| :: h[j].key.Str? && Indifferent(h[j].val) == h[j].val
    requires i <= |h|
    ensures ResolveAll(h[i..] + h[..i], Keys(h)[i..]) == h
    decreases |h| - i
  {
    if i == |h| {
      assert h[i..] + h[..i] == h;
    } else {
      var k := h[i].key;
      var rest := h[i + 1..] + h[..i];
      assert h[i..] + h[..i] == [h[i]] + rest;
      assert Keys(h)[i..][1..] == Keys(h)[i + 1..];
      forall j | 0 <= j < |rest| ensures rest[j].key != k {
        if j < |h| - i - 1 {
          assert rest[j] == h[i + 1 + j];
        } else {
          assert rest[j] == h[j - (|h| - i - 1)];
        }
      }
      StoreAbsent(rest, k, h[i].val);
      assert ResolveEntries([h[i]] + rest, k) == rest + [h[i]];
      assert rest + [h[i]] == h[i + 1..] + h[..i + 1];
      ResolveRotates(h, i + 1);
    }
  }

  /** `with_indifferent_access!` is idempotent: normalising twice equals normalising once, key order included. */
  lemma IndifferentIdempotent(v: Value)
    requires WellFormed(v)
    ensures Indifferent(Indifferent(v)) == Indifferent(v)
  {
    IndifferentIsNormal(v);
    NormalIsFixed(Indifferent(v));
  }

  /** The String spelling of each key: the keys a normalised Hash ends up with. */
  function StrImages(keys: set<Key>): set<Key> {
    set k | k in keys :: Str(ToS(k))
  }

  /**
   * The value that survives under the String `s`: when both `:s` and `"s"`
   * are keys, the Symbol's.
   */
  function Survivor(m: map<Key, Value>, s: string): Value {
    if Sym(s) in m then m[Sym(s)] else if Str(s) in m then m[Str(s)] else Nil
  }

  /** What a partly normalised Hash holds under `x` once the keys `done` of the original `m` are resolved. */
  ghost function Pending(m: map<Key, Value>, done: set<Key>, x: Key): Value {
    if x.Str? && Sym(x.s) in done && Sym(x.s) in m then Indifferent(m[Sym(x.s)])
    else if x in done && x in m then Indifferent(m[x])
    else if x in m then m[x]
    else Nil
  }

  /** Resolving `k` takes it out of the unresolved keys and adds its String spelling. */
  lemma StepKeys(keys: set<Key>, todo: set<Key>, done: set<Key>, k: Key)
    requires keys == todo + StrImages(done) && k in todo && k !in done
    ensures keys - {k} + {Str(ToS(k))} == (todo - {k}) + StrImages(done + {k})
  {
  }

  /** What `resolve(k)` stores under `k.to_s` is the Pending value there once `k` is resolved. */
  lemma StepImage(m: map<Key, Value>, done: set<Key>, k: Key)
    requires forall x | x in m :: WellFormed(m[x])
    requires k in m && k !in done
    ensures Indifferent(Pending(m, done, k)) == Pending(m, done + {k}, Str(ToS(k)))
  {
    if k.Str? && Sym(k.s) in done && Sym(k.s) in m {
      IndifferentIdempotent(m[Sym(k.s)]);
    }
  }

  /** Resolving `k` changes the Pending value of no key other than `k` and `k.to_s`. */
  lemma StepOther(m: map<Key, Value>, done: set<Key>, k: Key, x: Key)
    requires x != k && x != Str(ToS(k))
    ensures Pending(m, done + {k}, x) == Pending(m, done, x)
  {
  }

  /** One `resolve` step keeps the description of the partly normalised Hash. */
  lemma ResolveStep(m: map<Key, Value>, todo: set<Key>, done: set<Key>, h: seq<Entry>, k: Key)
    requires forall x | x in m :: WellFormed(m[x])
    requires DistinctKeys(h)
    requires k in todo && todo <= m.Keys && done == m.Keys - todo
    requires AsMap(h).Keys == todo + StrImages(done)
    requires forall x | x in AsMap(h) :: AsMap(h)[x] == Pending(m, done, x)
    ensures DistinctKeys(ResolveEntries(h, k))
    ensures AsMap(ResolveEntries(h, k)).Keys == (todo - {k}) + StrImages(done + {k})
    ensures forall x | x in AsMap(ResolveEntries(h, k)) ::
      AsMap(ResolveEntries(h, k))[x] == Pending(m, done + {k}, x)
  {
    ResolveAsMap(h, k);
    var M, M' := AsMap(h), AsMap(ResolveEntries(h, k));
    var img := Str(ToS(k));
    assert M' == (M - {k})[img := Indifferent(M[k])];
    StepKeys(M.Keys, todo, done, k);
    StepImage(m, done, k);
    forall x | x in M' ensures M'[x] == Pending(m, done + {k}, x) {
      if x != img {
        StepOther(m, done, k, x);
      }
    }
  }

  /**
   * The loop of `with_indifferent_access!` over the remaining snapshot keys
   * `ks`: with the keys of the original `m` outside `ks` resolved, the Hash
   * holds the unresolved keys plus the String spellings of the resolved ones,
   * each with its Pending value; at the end it holds exactly the String
   * spellings of all keys.
   */
  lemma {:induction false} ResolveAllValues(m: map<Key, Value>, h: seq<Entry>, ks: seq<Key>, done: set<Key>)
    requires forall x | x in m :: WellFormed(m[x])
    requires DistinctKeys(h)
    requires forall i, j | 0 <= i < j < |ks| :: ks[i] != ks[j]
    requires (set y | y in ks) <= m.Keys && done == m.Keys - (set y | y in ks)
    requires AsMap(h).Keys == (set y | y in ks) + StrImages(done)
    requires forall x | x in AsMap(h) :: AsMap(h)[x] == Pending(m, done, x)
    ensures DistinctKeys(ResolveAll(h, ks))
    ensures AsMap(ResolveAll(h, ks)).Keys == StrImages(m.Keys)
    ensures forall x | x in AsMap(ResolveAll(h, ks)) :: AsMap(ResolveAll(h, ks))[x] == Pending(m, m.Keys, x)
    decreases |ks|
  {
    if ks == [] {
      assert done == m.Keys;
    } else {
      var k, rest := ks[0], ks[1..];
      var todo := set y | y in ks;
      assert (set y | y in rest) == todo - {k} by {
        assert forall y | y in rest :: y != k;
      }
      ResolveStep(m, todo, done, h, k);
      ResolveAllValues(m, ResolveEntries(h, k), rest, done + {k});
    }
  }

  lemma {:induction false} DistinctSnapshot(h: seq<Entry>)
    requires DistinctKeys(h)
    ensures forall i, j | 0 <= i < j < |Keys(h)| :: Keys(h)[i] != Keys(h)[j]
    ensures forall i | 0 <= i < |Keys(h)| :: Keys(h)[i] in AsMap(h)
    ensures AsMap(h).Keys == set y | y in Keys(h)
  {
    AsMapKeys(h);
  }

  /**
   * After `with_indifferent_access!` the keys are exactly the String
   * spellings of the original keys, each once, and each holds the
   * (normalised) value of the key that survives under that spelling.
   */
  lemma {:induction false} NormalizedKeysAndValues(h: seq<Entry>)
    requires WellFormed(Hash(h))
    ensures DistinctKeys(NormalizeEntries(h))
    ensures AsMap(NormalizeEntries(h)).Keys == StrImages(AsMap(h).Keys)
    ensures forall x | x in AsMap(NormalizeEntries(h)) ::
      AsMap(NormalizeEntries(h))[x] == Indifferent(Survivor(AsMap(h), ToS(x)))
  {
    var m := AsMap(h);
    WellFormedViaMap(h);
    DistinctSnapshot(h);
    assert StrImages({}) == {};
    ResolveAllValues(m, h, Keys(h), {});
    var r := AsMap(NormalizeEntries(h));
    forall x | x in r ensures r[x] == Indifferent(Survivor(m, ToS(x))) {
      assert x in StrImages(m.Keys);
      assert x.Str?;
    }
  }

  lemma {:induction false} DistinctLength(h: seq<Entry>)
    requires DistinctKeys(h)
    ensures |AsMap(h).Keys| == |h|
  {
    if h != [] {
      HeadNotInTail(h);
      DistinctLength(h[1..]);
    }
  }

  lemma {:induction false} StrSetCard(names: set<string>)
    ensures |set s | s in names :: Str(s)| == |names|
    decreases names
  {
    if names != {} {
      var s :| s in names;
      StrSetCard(names - {s});
      assert (set t | t in names :: Str(t)) == (set t | t in names - {s} :: Str(t)) + {Str(s)};
    }
  }

  /** Keys that share a String spelling collapse: one key per distinct `to_s`. */
  lemma NormalizedKeyCount(h: seq<Entry>)
    requires WellFormed(Hash(h))
    ensures |NormalizeEntries(h)| == |set k | k in Keys(h) :: ToS(k)|
  {
    NormalizedKeysAndValues(h);
    DistinctLength(NormalizeEntries(h));
    AsMapKeys(h);
    var names := set k | k in Keys(h) :: ToS(k);
    assert StrImages(AsMap(h).Keys) == set s | s in names :: Str(s);
    StrSetCard(names);
  }

  /** When `:s` and `"s"` are both keys, only `"s"` remains and it holds the Symbol's value. */
  lemma SymbolSpellingWins(h: seq<Entry>, s: string)
    requires WellFormed(Hash(h)) && Str(s) in AsMap(h) && Sym(s) in AsMap(h)
    ensures Lookup(NormalizeEntries(h), Str(s)) == Some(Indifferent(AsMap(h)[Sym(s)]))
    ensures Lookup(NormalizeEntries(h), Sym(s)) == None
  {
    NormalizedKeysAndValues(h);
    LookupAsMap(NormalizeEntries(h), Str(s));
    LookupAsMap(NormalizeEntries(h), Sym(s));
    assert Str(ToS(Str(s))) in StrImages(AsMap(h).Keys);
  }

  /**
   * A key whose String spelling no other key shares keeps its value under
   * that spelling: a Hash normalised, any other value unchanged.
   */
  lemma SpellingKeepsValue(h: seq<Entry>, k: Key)
    requires WellFormed(Hash(h)) && k in AsMap(h)
    requires (if k.Str? then Sym(k.s) else Str(k.name)) !in AsMap(h)
    ensures Lookup(NormalizeEntries(h), Str(ToS(k))) == Some(Indifferent(AsMap(h)[k]))
    ensures !AsMap(h)[k].Hash? ==> Lookup(NormalizeEntries(h), Str(ToS(k))) == Some(AsMap(h)[k])
  {
    NormalizedKeysAndValues(h);
    LookupAsMap(NormalizeEntries(h), Str(ToS(k)));
    assert Str(ToS(k)) in StrImages(AsMap(h).Keys);
  }

  /** `blank?`, defined on Hash, String and NilClass; any other receiver raises NoMethodError. */
  function Blank(v: Value): (r: Result<bool, RubyError>)
    ensures r.Success? <==> v.Nil? || v.Text? || v.Hash?
    ensures r == Success(true) <==> v == Nil || v == Text("") || v == Hash([])
    ensures !(v.Nil? || v.Text? || v.Hash?) ==> r == Failure(NoMethodError)
  {
    match v
    case Nil => Success(true)
    case Text(s) => Success(s == "")
    case Hash(h) => Success(h == [])
    case _ => Failure(NoMethodError)
  }

  /** `present?`: the negation of `blank?` on the same three classes. */
  function Present(v: Value): (r: Result<bool, RubyError>)
    ensures r.Success? <==> Blank(v).Success?
    ensures r.Success? ==> r.value == !Blank(v).value
    ensures r == Success(true) <==> (v.Text? && v.s != "") || (v.Hash? && v.entries != [])
    ensures !(v.Nil? || v.Text? || v.Hash?) ==> r == Failure(NoMethodError)
  {
    match Blank(v)
    case Success(b) => Success(!b)
    case Failure(e) => Failure(e)
  }

  /** A Ruby Hash object, which `with_indifferent_access!` rewrites in place. */
  class RubyHash {
    var entries: seq<Entry>

    ghost predicate Valid()
      reads this
    {
      WellFormed(Hash(entries))
    }

    constructor (entries: seq<Entry>)
      requires WellFormed(Hash(entries))
      ensures Valid() && this.entries == entries
    {
      this.entries := entries;
    }

    /**
     * `resolve(key)`: delete the entry under `key` and store its value under
     * `key.to_s`, after normalising it in place when it is a Hash.
     */
    method Resolve(key: Key)
      requires Valid()
      modifies this
      ensures Valid()
      ensures entries == ResolveEntries(old(entries), key)
      ensures AsMap(entries) == (AsMap(old(entries)) - {key})[Str(ToS(key)) := Indifferent(ValueAt(old(entries), key))]
    {
      ResolveAsMap(entries, key);
      ghost var before := entries;
      var current := ValueAt(entries, key);
      var rest := Remove(entries, key);
      if current.Hash? {
        entries := Store(rest, Str(ToS(key)), Indifferent(current));
      } else {
        entries := Store(rest, Str(ToS(key)), current);
      }
      ResolveKeepsWellFormed(before, key);
    }

    /**
     * `with_indifferent_access!`: resolve every key of a snapshot of `keys`,
     * in order, and return the receiver.
     */
    method WithIndifferentAccessBang() returns (receiver: RubyHash)
      requires Valid()
      modifies this
      ensures receiver == this && Valid()
      ensures entries == NormalizeEntries(old(entries))
      ensures IsNormal(Hash(entries))
    {
      var snapshot := Keys(entries);
      var i := 0;
      while i < |snapshot|
        invariant 0 <= i <= |snapshot|
        invariant Valid()
        invariant ResolveAll(entries, snapshot[i..]) == ResolveAll(old(entries), snapshot)
      {
        assert snapshot[i..][1..] == snapshot[i + 1..];
        Resolve(snapshot[i]);
        i := i + 1;
      }
      IndifferentIsNormal(Hash(old(entries)));
      receiver := this;
    }

    /** `with_indifferent_access`: normalise a shallow copy, leaving the receiver's entries as they were. */
    method WithIndifferentAccess() returns (copy: RubyHash)
      requires Valid()
      ensures fresh(copy) && copy.Valid()
      ensures copy.entries == NormalizeEntries(entries)
      ensures IsNormal(Hash(copy.entries))
    {
      copy := new RubyHash(entries);
      var _ := copy.WithIndifferentAccessBang();
    }
  }

  /** `resolve` keeps every Hash inside well-formed. */
  lemma ResolveKeepsWellFormed(h: seq<Entry>, k: Key)
    requires WellFormed(Hash(h))
    ensures WellFormed(Hash(ResolveEntries(h, k)))
  {
    var r := ResolveEntries(h, k);
    ResolveAsMap(h, k);
    WellFormedViaMap(h);
    LookupDepth(h, k);
    IndifferentIsNormal(ValueAt(h, k));
    NormalIsWellFormed(Indifferent(ValueAt(h, k)));
    WellFormedViaMap(r);
  }
}
