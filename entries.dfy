/** A plain JavaScript object seen through `Object.entries`: its keys in
    insertion order with their values. `Put` is `obj[key] = value`: an
    existing key keeps its place and takes the new value, a new key goes
    last. Integer-like keys, which JavaScript lists first in ascending
    order, are not modelled: no port or parameter id of the core is one. */
module Entries {
  import opened Wrappers

  function Keys<T>(entries: seq<(string, T)>): (r: seq<string>)
    ensures |r| == |entries|
    ensures forall i :: 0 <= i < |entries| ==> r[i] == entries[i].0
  {
    if entries == [] then [] else [entries[0].0] + Keys(entries[1..])
  }

  predicate Distinct(keys: seq<string>) {
    forall i, j :: 0 <= i < j < |keys| ==> keys[i] != keys[j]
  }

  /** `obj[key]`: the value of the first entry with that key. */
  function Lookup<T>(entries: seq<(string, T)>, key: string): (r: Option<T>)
    ensures r.None? <==> key !in Keys(entries)
  {
    if entries == [] then None
    else if entries[0].0 == key then Some(entries[0].1)
    else Lookup(entries[1..], key)
  }

  /** `obj[key] = value`. */
  function Put<T>(entries: seq<(string, T)>, key: string, value: T): (r: seq<(string, T)>)
    ensures key in Keys(r)
    ensures forall k :: k in Keys(r) <==> k in Keys(entries) || k == key
  {
    if entries == [] then [(key, value)]
    else if entries[0].0 == key then [(key, value)] + entries[1..]
    else [entries[0]] + Put(entries[1..], key, value)
  }

  /** After `obj[key] = value`, reading `key` gives `value` and every other
      key reads as before; the keys stay distinct. */
  lemma {:induction false} PutLookup<T>(entries: seq<(string, T)>, key: string, value: T, other: string)
    requires Distinct(Keys(entries))
    ensures Lookup(Put(entries, key, value), key) == Some(value)
    ensures other != key ==> Lookup(Put(entries, key, value), other) == Lookup(entries, other)
    ensures Distinct(Keys(Put(entries, key, value)))
    decreases |entries|
  {
    if entries != [] && entries[0].0 != key {
      var tail := entries[1..];
      assert Keys(tail) == Keys(entries)[1..];
      PutLookup(tail, key, value, other);
      var r := Put(entries, key, value);
      assert r == [entries[0]] + Put(tail, key, value);
      assert Keys(r) == [entries[0].0] + Keys(Put(tail, key, value));
      assert entries[0].0 !in Keys(tail);
      assert entries[0].0 !in Keys(Put(tail, key, value));
    } else if entries != [] {
      var tail := entries[1..];
      assert Keys(tail) == Keys(entries)[1..];
      assert Keys(Put(entries, key, value)) == [key] + Keys(tail);
      assert key !in Keys(tail);
    }
  }

  /** Assigning a key the object does not have appends it. */
  lemma {:induction false} PutNew<T>(entries: seq<(string, T)>, key: string, value: T)
    requires key !in Keys(entries)
    ensures Put(entries, key, value) == entries + [(key, value)]
    decreases |entries|
  {
    if entries != [] {
      var tail := entries[1..];
      assert entries[0].0 == Keys(entries)[0];
      forall i | 0 <= i < |tail|
        ensures Keys(tail)[i] != key
      {
        assert Keys(tail)[i] == Keys(entries)[i + 1];
      }
      PutNew(tail, key, value);
      assert Put(entries, key, value) == [entries[0]] + Put(tail, key, value);
      var appended := [entries[0]] + (tail + [(key, value)]);
      assert |appended| == |entries| + 1;
      forall i | 0 <= i < |appended|
        ensures appended[i] == (entries + [(key, value)])[i]
      {
        if 0 < i < |entries| {
          assert appended[i] == tail[i - 1];
        }
      }
    }
  }

  /** In entries with distinct keys, a key reads as the value stored next
      to it. */
  lemma {:induction false} LookupIndex<T>(entries: seq<(string, T)>, i: nat)
    requires Distinct(Keys(entries)) && i < |entries|
    ensures Lookup(entries, entries[i].0) == Some(entries[i].1)
    decreases i
  {
    if i > 0 {
      assert Keys(entries[1..]) == Keys(entries)[1..];
      assert Keys(entries)[0] != Keys(entries)[i];
      LookupIndex(entries[1..], i - 1);
    }
  }

  /** `Object.values`: the values in key order. */
  function Values<T>(entries: seq<(string, T)>): (r: seq<T>)
    ensures |r| == |entries|
    ensures forall i :: 0 <= i < |entries| ==> r[i] == entries[i].1
  {
    if entries == [] then [] else [entries[0].1] + Values(entries[1..])
  }

  /** Assignment keeps the key list, or appends a key it did not have. */
  lemma {:induction false} PutKeys<T>(entries: seq<(string, T)>, key: string, value: T)
    ensures Keys(Put(entries, key, value)) == if key in Keys(entries) then Keys(entries) else Keys(entries) + [key]
    decreases |entries|
  {
    if entries != [] {
      var tail := entries[1..];
      assert Keys(tail) == Keys(entries)[1..];
      PutKeys(tail, key, value);
      if entries[0].0 != key {
        assert Keys(entries) == [entries[0].0] + Keys(tail);
        assert key in Keys(entries) <==> key in Keys(tail);
      }
    }
  }

  /** The object a loop `for (const [key, x] of entries) out[key] = f(x)`
      builds, starting from `{}`. */
  function PutAll<T, U>(entries: seq<(string, T)>, f: T -> U): seq<(string, U)>
    decreases |entries|
  {
    if entries == [] then []
    else Put(PutAll(entries[..|entries| - 1], f), entries[|entries| - 1].0, f(entries[|entries| - 1].1))
  }

  /** The keys of entries with one more entry appended. */
  lemma KeysSnoc<T>(entries: seq<(string, T)>)
    requires entries != []
    ensures Keys(entries) == Keys(entries[..|entries| - 1]) + [entries[|entries| - 1].0]
  {
    var init := entries[..|entries| - 1];
    assert |Keys(entries)| == |Keys(init) + [entries[|entries| - 1].0]|;
    forall i | 0 <= i < |entries|
      ensures Keys(entries)[i] == (Keys(init) + [entries[|entries| - 1].0])[i]
    {
      if i < |init| {
        assert init[i] == entries[i];
      }
    }
  }

  /** The built object has exactly the keys of the entries, each once. */
  lemma {:induction false} PutAllKeys<T, U>(entries: seq<(string, T)>, f: T -> U)
    ensures Distinct(Keys(PutAll(entries, f)))
    ensures forall k :: k in Keys(PutAll(entries, f)) <==> k in Keys(entries)
    decreases |entries|
  {
    if entries != [] {
      var init := entries[..|entries| - 1];
      var last := entries[|entries| - 1];
      var built := PutAll(init, f);
      assert PutAll(entries, f) == Put(built, last.0, f(last.1));
      PutAllKeys(init, f);
      PutLookup(built, last.0, f(last.1), last.0);
      KeysSnoc(entries);
      forall k
        ensures k in Keys(PutAll(entries, f)) <==> k in Keys(entries)
      {
        assert k in Keys(entries) <==> k in Keys(init) || k == last.0;
      }
    }
  }

  /** Dropping the last entry keeps the keys distinct, and the dropped key
      is not among the rest. */
  lemma DistinctInit<T>(entries: seq<(string, T)>)
    requires entries != [] && Distinct(Keys(entries))
    ensures Distinct(Keys(entries[..|entries| - 1]))
    ensures entries[|entries| - 1].0 !in Keys(entries[..|entries| - 1])
  {
    var init := entries[..|entries| - 1];
    KeysSnoc(entries);
    forall i, j | 0 <= i < j < |Keys(init)|
      ensures Keys(init)[i] != Keys(init)[j]
    {
      assert Keys(init)[i] == Keys(entries)[i] && Keys(init)[j] == Keys(entries)[j];
    }
    forall j | 0 <= j < |init|
      ensures Keys(init)[j] != entries[|entries| - 1].0
    {
      assert Keys(entries)[j] != Keys(entries)[|entries| - 1];
    }
  }

  /** From entries with distinct keys, the built object lists every key in
      the same order, mapped through `f`. */
  lemma {:induction false} PutAllDistinct<T, U>(entries: seq<(string, T)>, f: T -> U)
    requires Distinct(Keys(entries))
    ensures |PutAll(entries, f)| == |entries|
    ensures forall i :: 0 <= i < |entries| ==> PutAll(entries, f)[i] == (entries[i].0, f(entries[i].1))
    decreases |entries|
  {
    if entries != [] {
      var init := entries[..|entries| - 1];
      var last := entries[|entries| - 1];
      var built := PutAll(init, f);
      assert PutAll(entries, f) == Put(built, last.0, f(last.1));
      DistinctInit(entries);
      PutAllDistinct(init, f);
      PutAllKeys(init, f);
      assert last.0 !in Keys(built);
      PutNew(built, last.0, f(last.1));
      assert PutAll(entries, f) == built + [(last.0, f(last.1))];
      forall i | 0 <= i < |entries|
        ensures PutAll(entries, f)[i] == (entries[i].0, f(entries[i].1))
      {
        if i < |init| {
          assert init[i] == entries[i];
        }
      }
    }
  }
}
