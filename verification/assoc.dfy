/**
 * Association lists as the window registries keep them: a vector of
 * `(key, value)` pairs searched front to back with `std::find_if` and
 * shrunk with `vector::erase`.  Keys may repeat; every operation acts on
 * the first entry with the key.
 */
module Assoc {

  predicate HasKey<K(==), V>(entries: seq<(K, V)>, key: K) {
    exists j :: 0 <= j < |entries| && entries[j].0 == key
  }

  /** No key occurs twice. */
  predicate UniqueKeys<K(==), V>(entries: seq<(K, V)>) {
    forall j, j' :: 0 <= j < j' < |entries| ==> entries[j].0 != entries[j'].0
  }

  /**
   * `std::find_if` for the key: the position of the first entry with key
   * `key`, or `|entries|` (the end iterator) when no entry has it.
   */
  function Find<K(==), V>(entries: seq<(K, V)>, key: K): (i: nat)
    ensures i <= |entries|
    ensures forall j :: 0 <= j < i ==> entries[j].0 != key
    ensures i < |entries| ==> entries[i].0 == key
    ensures i < |entries| <==> HasKey(entries, key)
    decreases |entries|
  {
    if entries == [] then
      0
    else if entries[0].0 == key then
      0
    else
      var i := 1 + Find(entries[1..], key);
      assert forall j :: 1 <= j < |entries| ==> entries[j] == entries[1..][j - 1];
      i
  }

  /** A position preceded only by other keys and holding `key` is the one `Find` returns. */
  lemma FindAt<K, V>(entries: seq<(K, V)>, key: K, p: nat)
    requires p <= |entries|
    requires forall j :: 0 <= j < p ==> entries[j].0 != key
    requires p < |entries| ==> entries[p].0 == key
    requires p == |entries| ==> !HasKey(entries, key)
    ensures Find(entries, key) == p
  {
  }

  /** The value of the first entry with `key`, or `default` when there is none. */
  function Lookup<K(==), V>(entries: seq<(K, V)>, key: K, default: V): (v: V)
    ensures !HasKey(entries, key) ==> v == default
    ensures HasKey(entries, key) ==>
      exists j :: 0 <= j < |entries| && entries[j].0 == key && v == entries[j].1 &&
        forall j' :: 0 <= j' < j ==> entries[j'].0 != key
  {
    var i := Find(entries, key);
    if i < |entries| then entries[i].1 else default
  }

  /** `vector::erase` of the first entry with `key`; nothing happens when there is none. */
  function EraseFirst<K(==), V>(entries: seq<(K, V)>, key: K): (r: seq<(K, V)>)
    ensures HasKey(entries, key) ==> |r| == |entries| - 1
    ensures !HasKey(entries, key) ==> r == entries
  {
    var i := Find(entries, key);
    if i < |entries| then entries[..i] + entries[i + 1..] else entries
  }

  /** Cutting out position `i` shifts the entries after it down by one. */
  lemma CutShape<T>(s: seq<T>, i: nat)
    requires i < |s|
    ensures forall j :: 0 <= j < i ==> (s[..i] + s[i + 1..])[j] == s[j]
    ensures forall j :: i < j < |s| ==> (s[..i] + s[i + 1..])[j - 1] == s[j]
  {
  }

  /** Cutting out position `i` removes exactly one occurrence of `s[i]`. */
  lemma CutMultiset<T>(s: seq<T>, i: nat)
    requires i < |s|
    ensures multiset(s[..i] + s[i + 1..]) + multiset{s[i]} == multiset(s)
  {
    assert s == s[..i] + [s[i]] + s[i + 1..];
  }

  /**
   * Erasing keeps the order of the remaining entries: the result is the
   * list with exactly the first entry for `key` cut out.
   */
  lemma EraseFirstShape<K, V>(entries: seq<(K, V)>, key: K)
    requires HasKey(entries, key)
    ensures forall j :: 0 <= j < Find(entries, key) ==> EraseFirst(entries, key)[j] == entries[j]
    ensures forall j :: Find(entries, key) <= j < |entries| - 1 ==> EraseFirst(entries, key)[j] == entries[j + 1]
  {
    CutShape(entries, Find(entries, key));
  }

  /** Erasing removes one occurrence of the erased entry and no other. */
  lemma EraseFirstMultiset<K, V>(entries: seq<(K, V)>, key: K)
    requires HasKey(entries, key)
    ensures multiset(EraseFirst(entries, key)) + multiset{entries[Find(entries, key)]} == multiset(entries)
  {
    var i := Find(entries, key);
    assert EraseFirst(entries, key) == entries[..i] + entries[i + 1..];
    CutMultiset(entries, i);
  }

  /** After appending `(k, v)`, a lookup finds an older entry first, then the new one. */
  lemma LookupAppend<K, V>(entries: seq<(K, V)>, k: K, v: V, key: K, default: V)
    ensures Lookup(entries + [(k, v)], key, default)
         == if HasKey(entries, key) then Lookup(entries, key, default)
            else if k == key then v
            else default
  {
    var grown := entries + [(k, v)];
    assert forall j :: 0 <= j < |entries| ==> grown[j] == entries[j];
    if HasKey(entries, key) || k == key {
      FindAt(grown, key, Find(entries, key));
    } else {
      assert !HasKey(grown, key) by {
        assert forall j :: 0 <= j < |grown| ==> grown[j].0 != key;
      }
    }
  }

  /** Erasing the entry for one key leaves the lookup of every other key unchanged. */
  lemma LookupEraseOther<K, V>(entries: seq<(K, V)>, key: K, other: K, default: V)
    requires key != other
    ensures Lookup(EraseFirst(entries, key), other, default) == Lookup(entries, other, default)
  {
    if HasKey(entries, key) {
      var i := Find(entries, key);
      var r := EraseFirst(entries, key);
      EraseFirstShape(entries, key);
      var f := Find(entries, other);
      if f == |entries| {
        assert !HasKey(r, other) by {
          assert forall j :: 0 <= j < |r| ==> r[j].0 != other;
        }
      } else if f < i {
        FindAt(r, other, f);
      } else {
        assert f != i;
        FindAt(r, other, f - 1);
      }
    }
  }

  /** Erasing the key of an entry just appended, absent before, gives back the old list. */
  lemma EraseFirstAppend<K, V>(entries: seq<(K, V)>, k: K, v: V)
    requires !HasKey(entries, k)
    ensures EraseFirst(entries + [(k, v)], k) == entries
  {
    var grown := entries + [(k, v)];
    FindAt(grown, k, |entries|);
    assert grown[..|entries|] == entries;
  }

  /** With unique keys, erasing a key removes it entirely and keeps the keys unique. */
  lemma EraseFirstUnique<K, V>(entries: seq<(K, V)>, key: K)
    requires UniqueKeys(entries)
    ensures !HasKey(EraseFirst(entries, key), key)
    ensures UniqueKeys(EraseFirst(entries, key))
  {
    if HasKey(entries, key) {
      var i := Find(entries, key);
      var r := EraseFirst(entries, key);
      EraseFirstShape(entries, key);
      assert forall j :: 0 <= j < |r| ==> r[j].0 != key by {
        forall j | 0 <= j < |r|
          ensures r[j].0 != key
        {
          if j >= i {
            assert entries[i].0 != entries[j + 1].0;
          }
        }
      }
      forall j, j' | 0 <= j < j' < |r|
        ensures r[j].0 != r[j'].0
      {
        var a := if j < i then j else j + 1;
        var b := if j' < i then j' else j' + 1;
        assert a < b && r[j] == entries[a] && r[j'] == entries[b];
      }
    }
  }
}
