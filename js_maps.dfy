/**
 * The JavaScript `Map` as the watcher and the observer use it: a table of
 * distinct keys that remembers insertion order. `set` on a key that is
 * already present replaces its value and keeps its position, `set` on a new
 * key appends it, `delete` cuts the key out and `forEach`/`keys()` visit the
 * keys in that order.
 */
module JsMaps {
  import opened Wrappers

  /** Keys in insertion order, and the value stored under each key. */
  datatype OrderedMap<K(==), V> = OrderedMap(keys: seq<K>, entries: map<K, V>)

  ghost predicate Distinct<K>(s: seq<K>) {
    forall i, j | 0 <= i < j < |s| :: s[i] != s[j]
  }

  /** Every JS `Map` value satisfies this: the key list holds each stored key exactly once. */
  ghost predicate WellFormed<K(!new), V>(m: OrderedMap<K, V>) {
    && Distinct(m.keys)
    && forall k :: k in m.entries <==> k in m.keys
  }

  /** `new Map()` and the state `clear()` leaves. */
  function Empty<K(==,!new), V>(): (r: OrderedMap<K, V>)
    ensures WellFormed(r)
  {
    OrderedMap([], map[])
  }

  /** `map.size` */
  function Size<K(==,!new), V>(m: OrderedMap<K, V>): nat {
    |m.keys|
  }

  /** `map.get(k)`, with `undefined` as `None`. */
  function Get<K(==,!new), V>(m: OrderedMap<K, V>, k: K): Option<V> {
    if k in m.entries then Some(m.entries[k]) else None
  }

  /** `map.set(k, v)` */
  function Set<K(==,!new), V>(m: OrderedMap<K, V>, k: K, v: V): (r: OrderedMap<K, V>)
    ensures r.entries == m.entries[k := v]
    ensures WellFormed(m) ==> WellFormed(r)
    ensures WellFormed(m) && k in m.entries ==> r.keys == m.keys
    ensures WellFormed(m) && k !in m.entries ==> r.keys == m.keys + [k]
  {
    if k in m.keys then OrderedMap(m.keys, m.entries[k := v])
    else OrderedMap(m.keys + [k], m.entries[k := v])
  }

  /** Position of a key in a sequence that contains it. */
  function IndexOf<K(==)>(s: seq<K>, k: K): (i: nat)
    requires k in s
    ensures i < |s| && s[i] == k
    ensures forall j | 0 <= j < i :: s[j] != k
  {
    if s[0] == k then 0 else 1 + IndexOf(s[1..], k)
  }

  /** `map.delete(k)`: the key and its value go, every other key keeps its place. */
  function Delete<K(==,!new), V>(m: OrderedMap<K, V>, k: K): (r: OrderedMap<K, V>)
    ensures r.entries == m.entries - {k}
    ensures WellFormed(m) ==> WellFormed(r)
    ensures WellFormed(m) && k !in m.entries ==> r == m
    ensures WellFormed(m) && k in m.entries ==>
      exists i | 0 <= i < |m.keys| :: m.keys[i] == k && r.keys == m.keys[..i] + m.keys[i + 1..]
  {
    if k in m.keys then
      var i := IndexOf(m.keys, k);
      CutOut(m.keys, i);
      OrderedMap(m.keys[..i] + m.keys[i + 1..], m.entries - {k})
    else
      OrderedMap(m.keys, m.entries - {k})
  }

  /** Cutting one position out of a sequence of distinct elements removes exactly that element. */
  lemma CutOut<K(!new)>(s: seq<K>, i: nat)
    requires i < |s|
    ensures Distinct(s) ==> Distinct(s[..i] + s[i + 1..])
    ensures Distinct(s) ==> forall x :: x in s[..i] + s[i + 1..] <==> x in s && x != s[i]
  {
    var t := s[..i] + s[i + 1..];
    assert forall j | 0 <= j < |t| :: t[j] == if j < i then s[j] else s[j + 1];
    forall x | x in s && x != s[i] ensures x in t {
      var j :| 0 <= j < |s| && s[j] == x;
      if j < i { assert t[j] == x; } else { assert t[j - 1] == x; }
    }
  }

  /** With distinct keys, the position `delete` cuts out is the one holding the key. */
  lemma DeleteAt<K(!new), V>(m: OrderedMap<K, V>, k: K, i: nat)
    requires Distinct(m.keys)
    requires i < |m.keys| && m.keys[i] == k
    ensures Delete(m, k).keys == m.keys[..i] + m.keys[i + 1..]
  {
    var j := IndexOf(m.keys, k);
    assert m.keys[j] == m.keys[i];
  }

  /** `delete` on a key at a known split of the key order. */
  lemma DeleteSplit<K(!new), V>(m: OrderedMap<K, V>, a: seq<K>, k: K, b: seq<K>)
    requires Distinct(m.keys)
    requires m.keys == a + ([k] + b)
    ensures Delete(m, k).keys == a + b
  {
    DeleteAt(m, k, |a|);
    assert m.keys[..|a|] == a;
    assert m.keys[|a| + 1..] == b;
  }

  lemma ConcatAssoc<K>(a: seq<K>, b: seq<K>, c: seq<K>)
    ensures a + (b + c) == (a + b) + c
  {
  }

  /** Growing a prefix of a sequence of distinct elements by one position adds exactly that element. */
  lemma PrefixNext<K(!new)>(s: seq<K>, i: nat)
    requires Distinct(s) && i < |s|
    ensures s[i] !in s[..i]
    ensures forall x :: x in s[..i + 1] <==> x in s[..i] || x == s[i]
  {
    assert s[..i + 1] == s[..i] + [s[i]];
  }

  /** `set` of a new key followed by `delete` of the same key gives back the map it started from. */
  lemma SetThenDelete<K(!new), V>(m: OrderedMap<K, V>, k: K, v: V)
    requires WellFormed(m) && k !in m.entries
    ensures Delete(Set(m, k, v), k) == m
  {
    var s := Set(m, k, v);
    DeleteSplit(s, m.keys, k, []);
    assert s.entries - {k} == m.entries;
  }
}
