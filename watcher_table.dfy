/**
 * The shared watcher's table `concatMap` (element -> options, rect, owner) and
 * the two ways it is filled and emptied, as functions on table values:
 * `start` merges every instance's element map into it, `removeInstance` keeps
 * only the elements of other owners. Both watcher classes (src/resize-watcher.ts
 * and the earlier resize-watcher.ts) are proved against these functions.
 */
module WatcherTable {
  import opened Wrappers
  import opened JsMaps
  import opened Interfaces

  /** `ElementDataWithInstance`: `ElementData` plus the instance that observes the element. */
  datatype WatchedElement = WatchedElement(options: ResizeObserverOptions, rect: Rect, instance: Instance)

  /** The type of `concatMap`. */
  type Registry = OrderedMap<Element, WatchedElement>

  /** The argument of `start`: each instance with its own element map. */
  type Subscriptions = OrderedMap<Instance, OrderedMap<Element, ElementData>>

  /** `start`'s argument is a JS `Map` of JS `Map`s. */
  ghost predicate WellFormedSubscriptions(instances: Subscriptions) {
    && WellFormed(instances)
    && forall i | i in instances.entries :: WellFormed(instances.entries[i])
  }

  /** `{...elementValue, instance: instanceKey}` */
  function WithInstance(d: ElementData, instance: Instance): WatchedElement {
    WatchedElement(d.options, d.rect, instance)
  }

  /** The table after the inner `forEach` of `start` has set the first `n` elements of one instance. */
  function SetElements(m: Registry, elements: OrderedMap<Element, ElementData>, instance: Instance, n: nat): Registry
    requires WellFormed(elements) && n <= |elements.keys|
  {
    if n == 0 then m
    else
      var e := elements.keys[n - 1];
      Set(SetElements(m, elements, instance, n - 1), e, WithInstance(elements.entries[e], instance))
  }

  /** The table after the outer `forEach` of `start` has handled the first `n` instances. */
  function StartedUpTo(m: Registry, instances: Subscriptions, n: nat): Registry
    requires WellFormedSubscriptions(instances) && n <= |instances.keys|
  {
    if n == 0 then m
    else
      var instance := instances.keys[n - 1];
      var elements := instances.entries[instance];
      SetElements(StartedUpTo(m, instances, n - 1), elements, instance, |elements.keys|)
  }

  /** The table `start(instances)` leaves behind. */
  function Started(m: Registry, instances: Subscriptions): Registry
    requires WellFormedSubscriptions(instances)
  {
    StartedUpTo(m, instances, |instances.keys|)
  }

  /** Instance `i` is a key of `instances` and its element map lists `e`. */
  predicate Lists(instances: Subscriptions, i: Instance, e: Element) {
    i in instances.entries && e in instances.entries[i].entries
  }

  /** The last instance in `order` whose element map lists `e`. */
  function LastOwner(instances: Subscriptions, order: seq<Instance>, e: Element): (r: Option<Instance>)
    ensures r.Some? ==> r.value in order && Lists(instances, r.value, e)
    ensures r.Some? ==> exists j | 0 <= j < |order| ::
      order[j] == r.value && forall k | j < k < |order| :: !Lists(instances, order[k], e)
    ensures r.None? ==> forall i | i in order :: !Lists(instances, i, e)
    decreases |order|
  {
    if order == [] then None
    else
      var last := order[|order| - 1];
      if Lists(instances, last, e) then Some(last)
      else
        var init := order[..|order| - 1];
        var r := LastOwner(instances, init, e);
        assert r.Some? ==> exists j | 0 <= j < |order| ::
          order[j] == r.value && forall k | j < k < |order| :: !Lists(instances, order[k], e) by {
          if r.Some? {
            var j :| 0 <= j < |init| && init[j] == r.value && forall k | j < k < |init| :: !Lists(instances, init[k], e);
            assert order[j] == r.value;
            forall k | j < k < |order| ensures !Lists(instances, order[k], e) {
              if k < |init| {
                assert init[k] == order[k];
              }
            }
          }
        }
        r
  }

  /** `s` starts with `p`. */
  ghost predicate IsPrefix<T>(p: seq<T>, s: seq<T>) {
    |p| <= |s| && s[..|p|] == p
  }

  lemma PrefixTransitive<T>(a: seq<T>, b: seq<T>, c: seq<T>)
    requires IsPrefix(a, b) && IsPrefix(b, c)
    ensures IsPrefix(a, c)
  {
    assert c[..|a|] == c[..|b|][..|a|];
  }

  lemma {:induction false} SetElementsEffect(m: Registry, elements: OrderedMap<Element, ElementData>, instance: Instance, n: nat, e: Element)
    requires WellFormed(elements) && n <= |elements.keys|
    ensures Get(SetElements(m, elements, instance, n), e) ==
      if e in elements.keys[..n] then Some(WithInstance(elements.entries[e], instance)) else Get(m, e)
  {
    if n > 0 {
      SetElementsEffect(m, elements, instance, n - 1, e);
      assert elements.keys[..n] == elements.keys[..n - 1] + [elements.keys[n - 1]];
    }
  }

  lemma {:induction false} SetElementsKeepsOrder(m: Registry, elements: OrderedMap<Element, ElementData>, instance: Instance, n: nat)
    requires WellFormed(m) && WellFormed(elements) && n <= |elements.keys|
    ensures WellFormed(SetElements(m, elements, instance, n))
    ensures IsPrefix(m.keys, SetElements(m, elements, instance, n).keys)
  {
    if n > 0 {
      var prev := SetElements(m, elements, instance, n - 1);
      SetElementsKeepsOrder(m, elements, instance, n - 1);
      assert IsPrefix(prev.keys, SetElements(m, elements, instance, n).keys) by {
        var k := elements.keys[n - 1];
        assert (prev.keys + [k])[..|prev.keys|] == prev.keys;
      }
      PrefixTransitive(m.keys, prev.keys, SetElements(m, elements, instance, n).keys);
    }
  }

  lemma LastOwnerNext(instances: Subscriptions, n: nat, e: Element)
    requires WellFormedSubscriptions(instances) && 0 < n <= |instances.keys|
    ensures LastOwner(instances, instances.keys[..n], e) ==
      if e in instances.entries[instances.keys[n - 1]].entries then Some(instances.keys[n - 1])
      else LastOwner(instances, instances.keys[..n - 1], e)
  {
    assert instances.keys[..n][..n - 1] == instances.keys[..n - 1];
  }

  /** The whole inner `forEach` of `start` for one instance. */
  lemma SetAllEffect(m: Registry, elements: OrderedMap<Element, ElementData>, instance: Instance, e: Element)
    requires WellFormed(elements)
    ensures Get(SetElements(m, elements, instance, |elements.keys|), e) ==
      if e in elements.entries then Some(WithInstance(elements.entries[e], instance)) else Get(m, e)
  {
    SetElementsEffect(m, elements, instance, |elements.keys|, e);
    assert elements.keys[..|elements.keys|] == elements.keys;
  }

  lemma {:induction false} StartedUpToEffect(m: Registry, instances: Subscriptions, n: nat, e: Element)
    requires WellFormedSubscriptions(instances) && n <= |instances.keys|
    ensures Get(StartedUpTo(m, instances, n), e) ==
      match LastOwner(instances, instances.keys[..n], e)
      case Some(i) => Some(WithInstance(instances.entries[i].entries[e], i))
      case None => Get(m, e)
  {
    if n > 0 {
      var instance := instances.keys[n - 1];
      var elements := instances.entries[instance];
      StartedUpToEffect(m, instances, n - 1, e);
      SetAllEffect(StartedUpTo(m, instances, n - 1), elements, instance, e);
      LastOwnerNext(instances, n, e);
    }
  }

  lemma {:induction false} StartedUpToKeepsOrder(m: Registry, instances: Subscriptions, n: nat)
    requires WellFormed(m) && WellFormedSubscriptions(instances) && n <= |instances.keys|
    ensures WellFormed(StartedUpTo(m, instances, n))
    ensures IsPrefix(m.keys, StartedUpTo(m, instances, n).keys)
  {
    if n > 0 {
      var instance := instances.keys[n - 1];
      var elements := instances.entries[instance];
      var prev := StartedUpTo(m, instances, n - 1);
      StartedUpToKeepsOrder(m, instances, n - 1);
      SetElementsKeepsOrder(prev, elements, instance, |elements.keys|);
      PrefixTransitive(m.keys, prev.keys, StartedUpTo(m, instances, n).keys);
    }
  }

  /**
   * What `start` does to the table: every element some instance lists ends up
   * owned by the LAST instance (in iteration order) that lists it, with that
   * instance's options and rect; every other element keeps its entry, and the
   * keys already present keep their positions at the front.
   */
  lemma StartMerges(m: Registry, instances: Subscriptions)
    requires WellFormed(m) && WellFormedSubscriptions(instances)
    ensures forall e :: (Get(Started(m, instances), e) ==
      match LastOwner(instances, instances.keys, e)
      case Some(i) => Some(WithInstance(instances.entries[i].entries[e], i))
      case None => Get(m, e))
    ensures WellFormed(Started(m, instances))
    ensures IsPrefix(m.keys, Started(m, instances).keys)
  {
    assert instances.keys[..|instances.keys|] == instances.keys;
    forall e
      ensures Get(Started(m, instances), e) ==
        match LastOwner(instances, instances.keys, e)
        case Some(i) => Some(WithInstance(instances.entries[i].entries[e], i))
        case None => Get(m, e)
    {
      StartedUpToEffect(m, instances, |instances.keys|, e);
    }
    StartedUpToKeepsOrder(m, instances, |instances.keys|);
  }

  /** The keys of `ks` whose owner is not `instance`, in their order. */
  function OthersOf(m: Registry, ks: seq<Element>, instance: Instance): seq<Element>
    requires forall k | k in ks :: k in m.entries
    decreases |ks|
  {
    if ks == [] then []
    else
      var k := ks[|ks| - 1];
      OthersOf(m, ks[..|ks| - 1], instance) + if m.entries[k].instance != instance then [k] else []
  }

  lemma {:induction false} OthersOfFilters(m: Registry, ks: seq<Element>, instance: Instance)
    requires forall k | k in ks :: k in m.entries
    requires Distinct(ks)
    ensures Distinct(OthersOf(m, ks, instance))
    ensures forall k :: k in OthersOf(m, ks, instance) <==> k in ks && m.entries[k].instance != instance
    decreases |ks|
  {
    if ks != [] {
      var init := ks[..|ks| - 1];
      assert ks == init + [ks[|ks| - 1]];
      OthersOfFilters(m, init, instance);
    }
  }

  lemma IndexOfPrefix(s: seq<Element>, t: seq<Element>, x: Element)
    requires x in s
    ensures IndexOf(s + t, x) == IndexOf(s, x)
  {
    var i, j := IndexOf(s + t, x), IndexOf(s, x);
    assert (s + t)[j] == x;
  }

  lemma {:induction false} OthersOfKeepsOrder(m: Registry, ks: seq<Element>, instance: Instance)
    requires forall k | k in ks :: k in m.entries
    requires Distinct(ks)
    ensures forall k | k in OthersOf(m, ks, instance) :: k in ks
    ensures forall a, b | 0 <= a < b < |OthersOf(m, ks, instance)| ::
      IndexOf(ks, OthersOf(m, ks, instance)[a]) < IndexOf(ks, OthersOf(m, ks, instance)[b])
    decreases |ks|
  {
    if ks != [] {
      var init, last := ks[..|ks| - 1], ks[|ks| - 1];
      var r0 := OthersOf(m, init, instance);
      var r := OthersOf(m, ks, instance);
      assert ks == init + [last];
      OthersOfKeepsOrder(m, init, instance);
      OthersOfFilters(m, init, instance);
      OthersOfFilters(m, ks, instance);
      forall x | x in r0 ensures IndexOf(ks, x) == IndexOf(init, x) {
        IndexOfPrefix(init, [last], x);
      }
      if last !in init {
        assert IndexOf(ks, last) == |init|;
      }
      forall a, b | 0 <= a < b < |r| ensures IndexOf(ks, r[a]) < IndexOf(ks, r[b]) {
        assert r[a] in r0;
        if b < |r0| {
          assert r[b] in r0;
        } else {
          assert r[b] == last;
        }
      }
    }
  }

  /**
   * The table `removeInstance(instance)` leaves: exactly the entries of other
   * owners, unchanged and in their original relative order.
   */
  function WithoutInstance(m: Registry, instance: Instance): (r: Registry)
    requires WellFormed(m)
    ensures WellFormed(r)
    ensures forall e :: Get(r, e) == if e in m.entries && m.entries[e].instance != instance then Get(m, e) else None
    ensures forall k | k in r.keys :: k in m.keys
    ensures forall a, b | 0 <= a < b < |r.keys| :: IndexOf(m.keys, r.keys[a]) < IndexOf(m.keys, r.keys[b])
  {
    OthersOfFilters(m, m.keys, instance);
    OthersOfKeepsOrder(m, m.keys, instance);
    OrderedMap(
      OthersOf(m, m.keys, instance),
      map k | k in m.entries && m.entries[k].instance != instance :: m.entries[k])
  }

  // Loop steps of the watcher classes' `removeInstance`.

  /** The table part-way through `removeInstance`: the first `i` keys filtered, the rest untouched. */
  ghost predicate RemovedUpTo(m: Registry, instance: Instance, i: nat, cur: Registry)
    requires WellFormed(m) && i <= |m.keys|
  {
    && WellFormed(cur)
    && cur.keys == OthersOf(m, m.keys[..i], instance) + m.keys[i..]
    && forall k | k in cur.entries :: k in m.entries && cur.entries[k] == m.entries[k]
  }

  lemma RemovedNothing(m: Registry, instance: Instance)
    requires WellFormed(m)
    ensures RemovedUpTo(m, instance, 0, m)
  {
    assert m.keys[..0] == [] && m.keys[0..] == m.keys;
  }

  lemma RemovedAll(m: Registry, instance: Instance, cur: Registry)
    requires WellFormed(m) && RemovedUpTo(m, instance, |m.keys|, cur)
    ensures cur == WithoutInstance(m, instance)
  {
    assert m.keys[..|m.keys|] == m.keys;
    var w := WithoutInstance(m, instance);
    assert cur.keys == w.keys;
    assert cur.entries.Keys == w.entries.Keys;
  }

  lemma OthersOfNext(m: Registry, instance: Instance, i: nat)
    requires WellFormed(m) && i < |m.keys|
    ensures m.entries[m.keys[i]].instance == instance ==>
      OthersOf(m, m.keys[..i + 1], instance) == OthersOf(m, m.keys[..i], instance)
    ensures m.entries[m.keys[i]].instance != instance ==>
      OthersOf(m, m.keys[..i + 1], instance) == OthersOf(m, m.keys[..i], instance) + [m.keys[i]]
  {
    assert m.keys[..i + 1][..i] == m.keys[..i];
  }

  /** The visited key is kept: nothing changes but the position of the boundary. */
  lemma KeepStep(m: Registry, instance: Instance, i: nat, cur: Registry)
    requires WellFormed(m) && i < |m.keys|
    requires RemovedUpTo(m, instance, i, cur)
    requires m.entries[m.keys[i]].instance != instance
    ensures RemovedUpTo(m, instance, i + 1, cur)
  {
    OthersOfNext(m, instance, i);
    assert m.keys[i..] == [m.keys[i]] + m.keys[i + 1..];
    ConcatAssoc(OthersOf(m, m.keys[..i], instance), [m.keys[i]], m.keys[i + 1..]);
  }

  /** The key order after deleting the visited key that `instance` owns. */
  lemma DropKeys(m: Registry, instance: Instance, i: nat, cur: Registry)
    requires WellFormed(m) && i < |m.keys|
    requires Distinct(cur.keys) && cur.keys == OthersOf(m, m.keys[..i], instance) + m.keys[i..]
    requires m.entries[m.keys[i]].instance == instance
    ensures Delete(cur, m.keys[i]).keys == OthersOf(m, m.keys[..i + 1], instance) + m.keys[i + 1..]
  {
    OthersOfNext(m, instance, i);
    assert m.keys[i..] == [m.keys[i]] + m.keys[i + 1..];
    DeleteSplit(cur, OthersOf(m, m.keys[..i], instance), m.keys[i], m.keys[i + 1..]);
  }

  /** The visited key is owned by `instance`: deleting it moves the boundary. */
  lemma DropStep(m: Registry, instance: Instance, i: nat, cur: Registry)
    requires WellFormed(m) && i < |m.keys|
    requires RemovedUpTo(m, instance, i, cur)
    requires m.entries[m.keys[i]].instance == instance
    ensures RemovedUpTo(m, instance, i + 1, Delete(cur, m.keys[i]))
  {
    DropKeys(m, instance, i, cur);
  }

  /** One iteration of the `removeInstance` loop: delete the visited key if `instance` owns it. */
  lemma RemoveInstanceStep(m: Registry, instance: Instance, i: nat, cur: Registry)
    requires WellFormed(m) && i < |m.keys|
    requires RemovedUpTo(m, instance, i, cur)
    ensures m.keys[i] in cur.entries && cur.entries[m.keys[i]] == m.entries[m.keys[i]]
    ensures RemovedUpTo(m, instance, i + 1,
      if cur.entries[m.keys[i]].instance == instance then Delete(cur, m.keys[i]) else cur)
  {
    var key := m.keys[i];
    assert cur.keys[|OthersOf(m, m.keys[..i], instance)|] == key;
    if m.entries[key].instance == instance {
      DropStep(m, instance, i, cur);
    } else {
      KeepStep(m, instance, i, cur);
    }
  }
}
