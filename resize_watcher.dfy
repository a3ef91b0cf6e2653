/**
 * The shared watcher of src/resize-watcher.ts: the table `concatMap`, filled by
 * `start` and emptied by the two remove operations, and the diff pass
 * `watchElements`, which reads every element's rect, compares width and height
 * with the stored rect, stores the new rect of each changed element and calls
 * each owning instance once with its changed elements.
 */
module Watcher {
  import opened Wrappers
  import opened JsMaps
  import opened Interfaces
  import opened WatcherTable
  import opened WatcherPass

  class ResizeWatcher {
    var concatMap: Registry

    /** `concatMap` is a JS `Map`. */
    ghost predicate Valid()
      reads this
    {
      WellFormed(concatMap)
    }

    constructor ()
      ensures Valid() && concatMap == Empty()
    {
      concatMap := Empty();
    }

    /**
     * One pass. `measure` is the layout `getBoundingClientRect` reports
     * during the pass; the calls are returned in the order they are made.
     */
    method WatchElements(measure: Element -> Rect) returns (outcome: PassOutcome)
      requires Valid()
      modifies this
      ensures Valid()
      ensures Size(old(concatMap)) == 0 ==> outcome == Idle && concatMap == old(concatMap)
      ensures Size(old(concatMap)) > 0 ==>
        && outcome == Rescheduled(PassCalls(old(concatMap), measure))
        && concatMap == Refreshed(old(concatMap), measure)
    {
      if Size(concatMap) == 0 {
        return Idle;
      }
      var currentRects := ReadPhase(concatMap, measure);
      var instancesMap;
      instancesMap, concatMap := ComparePhase(concatMap, currentRects, measure);
      var calls := NotifyPhase(instancesMap);
      return Rescheduled(calls);
    }

    /** Merge every instance's element map into the table, owner set to that instance. */
    method Start(instances: Subscriptions)
      requires Valid() && WellFormedSubscriptions(instances)
      modifies this
      ensures Valid()
      ensures concatMap == Started(old(concatMap), instances)
    {
      ghost var m := concatMap;
      var i := 0;
      while i < |instances.keys|
        invariant 0 <= i <= |instances.keys|
        invariant Valid()
        invariant concatMap == StartedUpTo(m, instances, i)
      {
        var instanceKey := instances.keys[i];
        SetInstanceElements(instanceKey, instances.entries[instanceKey]);
        i := i + 1;
      }
      StartMerges(m, instances);
    }

    /** The inner `forEach` of `start`: one instance's elements, owner set to that instance. */
    method SetInstanceElements(instanceKey: Instance, instanceValue: OrderedMap<Element, ElementData>)
      requires Valid() && WellFormed(instanceValue)
      modifies this
      ensures Valid()
      ensures concatMap == SetElements(old(concatMap), instanceValue, instanceKey, |instanceValue.keys|)
    {
      var j := 0;
      while j < |instanceValue.keys|
        invariant 0 <= j <= |instanceValue.keys|
        invariant concatMap == SetElements(old(concatMap), instanceValue, instanceKey, j)
      {
        var elementKey := instanceValue.keys[j];
        concatMap := Set(concatMap, elementKey, WithInstance(instanceValue.entries[elementKey], instanceKey));
        j := j + 1;
      }
      SetElementsKeepsOrder(old(concatMap), instanceValue, instanceKey, |instanceValue.keys|);
    }

    /** Delete `element` from the table, if it is there. */
    method RemoveElementFromInstance(element: Element)
      requires Valid()
      modifies this
      ensures Valid()
      ensures concatMap == Delete(old(concatMap), element)
    {
      // `forEach` visits the keys present when it starts; only the visited key is ever deleted.
      var keys := concatMap.keys;
      var i := 0;
      while i < |keys|
        invariant 0 <= i <= |keys|
        invariant concatMap == if element in keys[..i] then Delete(old(concatMap), element) else old(concatMap)
      {
        assert keys[..i + 1] == keys[..i] + [keys[i]];
        if element == keys[i] {
          concatMap := Delete(concatMap, keys[i]);
        }
        i := i + 1;
      }
      assert keys[..i] == keys;
    }

    /**
     * Delete every element owned by `instance`. `forEach` visits the keys
     * present when it starts, so the loop runs over that snapshot; the deletions
     * are made on a working copy that becomes the table when the loop ends.
     */
    method RemoveInstance(instance: Instance)
      requires Valid()
      modifies this
      ensures Valid()
      ensures concatMap == WithoutInstance(old(concatMap), instance)
    {
      var m := concatMap;
      var table := m;
      RemovedNothing(m, instance);
      var i := 0;
      while i < |m.keys|
        invariant 0 <= i <= |m.keys|
        invariant RemovedUpTo(m, instance, i, table)
      {
        var key := m.keys[i];
        RemoveInstanceStep(m, instance, i, table);
        if instance == table.entries[key].instance {
          table := Delete(table, key);
        }
        i := i + 1;
      }
      RemovedAll(m, instance, table);
      concatMap := table;
    }
  }

  /**
   * The compare phase over the readings of `before`: the changed elements
   * bucketed by owner, and the table with the new rect stored for each of them.
   */
  method ComparePhase(before: Registry, currentRects: seq<Reading>, measure: Element -> Rect)
    returns (instancesMap: OrderedMap<Instance, seq<ElementRect>>, table: Registry)
    requires WellFormed(before) && currentRects == Readings(before, measure)
    ensures instancesMap == Group(currentRects)
    ensures table == Refreshed(before, measure)
  {
    instancesMap := Empty();
    table := before;
    RefreshedUpToBounds(before, measure);
    var i := 0;
    while i < |currentRects|
      invariant 0 <= i <= |currentRects|
      invariant instancesMap == Group(currentRects[..i])
      invariant table == RefreshedUpTo(before, measure, i)
    {
      var value := currentRects[i];
      GroupStep(currentRects, i);
      RefreshStep(before, measure, i);
      if value.current.width != value.prev.width || value.current.height != value.prev.height {
        var instanceElements := Get(instancesMap, value.instance);
        if instanceElements.Some? {
          instancesMap := Set(instancesMap, value.instance, instanceElements.value + [ElementRect(value.element, value.current)]);
        } else {
          instancesMap := Set(instancesMap, value.instance, [ElementRect(value.element, value.current)]);
        }
        var stored := table.entries[value.element];
        table := Set(table, value.element, stored.(rect := value.current));
      }
      i := i + 1;
    }
    assert currentRects[..i] == currentRects;
  }
}
