/**
 * The earlier shared watcher (resize-watcher.ts at the repository root). Its
 * table and its `start` and remove operations are those of the later watcher;
 * its pass takes the map to read as an argument (`start` schedules it with the
 * table itself) and builds each bucket by spreading the bucket already stored,
 * which is `undefined` the first time an instance has a change.
 */
module EarlyWatcher {
  import opened Wrappers
  import opened JsMaps
  import opened Interfaces
  import opened WatcherTable
  import opened WatcherPass

  class ResizeWatcher {
    var concatMap: Registry

    /** `concatMap` is a JS `Map`. */
    ghost predicate Valid()
      reads this
    {
      WellFormed(concatMap)
    }

    constructor ()
      ensures Valid() && concatMap == Empty()
    {
      concatMap := Empty();
    }

    /**
     * One pass over `targets`, as written. It returns at once when the
     * watcher's own table is empty; otherwise it throws at the first element
     * whose width or height changed, and when nothing changed it calls nobody
     * and requests the next frame. It writes nothing.
     */
    method WatchElements(targets: Registry, measure: Element -> Rect) returns (outcome: PassOutcome)
      requires WellFormed(targets)
      ensures outcome == EarlyPass(Size(concatMap) > 0, targets, measure)
      ensures Size(concatMap) == 0 <==> outcome == Idle
      ensures outcome.Failed? <==>
        Size(concatMap) > 0 && exists e | e in targets.entries :: Differs(targets.entries[e].rect, measure(e))
      ensures outcome.Failed? ==> outcome.error == NotIterable
      ensures outcome.Rescheduled? ==> outcome.calls == []
    {
      EarlyPassNeverCalls(Size(concatMap) > 0, targets, measure);
      if Size(concatMap) == 0 {
        return Idle;
      }
      var currentRects := ReadPhase(targets, measure);
      var grouped := EarlyComparePhase(currentRects);
      if grouped.Failure? {
        return Failed(grouped.error);
      }
      var calls := NotifyPhase(grouped.value);
      return Rescheduled(calls);
    }

    /** Merge every instance's element map into the table, owner set to that instance. */
    method Start(instances: Subscriptions)
      requires Valid() && WellFormedSubscriptions(instances)
      modifies this
      ensures Valid()
      ensures concatMap == Started(old(concatMap), instances)
    {
      ghost var m := concatMap;
      var i := 0;
      while i < |instances.keys|
        invariant 0 <= i <= |instances.keys|
        invariant Valid()
        invariant concatMap == StartedUpTo(m, instances, i)
      {
        var instanceKey := instances.keys[i];
        SetInstanceElements(instanceKey, instances.entries[instanceKey]);
        i := i + 1;
      }
      StartMerges(m, instances);
    }

    /** The inner `forEach` of `start`: one instance's elements, owner set to that instance. */
    method SetInstanceElements(instanceKey: Instance, instanceValue: OrderedMap<Element, ElementData>)
      requires Valid() && WellFormed(instanceValue)
      modifies this
      ensures Valid()
      ensures concatMap == SetElements(old(concatMap), instanceValue, instanceKey, |instanceValue.keys|)
    {
      var j := 0;
      while j < |instanceValue.keys|
        invariant 0 <= j <= |instanceValue.keys|
        invariant concatMap == SetElements(old(concatMap), instanceValue, instanceKey, j)
      {
        var elementKey := instanceValue.keys[j];
        concatMap := Set(concatMap, elementKey, WithInstance(instanceValue.entries[elementKey], instanceKey));
        j := j + 1;
      }
      SetElementsKeepsOrder(old(concatMap), instanceValue, instanceKey, |instanceValue.keys|);
    }

    /** Delete `element` from the table, if it is there. */
    method RemoveElementFromInstance(element: Element)
      requires Valid()
      modifies this
      ensures Valid()
      ensures concatMap == Delete(old(concatMap), element)
    {
      var keys := concatMap.keys;
      var i := 0;
      while i < |keys|
        invariant 0 <= i <= |keys|
        invariant concatMap == if element in keys[..i] then Delete(old(concatMap), element) else old(concatMap)
      {
        assert keys[..i + 1] == keys[..i] + [keys[i]];
        if element == keys[i] {
          concatMap := Delete(concatMap, keys[i]);
        }
        i := i + 1;
      }
      assert keys[..i] == keys;
    }

    /**
     * Delete every element owned by `instance`. `forEach` visits the keys
     * present when it starts, so the loop runs over that snapshot; the deletions
     * are made on a working copy that becomes the table when the loop ends.
     */
    method RemoveInstance(instance: Instance)
      requires Valid()
      modifies this
      ensures Valid()
      ensures concatMap == WithoutInstance(old(concatMap), instance)
    {
      var m := concatMap;
      var table := m;
      RemovedNothing(m, instance);
      var i := 0;
      while i < |m.keys|
        invariant 0 <= i <= |m.keys|
        invariant RemovedUpTo(m, instance, i, table)
      {
        var key := m.keys[i];
        RemoveInstanceStep(m, instance, i, table);
        if instance == table.entries[key].instance {
          table := Delete(table, key);
        }
        i := i + 1;
      }
      RemovedAll(m, instance, table);
      concatMap := table;
    }
  }

  /**
   * The earlier compare phase: `[...instancesMap.get(instance), entry]` for
   * every changed reading, stopping with the error the spread throws.
   */
  method EarlyComparePhase(currentRects: seq<Reading>)
    returns (result: Result<OrderedMap<Instance, seq<ElementRect>>, JsError>)
    ensures result == EarlyGroup(currentRects)
  {
    var instancesMap: OrderedMap<Instance, seq<ElementRect>> := Empty();
    var i := 0;
    while i < |currentRects|
      invariant 0 <= i <= |currentRects|
      invariant EarlyGroup(currentRects[..i]) == Success(instancesMap)
    {
      var value := currentRects[i];
      EarlyGroupStep(currentRects, i);
      if value.current.width != value.prev.width || value.current.height != value.prev.height {
        var spread := Spread(Get(instancesMap, value.instance));
        if spread.Failure? {
          EarlyGroupThrowsOnChange(currentRects);
          EarlyGroupThrowsOnChange(currentRects[..i + 1]);
          return Failure(spread.error);
        }
        instancesMap := Set(instancesMap, value.instance, spread.value + [ElementRect(value.element, value.current)]);
      }
      i := i + 1;
    }
    assert currentRects[..i] == currentRects;
    return Success(instancesMap);
  }
}
