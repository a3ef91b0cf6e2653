/**
 * One pass of the shared watcher's diff (`watchElements`), as functions of the
 * table before the pass and of the rects the read phase returns: the readings,
 * the per-instance buckets of changed elements, the `applyChanges` calls, the
 * table after the pass. The earlier watcher's bucket construction, which
 * spreads a missing bucket, is here too, so that the two can be compared.
 */
module WatcherPass {
  import opened Wrappers
  import opened JsMaps
  import opened Interfaces
  import opened WatcherTable

  /** `PrevCurrentClientRect` with its key: one element as the read phase saw it. */
  datatype Reading = Reading(element: Element, current: Rect, prev: Rect, instance: Instance)

  /** One `instance.applyChanges(elementRects)` call. */
  datatype Call = ApplyChanges(instance: Instance, changes: seq<ElementRect>)

  datatype JsError = TypeError(message: string)

  /** The `TypeError` that spreading `undefined` into an array literal throws. */
  const NotIterable := TypeError("undefined is not iterable")

  /** How one pass ends. */
  datatype PassOutcome =
    | Idle                           // returned at once: nothing read, nobody called, no frame requested
    | Rescheduled(calls: seq<Call>)  // these calls made in this order, then the next frame requested
    | Failed(error: JsError)         // threw: nobody called, no frame requested

  /** The change test: width or height differs, compared exactly. */
  predicate Differs(prev: Rect, current: Rect) {
    current.width != prev.width || current.height != prev.height
  }

  predicate Changed(r: Reading) {
    Differs(r.prev, r.current)
  }

  function ReadingOf(m: Registry, e: Element, measure: Element -> Rect): Reading
    requires e in m.entries
  {
    Reading(e, measure(e), m.entries[e].rect, m.entries[e].instance)
  }

  /** The read phase: one reading per key of the table, in key order. */
  function Readings(m: Registry, measure: Element -> Rect): seq<Reading>
    requires WellFormed(m)
  {
    seq(|m.keys|, i requires 0 <= i < |m.keys| => ReadingOf(m, m.keys[i], measure))
  }

  /** `{element, rect: value.current}` */
  function Report(r: Reading): ElementRect {
    ElementRect(r.element, r.current)
  }

  /** Reference definition: the changed elements owned by `instance`, in reading order, with their new rects. */
  function ChangesOf(rs: seq<Reading>, instance: Instance): seq<ElementRect>
    decreases |rs|
  {
    if rs == [] then []
    else
      var r := rs[|rs| - 1];
      ChangesOf(rs[..|rs| - 1], instance) + if Changed(r) && r.instance == instance then [Report(r)] else []
  }

  /** `instancesMap` as the compare phase of src/resize-watcher.ts builds it, reading by reading. */
  function Group(rs: seq<Reading>): (g: OrderedMap<Instance, seq<ElementRect>>)
    ensures WellFormed(g)
    decreases |rs|
  {
    if rs == [] then Empty()
    else
      var g := Group(rs[..|rs| - 1]);
      var r := rs[|rs| - 1];
      if !Changed(r) then g
      else
        match Get(g, r.instance)
        case Some(bucket) => Set(g, r.instance, bucket + [Report(r)])
        case None => Set(g, r.instance, [Report(r)])
  }

  /** The notify phase: one call per key of `instancesMap`, in its order. */
  function Calls(g: OrderedMap<Instance, seq<ElementRect>>): seq<Call>
    requires WellFormed(g)
  {
    seq(|g.keys|, i requires 0 <= i < |g.keys| => ApplyChanges(g.keys[i], g.entries[g.keys[i]]))
  }

  /** The calls a pass of src/resize-watcher.ts makes on table `m`. */
  function PassCalls(m: Registry, measure: Element -> Rect): seq<Call>
    requires WellFormed(m)
  {
    Calls(Group(Readings(m, measure)))
  }

  /** Each instance's bucket is present exactly when it owns a change, and holds exactly its changes, in order. */
  lemma {:induction false} GroupIsChangesOf(rs: seq<Reading>, instance: Instance)
    ensures Get(Group(rs), instance) ==
      if ChangesOf(rs, instance) == [] then None else Some(ChangesOf(rs, instance))
    decreases |rs|
  {
    if rs != [] {
      var init, r := rs[..|rs| - 1], rs[|rs| - 1];
      var g := Group(init);
      GroupIsChangesOf(init, instance);
      if !Changed(r) {
        assert Group(rs) == g;
        assert ChangesOf(rs, instance) == ChangesOf(init, instance) + [];
        assert ChangesOf(rs, instance) == ChangesOf(init, instance);
      } else {
        var bucket := match Get(g, r.instance) case Some(b) => b + [Report(r)] case None => [Report(r)];
        assert Group(rs) == Set(g, r.instance, bucket);
        if r.instance != instance {
          assert Get(Set(g, r.instance, bucket), instance) == Get(g, instance);
          assert ChangesOf(rs, instance) == ChangesOf(init, instance) + [];
          assert ChangesOf(rs, instance) == ChangesOf(init, instance);
        } else {
          assert ChangesOf(rs, instance) == ChangesOf(init, instance) + [Report(r)];
          if ChangesOf(init, instance) == [] {
            assert bucket == [Report(r)];
          }
          assert bucket == ChangesOf(rs, instance);
          assert Get(Group(rs), instance) == Some(bucket);
        }
      }
    }
  }

  lemma {:induction false} ChangesOfMembers(rs: seq<Reading>, instance: Instance)
    ensures forall x :: x in ChangesOf(rs, instance) <==>
      exists j | 0 <= j < |rs| :: Changed(rs[j]) && rs[j].instance == instance && Report(rs[j]) == x
    decreases |rs|
  {
    if rs != [] {
      var init := rs[..|rs| - 1];
      ChangesOfMembers(init, instance);
      forall x | x in ChangesOf(init, instance)
        ensures exists j | 0 <= j < |rs| :: Changed(rs[j]) && rs[j].instance == instance && Report(rs[j]) == x
      {
        var j :| 0 <= j < |init| && Changed(init[j]) && init[j].instance == instance && Report(init[j]) == x;
        assert rs[j] == init[j];
      }
      forall x | exists j | 0 <= j < |rs| :: Changed(rs[j]) && rs[j].instance == instance && Report(rs[j]) == x
        ensures x in ChangesOf(rs, instance)
      {
        var j :| 0 <= j < |rs| && Changed(rs[j]) && rs[j].instance == instance && Report(rs[j]) == x;
        if j < |init| {
          assert init[j] == rs[j];
        }
      }
    }
  }

  /**
   * An element is reported to `instance`, with rect `r`, exactly when the
   * instance owns it, its width or height differs from the stored rect, and
   * `r` is the rect just read.
   */
  lemma ReportedIffChanged(m: Registry, measure: Element -> Rect, instance: Instance)
    requires WellFormed(m)
    ensures forall x :: x in ChangesOf(Readings(m, measure), instance) <==>
      && x.element in m.entries
      && m.entries[x.element].instance == instance
      && Differs(m.entries[x.element].rect, measure(x.element))
      && x.rect == measure(x.element)
  {
    var rs := Readings(m, measure);
    ChangesOfMembers(rs, instance);
    forall x: ElementRect | x.element in m.entries && m.entries[x.element].instance == instance
        && Differs(m.entries[x.element].rect, measure(x.element)) && x.rect == measure(x.element)
      ensures x in ChangesOf(rs, instance)
    {
      var j := IndexOf(m.keys, x.element);
      assert Changed(rs[j]) && rs[j].instance == instance && Report(rs[j]) == x;
    }
  }

  /**
   * Dispatch: every instance is called at most once per pass, only when it
   * owns a changed element, and then with exactly its changes in table order.
   */
  lemma DispatchOncePerInstance(m: Registry, measure: Element -> Rect)
    requires WellFormed(m)
    ensures forall a, b | 0 <= a < b < |PassCalls(m, measure)| ::
      PassCalls(m, measure)[a].instance != PassCalls(m, measure)[b].instance
    ensures forall j | 0 <= j < |PassCalls(m, measure)| ::
      && PassCalls(m, measure)[j].changes == ChangesOf(Readings(m, measure), PassCalls(m, measure)[j].instance)
      && PassCalls(m, measure)[j].changes != []
    ensures forall instance | ChangesOf(Readings(m, measure), instance) != [] ::
      exists j | 0 <= j < |PassCalls(m, measure)| :: PassCalls(m, measure)[j].instance == instance
  {
    var rs := Readings(m, measure);
    var g := Group(rs);
    var calls := PassCalls(m, measure);
    forall j | 0 <= j < |calls|
      ensures calls[j].changes == ChangesOf(rs, calls[j].instance) && calls[j].changes != []
    {
      GroupIsChangesOf(rs, g.keys[j]);
    }
    forall instance | ChangesOf(rs, instance) != []
      ensures exists j | 0 <= j < |calls| :: calls[j].instance == instance
    {
      GroupIsChangesOf(rs, instance);
      var j := IndexOf(g.keys, instance);
      assert calls[j].instance == instance;
    }
  }

  /** The stored entry after a pass: the new rect when the element changed, else as it was. */
  function RefreshOne(w: WatchedElement, current: Rect): WatchedElement {
    if Differs(w.rect, current) then w.(rect := current) else w
  }

  /**
   * The table after a pass of src/resize-watcher.ts: same keys in the same
   * order, same owners and options; a changed element stores the rect just
   * read, an unchanged one keeps its stored rect.
   */
  function Refreshed(m: Registry, measure: Element -> Rect): (r: Registry)
    requires WellFormed(m)
    ensures WellFormed(r)
    ensures r.keys == m.keys
    ensures forall e | e in m.entries ::
      && e in r.entries
      && r.entries[e].options == m.entries[e].options
      && r.entries[e].instance == m.entries[e].instance
      && r.entries[e].rect == (if Differs(m.entries[e].rect, measure(e)) then measure(e) else m.entries[e].rect)
  {
    OrderedMap(m.keys, map e | e in m.entries :: RefreshOne(m.entries[e], measure(e)))
  }

  lemma {:induction false} UnchangedGroupsNothing(rs: seq<Reading>)
    requires forall j | 0 <= j < |rs| :: !Changed(rs[j])
    ensures Group(rs) == Empty()
    decreases |rs|
  {
    if rs != [] {
      UnchangedGroupsNothing(rs[..|rs| - 1]);
    }
  }

  /**
   * A second pass over the same layout reports nothing to anybody and
   * leaves the table as the first pass left it.
   */
  lemma PassIdempotent(m: Registry, measure: Element -> Rect)
    requires WellFormed(m)
    ensures PassCalls(Refreshed(m, measure), measure) == []
    ensures Refreshed(Refreshed(m, measure), measure) == Refreshed(m, measure)
  {
    var m1 := Refreshed(m, measure);
    var rs := Readings(m1, measure);
    assert forall j | 0 <= j < |rs| :: !Changed(rs[j]);
    UnchangedGroupsNothing(rs);
    var m2 := Refreshed(m1, measure);
    assert m2.entries == m1.entries;
  }

  // The earlier watcher (resize-watcher.ts:34-44) builds its buckets with
  // `[...instancesMap.get(instance), entry]`; the first time an instance is met
  // that spread is of `undefined`.

  /** Array spread of a value that may be `undefined`. */
  function Spread(bucket: Option<seq<ElementRect>>): Result<seq<ElementRect>, JsError> {
    match bucket
    case Some(b) => Success(b)
    case None => Failure(NotIterable)
  }

  /** `instancesMap` as the compare phase of resize-watcher.ts builds it, or the error it throws. */
  function EarlyGroup(rs: seq<Reading>): (r: Result<OrderedMap<Instance, seq<ElementRect>>, JsError>)
    ensures r.Success? ==> WellFormed(r.value)
    decreases |rs|
  {
    if rs == [] then Success(Empty())
    else
      match EarlyGroup(rs[..|rs| - 1])
      case Failure(err) => Failure(err)
      case Success(g) =>
        var r := rs[|rs| - 1];
        if !Changed(r) then Success(g)
        else
          match Spread(Get(g, r.instance))
          case Failure(err) => Failure(err)
          case Success(bucket) => Success(Set(g, r.instance, bucket + [Report(r)]))
  }

  predicate AnyChanged(rs: seq<Reading>) {
    exists j | 0 <= j < |rs| :: Changed(rs[j])
  }

  /** As written, the earlier compare phase throws on the first change and otherwise builds nothing. */
  lemma {:induction false} EarlyGroupThrowsOnChange(rs: seq<Reading>)
    ensures EarlyGroup(rs) == if AnyChanged(rs) then Failure(NotIterable) else Success(Empty())
    decreases |rs|
  {
    if rs != [] {
      var init := rs[..|rs| - 1];
      EarlyGroupThrowsOnChange(init);
      if AnyChanged(init) {
        var j :| 0 <= j < |init| && Changed(init[j]);
        assert Changed(rs[j]);
      } else if !Changed(rs[|rs| - 1]) {
        forall j | 0 <= j < |rs| ensures !Changed(rs[j]) {
          if j < |init| { assert rs[j] == init[j]; }
        }
      }
    }
  }

  /** Extending the earlier `instancesMap` by one reading. */
  lemma EarlyGroupStep(rs: seq<Reading>, i: nat)
    requires i < |rs|
    ensures EarlyGroup(rs[..i + 1]) ==
      match EarlyGroup(rs[..i])
      case Failure(err) => Failure(err)
      case Success(g) =>
        if !Changed(rs[i]) then Success(g)
        else
          match Spread(Get(g, rs[i].instance))
          case Failure(err) => Failure(err)
          case Success(bucket) => Success(Set(g, rs[i].instance, bucket + [Report(rs[i])]))
  {
    assert rs[..i + 1][..i] == rs[..i];
  }

  /** A pass of resize-watcher.ts: `watching` is whether `concatMap` is non-empty, `targets` the map it was scheduled with. */
  function EarlyPass(watching: bool, targets: Registry, measure: Element -> Rect): PassOutcome
    requires WellFormed(targets)
  {
    if !watching then Idle
    else
      match EarlyGroup(Readings(targets, measure))
      case Failure(err) => Failed(err)
      case Success(g) => Rescheduled(Calls(g))
  }

  /**
   * What the earlier pass amounts to: idle when the watcher's table is empty
   * (whatever `targets` holds); otherwise it throws as soon as any target's
   * width or height differs from its stored rect, and when none does it
   * calls nobody and requests the next frame.
   */
  lemma EarlyPassNeverCalls(watching: bool, targets: Registry, measure: Element -> Rect)
    requires WellFormed(targets)
    ensures EarlyPass(watching, targets, measure) ==
      if !watching then Idle
      else if exists e | e in targets.entries :: Differs(targets.entries[e].rect, measure(e)) then Failed(NotIterable)
      else Rescheduled([])
  {
    var rs := Readings(targets, measure);
    EarlyGroupThrowsOnChange(rs);
    if exists e | e in targets.entries :: Differs(targets.entries[e].rect, measure(e)) {
      var e :| e in targets.entries && Differs(targets.entries[e].rect, measure(e));
      assert Changed(rs[IndexOf(targets.keys, e)]);
    }
    if AnyChanged(rs) {
      var j :| 0 <= j < |rs| && Changed(rs[j]);
      var e := targets.keys[j];
      assert e in targets.entries && Differs(targets.entries[e].rect, measure(e));
    }
  }

  // Loop steps of the compare phase of src/resize-watcher.ts.

  /** Extending `instancesMap` by one reading. */
  lemma GroupStep(rs: seq<Reading>, i: nat)
    requires i < |rs|
    ensures Group(rs[..i + 1]) ==
      if !Changed(rs[i]) then Group(rs[..i])
      else
        match Get(Group(rs[..i]), rs[i].instance)
        case Some(bucket) => Set(Group(rs[..i]), rs[i].instance, bucket + [Report(rs[i])])
        case None => Set(Group(rs[..i]), rs[i].instance, [Report(rs[i])])
  {
    assert rs[..i + 1][..i] == rs[..i];
  }

  /** The table part-way through the compare phase: the first `i` keys refreshed. */
  function RefreshedUpTo(m: Registry, measure: Element -> Rect, i: nat): Registry
    requires i <= |m.keys|
  {
    OrderedMap(m.keys, map e | e in m.entries ::
      if e in m.keys[..i] then RefreshOne(m.entries[e], measure(e)) else m.entries[e])
  }

  lemma RefreshedUpToBounds(m: Registry, measure: Element -> Rect)
    requires WellFormed(m)
    ensures RefreshedUpTo(m, measure, 0) == m
    ensures RefreshedUpTo(m, measure, |m.keys|) == Refreshed(m, measure)
  {
    assert RefreshedUpTo(m, measure, 0).entries == m.entries;
    assert m.keys[..|m.keys|] == m.keys;
  }

  /** One iteration of the compare phase's write-back. */
  lemma RefreshStep(m: Registry, measure: Element -> Rect, i: nat)
    requires WellFormed(m) && i < |m.keys|
    ensures
      var cur := RefreshedUpTo(m, measure, i);
      var r := Readings(m, measure)[i];
      && r.element in cur.entries
      && RefreshedUpTo(m, measure, i + 1) ==
        if Changed(r) then Set(cur, r.element, cur.entries[r.element].(rect := r.current)) else cur
  {
    var cur := RefreshedUpTo(m, measure, i);
    var next := RefreshedUpTo(m, measure, i + 1);
    var key := m.keys[i];
    PrefixNext(m.keys, i);
    var r := Readings(m, measure)[i];
    if Changed(r) {
      assert next.entries == cur.entries[key := cur.entries[key].(rect := r.current)];
    } else {
      assert next.entries == cur.entries;
    }
  }

  // The read and notify phases, shared by both watchers.

  /** The read phase: every element's rect is read, in table order, before anything is written. */
  method ReadPhase(table: Registry, measure: Element -> Rect) returns (currentRects: seq<Reading>)
    requires WellFormed(table)
    ensures currentRects == Readings(table, measure)
  {
    currentRects := [];
    var i := 0;
    while i < |table.keys|
      invariant 0 <= i <= |table.keys|
      invariant currentRects == Readings(table, measure)[..i]
    {
      var element := table.keys[i];
      var value := table.entries[element];
      currentRects := currentRects + [Reading(element, measure(element), value.rect, value.instance)];
      i := i + 1;
    }
  }

  /** The notify phase: one `applyChanges` call per bucket, in `instancesMap` order. */
  method NotifyPhase(instancesMap: OrderedMap<Instance, seq<ElementRect>>) returns (calls: seq<Call>)
    requires WellFormed(instancesMap)
    ensures calls == Calls(instancesMap)
  {
    calls := [];
    var i := 0;
    while i < |instancesMap.keys|
      invariant 0 <= i <= |instancesMap.keys|
      invariant calls == Calls(instancesMap)[..i]
    {
      var instance := instancesMap.keys[i];
      calls := calls + [ApplyChanges(instance, instancesMap.entries[instance])];
      i := i + 1;
    }
  }
}
