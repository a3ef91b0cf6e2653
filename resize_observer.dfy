/**
 * The `ResizeObserver` class of resize-observer.ts at the repository root:
 * a map of observed targets to their options, a `resize` listener on the
 * window that is registered while that map is non-empty, and `handleEvent`,
 * which measures every target and hands one entry per target to the callback.
 */
module Observer {
  import opened Wrappers
  import opened JsMaps
  import opened Interfaces

  /** `getDefaultOptions()` */
  function GetDefaultOptions(): ResizeObserverOptions {
    ResizeObserverOptions(ContentBox)
  }

  class ResizeObserver {
    /** `targets`: each observed element with the options it was observed with, in observation order. */
    var targets: OrderedMap<Element, ResizeObserverOptions>
    /** Whether this observer is registered as the window's `resize` listener. */
    var listening: bool

    /** `targets` is a JS `Map`, and the listener is registered exactly while something is observed. */
    ghost predicate Valid()
      reads this
    {
      && WellFormed(targets)
      && (listening <==> Size(targets) > 0)
    }

    constructor ()
      ensures Valid() && targets == Empty() && !listening
    {
      targets := Empty();
      listening := false;
    }

    /**
     * `observe(target, options)`; `None` is an omitted (or `undefined`)
     * `options`, which defaults to content-box. Observing a target again
     * replaces its options and keeps its position.
     */
    method Observe(target: Element, options: Option<ResizeObserverOptions>)
      requires Valid()
      modifies this
      ensures Valid()
      ensures targets == Set(old(targets), target, if options.Some? then options.value else GetDefaultOptions())
      ensures Get(targets, target) == Some(if options.Some? then options.value else ResizeObserverOptions(ContentBox))
      ensures listening
    {
      var opts := if options.Some? then options.value else GetDefaultOptions();
      targets := Set(targets, target, opts);
      if Size(targets) == 1 {
        listening := true;
      }
    }

    /** `unobserve(target)`: forget the target; the listener goes when the last target does. */
    method Unobserve(target: Element)
      requires Valid()
      modifies this
      ensures Valid()
      ensures targets == Delete(old(targets), target)
      ensures target !in targets.entries
      ensures target !in old(targets).entries ==> targets == old(targets)
      ensures listening <==> Size(targets) > 0
    {
      targets := Delete(targets, target);
      if Size(targets) == 0 {
        listening := false;
      }
    }

    /** `disconnect()`: drop the listener and every target. */
    method Disconnect()
      requires Valid()
      modifies this
      ensures Valid()
      ensures targets == Empty() && !listening
    {
      listening := false;
      targets := Empty();
    }

    /**
     * `handleEvent()`: the entries handed to the callback. `measure` is the
     * layout `getBoundingClientRect` reports while the loop runs. There is
     * one entry per observed target, in observation order, carrying the rect
     * just read and zero border-box and content-box sizes whatever `box` the
     * target was observed with.
     */
    method HandleEvent(measure: Element -> Rect) returns (entries: seq<ResizeObserverEntry>)
      requires Valid()
      ensures |entries| == Size(targets)
      ensures forall i | 0 <= i < |entries| :: entries[i].target == targets.keys[i]
      ensures forall i | 0 <= i < |entries| :: entries[i].contentRect == measure(targets.keys[i])
      ensures forall i | 0 <= i < |entries| ::
        entries[i].borderBoxSize == BoxSize(0, 0) && entries[i].contentBoxSize == BoxSize(0, 0)
      ensures forall e :: e in targets.entries <==> exists i | 0 <= i < |entries| :: entries[i].target == e
      ensures forall i, j | 0 <= i < j < |entries| :: entries[i].target != entries[j].target
    {
      entries := [];
      var i := 0;
      while i < |targets.keys|
        invariant 0 <= i <= |targets.keys|
        invariant |entries| == i
        invariant forall j | 0 <= j < i ::
          entries[j] == ResizeObserverEntry(BoxSize(0, 0), BoxSize(0, 0), measure(targets.keys[j]), targets.keys[j])
      {
        var target := targets.keys[i];
        var contentRect := measure(target);
        entries := entries + [ResizeObserverEntry(BoxSize(0, 0), BoxSize(0, 0), contentRect, target)];
        i := i + 1;
      }
      forall e | e in targets.entries
        ensures exists i | 0 <= i < |entries| :: entries[i].target == e
      {
        var k := IndexOf(targets.keys, e);
        assert entries[k].target == e;
      }
    }
  }
}
