/**
 * `ScrollerController` (src/graphics/template/scroller2/js/ScrollerController.js):
 * the scroll engine of the scrollytelling template. It keeps the offsets of
 * the sections from the container top, works out which section is active for
 * a scroll position by a bisect-right search, and calls the callbacks
 * registered for the `active`, `progress` and `resize` events.
 *
 * The browser is not modelled: the window's scroll offset and half its inner
 * height, the container's top and the sections' tops are passed in as
 * numbers. A callback is modelled by an id, and calling it by recording an
 * `Invocation` in the controller's `log`.
 */
module ScrollerControl {
  import opened Wrappers

  /** The data handed to the callbacks of each event. */
  datatype Payload =
    | ActiveData(index: int)
    | ProgressData(index: int, progress: real)
    | ResizeData(yCoords: seq<int>)

  /** One callback call: which callback, with which data. */
  datatype Invocation = Invocation(callback: nat, data: Payload)

  /** The calls `callbacks.forEach(cb => cb(data))` makes, in order. */
  function Calls(callbacks: seq<nat>, data: Payload): seq<Invocation> {
    seq(|callbacks|, k requires 0 <= k < |callbacks| => Invocation(callbacks[k], data))
  }

  /** The three event names the controller keeps callbacks for. */
  const EventNames: set<string> := {"active", "progress", "resize"}

  predicate Ascending(s: seq<int>) {
    forall i, j :: 0 <= i < j < |s| ==> s[i] <= s[j]
  }

  /** The number of entries of `s` that are at most `x`. */
  function CountAtMost(s: seq<int>, x: int): (n: nat)
    ensures n <= |s|
  {
    if s == [] then 0 else CountAtMost(s[..|s| - 1], x) + (if s[|s| - 1] <= x then 1 else 0)
  }

  /**
   * A split point with every entry before it at most `x` and every entry from
   * it on above `x` is the number of entries at most `x`.
   */
  lemma {:induction false} SplitIsCount(s: seq<int>, x: int, p: nat)
    requires p <= |s|
    requires forall i :: 0 <= i < p ==> s[i] <= x
    requires forall i :: p <= i < |s| ==> s[i] > x
    ensures CountAtMost(s, x) == p
  {
    if s != [] {
      var n := |s| - 1;
      if p == |s| {
        SplitIsCount(s[..n], x, n);
      } else {
        SplitIsCount(s[..n], x, p);
      }
    }
  }

  /** On sorted offsets a later scroll position never counts fewer sections. */
  lemma {:induction false} CountAtMostMonotone(s: seq<int>, x: int, y: int)
    requires x <= y
    ensures CountAtMost(s, x) <= CountAtMost(s, y)
  {
    if s != [] {
      CountAtMostMonotone(s[..|s| - 1], x, y);
    }
  }

  /** `Math.min(sections.length - 1, bisect(yCoords, yPos))`: the section to make active. */
  function ActiveIndex(sectionCount: int, yCoords: seq<int>, yPos: int): (i: int)
    ensures i <= sectionCount - 1
    ensures sectionCount > 0 ==> 0 <= i
  {
    var n := CountAtMost(yCoords, yPos);
    if sectionCount - 1 < n then sectionCount - 1 else n
  }

  /** Scrolling further down never makes an earlier section active. */
  lemma ActiveIndexMonotone(sectionCount: int, yCoords: seq<int>, y1: int, y2: int)
    requires y1 <= y2
    ensures ActiveIndex(sectionCount, yCoords, y1) <= ActiveIndex(sectionCount, yCoords, y2)
  {
    CountAtMostMonotone(yCoords, y1, y2);
  }

  /** The entry at `i`, `None` where JavaScript would read `undefined`. */
  function Lookup(s: seq<int>, i: int): Option<int> {
    if 0 <= i < |s| then Some(s[i]) else None
  }

  /**
   * The progress through the active section: `(yPos - start) / (end - start)`
   * between the previous section's offset and the active one's, and 0 when the
   * two are the same (or both missing).
   */
  function Progress(yCoords: seq<int>, index: int, yPos: int): real {
    var prev := if index - 1 > 0 then index - 1 else 0;
    var start, end := Lookup(yCoords, prev), Lookup(yCoords, index);
    if end != start && start.Some? && end.Some? then
      (yPos - start.value) as real / (end.value - start.value) as real
    else
      0.0
  }

  class ScrollerController {
    /** The number of sections `init` selected (`sections.length`). */
    var sectionCount: nat
    /** The offset of each section's top from the container's top. */
    var yCoords: seq<int>
    var containerStart: int
    var currentIndex: int
    var progress: real
    /** The registered callback ids per event name. */
    var callbacks: map<string, seq<nat>>
    /** Every callback call made so far, in order. */
    var log: seq<Invocation>

    /** The three events have callback lists and the index is -1 or a section index. */
    ghost predicate Registered()
      reads this
    {
      callbacks.Keys == EventNames && -1 <= currentIndex
    }

    /** Besides, there is one offset per section. */
    ghost predicate Valid()
      reads this
    {
      Registered() && |yCoords| == sectionCount
    }

    /** A controller with no sections, no offsets, index -1 and no callbacks. */
    constructor ()
      ensures Valid()
      ensures sectionCount == 0 && yCoords == [] && containerStart == 0
      ensures currentIndex == -1 && progress == 0.0
      ensures callbacks == map["active" := [], "progress" := [], "resize" := []]
      ensures log == []
    {
      sectionCount := 0;
      yCoords := [];
      containerStart := 0;
      currentIndex := -1;
      progress := 0.0;
      callbacks := map["active" := [], "progress" := [], "resize" := []];
      log := [];
    }

    /**
     * `bisect(arr, x)`: binary search for the bisect-right position. On an
     * ascending array every entry before the result is at most `x` and every
     * entry from it on is above `x`. `(low + high) >>> 1` is the halving of a
     * non-negative sum, as array lengths are far below 2^32.
     */
    method Bisect(arr: seq<int>, x: int) returns (low: nat)
      ensures low <= |arr|
      ensures Ascending(arr) ==> forall i :: 0 <= i < low ==> arr[i] <= x
      ensures Ascending(arr) ==> forall i :: low <= i < |arr| ==> arr[i] > x
      ensures Ascending(arr) ==> low == CountAtMost(arr, x)
    {
      low := 0;
      var high := |arr|;
      while low < high
        invariant 0 <= low <= high <= |arr|
        invariant Ascending(arr) ==> forall i :: 0 <= i < low ==> arr[i] <= x
        invariant Ascending(arr) ==> forall i :: high <= i < |arr| ==> arr[i] > x
      {
        var mid := (low + high) / 2;
        if arr[mid] <= x {
          low := mid + 1;
        } else {
          high := mid;
        }
      }
      if Ascending(arr) {
        SplitIsCount(arr, x, low);
      }
    }

    /**
     * `trigger(event, data)`: calls each callback registered for `event`, in
     * registration order; an unknown event calls nothing.
     */
    method Trigger(event: string, data: Payload)
      modifies this
      ensures log == old(log) + (if event in callbacks then Calls(callbacks[event], data) else [])
      ensures sectionCount == old(sectionCount) && yCoords == old(yCoords) && containerStart == old(containerStart)
      ensures currentIndex == old(currentIndex) && progress == old(progress) && callbacks == old(callbacks)
    {
      if event in callbacks {
        var cbs := callbacks[event];
        var i := 0;
        while i < |cbs|
          invariant 0 <= i <= |cbs|
          invariant log == old(log) + Calls(cbs[..i], data)
          invariant callbacks == old(callbacks)
          invariant sectionCount == old(sectionCount) && yCoords == old(yCoords)
          invariant containerStart == old(containerStart)
          invariant currentIndex == old(currentIndex) && progress == old(progress)
        {
          assert Calls(cbs[..i + 1], data) == Calls(cbs[..i], data) + [Invocation(cbs[i], data)];
          log := log + [Invocation(cbs[i], data)];
          i := i + 1;
        }
        assert cbs[..i] == cbs;
      }
    }

    /**
     * `on(event, callback)`: registers the callback for one of the three known
     * events and ignores any other name; returns the controller itself.
     */
    method On(event: string, callback: nat) returns (self: ScrollerController)
      requires Valid()
      modifies this
      ensures Valid() && self == this
      ensures event in EventNames ==> callbacks == old(callbacks)[event := old(callbacks)[event] + [callback]]
      ensures event !in EventNames ==> callbacks == old(callbacks)
      ensures sectionCount == old(sectionCount) && yCoords == old(yCoords) && containerStart == old(containerStart)
      ensures currentIndex == old(currentIndex) && progress == old(progress) && log == old(log)
    {
      if event in callbacks {
        callbacks := callbacks[event := callbacks[event] + [callback]];
      }
      return this;
    }

    /**
     * `handleResize()`: the container's top in page coordinates becomes
     * `containerStart`, each section's offset is its top minus that, and the
     * `resize` callbacks get the new offsets.
     */
    method HandleResize(containerTop: int, sectionTops: seq<int>)
      requires Registered() && |sectionTops| == sectionCount
      modifies this
      ensures Valid()
      ensures containerStart == containerTop
      ensures |yCoords| == |sectionTops|
      ensures forall i :: 0 <= i < |sectionTops| ==> yCoords[i] == sectionTops[i] - containerTop
      ensures log == old(log) + Calls(callbacks["resize"], ResizeData(yCoords))
      ensures sectionCount == old(sectionCount) && currentIndex == old(currentIndex)
      ensures progress == old(progress) && callbacks == old(callbacks)
    {
      containerStart := containerTop;
      var coords: seq<int> := [];
      var i := 0;
      while i < |sectionTops|
        invariant 0 <= i <= |sectionTops| && |coords| == i
        invariant forall k :: 0 <= k < i ==> coords[k] == sectionTops[k] - containerStart
      {
        coords := coords + [sectionTops[i] - containerStart];
        i := i + 1;
      }
      yCoords := coords;
      Trigger("resize", ResizeData(yCoords));
    }

    /**
     * `handleScroll()` for the scroll position `yPos` (the window's scroll
     * offset less `containerStart` and half the window height). The active
     * index is the bisect-right position clamped to the last section; the
     * `active` callbacks run only when it changes, the `progress` callbacks
     * every time.
     */
    method HandleScroll(scrollY: int, halfViewport: int)
      requires Valid()
      modifies this
      ensures Valid()
      ensures var yPos := scrollY - old(containerStart) - halfViewport;
        && currentIndex <= sectionCount - 1
        && (sectionCount > 0 ==> 0 <= currentIndex)
        && (Ascending(yCoords) ==> currentIndex == ActiveIndex(sectionCount, yCoords, yPos))
        && progress == Progress(yCoords, currentIndex, yPos)
        && log == old(log)
             + (if currentIndex != old(currentIndex) then Calls(callbacks["active"], ActiveData(currentIndex)) else [])
             + Calls(callbacks["progress"], ProgressData(currentIndex, progress))
      ensures sectionCount == old(sectionCount) && yCoords == old(yCoords) && containerStart == old(containerStart)
      ensures callbacks == old(callbacks)
    {
      assert "active" in callbacks && "progress" in callbacks;
      ghost var before := log;
      var yPos := scrollY - containerStart - halfViewport;
      var indexNow := Bisect(yCoords, yPos);
      var clamped := if sectionCount - 1 < indexNow then sectionCount - 1 else indexNow;
      assert Ascending(yCoords) ==> clamped == ActiveIndex(sectionCount, yCoords, yPos);
      if currentIndex != clamped {
        currentIndex := clamped;
        Trigger("active", ActiveData(currentIndex));
      }
      assert log == before + (if clamped != old(currentIndex) then Calls(callbacks["active"], ActiveData(clamped)) else []);
      progress := Progress(yCoords, currentIndex, yPos);
      Trigger("progress", ProgressData(currentIndex, progress));
    }

    /**
     * `init()` with the sections the selector found: offsets first, then the
     * active section for the current scroll position.
     */
    method Init(containerTop: int, sectionTops: seq<int>, scrollY: int, halfViewport: int)
      requires Valid()
      modifies this
      ensures Valid()
      ensures sectionCount == |sectionTops| == |yCoords|
      ensures forall i :: 0 <= i < |sectionTops| ==> yCoords[i] == sectionTops[i] - containerTop
      ensures sectionCount > 0 ==> 0 <= currentIndex < sectionCount
      ensures Ascending(sectionTops) ==> currentIndex == ActiveIndex(sectionCount, yCoords, scrollY - containerTop - halfViewport)
      ensures progress == Progress(yCoords, currentIndex, scrollY - containerTop - halfViewport)
      ensures log == old(log)
        + Calls(callbacks["resize"], ResizeData(yCoords))
        + (if currentIndex != old(currentIndex) then Calls(callbacks["active"], ActiveData(currentIndex)) else [])
        + Calls(callbacks["progress"], ProgressData(currentIndex, progress))
      ensures callbacks == old(callbacks)
    {
      sectionCount := |sectionTops|;
      HandleResize(containerTop, sectionTops);
      HandleScroll(scrollY, halfViewport);
    }
  }
}
