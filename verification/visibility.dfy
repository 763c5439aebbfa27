/**
 * The `useOnScreen` hook copied into every page file: a boolean that starts
 * false and latches to true the first time the intersection observer reports
 * the element as intersecting, after which that observer stops watching it.
 *
 * The hook's effect lists the `options` object among its dependencies, and
 * every caller passes a fresh object literal, so the effect runs again after
 * every render: the old observer is unsubscribed and a new one watches the
 * element again. The model keeps that: `EffectRun` re-arms observation.
 */
module Visibility {

  /** `visible` is the hook's state; `observing` whether an observer watches the element. */
  datatype Latch = Latch(visible: bool, observing: bool)

  /** What the outside world can do to the hook. */
  datatype Signal =
    | EffectRun(hasElement: bool)         // the effect (re)subscribes if the ref is attached
    | Intersect(isIntersecting: bool)     // the observer's callback with the entry's flag

  /** Before the first effect: hidden, nothing observed. */
  const Initial := Latch(false, false)

  /** One signal. Callbacks only arrive while an observer watches the element. */
  function Step(l: Latch, s: Signal): (r: Latch)
    ensures l.visible ==> r.visible
    ensures s.Intersect? && s.isIntersecting && l.observing ==> r.visible && !r.observing
    ensures !(s.Intersect? && s.isIntersecting) ==> r.visible == l.visible
  {
    match s
    case EffectRun(hasElement) => l.(observing := hasElement)
    case Intersect(isIntersecting) =>
      if l.observing && isIntersecting then Latch(true, false) else l
  }

  /** Replays signals in order. */
  function Run(l: Latch, sigs: seq<Signal>): (r: Latch)
    decreases |sigs|
  {
    if |sigs| == 0 then l else Run(Step(l, sigs[0]), sigs[1..])
  }

  /** The flag never goes back to false. */
  lemma {:induction false} RunMonotone(l: Latch, sigs: seq<Signal>)
    requires l.visible
    ensures Run(l, sigs).visible
    decreases |sigs|
  {
    if |sigs| > 0 {
      RunMonotone(Step(l, sigs[0]), sigs[1..]);
    }
  }

  /** The flag only turns true because the observer reported an intersection. */
  lemma {:induction false} VisibleOnlyAfterIntersection(l: Latch, sigs: seq<Signal>)
    requires !l.visible
    requires Run(l, sigs).visible
    ensures exists i :: 0 <= i < |sigs| && sigs[i] == Intersect(true)
    decreases |sigs|
  {
    if |sigs| == 0 {
      assert false;
    } else if sigs[0] == Intersect(true) {
    } else {
      var next := Step(l, sigs[0]);
      assert !next.visible;
      VisibleOnlyAfterIntersection(next, sigs[1..]);
      var i :| 0 <= i < |sigs[1..]| && sigs[1..][i] == Intersect(true);
      assert sigs[i + 1] == Intersect(true);
    }
  }

  /**
   * Once the element is attached and observed, the first intersecting report
   * makes it visible for good, whatever follows.
   */
  lemma MountThenIntersect(rest: seq<Signal>)
    ensures Run(Initial, [EffectRun(true), Intersect(true)] + rest).visible
  {
    var sigs := [EffectRun(true), Intersect(true)] + rest;
    var l1 := Step(Initial, sigs[0]);
    var l2 := Step(l1, sigs[1]);
    assert l2.visible;
    assert sigs[1..][1..] == rest;
    RunMonotone(l2, rest);
  }

  /**
   * While the element is never attached when the effect runs, no observer
   * starts, so no report arrives and a hidden section stays hidden.
   */
  lemma {:induction false} DetachedStaysHidden(l: Latch, sigs: seq<Signal>)
    requires !l.visible && !l.observing
    requires forall j :: 0 <= j < |sigs| ==> sigs[j] != EffectRun(true)
    ensures !Run(l, sigs).visible
    decreases |sigs|
  {
    if |sigs| > 0 {
      var next := Step(l, sigs[0]);
      assert !next.visible && !next.observing;
      DetachedStaysHidden(next, sigs[1..]);
    }
  }
}
