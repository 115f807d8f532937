/**
 * The animated counter: the ease-out curve, the value written on each
 * animation frame, and the frame callback that reschedules itself until the
 * duration has elapsed. Time is in whole milliseconds; the easing is computed
 * over exact reals.
 */
module Counter {
  import opened Wrappers

  /** The duration, in milliseconds, of every counting animation the counter
      observer starts. */
  const Duration := 1500

  function Sq(x: real): real {
    x * x
  }

  /** The ease-out curve: one minus the fourth power of the remaining
      fraction. On [0, 1] it stays within [0, 1]. */
  function EaseOut(t: real): (r: real)
    ensures 0.0 <= t <= 1.0 ==> 0.0 <= r <= 1.0
  {
    var u := 1.0 - t;
    SqUnit(u);
    SqUnit(Sq(u));
    1.0 - Sq(Sq(u))
  }

  lemma SqUnit(a: real)
    ensures 0.0 <= a <= 1.0 ==> 0.0 <= Sq(a) <= a
  {
    if 0.0 <= a <= 1.0 {
      assert a * a <= a * 1.0;
    }
  }

  lemma PosMul(x: real, y: real)
    requires 0.0 < x && 0.0 < y
    ensures 0.0 < x * y
  {
  }

  lemma SqLess(a: real, b: real)
    requires 0.0 <= a < b
    ensures Sq(a) < Sq(b)
  {
    PosMul(b - a, b + a);
    assert (b - a) * (b + a) == b * b - a * a;
  }

  /** The curve rises strictly on [0, 1]. */
  lemma EaseOutIncreasing(s: real, t: real)
    requires 0.0 <= s < t <= 1.0
    ensures EaseOut(s) < EaseOut(t)
  {
    var u, v := 1.0 - t, 1.0 - s;
    SqLess(u, v);
    SqUnit(u);
    SqLess(Sq(u), Sq(v));
  }

  lemma EaseOutEnds()
    ensures EaseOut(0.0) == 0.0 && EaseOut(1.0) == 1.0 && EaseOut(0.5) == 0.9375
  {
  }

  /** `Math.round`: the nearest integer, halves rounded up. */
  function JsRound(x: real): (r: int)
    ensures x - 0.5 < r as real <= x + 0.5
  {
    (x + 0.5).Floor
  }

  lemma JsRoundMonotone(x: real, y: real)
    requires x <= y
    ensures JsRound(x) <= JsRound(y)
  {
  }

  /** The elapsed fraction of the run, capped at 1 once the duration has
      passed. */
  function Progress(elapsed: int, duration: int): (p: real)
    requires duration > 0
    ensures p <= 1.0
    ensures p < 1.0 <==> elapsed < duration
    ensures 0 <= elapsed ==> 0.0 <= p
  {
    var q := elapsed as real / duration as real;
    assert q * duration as real == elapsed as real;
    if q < 1.0 then q else 1.0
  }

  /** The eased fraction of the target, rounded to the nearest integer. */
  function Eased(progress: real, target: int): int {
    JsRound(EaseOut(progress) * target as real)
  }

  /** The value a frame writes `elapsed` milliseconds after the start. */
  function Shown(elapsed: int, duration: int, target: int): int
    requires duration > 0
  {
    Eased(Progress(elapsed, duration), target)
  }

  /** Once the duration has elapsed the formula itself gives the target. */
  lemma ShownAtEnd(elapsed: int, duration: int, target: int)
    requires duration > 0 && duration <= elapsed
    ensures Shown(elapsed, duration, target) == target
  {
  }

  /** Half-way through, a target of 200 shows round(0.9375 * 200) = 188. */
  lemma ShownHalfway()
    ensures Shown(750, Duration, 200) == 188
  {
    assert Progress(750, Duration) == 0.5;
    EaseOutEnds();
  }

  /** For a non-negative target and elapsed time the value shown lies between
      0 and the target. */
  lemma ShownInRange(elapsed: int, duration: int, target: int)
    requires duration > 0 && 0 <= elapsed && 0 <= target
    ensures 0 <= Shown(elapsed, duration, target) <= target
  {
    var e := EaseOut(Progress(elapsed, duration));
    assert 0.0 <= e <= 1.0;
    assert 0.0 <= e * target as real <= 1.0 * target as real;
  }

  lemma MulMonotone(c: real, x: real, y: real)
    requires 0.0 <= c && x <= y
    ensures x * c <= y * c
  {
    if c > 0.0 && x < y {
      PosMul(y - x, c);
    }
  }

  /** Progress never goes down as time advances. */
  lemma ProgressMonotone(e1: int, e2: int, duration: int)
    requires duration > 0 && e1 <= e2
    ensures Progress(e1, duration) <= Progress(e2, duration)
  {
    var d := duration as real;
    var q1, q2 := e1 as real / d, e2 as real / d;
    assert q1 * d == e1 as real && q2 * d == e2 as real;
    if q2 < q1 {
      PosMul(q1 - q2, d);
      assert false;
    }
  }

  /** Scaling by a non-negative target and rounding preserve order. */
  lemma RoundScaledMonotone(x: real, y: real, target: int)
    requires x <= y && 0 <= target
    ensures JsRound(x * target as real) <= JsRound(y * target as real)
  {
    MulMonotone(target as real, x, y);
    JsRoundMonotone(x * target as real, y * target as real);
  }

  /** The curve never goes down on [0, 1]. */
  lemma EaseOutMonotone(p1: real, p2: real)
    requires 0.0 <= p1 <= p2 <= 1.0
    ensures EaseOut(p1) <= EaseOut(p2)
  {
    if p1 < p2 {
      EaseOutIncreasing(p1, p2);
    }
  }

  /** Rounding the scaled curve keeps the order of the curve's values. */
  lemma EasedFollowsCurve(p1: real, p2: real, target: int)
    requires EaseOut(p1) <= EaseOut(p2) && 0 <= target
    ensures Eased(p1, target) <= Eased(p2, target)
  {
    RoundScaledMonotone(EaseOut(p1), EaseOut(p2), target);
  }

  /** The rounded, scaled curve never goes down on [0, 1]. */
  lemma EasedValueMonotone(p1: real, p2: real, target: int)
    requires 0.0 <= p1 <= p2 <= 1.0 && 0 <= target
    ensures Eased(p1, target) <= Eased(p2, target)
  {
    EaseOutMonotone(p1, p2);
    EasedFollowsCurve(p1, p2, target);
  }

  /** For a non-negative target the value shown never goes down as time
      advances. */
  lemma ShownMonotone(e1: int, e2: int, duration: int, target: int)
    requires duration > 0 && 0 <= e1 <= e2 && 0 <= target
    ensures Shown(e1, duration, target) <= Shown(e2, duration, target)
  {
    ProgressMonotone(e1, e2, duration);
    EasedValueMonotone(Progress(e1, duration), Progress(e2, duration), target);
  }

  /** The values frames at the given times write, for a run started at `start`. */
  function FrameValues(frames: seq<int>, start: int, duration: int, target: int): (vs: seq<int>)
    requires duration > 0
    ensures |vs| == |frames|
    ensures forall i :: 0 <= i < |frames| ==> vs[i] == Shown(frames[i] - start, duration, target)
  {
    seq(|frames|, i requires 0 <= i < |frames| => Shown(frames[i] - start, duration, target))
  }

  lemma FrameValuesSnoc(frames: seq<int>, f: int, start: int, duration: int, target: int)
    requires duration > 0
    ensures FrameValues(frames + [f], start, duration, target)
      == FrameValues(frames, start, duration, target) + [Shown(f - start, duration, target)]
  {
  }

  /** Frame times that do not go backwards and do not precede the start give
      a display that counts up from at least 0 to at most the target. */
  lemma FrameValuesCountUp(frames: seq<int>, start: int, duration: int, target: int)
    requires duration > 0 && 0 <= target
    requires forall i :: 0 <= i < |frames| ==> start <= frames[i]
    requires forall i, j :: 0 <= i <= j < |frames| ==> frames[i] <= frames[j]
    ensures var vs := FrameValues(frames, start, duration, target);
      && (forall i :: 0 <= i < |vs| ==> 0 <= vs[i] <= target)
      && (forall i, j :: 0 <= i <= j < |vs| ==> vs[i] <= vs[j])
  {
    var vs := FrameValues(frames, start, duration, target);
    forall i | 0 <= i < |vs| ensures 0 <= vs[i] <= target {
      ShownInRange(frames[i] - start, duration, target);
    }
    forall i, j | 0 <= i <= j < |vs| ensures vs[i] <= vs[j] {
      ShownMonotone(frames[i] - start, frames[j] - start, duration, target);
    }
  }

  /** One run of `animateCount` on an element that has a `.counter` child.
      `text` is the counter's text (`None`: still the markup's), `pending`
      says a frame callback is requested, `written` lists every value written. */
  class CounterRun {
    const start: int
    const target: int
    const duration: int
    var text: Option<int>
    var pending: bool
    ghost var written: seq<int>

    /** The text is the last value written; a finished run wrote the target
        last. */
    ghost predicate Valid()
      reads this
    {
      && duration > 0
      && text == (if written == [] then None else Some(written[|written| - 1]))
      && (!pending ==> written != [] && written[|written| - 1] == target)
    }

    /** The run records the clock reading it starts at and requests its first
        frame. */
    constructor (start: int, target: int, duration: int)
      requires duration > 0
      ensures Valid()
      ensures this.start == start && this.target == target && this.duration == duration
      ensures text == None && pending && written == []
    {
      this.start, this.target, this.duration := start, target, duration;
      text, pending, written := None, true, [];
    }

    /** `tick(now)`: write the eased value, then either request another frame
        (while the duration has not elapsed) or write the exact target. */
    method Tick(now: int)
      requires Valid() && pending
      modifies this
      ensures Valid()
      ensures pending == (now - start < duration)
      ensures written == old(written) + [Shown(now - start, duration, target)]
        + (if pending then [] else [target])
      ensures text == Some(if pending then Shown(now - start, duration, target) else target)
    {
      var elapsed := now - start;
      var progress := Progress(elapsed, duration);
      var value := Shown(elapsed, duration, target);
      text := Some(value);
      written := written + [value];
      if progress < 1.0 {
        pending := true;
      } else {
        text := Some(target);
        written := written + [target];
        pending := false;
      }
    }

    /** The frame loop: the callback runs on each frame time in turn while it
        keeps requesting frames. The run finishes at the first frame at least
        `duration` after the start, with the target written last. */
    method Animate(frames: seq<int>) returns (ticks: nat)
      requires Valid() && pending
      modifies this
      ensures Valid()
      ensures ticks <= |frames|
      ensures forall i :: 0 <= i < ticks && (pending || i < ticks - 1) ==> frames[i] - start < duration
      ensures pending <==> ticks == |frames| && forall i :: 0 <= i < |frames| ==> frames[i] - start < duration
      ensures !pending ==> 0 < ticks && frames[ticks - 1] - start >= duration && text == Some(target)
      ensures written == old(written) + FrameValues(frames[..ticks], start, duration, target)
        + (if pending then [] else [target])
    {
      ticks := 0;
      while ticks < |frames| && pending
        invariant Valid()
        invariant 0 <= ticks <= |frames|
        invariant forall i :: 0 <= i < ticks && (pending || i < ticks - 1) ==> frames[i] - start < duration
        invariant !pending ==> 0 < ticks && frames[ticks - 1] - start >= duration
        invariant written == old(written) + FrameValues(frames[..ticks], start, duration, target)
          + (if pending then [] else [target])
      {
        FrameValuesSnoc(frames[..ticks], frames[ticks], start, duration, target);
        assert frames[..ticks + 1] == frames[..ticks] + [frames[ticks]];
        Tick(frames[ticks]);
        ticks := ticks + 1;
      }
    }
  }
}
