/**
 * The two viewport observers. Each callback receives a batch of entries, skips
 * the ones that are not intersecting, acts on the others and stops observing
 * their elements. Scheduled work (a reveal timer, an animation run) is
 * recorded, not run.
 */
module Observers {
  import opened Wrappers
  import Counter

  /** An element of the page, as an opaque handle. */
  type Element = nat

  /** The conversion of a number to the Web IDL type `long`: wrap-around
      modulo 2^32 into the signed 32-bit range. */
  function ToLong(x: int): (r: int)
    ensures -0x8000_0000 <= r < 0x8000_0000
    ensures (x - r) % 0x1_0000_0000 == 0
  {
    var m := x % 0x1_0000_0000;
    if m < 0x8000_0000 then m else m - 0x1_0000_0000
  }

  /** The wait `setTimeout` applies to the result of `parseInt`: NaN becomes
      0, the number is converted to `long`, and a negative wait becomes 0. */
  function TimerDelay(parsed: Option<int>): (d: nat)
    ensures d < 0x8000_0000
    ensures parsed.None? ==> d == 0
    ensures parsed.Some? && 0 <= parsed.value < 0x8000_0000 ==> d == parsed.value
    ensures parsed.Some? && -0x8000_0000 <= parsed.value < 0 ==> d == 0
  {
    match parsed
    case None => 0
    case Some(n) => var t := ToLong(n); if t < 0 then 0 else t
  }

  /* ---------------------------------------------------------------------- */
  /* Scroll reveal                                                           */

  /** One entry for a `.reveal` element, with its delay attribute read as a
      decimal integer (0 when the attribute is missing, `None` when it does not
      start with a number). */
  datatype RevealEntry = RevealEntry(target: Element, isIntersecting: bool, delay: Option<int>)

  /** A pending `setTimeout` that will add `visible` to `target`. */
  datatype Timer = Timer(target: Element, delay: nat)

  function TimerTargets(ts: seq<Timer>): set<Element> {
    set t | t in ts :: t.target
  }

  /** The timers one batch starts, in entry order. */
  function RevealTimers(entries: seq<RevealEntry>): seq<Timer>
    decreases |entries|
  {
    if entries == [] then []
    else
      var last := entries[|entries| - 1];
      RevealTimers(entries[..|entries| - 1])
        + (if last.isIntersecting then [Timer(last.target, TimerDelay(last.delay))] else [])
  }

  lemma TimerTargetsAppend(a: seq<Timer>, b: seq<Timer>)
    ensures TimerTargets(a + b) == TimerTargets(a) + TimerTargets(b)
  {
    assert forall t :: t in a + b <==> t in a || t in b;
  }

  /** A batch schedules a reveal for an element exactly when it holds an
      intersecting entry for it. */
  lemma {:induction false} RevealTimersExactly(entries: seq<RevealEntry>, x: Element)
    ensures x in TimerTargets(RevealTimers(entries)) <==>
      exists i :: 0 <= i < |entries| && entries[i].target == x && entries[i].isIntersecting
    decreases |entries|
  {
    if entries != [] {
      var init := entries[..|entries| - 1];
      var last := entries[|entries| - 1];
      RevealTimersExactly(init, x);
      var tail := if last.isIntersecting then [Timer(last.target, TimerDelay(last.delay))] else [];
      TimerTargetsAppend(RevealTimers(init), tail);
      assert forall i :: 0 <= i < |init| ==> init[i] == entries[i];
    }
  }

  /** A batch without an intersecting entry schedules nothing. */
  lemma {:induction false} QuietBatchSchedulesNothing(entries: seq<RevealEntry>)
    requires forall i :: 0 <= i < |entries| ==> !entries[i].isIntersecting
    ensures RevealTimers(entries) == []
    decreases |entries|
  {
    if entries != [] {
      QuietBatchSchedulesNothing(entries[..|entries| - 1]);
    }
  }

  /** As written, the callback does not ask whether an element is still
      observed: two intersecting entries for one element in a single batch
      schedule two reveals of it. */
  lemma RepeatedEntryRevealsTwice(e: RevealEntry)
    requires e.isIntersecting
    ensures RevealTimers([e, e]) == [Timer(e.target, TimerDelay(e.delay)), Timer(e.target, TimerDelay(e.delay))]
  {
    var t := Timer(e.target, TimerDelay(e.delay));
    assert [e][..0] == [];
    assert RevealTimers([e]) == [] + [t];
    assert [e, e][..1] == [e];
    assert RevealTimers([e, e]) == [t] + [t];
  }

  class RevealObserver {
    var observed: set<Element>
    var timers: seq<Timer>
    var visible: set<Element>
    /** Every element whose reveal was ever scheduled. */
    ghost var scheduled: set<Element>

    /** A scheduled element is never observed again; pending timers and
        revealed elements are all scheduled ones. */
    ghost predicate Valid()
      reads this
    {
      && scheduled !! observed
      && TimerTargets(timers) <= scheduled
      && visible <= scheduled
    }

    /** The observer starts out watching every `.reveal` element of the page. */
    constructor (elements: set<Element>)
      ensures Valid()
      ensures observed == elements && timers == [] && visible == {} && scheduled == {}
    {
      observed, timers, visible, scheduled := elements, [], {}, {};
    }

    /** The callback over one batch. Each intersecting entry starts a timer for
        its element and unobserves it; other entries change nothing. The
        platform delivers entries only for elements observed when the batch
        was collected. */
    method Deliver(entries: seq<RevealEntry>)
      requires Valid()
      requires forall i :: 0 <= i < |entries| ==> entries[i].target in observed
      modifies this
      ensures Valid()
      ensures timers == old(timers) + RevealTimers(entries)
      ensures observed == old(observed) - TimerTargets(RevealTimers(entries))
      ensures scheduled == old(scheduled) + TimerTargets(RevealTimers(entries))
      ensures visible == old(visible)
      ensures TimerTargets(RevealTimers(entries)) !! old(scheduled)
    {
      var i := 0;
      while i < |entries|
        invariant 0 <= i <= |entries|
        invariant timers == old(timers) + RevealTimers(entries[..i])
        invariant observed == old(observed) - TimerTargets(RevealTimers(entries[..i]))
        invariant scheduled == old(scheduled) + TimerTargets(RevealTimers(entries[..i]))
        invariant TimerTargets(RevealTimers(entries[..i])) <= old(observed)
        invariant visible == old(visible)
      {
        var entry := entries[i];
        assert entries[..i + 1][..i] == entries[..i];
        TimerTargetsAppend(RevealTimers(entries[..i]), [Timer(entry.target, TimerDelay(entry.delay))]);
        if entry.isIntersecting {
          timers := timers + [Timer(entry.target, TimerDelay(entry.delay))];
          observed := observed - {entry.target};
          scheduled := scheduled + {entry.target};
        }
        i := i + 1;
      }
      assert entries[..i] == entries;
      TimerTargetsAppend(old(timers), RevealTimers(entries));
    }

    /** The timer at index `k` fires (the platform picks which): its element
        gets `visible`. */
    method Fire(k: nat)
      requires Valid() && k < |timers|
      modifies this
      ensures Valid()
      ensures visible == old(visible) + {old(timers)[k].target}
      ensures timers == old(timers)[..k] + old(timers)[k + 1..]
      ensures observed == old(observed) && scheduled == old(scheduled)
    {
      var t := timers[k];
      assert t in timers;
      TimerTargetsAppend(timers[..k], timers[k + 1..]);
      assert timers == timers[..k] + [t] + timers[k + 1..];
      TimerTargetsAppend(timers[..k] + [t], timers[k + 1..]);
      TimerTargetsAppend(timers[..k], [t]);
      visible := visible + {t.target};
      timers := timers[..k] + timers[k + 1..];
    }
  }

  /* ---------------------------------------------------------------------- */
  /* Animated counters                                                       */

  /** One entry for a `.stat[data-target]` element, with its target attribute
      read as a decimal integer (`None` when it does not start with a number)
      and whether it has a `.counter` child. */
  datatype CounterEntry = CounterEntry(target: Element, isIntersecting: bool, parsed: Option<int>, hasCounter: bool)

  /** One counting animation started on `target`, counting up to `value` over
      1500 ms. */
  datatype Start = Start(target: Element, value: int)

  /** The entry starts an animation: intersecting, a number, a `.counter`. */
  predicate Starts(e: CounterEntry) {
    e.isIntersecting && e.parsed.Some? && e.hasCounter
  }

  function StartTargets(ss: seq<Start>): set<Element> {
    set s | s in ss :: s.target
  }

  /** The animations one batch starts, in entry order. */
  function CounterStarts(entries: seq<CounterEntry>): seq<Start>
    decreases |entries|
  {
    if entries == [] then []
    else
      var last := entries[|entries| - 1];
      CounterStarts(entries[..|entries| - 1])
        + (if Starts(last) then [Start(last.target, last.parsed.value)] else [])
  }

  lemma StartTargetsAppend(a: seq<Start>, b: seq<Start>)
    ensures StartTargets(a + b) == StartTargets(a) + StartTargets(b)
  {
    assert forall s :: s in a + b <==> s in a || s in b;
  }

  /** A batch starts an element's counter exactly when one of its entries for
      that element is intersecting, parses to a number and has a `.counter`;
      an element with only NaN or counter-less entries stays observed. */
  lemma {:induction false} CounterStartsExactly(entries: seq<CounterEntry>, x: Element)
    ensures x in StartTargets(CounterStarts(entries)) <==>
      exists i :: 0 <= i < |entries| && entries[i].target == x && Starts(entries[i])
    decreases |entries|
  {
    if entries != [] {
      var init := entries[..|entries| - 1];
      var last := entries[|entries| - 1];
      CounterStartsExactly(init, x);
      var tail := if Starts(last) then [Start(last.target, last.parsed.value)] else [];
      StartTargetsAppend(CounterStarts(init), tail);
      assert forall i :: 0 <= i < |init| ==> init[i] == entries[i];
    }
  }

  /** Every start carries the parsed target of an entry for its element. */
  lemma {:induction false} StartsComeFromEntries(entries: seq<CounterEntry>, k: nat)
    requires k < |CounterStarts(entries)|
    ensures exists i :: (0 <= i < |entries| && Starts(entries[i])
      && CounterStarts(entries)[k] == Start(entries[i].target, entries[i].parsed.value))
    decreases |entries|
  {
    var init := entries[..|entries| - 1];
    if k < |CounterStarts(init)| {
      StartsComeFromEntries(init, k);
      var i :| 0 <= i < |init| && Starts(init[i])
        && CounterStarts(init)[k] == Start(init[i].target, init[i].parsed.value);
      assert init[i] == entries[i];
    } else {
      assert Starts(entries[|entries| - 1]);
    }
  }

  /** A batch without an intersecting entry starts nothing. */
  lemma {:induction false} QuietBatchStartsNothing(entries: seq<CounterEntry>)
    requires forall i :: 0 <= i < |entries| ==> !entries[i].isIntersecting
    ensures CounterStarts(entries) == []
    decreases |entries|
  {
    if entries != [] {
      QuietBatchStartsNothing(entries[..|entries| - 1]);
    }
  }

  /** As written, two eligible entries for one element in a single batch
      start two animation runs for it. */
  lemma RepeatedEntryStartsTwice(e: CounterEntry)
    requires Starts(e)
    ensures CounterStarts([e, e]) == [Start(e.target, e.parsed.value), Start(e.target, e.parsed.value)]
  {
    var s := Start(e.target, e.parsed.value);
    assert [e][..0] == [];
    assert CounterStarts([e]) == [] + [s];
    assert [e, e][..1] == [e];
    assert CounterStarts([e, e]) == [s] + [s];
  }

  class CounterObserver {
    var observed: set<Element>
    var runs: seq<Start>

    /** An element whose counter was started is never observed again. */
    ghost predicate Valid()
      reads this
    {
      StartTargets(runs) !! observed
    }

    /** The observer starts out watching every `.stat` element that carries a
        target attribute. */
    constructor (elements: set<Element>)
      ensures Valid() && observed == elements && runs == []
    {
      observed, runs := elements, [];
    }

    /** The callback over one batch: each eligible entry starts a run and
        unobserves its element; the rest, including intersecting entries with
        a NaN target or no `.counter`, change nothing. The platform delivers
        entries only for elements observed when the batch was collected, so no
        element started in an earlier batch starts again. */
    method Deliver(entries: seq<CounterEntry>)
      requires Valid()
      requires forall i :: 0 <= i < |entries| ==> entries[i].target in observed
      modifies this
      ensures Valid()
      ensures runs == old(runs) + CounterStarts(entries)
      ensures observed == old(observed) - StartTargets(CounterStarts(entries))
      ensures StartTargets(CounterStarts(entries)) !! StartTargets(old(runs))
    {
      var i := 0;
      while i < |entries|
        invariant 0 <= i <= |entries|
        invariant runs == old(runs) + CounterStarts(entries[..i])
        invariant observed == old(observed) - StartTargets(CounterStarts(entries[..i]))
        invariant StartTargets(CounterStarts(entries[..i])) <= old(observed)
      {
        var entry := entries[i];
        assert entries[..i + 1][..i] == entries[..i];
        if Starts(entry) {
          StartTargetsAppend(CounterStarts(entries[..i]), [Start(entry.target, entry.parsed.value)]);
          runs := runs + [Start(entry.target, entry.parsed.value)];
          observed := observed - {entry.target};
        }
        i := i + 1;
      }
      assert entries[..i] == entries;
      StartTargetsAppend(old(runs), CounterStarts(entries));
    }
  }

  /** The counting animation the observer starts for one of its `Start`
      records, at clock reading `now`: a fresh run towards the parsed target
      over `Counter.Duration`, with its first frame requested and nothing
      written yet. */
  method StartRun(s: Start, now: int) returns (run: Counter.CounterRun)
    ensures fresh(run) && run.Valid()
    ensures run.start == now && run.target == s.value && run.duration == Counter.Duration
    ensures run.text == None && run.pending && run.written == []
  {
    run := new Counter.CounterRun(now, s.value, Counter.Duration);
  }
}
