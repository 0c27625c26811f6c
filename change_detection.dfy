/**
 The positional change detector of api/index.mjs (checkForChanges) as pure
 functions over the stored snapshot and the newly fetched list. The class
 that holds the snapshot and calls these lives in module Handler.
 */
module ChangeDetection {
  import opened Events

  /** What one call of checkForChanges ends in: a boolean return, or the
      TypeError thrown when the new list is longer than a non-empty
      snapshot. */
  datatype CheckResult = Changed(changed: bool) | Error

  /** The result of a call together with the snapshot it leaves behind. */
  datatype Transition = Transition(result: CheckResult, snapshot: seq<Event>)

  /** The five fields the filter compares; the id is not among them. */
  predicate FieldsDiffer(newEvent: Event, prevEvent: Event) {
    newEvent.title != prevEvent.title ||
    newEvent.startTime != prevEvent.startTime ||
    newEvent.endTime != prevEvent.endTime ||
    newEvent.location != prevEvent.location ||
    newEvent.content != prevEvent.content
  }

  /** Some position of the new list differs from the same position of the
      snapshot. */
  ghost predicate SomePositionDiffers(newEvents: seq<Event>, previous: seq<Event>)
    requires |newEvents| <= |previous|
  {
    exists i :: 0 <= i < |newEvents| && FieldsDiffer(newEvents[i], previous[i])
  }

  /** `newEvents.filter((newEvent, index) => ...)` against `previous`:
      `None` when some index has no counterpart in `previous`, where
      reading `.title` of `undefined` throws. */
  function Changes(newEvents: seq<Event>, previous: seq<Event>): (r: Option<seq<Event>>)
    ensures r.None? <==> |newEvents| > |previous|
    ensures r.Some? ==> |r.value| <= |newEvents|
    ensures r.Some? ==> forall e :: e in r.value ==> e in newEvents
    ensures r.Some? ==> forall e :: e in r.value ==>
      exists i :: 0 <= i < |newEvents| && i < |previous| && newEvents[i] == e && FieldsDiffer(newEvents[i], previous[i])
    ensures r.Some? ==> forall i :: 0 <= i < |newEvents| && i < |previous| && FieldsDiffer(newEvents[i], previous[i]) ==>
      newEvents[i] in r.value
    ensures r.Some? ==> (|r.value| > 0 <==> SomePositionDiffers(newEvents, previous))
    decreases |newEvents|
  {
    if newEvents == [] then Some([])
    else if previous == [] then None
    else
      match Changes(newEvents[1..], previous[1..])
      case None => None
      case Some(rest) =>
        var kept := if FieldsDiffer(newEvents[0], previous[0]) then [newEvents[0]] + rest else rest;
        ChangesStep(newEvents, previous, rest, kept);
        Some(kept)
  }

  /** The filter's step from the tails to the whole lists: the event at
      index 0 is kept exactly when it differs from its counterpart. */
  lemma ChangesStep(newEvents: seq<Event>, previous: seq<Event>, rest: seq<Event>, kept: seq<Event>)
    requires newEvents != [] && |newEvents| <= |previous|
    requires |rest| <= |newEvents| - 1
    requires forall e :: e in rest ==> e in newEvents[1..]
    requires forall e :: e in rest ==>
      exists i :: 0 <= i < |newEvents[1..]| && i < |previous[1..]| && newEvents[1..][i] == e && FieldsDiffer(newEvents[1..][i], previous[1..][i])
    requires forall i :: 0 <= i < |newEvents[1..]| && i < |previous[1..]| && FieldsDiffer(newEvents[1..][i], previous[1..][i]) ==>
      newEvents[1..][i] in rest
    requires |rest| > 0 <==> SomePositionDiffers(newEvents[1..], previous[1..])
    requires kept == if FieldsDiffer(newEvents[0], previous[0]) then [newEvents[0]] + rest else rest
    ensures |kept| <= |newEvents|
    ensures forall e :: e in kept ==> e in newEvents
    ensures forall e :: e in kept ==>
      exists i :: 0 <= i < |newEvents| && i < |previous| && newEvents[i] == e && FieldsDiffer(newEvents[i], previous[i])
    ensures forall i :: 0 <= i < |newEvents| && i < |previous| && FieldsDiffer(newEvents[i], previous[i]) ==>
      newEvents[i] in kept
    ensures |kept| > 0 <==> SomePositionDiffers(newEvents, previous)
  {
    DiffersStep(newEvents, previous);
    forall e | e in kept
      ensures e in newEvents
      ensures exists i :: 0 <= i < |newEvents| && i < |previous| && newEvents[i] == e && FieldsDiffer(newEvents[i], previous[i])
    {
      KeptDiffers(newEvents, previous, rest, kept, e);
    }
    forall i | 0 <= i < |newEvents| && i < |previous| && FieldsDiffer(newEvents[i], previous[i]) ensures newEvents[i] in kept {
      if i > 0 {
        assert newEvents[1..][i - 1] == newEvents[i] && previous[1..][i - 1] == previous[i];
      }
    }
  }

  /** A position differs in the whole lists iff it is index 0 or a position
      of the tails. */
  lemma DiffersStep(newEvents: seq<Event>, previous: seq<Event>)
    requires newEvents != [] && |newEvents| <= |previous|
    ensures SomePositionDiffers(newEvents, previous) <==>
      FieldsDiffer(newEvents[0], previous[0]) || SomePositionDiffers(newEvents[1..], previous[1..])
  {
    if SomePositionDiffers(newEvents[1..], previous[1..]) {
      var j :| 0 <= j < |newEvents| - 1 && FieldsDiffer(newEvents[1..][j], previous[1..][j]);
      assert FieldsDiffer(newEvents[j + 1], previous[j + 1]);
    }
    if SomePositionDiffers(newEvents, previous) && !FieldsDiffer(newEvents[0], previous[0]) {
      var j :| 0 <= j < |newEvents| && FieldsDiffer(newEvents[j], previous[j]);
      assert j > 0;
      assert FieldsDiffer(newEvents[1..][j - 1], previous[1..][j - 1]);
    }
  }

  /** An event kept at the step comes from a differing position. */
  lemma KeptDiffers(newEvents: seq<Event>, previous: seq<Event>, rest: seq<Event>, kept: seq<Event>, e: Event)
    requires newEvents != [] && |newEvents| <= |previous|
    requires forall e :: e in rest ==>
      exists i :: 0 <= i < |newEvents[1..]| && i < |previous[1..]| && newEvents[1..][i] == e && FieldsDiffer(newEvents[1..][i], previous[1..][i])
    requires kept == if FieldsDiffer(newEvents[0], previous[0]) then [newEvents[0]] + rest else rest
    requires e in kept
    ensures e in newEvents
    ensures exists i :: 0 <= i < |newEvents| && i < |previous| && newEvents[i] == e && FieldsDiffer(newEvents[i], previous[i])
  {
    if e in rest {
      var j :| 0 <= j < |newEvents[1..]| && j < |previous[1..]| && newEvents[1..][j] == e && FieldsDiffer(newEvents[1..][j], previous[1..][j]);
      assert newEvents[j + 1] == e && FieldsDiffer(newEvents[j + 1], previous[j + 1]);
    } else {
      assert newEvents[0] == e && FieldsDiffer(newEvents[0], previous[0]);
    }
  }

  /** One call of checkForChanges on the snapshot `previous`. */
  function Step(previous: seq<Event>, newEvents: seq<Event>): (t: Transition)
    ensures previous == [] ==> t == Transition(Changed(false), newEvents)
    ensures previous != [] && |newEvents| > |previous| ==> t == Transition(Error, previous)
    ensures previous != [] && |newEvents| <= |previous| ==>
      t == Transition(Changed(SomePositionDiffers(newEvents, previous)), newEvents)
  {
    if |previous| == 0 then Transition(Changed(false), newEvents)
    else
      match Changes(newEvents, previous)
      case None => Transition(Error, previous)
      case Some(changes) => Transition(Changed(|changes| > 0), newEvents)
  }

  /** Two consecutive calls with the same list: the second reports no
      change, unless the first one threw, in which case the second throws
      too. */
  lemma RepeatReportsNoChange(previous: seq<Event>, newEvents: seq<Event>)
    ensures var first := Step(previous, newEvents);
            var second := Step(first.snapshot, newEvents);
            if first.result == Error then second == first else second == Transition(Changed(false), newEvents)
  {
    var first := Step(previous, newEvents);
    if first.result != Error && newEvents != [] {
      assert !SomePositionDiffers(newEvents, newEvents);
    }
  }

  /** After a call with the empty list the next call is again a first
      observation: it reports no change and stores whatever it is given. */
  lemma EmptyListResetsDetector(previous: seq<Event>, next: seq<Event>)
    ensures Step(previous, []).result == Changed(false)
    ensures Step(Step(previous, []).snapshot, next) == Transition(Changed(false), next)
  {
  }

  /** Events past the end of the new list are never looked at. */
  lemma TailNotExamined(previous: seq<Event>, tail: seq<Event>, newEvents: seq<Event>)
    requires |newEvents| <= |previous|
    ensures Step(previous + tail, newEvents).result == Step(previous, newEvents).result
  {
    var longer := previous + tail;
    assert forall i :: 0 <= i < |newEvents| ==> longer[i] == previous[i];
  }

  /** In particular a new list that is a prefix of the snapshot, and the
      empty list, report no change. */
  lemma PrefixReportsNoChange(previous: seq<Event>, k: nat)
    requires previous != [] && k <= |previous|
    ensures Step(previous, previous[..k]).result == Changed(false)
  {
    assert !SomePositionDiffers(previous[..k], previous);
  }

  /** Lists that agree everywhere except in the ids report no change: the
      id is never compared. */
  lemma IdsAreNotCompared(previous: seq<Event>, newEvents: seq<Event>)
    requires previous != [] && |newEvents| <= |previous|
    requires forall i :: 0 <= i < |newEvents| ==> newEvents[i] == previous[i].(id := newEvents[i].id)
    ensures Step(previous, newEvents).result == Changed(false)
  {
  }

  /** Swapping two events whose titles differ is reported as a change,
      although no event's content changed: the comparison is by position. */
  lemma ReorderingIsAChange(a: Event, b: Event)
    requires a.title != b.title
    ensures Step([a, b], [b, a]).result == Changed(true)
  {
    assert FieldsDiffer([b, a][0], [a, b][0]);
  }

  /** A list longer than a non-empty snapshot makes the call throw, and
      since the snapshot is not replaced, every later call with a list that
      long throws as well. */
  lemma {:induction false} GrowthFailsOnEveryRetry(previous: seq<Event>, newEvents: seq<Event>, n: nat)
    requires previous != [] && |newEvents| > |previous|
    ensures Iterate(previous, newEvents, n) == Transition(Error, previous)
  {
    if n > 1 {
      GrowthFailsOnEveryRetry(previous, newEvents, n - 1);
    }
  }

  /** `n` consecutive calls (n >= 1) with the same list, starting from
      `previous`. */
  function Iterate(previous: seq<Event>, newEvents: seq<Event>, n: nat): Transition
    decreases n
  {
    if n <= 1 then Step(previous, newEvents)
    else Step(Iterate(previous, newEvents, n - 1).snapshot, newEvents)
  }
}
