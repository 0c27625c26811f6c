/**
 The `/calendar.ics` request handler of api/index.mjs and the module-level
 snapshot `previousEvents` it shares across requests.

 The upstream fetch and the iCalendar encoder are inputs: the fetch as its
 outcome, the encoder as a function from entries to an encoding result. The
 notification email is recorded in a ghost log, one entry per dispatch.
 */
module Handler {
  import opened Events
  import opened ChangeDetection
  import opened Feed

  /** What fetchEvents' POST to the GraphQL endpoint yields: the raw
      `events` list, or a rejection. */
  datatype FetchResult = Fetched(events: seq<RawEvent>) | FetchError

  /** What `createEvents` returns: `{ value }` or `{ error }`. */
  datatype BuildResult = Built(value: string) | BuildError

  /** The response the handler sends. */
  datatype Response = Calendar(body: string) | InternalServerError

  /** Everything one request decides: the response, the snapshot it leaves,
      and the list it dispatched a notification for, if any. */
  datatype Outcome = Outcome(response: Response, snapshot: seq<Event>, notified: Option<seq<Event>>)

  /** One request, in the handler's order: fetch, change check, optional
      notification, entry build, encoding, response. */
  function Handle(previous: seq<Event>, fetched: FetchResult, createEvents: seq<Entry> -> BuildResult): (o: Outcome)
    ensures o.snapshot == previous || (fetched.Fetched? && o.snapshot == NormalizeAll(fetched.events))
    ensures o.notified.Some? ==> fetched.Fetched? && o.snapshot == NormalizeAll(fetched.events) && o.notified.value == o.snapshot
    ensures o.response.Calendar? ==>
      fetched.Fetched? && o.snapshot == NormalizeAll(fetched.events) &&
      createEvents(ToEntries(o.snapshot)).Built? &&
      o.response.body == CalendarHeader + createEvents(ToEntries(o.snapshot)).value + CalendarFooter
  {
    match fetched
    case FetchError => Outcome(InternalServerError, previous, None)
    case Fetched(raws) =>
      var newEvents := NormalizeAll(raws);
      var t := Step(previous, newEvents);
      match t.result
      case Error => Outcome(InternalServerError, t.snapshot, None)
      case Changed(changed) =>
        var notified := if changed then Some(newEvents) else None;
        match createEvents(ToEntries(newEvents))
        case BuildError => Outcome(InternalServerError, t.snapshot, notified)
        case Built(value) => Outcome(Calendar(CalendarContent(value)), t.snapshot, notified)
  }

  /** A failed fetch answers 500 and changes nothing. */
  lemma FetchFailureChangesNothing(previous: seq<Event>, createEvents: seq<Entry> -> BuildResult)
    ensures Handle(previous, FetchError, createEvents) == Outcome(InternalServerError, previous, None)
  {
  }

  /** A notification goes out exactly when the detector reports a change,
      that is when the snapshot was non-empty, the new list is no longer,
      and some position differs; it carries the whole new list. */
  lemma NotifiedIffChanged(previous: seq<Event>, raws: seq<RawEvent>, createEvents: seq<Entry> -> BuildResult)
    ensures var newEvents := NormalizeAll(raws);
            var o := Handle(previous, Fetched(raws), createEvents);
            (o.notified.Some? <==>
               previous != [] && |newEvents| <= |previous| && SomePositionDiffers(newEvents, previous)) &&
            (o.notified.Some? ==> o.notified.value == newEvents)
  {
  }

  /** The detector and the notification run before the build: when the
      encoder fails the response is 500, yet the snapshot already holds the
      new list and a detected change has already been notified. */
  lemma BuildFailureKeepsEarlierEffects(previous: seq<Event>, raws: seq<RawEvent>, createEvents: seq<Entry> -> BuildResult)
    requires Step(previous, NormalizeAll(raws)).result != Error
    requires createEvents(ToEntries(NormalizeAll(raws))) == BuildError
    ensures var o := Handle(previous, Fetched(raws), createEvents);
            o.response == InternalServerError && o.snapshot == NormalizeAll(raws) &&
            (o.notified == Some(NormalizeAll(raws)) <==> Step(previous, NormalizeAll(raws)).result == Changed(true))
  {
  }

  /** A new list longer than a non-empty snapshot answers 500, sends
      nothing and leaves the snapshot as it was. */
  lemma GrowthAnswers500(previous: seq<Event>, raws: seq<RawEvent>, createEvents: seq<Entry> -> BuildResult)
    requires previous != [] && |raws| > |previous|
    ensures Handle(previous, Fetched(raws), createEvents) == Outcome(InternalServerError, previous, None)
  {
  }

  /** A successful response is the envelope around the encoder's value,
      whatever the detector reported. */
  lemma SuccessIsEnvelope(previous: seq<Event>, raws: seq<RawEvent>, createEvents: seq<Entry> -> BuildResult, value: string)
    requires Step(previous, NormalizeAll(raws)).result != Error
    requires createEvents(ToEntries(NormalizeAll(raws))) == Built(value)
    ensures var o := Handle(previous, Fetched(raws), createEvents);
            o.response == Calendar(CalendarHeader + value + CalendarFooter) &&
            ParseCalendar(o.response.body) == Some(value) &&
            o.snapshot == NormalizeAll(raws)
  {
    CalendarRoundTrip(value);
  }

  /** Every response with a body carries the envelope, and the value in
      it is what the encoder returned for the fetched events. */
  lemma BodyComesFromEncoder(previous: seq<Event>, fetched: FetchResult, createEvents: seq<Entry> -> BuildResult)
    ensures var o := Handle(previous, fetched, createEvents);
            o.response.Calendar? ==>
              fetched.Fetched? &&
              ParseCalendar(o.response.body).Some? &&
              createEvents(ToEntries(NormalizeAll(fetched.events))) == Built(ParseCalendar(o.response.body).value)
  {
    var o := Handle(previous, fetched, createEvents);
    if o.response.Calendar? {
      var value := createEvents(ToEntries(NormalizeAll(fetched.events))).value;
      CalendarRoundTrip(value);
    }
  }

  /** The same request twice in a row, against an unchanged upstream and
      an encoder that gives equal values for equal entries, gets the same
      response both times, and the second one sends no notification and
      leaves the snapshot where the first left it. */
  lemma RepeatRequestIsIdempotent(previous: seq<Event>, fetched: FetchResult, createEvents: seq<Entry> -> BuildResult)
    ensures var first := Handle(previous, fetched, createEvents);
            var second := Handle(first.snapshot, fetched, createEvents);
            second.response == first.response && second.notified == None && second.snapshot == first.snapshot
  {
    if fetched.Fetched? {
      RepeatReportsNoChange(previous, NormalizeAll(fetched.events));
    }
  }

  /** The running process: the snapshot shared by all requests, and a log
      of the lists notifications were dispatched for. */
  class App {
    var previousEvents: seq<Event>
    ghost var notifications: seq<seq<Event>>

    /** At start-up nothing has been observed or sent. */
    constructor ()
      ensures previousEvents == [] && notifications == []
    {
      previousEvents := [];
      notifications := [];
    }

    /** checkForChanges: the first observation is stored and reports no
        change; later ones compare position by position and replace the
        snapshot, unless a longer list makes the comparison throw first. */
    method CheckForChanges(newEvents: seq<Event>) returns (r: CheckResult)
      modifies this`previousEvents
      ensures old(previousEvents) == [] ==> r == Changed(false) && previousEvents == newEvents
      ensures old(previousEvents) != [] && |newEvents| > |old(previousEvents)| ==>
        r == Error && previousEvents == old(previousEvents)
      ensures old(previousEvents) != [] && |newEvents| <= |old(previousEvents)| ==>
        r == Changed(SomePositionDiffers(newEvents, old(previousEvents))) && previousEvents == newEvents
      ensures Transition(r, previousEvents) == Step(old(previousEvents), newEvents)
    {
      if |previousEvents| == 0 {
        previousEvents := newEvents;
        return Changed(false);
      }
      var changes := Changes(newEvents, previousEvents);
      if changes.None? {
        return Error;
      }
      previousEvents := newEvents;
      r := Changed(|changes.value| > 0);
    }

    /** sendNotificationEmail: fire and forget; only the dispatch is kept. */
    method SendNotificationEmail(changes: seq<Event>)
      modifies this`notifications
      ensures notifications == old(notifications) + [changes]
    {
      notifications := notifications + [changes];
    }

    /** The `/calendar.ics` handler, with its early returns. */
    method HandleCalendarRequest(fetched: FetchResult, createEvents: seq<Entry> -> BuildResult) returns (response: Response)
      modifies this
      ensures var o := Handle(old(previousEvents), fetched, createEvents);
              response == o.response && previousEvents == o.snapshot &&
              notifications == old(notifications) + (if o.notified.Some? then [o.notified.value] else [])
    {
      if fetched.FetchError? {
        return InternalServerError;
      }
      var newEvents := NormalizeAll(fetched.events);
      var eventsChanged := CheckForChanges(newEvents);
      if eventsChanged.Error? {
        return InternalServerError;
      }
      if eventsChanged.changed {
        SendNotificationEmail(newEvents);
      }
      var events := ToEntries(newEvents);
      var built := createEvents(events);
      if built.BuildError? {
        return InternalServerError;
      }
      response := Calendar(CalendarContent(built.value));
    }
  }

  /** Two requests against a freshly started process with the same
      upstream list and a deterministic encoder get the same response: the
      first only records the list and the second finds no change. */
  method TwoRequestsFromStartUp(raws: seq<RawEvent>, createEvents: seq<Entry> -> BuildResult)
    returns (first: Response, second: Response)
    ensures first == second
  {
    var app := new App();
    first := app.HandleCalendarRequest(Fetched(raws), createEvents);
    assert app.previousEvents == NormalizeAll(raws);
    second := app.HandleCalendarRequest(Fetched(raws), createEvents);
    RepeatRequestIsIdempotent([], Fetched(raws), createEvents);
    assert app.notifications == [];
  }
}
