# aleph-calendar: a verified model of the calendar-feed handler

The service answers `GET /calendar.ics`. Each request fetches the group's
events from a GraphQL API and normalises them. It then compares them, position by
position, with the module-level snapshot `previousEvents`: the list stored by
the last request that got past the comparison (a failed fetch or a
comparison that throws leaves it as it was). If something changed it
e-mails a notification. It then
turns every event into an iCalendar entry, has the `ics` library encode the
entries, and wraps the result in a hand-built `VCALENDAR` envelope.

This project models that core in Dafny and proves what it does:

- `events.dfy` (module `Events`): raw and normalised event records, and the
  normalising `map` of `fetchEvents`, with its placeholders for falsy
  `location` and `content`.
- `change_detection.dfy` (module `ChangeDetection`): `checkForChanges` as a pure
  transition `Step(previous, newEvents)`, with the positional `filter` as
  `Changes`.
- `timestamps.dfy` (module `Timestamps`): `split(/[-T:.Z]/)` and `map(Number)`
  over timestamps.
- `feed.dfy` (module `Feed`): the calendar entry of each event, its description,
  `String.prototype.replace` with a string pattern and a `$`-free
  replacement, and the envelope.
- `handler.dfy` (module `Handler`): the request handler as a pure function
  `Handle`, and a class `App` whose field `previousEvents` is the snapshot and
  whose methods `CheckForChanges` and `HandleCalendarRequest` update it in
  place, proved against `Step` and `Handle`.

The upstream fetch is an input (`Fetched(events)` or `FetchError`). The
`createEvents` encoder is a function parameter returning `Built(value)` or
`BuildError`. The notification e-mail is a ghost log of dispatched lists.

### A longer list is not ignored

When the snapshot is non-empty and the new list is longer, the positional
comparison does not skip the extra events. At the first extra index
`previousEvents[index]` is `undefined`, and reading `.title` from it throws a
`TypeError` (api/index.mjs:66-68). The throw comes before the snapshot is
replaced (line 77), so the request ends in the `catch` with a 500 (lines
133-135) and the snapshot keeps its old value.
`ChangeDetection.GrowthFailsOnEveryRetry` shows the consequence: as long as
upstream returns the longer list, every later request fails the same way,
because nothing ever replaces the shorter snapshot.

Only the events beyond the end of the NEW list are never looked at
(`ChangeDetection.TailNotExamined`). So a shorter or empty new list reports
no change for the missing events.

## Model

| member | source | states |
|---|---|---|
| `Events.Normalize` | api/index.mjs:47-54 | id, title, start and end time are copied; location and content become the fixed placeholder exactly when the source value is null, undefined or empty, and are kept otherwise; the result never has an empty location or content |
| `Events.NormalizeAll` | api/index.mjs:47-54 | one normalised event per raw event, in order, each the normalisation of its raw event: fields copied, a non-falsy location or content kept, a placeholder exactly for a falsy one (or for a raw value that was the placeholder text itself) |
| `Events.NormalizeIdempotent` | api/index.mjs:52-53 | normalising an already normalised event gives it back unchanged |
| `Events.NormalizedIsFixedPoint` | api/index.mjs:52-53 | an event with non-empty location and content is a fixed point of normalisation |
| `ChangeDetection.Changes` | api/index.mjs:65-74 | the positional filter throws exactly when the new list is longer than the snapshot; otherwise every kept event is an event of the new list that differs from its counterpart in title, start time, end time, location or content, every such differing event is kept, and the result is non-empty iff some position differs |
| `ChangeDetection.Step` | api/index.mjs:57-79 | empty snapshot: reports no change and stores the new list, even an empty one; new list longer than a non-empty snapshot: throws and keeps the snapshot; otherwise reports whether some shared position differs and stores the new list |
| `ChangeDetection.RepeatReportsNoChange` | api/index.mjs:57-79 | a second call with the same list reports no change, or throws again when the first call threw |
| `ChangeDetection.EmptyListResetsDetector` | api/index.mjs:59-63 | after a call with the empty list, the next call is treated as a first observation |
| `ChangeDetection.TailNotExamined` | api/index.mjs:65-74 | snapshot events past the end of the new list do not affect the result, including for the empty new list |
| `ChangeDetection.PrefixReportsNoChange` | api/index.mjs:65-78 | a prefix of the snapshot, including the empty list, reports no change |
| `ChangeDetection.IdsAreNotCompared` | api/index.mjs:67-73 | lists that differ only in ids report no change |
| `ChangeDetection.ReorderingIsAChange` | api/index.mjs:65-74 | swapping two events with different titles is reported as a change |
| `ChangeDetection.GrowthFailsOnEveryRetry` | api/index.mjs:65-77 | with a non-empty snapshot and a longer new list, any number of repeated calls all throw and the snapshot never changes |
| `Timestamps.Split` | api/index.mjs:110-111 | splitting on `[-T:.Z]` gives one piece more than there are delimiter occurrences, and no piece contains a delimiter |
| `Timestamps.RejoinSplit` | api/index.mjs:110-111 | rejoining the pieces with the original delimiters gives the input back |
| `Timestamps.SplitRejoin` | api/index.mjs:110-111 | splitting pieces that were joined with delimiters gives back those pieces and delimiters |
| `Timestamps.NumberOf` | api/index.mjs:111 | `Number` of a piece gives a value exactly for digit strings; the empty piece reads as 0, an n-digit piece reads below 10^n, and a leading zero is dropped |
| `Timestamps.Components` | api/index.mjs:110-111 | a timestamp yields one component per piece of its split, each `Number` of that piece |
| `Timestamps.LeadingZeroIgnored` | api/index.mjs:110-111 | a leading zero does not change the decimal value that `Number` reads from a piece (`"06"` reads as 6) |
| `Timestamps.DecimalValueBound` | api/index.mjs:110-111 | the decimal value of a piece of length n is below 10^n |
| `Timestamps.DigitFieldComponents` | api/index.mjs:110-111 | a timestamp whose pieces are digit fields and a final empty piece gives one component per field, each that field's decimal value, and a final 0 |
| `Timestamps.IsoTimestampComponents` | api/index.mjs:110-111 | a timestamp `YYYY-MM-DDThh:mm:ss.fffZ` built from seven digit fields gives eight components: the values of the seven fields and a final 0 |
| `Timestamps.TrailingZGivesZero` | api/index.mjs:110-111 | any timestamp ending in `Z` gives 0 as its last component |
| `Feed.Description` | api/index.mjs:113 | the description is the link prefix, then the id, then a blank line, then the content, at those exact positions |
| `Feed.DescriptionRoundTrip` | api/index.mjs:113 | when the id holds no newline, reading back the description gives the id and the content |
| `Feed.ParsedDescriptionIsBuilt` | api/index.mjs:113 | anything that parses as a description is the link prefix, the parsed id, a blank line and the parsed content |
| `Feed.ToEntry` | api/index.mjs:109-116 | an entry passes title and location through, has status `CONFIRMED`, has as start and end the components of the event's start and end times (one per timestamp piece), and has as description the template applied to id and content, from which both can be read back when the id holds no newline |
| `Feed.ToEntries` | api/index.mjs:109-116 | one entry per event, in order, each the entry of its event, so all of `Feed.ToEntry` holds for each of them |
| `Feed.ReplaceFirst` | api/index.mjs:127 | without an occurrence of the pattern the string is returned unchanged; otherwise its first occurrence, and only that one, is replaced |
| `Feed.ReplaceWithItself` | api/index.mjs:127 | replacing the first occurrence of a `$`-free pattern by itself leaves any string unchanged |
| `Feed.CalendarContent` | api/index.mjs:126-127 | the document is the fixed header (version, product id, calendar name), then the encoder's output unchanged, then `\nEND:VCALENDAR` |
| `Feed.CalendarRoundTrip` | api/index.mjs:126-127 | stripping the envelope gives the encoder's output back |
| `Feed.ParsedCalendarIsBuilt` | api/index.mjs:126-127 | any document with the envelope is the envelope around the text it holds |
| `Handler.Handle` | api/index.mjs:99-137 | one request either keeps the snapshot or replaces it with the new list; a notification carries that new list, which has then been stored; a body is the envelope around what the encoder returned for the entries of the stored list |
| `Handler.FetchFailureChangesNothing` | api/index.mjs:102 | a failed fetch answers 500, keeps the snapshot and sends nothing |
| `Handler.NotifiedIffChanged` | api/index.mjs:103-107 | a notification is dispatched iff the snapshot was non-empty, the new list is no longer, and some position differs; it carries the whole new list |
| `Handler.BuildFailureKeepsEarlierEffects` | api/index.mjs:103-124 | when the encoder fails the response is 500, but the snapshot already holds the new list and a detected change has already been notified |
| `Handler.GrowthAnswers500` | api/index.mjs:66-68 | a list longer than a non-empty snapshot answers 500, sends nothing and keeps the snapshot |
| `Handler.SuccessIsEnvelope` | api/index.mjs:119-132 | on success the body is the envelope around the encoder's output, and the snapshot holds the new list |
| `Handler.BodyComesFromEncoder` | api/index.mjs:119-127 | every body comes from a successful fetch, and the text inside its envelope is what the encoder returned for the fetched events |
| `Handler.RepeatRequestIsIdempotent` | api/index.mjs:99-137 | with the encoder taken as deterministic (equal entries give an equal value), the same request twice gives the same response; whatever the encoder does, the second sends no notification and leaves the snapshot unchanged |
| `Handler.App.constructor` | api/index.mjs:21 | the snapshot starts empty and nothing has been sent |
| `Handler.App.CheckForChanges` | api/index.mjs:57-79 | result and new snapshot as in `Step`, by three cases: first observation, longer list that throws, and positional comparison |
| `Handler.App.SendNotificationEmail` | api/index.mjs:81-97 | one dispatch with the given list is logged |
| `Handler.App.HandleCalendarRequest` | api/index.mjs:99-137 | the response, the new snapshot and the notification log are those of `Handle` |
| `Handler.TwoRequestsFromStartUp` | api/index.mjs:21 | on a fresh process, two requests with the same upstream list get the same response, with the encoder taken as deterministic |

## Left out

- Express setup, routing, body parsing, response headers and `app.listen` with its port default: HTTP plumbing. The response is only `Calendar(body)` or `InternalServerError`.
- The GraphQL query and the axios POST: network I/O. The fetch is an input: a raw event list, or a failure. This includes a response that lacks `data.events`.
- Mailgun and the `send` callback: a foreign, asynchronous, fire-and-forget call. Only the dispatch is logged. The message text (`JSON.stringify` of the list) and delivery errors are not modelled.
- `ics.createEvents`: a foreign library. It is a function parameter that returns a value or an error. So the model says nothing about the text of that value, which the library makes a complete calendar of its own, nested inside the hand-built envelope. As a function the encoder is modelled as deterministic: equal entries give an equal value. The entries carry no `uid` and no `timestamp`, so the library fills in a generated UID and a DTSTAMP of the current time on each call. `RepeatRequestIsIdempotent` and `TwoRequestsFromStartUp` therefore hold only up to those lines.
- Timestamps.NumberOf: covers only digit strings and the empty string. `Number` of any other piece (NaN, signs, time-zone offsets, whitespace) is `None`, because those are JavaScript numeric semantics. The value is an exact integer, while `Number` returns an IEEE double that is exact only below 2^53 (`Number("9007199254740993")` is 9007199254740992). Fields of the upstream timestamp format have at most four digits and are unaffected.
- Feed.ReplaceFirst: requires a replacement without `$`, because the `$&`, `` $` ``, `$'` and `$$` substitution patterns of `String.prototype.replace` are not modelled. The replacement at line 127 contains no `$`.
- Events.RawEvent: ids are the text they render to in the description template. The numeric type of upstream ids and non-string titles or timestamps are not modelled.
- `dotenv`, `process.env` and all console logging: configuration and logging, with no behaviour to verify.
- Feed.CalendarContent: the envelope uses `\n` line ends and no final line end, exactly as the code does. The model does not claim this matches the CRLF lines of RFC 5545 section 3.4.
- Interleaving of overlapping requests at the `await` on the fetch: each request's check-and-replace runs without interruption, so the model's steps apply in whatever order the requests reach it.
