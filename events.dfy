/**
 The event records the feed works on: the raw records returned by the
 upstream GraphQL query, and the normalised records the rest of the program
 uses (api/index.mjs, fetchEvents).
 */
module Events {

  datatype Option<+T> = None | Some(value: T)

  /** One item of the upstream `events` list. `location` and `content` are
      nullable there; `None` stands for `null` or a missing field. The id is
      kept as the text it renders to in a template literal. */
  datatype RawEvent = RawEvent(
    id: string,
    title: string,
    startTime: string,
    endTime: string,
    location: Option<string>,
    content: Option<string>)

  /** A normalised event: location and content are always present. */
  datatype Event = Event(
    id: string,
    title: string,
    startTime: string,
    endTime: string,
    location: string,
    content: string)

  const NoLocation: string := "No location provided."
  const NoDescription: string := "No description provided."

  /** A nullable string field is falsy in JavaScript when it is null,
      undefined or the empty string. */
  predicate Falsy(v: Option<string>) {
    v.None? || v.value == ""
  }

  /** `v || fallback` on a nullable string field. */
  function OrElse(v: Option<string>, fallback: string): string {
    if Falsy(v) then fallback else v.value
  }

  /** The record built for each upstream item by the `map` in fetchEvents. */
  function Normalize(raw: RawEvent): (e: Event)
    ensures e.id == raw.id && e.title == raw.title
    ensures e.startTime == raw.startTime && e.endTime == raw.endTime
    ensures Falsy(raw.location) ==> e.location == NoLocation
    ensures !Falsy(raw.location) ==> e.location == raw.location.value
    ensures Falsy(raw.content) ==> e.content == NoDescription
    ensures !Falsy(raw.content) ==> e.content == raw.content.value
    ensures e.location != "" && e.content != ""
  {
    Event(raw.id, raw.title, raw.startTime, raw.endTime,
          OrElse(raw.location, NoLocation), OrElse(raw.content, NoDescription))
  }

  /** The upstream view of a normalised event. */
  function ToRaw(e: Event): RawEvent {
    RawEvent(e.id, e.title, e.startTime, e.endTime, Some(e.location), Some(e.content))
  }

  /** Normalising an already normalised event changes nothing: the
      placeholders are never falsy, so they are kept. */
  lemma NormalizeIdempotent(raw: RawEvent)
    ensures Normalize(ToRaw(Normalize(raw))) == Normalize(raw)
  {
    var e := Normalize(raw);
    assert !Falsy(Some(e.location)) && !Falsy(Some(e.content));
  }

  /** A normalised event is a fixed point of normalisation. */
  lemma NormalizedIsFixedPoint(e: Event)
    requires e.location != "" && e.content != ""
    ensures Normalize(ToRaw(e)) == e
  {
  }

  /** The whole list returned by fetchEvents. */
  function NormalizeAll(raws: seq<RawEvent>): (es: seq<Event>)
    ensures |es| == |raws|
    ensures forall i :: 0 <= i < |raws| ==>
      es[i].id == raws[i].id && es[i].title == raws[i].title &&
      es[i].startTime == raws[i].startTime && es[i].endTime == raws[i].endTime
    ensures forall i :: 0 <= i < |raws| ==>
      (Falsy(raws[i].location) <==> es[i].location == NoLocation && raws[i].location != Some(NoLocation))
    ensures forall i :: 0 <= i < |raws| ==>
      (Falsy(raws[i].content) <==> es[i].content == NoDescription && raws[i].content != Some(NoDescription))
    ensures forall i :: 0 <= i < |raws| ==>
      (!Falsy(raws[i].location) ==> es[i].location == raws[i].location.value) &&
      (!Falsy(raws[i].content) ==> es[i].content == raws[i].content.value)
    ensures forall i :: 0 <= i < |es| ==> es[i].location != "" && es[i].content != ""
    ensures forall i :: 0 <= i < |raws| ==> es[i] == Normalize(raws[i])
  {
    seq(|raws|, i requires 0 <= i < |raws| => Normalize(raws[i]))
  }
}
