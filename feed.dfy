/**
 The calendar feed: the entry built for each event in the `/calendar.ics`
 handler and the hand-built VCALENDAR envelope around the value that the
 iCalendar encoder returns (api/index.mjs, lines 109-127).
 */
module Feed {
  import opened Events
  import opened Timestamps

  /** The link to the event's detail page that starts every description
      (the first character is U+1F517, LINK SYMBOL). */
  const LinkPrefix: string := "\U{1F517} https://aleph.sola.day/event/detail/"
  const Confirmed: string := "CONFIRMED"

  /** One entry handed to the iCalendar encoder. */
  datatype Entry = Entry(
    start: seq<Option<nat>>,
    end: seq<Option<nat>>,
    title: string,
    description: string,
    location: string,
    status: string)

  /** The description template: the link, the id, a blank line, the
      content. */
  function Description(id: string, content: string): (d: string)
    ensures |d| == |LinkPrefix| + |id| + 2 + |content|
    ensures d[..|LinkPrefix|] == LinkPrefix
    ensures d[|LinkPrefix|..|LinkPrefix| + |id|] == id
    ensures d[|LinkPrefix| + |id|..|LinkPrefix| + |id| + 2] == "\n\n"
    ensures d[|LinkPrefix| + |id| + 2..] == content
  {
    LinkPrefix + id + "\n\n" + content
  }

  /** The index of the first newline of `s`, or |s| when there is none. */
  function FirstNewline(s: string): (k: nat)
    ensures k <= |s|
    ensures forall j :: 0 <= j < k ==> s[j] != '\n'
    ensures k < |s| ==> s[k] == '\n'
  {
    if s == [] || s[0] == '\n' then 0 else 1 + FirstNewline(s[1..])
  }

  /** Reads the id and the content back from a description: the id runs
      from the link up to the first newline, which must start a blank
      line. */
  function ParseDescription(d: string): Option<(string, string)> {
    if |d| < |LinkPrefix| || d[..|LinkPrefix|] != LinkPrefix then None
    else
      var rest := d[|LinkPrefix|..];
      var k := FirstNewline(rest);
      if k + 2 <= |rest| && rest[k..k + 2] == "\n\n" then Some((rest[..k], rest[k + 2..]))
      else None
  }

  /** The description determines the id and the content, provided the id
      holds no newline (upstream ids are numbers). */
  lemma DescriptionRoundTrip(id: string, content: string)
    requires '\n' !in id
    ensures ParseDescription(Description(id, content)) == Some((id, content))
  {
    var d := Description(id, content);
    assert d[..|LinkPrefix|] == LinkPrefix;
    var rest := d[|LinkPrefix|..];
    assert rest == id + "\n\n" + content;
    var k := FirstNewline(rest);
    assert rest[|id|] == '\n';
    assert k == |id|;
    assert rest[..k] == id;
    assert rest[k..k + 2] == "\n\n";
    assert rest[k + 2..] == content;
  }

  /** Conversely, whatever parses as a description was built by the
      template from the id and content it parses to. */
  lemma ParsedDescriptionIsBuilt(d: string, id: string, content: string)
    requires ParseDescription(d) == Some((id, content))
    ensures '\n' !in id && Description(id, content) == d
  {
    var rest := d[|LinkPrefix|..];
    var k := FirstNewline(rest);
    NoNewlineBefore(rest, k);
    Reassemble(d, LinkPrefix, k);
  }

  /** A text that starts with `prefix` and has a blank line at `k` after
      it is the prefix, the part up to `k`, the blank line and the rest. */
  lemma Reassemble(d: string, prefix: string, k: nat)
    requires |prefix| <= |d| && d[..|prefix|] == prefix
    requires k + 2 <= |d| - |prefix| && d[|prefix|..][k..k + 2] == "\n\n"
    ensures d == prefix + d[|prefix|..][..k] + "\n\n" + d[|prefix|..][k + 2..]
  {
    var rest := d[|prefix|..];
    assert rest == rest[..k] + rest[k..k + 2] + rest[k + 2..];
    assert d == d[..|prefix|] + rest;
  }

  /** The text before the first newline holds none. */
  lemma NoNewlineBefore(s: string, k: nat)
    requires k == FirstNewline(s)
    ensures '\n' !in s[..k]
  {
    forall j | 0 <= j < k ensures s[..k][j] != '\n' {
    }
  }

  /** The entry built from one event: title and location unchanged, a
      fixed status, one start and one end component per piece of the
      timestamps, and a description from which id and content can be read
      back. */
  function ToEntry(e: Event): (r: Entry)
    ensures r.title == e.title && r.location == e.location
    ensures r.status == "CONFIRMED"
    ensures |r.start| == |Delimiters(e.startTime)| + 1
    ensures |r.end| == |Delimiters(e.endTime)| + 1
    ensures r.start == Components(e.startTime) && r.end == Components(e.endTime)
    ensures r.description == Description(e.id, e.content)
    ensures '\n' !in e.id ==> ParseDescription(r.description) == Some((e.id, e.content))
  {
    assert '\n' !in e.id ==> ParseDescription(Description(e.id, e.content)) == Some((e.id, e.content)) by {
      if '\n' !in e.id {
        DescriptionRoundTrip(e.id, e.content);
      }
    }
    Entry(Components(e.startTime), Components(e.endTime), e.title,
          Description(e.id, e.content), e.location, Confirmed)
  }

  /** The `map` over the fetched events: one entry per event, in order. */
  function ToEntries(es: seq<Event>): (r: seq<Entry>)
    ensures |r| == |es|
    ensures forall i :: 0 <= i < |es| ==>
      r[i].title == es[i].title && r[i].location == es[i].location && r[i].status == "CONFIRMED"
    ensures forall i :: 0 <= i < |es| ==> r[i] == ToEntry(es[i])
  {
    seq(|es|, i requires 0 <= i < |es| => ToEntry(es[i]))
  }

  /** `pat` occurs in `s` at index `i`. */
  predicate OccursAt(s: string, pat: string, i: int) {
    0 <= i && i + |pat| <= |s| && s[i..i + |pat|] == pat
  }

  /** `s.replace(pat, rep)` with a string pattern and a replacement free of
      the `$` substitution patterns: only the first occurrence is replaced;
      an empty pattern matches at the start; without an occurrence the
      string is returned as it is. */
  function ReplaceFirst(s: string, pat: string, rep: string): (r: string)
    requires '$' !in rep
    ensures (forall i :: 0 <= i <= |s| ==> !OccursAt(s, pat, i)) ==> r == s
    ensures forall i :: OccursAt(s, pat, i) && (forall j :: 0 <= j < i ==> !OccursAt(s, pat, j)) ==>
      r == s[..i] + rep + s[i + |pat|..]
    decreases |s|
  {
    if |pat| <= |s| && s[..|pat|] == pat then
      assert OccursAt(s, pat, 0);
      rep + s[|pat|..]
    else if s == [] then s
    else
      var tail := ReplaceFirst(s[1..], pat, rep);
      assert (forall i :: 0 <= i <= |s| ==> !OccursAt(s, pat, i)) ==> [s[0]] + tail == s by {
        if forall i :: 0 <= i <= |s| ==> !OccursAt(s, pat, i) {
          NoOccurrenceShift(s, pat);
          assert [s[0]] + s[1..] == s;
        }
      }
      ReplaceAfterFront(s, pat, rep, tail);
      [s[0]] + tail
  }

  /** When `s` does not start with `pat`, replacing in its tail replaces its
      first occurrence. */
  lemma ReplaceAfterFront(s: string, pat: string, rep: string, tail: string)
    requires s != [] && !(|pat| <= |s| && s[..|pat|] == pat)
    requires forall i :: OccursAt(s[1..], pat, i) && (forall j :: 0 <= j < i ==> !OccursAt(s[1..], pat, j)) ==>
      tail == s[1..][..i] + rep + s[1..][i + |pat|..]
    ensures forall i :: OccursAt(s, pat, i) && (forall j :: 0 <= j < i ==> !OccursAt(s, pat, j)) ==>
      [s[0]] + tail == s[..i] + rep + s[i + |pat|..]
  {
    forall i | OccursAt(s, pat, i) && (forall j :: 0 <= j < i ==> !OccursAt(s, pat, j))
      ensures [s[0]] + tail == s[..i] + rep + s[i + |pat|..]
    {
      FirstOccurrenceShift(s, pat, i);
    }
  }

  /** An occurrence at `i >= 1` is one at `i - 1` in the tail. */
  lemma OccursShift(s: string, pat: string, i: int)
    requires s != [] && 1 <= i
    ensures OccursAt(s, pat, i) <==> OccursAt(s[1..], pat, i - 1)
  {
    if i + |pat| <= |s| {
      var here := s[i..i + |pat|];
      var there := s[1..][i - 1..i - 1 + |pat|];
      forall k | 0 <= k < |here| ensures here[k] == there[k] {
      }
      assert here == there;
    }
  }

  /** Without an occurrence in `s` there is none in its tail. */
  lemma NoOccurrenceShift(s: string, pat: string)
    requires s != []
    requires forall i :: 0 <= i <= |s| ==> !OccursAt(s, pat, i)
    ensures forall i :: 0 <= i <= |s[1..]| ==> !OccursAt(s[1..], pat, i)
  {
    forall i | 0 <= i <= |s[1..]| ensures !OccursAt(s[1..], pat, i) {
      OccursShift(s, pat, i + 1);
    }
  }

  /** The first occurrence past the front of `s` is the first one of its
      tail, one index earlier. */
  lemma FirstOccurrenceShift(s: string, pat: string, i: int)
    requires s != [] && !(|pat| <= |s| && s[..|pat|] == pat)
    requires OccursAt(s, pat, i) && forall j :: 0 <= j < i ==> !OccursAt(s, pat, j)
    ensures 1 <= i && OccursAt(s[1..], pat, i - 1)
    ensures forall j :: 0 <= j < i - 1 ==> !OccursAt(s[1..], pat, j)
    ensures s[..i] == [s[0]] + s[1..][..i - 1] && s[i + |pat|..] == s[1..][i - 1 + |pat|..]
  {
    assert !OccursAt(s, pat, 0);
    OccursShift(s, pat, i);
    forall j | 0 <= j < i - 1 ensures !OccursAt(s[1..], pat, j) {
      OccursShift(s, pat, j + 1);
    }
  }

  /** Replacing a `$`-free pattern by itself changes nothing. */
  lemma {:induction false} ReplaceWithItself(s: string, pat: string)
    requires '$' !in pat
    ensures ReplaceFirst(s, pat, pat) == s
    decreases |s|
  {
    if |pat| <= |s| && s[..|pat|] == pat {
      assert s == s[..|pat|] + s[|pat|..];
    } else if s != [] {
      ReplaceWithItself(s[1..], pat);
      assert s == [s[0]] + s[1..];
    }
  }

  const CalendarName: string := "Aleph Events Calendar"
  const CalendarHeader: string :=
    "BEGIN:VCALENDAR\nVERSION:2.0\nPRODID:-//Your Organization//Your Product//EN\nX-WR-CALNAME:" + CalendarName + "\n"
  const CalendarFooter: string := "\nEND:VCALENDAR"

  /** The calendar document around the encoder's value. The value
      goes through `replace('BEGIN:VEVENT', 'BEGIN:VEVENT')`, which leaves
      it as it is. */
  function CalendarContent(value: string): (doc: string)
    ensures doc == CalendarHeader + value + CalendarFooter
  {
    ReplaceWithItself(value, "BEGIN:VEVENT");
    CalendarHeader + ReplaceFirst(value, "BEGIN:VEVENT", "BEGIN:VEVENT") + CalendarFooter
  }

  /** The value inside a calendar document, if it has the envelope. */
  function ParseCalendar(doc: string): Option<string> {
    if |doc| >= |CalendarHeader| + |CalendarFooter| &&
       doc[..|CalendarHeader|] == CalendarHeader &&
       doc[|doc| - |CalendarFooter|..] == CalendarFooter
    then Some(doc[|CalendarHeader|..|doc| - |CalendarFooter|])
    else None
  }

  /** The envelope gives the value back unchanged. */
  lemma CalendarRoundTrip(value: string)
    ensures ParseCalendar(CalendarContent(value)) == Some(value)
  {
    var doc := CalendarContent(value);
    assert doc[..|CalendarHeader|] == CalendarHeader;
    assert doc[|doc| - |CalendarFooter|..] == CalendarFooter;
    assert doc[|CalendarHeader|..|doc| - |CalendarFooter|] == value;
  }

  /** And every document with the envelope is the envelope around the
      value it parses to. */
  lemma ParsedCalendarIsBuilt(doc: string, value: string)
    requires ParseCalendar(doc) == Some(value)
    ensures CalendarContent(value) == doc
  {
    assert doc == doc[..|CalendarHeader|] + doc[|CalendarHeader|..|doc| - |CalendarFooter|] + doc[|doc| - |CalendarFooter|..];
  }
}
