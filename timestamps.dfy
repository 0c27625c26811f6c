/**
 The decomposition of an ISO-8601 timestamp into date-time components in
 the `/calendar.ics` handler: `time.split(/[-T:.Z]/).map(Number)`
 (api/index.mjs, lines 110-111).
 */
module Timestamps {
  import opened Events

  /** The character class `[-T:.Z]`. */
  predicate IsDelimiter(c: char) {
    c == '-' || c == 'T' || c == ':' || c == '.' || c == 'Z'
  }

  predicate NoDelimiter(piece: string) {
    forall j :: 0 <= j < |piece| ==> !IsDelimiter(piece[j])
  }

  /** The delimiter characters of `s`, in order. */
  function Delimiters(s: string): (d: seq<char>)
    ensures |d| <= |s|
    ensures forall j :: 0 <= j < |d| ==> IsDelimiter(d[j])
  {
    if s == [] then []
    else if IsDelimiter(s[0]) then [s[0]] + Delimiters(s[1..])
    else Delimiters(s[1..])
  }

  /** `s.split(/[-T:.Z]/)`: every delimiter ends one piece and starts the
      next, so empty pieces are kept (a trailing `Z` gives a final empty
      piece) and the empty string splits into one empty piece. */
  function Split(s: string): (pieces: seq<string>)
    ensures |pieces| == |Delimiters(s)| + 1
    ensures forall k :: 0 <= k < |pieces| ==> NoDelimiter(pieces[k])
  {
    if s == [] then [""]
    else
      var rest := Split(s[1..]);
      if IsDelimiter(s[0]) then [""] + rest
      else
        assert NoDelimiter(rest[0]);
        assert NoDelimiter([s[0]] + rest[0]) by {
          forall j | 0 <= j < |[s[0]] + rest[0]| ensures !IsDelimiter(([s[0]] + rest[0])[j]) {
            if j > 0 { assert ([s[0]] + rest[0])[j] == rest[0][j - 1]; }
          }
        }
        [[s[0]] + rest[0]] + rest[1..]
  }

  /** The pieces put back together with the given delimiters between them. */
  function Rejoin(pieces: seq<string>, delims: seq<char>): string
    requires |pieces| == |delims| + 1
    decreases |delims|
  {
    if delims == [] then pieces[0]
    else pieces[0] + [delims[0]] + Rejoin(pieces[1..], delims[1..])
  }

  /** Rejoin only touches the first piece at its front. */
  lemma {:induction false} RejoinFront(c: string, pieces: seq<string>, delims: seq<char>)
    requires |pieces| == |delims| + 1
    ensures Rejoin([c + pieces[0]] + pieces[1..], delims) == c + Rejoin(pieces, delims)
  {
    var moved := [c + pieces[0]] + pieces[1..];
    assert moved[1..] == pieces[1..];
  }

  /** Splitting loses nothing: the pieces and the delimiters give the input
      back. */
  lemma {:induction false} RejoinSplit(s: string)
    ensures Rejoin(Split(s), Delimiters(s)) == s
  {
    if s != [] {
      var rest := Split(s[1..]);
      RejoinSplit(s[1..]);
      if IsDelimiter(s[0]) {
        assert ([""] + rest)[1..] == rest;
      } else {
        RejoinFront([s[0]], rest, Delimiters(s[1..]));
      }
      assert [s[0]] + s[1..] == s;
    }
  }

  /** A delimiter-free prefix only lengthens the first piece. */
  lemma {:induction false} SplitPrefix(p: string, t: string)
    requires NoDelimiter(p)
    ensures Split(p + t) == [p + Split(t)[0]] + Split(t)[1..]
    ensures Delimiters(p + t) == Delimiters(t)
  {
    if p != [] {
      assert (p + t)[0] == p[0] && (p + t)[1..] == p[1..] + t;
      SplitPrefix(p[1..], t);
      assert [p[0]] + (p[1..] + Split(t)[0]) == p + Split(t)[0];
    } else {
      assert p + t == t;
      assert p + Split(t)[0] == Split(t)[0];
      assert Split(t) == [Split(t)[0]] + Split(t)[1..];
    }
  }

  /** Splitting is the inverse of rejoining pieces that hold no delimiter
      with delimiters. */
  lemma {:induction false} SplitRejoin(pieces: seq<string>, delims: seq<char>)
    requires |pieces| == |delims| + 1
    requires forall j :: 0 <= j < |delims| ==> IsDelimiter(delims[j])
    requires forall k :: 0 <= k < |pieces| ==> NoDelimiter(pieces[k])
    ensures Split(Rejoin(pieces, delims)) == pieces
    ensures Delimiters(Rejoin(pieces, delims)) == delims
    decreases |delims|
  {
    if delims == [] {
      SplitPrefix(pieces[0], "");
      assert pieces[0] + "" == pieces[0];
    } else {
      var tail := Rejoin(pieces[1..], delims[1..]);
      SplitRejoin(pieces[1..], delims[1..]);
      var t := [delims[0]] + tail;
      assert t[1..] == tail;
      assert Split(t) == [""] + pieces[1..];
      assert Delimiters(t) == delims;
      SplitPrefix(pieces[0], t);
      assert pieces[0] + [delims[0]] + tail == pieces[0] + t;
      assert pieces[0] + "" == pieces[0];
      assert pieces == [pieces[0]] + pieces[1..];
    }
  }

  predicate IsDigit(c: char) {
    '0' <= c <= '9'
  }

  predicate AllDigits(p: string) {
    forall j :: 0 <= j < |p| ==> IsDigit(p[j])
  }

  /** The value of a decimal digit; other characters count as 0 (they
      never reach it, see NumberOf). */
  function DigitValue(c: char): (v: nat)
    ensures v <= 9
  {
    if IsDigit(c) then c as int - '0' as int else 0
  }

  /** The decimal value of a digit string; 0 for the empty string. */
  function DecimalValue(p: string): nat {
    if p == [] then 0
    else DecimalValue(p[..|p| - 1]) * 10 + DigitValue(p[|p| - 1])
  }

  /** `Number(piece)`, for the pieces it reads as a non-negative integer:
      digit strings and the empty string. Any other text gives `None`. */
  function NumberOf(piece: string): (n: Option<nat>)
    ensures n.Some? <==> AllDigits(piece)
    ensures piece == "" ==> n == Some(0)
    ensures n.Some? ==> n.value < Pow10(|piece|)
    ensures n.Some? && |piece| > 0 && piece[0] == '0' ==> n == Some(DecimalValue(piece[1..]))
  {
    DecimalValueBound(piece);
    LeadingZeroDropped(piece);
    if AllDigits(piece) then Some(DecimalValue(piece)) else None
  }

  /** LeadingZeroIgnored, read from the piece itself. */
  lemma LeadingZeroDropped(piece: string)
    ensures |piece| > 0 && piece[0] == '0' ==> DecimalValue(piece) == DecimalValue(piece[1..])
  {
    if |piece| > 0 && piece[0] == '0' {
      assert piece == "0" + piece[1..];
      LeadingZeroIgnored(piece[1..]);
    }
  }

  /** Leading zeros do not change the value (`Number("06") == 6`). */
  lemma {:induction false} LeadingZeroIgnored(p: string)
    ensures DecimalValue("0" + p) == DecimalValue(p)
  {
    var q := "0" + p;
    if p != [] {
      assert q[..|q| - 1] == "0" + p[..|p| - 1];
      LeadingZeroIgnored(p[..|p| - 1]);
    }
  }

  /** A digit string of length n has a value below 10^n. */
  lemma {:induction false} DecimalValueBound(p: string)
    ensures DecimalValue(p) < Pow10(|p|)
  {
    if p != [] {
      DecimalValueBound(p[..|p| - 1]);
    }
  }

  function Pow10(n: nat): (r: nat)
    ensures r >= 1
  {
    if n == 0 then 1 else 10 * Pow10(n - 1)
  }

  /** The components of a timestamp, one per piece. */
  function Components(ts: string): (c: seq<Option<nat>>)
    ensures |c| == |Delimiters(ts)| + 1
    ensures forall k :: 0 <= k < |c| ==> c[k] == NumberOf(Split(ts)[k])
  {
    var pieces := Split(ts);
    seq(|pieces|, k requires 0 <= k < |pieces| => NumberOf(pieces[k]))
  }

  /** The delimiters of `YYYY-MM-DDThh:mm:ss.fffZ`. */
  const IsoDelimiters: seq<char> := "--T::.Z"

  /** A timestamp in the upstream format `YYYY-MM-DDThh:mm:ss.fffZ`, built
      from its seven digit fields. */
  function IsoTimestamp(fields: seq<string>): string
    requires |fields| == 7
  {
    Rejoin(fields + [""], IsoDelimiters)
  }

  /** Such a timestamp decomposes into eight components: the values of the
      seven fields and a final 0 from the empty piece after the trailing
      `Z`. */
  lemma IsoTimestampComponents(fields: seq<string>)
    requires |fields| == 7
    requires forall k :: 0 <= k < 7 ==> AllDigits(fields[k])
    ensures var c := Components(IsoTimestamp(fields));
            |c| == 8 && c[7] == Some(0) &&
            forall k :: 0 <= k < 7 ==> c[k] == Some(DecimalValue(fields[k]))
  {
    var pieces := fields + [""];
    forall k | 0 <= k < 8 ensures NoDelimiter(pieces[k]) {
      if k < 7 {
        assert pieces[k] == fields[k];
        DigitsHaveNoDelimiter(fields[k]);
      }
    }
    assert forall j :: 0 <= j < |IsoDelimiters| ==> IsDelimiter(IsoDelimiters[j]);
    SplitRejoin(pieces, IsoDelimiters);
    DigitFieldComponents(IsoTimestamp(fields), fields);
  }

  /** The components of a timestamp whose pieces are digit fields followed
      by an empty piece. */
  lemma DigitFieldComponents(ts: string, fields: seq<string>)
    requires Split(ts) == fields + [""]
    requires forall k :: 0 <= k < |fields| ==> AllDigits(fields[k])
    ensures var c := Components(ts);
            |c| == |fields| + 1 && c[|fields|] == Some(0) &&
            forall k :: 0 <= k < |fields| ==> c[k] == Some(DecimalValue(fields[k]))
  {
    var c := Components(ts);
    assert (fields + [""])[|fields|] == "";
    assert AllDigits("");
    forall k | 0 <= k < |fields| ensures c[k] == Some(DecimalValue(fields[k])) {
      assert (fields + [""])[k] == fields[k];
    }
  }

  lemma DigitsHaveNoDelimiter(p: string)
    requires AllDigits(p)
    ensures NoDelimiter(p)
  {
  }

  /** A trailing `Z` always yields a final empty piece, read as 0. */
  lemma TrailingZGivesZero(s: string)
    ensures var c := Components(s + "Z"); c[|c| - 1] == Some(0)
  {
    RejoinSplit(s);
    var pieces := Split(s) + [""];
    var delims := Delimiters(s) + ['Z'];
    forall k | 0 <= k < |pieces| ensures NoDelimiter(pieces[k]) {
      if k < |pieces| - 1 { assert pieces[k] == Split(s)[k]; }
    }
    RejoinAppend(Split(s), Delimiters(s), 'Z', "");
    assert Rejoin(pieces, delims) == s + "Z";
    SplitRejoin(pieces, delims);
    assert Split(s + "Z")[|pieces| - 1] == "";
  }

  /** Appending a delimiter and a piece to the rejoined text. */
  lemma {:induction false} RejoinAppend(pieces: seq<string>, delims: seq<char>, d: char, last: string)
    requires |pieces| == |delims| + 1
    ensures Rejoin(pieces + [last], delims + [d]) == Rejoin(pieces, delims) + [d] + last
    decreases |delims|
  {
    if delims == [] {
      assert (pieces + [last])[1..] == [last];
    } else {
      RejoinAppend(pieces[1..], delims[1..], d, last);
      assert (pieces + [last])[1..] == pieces[1..] + [last];
      assert (delims + [d])[1..] == delims[1..] + [d];
    }
  }
}
