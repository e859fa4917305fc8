/**
 * The timetable utilities: turning the calendar library's VEVENT records into
 * timetable events, choosing the next class, validating a timetable and
 * formatting an event for display.
 *
 * Time is an integer instant (milliseconds since the epoch) and "now" is a
 * parameter. Locale-dependent rendering is a `Locale`: the English weekday name
 * of an instant and its long date-and-time text.
 */
module Timetable {

  import opened Options
  import opened Strings
  import opened Selection

  type Instant = int

  datatype Locale = Locale(weekday: Instant -> string, format: Instant -> string)

  /** A timetable event, as the application holds it after parsing. */
  datatype Event = Event(
    summary: string,
    location: string,
    startDate: Instant,
    endDate: Instant,
    duration: string,
    status: string,
    description: string,
    recurrence: Option<string>,
    instructor: Option<string>,
    classTitle: Option<string>)

  /** The hours and minutes fields of the calendar library's duration object. */
  datatype RawDuration = RawDuration(hours: real, minutes: int)

  /**
   * One VEVENT as the calendar library exposes it. A start or end the library
   * cannot resolve is `None`; reading its instant then throws.
   */
  datatype RawEvent = RawEvent(
    summary: string,
    location: string,
    startDate: Option<Instant>,
    endDate: Option<Instant>,
    duration: Option<RawDuration>,
    status: Option<string>,
    description: Option<string>,
    rrule: Option<string>)

  /** What parsing and walking the calendar document gives: a failure, or its VEVENTs. */
  datatype LibraryResult = LibraryError | Components(vevents: seq<RawEvent>)

  /** JavaScript truthiness of an optional string. */
  predicate Truthy(o: Option<string>) {
    o.Some? && o.value != ""
  }

  /** `o || fallback` for an optional string. */
  function OrElse(o: Option<string>, fallback: string): string {
    if Truthy(o) then o.value else fallback
  }

  // ---------------------------------------------------------------------------
  // Fields taken from the description text: /<key>(.+?)(?:\n|$)/

  /** Index of the first line terminator at or after `q`, or `|s|` if there is none. */
  function RunEnd(s: string, q: nat): (k: nat)
    requires q <= |s|
    ensures q <= k <= |s|
    ensures forall i :: q <= i < k ==> !IsLineTerminator(s[i])
    ensures k < |s| ==> IsLineTerminator(s[k])
    decreases |s| - q
  {
    if q == |s| || IsLineTerminator(s[q]) then q else RunEnd(s, q + 1)
  }

  /**
   * The regular expression `key(.+?)(?:\n|$)` (no flags) matches at `p`: the key
   * occurs there, at least one non-terminator follows it, and the run of
   * non-terminators after it ends at a `\n` or at the end of the text.
   */
  predicate MatchesAt(key: string, s: string, p: int) {
    && Occurs(key, s, p)
    && var q := p + |key|;
       var k := RunEnd(s, q);
       q < k && (k == |s| || s[k] == '\n')
  }

  /** The lazy group `(.+?)` followed by `(?:\n|$)` can end at `j` when the match starts at `p`. */
  ghost predicate CaptureEndsAt(key: string, s: string, p: int, j: int) {
    && Occurs(key, s, p)
    && p + |key| < j <= |s|
    && (forall i :: p + |key| <= i < j ==> !IsLineTerminator(s[i]))
    && (j == |s| || s[j] == '\n')
  }

  /**
   * `MatchesAt` is the regular expression's own semantics: a match at `p` exists
   * exactly when some end of the lazy group exists, and that end is then unique
   * and equal to `RunEnd`.
   */
  lemma MatchesAtIsRegexMatch(key: string, s: string, p: int, j: int)
    requires Occurs(key, s, p)
    ensures CaptureEndsAt(key, s, p, j) ==> MatchesAt(key, s, p) && j == RunEnd(s, p + |key|)
    ensures MatchesAt(key, s, p) ==> CaptureEndsAt(key, s, p, RunEnd(s, p + |key|))
  {
  }

  /** The first position at or after `from` where the expression matches. */
  function FirstMatch(key: string, s: string, from: nat): (r: Option<nat>)
    requires from <= |s|
    ensures r.Some? ==> from <= r.value <= |s| && MatchesAt(key, s, r.value)
    ensures r.Some? ==> forall p :: from <= p < r.value ==> !MatchesAt(key, s, p)
    ensures r.None? ==> forall p :: from <= p ==> !MatchesAt(key, s, p)
    decreases |s| - from
  {
    if MatchesAt(key, s, from) then Some(from)
    else if from == |s| then None
    else FirstMatch(key, s, from + 1)
  }

  /** The text the group captures when the match starts at `p`. */
  function Capture(key: string, s: string, p: nat): (r: string)
    requires p + |key| <= |s|
    ensures NoLineTerminator(r)
    ensures p + |key| + |r| <= |s| && s[p + |key|..p + |key| + |r|] == r
    ensures MatchesAt(key, s, p) ==>
      r != [] && (p + |key| + |r| < |s| ==> s[p + |key| + |r|] == '\n')
    ensures MatchesAt(key, s, p) ==> CaptureEndsAt(key, s, p, p + |key| + |r|)
  {
    s[p + |key|..RunEnd(s, p + |key|)]
  }

  /**
   * `description.match(/<key>(.+?)(?:\n|$)/)?.[1]?.trim()`: undefined exactly when the
   * expression matches nowhere; otherwise a trimmed value on one line.
   */
  function Extract(key: string, s: string): (r: Option<string>)
    ensures r.None? <==> forall p :: !MatchesAt(key, s, p)
    ensures r.Some? ==> NoLineTerminator(r.value) && Trimmed(r.value)
  {
    match FirstMatch(key, s, 0)
    case None => None
    case Some(p) =>
      TrimKeepsNoLineTerminator(Capture(key, s, p));
      Some(Trim(Capture(key, s, p)))
  }

  /** The value `Extract` gives is the trimmed capture of the leftmost match. */
  lemma ExtractIsLeftmostMatch(key: string, s: string)
    ensures Extract(key, s).Some? ==> exists p ::
      && MatchesAt(key, s, p)
      && (forall p' :: 0 <= p' < p ==> !MatchesAt(key, s, p'))
      && Extract(key, s).value == Trim(Capture(key, s, p))
  {
    var m := FirstMatch(key, s, 0);
    if m.Some? {
      var p := m.value;
      assert Extract(key, s).value == Trim(Capture(key, s, p));
    }
  }

  lemma TrimKeepsNoLineTerminator(v: string)
    requires NoLineTerminator(v)
    ensures NoLineTerminator(Trim(v))
  {
    var t := Trim(v);
    var i :| TrimsTo(v, t, i);
    forall k | 0 <= k < |t| ensures !IsLineTerminator(t[k]) {
      assert t[k] == v[i + k];
    }
  }

  const ClassTitleLabel := "Class Title: "
  const InstructorLabel := "Instructor: "

  /** With no occurrence of the key before `|head|`, a matching line at `|head|` is what `Extract` reads. */
  lemma ExtractLine(key: string, head: string, v: string, post: string)
    requires forall p :: 0 <= p < |head| ==> !Occurs(key, head + key + v + post, p)
    requires v != [] && NoLineTerminator(v) && Trimmed(v)
    requires post == [] || post[0] == '\n'
    ensures Extract(key, head + key + v + post) == Some(v)
  {
    var s := head + key + v + post;
    var q := |head| + |key|;
    assert s[|head|..q] == key;
    RunEndOfLine(s, q, v, post);
    assert MatchesAt(key, s, |head|);
    assert forall p :: 0 <= p < |head| ==> !MatchesAt(key, s, p);
    assert FirstMatch(key, s, 0) == Some(|head|);
    assert Capture(key, s, |head|) == v;
    TrimOfTrimmed(v);
  }

  /** The line that starts at `q` runs exactly over `v` when a line break or the end follows it. */
  lemma RunEndOfLine(s: string, q: nat, v: string, post: string)
    requires q + |v| + |post| == |s| && s[q..] == v + post
    requires NoLineTerminator(v)
    requires post == [] || post[0] == '\n'
    ensures RunEnd(s, q) == q + |v| && s[q..q + |v|] == v
  {
    assert s[q..q + |v|] == (v + post)[..|v|] == v;
    assert forall i :: q <= i < q + |v| ==> s[i] == v[i - q];
    assert q + |v| < |s| ==> s[q + |v|] == post[0];
  }

  /** A key without a line break cannot straddle the line break that ends `before`. */
  lemma NoOccurrenceAcrossNewline(key: string, before: string, rest: string)
    requires '\n' !in key
    requires forall p :: !Occurs(key, before, p)
    ensures forall p :: 0 <= p < |before| + 1 ==> !Occurs(key, before + "\n" + rest, p)
  {
    var s := before + "\n" + rest;
    forall p | 0 <= p < |before| + 1
      ensures !Occurs(key, s, p)
    {
      if p + |key| <= |before| {
        assert s[p..p + |key|] == before[p..p + |key|];
        assert !Occurs(key, before, p);
      } else if p + |key| <= |s| {
        var i := |before| - p;
        assert s[p..p + |key|][i] == '\n';
        assert key[i] in key;
      }
    }
  }

  const ExampleDescription := "Class Title: CS101\nInstructor: Dr. Lee\n"

  /** The class title of a description holding both labelled lines. */
  lemma ExtractExampleClassTitle()
    ensures Extract(ClassTitleLabel, ExampleDescription) == Some("CS101")
  {
    assert ExampleDescription == [] + ClassTitleLabel + "CS101" + "\nInstructor: Dr. Lee\n";
    ExtractLine(ClassTitleLabel, [], "CS101", "\nInstructor: Dr. Lee\n");
  }

  /** The instructor of a description holding both labelled lines. */
  lemma ExtractExampleInstructor()
    ensures Extract(InstructorLabel, ExampleDescription) == Some("Dr. Lee")
  {
    var before := "Class Title: CS101";
    forall p ensures !Occurs(InstructorLabel, before, p) {
      if 0 <= p && p + |InstructorLabel| <= |before| {
        assert before[p..p + |InstructorLabel|][0] == before[p];
      }
    }
    assert '\n' !in InstructorLabel;
    NoOccurrenceAcrossNewline(InstructorLabel, before, InstructorLabel + "Dr. Lee" + "\n");
    assert ExampleDescription == (before + "\n") + InstructorLabel + "Dr. Lee" + "\n";
    assert before + "\n" + (InstructorLabel + "Dr. Lee" + "\n") == (before + "\n") + InstructorLabel + "Dr. Lee" + "\n";
    assert Trimmed("Dr. Lee") && NoLineTerminator("Dr. Lee");
    ExtractLine(InstructorLabel, before + "\n", "Dr. Lee", "\n");
  }

  // ---------------------------------------------------------------------------
  // Duration token

  /** `event.duration ? `PT${Math.floor(hours)}H${minutes}M` : 'PT1H'`. */
  function DurationToken(d: Option<RawDuration>): string {
    if d.None? then "PT1H"
    else "PT" + IntToString(d.value.hours.Floor) + "H" + IntToString(d.value.minutes) + "M"
  }

  /** Position of the first `c` in `s`. */
  function IndexOf(s: string, c: char): (r: Option<nat>)
    ensures r.Some? ==> r.value < |s| && s[r.value] == c && c !in s[..r.value]
    ensures r.None? ==> c !in s
  {
    if s == [] then None
    else if s[0] == c then Some(0)
    else match IndexOf(s[1..], c)
      case None => None
      case Some(i) => Some(i + 1)
  }

  /**
   * Reads a token of the form `PT<h>H<m>M` or `PT<h>H` back into whole hours and
   * minutes (minutes 0 when absent).
   */
  function ReadDurationToken(t: string): Option<(int, int)> {
    if |t| < 2 || t[..2] != "PT" then None
    else
      var body := t[2..];
      match IndexOf(body, 'H')
      case None => None
      case Some(h) =>
        var rest := body[h + 1..];
        match ParseInt(body[..h])
        case None => None
        case Some(hours) =>
          if rest == [] then Some((hours, 0))
          else if rest[|rest| - 1] != 'M' then None
          else match ParseInt(rest[..|rest| - 1])
            case None => None
            case Some(minutes) => Some((hours, minutes))
  }

  lemma {:induction false} IndexOfFirst(a: string, c: char, b: string)
    requires c !in a
    ensures IndexOf(a + [c] + b, c) == Some(|a|)
  {
    if a != [] {
      assert (a + [c] + b)[1..] == a[1..] + [c] + b;
      IndexOfFirst(a[1..], c, b);
    }
  }

  /** A token built from whole hours and minutes reads back as them. */
  lemma TokenReadsBack(hours: int, minutes: int)
    ensures ReadDurationToken("PT" + IntToString(hours) + "H" + IntToString(minutes) + "M") == Some((hours, minutes))
  {
    var hs, ms := IntToString(hours), IntToString(minutes);
    var t := "PT" + hs + "H" + ms + "M";
    var body := t[2..];
    assert t[..2] == "PT";
    assert body == hs + ['H'] + (ms + "M");
    assert 'H' !in hs;
    IndexOfFirst(hs, 'H', ms + "M");
    assert body[..|hs|] == hs;
    var rest := body[|hs| + 1..];
    assert rest == ms + "M";
    assert rest[..|rest| - 1] == ms;
    IntToStringRoundTrip(hours);
    IntToStringRoundTrip(minutes);
  }

  /**
   * The duration token reads back as the floored hours and the minutes of the
   * library's duration, and the default token as one hour.
   */
  lemma DurationTokenRoundTrip(d: Option<RawDuration>)
    ensures d.None? ==> ReadDurationToken(DurationToken(d)) == Some((1, 0))
    ensures d.Some? ==> ReadDurationToken(DurationToken(d)) == Some((d.value.hours.Floor, d.value.minutes))
  {
    if d.None? {
      var t := DurationToken(d);
      assert t[2..] == "1" + ['H'] + [];
      IndexOfFirst("1", 'H', []);
      assert t[2..][..1] == "1";
      assert t[2..][2..] == [];
    } else {
      TokenReadsBack(d.value.hours.Floor, d.value.minutes);
    }
  }

  // ---------------------------------------------------------------------------
  // Normalising the library's records

  /**
   * The record `parseICSFile` builds from one VEVENT, or `None` where reading the
   * start or end instant throws.
   */
  function Normalize(raw: RawEvent): (r: Option<Event>)
    ensures r.Some? <==> raw.startDate.Some? && raw.endDate.Some?
    ensures r.Some? ==> r.value.status != "" && r.value.duration != ""
  {
    if raw.startDate.None? || raw.endDate.None? then None
    else
      var description := OrElse(raw.description, "");
      Some(Event(
        summary := raw.summary,
        location := raw.location,
        startDate := raw.startDate.value,
        endDate := raw.endDate.value,
        duration := DurationToken(raw.duration),
        status := OrElse(raw.status, "CONFIRMED"),
        description := description,
        recurrence := raw.rrule,
        instructor := Extract(InstructorLabel, description),
        classTitle := Extract(ClassTitleLabel, description)))
  }

  /**
   * The defaults `parseICSFile` applies to one readable record: the status is the
   * source status or CONFIRMED, the description the source text or empty, the
   * duration token denotes the library's floored hours and minutes or one hour,
   * and each labelled field is what its expression extracts from the description:
   * undefined exactly when it matches nowhere, otherwise a trimmed single-line
   * value. Summary, location and recurrence rule are copied from the record.
   */
  lemma NormalizeDefaults(raw: RawEvent)
    requires raw.startDate.Some? && raw.endDate.Some?
    ensures var e := Normalize(raw).value;
      && e.startDate == raw.startDate.value && e.endDate == raw.endDate.value
      && (Truthy(raw.status) ==> e.status == raw.status.value)
      && (!Truthy(raw.status) ==> e.status == "CONFIRMED")
      && (Truthy(raw.description) ==> e.description == raw.description.value)
      && (!Truthy(raw.description) ==> e.description == "")
      && (raw.duration.None? ==> ReadDurationToken(e.duration) == Some((1, 0)))
      && (raw.duration.Some? ==> ReadDurationToken(e.duration) == Some((raw.duration.value.hours.Floor, raw.duration.value.minutes)))
      && (e.classTitle.None? <==> forall p :: !MatchesAt(ClassTitleLabel, e.description, p))
      && (e.instructor.None? <==> forall p :: !MatchesAt(InstructorLabel, e.description, p))
      && (e.classTitle.Some? ==> NoLineTerminator(e.classTitle.value) && Trimmed(e.classTitle.value))
      && (e.instructor.Some? ==> NoLineTerminator(e.instructor.value) && Trimmed(e.instructor.value))
      && e.classTitle == Extract(ClassTitleLabel, e.description)
      && e.instructor == Extract(InstructorLabel, e.description)
      && e.summary == raw.summary && e.location == raw.location && e.recurrence == raw.rrule
  {
    DurationTokenRoundTrip(raw.duration);
  }

  /** `vevents.map(...)`; `None` when the mapping throws for some record. */
  function NormalizeAll(vevents: seq<RawEvent>): (r: Option<seq<Event>>)
    ensures r.Some? <==> forall i :: 0 <= i < |vevents| ==> Normalize(vevents[i]).Some?
    ensures r.Some? ==> |r.value| == |vevents|
    ensures r.Some? ==> forall i :: 0 <= i < |vevents| ==> Normalize(vevents[i]) == Some(r.value[i])
  {
    if vevents == [] then Some([])
    else match (Normalize(vevents[0]), NormalizeAll(vevents[1..]))
      case (Some(e), Some(es)) =>
        assert forall i :: 1 <= i < |vevents| ==> vevents[i] == vevents[1..][i - 1];
        Some([e] + es)
      case (None, _) => None
      case (_, None) =>
        assert forall i :: 1 <= i < |vevents| ==> vevents[i] == vevents[1..][i - 1];
        None
  }

  /** Ends strictly after `now`. */
  function IsFutureAt(now: Instant): Event -> bool {
    (e: Event) => e.endDate > now
  }

  /** `parseICSFile`: the future events of the calendar, or `[]` on any failure. */
  function ParseIcs(lib: LibraryResult, now: Instant): (r: seq<Event>)
    ensures forall e :: e in r ==> e.endDate > now
  {
    match lib
    case LibraryError => []
    case Components(vevents) =>
      match NormalizeAll(vevents)
      case None => []
      case Some(events) => Filter(events, IsFutureAt(now))
  }

  /**
   * `parseICSFile` returns `[]` when the library fails or a record cannot be read;
   * otherwise it returns, in input order, the normalisation of exactly those
   * VEVENTs that end after `now`.
   */
  lemma ParseIcsSpec(lib: LibraryResult, now: Instant)
    ensures lib.LibraryError? ==> ParseIcs(lib, now) == []
    ensures lib.Components? && NormalizeAll(lib.vevents).None? ==> ParseIcs(lib, now) == []
    ensures lib.Components? && NormalizeAll(lib.vevents).Some? ==>
      var events := NormalizeAll(lib.vevents).value;
      StableSelection(ParseIcs(lib, now), events, IsFutureAt(now), Positions(events, IsFutureAt(now)))
  {
    if lib.Components? && NormalizeAll(lib.vevents).Some? {
      FilterIsStableSelection(NormalizeAll(lib.vevents).value, IsFutureAt(now));
    }
  }

  // ---------------------------------------------------------------------------
  // Choosing the next class: filter, stable sort by start, first element

  predicate SortedByStart(s: seq<Event>) {
    forall i, j :: 0 <= i < j < |s| ==> s[i].startDate <= s[j].startDate
  }

  /** Puts `x` before the first element that does not start before it. */
  function InsertByStart(x: Event, s: seq<Event>): (r: seq<Event>)
    requires SortedByStart(s)
    ensures SortedByStart(r)
    ensures multiset(r) == multiset(s) + multiset{x}
    ensures forall e :: e in r ==> e == x || e in s
  {
    if s == [] || x.startDate <= s[0].startDate then [x] + s
    else
      var tail := InsertByStart(x, s[1..]);
      assert s == [s[0]] + s[1..];
      assert forall e :: e in tail ==> s[0].startDate <= e.startDate;
      [s[0]] + tail
  }

  /**
   * `s.sort((a, b) => a.startDate - b.startDate)`: an insertion sort that keeps equal
   * starts in input order, as the stable `Array.prototype.sort` does.
   */
  function SortByStart(s: seq<Event>): (r: seq<Event>)
    ensures SortedByStart(r)
    ensures multiset(r) == multiset(s)
  {
    if s == [] then []
    else
      assert s == [s[0]] + s[1..];
      InsertByStart(s[0], SortByStart(s[1..]))
  }

  /** `s[0] || null`. */
  function First(s: seq<Event>): Option<Event> {
    if s == [] then None else Some(s[0])
  }

  /** The index of the earliest start, the first such index when several share it. */
  function FirstMinIndex(s: seq<Event>): (k: nat)
    requires s != []
    ensures k < |s|
    ensures forall j :: 0 <= j < |s| ==> s[k].startDate <= s[j].startDate
    ensures forall j :: 0 <= j < k ==> s[j].startDate > s[k].startDate
  {
    if |s| == 1 then 0
    else
      var m := 1 + FirstMinIndex(s[1..]);
      assert forall j :: 1 <= j < |s| ==> s[j] == s[1..][j - 1];
      if s[0].startDate <= s[m].startDate then 0 else m
  }

  /** Sorting stably and taking the head picks the first of the earliest events. */
  lemma {:induction false} SortedHeadIsFirstMin(s: seq<Event>)
    requires s != []
    ensures SortByStart(s)[0] == s[FirstMinIndex(s)]
  {
    if |s| > 1 {
      SortedHeadIsFirstMin(s[1..]);
      assert s[1 + FirstMinIndex(s[1..])] == s[1..][FirstMinIndex(s[1..])];
    }
  }

  /**
   * Among `s`, position `i` is the one the stable sort puts first among the
   * events passing `p`: it passes, no passing event starts earlier, and every
   * passing event before it starts strictly later.
   */
  ghost predicate EarliestAt(s: seq<Event>, p: Event -> bool, i: int) {
    && 0 <= i < |s|
    && p(s[i])
    && (forall j :: 0 <= j < |s| && p(s[j]) ==> s[i].startDate <= s[j].startDate)
    && (forall j :: 0 <= j < i && p(s[j]) ==> s[j].startDate > s[i].startDate)
  }

  /** The head of the sorted selection is the earliest passing event of the input. */
  lemma EarliestOfSelection(f: seq<Event>, s: seq<Event>, p: Event -> bool, pos: seq<nat>)
    requires StableSelection(f, s, p, pos)
    ensures First(SortByStart(f)).None? <==> forall i :: 0 <= i < |s| ==> !p(s[i])
    ensures First(SortByStart(f)).Some? ==>
      exists i :: EarliestAt(s, p, i) && s[i] == First(SortByStart(f)).value
  {
    if f == [] {
      assert |SortByStart(f)| == 0;
    } else {
      assert |SortByStart(f)| == |f| by {
        assert |multiset(SortByStart(f))| == |multiset(f)|;
      }
      assert p(s[pos[0]]);
      SortedHeadIsFirstMin(f);
      var k := FirstMinIndex(f);
      var i := pos[k];
      forall j | 0 <= j < |s| && p(s[j])
        ensures s[i].startDate <= s[j].startDate
        ensures j < i ==> s[j].startDate > s[i].startDate
      {
        var l :| 0 <= l < |pos| && pos[l] == j;
        assert f[l] == s[j];
        if l < k {
          assert pos[l] < pos[k];
        }
      }
      assert EarliestAt(s, p, i);
    }
  }

  /** The head of the sort is one of the sorted events and starts no later than any of them. */
  lemma SortedHeadIsEarliest(f: seq<Event>)
    ensures f != [] ==> SortByStart(f) != [] && SortByStart(f)[0] in f
    ensures f != [] ==> forall e :: e in f ==> SortByStart(f)[0].startDate <= e.startDate
  {
    if f == [] { return; }
    var r := SortByStart(f);
    assert |multiset(r)| == |multiset(f)|;
    assert r[0] in multiset(f);
    forall e | e in f
      ensures r[0].startDate <= e.startDate
    {
      assert e in multiset(r);
      var j :| 0 <= j < |r| && r[j] == e;
    }
  }

  /**
   * `getNextClass`: null exactly when no event ends after `now`; otherwise an event
   * that ends after `now` and starts no later than any other such event.
   */
  function NextClass(events: seq<Event>, now: Instant): (r: Option<Event>)
    ensures r.None? <==> forall e :: e in events ==> e.endDate <= now
    ensures r.Some? ==> r.value in events && r.value.endDate > now
    ensures r.Some? ==> forall e :: e in events && e.endDate > now ==> r.value.startDate <= e.startDate
  {
    var future := Filter(events, IsFutureAt(now));
    SortedHeadIsEarliest(future);
    First(SortByStart(future))
  }

  /**
   * `getNextClass` is null exactly when no event ends after `now`; otherwise it is
   * the event that ends after `now` with the earliest start, the first in input
   * order among equal starts.
   */
  lemma NextClassSpec(events: seq<Event>, now: Instant)
    ensures NextClass(events, now).None? <==> forall e :: e in events ==> e.endDate <= now
    ensures NextClass(events, now).Some? ==>
      exists i :: EarliestAt(events, IsFutureAt(now), i) && events[i] == NextClass(events, now).value
  {
    FilterIsStableSelection(events, IsFutureAt(now));
    EarliestOfSelection(Filter(events, IsFutureAt(now)), events, IsFutureAt(now), Positions(events, IsFutureAt(now)));
  }

  /** `e` starts on the day named `target` (already lower-cased), compared in lower case. */
  predicate StartsOn(e: Event, target: string, weekday: Instant -> string) {
    Lower(weekday(e.startDate)) == target
  }

  function IsOnWeekday(target: string, weekday: Instant -> string): Event -> bool {
    (e: Event) => StartsOn(e, target, weekday)
  }

  /**
   * `getNextClassOnDay`: when it exists, an event that ends after `now`, starts on
   * the named weekday, and starts no later than any other such event.
   */
  function NextClassOnDay(events: seq<Event>, dayName: string, now: Instant, locale: Locale): (r: Option<Event>)
    ensures r.Some? ==>
      && r.value in events && r.value.endDate > now
      && StartsOn(r.value, Lower(dayName), locale.weekday)
    ensures r.Some? ==> forall e :: e in events && e.endDate > now && StartsOn(e, Lower(dayName), locale.weekday) ==>
      r.value.startDate <= e.startDate
  {
    var future := Filter(events, IsFutureAt(now));
    var onDay := Filter(future, IsOnWeekday(Lower(dayName), locale.weekday));
    SortedHeadIsEarliest(onDay);
    First(SortByStart(onDay))
  }

  /** The events `getNextClassOnDay` sorts are the future events on that day, in input order. */
  lemma OnDaySelection(events: seq<Event>, dayName: string, now: Instant, locale: Locale)
    ensures
      var fut, day := IsFutureAt(now), IsOnWeekday(Lower(dayName), locale.weekday);
      StableSelection(Filter(Filter(events, fut), day), events, Both(fut, day),
                      Compose(Positions(events, fut), Positions(Filter(events, fut), day)))
  {
    var fut, day := IsFutureAt(now), IsOnWeekday(Lower(dayName), locale.weekday);
    var future := Filter(events, fut);
    FilterIsStableSelection(events, fut);
    FilterIsStableSelection(future, day);
    SelectionCompose(future, events, fut, Positions(events, fut), Filter(future, day), day, Positions(future, day));
  }

  /**
   * `getNextClassOnDay` is null exactly when no event both ends after `now` and
   * starts on the named weekday.
   */
  lemma NextClassOnDayNone(events: seq<Event>, dayName: string, now: Instant, locale: Locale)
    ensures NextClassOnDay(events, dayName, now, locale).None? <==>
      forall e :: e in events ==> e.endDate <= now || !StartsOn(e, Lower(dayName), locale.weekday)
  {
    var fut, day := IsFutureAt(now), IsOnWeekday(Lower(dayName), locale.weekday);
    var f := Filter(Filter(events, fut), day);
    assert |multiset(SortByStart(f))| == |multiset(f)|;
    assert forall e :: e in f <==> e in events && e.endDate > now && StartsOn(e, Lower(dayName), locale.weekday);
  }

  /**
   * Otherwise `getNextClassOnDay` is the earliest-starting event that ends after
   * `now` and starts on the named weekday, the first in input order among equal
   * starts.
   */
  lemma NextClassOnDayEarliest(events: seq<Event>, dayName: string, now: Instant, locale: Locale)
    requires NextClassOnDay(events, dayName, now, locale).Some?
    ensures exists i ::
      && EarliestAt(events, Both(IsFutureAt(now), IsOnWeekday(Lower(dayName), locale.weekday)), i)
      && events[i] == NextClassOnDay(events, dayName, now, locale).value
  {
    var fut, day := IsFutureAt(now), IsOnWeekday(Lower(dayName), locale.weekday);
    var future := Filter(events, fut);
    OnDaySelection(events, dayName, now, locale);
    EarliestOfSelection(Filter(future, day), events, Both(fut, day),
                        Compose(Positions(events, fut), Positions(future, day)));
  }

  /** When both exist, the overall next class starts no later than the next class on a given day. */
  lemma NextClassNoLaterThanOnDay(events: seq<Event>, dayName: string, now: Instant, locale: Locale)
    requires NextClass(events, now).Some? && NextClassOnDay(events, dayName, now, locale).Some?
    ensures NextClass(events, now).value.startDate <= NextClassOnDay(events, dayName, now, locale).value.startDate
  {
    NextClassSpec(events, now);
    NextClassOnDayEarliest(events, dayName, now, locale);
    var i :| EarliestAt(events, IsFutureAt(now), i) && events[i] == NextClass(events, now).value;
    var j :| EarliestAt(events, Both(IsFutureAt(now), IsOnWeekday(Lower(dayName), locale.weekday)), j)
          && events[j] == NextClassOnDay(events, dayName, now, locale).value;
    assert IsFutureAt(now)(events[j]);
  }

  // ---------------------------------------------------------------------------
  // Validation

  const NoEventsMessage := "No events found in the timetable. Please check if the file is valid."
  const PastEventsMessage := "This timetable contains only past events. Please upload your current timetable."

  /** `validateTimetable`: an advisory message, or `None` (null) when the timetable is usable. */
  function ValidateTimetable(events: seq<Event>, now: Instant): (r: Option<string>)
    ensures r.Some? ==> r.value == NoEventsMessage || r.value == PastEventsMessage
  {
    if |events| == 0 then Some(NoEventsMessage)
    else if |Filter(events, IsFutureAt(now))| == 0 then Some(PastEventsMessage)
    else None
  }

  /**
   * The empty-timetable message exactly for no events, the past-events message
   * exactly when there are events but none ends after `now`, and null exactly when
   * some event ends after `now`.
   */
  lemma ValidateTimetableSpec(events: seq<Event>, now: Instant)
    ensures ValidateTimetable(events, now) == Some(NoEventsMessage) <==> events == []
    ensures ValidateTimetable(events, now) == Some(PastEventsMessage) <==>
      events != [] && forall e :: e in events ==> e.endDate <= now
    ensures ValidateTimetable(events, now).None? <==> exists e :: e in events && e.endDate > now
  {
    assert NoEventsMessage != PastEventsMessage by {
      assert |NoEventsMessage| == 68 && |PastEventsMessage| == 79;
    }
    if events != [] && |Filter(events, IsFutureAt(now))| != 0 {
      var e := Filter(events, IsFutureAt(now))[0];
      assert e in Filter(events, IsFutureAt(now));
    }
  }

  /**
   * Validating what `parseICSFile` returned, at the instant it was parsed, never
   * reports only past events: it is the empty-timetable message or null.
   */
  lemma ParsedTimetableValidates(lib: LibraryResult, now: Instant)
    ensures ParseIcs(lib, now) == [] ==> ValidateTimetable(ParseIcs(lib, now), now) == Some(NoEventsMessage)
    ensures ParseIcs(lib, now) != [] ==> ValidateTimetable(ParseIcs(lib, now), now).None?
  {
    var events := ParseIcs(lib, now);
    if events != [] {
      assert events[0] in events;
      ValidateTimetableSpec(events, now);
    }
  }

  // ---------------------------------------------------------------------------
  // Formatting

  /** `${summary} at ${location} on ${formatEventDate(startDate)}`. */
  function BaseLine(e: Event, locale: Locale): string {
    e.summary + " at " + e.location + " on " + locale.format(e.startDate)
  }

  const ClassLabel := "Class: "

  function ClassLine(e: Event): string {
    if Truthy(e.classTitle) then "\n" + ClassLabel + e.classTitle.value else ""
  }

  function InstructorLine(e: Event): string {
    if Truthy(e.instructor) then "\n" + InstructorLabel + e.instructor.value else ""
  }

  /** `formatEventDetails`: the base line, then the class line, then the instructor line. */
  function FormatEventDetails(e: Event, locale: Locale): string {
    BaseLine(e, locale) + ClassLine(e) + InstructorLine(e)
  }

  /**
   * The details always open with the base line; the class line comes right after
   * it when the class title is non-empty, the text ends with the instructor line
   * when the instructor is non-empty, and with neither the base line is all. The
   * length leaves room for nothing else.
   */
  lemma FormatEventDetailsShape(e: Event, locale: Locale)
    ensures var d, b := FormatEventDetails(e, locale), BaseLine(e, locale);
      && |b| <= |d| && d[..|b|] == b
      && (Truthy(e.classTitle) ==>
            var line := "\n" + ClassLabel + e.classTitle.value;
            |b| + |line| <= |d| && d[|b|..|b| + |line|] == line)
      && (Truthy(e.instructor) ==>
            var line := "\n" + InstructorLabel + e.instructor.value;
            |line| <= |d| && d[|d| - |line|..] == line)
      && (d == b <==> !Truthy(e.classTitle) && !Truthy(e.instructor))
      && |d| == |b|
           + (if Truthy(e.classTitle) then |"\n" + ClassLabel + e.classTitle.value| else 0)
           + (if Truthy(e.instructor) then |"\n" + InstructorLabel + e.instructor.value| else 0)
  {
  }

  /**
   * The details block shows a clean class title on its own `Class: ` line: reading
   * it back with the description's form of expression, under the label `Class: `
   * rather than `Class Title: `, gives the title,
   * provided the base line does not itself contain `Class: `.
   */
  lemma DetailsShowClassTitle(e: Event, locale: Locale)
    requires Truthy(e.classTitle)
    requires NoLineTerminator(e.classTitle.value) && Trimmed(e.classTitle.value)
    requires forall p :: !Occurs(ClassLabel, BaseLine(e, locale), p)
    ensures Extract(ClassLabel, FormatEventDetails(e, locale)) == e.classTitle
  {
    var b, v, post := BaseLine(e, locale), e.classTitle.value, InstructorLine(e);
    assert '\n' !in ClassLabel;
    NoOccurrenceAcrossNewline(ClassLabel, b, ClassLabel + v + post);
    assert FormatEventDetails(e, locale) == (b + "\n") + ClassLabel + v + post;
    assert b + "\n" + (ClassLabel + v + post) == (b + "\n") + ClassLabel + v + post;
    ExtractLine(ClassLabel, b + "\n", v, post);
  }

  /**
   * Likewise a clean instructor is read back from the last line of the details,
   * provided neither the base line nor the class line contains `Instructor: `.
   */
  lemma DetailsShowInstructor(e: Event, locale: Locale)
    requires Truthy(e.instructor)
    requires NoLineTerminator(e.instructor.value) && Trimmed(e.instructor.value)
    requires forall p :: !Occurs(InstructorLabel, BaseLine(e, locale) + ClassLine(e), p)
    ensures Extract(InstructorLabel, FormatEventDetails(e, locale)) == e.instructor
  {
    var b, v := BaseLine(e, locale) + ClassLine(e), e.instructor.value;
    assert '\n' !in InstructorLabel;
    NoOccurrenceAcrossNewline(InstructorLabel, b, InstructorLabel + v);
    assert FormatEventDetails(e, locale) == (b + "\n") + InstructorLabel + v + [];
    assert b + "\n" + (InstructorLabel + v) == (b + "\n") + InstructorLabel + v + [];
    ExtractLine(InstructorLabel, b + "\n", v, []);
  }

  /** An event that ends after `now`, named and placed in time for the examples. */
  function Sample(summary: string, start: Instant, end: Instant): Event {
    Event(summary, "Room 1", start, end, "PT1H0M", "CONFIRMED", "", None, None, None)
  }

  /**
   * With A starting in one hour, B in three, and C started an hour ago but ending
   * in half an hour, the next class is C: a class under way still ends after now.
   */
  lemma NextClassExample()
    ensures var hour := 3600000;
      var a, b, c := Sample("A", hour, 2 * hour), Sample("B", 3 * hour, 4 * hour), Sample("C", -hour, hour / 2);
      NextClass([a, b, c], 0) == Some(c)
  {
    var hour := 3600000;
    var a, b, c := Sample("A", hour, 2 * hour), Sample("B", 3 * hour, 4 * hour), Sample("C", -hour, hour / 2);
    var s := [a, b, c];
    NextClassSpec(s, 0);
    var i :| EarliestAt(s, IsFutureAt(0), i) && s[i] == NextClass(s, 0).value;
    assert IsFutureAt(0)(s[2]);
    assert i == 2 by {
      assert s[i].startDate <= s[2].startDate;
    }
  }

  /** With C already over, the next class is A, the earliest start among the rest. */
  lemma NextClassSkipsPastExample()
    ensures var hour := 3600000;
      var a, b, c := Sample("A", hour, 2 * hour), Sample("B", 3 * hour, 4 * hour), Sample("C", -hour, -hour / 2);
      NextClass([c, b, a], 0) == Some(a)
  {
    var hour := 3600000;
    var a, b, c := Sample("A", hour, 2 * hour), Sample("B", 3 * hour, 4 * hour), Sample("C", -hour, -hour / 2);
    var s := [c, b, a];
    NextClassSpec(s, 0);
    var i :| EarliestAt(s, IsFutureAt(0), i) && s[i] == NextClass(s, 0).value;
    assert IsFutureAt(0)(s[2]);
    assert i == 2 by {
      assert s[i].startDate <= s[2].startDate;
      assert !IsFutureAt(0)(s[0]);
    }
  }
}
