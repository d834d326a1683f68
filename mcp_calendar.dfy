/** MCPCalendarManager: validation of a candidate event, its translation into
    a Google-Calendar-shaped payload, submission to a calendar sink, and the
    batch tally of successes and failures. */
module Calendar {
  import opened PyValues
  import IsoDateTime

  /** The fields that validate_event_data requires, in the order it checks them. */
  const RequiredFields: seq<string> := ["title", "start_date"]

  /** The verdict of validate_event_data. MissingField and InvalidDate are its
      two False returns (with the field or text it logs); NotAString is the
      TypeError that datetime.fromisoformat raises on a truthy start_date that
      is not a string, which validate_event_data does not catch. */
  datatype Validation = Valid | MissingField(field: string) | InvalidDate(text: string) | NotAString

  /** One side of the event in the payload: {'date': d} or
      {'dateTime': t, 'timeZone': z}. */
  datatype When = AllDay(date: Value) | Timed(dateTime: string, timeZone: string)

  /** The Google Calendar payload; location is None where the key is not set. */
  datatype GcalEvent = GcalEvent(summary: Value, description: Value, start: When, end: When, location: Option<Value>)

  /** The time zone every timed slot is given. */
  const TimeZone := "UTC"

  /** `field not in event or not event[field]` */
  predicate Missing(e: Event, field: string) {
    !Truthy(Get(e, field, Null))
  }

  /** The first field of `fields` that the event lacks, checking them in order. */
  function FirstMissingField(e: Event, fields: seq<string>): (r: Option<string>)
    ensures r.None? <==> forall k :: 0 <= k < |fields| ==> !Missing(e, fields[k])
    ensures r.Some? ==> exists k :: 0 <= k < |fields| && fields[k] == r.value && Missing(e, fields[k])
                          && forall j :: 0 <= j < k ==> !Missing(e, fields[j])
  {
    if fields == [] then None
    else if Missing(e, fields[0]) then Some(fields[0])
    else
      var rest := FirstMissingField(e, fields[1..]);
      assert forall k :: 1 <= k < |fields| ==> fields[k] == fields[1..][k - 1];
      rest
  }

  /** validate_event_data (mcp_calendar.py:24-48). */
  function ValidateEventData(e: Event): (r: Validation)
    ensures r.MissingField? ==> r.field in RequiredFields && Missing(e, r.field)
    ensures r == MissingField("title") <==> Missing(e, "title")
    ensures r == MissingField("start_date") <==> !Missing(e, "title") && Missing(e, "start_date")
    ensures r == Valid <==>
              && !Missing(e, "title")
              && Get(e, "start_date", Null).Str?
              && IsoDateTime.FromIsoFormat(Get(e, "start_date", Null).s).Some?
    ensures r.InvalidDate? <==>
              && !Missing(e, "title") && !Missing(e, "start_date")
              && Get(e, "start_date", Null).Str? && IsoDateTime.FromIsoFormat(Get(e, "start_date", Null).s).None?
    ensures r == NotAString <==> !Missing(e, "title") && !Missing(e, "start_date") && !Get(e, "start_date", Null).Str?
  {
    match FirstMissingField(e, RequiredFields)
    case Some(field) => MissingField(field)
    case None =>
      assert !Missing(e, RequiredFields[0]) && !Missing(e, RequiredFields[1]);
      match e["start_date"]
      case Str(s) => if IsoDateTime.FromIsoFormat(s).Some? then Valid else InvalidDate(s)
      case _ => NotAString
  }

  /** The f-string f"{date}T{time}:00" */
  function Stamp(date: Value, time: Value): string {
    Render(date) + "T" + Render(time) + ":00"
  }

  /** The default end: the start instant parsed and advanced by one hour. */
  function OneHourLater(start: string): (r: Result<When>)
  {
    match IsoDateTime.FromIsoFormat(start)
    case None => Err(ValueError)
    case Some(dt) =>
      match IsoDateTime.PlusOneHour(dt)
      case None => Err(OverflowError)
      case Some(later) => Ok(Timed(IsoDateTime.IsoFormat(later), TimeZone))
  }

  /** The note appended to the description when the event has a url. */
  function SourceNote(url: Value): string {
    "\n\nSource: " + Render(url)
  }

  /** format_event_for_gcal (mcp_calendar.py:50-117); Err is the exception it raises. */
  function FormatEventForGcal(e: Event): (r: Result<GcalEvent>)
    // the summary is the title, the placeholder only when the key is absent
    ensures r.Ok? ==> r.value.summary == if "title" in e then e["title"] else Str("Untitled Event")
    // the start is timed exactly when start_time is truthy, with the time copied verbatim
    ensures r.Ok? ==> (r.value.start.Timed? <==> Truthy(Get(e, "start_time", Null)))
    ensures r.Ok? && Truthy(Get(e, "start_time", Null)) ==>
              r.value.start == Timed(Stamp(Get(e, "start_date", Null), e["start_time"]), TimeZone)
    ensures r.Ok? && !Truthy(Get(e, "start_time", Null)) ==> r.value.start == AllDay(Get(e, "start_date", Null))
    // the end is timed exactly when end_time or start_time is truthy
    ensures r.Ok? ==> (r.value.end.Timed? <==> Truthy(Get(e, "end_time", Null)) || Truthy(Get(e, "start_time", Null)))
    ensures r.Ok? && Truthy(Get(e, "end_time", Null)) ==>
              r.value.end == Timed(Stamp(Get(e, "end_date", Get(e, "start_date", Null)), e["end_time"]), TimeZone)
    ensures r.Ok? && !Truthy(Get(e, "end_time", Null)) && !Truthy(Get(e, "start_time", Null)) ==>
              r.value.end == AllDay(Get(e, "end_date", Get(e, "start_date", Null)))
    // location is copied only when truthy
    ensures r.Ok? ==> r.value.location == if Truthy(Get(e, "location", Null)) then Some(e["location"]) else None
    // the description, with the source note iff url is truthy
    ensures r.Ok? && !Truthy(Get(e, "url", Null)) ==> r.value.description == Get(e, "description", Str(""))
    ensures r.Ok? && Truthy(Get(e, "url", Null)) ==>
              Get(e, "description", Str("")).Str? &&
              r.value.description == Str(Get(e, "description", Str("")).s + SourceNote(e["url"]))
    // the only failures: the one-hour default cannot be computed, or the
    // description cannot take the note
    ensures r.Err? <==>
              || (!Truthy(Get(e, "end_time", Null)) && Truthy(Get(e, "start_time", Null))
                  && OneHourLater(Stamp(Get(e, "start_date", Null), e["start_time"])).Err?)
              || (Truthy(Get(e, "url", Null)) && !Get(e, "description", Str("")).Str?)
  {
    var startDate := Get(e, "start_date", Null);
    var startTime := Get(e, "start_time", Null);
    var start := if Truthy(startTime) then Timed(Stamp(startDate, startTime), TimeZone) else AllDay(startDate);
    var endDate := Get(e, "end_date", startDate);
    var endTime := Get(e, "end_time", Null);
    var end :=
      if Truthy(endTime) then Ok(Timed(Stamp(endDate, endTime), TimeZone))
      else if Truthy(startTime) then OneHourLater(Stamp(startDate, startTime))
      else Ok(AllDay(endDate));
    if end.Err? then Err(end.error)
    else
      var summary := Get(e, "title", Str("Untitled Event"));
      var description := Get(e, "description", Str(""));
      var location := if Truthy(Get(e, "location", Null)) then Some(e["location"]) else None;
      if !Truthy(Get(e, "url", Null)) then Ok(GcalEvent(summary, description, start, end.value, location))
      else if description.Str? then
        Ok(GcalEvent(summary, Str(description.s + SourceNote(e["url"])), start, end.value, location))
      else Err(TypeError)
  }

  /** With a start time and no end time, the end is one hour after the start:
      the end dateTime reads back as the start instant plus exactly 3600 seconds,
      on whatever calendar date that falls, whatever end_date says. */
  lemma OneHourDefault(e: Event)
    requires FormatEventForGcal(e).Ok?
    requires Truthy(Get(e, "start_time", Null)) && !Truthy(Get(e, "end_time", Null))
    ensures var g := FormatEventForGcal(e).value;
            && g.end.Timed? && g.end.timeZone == TimeZone
            && IsoDateTime.FromIsoFormat(g.start.dateTime).Some?
            && IsoDateTime.FromIsoFormat(g.end.dateTime).Some?
            && IsoDateTime.EpochSeconds(IsoDateTime.FromIsoFormat(g.end.dateTime).value)
               == IsoDateTime.EpochSeconds(IsoDateTime.FromIsoFormat(g.start.dateTime).value) + 3600
  {
    var g := FormatEventForGcal(e).value;
    var stamp := Stamp(Get(e, "start_date", Null), e["start_time"]);
    assert g.start.dateTime == stamp;
    var s0 := IsoDateTime.FromIsoFormat(stamp).value;
    var s1 := IsoDateTime.PlusOneHour(s0).value;
    IsoDateTime.PlusOneHourIsAnHour(s0);
    assert g.end.dateTime == IsoDateTime.IsoFormat(s1);
    IsoDateTime.IsoFormatRoundTrip(s1);
  }

  /** The placeholder for the MCP call (mcp_calendar.py:158-177): it accepts every payload. */
  function SimulateMcpCall(g: GcalEvent): bool {
    true
  }

  /** add_event_via_mcp (mcp_calendar.py:119-156): validate, format, submit to
      the sink; every exception is converted to False. */
  function AddEventViaMcp(e: Event, sink: GcalEvent -> bool): (ok: bool)
    ensures ok ==> ValidateEventData(e) == Valid
    ensures ok ==> FormatEventForGcal(e).Ok? && sink(FormatEventForGcal(e).value)
    ensures ValidateEventData(e) == Valid && FormatEventForGcal(e).Ok? && sink(FormatEventForGcal(e).value) ==> ok
  {
    match ValidateEventData(e)
    case Valid =>
      (match FormatEventForGcal(e)
       case Ok(g) => sink(g)
       case Err(_) => false)
    case _ => false
  }

  /** Against the simulated call, an event is added exactly when it validates
      and formats. */
  lemma SimulatedSinkAcceptsValid(e: Event)
    ensures AddEventViaMcp(e, SimulateMcpCall) <==> ValidateEventData(e) == Valid && FormatEventForGcal(e).Ok?
  {
  }

  /** The results dictionary {"successful": .., "failed": ..}. */
  datatype Counts = Counts(successful: nat, failed: nat)

  function Plus(a: Counts, b: Counts): Counts {
    Counts(a.successful + b.successful, a.failed + b.failed)
  }

  /** The counters after deciding every item in order, `accept` telling
      whether one item is added. */
  function TallyBy<T>(items: seq<T>, accept: T -> bool): (c: Counts)
    ensures c.successful + c.failed == |items|
  {
    if items == [] then Counts(0, 0)
    else
      var c := TallyBy(items[..|items| - 1], accept);
      if accept(items[|items| - 1]) then c.(successful := c.successful + 1)
      else c.(failed := c.failed + 1)
  }

  /** The counters after submitting every event in order to add_event_via_mcp. */
  function Tally(events: seq<Event>, sink: GcalEvent -> bool): Counts {
    TallyBy(events, (e: Event) => AddEventViaMcp(e, sink))
  }

  /** Tallying two runs back to back adds their counters. */
  lemma {:induction false} TallyAppend<T>(a: seq<T>, b: seq<T>, accept: T -> bool)
    ensures TallyBy(a + b, accept) == Plus(TallyBy(a, accept), TallyBy(b, accept))
    decreases |b|
  {
    if b == [] {
      assert a + b == a;
    } else {
      var n := |b| - 1;
      var ab := a + b;
      assert ab[..|ab| - 1] == a + b[..n];
      assert ab[|ab| - 1] == b[n];
      TallyAppend(a, b[..n], accept);
    }
  }

  /** Taking out the k-th item takes its own count out of the counters. */
  lemma TallyRemove<T>(b: seq<T>, k: nat, accept: T -> bool)
    requires k < |b|
    ensures TallyBy(b, accept) == Plus(TallyBy(b[..k] + b[k + 1..], accept), TallyBy([b[k]], accept))
  {
    var front, back := b[..k], b[k + 1..];
    assert b == front + [b[k]] + back;
    TallyAppend(front + [b[k]], back, accept);
    TallyAppend(front, [b[k]], accept);
    TallyAppend(front, back, accept);
  }

  lemma MultisetWithout<T>(s: seq<T>, k: nat)
    requires k < |s|
    ensures multiset(s[..k] + s[k + 1..]) == multiset(s) - multiset{s[k]}
  {
    assert s == s[..k] + [s[k]] + s[k + 1..];
    assert multiset(s) == multiset(s[..k]) + multiset{s[k]} + multiset(s[k + 1..]);
  }

  /** The counters do not depend on the order of the events. */
  lemma {:induction false} TallyOrderIndependent<T>(a: seq<T>, b: seq<T>, accept: T -> bool)
    requires multiset(a) == multiset(b)
    ensures TallyBy(a, accept) == TallyBy(b, accept)
    decreases |a|
  {
    if a == [] {
      assert |b| == |multiset(b)| == 0;
    } else {
      var n := |a| - 1;
      var x := a[n];
      assert a == a[..n] + [x];
      assert x in multiset(b);
      var k :| 0 <= k < |b| && b[k] == x;
      var rest := b[..k] + b[k + 1..];
      MultisetWithout(b, k);
      MultisetWithout(a, n);
      assert a[..n] + a[n + 1..] == a[..n];
      TallyOrderIndependent(a[..n], rest, accept);
      TallyAppend(a[..n], [x], accept);
      TallyRemove(b, k, accept);
    }
  }

  /** batch_add_events (mcp_calendar.py:179-197). */
  method BatchAddEvents(events: seq<Event>, sink: GcalEvent -> bool) returns (results: Counts)
    ensures results == Tally(events, sink)
    ensures results.successful + results.failed == |events|
  {
    results := Counts(0, 0);
    for i := 0 to |events|
      invariant results == TallyBy(events[..i], (e: Event) => AddEventViaMcp(e, sink))
    {
      assert events[..i + 1][..i] == events[..i];
      if AddEventViaMcp(events[i], sink) {
        results := results.(successful := results.successful + 1);
      } else {
        results := results.(failed := results.failed + 1);
      }
    }
    assert events[..|events|] == events;
  }
}
