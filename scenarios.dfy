/** The model's result on concrete events: the test event of the calendar
    manager's own entry point (mcp_calendar.py:238-246), and the edge cases
    the code handles in its own particular way. Each scenario names its event
    in a precondition and takes the string facts it needs from the lemmas at
    the end of the module. */
module Scenarios {
  import opened PyValues
  import IsoDateTime
  import Calendar
  import PyDict
  import ScrapingAgent

  // ---------------------------------------------------------------------------
  // Scenarios of format_event_for_gcal and add_event_via_mcp

  /** The test event of mcp_calendar.py:238-246: a timed slot with a
      location, whose description gains the source note, added by the
      simulated call. */
  lemma ManagerTestEvent(e: Event)
    requires e == map["title" := Str("Test Event"), "start_date" := Str("2024-01-15"),
                      "start_time" := Str("14:00"), "end_time" := Str("15:00"),
                      "description" := Str("This is a test event"), "location" := Str("Test Location"),
                      "url" := Str("https://example.com/event")]
    ensures Calendar.ValidateEventData(e) == Calendar.Valid
    ensures Calendar.FormatEventForGcal(e)
            == Ok(Calendar.GcalEvent(Str("Test Event"),
                                     Str("This is a test event" + "\n\nSource: " + "https://example.com/event"),
                                     Calendar.Timed("2024-01-15T14:00:00", "UTC"),
                                     Calendar.Timed("2024-01-15T15:00:00", "UTC"),
                                     Some(Str("Test Location"))))
    ensures Calendar.AddEventViaMcp(e, Calendar.SimulateMcpCall)
  {
    assert Get(e, "title", Null) == Str("Test Event") && Get(e, "start_date", Null) == Str("2024-01-15");
    assert Get(e, "start_time", Null) == Str("14:00") && Get(e, "end_time", Null) == Str("15:00");
    assert Get(e, "end_date", Str("2024-01-15")) == Str("2024-01-15");
    assert Get(e, "description", Str("")) == Str("This is a test event");
    assert Get(e, "location", Null) == Str("Test Location");
    assert Get(e, "url", Null) == Str("https://example.com/event");
    TestEventDateReads();
    TestEventStamps();
    var r := Calendar.FormatEventForGcal(e);
    assert r.Ok?;
    assert r.value.summary == Str("Test Event");
    assert r.value.start == Calendar.Timed("2024-01-15T14:00:00", "UTC");
    assert r.value.end == Calendar.Timed("2024-01-15T15:00:00", "UTC");
    assert r.value.location == Some(Str("Test Location"));
    assert r.value.description == Str("This is a test event" + "\n\nSource: " + "https://example.com/event");
  }

  /** A talk with a start time and no end: a one-hour slot on the same day. */
  lemma TechTalkLastsAnHour(e: Event)
    requires e == map["title" := Str("Tech Talk"), "start_date" := Str("2025-06-01"), "start_time" := Str("14:00")]
    ensures Calendar.ValidateEventData(e) == Calendar.Valid
    ensures Calendar.FormatEventForGcal(e)
            == Ok(Calendar.GcalEvent(Str("Tech Talk"), Str(""),
                                     Calendar.Timed("2025-06-01T14:00:00", "UTC"),
                                     Calendar.Timed("2025-06-01T15:00:00", "UTC"), None))
  {
    assert Get(e, "title", Null) == Str("Tech Talk") && Get(e, "start_date", Null) == Str("2025-06-01");
    assert Get(e, "start_time", Null) == Str("14:00");
    assert Get(e, "end_time", Null) == Null && Get(e, "url", Null) == Null && Get(e, "location", Null) == Null;
    assert Get(e, "description", Str("")) == Str("");
    TechTalkStamps();
    DefaultEnd(e, IsoDateTime.DateTime(2025, 6, 1, 14, 0, 0));
  }

  /** The default hour crosses midnight, the year and the month. */
  lemma DefaultHourRollsOver(e: Event)
    requires e == map["title" := Str("Countdown"), "start_date" := Str("2024-12-31"), "start_time" := Str("23:30")]
    ensures Calendar.FormatEventForGcal(e).Ok?
    ensures Calendar.FormatEventForGcal(e).value.end == Calendar.Timed("2025-01-01T00:30:00", "UTC")
  {
    assert Get(e, "start_date", Null) == Str("2024-12-31") && Get(e, "start_time", Null) == Str("23:30");
    assert Get(e, "end_time", Null) == Null && Get(e, "url", Null) == Null;
    var eve := IsoDateTime.DateTime(2024, 12, 31, 23, 30, 0);
    assert IsoDateTime.PlusOneHour(eve) == Some(IsoDateTime.DateTime(2025, 1, 1, 0, 30, 0));
    EveStamp();
    NewYearStamp();
    DefaultEnd(e, eve);
  }

  /** A festival without times: an all-day range with both dates taken verbatim. */
  lemma FestivalIsAllDay(e: Event)
    requires e == map["title" := Str("Festival"), "start_date" := Str("2025-07-04"), "end_date" := Str("2025-07-06")]
    ensures Calendar.FormatEventForGcal(e).Ok?
    ensures Calendar.FormatEventForGcal(e).value.start == Calendar.AllDay(Str("2025-07-04"))
    ensures Calendar.FormatEventForGcal(e).value.end == Calendar.AllDay(Str("2025-07-06"))
  {
    assert Get(e, "start_date", Null) == Str("2025-07-04") && Get(e, "end_date", Null) == Str("2025-07-06");
    assert Get(e, "start_time", Null) == Null && Get(e, "end_time", Null) == Null && Get(e, "url", Null) == Null;
  }

  /** An end time without a start time: an all-day start and a timed end on
      the start date. */
  lemma EndTimeWithoutStartTime(e: Event)
    requires e == map["title" := Str("Deadline"), "start_date" := Str("2025-03-01"), "end_time" := Str("17:00")]
    ensures Calendar.FormatEventForGcal(e).Ok?
    ensures Calendar.FormatEventForGcal(e).value.start == Calendar.AllDay(Str("2025-03-01"))
    ensures Calendar.FormatEventForGcal(e).value.end == Calendar.Timed("2025-03-01T17:00:00", "UTC")
  {
    assert Get(e, "start_date", Null) == Str("2025-03-01") && Get(e, "end_time", Null) == Str("17:00");
    assert Get(e, "start_time", Null) == Null && Get(e, "url", Null) == Null;
    assert Get(e, "end_date", Str("2025-03-01")) == Str("2025-03-01");
    assert Calendar.Stamp(Str("2025-03-01"), Str("17:00")) == "2025-03-01T17:00:00";
  }

  /** Times outside the one-hour branch are copied without being checked. */
  lemma TimesAreNotChecked(e: Event)
    requires e == map["title" := Str("Odd"), "start_date" := Str("2025-01-01"),
                      "start_time" := Str("25:99"), "end_time" := Str("26:00")]
    ensures Calendar.AddEventViaMcp(e, Calendar.SimulateMcpCall)
    ensures Calendar.FormatEventForGcal(e).value.start == Calendar.Timed("2025-01-01T25:99:00", "UTC")
  {
    assert Get(e, "title", Null) == Str("Odd") && Get(e, "start_date", Null) == Str("2025-01-01");
    assert Get(e, "start_time", Null) == Str("25:99") && Get(e, "end_time", Null) == Str("26:00");
    assert Get(e, "url", Null) == Null;
    NewYearsDayReads();
    assert Calendar.Stamp(Str("2025-01-01"), Str("25:99")) == "2025-01-01T25:99:00";
  }

  /** ... but in the one-hour branch a malformed start time makes the
      formatter raise, and the event is not added. */
  lemma MalformedStartTimeFails(e: Event)
    requires e == map["title" := Str("Odd"), "start_date" := Str("2025-01-01"), "start_time" := Str("25:99")]
    ensures Calendar.FormatEventForGcal(e) == Err(ValueError)
    ensures !Calendar.AddEventViaMcp(e, Calendar.SimulateMcpCall)
  {
    assert Get(e, "start_date", Null) == Str("2025-01-01") && Get(e, "start_time", Null) == Str("25:99");
    assert Get(e, "end_time", Null) == Null;
    assert Calendar.Stamp(Str("2025-01-01"), Str("25:99")) == "2025-01-01T25:99:00";
    OddStampUnreadable();
  }

  /** A missing title fails validation before the date is looked at. */
  lemma MissingTitleFails(e: Event)
    requires e == map["start_date" := Str("not-a-date")]
    ensures Calendar.ValidateEventData(e) == Calendar.MissingField("title")
    ensures !Calendar.AddEventViaMcp(e, Calendar.SimulateMcpCall)
  {
    assert Get(e, "title", Null) == Null;
  }

  /** An empty title counts as missing. */
  lemma EmptyTitleFails(e: Event)
    requires e == map["title" := Str(""), "start_date" := Str("2025-01-01")]
    ensures Calendar.ValidateEventData(e) == Calendar.MissingField("title")
  {
    assert Get(e, "title", Null) == Str("");
  }

  /** A start date that fromisoformat rejects fails validation. */
  lemma BadDateFails(e: Event)
    requires e == map["title" := Str("X"), "start_date" := Str("not-a-date")]
    ensures Calendar.ValidateEventData(e) == Calendar.InvalidDate("not-a-date")
    ensures !Calendar.AddEventViaMcp(e, Calendar.SimulateMcpCall)
  {
    assert Get(e, "title", Null) == Str("X") && Get(e, "start_date", Null) == Str("not-a-date");
    assert !IsoDateTime.DateShaped("not-a-date");
  }

  /** The source note follows the description. */
  lemma SourceNoteAppended(e: Event)
    requires e == map["title" := Str("Talk"), "start_date" := Str("2025-01-01"),
                      "description" := Str("Talk"), "url" := Str("https://a.io")]
    ensures Calendar.FormatEventForGcal(e).Ok?
    ensures Calendar.FormatEventForGcal(e).value.description == Str("Talk" + "\n\nSource: " + "https://a.io")
  {
    assert Get(e, "start_time", Null) == Null && Get(e, "end_time", Null) == Null;
    assert Get(e, "url", Null) == Str("https://a.io");
    assert Get(e, "description", Str("")) == Str("Talk");
    assert Calendar.SourceNote(Str("https://a.io")) == "\n\nSource: " + "https://a.io";
  }

  /** A null description with a url: None += str raises TypeError, and the
      event is reported as failed although it validates. */
  lemma NullDescriptionWithUrlFails(e: Event)
    requires e == map["title" := Str("Talk"), "start_date" := Str("2025-01-01"),
                      "description" := Null, "url" := Str("https://a.io")]
    ensures Calendar.ValidateEventData(e) == Calendar.Valid
    ensures Calendar.FormatEventForGcal(e) == Err(TypeError)
    ensures !Calendar.AddEventViaMcp(e, Calendar.SimulateMcpCall)
  {
    assert Get(e, "title", Null) == Str("Talk") && Get(e, "start_date", Null) == Str("2025-01-01");
    assert Get(e, "start_time", Null) == Null && Get(e, "end_time", Null) == Null;
    assert Get(e, "url", Null) == Str("https://a.io") && Get(e, "description", Str("")) == Null;
    NewYearsDayReads();
  }

  /** Two valid events and one invalid one, against the simulated call. */
  lemma BatchOfThree(a: Event, b: Event, c: Event)
    requires a == map["title" := Str("A"), "start_date" := Str("2025-01-01")]
    requires b == map["start_date" := Str("2025-01-01")]
    requires c == map["title" := Str("B"), "start_date" := Str("2025-01-02")]
    ensures Calendar.Tally([a, b, c], Calendar.SimulateMcpCall) == Calendar.Counts(2, 1)
  {
    PlainEventAdded(a, "A", "2025-01-01");
    assert Get(b, "title", Null) == Null;
    PlainEventAdded(c, "B", "2025-01-02");
    TallyOfThree(a, b, c, (e: Event) => Calendar.AddEventViaMcp(e, Calendar.SimulateMcpCall));
  }

  // ---------------------------------------------------------------------------
  // Scenario of scrape_multiple_pages

  /** A URL listed twice is scraped twice but keeps one entry, in its first
      position, holding the second result. */
  lemma DuplicateUrlKeepsLastResult(fetch: (nat, string) -> ScrapingAgent.FetchResult)
    ensures var d := ScrapingAgent.ScrapeAll(["a", "b", "a"], fetch);
            && PyDict.Keys(d) == ["a", "b"]
            && PyDict.Lookup(d, "a") == Some(ScrapingAgent.ScrapeWebpage("a", fetch(2, "a")))
  {
    var urls := ["a", "b", "a"];
    ScrapingAgent.ScrapedKeys(urls, fetch, "a");
    ScrapingAgent.ScrapedValueIsLastFetch(urls, fetch, 2);
    assert urls[..2][..1] == ["a"] && urls[..2] == ["a", "b"] && ["a"][..0] == [];
  }

  // ---------------------------------------------------------------------------
  // Steps shared by the scenarios

  /** An event whose start stamp is what isoformat writes for dt, with no
      end time, gets the end isoformat writes for dt plus an hour. */
  lemma DefaultEnd(e: Event, dt: IsoDateTime.DateTime)
    requires IsoDateTime.Valid(dt) && IsoDateTime.PlusOneHour(dt).Some?
    requires Truthy(Get(e, "start_time", Null)) && !Truthy(Get(e, "end_time", Null))
    requires !Truthy(Get(e, "url", Null)) || Get(e, "description", Str("")).Str?
    requires Calendar.Stamp(Get(e, "start_date", Null), e["start_time"]) == IsoDateTime.IsoFormat(dt)
    ensures Calendar.FormatEventForGcal(e).Ok?
    ensures Calendar.FormatEventForGcal(e).value.start == Calendar.Timed(IsoDateTime.IsoFormat(dt), "UTC")
    ensures Calendar.FormatEventForGcal(e).value.end
            == Calendar.Timed(IsoDateTime.IsoFormat(IsoDateTime.PlusOneHour(dt).value), "UTC")
  {
    IsoDateTime.IsoFormatRoundTrip(dt);
  }

  /** An event with just a title and a date that fromisoformat reads is added. */
  lemma PlainEventAdded(e: Event, title: string, date: string)
    requires e == map["title" := Str(title), "start_date" := Str(date)]
    requires title != [] && (date == "2025-01-01" || date == "2025-01-02")
    ensures Calendar.AddEventViaMcp(e, Calendar.SimulateMcpCall)
  {
    assert Get(e, "title", Null) == Str(title) && Get(e, "start_date", Null) == Str(date);
    assert Get(e, "start_time", Null) == Null && Get(e, "end_time", Null) == Null && Get(e, "url", Null) == Null;
    if date == "2025-01-01" {
      NewYearsDayReads();
    } else {
      SecondOfJanuaryReads();
    }
  }

  /** Three items of which the first and the last are accepted. */
  lemma TallyOfThree<T>(x: T, y: T, z: T, accept: T -> bool)
    requires accept(x) && !accept(y) && accept(z)
    ensures Calendar.TallyBy([x, y, z], accept) == Calendar.Counts(2, 1)
  {
    assert [x, y, z][..2] == [x, y] && [x, y][..1] == [x] && [x][..0] == [];
    assert Calendar.TallyBy([x], accept) == Calendar.Counts(1, 0);
    assert Calendar.TallyBy([x, y], accept) == Calendar.Counts(1, 1);
  }

  /** A literal that date.isoformat writes for a date is read back as that date. */
  lemma DateReadsBack(dt: IsoDateTime.DateTime, s: string)
    requires IsoDateTime.Valid(dt) && dt.hour == 0 && dt.minute == 0 && dt.second == 0
    requires IsoDateTime.IsoDate(dt) == s
    ensures IsoDateTime.FromIsoFormat(s) == Some(dt)
  {
    IsoDateTime.IsoDateRoundTrip(dt);
  }

  // ---------------------------------------------------------------------------
  // The strings the scenarios compute

  lemma TestEventDateReads()
    ensures IsoDateTime.FromIsoFormat("2024-01-15").Some?
  {
    var dt := IsoDateTime.DateTime(2024, 1, 15, 0, 0, 0);
    assert IsoDateTime.IsoDate(dt) == "2024-01-15";
    DateReadsBack(dt, "2024-01-15");
  }

  lemma TestEventStamps()
    ensures Calendar.Stamp(Str("2024-01-15"), Str("14:00")) == "2024-01-15T14:00:00"
    ensures Calendar.Stamp(Str("2024-01-15"), Str("15:00")) == "2024-01-15T15:00:00"
    ensures Calendar.SourceNote(Str("https://example.com/event")) == "\n\nSource: " + "https://example.com/event"
  {
  }

  lemma TechTalkStamps()
    ensures IsoDateTime.FromIsoFormat("2025-06-01").Some?
    ensures Calendar.Stamp(Str("2025-06-01"), Str("14:00")) == IsoDateTime.IsoFormat(IsoDateTime.DateTime(2025, 6, 1, 14, 0, 0))
    ensures IsoDateTime.IsoFormat(IsoDateTime.DateTime(2025, 6, 1, 14, 0, 0)) == "2025-06-01T14:00:00"
    ensures IsoDateTime.IsoFormat(IsoDateTime.DateTime(2025, 6, 1, 15, 0, 0)) == "2025-06-01T15:00:00"
  {
    var midnight := IsoDateTime.DateTime(2025, 6, 1, 0, 0, 0);
    assert IsoDateTime.IsoDate(midnight) == "2025-06-01";
    DateReadsBack(midnight, "2025-06-01");
    assert IsoDateTime.IsoTime(IsoDateTime.DateTime(2025, 6, 1, 14, 0, 0)) == "14:00:00";
    assert IsoDateTime.IsoTime(IsoDateTime.DateTime(2025, 6, 1, 15, 0, 0)) == "15:00:00";
  }

  lemma EveStamp()
    ensures Calendar.Stamp(Str("2024-12-31"), Str("23:30")) == IsoDateTime.IsoFormat(IsoDateTime.DateTime(2024, 12, 31, 23, 30, 0))
  {
    var eve := IsoDateTime.DateTime(2024, 12, 31, 23, 30, 0);
    assert IsoDateTime.IsoDate(eve) == "2024-12-31" && IsoDateTime.IsoTime(eve) == "23:30:00";
  }

  lemma NewYearStamp()
    ensures IsoDateTime.IsoFormat(IsoDateTime.DateTime(2025, 1, 1, 0, 30, 0)) == "2025-01-01T00:30:00"
  {
    var after := IsoDateTime.DateTime(2025, 1, 1, 0, 30, 0);
    assert IsoDateTime.IsoDate(after) == "2025-01-01" && IsoDateTime.IsoTime(after) == "00:30:00";
  }

  lemma NewYearsDayReads()
    ensures IsoDateTime.FromIsoFormat("2025-01-01").Some?
  {
    var dt := IsoDateTime.DateTime(2025, 1, 1, 0, 0, 0);
    assert IsoDateTime.IsoDate(dt) == "2025-01-01";
    DateReadsBack(dt, "2025-01-01");
  }

  lemma SecondOfJanuaryReads()
    ensures IsoDateTime.FromIsoFormat("2025-01-02").Some?
  {
    var dt := IsoDateTime.DateTime(2025, 1, 2, 0, 0, 0);
    assert IsoDateTime.IsoDate(dt) == "2025-01-02";
    DateReadsBack(dt, "2025-01-02");
  }

  /** Hour 25 and minute 99 have the shape of a time but not its range. */
  lemma OddStampUnreadable()
    ensures IsoDateTime.FromIsoFormat("2025-01-01T25:99:00").None?
  {
    var s := "2025-01-01T25:99:00";
    assert s[11..] == "25:99:00";
    assert IsoDateTime.ParseTime("25:99:00") == Some((25, 99, 0));
  }
}
