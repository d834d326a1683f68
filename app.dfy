/** EventScrapingAgent: scrape a list of pages, have the language model (or the
    demo fallback) extract candidate events from them, submit every candidate
    to the calendar manager and summarise the run. The HTTP fetch, the model
    call and json.loads are parameters. */
module ScrapingAgent {
  import opened PyValues
  import opened PyDict
  import TextCleanup
  import IsoDateTime
  import Calendar

  // ---------------------------------------------------------------------------
  // scrape_webpage and scrape_multiple_pages

  /** What fetching and parsing one URL produced: the text of the page
      (soup.get_text() once scripts and styles are removed), or str() of the
      exception raised on the way. */
  datatype FetchResult = Fetched(pageText: string) | FetchFailed(message: string)

  function ErrorPrefix(url: string): string {
    "Error scraping " + url + ": "
  }

  /** scrape_webpage (app.py:40-79): the cleaned page text, or an error string
      in place of the exception. */
  function ScrapeWebpage(url: string, fetched: FetchResult): (text: string)
    ensures fetched.Fetched? ==> text == TextCleanup.CleanText(fetched.pageText) && TextCleanup.Clean(text)
    ensures fetched.FetchFailed? ==> ErrorPrefix(url) <= text && text[|ErrorPrefix(url)|..] == fetched.message
  {
    match fetched
    case Fetched(raw) =>
      TextCleanup.CleanTextIsClean(raw);
      TextCleanup.CleanText(raw)
    case FetchFailed(message) =>
      var text := ErrorPrefix(url) + message;
      assert text[|ErrorPrefix(url)|..] == message;
      text
  }

  /** The URLs in order of first appearance, each once. */
  function FirstOccurrences(urls: seq<string>): (r: seq<string>)
    ensures forall u :: u in r <==> u in urls
    ensures |r| <= |urls|
    ensures forall i, j :: 0 <= i < j < |r| ==> r[i] != r[j]
    ensures urls != [] ==> r != [] && r[0] == urls[0]
  {
    if urls == [] then []
    else
      var n := |urls| - 1;
      var prefix := FirstOccurrences(urls[..n]);
      assert urls == urls[..n] + [urls[n]];
      assert n > 0 ==> urls[..n][0] == urls[0];
      if urls[n] in urls[..n] then prefix else prefix + [urls[n]]
  }

  /** The dictionary after `d[urls[i]] = value(i, urls[i])` for every i in order. */
  function AssignAll(urls: seq<string>, value: (nat, string) -> string): Dict {
    if urls == [] then []
    else
      var n := |urls| - 1;
      Put(AssignAll(urls[..n], value), urls[n], value(n, urls[n]))
  }

  /** The keys are the URLs in order of first appearance. */
  lemma {:induction false} AssignedKeys(urls: seq<string>, value: (nat, string) -> string)
    ensures Keys(AssignAll(urls, value)) == FirstOccurrences(urls)
    ensures |AssignAll(urls, value)| == |FirstOccurrences(urls)|
  {
    if urls != [] {
      var n := |urls| - 1;
      AssignedKeys(urls[..n], value);
      PutKeys(AssignAll(urls[..n], value), urls[n], value(n, urls[n]));
      assert urls == urls[..n] + [urls[n]];
    }
  }

  /** The value of each key is the one assigned by its last occurrence. */
  lemma {:induction false} AssignedLast(urls: seq<string>, value: (nat, string) -> string, k: nat)
    requires k < |urls| && forall j :: k < j < |urls| ==> urls[j] != urls[k]
    ensures Lookup(AssignAll(urls, value), urls[k]) == Some(value(k, urls[k]))
  {
    var n := |urls| - 1;
    var prefix := urls[..n];
    PutLookup(AssignAll(prefix, value), urls[n], value(n, urls[n]), urls[k]);
    if k < n {
      assert prefix[k] == urls[k];
      AssignedLast(prefix, value, k);
    }
  }

  /** The page text that scrape_webpage returns for the i-th URL. */
  function ScrapedText(fetch: (nat, string) -> FetchResult): (nat, string) -> string {
    (i: nat, url: string) => ScrapeWebpage(url, fetch(i, url))
  }

  /** The dictionary after `scraped_data[url] = self.scrape_webpage(url)` for
      every url in order, the i-th fetch being fetch(i, urls[i]). */
  function ScrapeAll(urls: seq<string>, fetch: (nat, string) -> FetchResult): Dict {
    AssignAll(urls, ScrapedText(fetch))
  }

  /** The scraped dictionary has exactly the input URLs as keys, in order of
      first appearance. */
  lemma ScrapedKeys(urls: seq<string>, fetch: (nat, string) -> FetchResult, u: string)
    ensures Keys(ScrapeAll(urls, fetch)) == FirstOccurrences(urls)
    ensures Lookup(ScrapeAll(urls, fetch), u).Some? <==> u in urls
  {
    AssignedKeys(urls, ScrapedText(fetch));
    LookupFound(ScrapeAll(urls, fetch), u);
  }

  /** Each URL's value is the result of its last fetch: a later duplicate
      overwrites an earlier one. */
  lemma ScrapedValueIsLastFetch(urls: seq<string>, fetch: (nat, string) -> FetchResult, k: nat)
    requires k < |urls| && forall j :: k < j < |urls| ==> urls[j] != urls[k]
    ensures Lookup(ScrapeAll(urls, fetch), urls[k]) == Some(ScrapeWebpage(urls[k], fetch(k, urls[k])))
  {
    AssignedLast(urls, ScrapedText(fetch), k);
  }

  /** Duplicated URLs collapse: the dictionary is shorter than the URL list
      exactly when some URL repeats. */
  lemma {:induction false} DuplicatesCollapse(urls: seq<string>)
    ensures |FirstOccurrences(urls)| < |urls| <==> exists i, j :: 0 <= i < j < |urls| && urls[i] == urls[j]
  {
    if urls != [] {
      var n := |urls| - 1;
      DuplicatesCollapse(urls[..n]);
      assert forall i :: 0 <= i < n ==> urls[..n][i] == urls[i];
      if urls[n] in urls[..n] {
        var i :| 0 <= i < n && urls[..n][i] == urls[n];
        assert urls[i] == urls[n];
      }
    }
  }

  /** scrape_multiple_pages (app.py:81-96). */
  method ScrapeMultiplePages(urls: seq<string>, fetch: (nat, string) -> FetchResult) returns (scraped: Dict)
    ensures scraped == ScrapeAll(urls, fetch)
  {
    scraped := [];
    for i := 0 to |urls|
      invariant scraped == AssignAll(urls[..i], ScrapedText(fetch))
    {
      assert urls[..i + 1][..i] == urls[..i];
      scraped := Put(scraped, urls[i], ScrapeWebpage(urls[i], fetch(i, urls[i])));
    }
    assert urls[..|urls|] == urls;
  }

  // ---------------------------------------------------------------------------
  // extract_events_with_gemini: the content sent to the model

  /** At most this many characters of each page go into the prompt. */
  const MaxPageChars := 8000

  function PageHeader(url: string): string {
    "\n\n--- Content from " + url + " ---\n"
  }

  /** content[:8000] */
  function Truncated(content: string): (t: string)
    ensures |t| <= MaxPageChars && t <= content
    ensures |content| <= MaxPageChars ==> t == content
    ensures |content| > MaxPageChars ==> |t| == MaxPageChars
  {
    if |content| <= MaxPageChars then content else content[..MaxPageChars]
  }

  function PageSection(e: Entry): string {
    PageHeader(e.key) + Truncated(e.value)
  }

  /** The sections of the pages in dictionary order, one after the other. */
  function JoinSections(d: Dict, section: Entry -> string): string {
    if d == [] then "" else JoinSections(d[..|d| - 1], section) + section(d[|d| - 1])
  }

  /** The combined content after the accumulation loop has seen every page. */
  function CombinedContent(d: Dict): string {
    JoinSections(d, PageSection)
  }

  lemma {:induction false} JoinSectionsSplit(d: Dict, k: nat, section: Entry -> string)
    requires k <= |d|
    ensures JoinSections(d, section) == JoinSections(d[..k], section) + JoinSections(d[k..], section)
    decreases |d|
  {
    if k == |d| {
      assert d[..k] == d && d[k..] == [];
    } else {
      var n := |d| - 1;
      JoinSectionsSplit(d[..n], k, section);
      assert d[..n][..k] == d[..k];
      var back := d[k..];
      assert back[..|back| - 1] == d[..n][k..];
      assert back[|back| - 1] == d[n];
    }
  }

  lemma JoinSectionsSingle(e: Entry, section: Entry -> string)
    ensures JoinSections([e], section) == section(e)
  {
    assert [e][..0] == [];
  }

  lemma JoinSectionsAt(d: Dict, i: nat, section: Entry -> string)
    requires i < |d|
    ensures JoinSections(d, section) == JoinSections(d[..i], section) + section(d[i]) + JoinSections(d[i + 1..], section)
  {
    var back := d[i..];
    JoinSectionsSplit(d, i, section);
    JoinSectionsSplit(back, 1, section);
    assert back[..1] == [d[i]];
    assert back[1..] == d[i + 1..];
    JoinSectionsSingle(d[i], section);
    var front, middle, rest := JoinSections(d[..i], section), section(d[i]), JoinSections(d[i + 1..], section);
    assert front + (middle + rest) == front + middle + rest;
  }

  /** The combined content is the pages' sections in dictionary order; page i
      contributes its header and at most 8000 characters, a prefix of its text. */
  lemma CombinedPage(d: Dict, i: nat)
    requires i < |d|
    ensures CombinedContent(d) == CombinedContent(d[..i]) + PageSection(d[i]) + CombinedContent(d[i + 1..])
  {
    JoinSectionsAt(d, i, PageSection);
  }

  // ---------------------------------------------------------------------------
  // extract_events_with_gemini: locating the JSON array in the reply

  function FirstIndexOf(s: string, c: char): (i: nat)
    ensures i <= |s| && (i < |s| ==> s[i] == c)
    ensures forall k :: 0 <= k < i ==> s[k] != c
  {
    if s == [] || s[0] == c then 0 else 1 + FirstIndexOf(s[1..], c)
  }

  function LastIndexOf(s: string, c: char): (j: int)
    ensures -1 <= j < |s| && (j >= 0 ==> s[j] == c)
    ensures forall k :: j < k < |s| ==> s[k] != c
  {
    if s == [] then -1
    else if s[|s| - 1] == c then |s| - 1
    else LastIndexOf(s[..|s| - 1], c)
  }

  /** The pattern \[.*\] with DOTALL matches t[i..j+1]. */
  predicate ArrayMatch(t: string, i: int, j: int) {
    0 <= i < j < |t| && t[i] == '[' && t[j] == ']'
  }

  /** re.search(r'\[.*\]', t, re.DOTALL).group(0), None when nothing matches:
      from the first '[' to the last ']'. */
  function FindJsonArray(t: string): Option<string> {
    var i, j := FirstIndexOf(t, '['), LastIndexOf(t, ']');
    if i < j then Some(t[i..j + 1]) else None
  }

  /** The span found is the leftmost match extended as far right as possible,
      so it contains every other match; there is none exactly when no '['
      precedes a ']'. */
  lemma FindJsonArrayMatches(t: string)
    ensures FindJsonArray(t).None? <==> forall i, j :: !ArrayMatch(t, i, j)
    ensures FindJsonArray(t).Some? ==>
              exists i, j :: && ArrayMatch(t, i, j) && FindJsonArray(t).value == t[i..j + 1]
                             && forall p, q :: ArrayMatch(t, p, q) ==> i <= p && q <= j
  {
    var i, j := FirstIndexOf(t, '['), LastIndexOf(t, ']');
    if i < j {
      assert ArrayMatch(t, i, j);
    }
  }

  /** st is t[a..a+|st|] and no bracket of t lies outside it. */
  predicate BracketsWithin(t: string, st: string, a: int) {
    && 0 <= a <= |t| - |st| && (forall k :: 0 <= k < |st| ==> st[k] == t[a + k])
    && (forall k :: 0 <= k < a ==> t[k] != '[' && t[k] != ']')
    && (forall k :: a + |st| <= k < |t| ==> t[k] != '[' && t[k] != ']')
  }

  /** Brackets are not whitespace, so strip() removes none of them. */
  lemma WhitespaceHasNoBrackets(t: string, st: string, a: int)
    requires TextCleanup.WhitespaceAround(t, st, a)
    ensures BracketsWithin(t, st, a)
  {
    assert !TextCleanup.IsSpace('[') && !TextCleanup.IsSpace(']');
    assert forall k :: 0 <= k < |st| ==> st[k] == t[a..a + |st|][k];
  }

  /** The first '[' of the stripped text is the first '[' of the text, shifted
      by the whitespace removed in front. */
  lemma FirstIndexAfterStrip(t: string, st: string, a: int)
    requires BracketsWithin(t, st, a)
    ensures FirstIndexOf(st, '[') == if FirstIndexOf(t, '[') < |t| then FirstIndexOf(t, '[') - a else |st|
    ensures FirstIndexOf(t, '[') < |t| ==> a <= FirstIndexOf(t, '[') < a + |st|
  {
    var f := FirstIndexOf(t, '[');
    var want := if f < |t| then f - a else |st|;
    assert 0 <= want <= |st|;
    assert want < |st| ==> st[want] == '[' by {
      if want < |st| {
        assert st[want] == t[a + want];
      }
    }
    assert forall k :: 0 <= k < want ==> st[k] != '[' by {
      forall k | 0 <= k < want ensures st[k] != '[' {
        assert st[k] == t[a + k];
      }
    }
  }

  /** The last ']' of the stripped text is the last ']' of the text, shifted
      by the whitespace removed in front. */
  lemma LastIndexAfterStrip(t: string, st: string, a: int)
    requires BracketsWithin(t, st, a)
    ensures LastIndexOf(st, ']') == if LastIndexOf(t, ']') >= 0 then LastIndexOf(t, ']') - a else -1
    ensures LastIndexOf(t, ']') >= 0 ==> a <= LastIndexOf(t, ']') < a + |st|
  {
    var f := LastIndexOf(t, ']');
    var want := if f >= 0 then f - a else -1;
    assert -1 <= want < |st|;
    assert want >= 0 ==> st[want] == ']' by {
      if want >= 0 {
        assert st[want] == t[a + want];
      }
    }
    assert forall k :: want < k < |st| ==> st[k] != ']' by {
      forall k | want < k < |st| ensures st[k] != ']' {
        assert st[k] == t[a + k];
      }
    }
  }

  /** Removing whitespace around the text does not change what is found. */
  lemma FindJsonArrayAround(t: string, st: string, a: int)
    requires BracketsWithin(t, st, a)
    ensures FindJsonArray(st) == FindJsonArray(t)
  {
    FirstIndexAfterStrip(t, st, a);
    LastIndexAfterStrip(t, st, a);
    var i, j := FirstIndexOf(t, '['), LastIndexOf(t, ']');
    if i < j {
      SliceWithin(t, st, a, i, j + 1);
      SameSpan(st, i - a, j - a, t[i..j + 1]);
    }
  }

  /** The span between the given bracket positions is what is found. */
  lemma SameSpan(st: string, i: int, j: int, span: string)
    requires 0 <= i < j < |st| && FirstIndexOf(st, '[') == i && LastIndexOf(st, ']') == j
    requires st[i..j + 1] == span
    ensures FindJsonArray(st) == Some(span)
  {
    var found := FindJsonArray(st);
    assert found == Some(st[i..j + 1]);
  }

  /** A slice of st is the slice of t shifted by a. */
  lemma SliceWithin(t: string, st: string, a: int, i: int, j: int)
    requires 0 <= a <= |t| - |st| && forall k :: 0 <= k < |st| ==> st[k] == t[a + k]
    requires a <= i <= j <= a + |st|
    ensures st[i - a..j - a] == t[i..j]
  {
    var span := st[i - a..j - a];
    forall k | 0 <= k < |span| ensures span[k] == t[i..j][k] {
      assert span[k] == st[i - a + k];
    }
  }

  /** Stripping the reply first does not change what is found. */
  lemma FindJsonArrayIgnoresStrip(t: string)
    ensures FindJsonArray(TextCleanup.Strip(t)) == FindJsonArray(t)
  {
    var st := TextCleanup.Strip(t);
    var a :| TextCleanup.WhitespaceAround(t, st, a);
    WhitespaceHasNoBrackets(t, st, a);
    FindJsonArrayAround(t, st, a);
  }

  // ---------------------------------------------------------------------------
  // _generate_demo_events

  /** The one event that demo mode reports for the first scraped page. */
  function SampleEvent(url: string): Event {
    map[
      "title" := Str("Sample Event from Scraped Content"),
      "start_date" := Str("2025-11-15"),
      "start_time" := Str("14:00"),
      "end_date" := Str("2025-11-15"),
      "end_time" := Str("16:00"),
      "description" := Str("This is a sample event extracted from the scraped content"),
      "location" := Str("Online"),
      "url" := Str(url)
    ]
  }

  /** any(len(content) > 100 for content in scraped_content.values()) */
  function AnyLongPage(d: Dict): (b: bool)
    ensures b <==> exists i :: 0 <= i < |d| && |d[i].value| > 100
  {
    if d == [] then false
    else
      assert forall i :: 1 <= i < |d| ==> d[i] == d[1..][i - 1];
      |d[0].value| > 100 || AnyLongPage(d[1..])
  }

  /** _generate_demo_events (app.py:168-186). */
  function GenerateDemoEvents(d: Dict): (events: seq<Event>)
    ensures |events| <= 1
    ensures |events| == 1 <==> exists i :: 0 <= i < |d| && |d[i].value| > 100
    ensures |events| == 1 ==> d != [] && "url" in events[0] && events[0]["url"] == Str(Keys(d)[0])
  {
    if d != [] && AnyLongPage(d) then [SampleEvent(d[0].key)] else []
  }

  /** The demo event of a run cites the first URL given. */
  lemma DemoEventCitesFirstUrl(urls: seq<string>, fetch: (nat, string) -> FetchResult)
    ensures var events := GenerateDemoEvents(ScrapeAll(urls, fetch));
            |events| == 1 ==> urls != [] && events[0]["url"] == Str(urls[0])
  {
    ScrapedKeys(urls, fetch, "");
  }

  /** The sample event always passes validation and formatting, so the
      simulated calendar call adds it. */
  lemma SampleEventIsAdded(url: string)
    ensures Calendar.ValidateEventData(SampleEvent(url)) == Calendar.Valid
    ensures Calendar.AddEventViaMcp(SampleEvent(url), Calendar.SimulateMcpCall)
  {
    var e := SampleEvent(url);
    assert Get(e, "title", Null).Str? && Get(e, "title", Null) != Str("");
    assert Get(e, "start_date", Null) == Str("2025-11-15");
    assert Get(e, "end_time", Null) == Str("16:00");
    assert Get(e, "url", Null) == Str(url);
    assert Get(e, "description", Str("")).Str?;
    assert IsoDateTime.FromIsoFormat("2025-11-15").Some?;
  }

  // ---------------------------------------------------------------------------
  // extract_events_with_gemini

  /** The outcome of generate_content(prompt).text: the reply text, or an exception. */
  datatype Reply = Reply(text: string) | CallFailed

  /** The agent's gemini_model: absent without an API key (demo mode). The
      call receives the combined page content; the instruction text around it
      is fixed. */
  datatype GeminiModel = NotConfigured | Configured(generate: string -> Reply)

  /** What extract_events_with_gemini returns; jsonLoads is json.loads, None
      where it raises. */
  function ExtractEvents(d: Dict, model: GeminiModel, jsonLoads: string -> Option<seq<Event>>): seq<Event> {
    match model
    case NotConfigured => GenerateDemoEvents(d)
    case Configured(generate) =>
      match generate(CombinedContent(d))
      case CallFailed => []
      case Reply(text) =>
        match FindJsonArray(TextCleanup.Strip(text))
        case None => []
        case Some(span) =>
          match jsonLoads(span)
          case None => []
          case Some(events) => events
  }

  /** With a model, events are reported only when the reply to the combined
      content holds a bracketed span and json.loads accepts it, and then they
      are exactly what json.loads decoded; every failure on the way gives []. */
  lemma ExtractedFromReply(d: Dict, model: GeminiModel, jsonLoads: string -> Option<seq<Event>>)
    requires model.Configured?
    ensures var events := ExtractEvents(d, model, jsonLoads);
            events != [] ==>
              && model.generate(CombinedContent(d)).Reply?
              && FindJsonArray(model.generate(CombinedContent(d)).text).Some?
              && jsonLoads(FindJsonArray(model.generate(CombinedContent(d)).text).value) == Some(events)
    ensures var reply := model.generate(CombinedContent(d));
            reply.Reply? && FindJsonArray(reply.text).Some? && jsonLoads(FindJsonArray(reply.text).value).Some? ==>
              ExtractEvents(d, model, jsonLoads) == jsonLoads(FindJsonArray(reply.text).value).value
  {
    var reply := model.generate(CombinedContent(d));
    if reply.Reply? {
      FindJsonArrayIgnoresStrip(reply.text);
    }
  }

  /** extract_events_with_gemini (app.py:98-166). */
  method ExtractEventsWithGemini(d: Dict, model: GeminiModel, jsonLoads: string -> Option<seq<Event>>)
    returns (events: seq<Event>)
    ensures events == ExtractEvents(d, model, jsonLoads)
  {
    if model.NotConfigured? {
      return GenerateDemoEvents(d);
    }
    var combined := "";
    for i := 0 to |d|
      invariant combined == CombinedContent(d[..i])
    {
      assert d[..i + 1][..i] == d[..i];
      combined := combined + PageHeader(d[i].key);
      combined := combined + Truncated(d[i].value);
    }
    assert d[..|d|] == d;
    var reply := model.generate(combined);
    if reply.CallFailed? {
      return [];
    }
    var span := FindJsonArray(TextCleanup.Strip(reply.text));
    if span.None? {
      return [];
    }
    var decoded := jsonLoads(span.value);
    events := if decoded.Some? then decoded.value else [];
  }

  // ---------------------------------------------------------------------------
  // add_event_to_calendar, process_events and run_agent

  /** add_event_to_calendar (app.py:188-213): delegates to add_event_via_mcp. */
  function AddEventToCalendar(e: Event, sink: Calendar.GcalEvent -> bool): (ok: bool)
    ensures ok <==> && Calendar.ValidateEventData(e) == Calendar.Valid
                    && Calendar.FormatEventForGcal(e).Ok?
                    && sink(Calendar.FormatEventForGcal(e).value)
  {
    Calendar.AddEventViaMcp(e, sink)
  }

  /** process_events (app.py:215-233). */
  method ProcessEvents(events: seq<Event>, sink: Calendar.GcalEvent -> bool) returns (results: Calendar.Counts)
    ensures results == Calendar.Tally(events, sink)
    ensures results.successful + results.failed == |events|
  {
    results := Calendar.Counts(0, 0);
    for i := 0 to |events|
      invariant results == Calendar.TallyBy(events[..i], (e: Event) => Calendar.AddEventViaMcp(e, sink))
    {
      assert events[..i + 1][..i] == events[..i];
      if AddEventToCalendar(events[i], sink) {
        results := results.(successful := results.successful + 1);
      } else {
        results := results.(failed := results.failed + 1);
      }
    }
    assert events[..|events|] == events;
  }

  /** The summary dictionary that run_agent returns. */
  datatype RunSummary = RunSummary(
    urlsProcessed: nat,
    eventsFound: nat,
    eventsAddedSuccessfully: nat,
    eventsFailed: nat,
    extractedEvents: seq<Event>)

  /** run_agent (app.py:235-268). */
  method RunAgent(
    urls: seq<string>,
    fetch: (nat, string) -> FetchResult,
    model: GeminiModel,
    jsonLoads: string -> Option<seq<Event>>,
    sink: Calendar.GcalEvent -> bool)
    returns (summary: RunSummary)
    ensures summary.urlsProcessed == |urls|
    ensures summary.extractedEvents == ExtractEvents(ScrapeAll(urls, fetch), model, jsonLoads)
    ensures summary.eventsFound == |summary.extractedEvents|
    ensures Calendar.Counts(summary.eventsAddedSuccessfully, summary.eventsFailed)
            == Calendar.Tally(summary.extractedEvents, sink)
    ensures summary.eventsAddedSuccessfully + summary.eventsFailed == summary.eventsFound
  {
    var scraped := ScrapeMultiplePages(urls, fetch);
    var events := ExtractEventsWithGemini(scraped, model, jsonLoads);
    var results := ProcessEvents(events, sink);
    summary := RunSummary(|urls|, |events|, results.successful, results.failed, events);
  }
}
