# calender_bot: the event-to-calendar pipeline in Dafny

This project models the deterministic core of calender_bot. The bot scrapes
web pages. It has a language model (or, without an API key, a demo fallback)
extract candidate events from the pages. It submits each candidate to a
Google-Calendar manager and reports a summary of the run.

Two parts of the repository are modelled:

- **`MCPCalendarManager`** (`mcp_calendar.py`), in module `Calendar`.
  - `validate_event_data` checks the required fields in order, then the ISO start date.
  - `format_event_for_gcal` builds the calendar payload. It decides an all-day or a timed start, and separately an all-day or a timed end. A start time without an end time gets a one-hour default end. A url adds a source note to the description.
  - `add_event_via_mcp` validates, formats and submits the event, turning every exception into `False`.
  - `batch_add_events` counts successes and failures.
- **`EventScrapingAgent`** (`app.py`), in module `ScrapingAgent`.
  - the text clean-up and the error string of `scrape_webpage`;
  - the URL-to-text dictionary of `scrape_multiple_pages`;
  - `extract_events_with_gemini`: the combined content sent to the model, with each page limited to 8000 characters; the first-`[`-to-last-`]` span taken from the reply; and its fallbacks;
  - the demo fallback `_generate_demo_events`;
  - `add_event_to_calendar`, the `process_events` tally and the `run_agent` summary.

Supporting modules model the Python behaviour the code relies on:

- `PyValues`: dictionary values, truthiness, `str()` and `dict.get`.
- `PyDict`: the insertion-ordered `dict[str, str]`.
- `IsoDateTime`: `datetime.fromisoformat`, `datetime.isoformat` and `+ timedelta(hours=1)` with its calendar roll-over.
- `TextCleanup`: `str.strip`, `str.splitlines`, `str.split("  ")` and `' '.join`.

`Scenarios` proves the model's result on concrete events. One of them is the test event of the calendar manager's own entry point (mcp_calendar.py:238-246).

Where the code interacts with the outside world, the model takes a parameter:

- the page fetch (`requests` plus BeautifulSoup) is `fetch: (nat, string) -> FetchResult`, the fetch at position i of the URL list yielding the page text or the exception's message;
- the Gemini model is `GeminiModel`, absent or a function from the combined content to a reply or a failure;
- `json.loads` is a function returning `None` where it raises;
- `_simulate_mcp_call` is a sink `GcalEvent -> bool`; `Calendar.SimulateMcpCall` is the placeholder that accepts everything.

Times are checked in one place only. The prompt asks the model for
`start_time` and `end_time` in `HH:MM` form (app.py:130, 132). The calendar
manager parses a time only in the one-hour branch (`mcp_calendar.py:96`).
Everywhere else it copies the time into the stamp unchecked, and the model
does the same. `Scenarios.TimesAreNotChecked` shows an event with start time
`25:99` passing and being added. `Scenarios.MalformedStartTimeFails` shows the
same start time failing when the one-hour branch has to parse it.

## Model

| member | source | states |
|---|---|---|
| Calendar.FirstMissingField | mcp_calendar.py:34-39 | None exactly when every required field is present and truthy; otherwise the first field, in order, that is absent or falsy |
| Calendar.ValidateEventData | mcp_calendar.py:24-48 | Valid iff title and start_date are truthy and start_date is a string fromisoformat accepts; MissingField("title") iff the title is missing; MissingField("start_date") iff only the date is missing; InvalidDate iff the date string is rejected; NotAString iff a truthy non-string date makes fromisoformat raise TypeError |
| Calendar.FormatEventForGcal | mcp_calendar.py:50-117 | summary is the title, or 'Untitled Event' only when the key is absent; start is timed iff start_time is truthy, with the f"{date}T{time}:00" stamp; end is timed iff end_time or start_time is truthy; end_date defaults to start_date; location is copied iff truthy; the source note is appended iff the url is truthy; the only failures are a one-hour default that cannot be computed and a non-string description that has to take the note |
| Calendar.OneHourLater | mcp_calendar.py:96-101 | parse the start stamp, add one hour and write it back with isoformat, ValueError or OverflowError where Python raises them; OneHourDefault states that the end it yields is 3600 seconds after the start, and IsoDateTime.PlusOneHour states when the addition overflows |
| Calendar.OneHourDefault | mcp_calendar.py:93-101 | with a start time and no end time, the end stamp reads back as exactly 3600 seconds after the start stamp, whatever end_date says |
| Calendar.AddEventViaMcp | mcp_calendar.py:119-156 | True iff the event validates, formats and the sink accepts the payload; never raises |
| Calendar.SimulateMcpCall | mcp_calendar.py:158-177 | the placeholder MCP call, which accepts every payload; SimulatedSinkAcceptsValid states what that means for add_event_via_mcp |
| Calendar.SimulatedSinkAcceptsValid | mcp_calendar.py:158-177 | against the placeholder call, an event is added iff it validates and formats |
| Calendar.TallyBy | mcp_calendar.py:189-197 | the two counters add up to the number of items |
| Calendar.TallyAppend | mcp_calendar.py:191-195 | tallying two runs back to back adds their counters |
| Calendar.TallyRemove | mcp_calendar.py:191-195 | taking one item out of a run subtracts exactly that item's contribution |
| Calendar.TallyOrderIndependent | mcp_calendar.py:191-195 | two runs that are permutations of each other give the same counters |
| Calendar.BatchAddEvents | mcp_calendar.py:179-197 | the loop's counters are the tally of add_event_via_mcp over the events; successful + failed == len(events) |
| IsoDateTime.FromIsoFormat | mcp_calendar.py:42-46 | only a valid datetime is produced; its year, month and day are the digits of positions 0-3, 5-6 and 8-9; a bare date is midnight |
| IsoDateTime.IsoFormat | mcp_calendar.py:99 | datetime.isoformat() for a datetime without microseconds or time zone; IsoFormatRoundTrip states that it writes 19 characters that read back as the same datetime |
| IsoDateTime.IsoFormatRoundTrip | mcp_calendar.py:96-99 | isoformat writes 19 characters that fromisoformat reads back as the same datetime |
| IsoDateTime.IsoDateRoundTrip | mcp_calendar.py:43 | a date written as YYYY-MM-DD is read back as that date at midnight |
| IsoDateTime.NextDay | mcp_calendar.py:97 | the next calendar date is a valid date; there is none exactly after 9999-12-31 |
| IsoDateTime.NextDayIsNextOrdinal | mcp_calendar.py:97 | the next date has the next day ordinal |
| IsoDateTime.PlusOneHour | mcp_calendar.py:97 | the result is a valid datetime; it is missing (OverflowError) exactly at 9999-12-31 hour 23 |
| IsoDateTime.PlusOneHourIsAnHour | mcp_calendar.py:97 | the result is exactly 3600 seconds later |
| TextCleanup.Strip | app.py:70-71 | the result is trimmed; it is a slice of the input with only whitespace removed around it; trimmed input is unchanged |
| TextCleanup.NonSpaceStrip | app.py:70-71 | strip removes whitespace only: every other character of the input stays, in order |
| TextCleanup.SplitLines | app.py:70 | no line contains a line break; the lines, one after the other, are the input with its line-break characters dropped |
| TextCleanup.SplitLinesStep | app.py:70 | a single-character line terminator (any of str.splitlines' terminators, except the \r of a \r\n) ends the first line, and the lines of the rest follow |
| TextCleanup.SplitLinesCrLf | app.py:70 | \r\n ends a line as one terminator, and the lines of the rest follow |
| TextCleanup.SplitOnDoubleSpace | app.py:71 | at least one piece; no piece holds a double space; joining the pieces with "  " gives back the input; line-free input gives line-free pieces; input without a double space is one piece; the cuts are at the leftmost double spaces, so no piece but the last ends in a space |
| TextCleanup.NonEmpty | app.py:72 | a chunk is kept iff it is non-empty; the kept chunks, one after the other, spell the same text as all the chunks |
| TextCleanup.NonEmptyAppend | app.py:72 | the filter keeps the chunks' order: filtering two runs back to back is filtering each and concatenating |
| TextCleanup.JoinClean | app.py:72 | joining non-empty clean chunks with single spaces gives clean text, empty iff there are no chunks |
| TextCleanup.CleanText | app.py:69-72 | the clean-up: lines stripped, split at double spaces, chunks stripped, empty chunks dropped, the rest joined with single spaces; its properties are CleanTextIsClean, CleanTextKeepsWords, CleanTextKeepsClean, CleanTextIdempotent and CleanTextJoinsLines |
| TextCleanup.CleanTextIsClean | app.py:69-72 | the cleaned text has no leading or trailing whitespace, no line break and no double space |
| TextCleanup.CleanTextKeepsClean | app.py:69-72 | text that is already clean comes out unchanged |
| TextCleanup.CleanTextIdempotent | app.py:69-72 | cleaning twice is cleaning once |
| TextCleanup.CleanTextKeepsWords | app.py:69-72 | the clean-up removes whitespace only: every other character of the page survives, in order |
| TextCleanup.CleanTextJoinsLines | app.py:69-72 | two non-empty clean lines separated by any line terminator come out joined by exactly one space, so words on different lines are never glued together |
| PyDict.KeyAt | app.py:183 | the i-th key of the dictionary is the key of its i-th entry |
| PyDict.LookupFound | app.py:94 | a lookup succeeds iff the key is in the dictionary, and yields the value stored with it |
| PyDict.Put | app.py:94 | the assignment d[k] = v on an insertion-ordered dictionary; its properties are PutKeys and PutLookup |
| PyDict.PutKeys | app.py:94 | d[k] = v keeps the key order and appends k only when it is new |
| PyDict.PutLookup | app.py:94 | after d[k] = v, d[k] is v and every other key keeps its value |
| ScrapingAgent.ScrapeWebpage | app.py:40-79 | a fetched page gives its cleaned text, which is clean; a failure gives "Error scraping {url}: " followed by the message |
| ScrapingAgent.FirstOccurrences | app.py:93-94 | the same set of URLs, each once, no longer than the input, starting with the first URL given |
| ScrapingAgent.AssignedKeys | app.py:91-96 | the keys of the filled dictionary are the URLs in order of first appearance |
| ScrapingAgent.AssignedLast | app.py:91-96 | each key holds the value assigned by its last occurrence |
| ScrapingAgent.ScrapeAll | app.py:91-96 | the dictionary of scrape_multiple_pages, each URL assigned its scrape in list order; ScrapedKeys, ScrapedValueIsLastFetch and DuplicatesCollapse state its keys and values |
| ScrapingAgent.ScrapedKeys | app.py:91-96 | the scraped dictionary has the input URLs as its keys, in order of first appearance, and a lookup succeeds iff the URL was given |
| ScrapingAgent.ScrapedValueIsLastFetch | app.py:91-96 | each URL holds the result of its last fetch |
| ScrapingAgent.DuplicatesCollapse | app.py:91-96 | the dictionary is shorter than the URL list iff some URL repeats |
| ScrapingAgent.ScrapeMultiplePages | app.py:81-96 | the loop builds the dictionary of every URL's scrape, in order |
| ScrapingAgent.Truncated | app.py:119 | content[:8000]: at most 8000 characters, a prefix of the page, the whole page when it is short enough |
| ScrapingAgent.CombinedContent | app.py:116-119 | the text sent to the model: for each page in dictionary order, its header and its first 8000 characters; JoinSectionsSplit and CombinedPage state where each page's part sits |
| ScrapingAgent.JoinSectionsSplit | app.py:116-119 | the accumulated content of a dictionary is that of its first k pages followed by that of the rest |
| ScrapingAgent.CombinedPage | app.py:116-119 | page i contributes its header and its truncated text, between the pages before it and the pages after it |
| ScrapingAgent.FirstIndexOf | app.py:153 | the position of the first occurrence of the character, or the length when there is none |
| ScrapingAgent.LastIndexOf | app.py:153 | the position of the last occurrence of the character, or -1 when there is none |
| ScrapingAgent.FindJsonArray | app.py:153-155 | the span from the first '[' to the last ']', or none; FindJsonArrayMatches states it is the greedy DOTALL match and FindJsonArrayIgnoresStrip that stripping does not change it |
| ScrapingAgent.FindJsonArrayMatches | app.py:153-155 | no span exactly when no '[' precedes a ']'; otherwise the span runs from a '[' to a ']' and contains every other such span, which is what the greedy DOTALL pattern matches |
| ScrapingAgent.FindJsonArrayIgnoresStrip | app.py:149-155 | stripping the reply first does not change the span found |
| ScrapingAgent.AnyLongPage | app.py:173 | true iff some page's text is longer than 100 characters |
| ScrapingAgent.GenerateDemoEvents | app.py:168-186 | at most one event; exactly one iff some page is longer than 100 characters; its url is the first key |
| ScrapingAgent.DemoEventCitesFirstUrl | app.py:183 | in a run, the demo event's url is the first URL given |
| ScrapingAgent.SampleEventIsAdded | app.py:174-185 | the demo event validates and the placeholder call adds it |
| ScrapingAgent.ExtractedFromReply | app.py:146-166 | with a model, a non-empty result means the model answered the combined content, the reply holds a bracketed span and json.loads accepted that span, returning the result; conversely, whenever the model answers, a span is found and json.loads accepts it, the result is exactly the decoded list |
| ScrapingAgent.ExtractEvents | app.py:98-166 | the result of extract_events_with_gemini: the demo events without a model, otherwise the decoded span of the stripped reply, or [] on a failed call, a missing span or a rejected decode; ExtractedFromReply states both directions |
| ScrapingAgent.ExtractEventsWithGemini | app.py:98-166 | the loop assembles the combined content, and the method returns the demo events without a model and otherwise the decoded span, or [] on every failure |
| ScrapingAgent.AddEventToCalendar | app.py:188-213 | True iff the event validates, formats and the sink accepts the payload; nothing is raised, so the except branch is never taken |
| ScrapingAgent.ProcessEvents | app.py:215-233 | the counters are the tally of the events; successful + failed == len(events) |
| ScrapingAgent.RunAgent | app.py:235-268 | urls_processed is len(urls) even when duplicates collapse; extracted_events is the extractor's result on the scraped dictionary, unchanged; events_found is its length; the counters are its tally and add up to events_found |
| Scenarios.ManagerTestEvent | mcp_calendar.py:238-246 | the entry point's test event validates, gets the 14:00 and 15:00 stamps, keeps its location, gains the source note and is added |
| Scenarios.TechTalkLastsAnHour | mcp_calendar.py:70-101 | a 14:00 start without an end gives a 15:00 end on the same day and the full payload |
| Scenarios.DefaultHourRollsOver | mcp_calendar.py:93-101 | 2024-12-31 23:30 gets the default end 2025-01-01T00:30:00 |
| Scenarios.DefaultEnd | mcp_calendar.py:93-101 | a start stamp written by isoformat gets, as its default end, isoformat of the start plus one hour; a url does not change it as long as the description is a string |
| Scenarios.FestivalIsAllDay | mcp_calendar.py:77-106 | without times, start and end are the two dates, taken verbatim |
| Scenarios.EndTimeWithoutStartTime | mcp_calendar.py:70-92 | an end time without a start time gives an all-day start and a timed end |
| Scenarios.TimesAreNotChecked | mcp_calendar.py:70-92 | the times 25:99 and 26:00 are copied unchecked and the event is added |
| Scenarios.MalformedStartTimeFails | mcp_calendar.py:93-101 | the start time 25:99 without an end time raises ValueError and the event is not added |
| Scenarios.MissingTitleFails | mcp_calendar.py:34-39 | a missing title fails before the date is looked at |
| Scenarios.EmptyTitleFails | mcp_calendar.py:37 | an empty title counts as missing |
| Scenarios.BadDateFails | mcp_calendar.py:42-46 | "not-a-date" is rejected as an invalid date and the event is not added |
| Scenarios.SourceNoteAppended | mcp_calendar.py:113-115 | the description gains "\n\nSource: " and the url |
| Scenarios.NullDescriptionWithUrlFails | mcp_calendar.py:113-115 | a null description with a url validates, but the += raises TypeError and the event is not added |
| Scenarios.BatchOfThree | mcp_calendar.py:189-197 | two valid events and one without a title give 2 successful and 1 failed |
| Scenarios.DuplicateUrlKeepsLastResult | app.py:91-96 | ["a", "b", "a"] gives the keys ["a", "b"], with "a" holding the third fetch |

## Left out

- HTTP fetching and HTML parsing (`requests`, BeautifulSoup, removing script and style elements, `soup.get_text()`; app.py:51-67) are the `fetch` parameter.
- The Gemini call and its configuration (app.py:27-36, 146) are the `GeminiModel` parameter. The fixed prompt text wrapped around the combined content (app.py:121-144) is left out: the model is applied to the combined content itself.
- `json.loads` is a parameter that returns a list of event dictionaries or fails. A reply that decodes to something other than a list of dictionaries is not modelled.
- `datetime.fromisoformat` is modelled as in CPython 3.7 to 3.10, restricted to `YYYY-MM-DD`, optionally followed by one separator character and `HH`, `HH:MM` or `HH:MM:SS`. Fractional seconds, UTC offsets and the wider grammar of Python 3.11 and later are not modelled.
- `Calendar.FormatEventForGcal`: any description that is not a string, when a url is present, is modelled as raising TypeError. Python's `list += str`, which extends a list with characters instead of raising, is not modelled.
- An event value other than None or a string (a number, a boolean, a list, a dictionary) is modelled by its truth value and its `str()` text alone.
- Logging, `load_dotenv`, the environment keys, the interactive `main()` and `integrate_with_real_mcp`, which is commented-out template code (mcp_calendar.py:201-230).
- demo.py, test_setup.py and test_gemini.py are demonstrations and live-network checks; they are not part of this model.
