# Google Maps business scraper: data-quality rules

This project models the parts of `gmap_scraper.py` that decide things, leaving out the browser work. It covers:

- how a detail page's extracted fields become a business record: title cleanup, defaults for missing fields, and the fixed columns plus the opening hours;
- how the opening-hours table is parsed and validated;
- how a batch of records is deduplicated on (Company_Name, Number, Full_Address);
- how a search query is built and how the outcome of a search is decided;
- the stall check inside the feed-scrolling loop.

Inputs are already-extracted values. Each element a CSS selector would find is an `Option<string>` holding its text. The hours table is a sequence of rows (day label, list-item texts). What the browser shows after a search is an `Observation`.

Modules:

- `Wrappers`: `Option` and `Result`.
- `Text`: Python's `str.strip()`, `str.replace(c, "")`, `sep.join(...)`, the `in` substring test, and `re.sub(r"\s+", " ", s, flags=re.UNICODE)`. Whitespace is the set that `str.isspace()` accepts, which is also what `\s` matches in a str pattern.
- `Hours`: `get_business_timings`. It is a method with the source's two loops: one fills the dict and records the keys' insertion order, the other validates the keys. The method is proved equal to the specification function `BusinessTimings`.
- `Extraction`: `scrape_business_details`. A record is a `map<string, string>`, like the Python dict.
- `Dedup`: `remove_duplicates`. The `duplicated(keep="first")` mask, then boolean indexing.
- `Search`: the decision order of `search`, the query string, the keyword loop of `search_keywords_in_location`, and the check step of `scroll` as a small class.

The last `wait_for_selector` in `search` (gmap_scraper.py:48-50) raises Playwright's `TimeoutError` when the results feed does not appear, and nothing in `search_keywords_in_location` catches it. The model therefore has a fifth outcome, `FeedTimeout`, which ends the run the same way a captcha does.

## Model

| member | source | states |
|---|---|---|
| Text.Strip | gmap_scraper.py:99 | Python's `str.strip()`: leading and trailing whitespace removed (properties in `StripSlice`, `StripIdempotent`) |
| Text.StripSlice | gmap_scraper.py:99 | `strip()` returns a contiguous slice of its input with no whitespace at either end; everything cut away on either side is whitespace |
| Text.StripIdempotent | gmap_scraper.py:99-120 | stripping an already stripped text changes nothing |
| Text.RemoveChar | gmap_scraper.py:100 | `replace(c, "")` leaves no `c`, never lengthens the text and adds no character |
| Text.RemoveCharKeeps | gmap_scraper.py:100 | every character other than `c` occurs in the result exactly when it occurs in the input |
| Text.RemoveCharCounts | gmap_scraper.py:100 | every character other than `c` keeps its number of occurrences, and `c` has none |
| Text.RemoveCharConcat | gmap_scraper.py:100 | removal on a concatenation is the concatenation of the removals, so the kept characters stay in their order |
| Text.RemoveCharAbsent | gmap_scraper.py:100 | removing a character that is absent leaves the text unchanged |
| Text.Join | gmap_scraper.py:165 | Python's `sep.join(parts)` (properties in `JoinLength`, `SplitJoin`) |
| Text.JoinLength | gmap_scraper.py:165 | a join holds every part plus one separator between each two parts |
| Text.SplitJoin | gmap_scraper.py:165 | joining with a separator whose first character no part contains is undone by Python-style splitting on that separator |
| Text.Contains | gmap_scraper.py:43 | Python's substring test `t in s`: `t` occurs at some position of `s` |
| Text.CollapseWhitespace | gmap_scraper.py:166 | `re.sub(r"\s+", " ", s)`: every maximal whitespace run becomes one space (properties in the rows below) |
| Text.CollapseRun | gmap_scraper.py:166 | a whitespace run on its own becomes a single space |
| Text.CollapseSplit | gmap_scraper.py:166 | runs never cross a non-space character, so each side of one collapses separately; with `CollapseRun` this fixes the result for every input |
| Text.CollapseIsNormalised | gmap_scraper.py:166 | the result's only whitespace is single spaces, never two whitespace characters in a row |
| Text.CollapseKeepsText | gmap_scraper.py:166 | every non-space character survives, in order, and the text never gets longer |
| Text.CollapseNormalised | gmap_scraper.py:166 | text that is already normalised is left as it is |
| Text.CollapseIdempotent | gmap_scraper.py:166 | collapsing twice is the same as collapsing once |
| Hours.BusinessTimings | gmap_scraper.py:144-173 | the specification of `get_business_timings`: an empty dict without a table, otherwise the row dict or the error for the first invalid key in dict order |
| Hours.GetBusinessTimings | gmap_scraper.py:144-173 | the two-loop procedure returns exactly `BusinessTimings` of its input: an empty dict without a table, otherwise the row dict or the error for the first invalid key in dict order |
| Hours.KeyOrderFirstInvalid | gmap_scraper.py:167-172 | walking the dict's keys in insertion order meets the same first invalid label as walking the rows in table order |
| Hours.TimingsFailure | gmap_scraper.py:169-172 | the table fails if and only if some row's label is not one of the seven exact weekday names; the error names the earliest such row's label |
| Hours.TimingsKeys | gmap_scraper.py:155-173 | on success every key is a weekday name and the keys are exactly the labels in the table; with no table the dict is empty |
| Hours.HoursTableLastWins | gmap_scraper.py:158-167 | a label's value is the hours value of the last row carrying that label |
| Hours.HoursValue | gmap_scraper.py:164-166 | one row's value: the list items joined with `","`, then every whitespace run collapsed to one space (properties in `HoursValueExample`, `HoursTableLastWins`, and the `Text.Collapse…` rows) |
| Hours.HoursValueExample | gmap_scraper.py:164-166 | `["9 AM–5 PM", "6 PM–9 PM"]` gives `"9 AM–5 PM,6 PM–9 PM"` |
| Hours.MondayExample | gmap_scraper.py:155-167 | one Monday row gives `{"Monday": "9 AM–5 PM,6 PM–9 PM"}` |
| Hours.AbbreviatedDayExample | gmap_scraper.py:169-172 | a row labelled `"Mon"` fails the whole table with that label |
| Extraction.CleanTitle | gmap_scraper.py:99-100 | the cleaned title contains no `"` and no `'` |
| Extraction.CleanTitleKeepsPlainNames | gmap_scraper.py:99-100 | a title with no quotes is only stripped |
| Extraction.CleanTitleKeepsOtherCharacters | gmap_scraper.py:99-100 | every non-quote character occurs in the cleaned title exactly when it occurs in the stripped title |
| Extraction.CleanTitleCounts | gmap_scraper.py:99-100 | apart from the quotes, the cleaned title has each character of the stripped title exactly as often |
| Extraction.ScrapeBusinessDetails | gmap_scraper.py:97-133 | `scrape_business_details` on the selectors' findings: the fixed columns updated with the hours dict, or the reason no record comes out (properties in the rows below) |
| Extraction.ExtractionOutcome | gmap_scraper.py:99-122 | a record comes out exactly when the title exists and the hours validate; a missing title is reported as such, before the hours; failing hours give no partial record but the hours fault |
| Extraction.RecordParts | gmap_scraper.py:122-133 | the record is the fixed fields merged with the hours dict, whose keys are disjoint from the fixed columns |
| Extraction.RecordColumns | gmap_scraper.py:123-133 | the record's keys are exactly the seven fixed columns plus the hours' day keys, and every hours entry is carried over unchanged |
| Extraction.RecordFields | gmap_scraper.py:99-131 | each fixed column holds its own field's value after the merge, and the title column has no quote characters |
| Extraction.MissingFieldsAreEmpty | gmap_scraper.py:101-120 | each missing optional element (type, address, website, status, contact match, phone) gives `""` |
| Dedup.RemoveDuplicates | gmap_scraper.py:136-141 | `remove_duplicates`: the rows not marked by `duplicated(keep="first")` on the three key columns, in order (properties in the rows below) |
| Dedup.RemoveDuplicatesSnoc | gmap_scraper.py:138-140 | one more row at the end is kept exactly when no earlier row has its key |
| Dedup.RemoveDuplicatesUnique | gmap_scraper.py:137-140 | after deduplication no two rows share (Company_Name, Number, Full_Address), and every key of the input is still present |
| Dedup.KeptIndicesSpec | gmap_scraper.py:139 | the kept positions increase, lie in range, and are exactly the positions holding the first row with their key |
| Dedup.RemoveDuplicatesSelects | gmap_scraper.py:138-140 | the output is the input read at the kept positions: an order-preserving subsequence |
| Dedup.FirstOccurrenceKept | gmap_scraper.py:139 | the first row of each key is kept, and every kept row is the first with its key |
| Dedup.RemoveDuplicatesOfUnique | gmap_scraper.py:138-140 | a batch whose keys are already unique is returned unchanged |
| Dedup.RemoveDuplicatesIdempotent | gmap_scraper.py:136-141 | deduplicating the output again changes nothing |
| Search.Classify | gmap_scraper.py:15-51 | the outcome of `search`, by its checks in code order (properties in `ClassifyOrder`, `ClassifyIgnoresLaterChecks`) |
| Search.ClassifyOrder | gmap_scraper.py:25-51 | captcha forms decide first (fatal); then the single-business title (skip); then the "Google Maps can't find" text (skip); otherwise results are found if the feed appears |
| Search.ClassifyIgnoresLaterChecks | gmap_scraper.py:25-46 | once a check has decided (captcha, single-business title, or no-results text), what the later checks would see does not matter |
| Search.SearchQuery | gmap_scraper.py:179-180 | the intended query: the keyword, `" in "`, and the location values joined by `", "` (properties in `SearchQueryExample`, `SearchQueryLocation`) |
| Search.SearchQueryExample | gmap_scraper.py:179-180 | `("coffee shop", [Austin, TX, USA])` gives `"coffee shop in Austin, TX, USA"` |
| Search.SearchQueryLocation | gmap_scraper.py:179-180 | the query starts with the keyword and `" in "`; when no location value contains a comma, splitting the rest on `", "` gives back the values in field order (and with no values the query ends right after `" in "`) |
| Search.CollectLinks | gmap_scraper.py:176-187 | the specification of the keyword loop with the location joined once: links of the searches that found results, or the first exception raised |
| Search.SearchKeywordsInLocation | gmap_scraper.py:176-187 | the keyword loop returns exactly `CollectLinks`: links of the searches that found results, in order, or the first exception raised |
| Search.CollectLinksFailure | gmap_scraper.py:25-50 | the loop fails exactly when some keyword's search raises; the failure is that of the first such search |
| Search.CollectLinksSuccess | gmap_scraper.py:182-186 | on success a link is collected exactly when it belongs to a search that found results; skipped searches add nothing |
| Search.CollectLinksSingle | gmap_scraper.py:181-186 | one keyword yields its feed's links in feed order when results were found, nothing when the search is skipped, and otherwise the exception raised |
| Search.CollectLinksAppend | gmap_scraper.py:176-187 | searching two groups of keywords one after the other gives the first group's links followed by the second's, keeping every repeated link as `extend` does, or the first exception raised |
| Search.Queries | gmap_scraper.py:178-180 | the intended queries: one per keyword, each with the same location string |
| Search.AsWrittenQueries | gmap_scraper.py:176-180 | the queries the loop as written reaches, with `location` rebound to the joined string after the first pass |
| Search.AsWrittenSecondKeywordFails | gmap_scraper.py:178-179 | as written, a second keyword makes `location.values()` fail on the rebound string |
| Search.AsWrittenAgreesOnOneKeyword | gmap_scraper.py:178-180 | with a single keyword the code as written builds the intended query |
| Search.StallMonitor.constructor | gmap_scraper.py:63-65 | the snapshot starts at the current link count and time |
| Search.StallMonitor.Check | gmap_scraper.py:74-82 | recovery fires exactly when the interval has elapsed and the count is unchanged; once the interval has elapsed the snapshot and the time are updated whether or not recovery fired; otherwise nothing changes |

## Findings

| source | as written | input that shows it | evidently intended | confidence | as-written member | corrected member |
|---|---|---|---|---|---|---|
| gmap_scraper.py:178-179 | `location` is rebound to the joined string inside the keyword loop | two keywords with a location mapping: the second pass calls `.values()` on a `str` and raises AttributeError | every keyword searched with the same joined location | high (not executed) | Search.AsWrittenQueries, Search.AsWrittenSecondKeywordFails | Search.SearchKeywordsInLocation, Search.CollectLinks |

## Left out

- Browser I/O is not modelled: `goto`, `fill`, `keyboard.press`, `wait_for_load_state`, `wait_for_selector`, `content`, `get_links` and `get_business_page_source`. What they report is an input (an `Observation`, a links function, the page fields).
- The `stamina.retry` decorator on `get_business_page_source` is a foreign library and is not modelled.
- Search.SearchKeywordsInLocation: the browser's answer to a query is a function of the query string alone; the page state carried from one search to the next is not modelled.
- Search.SearchKeywordsInLocation: every `scroll` is taken to end, and `scroll`, `get_links` and the recovery click are taken never to raise. In the source the `while True` at gmap_scraper.py:67 need not end and the click at :78 can raise, so `CollectLinksFailure`'s "fails exactly when some search raises" holds only under that assumption.
- The `scroll` loop is not modelled as a loop. It runs `while True` on wall-clock time, random jitter and key presses. Only its stall check is modelled, as `StallMonitor.Check`, with time in whole milliseconds instead of float seconds.
- BeautifulSoup's CSS matching and `get_text` are not modelled. Each selector's find is an `Option<string>`, and the hours rows arrive with their labels and list-item texts already stripped.
- Hours rows with fewer than two cells, or without the `div` or `ul`, make the source raise. The model's rows always have a label and a list, so that failure is not modelled.
- The hostname regex applied to the contact block is not modelled; `domainMatch` is its first match (`None` for no match or no block, giving `""`).
- The contact block's selector depends on the cleaned title; that dependence is folded into the `domainMatch` input. A title that makes that selector malformed (an inner newline or a trailing backslash, for instance) makes `select_one` raise in the source, so no record comes out; the model still yields one, and `ExtractionOutcome` does not cover that error path.
- Extraction.ScrapeBusinessDetails: an "Open website" link without an `href` gives Python `None` in the source. The model always takes the link's value as a string.
- Dedup.RemoveDuplicates: pandas keeps the original row labels of the filtered frame. The model returns only the rows, in order.
- `main` is not modelled: CSV input, logging setup, and a browser launch that does no work.
- The commented-out driver code at the end of the file is not modelled.
- Logging and `print` calls are not modelled.
