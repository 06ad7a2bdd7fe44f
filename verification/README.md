# Queens Park departure board: a Dafny model

The backend asks the Transperth live-times pages for the Armadale and the
Thornlie-Cockburn lines and turns their rows into departure records. It
then builds two lists from them: the next ten Perth-bound trains and the
next ten south-bound ones. This project models the logic between the
fetched page and the JSON response. The three parts are:

- `parse_departure_time` (module `TimeParsing`). It turns the time text of
  a row ("Now", "Due", "5 min", "12min", "10:45") into whole minutes, or
  into no reading at all.
- The row filter of `scrape_transperth` (module `Scraping`). It decides
  which rows become records and what each record holds.
- `get_departures` (module `DepartureBoard`). It combines both lines'
  records, splits them by direction, sorts each direction stably by
  minutes and cuts it to ten.

Supporting modules:

- `Text` models the Python string built-ins the code relies on, restricted
  to ASCII case folding. They are `strip`, `lower`, substring `in`,
  `replace`, `re.search(r'(\d+)')` and `int()` of a digit string.
- `StableSort` models `list.sort(key=...)`. It is an insertion sort,
  proved to be the one stable sort by minutes.
- `Wrappers` holds the `Option` type.

What the proofs establish:

- **The time text.** "now" or "due" anywhere in the lower-cased text reads
  as 0. Otherwise the value of the leftmost maximal run of digits is the
  result: "5 min" is 5, "12min" is 12, and "10:45" is 10. A run of more
  than 4300 digits makes `int()` raise instead. There is no reading exactly
  when the text holds neither "now"/"due" nor a digit, and a reading is
  never negative.
- **The wall-clock branch is dead.** The source's `H:MM` branch can never
  run, because every clock time contains a digit and the digit rule is
  tried first. So the result never depends on the clock, and the branch's
  `ValueError` can never arise.
- **The row filter.** A row becomes a record exactly when it has platform,
  destination and time elements and its time text has a reading. A time
  whose digit run `int()` refuses raises, and the row loop drops the row.
  A page yields exactly the records its rows yield. Missing
  pattern and stops elements default to "W" and "All Stations".
- **The direction test.** A record is Perth-bound when its lower-cased
  destination contains "perth" and removing every "perth" leaves none.
  "peperthrth" is the case where removal joins the pieces into a new
  "perth": it names Perth but is not Perth-bound.
- **The split.** The south-bound list is built by testing membership in
  the Perth-bound list. It is exactly the records that fail the direction
  test. The two lists partition the combined records.
- **The board.** Each list is the stable sort of its direction, cut to its
  first `min(10, n)` entries, where `n` is the size of the direction. No
  sooner departure is dropped in favour of a later one.

Three behaviours of the code are easy to misread:

- A row is kept on the presence of its elements, not on their text. A
  destination element with empty text still yields a record.
- The digit rule comes before the clock rule, so "12:05" reads as 12
  minutes and never as a clock time.
- Direction comes only from the "perth" substring test on the destination.
  No platform-to-direction mapping exists.

## Model

| member | source | states |
|---|---|---|
| TimeParsing.ParseDepartureTime | backend.py:34-62 | the parser itself. It has no contract of its own; ParseDepartureTimeSpec, ParseNowOrDue, ParseDigitRun, ParseUnparsedIff, ParseReadingIff, ParseRefusedIff and ClockBranchUnreachable characterise it |
| TimeParsing.ParseDepartureTimeSpec | backend.py:34-62 | "now"/"due" reads as 0 whatever else the text holds. Otherwise the result is the value of the leftmost maximal digit run of the lower-cased text, or `int()`'s `ValueError` when that run has more than 4300 digits. There is no reading exactly when there is neither "now"/"due" nor a digit. There is a reading exactly when there is "now"/"due" or a digit run short enough. A reading is never negative and the result is never a clock error |
| TimeParsing.ParseNowOrDue | backend.py:36-39 | text containing "now" or "due", in any case, reads as 0, whatever digits it also holds |
| TimeParsing.ParseDigitRun | backend.py:41-44 | text without "now"/"due" reads as the value of its leftmost maximal digit run when the run has at most 4300 digits, and raises `int()`'s `ValueError` when it has more |
| TimeParsing.ParseReadingIff | backend.py:34-62 | the text reads as minutes exactly when it says "now"/"due" or its leftmost digit run has at most 4300 digits |
| TimeParsing.ParseRefusedIff | backend.py:36-44 | the parser raises `int()`'s `ValueError` exactly when the text says neither "now" nor "due" and its leftmost digit run has more than 4300 digits |
| TimeParsing.ParseUnparsedIff | backend.py:34-62 | the text has no reading exactly when it holds neither "now"/"due" nor a digit |
| TimeParsing.ClockBranchUnreachable | backend.py:42-60 | every text the `H:MM` search matches also has a digit run, so the digit rule answers first. The result is the same for every time of day and is never the `ValueError` of an out-of-range clock time |
| TimeParsing.ClockSearch | backend.py:47 | the `H:MM` search, leftmost start first and a two-digit hour before a one-digit one. It has no contract of its own; ClockMatchHasDigit and ClockBranchUnreachable state what it finds |
| TimeParsing.ClockDeparture | backend.py:47-60 | hour above 23 or minute above 59 is an error, and only those are. Every other hour and minute gives a number of minutes, in [0, 1440), and is the whole number of minutes in the seconds from now until that time of day, rolled over to tomorrow when it has passed |
| TimeParsing.ClockDepartureExamples | backend.py:49-60 | 10:45 is 5 minutes after 10:40, 1435 minutes after 10:50 and 0 minutes after 10:45 exactly; hour 24 is an error |
| TimeParsing.MinutesTextRoundTrip | backend.py:41-44 | the printed number `n` followed by " min" reads back as `n` for every `n` of at most 4300 digits, and raises `int()`'s `ValueError` for a longer one |
| TimeParsing.ParseNowDueExamples | backend.py:36-39 | "Now" and " Due 3" read as 0: case and surrounding spaces do not matter, and "due" wins over a digit |
| TimeParsing.ParseFiveMinExample | backend.py:41-44 | "5 min" reads as 5 |
| TimeParsing.ParseTwelveMinExample | backend.py:41-44 | "12min" reads as 12: the run stops at the first non-digit |
| TimeParsing.ParseClockTextExample | backend.py:42-48 | "10:45" reads as 10, not as a clock time |
| TimeParsing.MinutesToGoRoundTrip | backend.py:36-44 | the printed number `n` followed by " min to go" reads back as `n` for every `n` of at most 4300 digits, and raises `int()`'s `ValueError` for a longer one: the letters of "to go" do not make "now" |
| TimeParsing.ParseToGoExample | backend.py:36-44 | "5 min to go" reads as 5 |
| TimeParsing.ParseNoReadingExamples | backend.py:36-62 | the empty text and "garbage" have no reading |
| TimeParsing.NoDigitNoReading | backend.py:36-62 | text with no digit that lacks a letter of "now" and a letter of "due" has no reading |
| TimeParsing.ReadsLeadingNumber | backend.py:36-44 | lower-case text without "now"/"due" (such as "5 min to go") that starts with digits reads as the number they spell, unless there are more than 4300 of them and `int()` raises |
| TimeParsing.Normalise | backend.py:36 | `time_str.strip().lower()`. It has no contract of its own; NormaliseIsSlice, NormaliseKeepsNowOrDue and NormaliseKeepsDigits characterise it |
| TimeParsing.NormaliseKeepsNowOrDue | backend.py:36-38 | stripping does not change whether the lower-cased text contains "now" or "due" |
| TimeParsing.NormaliseKeepsDigits | backend.py:36-43 | the stripped, lower-cased text has a digit exactly when the raw text has one |
| Text.DigitRunSearch | backend.py:42 | the search finds a match exactly when the text has a digit, and the match is the leftmost digit run extended as far as the digits go |
| Text.LeftmostRunUnique | backend.py:42 | a text has at most one leftmost maximal digit run |
| Text.DecimalRoundTrip | backend.py:44 | reading the decimal digits of `n` gives back `n` |
| Text.StripBounds | backend.py:36 | what `strip` removes is whitespace, and the text it keeps starts and ends with a non-space |
| Text.ContainsIff | backend.py:38 | `p in s` holds exactly when `p` occurs in `s` at some position |
| Text.MissingCharNotContained | backend.py:38 | a text lacking one of the pattern's characters does not contain the pattern |
| Text.ReplaceAll | backend.py:140 | `str.replace` with every occurrence replaced, scanning left to right. It has no contract of its own; ReplaceAbsent, RemoveAllShortens, ReplaceSkipsPrefix and PeperthrthRemoval characterise it |
| Text.ReplaceAbsent | backend.py:140 | replacing a pattern that does not occur leaves the text unchanged |
| Text.RemoveAllShortens | backend.py:140 | removing every occurrence never lengthens the text, and shortens it exactly when the pattern occurs |
| Text.ReplaceSkipsPrefix | backend.py:140 | a prefix free of the pattern's first character passes through a replacement unchanged |
| Scraping.BuildDeparture | backend.py:88-115 | a row yields a record exactly when platform, destination and time are present and the time says "now"/"due" or has a digit run of at most 4300 digits. A longer run raises in `int()` and the row is dropped. The record carries the row's texts, the reading as its minutes (never negative), pattern "W" and stops "All Stations" when absent, and the line name |
| Scraping.ScrapeRows | backend.py:85-117 | no more records than rows; each has the page's line name and non-negative minutes |
| Scraping.ScrapeRowsMembers | backend.py:85-117 | a record is scraped exactly when some row of the page yields it |
| Scraping.ScrapeRowsAppend | backend.py:85-117 | rows are handled independently and in order: scraping two runs of rows gives the two runs' records, concatenated |
| Scraping.ScrapeTransperth | backend.py:64-124 | a page that could not be fetched or read gives no records. A fetched page gives exactly the records that some row of it yields. Every record carries the line name |
| Scraping.LongNumberRowDropped | backend.py:101-115 | a row whose time is a number of more than 4300 digits followed by " min" yields no record: `int()` raises and the row loop skips the row |
| Scraping.EmptyDestinationKept | backend.py:94-99 | a row with an empty destination text still yields a record, with pattern and stops defaulted |
| StableSort.SortByMinutes | backend.py:149-150 | the result is sorted by minutes and is a permutation of the input |
| StableSort.SortKeepsMinuteOrder | backend.py:149-150 | the sort is stable: the records due in each minute appear in the result in input order |
| StableSort.SortByMinutesIsTheStableSort | backend.py:149-150 | every sorted arrangement of the input that keeps each minute's records in input order equals the model's sort. So the model's sort is what Python's stable sort returns |
| StableSort.WithMinutesOfPrefix | backend.py:154-155 | a prefix keeps, for each minute, an initial part of that minute's records |
| DepartureBoard.IsPerthBound | backend.py:140 | the direction test. It has no contract of its own; PerthBoundPlain, PerthBoundExamples, ArmadaleNotPerthBound and RemovalLeavesPerthExample characterise it |
| DepartureBoard.BoardKeepsMinuteOrder | backend.py:138-155 | for every minute, each list of the board holds the first of its direction's records due then, in the order the pages listed them |
| DepartureBoard.PerthBound | backend.py:138-141 | a record is in the Perth-bound list exactly when it is a combined record passing the direction test |
| DepartureBoard.SouthBound | backend.py:143-146 | a record is in the south-bound list exactly when it is a combined record not in the Perth-bound list |
| DepartureBoard.SouthBoundIsComplement | backend.py:138-146 | the membership-built south-bound list equals the list of records failing the direction test, in input order |
| DepartureBoard.DirectionsPartition | backend.py:138-146 | the Perth-bound records and the others together are the combined records, counted with multiplicity |
| DepartureBoard.SplitSpec | backend.py:135-146 | the two lists hold every combined record once and share none, and south-bound means failing the direction test |
| DepartureBoard.Take | backend.py:154-155 | a cut keeps the first `min(n, length)` entries: a prefix, drawn from the list, and sorted when the list is |
| DepartureBoard.TakeKeepsSooner | backend.py:149-155 | cutting a sorted arrangement of a direction to ten never drops a departure sooner than one it keeps |
| DepartureBoard.Combined | backend.py:131-135 | both lines' scraped records, Armadale's first, which decides how equal-minute ties fall in the stable sort. It has no contract of its own; GetDeparturesSpec and BoardKeepsMinuteOrder characterise what the board takes from it |
| DepartureBoard.BoardOf | backend.py:135-157 | the split, sort and cut of `get_departures` over given records. It has no contract of its own; BoardOfSpec characterises it |
| DepartureBoard.GetDepartures | backend.py:127-157 | `get_departures` over the two lines' pages. It has no contract of its own; GetDeparturesSpec characterises it |
| DepartureBoard.BoardOfSpec | backend.py:135-155 | for any combined records, each list of the board is a prefix of its direction's stable sort, exactly `min(10, n)` long for a direction of `n` records, sorted, from its own direction, and keeps the soonest departures |
| DepartureBoard.GetDeparturesSpec | backend.py:127-157 | over both lines' scraped records, each response list is a prefix of its direction's stable sort, exactly `min(10, n)` long for a direction of `n` records, sorted, drawn from its own direction, and keeps the soonest departures. Every listed departure has non-negative minutes |
| DepartureBoard.PerthBoundPlain | backend.py:140 | a destination whose lower-cased form is "perth" with `p`-free text around it is Perth-bound |
| DepartureBoard.PerthBoundExamples | backend.py:140 | "Perth" and "Perth Stadium" are Perth-bound |
| DepartureBoard.ArmadaleNotPerthBound | backend.py:140 | "Armadale" is not Perth-bound |
| DepartureBoard.RemovalLeavesPerthExample | backend.py:140 | "peperthrth" contains "perth" but is not Perth-bound: removing its "perth" leaves "perth" |
| DepartureBoard.PeperthrthRemoval | backend.py:140 | removing "perth" from "peperthrth" leaves "perth" |

## Left out

- The Flask application, its routes, CORS, the JSON encoding and the `success`/`error` wrapper of the response. The `last_updated` timestamp, the health check and the info page are left out too. They are web plumbing with no logic to state.
- Fetching pages with `requests` and finding rows and fields with BeautifulSoup selectors. A page arrives as its rows, each field either the stripped text of the element found or absent. `FetchFailed` stands for every failure while fetching or reading a page, and such a page gives no records.
- The row-level `except` is modelled only for the one exception a live row can raise: `int()` refusing a digit run longer than 4300 digits, which drops the row. Its `print` is left out.
- The 4300-digit limit is Python's default `sys.get_int_max_str_digits()`, the default of CPython 3.11 on and of the 3.7 to 3.10 patch releases since September 2022. A deployment that changes the limit, or an older Python without one, is not modelled.
- Logging with `print`, and the entry point that starts the server.
- Unicode. `Lower` folds only ASCII letters, and digits are the ASCII digits. Python's `lower()` and `\d` also cover other scripts.
- Whitespace. `strip()` is modelled with Python's whitespace characters, but `get_text(strip=True)` is not modelled: field texts are taken as given.
- TimeParsing.ClockDeparture: takes the time of day in whole seconds, so sub-second parts of `datetime.now()` are dropped. The reading is the floor of the exact minute difference in seconds, without floating point. The branch is unreachable, so no reading depends on this.
- TimeParsing.ParseDepartureTime: one time of day is passed to every row, where the source reads the clock on each call. The result never depends on it.
- The order in which the two pages are fetched, and any time passing between fetches.
