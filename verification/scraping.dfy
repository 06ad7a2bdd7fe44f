/**
 * The row filter of `scrape_transperth`: which scraped rows become departure
 * records, and what those records hold.
 *
 * Fetching the page and finding the row elements and their fields is not
 * modelled; a page arrives as the rows it held, each field the stripped
 * text of the element its selector found, or `None` when there was none.
 * A failed fetch, or any failure while handling the page, yields no records.
 */
module Scraping {
  import opened Wrappers
  import opened Text
  import opened TimeParsing

  /** Service pattern used when a row shows none. */
  const DefaultPattern := "W"
  /** Stopping pattern used when a row shows none. */
  const DefaultStops := "All Stations"

  /** The fields one row of a departure page offers. */
  datatype Row = Row(
    platform: Option<string>,
    destination: Option<string>,
    time: Option<string>,
    pattern: Option<string>,
    stops: Option<string>)

  /** One departure record, as the API reports it. */
  datatype Departure = Departure(
    platform: string,
    destination: string,
    timeDisplay: string,
    minutes: int,
    pattern: string,
    stops: string,
    line: string)

  /** One line's page: the rows it held, or a failure to fetch or read it. */
  datatype Page = Fetched(rows: seq<Row>) | FetchFailed

  /**
   * The record a row yields, if any. A row needs a platform, a destination
   * and a time element; a time that does not parse drops the row, and so
   * does an exception while parsing it (which the row loop catches): a
   * digit run too long for `int()`.
   */
  function BuildDeparture(row: Row, line: string, now: SecondOfDay): (r: Option<Departure>)
    ensures r.Some? <==>
      && row.platform.Some? && row.destination.Some? && row.time.Some?
      && (SaysNowOrDue(Lower(row.time.value)) || (HasDigit(row.time.value) && RunFitsInt(Lower(row.time.value))))
    ensures r.Some? ==>
      && r.value.platform == row.platform.value
      && r.value.destination == row.destination.value
      && r.value.timeDisplay == row.time.value
      && ParseDepartureTime(row.time.value, now) == Minutes(r.value.minutes)
      && r.value.minutes >= 0
      && r.value.pattern == row.pattern.GetOr(DefaultPattern)
      && r.value.stops == row.stops.GetOr(DefaultStops)
      && r.value.line == line
  {
    if row.platform.Some? && row.destination.Some? && row.time.Some? then
      ParseDepartureTimeSpec(row.time.value, now);
      match ParseDepartureTime(row.time.value, now)
      case Minutes(m) =>
        Some(Departure(row.platform.value, row.destination.value, row.time.value, m,
                       row.pattern.GetOr(DefaultPattern), row.stops.GetOr(DefaultStops), line))
      case Unparsed => None
      case ClockError => None
      case TooManyDigits => None
    else None
  }

  /** Some row of `rows` yields the record `d`. */
  predicate SomeRowYields(rows: seq<Row>, line: string, now: SecondOfDay, d: Departure) {
    exists i | 0 <= i < |rows| :: BuildDeparture(rows[i], line, now) == Some(d)
  }

  /** The records one row contributes: none, or the one it yields. */
  function RowRecords(row: Row, line: string, now: SecondOfDay): seq<Departure> {
    match BuildDeparture(row, line, now)
    case Some(d) => [d]
    case None => []
  }

  /** The records of a page's rows, in row order. */
  function ScrapeRows(rows: seq<Row>, line: string, now: SecondOfDay): (r: seq<Departure>)
    ensures |r| <= |rows|
    ensures forall d | d in r :: d.line == line && d.minutes >= 0
  {
    if |rows| == 0 then []
    else RowRecords(rows[0], line, now) + ScrapeRows(rows[1..], line, now)
  }

  /**
   * `scrape_transperth`: a page that could not be had gives no records; a
   * fetched page gives exactly the records its rows yield.
   */
  function ScrapeTransperth(page: Page, line: string, now: SecondOfDay): (r: seq<Departure>)
    ensures page.FetchFailed? ==> r == []
    ensures page.Fetched? ==> forall d :: d in r <==> SomeRowYields(page.rows, line, now, d)
    ensures forall d | d in r :: d.line == line && d.minutes >= 0
  {
    match page
    case Fetched(rows) =>
      assert forall d :: d in ScrapeRows(rows, line, now) <==> SomeRowYields(rows, line, now, d) by {
        forall d {
          ScrapeRowsMembers(rows, line, now, d);
        }
      }
      ScrapeRows(rows, line, now)
    case FetchFailed => []
  }

  /**
   * A record is scraped exactly when some row of the page yields it. The
   * right-hand side is `SomeRowYields(rows, line, now, d)` written out.
   */
  lemma {:induction false} ScrapeRowsMembers(rows: seq<Row>, line: string, now: SecondOfDay, d: Departure)
    ensures d in ScrapeRows(rows, line, now) <==>
      exists i | 0 <= i < |rows| :: BuildDeparture(rows[i], line, now) == Some(d)
    decreases |rows|
  {
    if |rows| > 0 {
      ScrapeRowsMembers(rows[1..], line, now, d);
      if exists i | 0 <= i < |rows[1..]| :: BuildDeparture(rows[1..][i], line, now) == Some(d) {
        var i :| 0 <= i < |rows[1..]| && BuildDeparture(rows[1..][i], line, now) == Some(d);
        assert BuildDeparture(rows[i + 1], line, now) == Some(d);
      }
      if i :| 0 <= i < |rows| && BuildDeparture(rows[i], line, now) == Some(d) {
        if i > 0 {
          assert BuildDeparture(rows[1..][i - 1], line, now) == Some(d);
        }
      }
    }
  }

  /** Rows are handled one at a time: scraping a page in two parts gives the records of both parts, in order. */
  lemma {:induction false} ScrapeRowsAppend(rows: seq<Row>, rows': seq<Row>, line: string, now: SecondOfDay)
    ensures ScrapeRows(rows + rows', line, now) == ScrapeRows(rows, line, now) + ScrapeRows(rows', line, now)
    decreases |rows|
  {
    if |rows| == 0 {
      assert rows + rows' == rows';
    } else {
      var head := RowRecords(rows[0], line, now);
      assert (rows + rows')[0] == rows[0];
      assert (rows + rows')[1..] == rows[1..] + rows';
      ScrapeRowsAppend(rows[1..], rows', line, now);
      calc {
        ScrapeRows(rows + rows', line, now);
        head + ScrapeRows(rows[1..] + rows', line, now);
        head + (ScrapeRows(rows[1..], line, now) + ScrapeRows(rows', line, now));
        (head + ScrapeRows(rows[1..], line, now)) + ScrapeRows(rows', line, now);
        ScrapeRows(rows, line, now) + ScrapeRows(rows', line, now);
      }
    }
  }

  /**
   * A row whose time is a number of more digits than `int()` accepts is
   * dropped: the parser raises, and the row loop catches it and moves on.
   */
  lemma LongNumberRowDropped(n: nat, row: Row, line: string, now: SecondOfDay)
    requires row.time == Some(NatToDecimal(n) + " min")
    requires |NatToDecimal(n)| > IntMaxStrDigits
    ensures BuildDeparture(row, line, now) == None
  {
    MinutesTextRoundTrip(n, now);
  }

  /**
   * A row is kept on the presence of its elements, not on their text: a
   * destination element with no text still yields a record, and missing
   * pattern and stops elements take their defaults.
   */
  lemma EmptyDestinationKept(now: SecondOfDay)
    ensures BuildDeparture(Row(Some("1"), Some(""), Some("Now"), None, None), "Armadale", now)
      == Some(Departure("1", "", "Now", 0, DefaultPattern, DefaultStops, "Armadale"))
  {
    ParseNowDueExamples(now);
  }
}
