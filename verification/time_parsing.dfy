/**
 * `parse_departure_time`: turning the time text of a departure row ("Now",
 * "Due", "5 min", "12min", "10:45") into whole minutes from now.
 *
 * The rules are tried in order on the stripped, lower-cased text: "now" or
 * "due" anywhere gives 0; otherwise the first run of digits is the answer;
 * otherwise a wall-clock `H:MM` is measured against the current time of
 * day; otherwise there is no answer. The wall-clock rule can never fire,
 * because every clock time contains a digit and the digit rule comes first;
 * `ClockBranchUnreachable` proves it. The digit rule can raise, though:
 * `int()` refuses a run of more than `IntMaxStrDigits` digits.
 */
module TimeParsing {
  import opened Wrappers
  import opened Text

  const SecondsPerMinute := 60
  const SecondsPerHour := 3600
  const SecondsPerDay := 86400
  const MinutesPerDay := 1440
  /**
   * Python's default `sys.get_int_max_str_digits()`: `int()` of a decimal
   * text with more digits than this raises `ValueError`.
   */
  const IntMaxStrDigits := 4300

  /** The wall clock's time of day, in whole seconds since midnight. */
  type SecondOfDay = s: int | 0 <= s < SecondsPerDay

  /**
   * What the parser yields: a number of minutes, Python's `None`, the
   * `ValueError` that `datetime.replace` raises for an hour above 23 or a
   * minute above 59, or the `ValueError` that `int()` raises for a digit
   * run longer than `IntMaxStrDigits`.
   */
  datatype TimeResult = Minutes(value: int) | Unparsed | ClockError | TooManyDigits

  /** The text the rules look at: `time_str.strip().lower()`. */
  function Normalise(raw: string): string {
    Lower(Strip(raw))
  }

  predicate SaysNowOrDue(t: string) {
    Contains(t, "now") || Contains(t, "due")
  }

  /** The leftmost digit run of `t`, if there is one, is short enough for `int()`. */
  predicate RunFitsInt(t: string) {
    forall i, j | 0 <= i < j <= |t| && IsLeftmostRun(t, i, j) :: j - i <= IntMaxStrDigits
  }

  // --------------------------------------------------------- clock branch

  /** `t[i..]` starts with `\d{1,2}:\d{2}` whose hour part has `k` digits. */
  predicate ClockAt(t: string, i: nat, k: nat) {
    && (k == 1 || k == 2)
    && i + k + 3 <= |t|
    && AllDigits(t[i..i + k])
    && t[i + k] == ':'
    && AllDigits(t[i + k + 1..i + k + 3])
  }

  /**
   * `re.search(r'(\d{1,2}):(\d{2})', t)` from position `i`, as the pair
   * (hour, minute): the leftmost start wins, and at one start the greedy
   * two-digit hour is tried before the one-digit hour.
   */
  function ClockSearch(t: string, i: nat): Option<(nat, nat)>
    requires i <= |t|
    decreases |t| - i
  {
    if i == |t| then None
    else if ClockAt(t, i, 2) then Some((DecimalValue(t[i..i + 2]), DecimalValue(t[i + 3..i + 5])))
    else if ClockAt(t, i, 1) then Some((DecimalValue(t[i..i + 1]), DecimalValue(t[i + 2..i + 4])))
    else ClockSearch(t, i + 1)
  }

  /**
   * Minutes from `now` until `hour:minute` today, or tomorrow when that is
   * already past; `int()` of a non-negative quotient rounds down.
   */
  function ClockDeparture(hour: nat, minute: nat, now: SecondOfDay): (r: TimeResult)
    ensures r == ClockError <==> hour > 23 || minute > 59
    ensures r.Minutes? <==> hour <= 23 && minute <= 59
    ensures r.Minutes? ==> 0 <= r.value < MinutesPerDay
    ensures r.Minutes? ==>
      var ahead := (hour * SecondsPerHour + minute * SecondsPerMinute - now) % SecondsPerDay;
      SecondsPerMinute * r.value <= ahead < SecondsPerMinute * (r.value + 1)
  {
    if hour > 23 || minute > 59 then ClockError
    else
      var departure := hour * SecondsPerHour + minute * SecondsPerMinute;
      var diff := if departure < now then departure + SecondsPerDay - now else departure - now;
      Minutes(diff / SecondsPerMinute)
  }

  // ------------------------------------------------------------- the parser

  /** `parse_departure_time(raw)`, the clock read passed in as `now`. */
  function ParseDepartureTime(raw: string, now: SecondOfDay): TimeResult {
    var t := Normalise(raw);
    if SaysNowOrDue(t) then Minutes(0)
    else match DigitRunSearch(t)
      case Some(run) =>
        if run.1 - run.0 > IntMaxStrDigits then TooManyDigits
        else Minutes(DecimalValue(t[run.0..run.1]))
      case None =>
        match ClockSearch(t, 0)
        case Some(hm) => ClockDeparture(hm.0, hm.1, now)
        case None => Unparsed
  }

  // ----------------------------------------------------------------- lemmas

  /** Every clock time the search can find has a digit in it. */
  lemma {:induction false} ClockMatchHasDigit(t: string, i: nat)
    requires i <= |t| && ClockSearch(t, i).Some?
    ensures HasDigit(t)
    decreases |t| - i
  {
    if ClockAt(t, i, 2) {
      assert t[i..i + 2][0] == t[i];
    } else if ClockAt(t, i, 1) {
      assert t[i..i + 1][0] == t[i];
    } else {
      ClockMatchHasDigit(t, i + 1);
    }
  }

  /**
   * The wall-clock rule is dead code: whenever its pattern matches, the
   * digit rule has already answered. So the result never depends on the
   * clock and is never the clock rule's `ValueError`.
   */
  lemma ClockBranchUnreachable(raw: string, now: SecondOfDay, now': SecondOfDay)
    ensures ClockSearch(Normalise(raw), 0).Some? ==> DigitRunSearch(Normalise(raw)).Some?
    ensures ParseDepartureTime(raw, now) == ParseDepartureTime(raw, now')
    ensures ParseDepartureTime(raw, now) != ClockError
  {
    var t := Normalise(raw);
    if ClockSearch(t, 0).Some? {
      ClockMatchHasDigit(t, 0);
    }
  }

  /** The normalised text is the lower-cased text less surrounding whitespace. */
  lemma NormaliseIsSlice(raw: string)
    ensures StripBounds(raw).0 <= StripBounds(raw).1 <= |Lower(raw)|
    ensures Normalise(raw) == Lower(raw)[StripBounds(raw).0..StripBounds(raw).1]
    ensures forall k | 0 <= k < StripBounds(raw).0 :: IsSpace(Lower(raw)[k])
    ensures forall k | StripBounds(raw).1 <= k < |raw| :: IsSpace(Lower(raw)[k])
  {
    var (a, b) := StripBounds(raw);
    LowerSlice(raw, a, b);
    LowerKeepsDigitsAndSpace(raw);
  }

  lemma NormaliseKeepsNowOrDue(raw: string)
    ensures SaysNowOrDue(Normalise(raw)) <==> SaysNowOrDue(Lower(raw))
  {
    var (a, b) := StripBounds(raw);
    NormaliseIsSlice(raw);
    assert forall k | 0 <= k < |"now"| :: !IsSpace("now"[k]);
    assert forall k | 0 <= k < |"due"| :: !IsSpace("due"[k]);
    ContainsInside(Lower(raw), a, b, "now");
    ContainsInside(Lower(raw), a, b, "due");
  }

  lemma NormaliseKeepsDigits(raw: string)
    ensures HasDigit(Normalise(raw)) <==> HasDigit(raw)
  {
    NormaliseIsSlice(raw);
    LowerKeepsDigitsAndSpace(raw);
    DigitRunInside(Lower(raw), StripBounds(raw).0, StripBounds(raw).1);
  }

  /** Unfolds the parser on text without "now"/"due" that holds a digit. */
  lemma ParseOnDigits(raw: string, now: SecondOfDay)
    requires !SaysNowOrDue(Normalise(raw)) && DigitRunSearch(Normalise(raw)).Some?
    ensures var run := DigitRunSearch(Normalise(raw)).value;
      ParseDepartureTime(raw, now) ==
        if run.1 - run.0 > IntMaxStrDigits then TooManyDigits
        else Minutes(DecimalValue(Normalise(raw)[run.0..run.1]))
  {
  }

  /** The run the parser finds in the normalised text is the raw text's leftmost run. */
  lemma NormalisedRunIsRawRun(raw: string, i: int, j: int)
    requires IsLeftmostRun(Lower(raw), i, j)
    ensures DigitRunSearch(Normalise(raw)).Some?
    ensures var run := DigitRunSearch(Normalise(raw)).value;
      Normalise(raw)[run.0..run.1] == Lower(raw)[i..j]
  {
    NormaliseIsSlice(raw);
    SliceFindsSameRun(Lower(raw), StripBounds(raw).0, StripBounds(raw).1, i, j);
  }

  /** The digit rule, stated on the raw text: the run's value, or `int()`'s refusal of a run too long. */
  lemma ParseDigitRun(raw: string, now: SecondOfDay, i: int, j: int)
    requires !SaysNowOrDue(Lower(raw)) && IsLeftmostRun(Lower(raw), i, j)
    ensures ParseDepartureTime(raw, now) ==
      if j - i > IntMaxStrDigits then TooManyDigits else Minutes(DecimalValue(Lower(raw)[i..j]))
  {
    NormaliseKeepsNowOrDue(raw);
    NormalisedRunIsRawRun(raw, i, j);
    ParseOnDigits(raw, now);
  }

  /**
   * The rules of `parse_departure_time`, stated on the raw text:
   * "now"/"due" gives 0 whatever digits there are; otherwise the value of
   * the leftmost longest digit run, or `int()`'s error when that run is too
   * long; `None` exactly when there is neither; a reading exactly when
   * there is "now"/"due" or a run short enough; never a negative number and
   * never a clock error.
   */
  lemma ParseDepartureTimeSpec(raw: string, now: SecondOfDay)
    ensures var r := ParseDepartureTime(raw, now);
      && (SaysNowOrDue(Lower(raw)) ==> r == Minutes(0))
      && (!SaysNowOrDue(Lower(raw)) ==>
            forall i, j | IsLeftmostRun(Lower(raw), i, j) ::
              r == if j - i > IntMaxStrDigits then TooManyDigits else Minutes(DecimalValue(Lower(raw)[i..j])))
      && (r == Unparsed <==> !SaysNowOrDue(Lower(raw)) && !HasDigit(raw))
      && (r.Minutes? <==> SaysNowOrDue(Lower(raw)) || (HasDigit(raw) && RunFitsInt(Lower(raw))))
      && (r.Minutes? ==> r.value >= 0)
      && r != ClockError
  {
    if SaysNowOrDue(Lower(raw)) {
      ParseNowOrDue(raw, now);
    }
    ParseUnparsedIff(raw, now);
    ParseReadingIff(raw, now);
    ClockBranchUnreachable(raw, now, now);
    forall i, j | !SaysNowOrDue(Lower(raw)) && IsLeftmostRun(Lower(raw), i, j)
      ensures ParseDepartureTime(raw, now) ==
        if j - i > IntMaxStrDigits then TooManyDigits else Minutes(DecimalValue(Lower(raw)[i..j]))
    {
      ParseDigitRun(raw, now, i, j);
    }
  }

  /** "now" or "due" anywhere in the text, in any case, reads as 0 whatever digits it holds. */
  lemma ParseNowOrDue(raw: string, now: SecondOfDay)
    requires SaysNowOrDue(Lower(raw))
    ensures ParseDepartureTime(raw, now) == Minutes(0)
  {
    NormaliseKeepsNowOrDue(raw);
  }

  /** There is no reading exactly when the text holds neither "now"/"due" nor a digit. */
  lemma ParseUnparsedIff(raw: string, now: SecondOfDay)
    ensures ParseDepartureTime(raw, now) == Unparsed <==> !SaysNowOrDue(Lower(raw)) && !HasDigit(raw)
  {
    NormaliseKeepsNowOrDue(raw);
    NormaliseKeepsDigits(raw);
    ClockBranchUnreachable(raw, now, now);
  }

  /**
   * The text reads as a number of minutes exactly when it says "now" or
   * "due", or holds a digit and its leftmost digit run is short enough for
   * `int()`.
   */
  lemma ParseReadingIff(raw: string, now: SecondOfDay)
    ensures ParseDepartureTime(raw, now).Minutes? <==>
      SaysNowOrDue(Lower(raw)) || (HasDigit(raw) && RunFitsInt(Lower(raw)))
  {
    if SaysNowOrDue(Lower(raw)) {
      ParseNowOrDue(raw, now);
    } else if !HasDigit(raw) {
      ParseUnparsedIff(raw, now);
    } else {
      LowerKeepsDigitsAndSpace(raw);
      var run := DigitRunSearch(Lower(raw)).value;
      ParseDigitRun(raw, now, run.0, run.1);
      forall i, j | IsLeftmostRun(Lower(raw), i, j)
        ensures i == run.0 && j == run.1
      {
        LeftmostRunUnique(Lower(raw), i, j, run.0, run.1);
      }
    }
  }

  /** `int()` raises exactly when the text says neither "now" nor "due" and its leftmost digit run is too long. */
  lemma ParseRefusedIff(raw: string, now: SecondOfDay)
    ensures ParseDepartureTime(raw, now) == TooManyDigits <==>
      !SaysNowOrDue(Lower(raw)) && HasDigit(raw) && !RunFitsInt(Lower(raw))
  {
    ParseReadingIff(raw, now);
    ParseUnparsedIff(raw, now);
    ClockBranchUnreachable(raw, now, now);
  }

  /**
   * `"<n> min"` reads back as `n` minutes, for every `n` whose decimal text
   * `int()` accepts; a longer number raises instead.
   */
  lemma MinutesTextRoundTrip(n: nat, now: SecondOfDay)
    ensures ParseDepartureTime(NatToDecimal(n) + " min", now) ==
      if |NatToDecimal(n)| <= IntMaxStrDigits then Minutes(n) else TooManyDigits
  {
    var ds := NatToDecimal(n);
    var raw := ds + " min";
    assert Lower(raw) == raw by {
      forall k | 0 <= k < |raw|
        ensures LowerChar(raw[k]) == raw[k]
      {
        if k < |ds| {
          assert IsDigit(ds[k]);
        }
      }
    }
    assert 'o' !in raw by {
      forall k | 0 <= k < |raw|
        ensures raw[k] != 'o'
      {
        if k < |ds| {
          assert IsDigit(ds[k]);
        }
      }
    }
    assert 'd' !in raw by {
      forall k | 0 <= k < |raw|
        ensures raw[k] != 'd'
      {
        if k < |ds| {
          assert IsDigit(ds[k]);
        }
      }
    }
    assert "now"[1] == 'o';
    assert "due"[0] == 'd';
    MissingCharNotContained(raw, "now", 'o');
    MissingCharNotContained(raw, "due", 'd');
    assert raw[..|ds|] == ds;
    assert IsLeftmostRun(raw, 0, |ds|) by {
      assert raw[0..|ds|] == ds;
      assert raw[|ds|] == ' ';
    }
    ParseDigitRun(raw, now, 0, |ds|);
    DecimalRoundTrip(n);
  }

  /** "Now" and "Due", in any case and with surrounding spaces, read as 0 minutes. */
  lemma ParseNowDueExamples(now: SecondOfDay)
    ensures ParseDepartureTime("Now", now) == Minutes(0)
    ensures ParseDepartureTime(" Due 3", now) == Minutes(0)
  {
    assert ParseDepartureTime("Now", now) == Minutes(0) by {
      assert Lower("Now") == "now";
      assert Contains("now", "now");
      ParseNowOrDue("Now", now);
    }
    assert ParseDepartureTime(" Due 3", now) == Minutes(0) by {
      assert Lower(" Due 3") == " due 3";
      assert " due 3"[1..][..3] == "due";
      assert Contains(" due 3", "due");
      ParseNowOrDue(" Due 3", now);
    }
  }

  /** "5 min" reads as 5. */
  lemma ParseFiveMinExample(now: SecondOfDay)
    ensures ParseDepartureTime("5 min", now) == Minutes(5)
  {
    assert NatToDecimal(5) == "5";
    assert "5" + " min" == "5 min";
    MinutesTextRoundTrip(5, now);
  }

  /** "12min" reads as 12: the digit run ends at the first letter. */
  lemma ParseTwelveMinExample(now: SecondOfDay)
    ensures ParseDepartureTime("12min", now) == Minutes(12)
  {
    var raw := "12min";
    assert raw[..2] == "12" && AllDigits("12") && !IsDigit(raw[2]);
    assert Lower(raw) == raw;
    assert 'o' !in raw && 'd' !in raw;
    MissingCharNotContained(raw, "now", 'o');
    MissingCharNotContained(raw, "due", 'd');
    assert DecimalValue("12") == 12 by {
      assert "12"[..1] == "1";
    }
    ReadsLeadingNumber(raw, 2, now);
  }

  /** "10:45" reads as 10: the digit rule fires before the clock rule could. */
  lemma ParseClockTextExample(now: SecondOfDay)
    ensures ParseDepartureTime("10:45", now) == Minutes(10)
  {
    var raw := "10:45";
    assert raw[..2] == "10" && AllDigits("10") && !IsDigit(raw[2]);
    assert Lower(raw) == raw;
    assert 'o' !in raw && 'd' !in raw;
    MissingCharNotContained(raw, "now", 'o');
    MissingCharNotContained(raw, "due", 'd');
    assert DecimalValue("10") == 10 by {
      assert "10"[..1] == "1";
    }
    ReadsLeadingNumber(raw, 2, now);
  }

  /** Digits followed by " min to go" are already lower case and say neither "now" nor "due". */
  lemma ToGoText(ds: string)
    requires AllDigits(ds)
    ensures Lower(ds + " min to go") == ds + " min to go"
    ensures !SaysNowOrDue(ds + " min to go")
  {
    var raw := ds + " min to go";
    forall k | 0 <= k < |raw|
      ensures LowerChar(raw[k]) == raw[k] && raw[k] != 'w' && raw[k] != 'd'
    {
      if k < |ds| {
        assert IsDigit(ds[k]);
      }
    }
    assert "now"[2] == 'w';
    assert "due"[0] == 'd';
    MissingCharNotContained(raw, "now", 'w');
    MissingCharNotContained(raw, "due", 'd');
  }

  /**
   * `"<n> min to go"` reads as `n` minutes, for every `n` whose decimal
   * text `int()` accepts: the 'o's of "to go" do not make "now".
   */
  lemma MinutesToGoRoundTrip(n: nat, now: SecondOfDay)
    ensures ParseDepartureTime(NatToDecimal(n) + " min to go", now) ==
      if |NatToDecimal(n)| <= IntMaxStrDigits then Minutes(n) else TooManyDigits
  {
    var ds := NatToDecimal(n);
    var raw := ds + " min to go";
    ToGoText(ds);
    assert raw[..|ds|] == ds;
    assert raw[|ds|] == ' ';
    ReadsLeadingNumber(raw, |ds|, now);
    DecimalRoundTrip(n);
  }

  /** "5 min to go" reads as 5. */
  lemma ParseToGoExample(now: SecondOfDay)
    ensures ParseDepartureTime("5 min to go", now) == Minutes(5)
  {
    assert NatToDecimal(5) == "5";
    assert "5" + " min to go" == "5 min to go";
    MinutesToGoRoundTrip(5, now);
  }

  /** Empty text and text without a digit or "now"/"due" have no reading. */
  lemma ParseNoReadingExamples(now: SecondOfDay)
    ensures ParseDepartureTime("", now) == Unparsed
    ensures ParseDepartureTime("garbage", now) == Unparsed
  {
    NoDigitNoReading("garbage", now, 'o', 'd');
    NoDigitNoReading("", now, 'o', 'd');
  }

  /** Text whose lower-cased form lacks a letter of "now" and one of "due", and has no digit, has no reading. */
  lemma NoDigitNoReading(raw: string, now: SecondOfDay, c: char, c': char)
    requires c in "now" && c' in "due"
    requires c !in Lower(raw) && c' !in Lower(raw)
    requires forall k | 0 <= k < |raw| :: !IsDigit(raw[k])
    ensures ParseDepartureTime(raw, now) == Unparsed
  {
    MissingCharNotContained(Lower(raw), "now", c);
    MissingCharNotContained(Lower(raw), "due", c');
    ParseDepartureTimeSpec(raw, now);
  }

  /**
   * Text that is already lower case, starts with `n` digits and then has no
   * "now"/"due", reads as its leading number, unless `int()` refuses that
   * many digits.
   */
  lemma ReadsLeadingNumber(raw: string, n: nat, now: SecondOfDay)
    requires 0 < n <= |raw| && AllDigits(raw[..n]) && (n == |raw| || !IsDigit(raw[n]))
    requires Lower(raw) == raw
    requires !SaysNowOrDue(raw)
    ensures ParseDepartureTime(raw, now) ==
      if n <= IntMaxStrDigits then Minutes(DecimalValue(raw[..n])) else TooManyDigits
  {
    assert raw[0..n] == raw[..n];
    assert IsLeftmostRun(raw, 0, n);
    ParseDigitRun(raw, now, 0, n);
  }

  /** What the dead clock rule would have computed: 10:45 is 5 minutes after 10:40, and 1435 after 10:50. */
  lemma ClockDepartureExamples()
    ensures ClockDeparture(10, 45, 10 * SecondsPerHour + 40 * SecondsPerMinute) == Minutes(5)
    ensures ClockDeparture(10, 45, 10 * SecondsPerHour + 50 * SecondsPerMinute) == Minutes(1435)
    ensures ClockDeparture(10, 45, 10 * SecondsPerHour + 45 * SecondsPerMinute) == Minutes(0)
    ensures ClockDeparture(24, 0, 0) == ClockError
  {
  }
}
