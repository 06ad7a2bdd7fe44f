/**
 * `get_departures`: the records of both lines' pages are combined, split
 * into Perth-bound and south-bound, each list sorted by minutes and cut to
 * the next ten departures.
 */
module DepartureBoard {
  import opened Wrappers
  import opened Text
  import opened TimeParsing
  import opened Scraping
  import opened StableSort

  /** How many departures each direction reports. */
  const Limit := 10
  const PerthToken := "perth"
  const ArmadaleLine := "Armadale"
  const ThornlieLine := "Thornlie-Cockburn"

  /**
   * The direction test: the lower-cased destination names Perth, and
   * removing every "perth" from it leaves none behind.
   */
  predicate IsPerthBound(destination: string) {
    var d := Lower(destination);
    Contains(d, PerthToken) && !Contains(ReplaceAll(d, PerthToken, ""), PerthToken)
  }

  /** The Perth-bound records, in input order. */
  function PerthBound(s: seq<Departure>): (r: seq<Departure>)
    ensures forall d :: d in r <==> d in s && IsPerthBound(d.destination)
  {
    if |s| == 0 then []
    else
      assert s == [s[0]] + s[1..];
      (if IsPerthBound(s[0].destination) then [s[0]] else []) + PerthBound(s[1..])
  }

  /** The records of `s` that are not among `perth`, in input order. */
  function SouthBound(s: seq<Departure>, perth: seq<Departure>): (r: seq<Departure>)
    ensures forall d :: d in r <==> d in s && d !in perth
  {
    if |s| == 0 then []
    else
      assert s == [s[0]] + s[1..];
      (if s[0] !in perth then [s[0]] else []) + SouthBound(s[1..], perth)
  }

  /** The records that fail the direction test, in input order: the reference for the south-bound list. */
  function NotPerthBound(s: seq<Departure>): seq<Departure> {
    if |s| == 0 then []
    else (if IsPerthBound(s[0].destination) then [] else [s[0]]) + NotPerthBound(s[1..])
  }

  /** `s[:n]`: the first `n` entries, or all of `s` when it is shorter. */
  function Take(s: seq<Departure>, n: nat): (r: seq<Departure>)
    ensures |r| == if |s| < n then |s| else n
    ensures r <= s
    ensures multiset(r) <= multiset(s)
    ensures SortedByMinutes(s) ==> SortedByMinutes(r)
  {
    if |s| < n then s
    else
      assert s == s[..n] + s[n..];
      s[..n]
  }

  /** The response body's two lists. */
  datatype Board = Board(perth: seq<Departure>, south: seq<Departure>)

  /** The records of both lines, Armadale's first. */
  function Combined(armadale: Page, thornlie: Page, now: SecondOfDay): seq<Departure> {
    ScrapeTransperth(armadale, ArmadaleLine, now) + ScrapeTransperth(thornlie, ThornlieLine, now)
  }

  /** The board made from the combined records: each direction sorted and cut. */
  function BoardOf(all: seq<Departure>): Board {
    var perth := PerthBound(all);
    var south := SouthBound(all, perth);
    Board(Take(SortByMinutes(perth), Limit), Take(SortByMinutes(south), Limit))
  }

  /** `get_departures`, without the timestamp and the JSON wrapping. */
  function GetDepartures(armadale: Page, thornlie: Page, now: SecondOfDay): Board {
    BoardOf(Combined(armadale, thornlie, now))
  }

  // ----------------------------------------------------------------- lemmas

  /**
   * Testing membership in the Perth-bound list is the direction test
   * negated: for the records it is computed over, the south-bound list is
   * exactly the records that are not Perth-bound.
   */
  lemma {:induction false} SouthBoundIsComplement(s: seq<Departure>, perth: seq<Departure>)
    requires forall d | d in s :: d in perth <==> IsPerthBound(d.destination)
    ensures SouthBound(s, perth) == NotPerthBound(s)
  {
    if |s| > 0 {
      assert s[0] in s;
      forall d | d in s[1..]
        ensures d in perth <==> IsPerthBound(d.destination)
      {
        assert d in s;
      }
      SouthBoundIsComplement(s[1..], perth);
    }
  }

  /** Every record goes to exactly one of the two directions. */
  lemma {:induction false} DirectionsPartition(s: seq<Departure>)
    ensures multiset(PerthBound(s)) + multiset(NotPerthBound(s)) == multiset(s)
  {
    if |s| > 0 {
      DirectionsPartition(s[1..]);
      assert s == [s[0]] + s[1..];
    }
  }

  /**
   * The split of `get_departures`: the two lists together hold every
   * combined record once, no record is in both, and a record is
   * south-bound exactly when it fails the direction test.
   */
  lemma SplitSpec(all: seq<Departure>)
    ensures var perth := PerthBound(all); var south := SouthBound(all, perth);
      && multiset(perth) + multiset(south) == multiset(all)
      && (forall d | d in perth :: d !in south)
      && (forall d :: d in south <==> d in all && !IsPerthBound(d.destination))
      && south == NotPerthBound(all)
  {
    SouthBoundIsComplement(all, PerthBound(all));
    DirectionsPartition(all);
  }

  /** In a sorted sequence, a record sooner than one in a prefix is in that prefix. */
  lemma SortedPrefixKeepsSooner(sorted: seq<Departure>, n: nat, d: Departure, e: Departure)
    requires SortedByMinutes(sorted) && n <= |sorted|
    requires d in sorted && e in sorted[..n] && d.minutes < e.minutes
    ensures d in sorted[..n]
  {
    var j :| 0 <= j < |sorted| && sorted[j] == d;
    var i :| 0 <= i < n && sorted[..n][i] == e;
    assert sorted[..n][j] == d;
  }

  /**
   * Cutting a sorted arrangement of `part` keeps the soonest departures: a
   * departure of `part` sooner than one the cut keeps is kept too.
   */
  lemma TakeKeepsSooner(part: seq<Departure>, sorted: seq<Departure>, d: Departure, e: Departure)
    requires SortedByMinutes(sorted) && multiset(sorted) == multiset(part)
    requires d in part && e in Take(sorted, Limit) && d.minutes < e.minutes
    ensures d in Take(sorted, Limit)
  {
    var t := Take(sorted, Limit);
    assert d in multiset(part);
    assert d in sorted;
    assert t == sorted[..|t|];
    SortedPrefixKeepsSooner(sorted, |t|, d, e);
  }

  /**
   * What the board holds for any combined records: the Perth-bound list is
   * the soonest Perth-bound records, the south-bound list the soonest of
   * the rest, each a cut-down stable sort of its direction.
   */
  lemma BoardOfSpec(all: seq<Departure>)
    ensures var board := BoardOf(all);
      && board.perth <= SortByMinutes(PerthBound(all))
      && board.south <= SortByMinutes(NotPerthBound(all))
      && |board.perth| == (if |PerthBound(all)| < Limit then |PerthBound(all)| else Limit)
      && |board.south| == (if |NotPerthBound(all)| < Limit then |NotPerthBound(all)| else Limit)
      && SortedByMinutes(board.perth) && SortedByMinutes(board.south)
      && (forall d | d in board.perth :: d in all && IsPerthBound(d.destination))
      && (forall d | d in board.south :: d in all && !IsPerthBound(d.destination))
      && (forall d, e | d in all && IsPerthBound(d.destination) && e in board.perth && d.minutes < e.minutes :: d in board.perth)
      && (forall d, e | d in all && !IsPerthBound(d.destination) && e in board.south && d.minutes < e.minutes :: d in board.south)
  {
    var perth := PerthBound(all);
    var south := NotPerthBound(all);
    SplitSpec(all);
    var board := BoardOf(all);
    forall d, e | d in perth && e in board.perth && d.minutes < e.minutes
      ensures d in board.perth
    {
      TakeKeepsSooner(perth, SortByMinutes(perth), d, e);
    }
    forall d, e | d in south && e in board.south && d.minutes < e.minutes
      ensures d in board.south
    {
      TakeKeepsSooner(south, SortByMinutes(south), d, e);
    }
    forall d | d in board.perth
      ensures d in perth
    {
      assert d in multiset(board.perth);
    }
    forall d | d in board.south
      ensures d in NotPerthBound(all)
    {
      assert d in multiset(board.south);
    }
    forall d | d in NotPerthBound(all)
      ensures d in all && !IsPerthBound(d.destination)
    {
      assert d in SouthBound(all, perth);
    }
  }

  /**
   * Each list of the board keeps, for every minute, the first of that
   * direction's records due then, in the order the pages listed them.
   */
  lemma BoardKeepsMinuteOrder(all: seq<Departure>, k: int)
    ensures WithMinutes(BoardOf(all).perth, k) <= WithMinutes(PerthBound(all), k)
    ensures WithMinutes(BoardOf(all).south, k) <= WithMinutes(NotPerthBound(all), k)
  {
    var perth := PerthBound(all);
    var south := SouthBound(all, perth);
    SplitSpec(all);
    var board := BoardOf(all);
    WithMinutesOfPrefix(SortByMinutes(perth), |board.perth|, k);
    SortKeepsMinuteOrder(perth, k);
    WithMinutesOfPrefix(SortByMinutes(south), |board.south|, k);
    SortKeepsMinuteOrder(south, k);
  }

  /**
   * What `get_departures` reports: the board of both lines' records, in
   * which every departure is one the pages listed, with a reading of at
   * least zero minutes.
   */
  lemma GetDeparturesSpec(armadale: Page, thornlie: Page, now: SecondOfDay)
    ensures var all := Combined(armadale, thornlie, now);
      var board := GetDepartures(armadale, thornlie, now);
      && board.perth <= SortByMinutes(PerthBound(all))
      && board.south <= SortByMinutes(NotPerthBound(all))
      && |board.perth| == (if |PerthBound(all)| < Limit then |PerthBound(all)| else Limit)
      && |board.south| == (if |NotPerthBound(all)| < Limit then |NotPerthBound(all)| else Limit)
      && SortedByMinutes(board.perth) && SortedByMinutes(board.south)
      && (forall d | d in board.perth :: d in all && IsPerthBound(d.destination) && d.minutes >= 0)
      && (forall d | d in board.south :: d in all && !IsPerthBound(d.destination) && d.minutes >= 0)
      && (forall d, e | d in all && IsPerthBound(d.destination) && e in board.perth && d.minutes < e.minutes :: d in board.perth)
      && (forall d, e | d in all && !IsPerthBound(d.destination) && e in board.south && d.minutes < e.minutes :: d in board.south)
  {
    BoardOfSpec(Combined(armadale, thornlie, now));
  }

  /** With `a` and `b` free of any `p`, "…perth…" passes the direction test. */
  lemma PerthBoundPlain(destination: string, a: string, b: string)
    requires Lower(destination) == a + PerthToken + b
    requires 'p' !in a && 'p' !in b
    ensures IsPerthBound(destination)
  {
    var d := Lower(destination);
    assert d == a + (PerthToken + b);
    assert OccursAt(d, PerthToken, |a|) by {
      assert d[|a|..|a| + 5] == PerthToken;
    }
    ContainsIff(d, PerthToken);
    ReplaceSkipsPrefix(a, PerthToken + b, PerthToken, "");
    assert (PerthToken + b)[..5] == PerthToken;
    assert (PerthToken + b)[5..] == b;
    assert ReplaceAll(PerthToken + b, PerthToken, "") == ReplaceAll(b, PerthToken, "");
    MissingCharNotContained(b, PerthToken, 'p');
    ReplaceAbsent(b, PerthToken, "");
    assert 'p' !in a + b;
    MissingCharNotContained(a + b, PerthToken, 'p');
  }

  /** "Perth" and "Perth Stadium" are Perth-bound. */
  lemma PerthBoundExamples()
    ensures IsPerthBound("Perth")
    ensures IsPerthBound("Perth Stadium")
  {
    assert IsPerthBound("Perth") by {
      assert Lower("Perth") == [] + PerthToken + [];
      PerthBoundPlain("Perth", [], []);
    }
    assert IsPerthBound("Perth Stadium") by {
      assert Lower("Perth Stadium") == [] + PerthToken + " stadium";
      PerthBoundPlain("Perth Stadium", [], " stadium");
    }
  }

  /** "Armadale" is not Perth-bound: it does not name Perth. */
  lemma ArmadaleNotPerthBound()
    ensures !IsPerthBound("Armadale")
  {
    assert Lower("Armadale") == "armadale";
    MissingCharNotContained("armadale", PerthToken, 'p');
  }

  /**
   * "peperthrth" names Perth but is not Perth-bound: removing its one
   * "perth" joins "pe" and "rth" into another.
   */
  lemma RemovalLeavesPerthExample()
    ensures Contains(Lower("peperthrth"), PerthToken)
    ensures !IsPerthBound("peperthrth")
  {
    var d := "peperthrth";
    assert Lower(d) == d;
    PeperthrthRemoval();
    assert Contains("perth", PerthToken);
    assert d[2..][..5] == PerthToken;
    assert Contains(d[2..], PerthToken);
    assert Contains(d[1..], PerthToken);
  }

  /** Removing "perth" from "peperthrth" leaves "perth". */
  lemma PeperthrthRemoval()
    ensures ReplaceAll("peperthrth", PerthToken, "") == "perth"
  {
    var d := "peperthrth";
    assert d[..5][2] != PerthToken[2];
    assert d[1..] == "e" + "perthrth";
    ReplaceSkipsPrefix("e", "perthrth", PerthToken, "");
    assert "perthrth"[..5] == PerthToken;
    assert "perthrth"[5..] == "rth";
    calc {
      ReplaceAll(d, PerthToken, "");
      "p" + ReplaceAll("e" + "perthrth", PerthToken, "");
      "p" + ("e" + ReplaceAll("perthrth", PerthToken, ""));
      "p" + ("e" + ("" + ReplaceAll("rth", PerthToken, "")));
      { assert ReplaceAll("rth", PerthToken, "") == "rth"; }
      "p" + ("e" + ("" + "rth"));
      "perth";
    }
  }
}
