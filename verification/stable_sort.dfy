/**
 * `list.sort(key=lambda x: x['minutes'])`: Python's sort is stable, so the
 * result is the ascending arrangement by minutes in which records with
 * equal minutes keep their original order. The model sorts by insertion
 * and proves that it yields exactly that arrangement.
 */
module StableSort {
  import opened Scraping

  predicate SortedByMinutes(s: seq<Departure>) {
    forall i, j | 0 <= i < j < |s| :: s[i].minutes <= s[j].minutes
  }

  /** The records of `s` due in `k` minutes, in their order in `s`. */
  function WithMinutes(s: seq<Departure>, k: int): seq<Departure> {
    if |s| == 0 then []
    else (if s[0].minutes == k then [s[0]] else []) + WithMinutes(s[1..], k)
  }

  /** Unfolds `WithMinutes` at the head of a sequence. */
  lemma WithMinutesCons(x: Departure, s: seq<Departure>, k: int)
    ensures WithMinutes([x] + s, k) == (if x.minutes == k then [x] else []) + WithMinutes(s, k)
  {
    assert ([x] + s)[1..] == s;
  }

  /** A record due no later than the head of a sorted sequence can go in front of it. */
  lemma ConsSorted(x: Departure, s: seq<Departure>)
    requires SortedByMinutes(s)
    requires |s| > 0 ==> x.minutes <= s[0].minutes
    ensures SortedByMinutes([x] + s)
  {
    forall i, j | 0 <= i < j < |[x] + s|
      ensures ([x] + s)[i].minutes <= ([x] + s)[j].minutes
    {
      if i > 0 {
        assert ([x] + s)[i] == s[i - 1];
      }
      assert ([x] + s)[j] == s[j - 1];
    }
  }

  /**
   * Puts `x` into sorted `s` ahead of every record due no sooner than it:
   * the result is sorted and holds the records of `s` and one more `x`.
   */
  function Insert(x: Departure, s: seq<Departure>): (r: seq<Departure>)
    requires SortedByMinutes(s)
    ensures |r| == |s| + 1
    ensures r[0] == x || (|s| > 0 && r[0] == s[0])
    ensures SortedByMinutes(r)
    ensures multiset(r) == multiset(s) + multiset{x}
  {
    if |s| == 0 || x.minutes <= s[0].minutes then
      ConsSorted(x, s);
      [x] + s
    else
      var rest := Insert(x, s[1..]);
      assert s == [s[0]] + s[1..];
      assert s[0].minutes <= rest[0].minutes;
      ConsSorted(s[0], rest);
      [s[0]] + rest
  }

  /** Among the records due with `x`, the inserted `x` comes first; the others keep their order. */
  lemma {:induction false} InsertKeepsMinuteOrder(x: Departure, s: seq<Departure>, k: int)
    requires SortedByMinutes(s)
    ensures WithMinutes(Insert(x, s), k) == (if x.minutes == k then [x] else []) + WithMinutes(s, k)
    decreases |s|
  {
    if |s| == 0 || x.minutes <= s[0].minutes {
      WithMinutesCons(x, s, k);
    } else {
      var rest := Insert(x, s[1..]);
      var w := WithMinutes(s[1..], k);
      var hx: seq<Departure> := if x.minutes == k then [x] else [];
      var h0: seq<Departure> := if s[0].minutes == k then [s[0]] else [];
      InsertKeepsMinuteOrder(x, s[1..], k);
      WithMinutesCons(s[0], rest, k);
      calc {
        WithMinutes(Insert(x, s), k);
        WithMinutes([s[0]] + rest, k);
        h0 + (hx + w);
        { if hx == [] { assert hx + w == w && hx + (h0 + w) == h0 + w; }
          else { assert h0 == [] && h0 + (hx + w) == hx + w && h0 + w == w; } }
        hx + (h0 + w);
        hx + WithMinutes(s, k);
      }
    }
  }

  /** Sorting by minutes: a sorted permutation of the input. */
  function SortByMinutes(s: seq<Departure>): (r: seq<Departure>)
    ensures SortedByMinutes(r)
    ensures multiset(r) == multiset(s)
  {
    if |s| == 0 then []
    else
      assert s == [s[0]] + s[1..];
      Insert(s[0], SortByMinutes(s[1..]))
  }

  /** The sort is stable: the records due in each minute keep their input order. */
  lemma {:induction false} SortKeepsMinuteOrder(s: seq<Departure>, k: int)
    ensures WithMinutes(SortByMinutes(s), k) == WithMinutes(s, k)
  {
    if |s| > 0 {
      SortKeepsMinuteOrder(s[1..], k);
      InsertKeepsMinuteOrder(s[0], SortByMinutes(s[1..]), k);
      WithMinutesCons(s[0], s[1..], k);
      assert s == [s[0]] + s[1..];
    }
  }

  /** Some record of `s` is due in `k` minutes exactly when `WithMinutes(s, k)` is non-empty. */
  lemma {:induction false} WithMinutesNonEmpty(s: seq<Departure>, k: int)
    ensures |WithMinutes(s, k)| > 0 <==> exists i | 0 <= i < |s| :: s[i].minutes == k
  {
    if |s| > 0 {
      WithMinutesNonEmpty(s[1..], k);
      if exists i | 0 <= i < |s[1..]| :: s[1..][i].minutes == k {
        var i :| 0 <= i < |s[1..]| && s[1..][i].minutes == k;
        assert s[i + 1].minutes == k;
      }
      if i :| 0 <= i < |s| && s[i].minutes == k {
        if i > 0 {
          assert s[1..][i - 1].minutes == k;
        }
      }
    }
  }

  /** Two sorted sequences with the same per-minute records start with the same record. */
  lemma SortedHeadsAgree(a: seq<Departure>, b: seq<Departure>)
    requires SortedByMinutes(a) && SortedByMinutes(b)
    requires forall k :: WithMinutes(a, k) == WithMinutes(b, k)
    requires |a| > 0
    ensures |b| > 0 && a[0] == b[0]
  {
    var m := a[0].minutes;
    WithMinutesNonEmpty(a, m);
    assert |WithMinutes(b, m)| > 0;
    WithMinutesNonEmpty(b, m);
    var m' := b[0].minutes;
    WithMinutesNonEmpty(b, m');
    assert |WithMinutes(a, m')| > 0;
    WithMinutesNonEmpty(a, m');
    assert m' <= m && m <= m';
    assert WithMinutes(a, m)[0] == a[0];
    assert WithMinutes(b, m)[0] == b[0];
  }

  /** Dropping the same first record leaves the same per-minute records. */
  lemma TailsAgree(a: seq<Departure>, b: seq<Departure>, k: int)
    requires |a| > 0 && |b| > 0 && a[0] == b[0]
    requires WithMinutes(a, k) == WithMinutes(b, k)
    ensures WithMinutes(a[1..], k) == WithMinutes(b[1..], k)
  {
    var head := if a[0].minutes == k then [a[0]] else [];
    assert WithMinutes(a, k) == head + WithMinutes(a[1..], k);
    assert WithMinutes(b, k) == head + WithMinutes(b[1..], k);
    assert WithMinutes(a[1..], k) == (head + WithMinutes(a[1..], k))[|head|..];
    assert WithMinutes(b[1..], k) == (head + WithMinutes(b[1..], k))[|head|..];
  }

  /**
   * A sorted sequence is determined by its per-minute subsequences: two
   * sorted sequences that list the same records, in the same order, for
   * every minute are equal.
   */
  lemma {:induction false} SortedDeterminedByMinutes(a: seq<Departure>, b: seq<Departure>)
    requires SortedByMinutes(a) && SortedByMinutes(b)
    requires forall k :: WithMinutes(a, k) == WithMinutes(b, k)
    ensures a == b
    decreases |a|
  {
    if |a| == 0 {
      if |b| > 0 {
        SortedHeadsAgree(b, a);
      }
    } else {
      SortedHeadsAgree(a, b);
      forall k
        ensures WithMinutes(a[1..], k) == WithMinutes(b[1..], k)
      {
        TailsAgree(a, b, k);
      }
      SortedDeterminedByMinutes(a[1..], b[1..]);
      forall i | 0 <= i < |a|
        ensures a[i] == b[i]
      {
        if i > 0 {
          assert a[i] == a[1..][i - 1];
          assert b[i] == b[1..][i - 1];
        }
      }
    }
  }

  /**
   * `SortByMinutes` is the stable sort: any sorted arrangement of `s` that
   * keeps the records of each minute in their input order is it, so it is
   * what Python's stable `list.sort` returns.
   */
  lemma SortByMinutesIsTheStableSort(s: seq<Departure>, t: seq<Departure>)
    requires SortedByMinutes(t)
    requires forall k :: WithMinutes(t, k) == WithMinutes(s, k)
    ensures t == SortByMinutes(s)
  {
    forall k
      ensures WithMinutes(t, k) == WithMinutes(SortByMinutes(s), k)
    {
      SortKeepsMinuteOrder(s, k);
    }
    SortedDeterminedByMinutes(t, SortByMinutes(s));
  }

  /** Cutting a sequence short cuts each minute's records short: their order and earliest members are kept. */
  lemma {:induction false} WithMinutesOfPrefix(s: seq<Departure>, n: nat, k: int)
    requires n <= |s|
    ensures WithMinutes(s[..n], k) <= WithMinutes(s, k)
    decreases n
  {
    if n > 0 {
      assert s[..n][0] == s[0];
      assert s[..n][1..] == s[1..][..n - 1];
      WithMinutesOfPrefix(s[1..], n - 1, k);
    }
  }
}
