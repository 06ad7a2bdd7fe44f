/**
 * The string built-ins the departure logic rests on: `str.lower`,
 * `str.strip`, the `in` substring test, `str.replace`, `int()` on a digit
 * string, and the leftmost-longest `\d+` search of `re.search`.
 * Case folding and digits are ASCII; whitespace is Python's `str.isspace`.
 */
module Text {
  import opened Wrappers

  predicate IsDigit(c: char) {
    '0' <= c <= '9'
  }

  /** The characters Python's `str.isspace` accepts. */
  predicate IsSpace(c: char) {
    var n := c as int;
    || n == 0x20 || 0x09 <= n <= 0x0D || 0x1C <= n <= 0x1F
    || n == 0x85 || n == 0xA0 || n == 0x1680 || 0x2000 <= n <= 0x200A
    || n == 0x2028 || n == 0x2029 || n == 0x202F || n == 0x205F || n == 0x3000
  }

  predicate AllDigits(s: string) {
    forall k | 0 <= k < |s| :: IsDigit(s[k])
  }

  predicate HasDigit(s: string) {
    exists k | 0 <= k < |s| :: IsDigit(s[k])
  }

  /** A slice of a slice is a slice of the original. */
  lemma SliceOfSlice<T>(s: seq<T>, a: nat, b: nat, i: nat, j: nat)
    requires a <= b <= |s| && i <= j <= b - a
    ensures s[a..b][i..j] == s[a + i..a + j]
  {
    forall k | 0 <= k < j - i
      ensures s[a..b][i..j][k] == s[a + i..a + j][k]
    {
    }
  }

  // ---------------------------------------------------------------- lower

  function LowerChar(c: char): char {
    if 'A' <= c <= 'Z' then (c as int + 32) as char else c
  }

  /** `str.lower` restricted to ASCII letters. */
  function Lower(s: string): (r: string)
    ensures |r| == |s|
    ensures forall k | 0 <= k < |s| :: r[k] == LowerChar(s[k])
  {
    seq(|s|, k requires 0 <= k < |s| => LowerChar(s[k]))
  }

  lemma LowerSlice(s: string, a: nat, b: nat)
    requires a <= b <= |s|
    ensures Lower(s[a..b]) == Lower(s)[a..b]
  {
  }

  // ---------------------------------------------------------------- strip

  /** Index of the first non-space character at or after `i`. */
  function SkipSpace(s: string, i: nat): (a: nat)
    requires i <= |s|
    ensures i <= a <= |s|
    ensures forall k | i <= k < a :: IsSpace(s[k])
    ensures a < |s| ==> !IsSpace(s[a])
    decreases |s| - i
  {
    if i < |s| && IsSpace(s[i]) then SkipSpace(s, i + 1) else i
  }

  /** The end of `s[a..b]` once its trailing spaces are dropped. */
  function SkipSpaceBack(s: string, a: nat, b: nat): (e: nat)
    requires a <= b <= |s|
    ensures a <= e <= b
    ensures forall k | e <= k < b :: IsSpace(s[k])
    ensures a < e ==> !IsSpace(s[e - 1])
    decreases b
  {
    if a < b && IsSpace(s[b - 1]) then SkipSpaceBack(s, a, b - 1) else b
  }

  /** The bounds `[a, b)` of `s.strip()` inside `s`. */
  function StripBounds(s: string): (ab: (nat, nat))
    ensures ab.0 <= ab.1 <= |s|
    ensures forall k | 0 <= k < ab.0 :: IsSpace(s[k])
    ensures forall k | ab.1 <= k < |s| :: IsSpace(s[k])
    ensures ab.0 < ab.1 ==> !IsSpace(s[ab.0]) && !IsSpace(s[ab.1 - 1])
  {
    var a := SkipSpace(s, 0);
    (a, SkipSpaceBack(s, a, |s|))
  }

  /** `str.strip()` with no argument. */
  function Strip(s: string): string {
    s[StripBounds(s).0..StripBounds(s).1]
  }

  // ------------------------------------------------------------ substring

  predicate OccursAt(s: string, p: string, i: int) {
    0 <= i && i + |p| <= |s| && s[i..i + |p|] == p
  }

  /** Python's `p in s` for strings. */
  predicate Contains(s: string, p: string)
    decreases |s|
  {
    |p| <= |s| && (s[..|p|] == p || Contains(s[1..], p))
  }

  lemma {:induction false} ContainsIff(s: string, p: string)
    ensures Contains(s, p) <==> exists i :: OccursAt(s, p, i)
    decreases |s|
  {
    if |p| <= |s| {
      if s[..|p|] == p {
        assert OccursAt(s, p, 0);
      } else {
        ContainsIff(s[1..], p);
        if Contains(s[1..], p) {
          var i :| OccursAt(s[1..], p, i);
          SliceOfSlice(s, 1, |s|, i, i + |p|);
          assert OccursAt(s, p, i + 1);
        }
        if i :| OccursAt(s, p, i) {
          assert i != 0;
          SliceOfSlice(s, 1, |s|, i - 1, i - 1 + |p|);
          assert OccursAt(s[1..], p, i - 1);
        }
      }
    }
  }

  /** A pattern holding a character that `s` lacks is not in `s`. */
  lemma {:induction false} MissingCharNotContained(s: string, p: string, c: char)
    requires c in p && c !in s
    ensures !Contains(s, p)
    decreases |s|
  {
    if |p| <= |s| {
      var k :| 0 <= k < |p| && p[k] == c;
      assert s[..|p|][k] != p[k];
      forall m | 0 <= m < |s[1..]|
        ensures s[1..][m] != c
      {
        assert s[1..][m] == s[m + 1];
      }
      MissingCharNotContained(s[1..], p, c);
    }
  }

  /**
   * A whitespace-free pattern is in `s` exactly when it is in any slice
   * `s[a..b]` outside of which `s` has only whitespace.
   */
  lemma ContainsInside(s: string, a: nat, b: nat, p: string)
    requires a <= b <= |s|
    requires forall k | 0 <= k < a :: IsSpace(s[k])
    requires forall k | b <= k < |s| :: IsSpace(s[k])
    requires |p| > 0 && forall k | 0 <= k < |p| :: !IsSpace(p[k])
    ensures Contains(s[a..b], p) <==> Contains(s, p)
  {
    ContainsIff(s[a..b], p);
    ContainsIff(s, p);
    forall i | OccursAt(s[a..b], p, i)
      ensures OccursAt(s, p, a + i)
    {
      OccursShifted(s, a, b, p, i);
    }
    forall i | OccursAt(s, p, i)
      ensures OccursAt(s[a..b], p, i - a)
    {
      OccursInside(s, a, b, p, i);
    }
  }

  lemma OccursShifted(s: string, a: nat, b: nat, p: string, i: int)
    requires a <= b <= |s| && OccursAt(s[a..b], p, i)
    ensures OccursAt(s, p, a + i)
  {
    SliceOfSlice(s, a, b, i, i + |p|);
  }

  lemma OccursInside(s: string, a: nat, b: nat, p: string, i: int)
    requires a <= b <= |s|
    requires forall k | 0 <= k < a :: IsSpace(s[k])
    requires forall k | b <= k < |s| :: IsSpace(s[k])
    requires |p| > 0 && forall k | 0 <= k < |p| :: !IsSpace(p[k])
    requires OccursAt(s, p, i)
    ensures OccursAt(s[a..b], p, i - a)
  {
    assert s[i..i + |p|][0] == s[i];
    assert s[i..i + |p|][|p| - 1] == s[i + |p| - 1];
    assert !IsSpace(s[i]) && !IsSpace(s[i + |p| - 1]);
    assert a <= i && i + |p| <= b;
    SliceOfSlice(s, a, b, i - a, i - a + |p|);
  }

  // -------------------------------------------------------------- replace

  /**
   * `s.replace(pat, repl)`: every non-overlapping occurrence of `pat`,
   * found scanning left to right, becomes `repl`; an empty `pat` puts
   * `repl` before every character and at the end.
   */
  function ReplaceAll(s: string, pat: string, repl: string): string
    decreases |s|
  {
    if |pat| == 0 then
      if |s| == 0 then repl else repl + [s[0]] + ReplaceAll(s[1..], pat, repl)
    else if |s| < |pat| then s
    else if s[..|pat|] == pat then repl + ReplaceAll(s[|pat|..], pat, repl)
    else [s[0]] + ReplaceAll(s[1..], pat, repl)
  }

  /** Replacing a pattern that does not occur changes nothing. */
  lemma {:induction false} ReplaceAbsent(s: string, pat: string, repl: string)
    requires |pat| > 0 && !Contains(s, pat)
    ensures ReplaceAll(s, pat, repl) == s
    decreases |s|
  {
    if |pat| <= |s| {
      ReplaceAbsent(s[1..], pat, repl);
      assert [s[0]] + s[1..] == s;
    }
  }

  /** Removing every occurrence shortens the string exactly when there was one. */
  lemma {:induction false} RemoveAllShortens(s: string, pat: string)
    requires |pat| > 0
    ensures |ReplaceAll(s, pat, [])| <= |s|
    ensures Contains(s, pat) <==> |ReplaceAll(s, pat, [])| < |s|
    decreases |s|
  {
    if |pat| <= |s| {
      if s[..|pat|] == pat {
        RemoveAllShortens(s[|pat|..], pat);
      } else {
        RemoveAllShortens(s[1..], pat);
      }
    }
  }

  /** A character that cannot start the pattern is copied and the scan moves on. */
  lemma ReplaceStep(s: string, pat: string, repl: string)
    requires |pat| > 0 && |s| > 0 && s[0] != pat[0]
    ensures ReplaceAll(s, pat, repl) == [s[0]] + ReplaceAll(s[1..], pat, repl)
  {
    if |s| < |pat| {
      assert ReplaceAll(s[1..], pat, repl) == s[1..];
      assert [s[0]] + s[1..] == s;
    } else {
      assert s[..|pat|][0] != pat[0];
    }
  }

  /** A prefix without the pattern's first character passes through untouched. */
  lemma {:induction false} ReplaceSkipsPrefix(x: string, y: string, pat: string, repl: string)
    requires |pat| > 0 && pat[0] !in x
    ensures ReplaceAll(x + y, pat, repl) == x + ReplaceAll(y, pat, repl)
    decreases |x|
  {
    if |x| == 0 {
      assert x + y == y;
    } else {
      var s := x + y;
      assert s[0] == x[0];
      assert s[1..] == x[1..] + y;
      ReplaceStep(s, pat, repl);
      forall m | 0 <= m < |x[1..]|
        ensures x[1..][m] != pat[0]
      {
        assert x[1..][m] == x[m + 1];
      }
      ReplaceSkipsPrefix(x[1..], y, pat, repl);
      var r := ReplaceAll(y, pat, repl);
      calc {
        ReplaceAll(s, pat, repl);
        [x[0]] + ReplaceAll(x[1..] + y, pat, repl);
        [x[0]] + (x[1..] + r);
        ([x[0]] + x[1..]) + r;
        { assert [x[0]] + x[1..] == x; }
        x + r;
      }
    }
  }

  // ---------------------------------------------------------- digit runs

  /** The value of one decimal digit. */
  function DigitValue(c: char): nat
    requires IsDigit(c)
  {
    c as int - '0' as int
  }

  /** The value of a decimal digit string, as `int()` reads it. */
  function DecimalValue(ds: string): nat
    requires AllDigits(ds)
    decreases |ds|
  {
    if |ds| == 0 then 0 else DecimalValue(ds[..|ds| - 1]) * 10 + DigitValue(ds[|ds| - 1])
  }

  function DigitChar(d: nat): (c: char)
    requires d < 10
    ensures IsDigit(c) && DigitValue(c) == d
  {
    ('0' as int + d) as char
  }

  /** `str(n)` for a non-negative `n`. */
  function NatToDecimal(n: nat): (ds: string)
    ensures |ds| > 0 && AllDigits(ds)
  {
    if n < 10 then [DigitChar(n)] else NatToDecimal(n / 10) + [DigitChar(n % 10)]
  }

  /** `int(str(n)) == n`: reading back a printed number gives the number. */
  lemma {:induction false} DecimalRoundTrip(n: nat)
    ensures DecimalValue(NatToDecimal(n)) == n
  {
    var ds := NatToDecimal(n);
    if n >= 10 {
      DecimalRoundTrip(n / 10);
      assert ds[..|ds| - 1] == NatToDecimal(n / 10);
    }
  }

  /** `s[i..j]` is the match of `\d+` that `re.search` returns: leftmost, longest. */
  predicate IsLeftmostRun(s: string, i: int, j: int) {
    && 0 <= i < j <= |s|
    && (forall k | 0 <= k < i :: !IsDigit(s[k]))
    && AllDigits(s[i..j])
    && (j == |s| || !IsDigit(s[j]))
  }

  lemma LeftmostRunUnique(s: string, i: int, j: int, i': int, j': int)
    requires IsLeftmostRun(s, i, j) && IsLeftmostRun(s, i', j')
    ensures i == i' && j == j'
  {
    assert s[i..j][0] == s[i];
    assert s[i'..j'][0] == s[i'];
    forall m | i <= m < j
      ensures IsDigit(s[m])
    {
      assert s[i..j][m - i] == s[m];
    }
    forall m | i' <= m < j'
      ensures IsDigit(s[m])
    {
      assert s[i'..j'][m - i'] == s[m];
    }
  }

  function FirstDigitFrom(s: string, i: nat): (k: nat)
    requires i <= |s|
    ensures i <= k <= |s|
    ensures forall m | i <= m < k :: !IsDigit(s[m])
    ensures k < |s| ==> IsDigit(s[k])
    decreases |s| - i
  {
    if i == |s| || IsDigit(s[i]) then i else FirstDigitFrom(s, i + 1)
  }

  function RunEnd(s: string, i: nat): (j: nat)
    requires i <= |s|
    ensures i <= j <= |s|
    ensures forall m | i <= m < j :: IsDigit(s[m])
    ensures j < |s| ==> !IsDigit(s[j])
    decreases |s| - i
  {
    if i < |s| && IsDigit(s[i]) then RunEnd(s, i + 1) else i
  }

  /** `re.search(r'(\d+)', s)`, as the bounds of the match. */
  function DigitRunSearch(s: string): (r: Option<(nat, nat)>)
    ensures r.Some? <==> HasDigit(s)
    ensures r.Some? ==> IsLeftmostRun(s, r.value.0, r.value.1)
  {
    var i := FirstDigitFrom(s, 0);
    if i == |s| then None else Some((i, RunEnd(s, i)))
  }

  /**
   * Whitespace around a string changes neither whether it holds a digit
   * nor where its leftmost digit run is.
   */
  lemma DigitRunInside(s: string, a: nat, b: nat)
    requires a <= b <= |s|
    requires forall k | 0 <= k < a :: IsSpace(s[k])
    requires forall k | b <= k < |s| :: IsSpace(s[k])
    ensures HasDigit(s[a..b]) <==> HasDigit(s)
    ensures forall i, j | IsLeftmostRun(s[a..b], i, j) :: IsLeftmostRun(s, a + i, a + j)
  {
    var u := s[a..b];
    if HasDigit(s) {
      var k :| 0 <= k < |s| && IsDigit(s[k]);
      assert a <= k < b;
      assert IsDigit(u[k - a]);
    }
    if HasDigit(u) {
      var k :| 0 <= k < |u| && IsDigit(u[k]);
      assert IsDigit(s[a + k]);
    }
    forall i, j | IsLeftmostRun(u, i, j)
      ensures IsLeftmostRun(s, a + i, a + j)
    {
      RunShifted(s, a, b, i, j);
    }
  }

  lemma RunShifted(s: string, a: nat, b: nat, i: int, j: int)
    requires a <= b <= |s|
    requires forall k | 0 <= k < a :: IsSpace(s[k])
    requires forall k | b <= k < |s| :: IsSpace(s[k])
    requires IsLeftmostRun(s[a..b], i, j)
    ensures IsLeftmostRun(s, a + i, a + j)
  {
    var u := s[a..b];
    forall k | 0 <= k < a + i
      ensures !IsDigit(s[k])
    {
      if k >= a {
        assert s[k] == u[k - a];
      }
    }
    SliceOfSlice(s, a, b, i, j);
    if a + j < |s| {
      if j < |u| {
        assert s[a + j] == u[j];
      } else {
        assert IsSpace(s[a + j]);
      }
    }
  }

  /** The digit-run search on a whitespace-trimmed slice finds the same run as on the whole. */
  lemma SliceFindsSameRun(s: string, a: nat, b: nat, i: int, j: int)
    requires a <= b <= |s|
    requires forall k | 0 <= k < a :: IsSpace(s[k])
    requires forall k | b <= k < |s| :: IsSpace(s[k])
    requires IsLeftmostRun(s, i, j)
    ensures DigitRunSearch(s[a..b]).Some?
    ensures var run := DigitRunSearch(s[a..b]).value;
      s[a..b][run.0..run.1] == s[i..j]
  {
    SliceRunPosition(s, a, b, i, j);
    var run := DigitRunSearch(s[a..b]).value;
    SliceOfSlice(s, a, b, run.0, run.1);
  }

  /** Where the search finds the run inside the slice, measured in the whole string. */
  lemma SliceRunPosition(s: string, a: nat, b: nat, i: int, j: int)
    requires a <= b <= |s|
    requires forall k | 0 <= k < a :: IsSpace(s[k])
    requires forall k | b <= k < |s| :: IsSpace(s[k])
    requires IsLeftmostRun(s, i, j)
    ensures DigitRunSearch(s[a..b]).Some?
    ensures var run := DigitRunSearch(s[a..b]).value;
      a + run.0 == i && a + run.1 == j
  {
    assert HasDigit(s[a..b]) by {
      assert s[i..j][0] == s[i];
      DigitRunInside(s, a, b);
    }
    var run := DigitRunSearch(s[a..b]).value;
    RunShifted(s, a, b, run.0, run.1);
    LeftmostRunUnique(s, i, j, a + run.0, a + run.1);
  }

  /** Case folding leaves digits and whitespace alone. */
  lemma LowerKeepsDigitsAndSpace(s: string)
    ensures forall k | 0 <= k < |s| :: IsDigit(Lower(s)[k]) <==> IsDigit(s[k])
    ensures forall k | 0 <= k < |s| :: IsSpace(Lower(s)[k]) <==> IsSpace(s[k])
    ensures HasDigit(Lower(s)) <==> HasDigit(s)
  {
    if HasDigit(s) {
      var k :| 0 <= k < |s| && IsDigit(s[k]);
      assert IsDigit(Lower(s)[k]);
    }
  }
}
