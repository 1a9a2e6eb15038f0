/** Shared vocabulary of the model: optional values, order-preserving filters,
    first-match search, ASCII lower-casing, substring search, the rounded
    percentage the dashboards display, and decimal rendering of naturals. */
module Common {

  datatype Option<T> = None | Some(value: T)

  /** The outcome of an operation that can raise: a value or the message of
      the error raised. */
  datatype Result<T> = Ok(value: T) | Err(error: string)

  /** `xs.filter(p)`: the elements satisfying `p`, in their original order. */
  function Filter<T(!new)>(s: seq<T>, p: T -> bool): (r: seq<T>)
    ensures |r| <= |s|
    ensures forall x :: x in r <==> x in s && p(x)
  {
    if s == [] then [] else (if p(s[0]) then [s[0]] else []) + Filter(s[1..], p)
  }

  /** Filtering distributes over concatenation; this is what lets a loop
      that appends one element at a time maintain `acc == Filter(prefix)`. */
  lemma {:induction false} FilterAppend<T(!new)>(a: seq<T>, b: seq<T>, p: T -> bool)
    ensures Filter(a + b, p) == Filter(a, p) + Filter(b, p)
  {
    if a == [] {
      assert a + b == b;
    } else {
      assert (a + b)[1..] == a[1..] + b;
      FilterAppend(a[1..], b, p);
    }
  }

  /** A filter whose predicate holds everywhere keeps the whole list. */
  lemma {:induction false} FilterAll<T(!new)>(s: seq<T>, p: T -> bool)
    requires forall i :: 0 <= i < |s| ==> p(s[i])
    ensures Filter(s, p) == s
  {
    if s != [] {
      FilterAll(s[1..], p);
    }
  }

  /** A filter whose predicate holds nowhere keeps nothing. */
  lemma {:induction false} FilterNone<T(!new)>(s: seq<T>, p: T -> bool)
    requires forall i :: 0 <= i < |s| ==> !p(s[i])
    ensures Filter(s, p) == []
  {
    if s != [] {
      FilterNone(s[1..], p);
    }
  }

  /** Filters by predicates that agree on the list's elements agree. */
  lemma {:induction false} FilterAgree<T(!new)>(s: seq<T>, p: T -> bool, q: T -> bool)
    requires forall i :: 0 <= i < |s| ==> p(s[i]) == q(s[i])
    ensures Filter(s, p) == Filter(s, q)
  {
    if s != [] {
      FilterAgree(s[1..], p, q);
    }
  }

  /** `xs.findIndex(p)` / SQL `.first()`: the index of the first element
      satisfying `p`, or None when there is none. */
  function FirstIndex<T>(s: seq<T>, p: T -> bool): (r: Option<nat>)
    ensures r.None? <==> forall i :: 0 <= i < |s| ==> !p(s[i])
    ensures r.Some? ==> r.value < |s| && p(s[r.value])
    ensures r.Some? ==> forall j :: 0 <= j < r.value ==> !p(s[j])
  {
    if s == [] then None
    else if p(s[0]) then Some(0)
    else match FirstIndex(s[1..], p)
      case None => None
      case Some(k) => Some(k + 1)
  }

  /** Two tests that agree on every element find the same first index. */
  lemma {:induction false} FirstIndexAgree<T>(s: seq<T>, p: T -> bool, q: T -> bool)
    requires forall i :: 0 <= i < |s| ==> p(s[i]) == q(s[i])
    ensures FirstIndex(s, p) == FirstIndex(s, q)
  {
    if s != [] && !p(s[0]) {
      FirstIndexAgree(s[1..], p, q);
    }
  }

  /** `xs.find(p)`: the first element satisfying `p`. */
  function Find<T>(s: seq<T>, p: T -> bool): (r: Option<T>)
    ensures r.None? <==> forall i :: 0 <= i < |s| ==> !p(s[i])
    ensures r.Some? ==> exists i :: 0 <= i < |s| && s[i] == r.value && p(s[i])
                                    && forall j :: 0 <= j < i ==> !p(s[j])
  {
    match FirstIndex(s, p)
    case None => None
    case Some(k) => Some(s[k])
  }

  /** Elementwise map, `xs.map(f)`. */
  function Map<T, U>(s: seq<T>, f: T -> U): (r: seq<U>)
    ensures |r| == |s|
    ensures forall i :: 0 <= i < |s| ==> r[i] == f(s[i])
  {
    seq(|s|, i requires 0 <= i < |s| => f(s[i]))
  }

  /** Mapping distributes over concatenation. */
  lemma MapAppend<T, U>(a: seq<T>, b: seq<T>, f: T -> U)
    ensures Map(a + b, f) == Map(a, f) + Map(b, f)
  {
    assert forall i :: 0 <= i < |a| ==> (a + b)[i] == a[i];
    assert forall i :: |a| <= i < |a| + |b| ==> (a + b)[i] == b[i - |a|];
  }

  /** No two positions of `s` carry the same key: the "at most one row per
      key" invariant of the attendance ledgers and the enrolment table. */
  ghost predicate UniqueBy<T, K>(s: seq<T>, key: T -> K)
  {
    forall i, j :: 0 <= i < j < |s| ==> key(s[i]) != key(s[j])
  }

  /** Appending a row whose key is not yet present keeps keys unique. */
  lemma AppendFreshKey<T, K>(s: seq<T>, x: T, key: T -> K)
    requires UniqueBy(s, key)
    requires forall i :: 0 <= i < |s| ==> key(s[i]) != key(x)
    ensures UniqueBy(s + [x], key)
  {
    var t := s + [x];
    forall i, j | 0 <= i < j < |t| ensures key(t[i]) != key(t[j]) {
      if j < |s| {
        assert t[i] == s[i] && t[j] == s[j];
      } else {
        assert t[i] == s[i] && t[j] == x;
      }
    }
  }

  /** Rewriting a row in place without changing its key keeps keys unique. */
  lemma UpdateSameKey<T, K>(s: seq<T>, k: nat, x: T, key: T -> K)
    requires UniqueBy(s, key)
    requires k < |s| && key(x) == key(s[k])
    ensures UniqueBy(s[k := x], key)
  {
    var t := s[k := x];
    forall i, j | 0 <= i < j < |t| ensures key(t[i]) != key(t[j]) {
      assert key(t[i]) == key(s[i]) && key(t[j]) == key(s[j]);
    }
  }

  // ---------------------------------------------------------------- text

  /** `toLowerCase` restricted to ASCII letters. */
  function LowerChar(c: char): (r: char)
    ensures 'A' <= c <= 'Z' ==> r as int == c as int + 32
    ensures !('A' <= c <= 'Z') ==> r == c
    ensures !('A' <= r <= 'Z')
  {
    if 'A' <= c <= 'Z' then (c as int + 32) as char else c
  }

  function Lower(s: string): (r: string)
    ensures |r| == |s|
    ensures forall i :: 0 <= i < |s| ==> r[i] == LowerChar(s[i])
  {
    seq(|s|, i requires 0 <= i < |s| => LowerChar(s[i]))
  }

  /** Lower-casing twice is lower-casing once. */
  lemma LowerIdempotent(s: string)
    ensures Lower(Lower(s)) == Lower(s)
  {
    assert forall i :: 0 <= i < |s| ==> LowerChar(LowerChar(s[i])) == LowerChar(s[i]);
  }

  /** `needle` occurs in `hay` starting at position `i`. */
  predicate OccursAt(hay: string, needle: string, i: int)
  {
    0 <= i && i + |needle| <= |hay| && hay[i..i + |needle|] == needle
  }

  /** `hay.includes(needle)`. */
  predicate Contains(hay: string, needle: string)
  {
    exists i :: 0 <= i <= |hay| && OccursAt(hay, needle, i)
  }

  /** Every string includes the empty string: an empty search keeps all rows. */
  lemma ContainsEmpty(hay: string)
    ensures Contains(hay, "")
  {
    assert OccursAt(hay, "", 0);
  }

  /** `s.startsWith(prefix)`. */
  predicate StartsWith(s: string, prefix: string)
  {
    |prefix| <= |s| && s[..|prefix|] == prefix
  }

  // ---------------------------------------------------------- toggles

  /** No element occurs twice. */
  predicate Distinct<T(==)>(s: seq<T>)
  {
    forall i, j :: 0 <= i < j < |s| ==> s[i] != s[j]
  }

  /** The admin forms' `toggleSubject` on a list of codes or ids: a member is
      filtered out everywhere it occurs, a non-member is appended. */
  function Toggle(xs: seq<string>, x: string): (r: seq<string>)
  {
    if x in xs then Filter(xs, (y: string) => y != x) else xs + [x]
  }

  /** Toggling flips membership of `x` and nothing else; a non-member lands
      at the end. */
  lemma ToggleMembership(xs: seq<string>, x: string)
    ensures x in Toggle(xs, x) <==> x !in xs
    ensures forall y :: y != x ==> (y in Toggle(xs, x) <==> y in xs)
    ensures x !in xs ==> Toggle(xs, x) == xs + [x]
    ensures x in xs ==> |Toggle(xs, x)| < |xs|
  {
    if x in xs {
      FilterDrops(xs, x);
    }
  }

  /** Filtering out a member shortens the list. */
  lemma {:induction false} FilterDrops(xs: seq<string>, x: string)
    requires x in xs
    ensures |Filter(xs, (y: string) => y != x)| < |xs|
  {
    if xs[0] != x {
      FilterDrops(xs[1..], x);
    }
  }

  /** Filtering out a value that never occurs changes nothing. */
  lemma FilterAbsent(xs: seq<string>, x: string)
    requires x !in xs
    ensures Filter(xs, (y: string) => y != x) == xs
  {
    FilterAll(xs, (y: string) => y != x);
  }

  /** Filtering keeps a duplicate-free list duplicate-free. */
  lemma {:induction false} FilterDistinct<T(!new)>(s: seq<T>, p: T -> bool)
    requires Distinct(s)
    ensures Distinct(Filter(s, p))
  {
    if s != [] {
      assert Distinct(s[1..]) by {
        forall i, j | 0 <= i < j < |s[1..]|
          ensures s[1..][i] != s[1..][j]
        {
          assert s[1..][i] == s[i + 1] && s[1..][j] == s[j + 1];
        }
      }
      FilterDistinct(s[1..], p);
      assert s[0] !in s[1..] by {
        forall k | 0 <= k < |s[1..]|
          ensures s[1..][k] != s[0]
        {
          assert s[1..][k] == s[k + 1];
        }
      }
      var rest := Filter(s[1..], p);
      assert s[0] !in rest;
      var head := if p(s[0]) then [s[0]] else [];
      assert Filter(s, p) == head + rest;
      forall i, j | 0 <= i < j < |head + rest|
        ensures (head + rest)[i] != (head + rest)[j]
      {
        if i < |head| {
          assert (head + rest)[j] == rest[j - |head|];
        }
      }
    }
  }

  /** Toggling keeps the list duplicate-free. */
  lemma ToggleDistinct(xs: seq<string>, x: string)
    requires Distinct(xs)
    ensures Distinct(Toggle(xs, x))
  {
    if x in xs {
      FilterDistinct(xs, (y: string) => y != x);
    } else {
      var r := xs + [x];
      forall i, j | 0 <= i < j < |r|
        ensures r[i] != r[j]
      {
        if j == |xs| {
          assert r[i] == xs[i];
        }
      }
    }
  }

  /** Toggling a non-member twice restores the list; toggling a member twice
      moves it to the end. */
  lemma ToggleTwice(xs: seq<string>, x: string)
    ensures x !in xs ==> Toggle(Toggle(xs, x), x) == xs
    ensures x in xs ==> Toggle(Toggle(xs, x), x) == Filter(xs, (y: string) => y != x) + [x]
  {
    ToggleMembership(xs, x);
    if x !in xs {
      var r := xs + [x];
      FilterAppend(xs, [x], (y: string) => y != x);
      FilterAbsent(xs, x);
      assert Filter([x], (y: string) => y != x) == [];
    }
  }

  // ---------------------------------------------------------- arithmetic

  /** `Math.round(100 * a / t)` for a >= 0 and t > 0: the integer nearest to
      100a/t, halves rounded up. */
  function RoundPercent(a: nat, t: nat): (r: nat)
    requires t > 0
    ensures 2 * t * r <= 200 * a + t < 2 * t * (r + 1)
  {
    (200 * a + t) / (2 * t)
  }

  /** A share of a whole never rounds outside 0..100. */
  lemma RoundPercentBounded(a: nat, t: nat)
    requires 0 < t && a <= t
    ensures RoundPercent(a, t) <= 100
  {
    var r := RoundPercent(a, t);
    assert 200 * a + t < 2 * t * 101;
    assert (2 * t) * r < (2 * t) * 101;
    MulCancelLess(2 * t, r, 101);
  }

  /** A whole rounds to exactly 100. */
  lemma RoundPercentWhole(t: nat)
    requires 0 < t
    ensures RoundPercent(t, t) == 100
  {
    var r := RoundPercent(t, t);
    RoundPercentBounded(t, t);
    assert (2 * t) * 100 < (2 * t) * (r + 1);
    MulCancelLess(2 * t, 100, r + 1);
  }

  /** Nothing rounds to exactly 0. */
  lemma RoundPercentNone(t: nat)
    requires 0 < t
    ensures RoundPercent(0, t) == 0
  {
    var r := RoundPercent(0, t);
    assert (2 * t) * r < (2 * t) * 1;
    MulCancelLess(2 * t, r, 1);
  }

  /** Cancelling a positive factor from a strict inequality between products. */
  lemma MulCancelLess(k: int, x: int, y: int)
    requires k > 0 && k * x < k * y
    ensures x < y
  {
    if x >= y {
      MulMonotone(k, y, x);
    }
  }

  lemma MulMonotone(k: int, a: int, b: int)
    requires k > 0 && a <= b
    ensures k * a <= k * b
  {
  }

  /** The dashboards' `total > 0 ? Math.round(part / total * 100) : 0`. */
  function Percent(part: nat, total: nat): (r: nat)
    ensures total == 0 ==> r == 0
    ensures part <= total ==> r <= 100
    ensures part == total && total > 0 ==> r == 100
    ensures part == 0 ==> r == 0
  {
    if total == 0 then 0
    else if part == 0 then
      RoundPercentNone(total);
      RoundPercent(part, total)
    else if part == total then
      RoundPercentWhole(total);
      RoundPercent(part, total)
    else if part < total then
      RoundPercentBounded(part, total);
      RoundPercent(part, total)
    else RoundPercent(part, total)
  }

  /** Python's `int(x)` / numpy's `astype(int)` on a float: truncation
      toward zero. */
  function TruncToInt(x: real): (r: int)
    ensures x >= 0.0 ==> r as real <= x < r as real + 1.0
    ensures x < 0.0 ==> r as real - 1.0 < x <= r as real
  {
    if x >= 0.0 then x.Floor else -((-x).Floor)
  }

  // ------------------------------------------------------ decimal text

  function DigitChar(d: nat): (c: char)
    requires d < 10
    ensures '0' <= c <= '9'
  {
    ('0' as int + d) as char
  }

  /** `n.toString()` for a natural number. */
  function NatToString(n: nat): (s: string)
    ensures |s| >= 1
    ensures forall i :: 0 <= i < |s| ==> '0' <= s[i] <= '9'
    ensures n < 10 ==> |s| == 1
    ensures n >= 10 ==> |s| >= 2
    decreases n
  {
    if n < 10 then [DigitChar(n)] else NatToString(n / 10) + [DigitChar(n % 10)]
  }

  /** The rendering of a positive number has no leading zero. */
  lemma {:induction false} NatToStringLeading(n: nat)
    requires n > 0
    ensures NatToString(n)[0] != '0'
    decreases n
  {
    if n >= 10 {
      NatToStringLeading(n / 10);
      assert NatToString(n)[0] == NatToString(n / 10)[0];
    }
  }

  /** Reading back a string of decimal digits. */
  function DecimalValue(s: string): (v: nat)
    requires forall i :: 0 <= i < |s| ==> '0' <= s[i] <= '9'
  {
    if s == [] then 0
    else DecimalValue(s[..|s| - 1]) * 10 + (s[|s| - 1] as int - '0' as int)
  }

  /** The rendering is faithful: its digits read back as the number. */
  lemma {:induction false} NatToStringValue(n: nat)
    ensures DecimalValue(NatToString(n)) == n
    decreases n
  {
    var s := NatToString(n);
    if n >= 10 {
      NatToStringValue(n / 10);
      assert s[..|s| - 1] == NatToString(n / 10);
    }
  }

  /** A decimal string padded on the left with '0's still reads as the same
      number. */
  lemma {:induction false} LeadingZeroValue(s: string)
    requires forall i :: 0 <= i < |s| ==> '0' <= s[i] <= '9'
    ensures DecimalValue("0" + s) == DecimalValue(s)
    decreases |s|
  {
    if s != [] {
      var t := "0" + s;
      assert t[..|t| - 1] == "0" + s[..|s| - 1];
      LeadingZeroValue(s[..|s| - 1]);
    }
  }

  /** Every character of `s` is a decimal digit. */
  predicate AllDigits(s: string)
  {
    forall i :: 0 <= i < |s| ==> '0' <= s[i] <= '9'
  }

  /** In `a + x`, the first non-digit sits at `|a|`. */
  lemma DigitRun(a: string, x: string)
    requires AllDigits(a) && |x| > 0 && !('0' <= x[0] <= '9')
    ensures forall k :: 0 <= k < |a| ==> '0' <= (a + x)[k] <= '9'
    ensures !('0' <= (a + x)[|a|] <= '9')
  {
  }

  /** A run of digits followed by a non-digit splits a string one way only. */
  lemma DigitsSplit(a: string, x: string, b: string, y: string)
    requires AllDigits(a) && AllDigits(b)
    requires |x| > 0 && |y| > 0 && !('0' <= x[0] <= '9') && !('0' <= y[0] <= '9')
    requires a + x == b + y
    ensures a == b && x == y
  {
    DigitRun(a, x);
    DigitRun(b, y);
    assert |a| == |b|;
    assert a == (a + x)[..|a|];
    assert b == (b + y)[..|b|];
    assert x == (a + x)[|a|..];
    assert y == (b + y)[|b|..];
  }
}
