/**
 * Day 2: product ids that are "invalid" because their decimal text is a
 * block of digits repeated — exactly twice (part 1) or at least twice
 * (part 2).
 */
module Day2 {
  import opened Base
  import opened Text

  /** Every character of `s` equals the pattern character at the same position modulo the pattern length. */
  ghost predicate Periodic(p: seq<char>, s: seq<char>)
    requires |p| > 0
  {
    forall i :: 0 <= i < |s| ==> s[i] == p[i % |p|]
  }

  /**
   * The loop of `matches_pattern` from index `i` on: stops at the first
   * mismatch. An empty pattern is only allowed against an empty remainder,
   * where the source never evaluates `i % 0`.
   */
  function MatchesFrom(p: seq<char>, s: seq<char>, i: nat): (r: bool)
    requires i <= |s|
    requires |p| > 0 || i == |s|
    ensures r <==> forall j :: i <= j < |s| ==> s[j] == p[j % |p|]
    decreases |s| - i
  {
    if i == |s| then true
    else if s[i] != p[i % |p|] then false
    else MatchesFrom(p, s, i + 1)
  }

  /** `matches_pattern`: the string is the pattern repeated (the last copy possibly cut short). */
  function MatchesPattern(p: seq<char>, s: seq<char>): (r: bool)
    requires |p| > 0 || |s| == 0
    ensures |p| > 0 ==> (r <==> Periodic(p, s))
    ensures |s| == 0 ==> r
  {
    MatchesFrom(p, s, 0)
  }

  /** `is_invalid_id_part1`: even length and the two halves agree. */
  function IsInvalidPart1(id: nat): bool
  {
    var s := ToDecimal(id);
    |s| % 2 == 0 && s[..|s| / 2] == s[|s| / 2..]
  }

  /**
   * The `for pattern_len in 1..=len/2` loop of `is_invalid_id_part2` from
   * `len` on: the lengths that do not divide the text are skipped.
   */
  function SearchFrom(s: seq<char>, len: nat): (r: bool)
    requires len > 0
    ensures r <==> exists k :: len <= k <= |s| / 2 && |s| % k == 0 && Periodic(s[..k], s)
    decreases |s| / 2 + 1 - len
  {
    if len > |s| / 2 then false
    else if |s| % len != 0 then SearchFrom(s, len + 1)
    else if MatchesPattern(s[..len], s) then true
    else SearchFrom(s, len + 1)
  }

  /** `is_invalid_id_part2`: some proper prefix whose length divides the text repeats to form it. */
  function IsInvalidPart2(id: nat): (r: bool)
    ensures var s := ToDecimal(id);
      r <==> exists k :: 1 <= k <= |s| / 2 && |s| % k == 0 && Periodic(s[..k], s)
  {
    SearchFrom(ToDecimal(id), 1)
  }

  // ---------------------------------------------------------------------
  // Reference: a block repeated
  // ---------------------------------------------------------------------

  function Repeat(b: seq<char>, k: nat): seq<char>
  {
    if k == 0 then [] else b + Repeat(b, k - 1)
  }

  lemma {:induction false} RepeatIndex(b: seq<char>, k: nat)
    requires |b| > 0
    ensures |Repeat(b, k)| == |b| * k
    ensures forall i :: 0 <= i < |b| * k ==> Repeat(b, k)[i] == b[i % |b|]
  {
    if k > 0 {
      RepeatIndex(b, k - 1);
      var r := Repeat(b, k);
      assert |b| * k == |b| + |b| * (k - 1);
      forall i | 0 <= i < |b| * k ensures r[i] == b[i % |b|] {
        if i >= |b| {
          ModAfterBlock(i, |b|);
        }
      }
    }
  }

  /** A periodic text whose period divides its length is that many copies of its first block. */
  lemma PeriodicIsRepeat(s: seq<char>, k: nat)
    requires 0 < k <= |s| && |s| % k == 0 && Periodic(s[..k], s)
    ensures s == Repeat(s[..k], |s| / k)
  {
    var b := s[..k];
    var n := |s| / k;
    assert |s| == k * n + |s| % k;
    RepeatIndex(b, n);
  }

  /** Copies of a block are periodic with the block as pattern. */
  lemma RepeatIsPeriodic(b: seq<char>, n: nat)
    requires |b| > 0 && n > 0
    ensures |Repeat(b, n)| % |b| == 0
    ensures Repeat(b, n)[..|b|] == b
    ensures Periodic(b, Repeat(b, n))
  {
    RepeatIndex(b, n);
    ModUnique(|b| * n, |b|, n, 0);
    MulAtLeast(|b|, n);
    forall i | 0 <= i < |b| ensures Repeat(b, n)[i] == b[i] {
      ModUnique(i, |b|, 0, i);
    }
  }

  /** Part 1 flags exactly the ids whose text is some block written twice. */
  lemma Part1IsBlockTwice(id: nat)
    ensures IsInvalidPart1(id) <==> exists b :: ToDecimal(id) == b + b
  {
    var s := ToDecimal(id);
    if IsInvalidPart1(id) {
      assert s == s[..|s| / 2] + s[|s| / 2..];
    }
    if b :| s == b + b {
      assert s[..|s| / 2] == b;
    }
  }

  /** Part 2 flags exactly the ids whose text is some block written two or more times. */
  lemma Part2IsBlockRepeated(id: nat)
    ensures IsInvalidPart2(id) <==> exists b, n :: n >= 2 && ToDecimal(id) == Repeat(b, n)
  {
    var s := ToDecimal(id);
    if IsInvalidPart2(id) {
      Part2GivesBlock(s);
    }
    if b, n :| n >= 2 && s == Repeat(b, n) {
      BlockGivesPart2(s, b, n);
    }
  }

  lemma Part2GivesBlock(s: seq<char>)
    requires exists k :: 1 <= k <= |s| / 2 && |s| % k == 0 && Periodic(s[..k], s)
    ensures exists b, n :: n >= 2 && s == Repeat(b, n)
  {
    var k :| 1 <= k <= |s| / 2 && |s| % k == 0 && Periodic(s[..k], s);
    PeriodicIsRepeat(s, k);
    var n := |s| / k;
    assert |s| == k * n + |s| % k;
    assert n >= 2;
  }

  lemma BlockGivesPart2(s: seq<char>, b: seq<char>, n: nat)
    requires |s| > 0 && n >= 2 && s == Repeat(b, n)
    ensures exists k :: 1 <= k <= |s| / 2 && |s| % k == 0 && Periodic(s[..k], s)
  {
    if |b| == 0 {
      EmptyRepeat(n);
      assert false;
    }
    RepeatIsPeriodic(b, n);
    RepeatIndex(b, n);
    assert |b| * n == |b| * 2 + |b| * (n - 2);
    assert |b| * (n - 2) >= 0;
    assert s[..|b|] == b;
  }

  lemma {:induction false} EmptyRepeat(n: nat)
    ensures Repeat([], n) == []
  {
    if n > 0 {
      EmptyRepeat(n - 1);
    }
  }

  /** A block written twice is a block written at least twice. */
  lemma Part1ImpliesPart2(id: nat)
    ensures IsInvalidPart1(id) ==> IsInvalidPart2(id)
  {
    if IsInvalidPart1(id) {
      Part1IsBlockTwice(id);
      var b :| ToDecimal(id) == b + b;
      assert Repeat(b, 1) == b + [];
      assert Repeat(b, 2) == b + b;
      Part2IsBlockRepeated(id);
    }
  }

  /** One-digit ids are valid under both rules. */
  lemma SingleDigitValid(id: nat)
    requires id < 10
    ensures !IsInvalidPart1(id) && !IsInvalidPart2(id)
  {
  }

  /** The ids of `[lo, hi]` that part 1 flags, in increasing order. */
  function Part1InRange(lo: nat, hi: nat): (r: seq<nat>)
    ensures forall k :: 0 <= k < |r| ==> lo <= r[k] <= hi && IsInvalidPart1(r[k])
    ensures forall id :: lo <= id <= hi && IsInvalidPart1(id) ==> id in r
    ensures forall i, j :: 0 <= i < j < |r| ==> r[i] < r[j]
    decreases hi + 1 - lo
  {
    if lo > hi then []
    else
      var rest := Part1InRange(lo + 1, hi);
      FlaggedPrepend(lo, hi, rest);
      (if IsInvalidPart1(lo) then [lo] else []) + rest
  }

  /** Putting `lo` in front when it is flagged extends the listing of `[lo + 1, hi]` to `[lo, hi]`. */
  lemma FlaggedPrepend(lo: nat, hi: nat, rest: seq<nat>)
    requires lo <= hi
    requires forall k :: 0 <= k < |rest| ==> lo + 1 <= rest[k] <= hi && IsInvalidPart1(rest[k])
    requires forall id :: lo + 1 <= id <= hi && IsInvalidPart1(id) ==> id in rest
    requires forall i, j :: 0 <= i < j < |rest| ==> rest[i] < rest[j]
    ensures var r := (if IsInvalidPart1(lo) then [lo] else []) + rest;
      && (forall k :: 0 <= k < |r| ==> lo <= r[k] <= hi && IsInvalidPart1(r[k]))
      && (forall id :: lo <= id <= hi && IsInvalidPart1(id) ==> id in r)
      && (forall i, j :: 0 <= i < j < |r| ==> r[i] < r[j])
  {
    var r := (if IsInvalidPart1(lo) then [lo] else []) + rest;
    var d := |r| - |rest|;
    assert forall k :: d <= k < |r| ==> r[k] == rest[k - d];
    assert d == 1 ==> r[0] == lo;
  }

  /** A stretch with no flagged id yields nothing. */
  lemma {:induction false} RangeNone(lo: nat, hi: nat)
    requires forall id :: lo <= id <= hi ==> !IsInvalidPart1(id)
    ensures Part1InRange(lo, hi) == []
    decreases hi + 1 - lo
  {
    if lo <= hi {
      RangeNone(lo + 1, hi);
    }
  }

  /** A stretch whose only flagged id is `x` yields just `x`. */
  lemma {:induction false} RangeSingle(lo: nat, x: nat, hi: nat)
    requires lo <= x <= hi && IsInvalidPart1(x)
    requires forall id :: lo <= id <= hi && id != x ==> !IsInvalidPart1(id)
    ensures Part1InRange(lo, hi) == [x]
    decreases x - lo
  {
    if lo < x {
      RangeSingle(lo + 1, x, hi);
    } else {
      RangeNone(x + 1, hi);
    }
  }

  /** A two-digit id is flagged by part 1 exactly when its digits agree. */
  lemma TwoDigitPart1(id: nat)
    requires 10 <= id < 100
    ensures IsInvalidPart1(id) <==> id / 10 == id % 10
  {
    var s := ToDecimal(id);
    assert s == ToDecimal(id / 10) + [DigitChar(id % 10)];
    assert s[..1] == [DigitChar(id / 10)] && s[1..] == [DigitChar(id % 10)];
  }

  /** A four-digit id is flagged by part 1 exactly when its first two digits repeat as the last two. */
  lemma FourDigitPart1(id: nat)
    requires 1000 <= id < 10000
    ensures IsInvalidPart1(id) <==> id / 1000 == (id / 10) % 10 && (id / 100) % 10 == id % 10
  {
    var a, b, c, d := DigitChar(id / 1000), DigitChar((id / 100) % 10), DigitChar((id / 10) % 10), DigitChar(id % 10);
    assert ToDecimal(id / 100) == [a, b] by {
      assert ToDecimal(id / 100) == ToDecimal(id / 1000) + [b];
    }
    assert ToDecimal(id / 10) == [a, b, c] by {
      assert ToDecimal(id / 10) == ToDecimal(id / 100) + [c];
    }
    var s := ToDecimal(id);
    assert s == [a, b, c, d];
    assert s[..2] == [a, b] && s[2..] == [c, d];
  }

  /** The number of digits `to_string` writes: `k` for ids in `[10^(k-1), 10^k)`. */
  lemma {:induction false} DecimalLength(id: nat, k: nat)
    requires k >= 1 && Power(10, k - 1) <= id < Power(10, k)
    ensures |ToDecimal(id)| == k
    decreases k
  {
    if k > 1 {
      DecimalLength(id / 10, k - 1);
    } else {
      assert id < 10;
    }
  }

  /** An id with an odd number of digits is never flagged by part 1. */
  lemma OddLengthValid(id: nat)
    requires |ToDecimal(id)| % 2 == 1
    ensures !IsInvalidPart1(id)
  {
  }

  /** Between 11 and 22 part 1 flags 11 and 22 and nothing else. */
  lemma ExampleRangeSmall()
    ensures Part1InRange(11, 22) == [11, 22]
  {
    RangeFrom12();
    Flagged11();
    RangeFlaggedHead(11, 22);
    RangeTwo(11, 22, 22);
  }

  /** A flagged lower end followed by a single flagged id gives exactly those two. */
  lemma RangeTwo(lo: nat, x: nat, hi: nat)
    requires lo <= hi && IsInvalidPart1(lo) && Part1InRange(lo + 1, hi) == [x]
    ensures Part1InRange(lo, hi) == [lo, x]
  {
    RangeFlaggedHead(lo, hi);
  }

  lemma RangeFrom12()
    ensures Part1InRange(12, 22) == [22]
  {
    FlaggedUpTo22();
    RangeSingle(12, 22, 22);
  }

  lemma Flagged11()
    ensures IsInvalidPart1(11)
  {
    FlaggedUpTo22();
  }

  /** A flagged lower end comes first, before the listing of the rest. */
  lemma RangeFlaggedHead(lo: nat, hi: nat)
    requires lo <= hi && IsInvalidPart1(lo)
    ensures Part1InRange(lo, hi) == [lo] + Part1InRange(lo + 1, hi)
  {
  }

  lemma FlaggedUpTo22()
    ensures forall id :: 11 <= id <= 22 ==> (IsInvalidPart1(id) <==> id == 11 || id == 22)
  {
    forall id | 11 <= id <= 22 ensures IsInvalidPart1(id) <==> id == 11 || id == 22 {
      TwoDigitPart1(id);
      var q := if id < 20 then 1 else 2;
      assert id / 10 == q && id % 10 == id - 10 * q;
    }
  }

  /** Between 998 and 1012 part 1 flags only 1010. */
  lemma ExampleRangeAround1000()
    ensures Part1InRange(998, 1012) == [1010]
  {
    FlaggedAround1000();
    RangeSingle(998, 1010, 1012);
  }

  lemma FlaggedAround1000()
    ensures forall id :: 998 <= id <= 1012 ==> (IsInvalidPart1(id) <==> id == 1010)
  {
    forall id | 998 <= id < 1000 ensures !IsInvalidPart1(id) {
      assert Power(10, 3) == 1000;
      DecimalLength(id, 3);
    }
    forall id | 1000 <= id <= 1012 ensures IsInvalidPart1(id) <==> id == 1010 {
      FourDigitPart1(id);
      assert id / 1000 == 1 && (id / 100) % 10 == 0;
      assert (id / 10) % 10 == (if id >= 1010 then 1 else 0);
    }
  }

  /** Between 1698522 and 1698528 part 1 flags nothing: every id there has seven digits. */
  lemma ExampleRangeSevenDigits()
    ensures Part1InRange(1698522, 1698528) == []
  {
    assert Power(10, 3) == 1000;
    assert Power(10, 6) == 1000 * 1000;
    assert Power(10, 7) == 10 * Power(10, 6);
    forall id | 1698522 <= id <= 1698528 ensures !IsInvalidPart1(id) {
      DecimalLength(id, 7);
    }
    RangeNone(1698522, 1698528);
  }
}
