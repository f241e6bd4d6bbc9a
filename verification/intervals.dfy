/**
 * Closed integer intervals as the interval tree stores and returns them:
 * normalisation of reversed bounds, the stable sort by start used by bulk
 * construction, and the coalescing fold that `merge` performs over the
 * in-order sequence of stored intervals.
 */
module Intervals {
  import opened Base

  /** A closed range `[start, end]` of integers (the source's `Interval`). */
  datatype Interval = Interval(start: int, end: int)

  predicate IsNormal(iv: Interval)
  {
    iv.start <= iv.end
  }

  /** True when `x` lies in the closed interval `iv`. */
  predicate Covers(iv: Interval, x: int)
  {
    iv.start <= x <= iv.end
  }

  /** The swap applied to reversed bounds by `new` and `insert`. */
  function Normalize(start: int, end: int): (iv: Interval)
    ensures IsNormal(iv)
    ensures {iv.start, iv.end} == {start, end}
    ensures iv.start == Min(start, end) && iv.end == Max(start, end)
  {
    if start <= end then Interval(start, end) else Interval(end, start)
  }

  function NormalizeAll(batch: seq<(int, int)>): (r: seq<Interval>)
    ensures |r| == |batch|
    ensures forall i :: 0 <= i < |batch| ==> r[i] == Normalize(batch[i].0, batch[i].1)
    ensures AllNormal(r)
  {
    if |batch| == 0 then [] else [Normalize(batch[0].0, batch[0].1)] + NormalizeAll(batch[1..])
  }

  ghost predicate AllNormal(s: seq<Interval>)
  {
    forall i :: 0 <= i < |s| ==> IsNormal(s[i])
  }

  ghost predicate SortedByStart(s: seq<Interval>)
  {
    forall i, j :: 0 <= i < j < |s| ==> s[i].start <= s[j].start
  }

  /** Some interval of `s` contains `x`. */
  ghost predicate Covered(s: seq<Interval>, x: int)
  {
    exists i :: 0 <= i < |s| && Covers(s[i], x)
  }

  /** Any two entries, the earlier one ending at least two below the later one's start. */
  ghost predicate Separated(s: seq<Interval>)
  {
    forall i, j :: 0 <= i < j < |s| ==> s[i].end + 1 < s[j].start
  }

  /** Two sorted runs joined around a middle entry whose start separates them stay sorted. */
  lemma SortedAround(a: seq<Interval>, mid: Interval, b: seq<Interval>)
    requires SortedByStart(a) && SortedByStart(b)
    requires forall iv | iv in a :: iv.start <= mid.start
    requires forall iv | iv in b :: mid.start <= iv.start
    ensures SortedByStart(a + [mid] + b)
  {
    var s := a + [mid] + b;
    forall i, j | 0 <= i < j < |s| ensures s[i].start <= s[j].start {
      if j < |a| {
        assert s[i] == a[i] && s[j] == a[j];
      } else if i > |a| {
        assert s[i] == b[i - |a| - 1] && s[j] == b[j - |a| - 1];
      } else {
        if i < |a| { assert s[i] == a[i] && a[i] in a; }
        if j > |a| { assert s[j] == b[j - |a| - 1] && b[j - |a| - 1] in b; }
      }
    }
  }

  lemma AllNormalAround(a: seq<Interval>, mid: Interval, b: seq<Interval>)
    requires AllNormal(a) && IsNormal(mid) && AllNormal(b)
    ensures AllNormal(a + [mid] + b)
  {
    var s := a + [mid] + b;
    forall i | 0 <= i < |s| ensures IsNormal(s[i]) {
      if i < |a| { assert s[i] == a[i]; }
      else if i > |a| { assert s[i] == b[i - |a| - 1]; }
    }
  }

  // ---------------------------------------------------------------------
  // Stable sort by start (`sort_by_key(|(start, _)| *start)`)
  // ---------------------------------------------------------------------

  lemma MultisetCons(s: seq<Interval>)
    requires |s| > 0
    ensures multiset(s) == multiset{s[0]} + multiset(s[1..])
  {
    assert s == [s[0]] + s[1..];
  }

  /** Places `x` in front of the first element whose start is not smaller. */
  function InsertByStart(x: Interval, s: seq<Interval>): (r: seq<Interval>)
    ensures multiset(r) == multiset(s) + multiset{x}
    ensures |r| == |s| + 1
  {
    if |s| == 0 then [x]
    else if x.start <= s[0].start then [x] + s
    else
      MultisetCons(s);
      [s[0]] + InsertByStart(x, s[1..])
  }

  lemma {:induction false} InsertByStartSorted(x: Interval, s: seq<Interval>)
    requires SortedByStart(s)
    ensures SortedByStart(InsertByStart(x, s))
    ensures |s| > 0 ==> InsertByStart(x, s)[0].start == Min(x.start, s[0].start)
  {
    if |s| == 0 {
    } else if x.start <= s[0].start {
    } else {
      var tail := InsertByStart(x, s[1..]);
      InsertByStartSorted(x, s[1..]);
      var r := [s[0]] + tail;
      assert r == InsertByStart(x, s);
      forall i, j | 0 <= i < j < |r| ensures r[i].start <= r[j].start {
        if i == 0 {
          assert r[j] in multiset(tail);
          assert r[j] in multiset(s[1..]) + multiset{x};
          if r[j] == x {
          } else {
            assert r[j] in s[1..];
            var k :| 0 <= k < |s[1..]| && s[1..][k] == r[j];
            assert s[1 + k] == r[j];
          }
        }
      }
    }
  }

  function SortByStart(s: seq<Interval>): (r: seq<Interval>)
    ensures SortedByStart(r)
    ensures multiset(r) == multiset(s)
    ensures |r| == |s|
  {
    if |s| == 0 then []
    else
      var rest := SortByStart(s[1..]);
      InsertByStartSorted(s[0], rest);
      MultisetCons(s);
      InsertByStart(s[0], rest)
  }

  /** The subsequence of entries whose start is `k`, in order. */
  function WithStart(s: seq<Interval>, k: int): seq<Interval>
  {
    if |s| == 0 then []
    else (if s[0].start == k then [s[0]] else []) + WithStart(s[1..], k)
  }

  lemma {:induction false} InsertByStartWithStart(x: Interval, s: seq<Interval>, k: int)
    requires SortedByStart(s)
    ensures WithStart(InsertByStart(x, s), k) == (if x.start == k then [x] else []) + WithStart(s, k)
  {
    if |s| == 0 {
    } else if x.start <= s[0].start {
      assert InsertByStart(x, s) == [x] + s;
      assert ([x] + s)[1..] == s;
    } else {
      var tail := InsertByStart(x, s[1..]);
      var r := [s[0]] + tail;
      assert r == InsertByStart(x, s);
      assert r[1..] == tail;
      assert SortedByStart(s[1..]) by {
        forall i, j | 0 <= i < j < |s[1..]| ensures s[1..][i].start <= s[1..][j].start {
          assert s[1..][i] == s[i + 1] && s[1..][j] == s[j + 1];
        }
      }
      InsertByStartWithStart(x, s[1..], k);
      assert WithStart(r, k) == (if s[0].start == k then [s[0]] else []) + WithStart(tail, k);
      assert WithStart(s, k) == (if s[0].start == k then [s[0]] else []) + WithStart(s[1..], k);
    }
  }

  /** Sorting keeps the relative order of intervals that share a start. */
  lemma {:induction false} SortByStartStable(s: seq<Interval>, k: int)
    ensures WithStart(SortByStart(s), k) == WithStart(s, k)
  {
    if |s| == 0 {
    } else {
      SortByStartStable(s[1..], k);
      InsertByStartWithStart(s[0], SortByStart(s[1..]), k);
    }
  }

  lemma {:induction false} SortByStartKeepsNormal(s: seq<Interval>)
    requires AllNormal(s)
    ensures AllNormal(SortByStart(s))
  {
    var r := SortByStart(s);
    forall i | 0 <= i < |r| ensures IsNormal(r[i]) {
      assert r[i] in multiset(r);
      assert r[i] in multiset(s);
      var j :| 0 <= j < |s| && s[j] == r[i];
    }
  }

  // ---------------------------------------------------------------------
  // Coalescing (`IntervalNode::merge` applied in order)
  // ---------------------------------------------------------------------

  /**
   * One visit of `merge`: extend the last output entry when it overlaps or
   * touches `cur` (`last.end + 1 >= cur.start`), otherwise append `cur`.
   */
  function Absorb(list: seq<Interval>, cur: Interval): (r: seq<Interval>)
    ensures |r| > 0
  {
    if |list| > 0 then
      var last := list[|list| - 1];
      if last.end + 1 >= cur.start then
        list[..|list| - 1] + [Interval(last.start, Max(last.end, cur.end))]
      else
        list + [cur]
    else
      [cur]
  }

  /** `Absorb` applied to every element of `s`, left to right. */
  function MergeSeq(acc: seq<Interval>, s: seq<Interval>): seq<Interval>
    decreases |s|
  {
    if |s| == 0 then acc else MergeSeq(Absorb(acc, s[0]), s[1..])
  }

  /** The fold over a concatenation is the fold over the second part started from the first. */
  lemma {:induction false} MergeSeqAppend(acc: seq<Interval>, a: seq<Interval>, b: seq<Interval>)
    ensures MergeSeq(acc, a + b) == MergeSeq(MergeSeq(acc, a), b)
    decreases |a|
  {
    if |a| == 0 {
      assert a + b == b;
    } else {
      assert (a + b)[0] == a[0];
      assert (a + b)[1..] == a[1..] + b;
      MergeSeqAppend(Absorb(acc, a[0]), a[1..], b);
    }
  }

  lemma AbsorbKeeps(list: seq<Interval>, cur: Interval)
    requires AllNormal(list) && Separated(list) && IsNormal(cur)
    requires |list| > 0 ==> list[|list| - 1].start <= cur.start
    ensures var r := Absorb(list, cur);
      && AllNormal(r) && Separated(r)
      && r[|r| - 1].start <= cur.start
      && (forall x :: Covered(r, x) <==> Covered(list, x) || Covers(cur, x))
  {
    var r := Absorb(list, cur);
    if |list| == 0 {
      forall x ensures Covered(r, x) <==> Covered(list, x) || Covers(cur, x) {
        if Covers(cur, x) { assert Covers(r[0], x); }
      }
    } else {
      var n := |list| - 1;
      var last := list[n];
      if last.end + 1 >= cur.start {
        var merged := Interval(last.start, Max(last.end, cur.end));
        assert r == list[..n] + [merged];
        forall x ensures Covered(r, x) <==> Covered(list, x) || Covers(cur, x) {
          if Covered(r, x) {
            var i :| 0 <= i < |r| && Covers(r[i], x);
            if i < n {
              assert Covers(list[i], x);
            } else if x <= last.end {
              assert Covers(list[n], x);
            } else {
              assert Covers(cur, x);
            }
          }
          if Covered(list, x) {
            var i :| 0 <= i < |list| && Covers(list[i], x);
            if i < n { assert Covers(r[i], x); } else { assert Covers(r[n], x); }
          }
          if Covers(cur, x) {
            assert Covers(r[n], x);
          }
        }
      } else {
        assert r == list + [cur];
        forall x ensures Covered(r, x) <==> Covered(list, x) || Covers(cur, x) {
          if Covered(r, x) {
            var i :| 0 <= i < |r| && Covers(r[i], x);
            if i < |list| { assert Covers(list[i], x); }
          }
          if Covered(list, x) {
            var i :| 0 <= i < |list| && Covers(list[i], x);
            assert Covers(r[i], x);
          }
          if Covers(cur, x) {
            assert Covers(r[|list|], x);
          }
        }
        forall i, j | 0 <= i < j < |r| ensures r[i].end + 1 < r[j].start {
          if j == |list| && i < n {
            assert list[i].end + 1 < list[n].start;
          }
        }
      }
    }
  }

  /** The coalescing fold keeps its output normal and separated and loses no point. */
  lemma {:induction false} MergeSeqKeeps(acc: seq<Interval>, s: seq<Interval>)
    requires AllNormal(acc) && Separated(acc)
    requires AllNormal(s) && SortedByStart(s)
    requires |acc| > 0 && |s| > 0 ==> acc[|acc| - 1].start <= s[0].start
    ensures var m := MergeSeq(acc, s);
      && AllNormal(m) && Separated(m)
      && (forall x :: Covered(m, x) <==> Covered(acc, x) || Covered(s, x))
    decreases |s|
  {
    if |s| == 0 {
    } else {
      var acc' := Absorb(acc, s[0]);
      AbsorbKeeps(acc, s[0]);
      MergeSeqKeeps(acc', s[1..]);
      forall x ensures Covered(s, x) <==> Covers(s[0], x) || Covered(s[1..], x) {
        if Covered(s, x) {
          var i :| 0 <= i < |s| && Covers(s[i], x);
          if i > 0 { assert Covers(s[1..][i - 1], x); }
        }
        if Covered(s[1..], x) {
          var i :| 0 <= i < |s[1..]| && Covers(s[1..][i], x);
          assert Covers(s[i + 1], x);
        }
      }
    }
  }

  /** Separation implies strictly increasing starts. */
  lemma SeparatedIncreasing(s: seq<Interval>)
    requires AllNormal(s) && Separated(s)
    ensures forall i, j :: 0 <= i < j < |s| ==> s[i].start < s[j].start
  {
    forall i, j | 0 <= i < j < |s| ensures s[i].start < s[j].start {
      assert IsNormal(s[i]);
    }
  }
}
