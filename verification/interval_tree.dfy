/**
 * The public face of the interval tree: bulk construction from a batch of
 * bound pairs, single insertion, the border-flagged stabbing query and the
 * coalescing merge. The tree is an optional root node; the node-level
 * algorithms live in `IntervalNode`.
 */
module IntervalTree {
  import opened Base
  import opened Intervals
  import opened IntervalNode
  import opened IntervalInsert

  /** `IntervalTree { start_node }`: `Leaf` stands for `None`. */
  datatype IntervalTree = IntervalTree(root: Tree)

  /** The multiset of intervals the tree holds. */
  function Stored(tr: IntervalTree): multiset<Interval>
  {
    Elems(tr.root)
  }

  /**
   * The single node that insertion into an empty tree creates: no children,
   * `max_end` equal to its end, and a cached height of 0 where every other
   * childless node has 1.
   */
  ghost predicate LoneZero(t: Tree)
  {
    t.Node? && t.left.Leaf? && t.right.Leaf? && t.height == 0
  }

  /**
   * What every public operation keeps: search order, normal bounds and
   * correct `max_end` everywhere, and correct heights and AVL balance except
   * for the height of a lone root made by insertion into an empty tree.
   */
  ghost predicate Inv(tr: IntervalTree)
  {
    SearchInv(tr.root) && (AvlInv(tr.root) || LoneZero(tr.root))
  }

  /** `IntervalTree::new_empty`. */
  function NewEmpty(): (r: IntervalTree)
    ensures Inv(r) && Valid(r.root)
    ensures Stored(r) == multiset{}
  {
    IntervalTree(Leaf)
  }

  // ---------------------------------------------------------------------
  // Bulk construction
  // ---------------------------------------------------------------------

  /** Height of the median-split tree over `n` entries: the bit length of `n`. */
  function MinHeight(n: nat): nat
  {
    if n == 0 then 0 else 1 + MinHeight(n / 2)
  }

  lemma {:induction false} MinHeightMonotone(a: nat, b: nat)
    requires a <= b
    ensures MinHeight(a) <= MinHeight(b)
    decreases b
  {
    if a > 0 {
      MinHeightMonotone(a / 2, b / 2);
    }
  }

  /** The two halves of a median split have heights at most one apart, the left one the taller. */
  lemma HalvesBalanced(n: nat)
    requires n > 0
    ensures 0 <= MinHeight(n / 2) - MinHeight(n - n / 2 - 1) <= 1
    ensures MinHeight(n) == 1 + MinHeight(n / 2)
  {
    assert n - n / 2 - 1 == (n - 1) / 2;
    MinHeightMonotone((n - 1) / 2, n / 2);
    if n / 2 > 0 {
      MinHeightMonotone(n / 2 / 2, (n - 1) / 2);
    }
  }

  /** The pieces a median split produces from a sorted batch of normal intervals. */
  lemma SplitParts(s: seq<Interval>, mid: nat)
    requires AllNormal(s) && SortedByStart(s) && mid < |s|
    ensures AllNormal(s[..mid]) && SortedByStart(s[..mid])
    ensures AllNormal(s[mid + 1..]) && SortedByStart(s[mid + 1..])
    ensures forall iv | iv in multiset(s[..mid]) :: iv.start <= s[mid].start
    ensures forall iv | iv in multiset(s[mid + 1..]) :: s[mid].start <= iv.start
    ensures s == s[..mid] + [s[mid]] + s[mid + 1..]
  {
    forall iv | iv in multiset(s[..mid]) ensures iv.start <= s[mid].start {
      assert iv in s[..mid];
    }
    forall iv | iv in multiset(s[mid + 1..]) ensures s[mid].start <= iv.start {
      assert iv in s[mid + 1..];
    }
  }

  /**
   * `IntervalTree::build_tree`: the median entry becomes the node, the two
   * halves its subtrees. Over a sorted batch of normal intervals the result
   * is a valid AVL interval tree of minimal height whose in-order sequence
   * is the batch itself.
   */
  function BuildTree(s: seq<Interval>): (r: Tree)
    requires AllNormal(s) && SortedByStart(s)
    ensures Valid(r)
    ensures InOrder(r) == s
    ensures Ht(r) == MinHeight(|s|)
    ensures |s| > 0 ==> r.Node? && Interval(r.start, r.end) == s[|s| / 2]
    decreases |s|
  {
    if |s| == 0 then Leaf
    else
      var mid := |s| / 2;
      SplitSorted(s, mid);
      var left := BuildTree(s[..mid]);
      var right := BuildTree(s[mid + 1..]);
      var node := NewBox(s[mid].start, s[mid].end, 1).(left := left, right := right);
      BuildLevel(s, node);
      UpdateHeight(UpdateMax(node))
  }

  /** Both halves of a sorted batch of normal intervals are sorted batches of normal intervals. */
  lemma SplitSorted(s: seq<Interval>, mid: nat)
    requires AllNormal(s) && SortedByStart(s) && mid < |s|
    ensures AllNormal(s[..mid]) && SortedByStart(s[..mid])
    ensures AllNormal(s[mid + 1..]) && SortedByStart(s[mid + 1..])
  {
    SplitParts(s, mid);
  }

  /** One level of `build_tree` over halves built to minimal height. */
  lemma BuildLevel(s: seq<Interval>, node: Tree)
    requires AllNormal(s) && SortedByStart(s) && |s| > 0
    requires node.Node? && Interval(node.start, node.end) == s[|s| / 2]
    requires Valid(node.left) && InOrder(node.left) == s[..|s| / 2] && Ht(node.left) == MinHeight(|s| / 2)
    requires Valid(node.right) && InOrder(node.right) == s[|s| / 2 + 1..] && Ht(node.right) == MinHeight(|s| - |s| / 2 - 1)
    ensures var r := UpdateHeight(UpdateMax(node));
      && Valid(r) && InOrder(r) == s && Ht(r) == MinHeight(|s|)
      && r.Node? && Interval(r.start, r.end) == s[|s| / 2]
  {
    BuildHeights(|s|, Ht(node.left), Ht(node.right));
    BuildStep(s, node);
  }

  /** One level of `build_tree`: the median over two correctly built halves. */
  lemma BuildStep(s: seq<Interval>, node: Tree)
    requires AllNormal(s) && SortedByStart(s) && |s| > 0
    requires node.Node? && Interval(node.start, node.end) == s[|s| / 2]
    requires Valid(node.left) && InOrder(node.left) == s[..|s| / 2]
    requires Valid(node.right) && InOrder(node.right) == s[|s| / 2 + 1..]
    requires 0 <= Ht(node.left) - Ht(node.right) <= 1
    ensures var r := UpdateHeight(UpdateMax(node));
      Valid(r) && InOrder(r) == s && Ht(r) == 1 + Ht(node.left)
  {
    BuildOrder(s, node);
    RefreshIsJoin(node);
    JoinValid(node.start, node.end, node.left, node.right);
    var r := UpdateHeight(UpdateMax(node));
    assert Ht(r) == 1 + Ht(node.left);
    BuildInOrder(s, node);
  }

  lemma BuildHeights(n: nat, hl: nat, hr: nat)
    requires n > 0 && hl == MinHeight(n / 2) && hr == MinHeight(n - n / 2 - 1)
    ensures 0 <= hl - hr <= 1 && MinHeight(n) == 1 + hl
  {
    HalvesBalanced(n);
  }

  lemma BuildInOrder(s: seq<Interval>, node: Tree)
    requires |s| > 0 && node.Node? && Interval(node.start, node.end) == s[|s| / 2]
    requires InOrder(node.left) == s[..|s| / 2] && InOrder(node.right) == s[|s| / 2 + 1..]
    ensures InOrder(UpdateHeight(UpdateMax(node))) == s
  {
    var mid := |s| / 2;
    assert s == s[..mid] + [s[mid]] + s[mid + 1..];
  }

  /** The halves built from a sorted batch lie on the correct sides of the median's start. */
  lemma BuildOrder(s: seq<Interval>, node: Tree)
    requires AllNormal(s) && SortedByStart(s) && |s| > 0
    requires node.Node? && node.start == s[|s| / 2].start
    requires InOrder(node.left) == s[..|s| / 2] && InOrder(node.right) == s[|s| / 2 + 1..]
    ensures OrderedAt(node.start, node.left, node.right)
  {
    var mid := |s| / 2;
    SplitParts(s, mid);
    ElemsInOrder(node.left);
    ElemsInOrder(node.right);
  }

  /**
   * `IntervalTree::new`: normalise every pair, sort stably by start, build.
   * The in-order sequence is sorted by start, holds exactly the normalised
   * batch, and keeps intervals with equal starts in batch order.
   */
  function New(batch: seq<(int, int)>): (r: IntervalTree)
    ensures Inv(r) && Valid(r.root)
    ensures Stored(r) == multiset(NormalizeAll(batch))
    ensures SortedByStart(InOrder(r.root)) && AllNormal(InOrder(r.root))
    ensures forall k :: WithStart(InOrder(r.root), k) == WithStart(NormalizeAll(batch), k)
    ensures InOrder(r.root) == SortByStart(NormalizeAll(batch))
    ensures |batch| > 0 ==> r.root.Node? && Interval(r.root.start, r.root.end) == InOrder(r.root)[|batch| / 2]
    ensures Ht(r.root) == MinHeight(|batch|)
  {
    var sorted := SortByStart(NormalizeAll(batch));
    SortByStartKeepsNormal(NormalizeAll(batch));
    forall k ensures WithStart(sorted, k) == WithStart(NormalizeAll(batch), k) {
      SortByStartStable(NormalizeAll(batch), k);
    }
    var root := BuildTree(sorted);
    ElemsInOrder(root);
    IntervalTree(root)
  }

  // ---------------------------------------------------------------------
  // Insertion
  // ---------------------------------------------------------------------

  /**
   * `IntervalTree::insert`: normalise the bounds; an empty tree gets a lone
   * root of cached height 0, otherwise the node-level insertion runs.
   */
  function Insert(tr: IntervalTree, start: int, end: int): (r: IntervalTree)
    requires Inv(tr)
    ensures Inv(r) && r.root.Node?
    ensures Stored(r) == Stored(tr) + multiset{Normalize(start, end)}
    ensures tr.root.Leaf? ==> LoneZero(r.root)
    ensures tr.root.Node? ==> Valid(r.root)
  {
    var iv := Normalize(start, end);
    if tr.root.Leaf? then
      IntervalTree(Node(iv.start, iv.end, iv.end, 0, Leaf, Leaf))
    else
      IntervalTree(NodeInsert(tr.root, iv.start, iv.end))
  }

  /** Inserting `(a, b)` and `(b, a)` gives the same tree. */
  lemma InsertSymmetric(tr: IntervalTree, a: int, b: int)
    requires Inv(tr)
    ensures Insert(tr, a, b) == Insert(tr, b, a)
  {
    assert Normalize(a, b) == Normalize(b, a);
  }

  /** Sequential insertion of a batch, front to back. */
  function InsertAll(tr: IntervalTree, batch: seq<(int, int)>): (r: IntervalTree)
    requires Inv(tr)
    ensures Inv(r)
    ensures Stored(r) == Stored(tr) + multiset(NormalizeAll(batch))
    decreases |batch|
  {
    if |batch| == 0 then tr
    else
      var next := Insert(tr, batch[0].0, batch[0].1);
      assert NormalizeAll(batch) == [Normalize(batch[0].0, batch[0].1)] + NormalizeAll(batch[1..]);
      InsertAll(next, batch[1..])
  }

  // ---------------------------------------------------------------------
  // Queries
  // ---------------------------------------------------------------------

  /**
   * `IntervalTree::contains`: true exactly when some stored interval holds
   * `x` under the border flags; false on the empty tree.
   */
  function Contains(tr: IntervalTree, x: int, includeStart: bool, includeEnd: bool): (r: bool)
    requires Inv(tr)
    ensures r <==> exists iv :: iv in Stored(tr) && Hits(iv, x, includeStart, includeEnd)
    ensures tr.root.Leaf? ==> !r
  {
    if tr.root.Node? then NodeContains(tr.root, x, includeStart, includeEnd) else false
  }

  /** `IntervalTree::contains_including_borders`: membership in the closed union. */
  function ContainsIncludingBorders(tr: IntervalTree, x: int): (r: bool)
    requires Inv(tr)
    ensures r <==> exists iv :: iv in Stored(tr) && Covers(iv, x)
  {
    var r := Contains(tr, x, true, true);
    assert forall iv :: Hits(iv, x, true, true) == Covers(iv, x);
    r
  }

  /** A sequence covers `x` exactly when one of its elements does. */
  lemma CoveredByElements(s: seq<Interval>, x: int)
    ensures Covered(s, x) <==> exists iv :: iv in multiset(s) && Covers(iv, x)
  {
    if exists iv :: iv in multiset(s) && Covers(iv, x) {
      var iv :| iv in multiset(s) && Covers(iv, x);
      assert iv in s;
      var i :| 0 <= i < |s| && s[i] == iv;
    }
  }

  /** Merging a sorted, normal sequence from nothing gives a canonical list covering the same integers. */
  lemma MergeFromScratch(s: seq<Interval>)
    requires AllNormal(s) && SortedByStart(s)
    ensures var m := MergeSeq([], s);
      && AllNormal(m) && Separated(m)
      && (forall i, j :: 0 <= i < j < |m| ==> m[i].start < m[j].start)
      && (forall x :: Covered(m, x) <==> Covered(s, x))
      && (|m| == 0 <==> |s| == 0)
  {
    var m := MergeSeq([], s);
    MergeSeqKeeps([], s);
    SeparatedIncreasing(m);
    if |s| > 0 {
      assert Covers(s[0], s[0].start);
      assert Covered(s, s[0].start);
    }
  }

  /** The facts about `merge` on a well-ordered subtree, kept out of `Merge` so each proof stays small. */
  lemma MergeTree(t: Tree)
    requires SearchInv(t)
    ensures var m := MergeInto(t, []);
      && AllNormal(m) && Separated(m)
      && (forall i, j :: 0 <= i < j < |m| ==> m[i].start < m[j].start)
      && (forall x :: Covered(m, x) <==> exists iv :: iv in Elems(t) && Covers(iv, x))
      && (|m| == 0 <==> t.Leaf?)
  {
    var m := MergeInto(t, []);
    InOrderSorted(t);
    ElemsInOrder(t);
    MergeFromScratch(InOrder(t));
    forall x ensures Covered(m, x) <==> exists iv :: iv in Elems(t) && Covers(iv, x) {
      CoveredByElements(InOrder(t), x);
    }
  }

  /**
   * `IntervalTree::merge`: the coalesced cover of the stored intervals.
   * Entries are normal, pairwise separated by at least one uncovered
   * integer, strictly increasing by start, and cover exactly the points some
   * stored interval covers. The empty tree gives the empty list.
   */
  function Merge(tr: IntervalTree): (r: seq<Interval>)
    requires Inv(tr)
    ensures AllNormal(r) && Separated(r)
    ensures forall i, j :: 0 <= i < j < |r| ==> r[i].start < r[j].start
    ensures forall x :: Covered(r, x) <==> exists iv :: iv in Stored(tr) && Covers(iv, x)
    ensures |r| == 0 <==> tr.root.Leaf?
  {
    var r := MergeInto(tr.root, []);
    MergeTree(tr.root);
    r
  }

  // ---------------------------------------------------------------------
  // Observational equivalence of bulk and sequential construction
  // ---------------------------------------------------------------------

  /** Two normal, separated sequences covering the same integers are equal. */
  lemma {:induction false} CanonicalCover(a: seq<Interval>, b: seq<Interval>)
    requires AllNormal(a) && Separated(a) && AllNormal(b) && Separated(b)
    requires forall x :: Covered(a, x) <==> Covered(b, x)
    ensures a == b
    decreases |a| + |b|
  {
    if |a| == 0 || |b| == 0 {
      if |a| > 0 { assert Covers(a[0], a[0].start); assert Covered(a, a[0].start); }
      if |b| > 0 { assert Covers(b[0], b[0].start); assert Covered(b, b[0].start); }
    } else {
      HeadsAgree(a, b);
      TailCover(a, b);
      CanonicalCover(a[1..], b[1..]);
      assert a == [a[0]] + a[1..] && b == [b[0]] + b[1..];
    }
  }

  /** In a separated cover the first entry starts at the least covered point. */
  lemma FirstStartIsLeast(a: seq<Interval>, x: int)
    requires AllNormal(a) && Separated(a) && |a| > 0 && Covered(a, x)
    ensures a[0].start <= x
  {
    var i :| 0 <= i < |a| && Covers(a[i], x);
    if i > 0 { assert a[0].end + 1 < a[i].start; }
  }

  /** The first entry's end is followed by an uncovered integer. */
  lemma AfterFirstUncovered(a: seq<Interval>)
    requires AllNormal(a) && Separated(a) && |a| > 0
    ensures !Covered(a, a[0].end + 1)
  {
    forall i | 0 <= i < |a| ensures !Covers(a[i], a[0].end + 1) {
      if i > 0 { assert a[0].end + 1 < a[i].start; }
    }
  }

  lemma HeadsAgree(a: seq<Interval>, b: seq<Interval>)
    requires AllNormal(a) && Separated(a) && AllNormal(b) && Separated(b)
    requires |a| > 0 && |b| > 0
    requires forall x :: Covered(a, x) <==> Covered(b, x)
    ensures a[0] == b[0]
  {
    assert Covers(a[0], a[0].start) && Covered(a, a[0].start);
    assert Covers(b[0], b[0].start) && Covered(b, b[0].start);
    FirstStartIsLeast(a, b[0].start);
    FirstStartIsLeast(b, a[0].start);
    AfterFirstUncovered(a);
    AfterFirstUncovered(b);
  }

  /** Dropping the first entry removes exactly the points up to its end. */
  lemma DropFirst(a: seq<Interval>, x: int)
    requires AllNormal(a) && Separated(a) && |a| > 0
    ensures AllNormal(a[1..]) && Separated(a[1..])
    ensures Covered(a[1..], x) <==> Covered(a, x) && a[0].end < x
  {
    if Covered(a[1..], x) {
      var i :| 0 <= i < |a[1..]| && Covers(a[1..][i], x);
      assert a[0].end + 1 < a[i + 1].start;
      assert Covers(a[i + 1], x);
    }
    if Covered(a, x) && a[0].end < x {
      var i :| 0 <= i < |a| && Covers(a[i], x);
      assert i > 0;
      assert Covers(a[1..][i - 1], x);
    }
  }

  lemma TailCover(a: seq<Interval>, b: seq<Interval>)
    requires AllNormal(a) && Separated(a) && AllNormal(b) && Separated(b)
    requires |a| > 0 && |b| > 0 && a[0] == b[0]
    requires forall x :: Covered(a, x) <==> Covered(b, x)
    ensures AllNormal(a[1..]) && Separated(a[1..]) && AllNormal(b[1..]) && Separated(b[1..])
    ensures forall x :: Covered(a[1..], x) <==> Covered(b[1..], x)
  {
    forall x ensures Covered(a[1..], x) <==> Covered(b[1..], x) {
      DropFirst(a, x);
      DropFirst(b, x);
    }
    DropFirst(a, 0);
    DropFirst(b, 0);
  }

  /** The merge result depends only on the stored multiset, not on the tree's shape. */
  lemma MergeDependsOnlyOnStored(t1: IntervalTree, t2: IntervalTree)
    requires Inv(t1) && Inv(t2) && Stored(t1) == Stored(t2)
    ensures Merge(t1) == Merge(t2)
  {
    CanonicalCover(Merge(t1), Merge(t2));
  }

  /**
   * Bulk construction and front-to-back insertion of the same batch answer
   * every query alike and merge to the same list.
   */
  lemma BuildMatchesInserts(batch: seq<(int, int)>)
    ensures var built := New(batch);
      var inserted := InsertAll(NewEmpty(), batch);
      && Stored(built) == Stored(inserted)
      && (forall x, inclStart: bool, inclEnd: bool :: Contains(built, x, inclStart, inclEnd) == Contains(inserted, x, inclStart, inclEnd))
      && Merge(built) == Merge(inserted)
  {
    var built := New(batch);
    var inserted := InsertAll(NewEmpty(), batch);
    assert Stored(built) == Stored(inserted);
    MergeDependsOnlyOnStored(built, inserted);
  }

  /** `merge` returns the one normal, separated list that covers what the tree stores. */
  lemma MergeIsCanonical(tr: IntervalTree, expected: seq<Interval>)
    requires Inv(tr) && AllNormal(expected) && Separated(expected)
    requires forall x :: Covered(expected, x) <==> exists iv :: iv in Stored(tr) && Covers(iv, x)
    ensures Merge(tr) == expected
  {
    CanonicalCover(Merge(tr), expected);
  }

  // ---------------------------------------------------------------------
  // Worked scenarios
  // ---------------------------------------------------------------------

  lemma CoveredTwo(s: seq<Interval>, x: int)
    requires |s| == 2
    ensures Covered(s, x) <==> Covers(s[0], x) || Covers(s[1], x)
  {
    if Covers(s[0], x) { assert Covered(s, x); }
    if Covers(s[1], x) { assert Covered(s, x); }
  }

  lemma CoveredThree(s: seq<Interval>, x: int)
    requires |s| == 3
    ensures Covered(s, x) <==> Covers(s[0], x) || Covers(s[1], x) || Covers(s[2], x)
  {
    if Covers(s[0], x) { assert Covered(s, x); }
    if Covers(s[1], x) { assert Covered(s, x); }
    if Covers(s[2], x) { assert Covered(s, x); }
  }

  lemma StoredThree(tr: IntervalTree, a: Interval, b: Interval, c: Interval, x: int)
    requires Stored(tr) == multiset{a, b, c}
    ensures (exists iv :: iv in Stored(tr) && Covers(iv, x)) <==> Covers(a, x) || Covers(b, x) || Covers(c, x)
  {
    if Covers(a, x) { assert a in Stored(tr); }
    if Covers(b, x) { assert b in Stored(tr); }
    if Covers(c, x) { assert c in Stored(tr); }
  }

  /**
   * A tree holding [1,3], [2,6] and [8,10] (as inserting them in turn
   * produces): 7 is outside and 8 inside.
   */
  lemma ScenarioGap(tr: IntervalTree)
    requires Inv(tr) && Stored(tr) == multiset{Interval(1, 3), Interval(2, 6), Interval(8, 10)}
    ensures !ContainsIncludingBorders(tr, 7)
    ensures Contains(tr, 8, true, true)
  {
    StoredThree(tr, Interval(1, 3), Interval(2, 6), Interval(8, 10), 7);
    assert Hits(Interval(8, 10), 8, true, true);
  }

  /** The same tree merges to [1,6], [8,10]: the overlap is joined and the gap kept. */
  lemma ScenarioOverlapMerge(tr: IntervalTree)
    requires Inv(tr) && Stored(tr) == multiset{Interval(1, 3), Interval(2, 6), Interval(8, 10)}
    ensures Merge(tr) == [Interval(1, 6), Interval(8, 10)]
  {
    var expected := [Interval(1, 6), Interval(8, 10)];
    forall x ensures Covered(expected, x) <==> exists iv :: iv in Stored(tr) && Covers(iv, x) {
      CoveredTwo(expected, x);
      StoredThree(tr, Interval(1, 3), Interval(2, 6), Interval(8, 10), x);
    }
    MergeIsCanonical(tr, expected);
  }

  /** A tree holding the point interval [5,5] contains 5 with both borders included, not with both excluded. */
  lemma ScenarioPoint(tr: IntervalTree)
    requires Inv(tr) && Stored(tr) == multiset{Interval(5, 5)}
    ensures Contains(tr, 5, true, true) && !Contains(tr, 5, false, false)
  {
    assert Hits(Interval(5, 5), 5, true, true);
  }

  /** The stable sort orders (1,2), (10,20), (5,6) as (1,2), (5,6), (10,20). */
  lemma ScenarioSort()
    ensures SortByStart(NormalizeAll([(1, 2), (10, 20), (5, 6)]))
      == [Interval(1, 2), Interval(5, 6), Interval(10, 20)]
  {
  }

  lemma ThreeApart(s: seq<Interval>)
    requires s == [Interval(1, 2), Interval(5, 6), Interval(10, 20)]
    ensures AllNormal(s) && Separated(s)
  {
  }

  /**
   * Building from (1,2), (10,20), (5,6): the batch is sorted by start and
   * the median (5,6) becomes the root.
   */
  lemma ScenarioBuild(batch: seq<(int, int)>)
    requires batch == [(1, 2), (10, 20), (5, 6)]
    ensures var tr := New(batch);
      && InOrder(tr.root) == [Interval(1, 2), Interval(5, 6), Interval(10, 20)]
      && tr.root.Node? && tr.root.start == 5 && tr.root.end == 6
  {
    ScenarioSort();
  }

  /** A tree holding [1,2], [5,6] and [10,20] merges to the same three intervals, kept apart. */
  lemma ScenarioBuildMerge(tr: IntervalTree)
    requires Inv(tr) && Stored(tr) == multiset{Interval(1, 2), Interval(5, 6), Interval(10, 20)}
    ensures Merge(tr) == [Interval(1, 2), Interval(5, 6), Interval(10, 20)]
  {
    var expected := [Interval(1, 2), Interval(5, 6), Interval(10, 20)];
    forall x ensures Covered(expected, x) <==> exists iv :: iv in Stored(tr) && Covers(iv, x) {
      CoveredThree(expected, x);
      StoredThree(tr, Interval(1, 2), Interval(5, 6), Interval(10, 20), x);
    }
    ThreeApart(expected);
    MergeIsCanonical(tr, expected);
  }
}
