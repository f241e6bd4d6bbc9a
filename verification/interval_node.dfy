/**
 * The augmented AVL node of the interval tree: cached `max_end` and
 * `height`, the two rotations, recursive insertion with rebalancing, the
 * pruned point query and the in-order merge. Subtrees are immutable values;
 * an operation that the source performs on a `Box` by value returns the
 * replacement subtree instead.
 */
module IntervalNode {
  import opened Base
  import opened Intervals

  /** `Leaf` is an empty child slot (`None`); a `Node` owns both subtrees. */
  datatype Tree =
    | Leaf
    | Node(start: int, end: int, maxEnd: int, height: nat, left: Tree, right: Tree)

  /** Cached height of a child slot; an empty slot counts 0 (`map_or(0, ..)`). */
  function Ht(t: Tree): nat
  {
    if t.Leaf? then 0 else t.height
  }

  /** The multiset of intervals stored in `t`. */
  function Elems(t: Tree): multiset<Interval>
  {
    match t
    case Leaf => multiset{}
    case Node(s, e, _, _, l, r) => Elems(l) + multiset{Interval(s, e)} + Elems(r)
  }

  /** Left subtree, node, right subtree: the order `merge` visits. */
  function InOrder(t: Tree): seq<Interval>
  {
    match t
    case Leaf => []
    case Node(s, e, _, _, l, r) => InOrder(l) + [Interval(s, e)] + InOrder(r)
  }

  /** The true height of a tree, an empty tree having height 0. */
  function TrueHeight(t: Tree): nat
  {
    if t.Leaf? then 0 else 1 + Max(TrueHeight(t.left), TrueHeight(t.right))
  }

  lemma {:induction false} ElemsInOrder(t: Tree)
    ensures multiset(InOrder(t)) == Elems(t)
  {
    if t.Node? {
      ElemsInOrder(t.left);
      ElemsInOrder(t.right);
    }
  }

  // ---------------------------------------------------------------------
  // Cached aggregates
  // ---------------------------------------------------------------------

  /** `IntervalNode::new_box`: a childless node whose `max_end` is its own end. */
  function NewBox(start: int, end: int, height: nat): (r: Tree)
    ensures r.Node? && r.left.Leaf? && r.right.Leaf?
    ensures Elems(r) == multiset{Interval(start, end)}
  {
    Node(start, end, end, height, Leaf, Leaf)
  }

  /** The value `update_max` stores: the largest of the own end and both children's `max_end`. */
  function FreshMax(n: Tree): int
    requires n.Node?
  {
    var leftMax := if n.left.Leaf? then n.end else n.left.maxEnd;
    var rightMax := if n.right.Leaf? then n.end else n.right.maxEnd;
    Max(n.end, Max(leftMax, rightMax))
  }

  /** The value `update_height` stores. */
  function FreshHeight(n: Tree): nat
    requires n.Node?
  {
    1 + Max(Ht(n.left), Ht(n.right))
  }

  function UpdateMax(n: Tree): (r: Tree)
    requires n.Node?
    ensures r.Node? && r.maxEnd == FreshMax(n)
    ensures r.start == n.start && r.end == n.end && r.height == n.height
    ensures r.left == n.left && r.right == n.right
  {
    n.(maxEnd := FreshMax(n))
  }

  function UpdateHeight(n: Tree): (r: Tree)
    requires n.Node?
    ensures r.Node? && r.height == FreshHeight(n)
    ensures r.start == n.start && r.end == n.end && r.maxEnd == n.maxEnd
    ensures r.left == n.left && r.right == n.right
  {
    n.(height := FreshHeight(n))
  }

  /** `get_balance`: left height minus right height. */
  function GetBalance(n: Tree): int
    requires n.Node?
  {
    Ht(n.left) - Ht(n.right)
  }

  // ---------------------------------------------------------------------
  // Invariants
  // ---------------------------------------------------------------------

  /** The starts in the left subtree are at most `s`, those in the right at least `s`. */
  ghost predicate OrderedAt(s: int, l: Tree, r: Tree)
  {
    && (forall iv | iv in Elems(l) :: iv.start <= s)
    && (forall iv | iv in Elems(r) :: s <= iv.start)
  }

  /**
   * What the query and merge rely on: binary-search order by start, normal
   * bounds, and a correct `max_end` at every node.
   */
  ghost predicate SearchInv(t: Tree)
  {
    t.Node? ==>
      && SearchInv(t.left) && SearchInv(t.right)
      && t.start <= t.end
      && t.maxEnd == FreshMax(t)
      && OrderedAt(t.start, t.left, t.right)
  }

  /** Correct cached heights and AVL balance at every node. */
  ghost predicate AvlInv(t: Tree)
  {
    t.Node? ==>
      && AvlInv(t.left) && AvlInv(t.right)
      && t.height == FreshHeight(t)
      && -1 <= GetBalance(t) <= 1
  }

  ghost predicate Valid(t: Tree)
  {
    SearchInv(t) && AvlInv(t)
  }

  /**
   * What node-level insertion needs: valid children, order, normal bounds
   * and balance at the root. The root's own cached fields are recomputed by
   * insertion and so are not constrained.
   */
  ghost predicate ValidBelow(t: Tree)
  {
    && t.Node?
    && Valid(t.left) && Valid(t.right)
    && t.start <= t.end
    && OrderedAt(t.start, t.left, t.right)
    && -1 <= GetBalance(t) <= 1
  }

  /** The cached `max_end` bounds every end stored in the subtree. */
  lemma {:induction false} MaxEndIsUpperBound(t: Tree)
    requires t.Node? && SearchInv(t)
    ensures forall iv | iv in Elems(t) :: iv.end <= t.maxEnd
  {
    if t.left.Node? { MaxEndIsUpperBound(t.left); }
    if t.right.Node? { MaxEndIsUpperBound(t.right); }
    forall iv | iv in Elems(t) ensures iv.end <= t.maxEnd {
      if iv in Elems(t.left) {
      } else if iv in Elems(t.right) {
      } else {
        assert iv == Interval(t.start, t.end);
      }
    }
  }

  /** The cached `max_end` is the end of some interval stored in the subtree. */
  lemma {:induction false} MaxEndIsAttained(t: Tree)
    requires t.Node? && SearchInv(t)
    ensures exists iv :: iv in Elems(t) && iv.end == t.maxEnd
  {
    if t.maxEnd == t.end {
      assert Interval(t.start, t.end) in Elems(t);
    } else if t.left.Node? && t.maxEnd == t.left.maxEnd {
      MaxEndIsAttained(t.left);
      var iv :| iv in Elems(t.left) && iv.end == t.left.maxEnd;
      assert iv in Elems(t);
    } else {
      MaxEndIsAttained(t.right);
      var iv :| iv in Elems(t.right) && iv.end == t.right.maxEnd;
      assert iv in Elems(t);
    }
  }

  /** The cached `max_end` is the largest end stored in the subtree. */
  lemma MaxEndIsMaximum(t: Tree)
    requires t.Node? && SearchInv(t)
    ensures forall iv | iv in Elems(t) :: iv.end <= t.maxEnd
    ensures exists iv :: iv in Elems(t) && iv.end == t.maxEnd
  {
    MaxEndIsUpperBound(t);
    MaxEndIsAttained(t);
  }

  /** The cached height is the true height wherever the AVL invariant holds. */
  lemma {:induction false} CachedHeightIsTrue(t: Tree)
    requires AvlInv(t)
    ensures Ht(t) == TrueHeight(t)
  {
    if t.Node? {
      CachedHeightIsTrue(t.left);
      CachedHeightIsTrue(t.right);
    }
  }

  /** Search order makes the in-order sequence sorted by start, with normal bounds. */
  lemma {:induction false} InOrderSorted(t: Tree)
    requires SearchInv(t)
    ensures SortedByStart(InOrder(t)) && AllNormal(InOrder(t))
  {
    if t.Node? {
      InOrderSorted(t.left);
      InOrderSorted(t.right);
      ElemsInOrder(t.left);
      ElemsInOrder(t.right);
      var a, b := InOrder(t.left), InOrder(t.right);
      var mid := Interval(t.start, t.end);
      forall iv | iv in a ensures iv.start <= mid.start {
        assert iv in multiset(a);
      }
      forall iv | iv in b ensures mid.start <= iv.start {
        assert iv in multiset(b);
      }
      SortedAround(a, mid, b);
      AllNormalAround(a, mid, b);
    }
  }

  // ---------------------------------------------------------------------
  // Rotations
  // ---------------------------------------------------------------------

  /**
   * `rotate_right`: the left child becomes the root; its right subtree moves
   * under the old root. Aggregates are recomputed child first, then root.
   */
  function RotateRight(t: Tree): (r: Tree)
    requires t.Node? && t.left.Node?
    ensures r.Node? && r.right.Node?
    ensures InOrder(r) == InOrder(t)
    ensures Elems(r) == Elems(t)
  {
    var newRoot := t.left;
    var oldRoot := UpdateMax(UpdateHeight(t.(left := newRoot.right)));
    var r := UpdateMax(UpdateHeight(newRoot.(right := oldRoot)));
    assert InOrder(r) == InOrder(newRoot.left) + [Interval(newRoot.start, newRoot.end)]
      + (InOrder(newRoot.right) + [Interval(t.start, t.end)] + InOrder(t.right));
    r
  }

  /** `rotate_left`: the mirror image of `RotateRight`. */
  function RotateLeft(t: Tree): (r: Tree)
    requires t.Node? && t.right.Node?
    ensures r.Node? && r.left.Node?
    ensures InOrder(r) == InOrder(t)
    ensures Elems(r) == Elems(t)
  {
    var newRoot := t.right;
    var oldRoot := UpdateMax(UpdateHeight(t.(right := newRoot.left)));
    var r := UpdateMax(UpdateHeight(newRoot.(left := oldRoot)));
    assert InOrder(r) == (InOrder(t.left) + [Interval(t.start, t.end)] + InOrder(newRoot.left))
      + [Interval(newRoot.start, newRoot.end)] + InOrder(newRoot.right);
    r
  }

  /** A node over the given children with freshly computed aggregates. */
  function Join(s: int, e: int, l: Tree, r: Tree): Tree
  {
    UpdateMax(UpdateHeight(Node(s, e, e, 0, l, r)))
  }

  /** Recomputing the root's aggregates over valid, ordered, balanced children gives a valid tree. */
  lemma JoinValid(s: int, e: int, l: Tree, r: Tree)
    requires Valid(l) && Valid(r) && s <= e && OrderedAt(s, l, r)
    requires -1 <= Ht(l) - Ht(r) <= 1
    ensures Valid(Join(s, e, l, r)) && Join(s, e, l, r).Node?
    ensures Ht(Join(s, e, l, r)) == 1 + Max(Ht(l), Ht(r))
    ensures Elems(Join(s, e, l, r)) == Elems(l) + multiset{Interval(s, e)} + Elems(r)
  {
    var j := Join(s, e, l, r);
    assert j.left == l && j.right == r && j.start == s && j.end == e;
    assert j.maxEnd == FreshMax(j) && j.height == FreshHeight(j);
    assert SearchInv(j);
    assert AvlInv(j);
  }

  lemma RefreshIsJoin(n: Tree)
    requires n.Node?
    ensures UpdateMax(UpdateHeight(n)) == Join(n.start, n.end, n.left, n.right)
    ensures UpdateHeight(UpdateMax(n)) == Join(n.start, n.end, n.left, n.right)
  {
  }

  lemma RotateRightIsJoin(t: Tree)
    requires t.Node? && t.left.Node?
    ensures RotateRight(t)
      == Join(t.left.start, t.left.end, t.left.left, Join(t.start, t.end, t.left.right, t.right))
  {
  }

  lemma RotateLeftIsJoin(t: Tree)
    requires t.Node? && t.right.Node?
    ensures RotateLeft(t)
      == Join(t.right.start, t.right.end, Join(t.start, t.end, t.left, t.right.left), t.right.right)
  {
  }

  /** The parts of a valid node are valid, and its starts are ordered around the node's start. */
  lemma ValidParts(t: Tree)
    requires t.Node? && Valid(t)
    ensures Valid(t.left) && Valid(t.right) && t.start <= t.end
    ensures OrderedAt(t.start, t.left, t.right)
    ensures Ht(t) == 1 + Max(Ht(t.left), Ht(t.right)) && -1 <= Ht(t.left) - Ht(t.right) <= 1
    ensures Elems(t) == Elems(t.left) + multiset{Interval(t.start, t.end)} + Elems(t.right)
  {
  }

  /** Starts below a node's left child are at most the node's start. */
  lemma LeftChildOrder(t: Tree)
    requires t.Node? && t.left.Node? && Valid(t.left) && OrderedAt(t.start, t.left, t.right)
    ensures t.left.start <= t.start
    ensures OrderedAt(t.start, t.left.right, t.right)
    ensures forall iv | iv in Elems(t.left.left) :: iv.start <= t.start
  {
    ValidParts(t.left);
    assert Interval(t.left.start, t.left.end) in Elems(t.left);
  }

  /** Starts below a node's right child are at least the node's start. */
  lemma RightChildOrder(t: Tree)
    requires t.Node? && t.right.Node? && Valid(t.right) && OrderedAt(t.start, t.left, t.right)
    ensures t.start <= t.right.start
    ensures OrderedAt(t.start, t.left, t.right.left)
    ensures forall iv | iv in Elems(t.right.right) :: t.start <= iv.start
  {
    ValidParts(t.right);
    assert Interval(t.right.start, t.right.end) in Elems(t.right);
  }

  /** The lower node a right rotation builds: the old root over `l.right` and `t.right`. */
  lemma RotateRightLower(t: Tree)
    requires t.Node? && t.left.Node?
    requires t.start <= t.end && Valid(t.left) && Valid(t.right)
    requires OrderedAt(t.start, t.left, t.right)
    requires -1 <= Ht(t.left.right) - Ht(t.right) <= 1
    ensures var inner := Join(t.start, t.end, t.left.right, t.right);
      && Valid(inner) && Ht(inner) == 1 + Max(Ht(t.left.right), Ht(t.right))
      && OrderedAt(t.left.start, t.left.left, inner)
  {
    var l := t.left;
    ValidParts(l);
    LeftChildOrder(t);
    JoinValid(t.start, t.end, l.right, t.right);
  }

  /** The lower node a left rotation builds: the old root over `t.left` and `r.left`. */
  lemma RotateLeftLower(t: Tree)
    requires t.Node? && t.right.Node?
    requires t.start <= t.end && Valid(t.left) && Valid(t.right)
    requires OrderedAt(t.start, t.left, t.right)
    requires -1 <= Ht(t.left) - Ht(t.right.left) <= 1
    ensures var inner := Join(t.start, t.end, t.left, t.right.left);
      && Valid(inner) && Ht(inner) == 1 + Max(Ht(t.left), Ht(t.right.left))
      && OrderedAt(t.right.start, inner, t.right.right)
  {
    var r := t.right;
    ValidParts(r);
    RightChildOrder(t);
    JoinValid(t.start, t.end, t.left, r.left);
  }

  /** Single right rotation of a node whose left-left grandchild is one level too tall. */
  lemma RotateRightRebalances(t: Tree)
    requires t.Node? && t.left.Node?
    requires t.start <= t.end && Valid(t.left) && Valid(t.right)
    requires OrderedAt(t.start, t.left, t.right)
    requires Ht(t.left.left) == Ht(t.right) + 1 && Ht(t.left.right) == Ht(t.right)
    ensures Valid(RotateRight(t)) && Ht(RotateRight(t)) == Ht(t.right) + 2
  {
    var l := t.left;
    ValidParts(l);
    RotateRightLower(t);
    var inner := Join(t.start, t.end, l.right, t.right);
    JoinValid(l.start, l.end, l.left, inner);
    RotateRightIsJoin(t);
  }

  /** Single left rotation, the mirror of `RotateRightRebalances`. */
  lemma RotateLeftRebalances(t: Tree)
    requires t.Node? && t.right.Node?
    requires t.start <= t.end && Valid(t.left) && Valid(t.right)
    requires OrderedAt(t.start, t.left, t.right)
    requires Ht(t.right.right) == Ht(t.left) + 1 && Ht(t.right.left) == Ht(t.left)
    ensures Valid(RotateLeft(t)) && Ht(RotateLeft(t)) == Ht(t.left) + 2
  {
    var r := t.right;
    ValidParts(r);
    RotateLeftLower(t);
    var inner := Join(t.start, t.end, t.left, r.left);
    JoinValid(r.start, r.end, inner, r.right);
    RotateLeftIsJoin(t);
  }

  ghost predicate AllStartsAtMost(t: Tree, k: int)
  {
    forall iv | iv in Elems(t) :: iv.start <= k
  }

  ghost predicate AllStartsAtLeast(t: Tree, k: int)
  {
    forall iv | iv in Elems(t) :: k <= iv.start
  }

  lemma JoinStarts(s: int, e: int, x: Tree, y: Tree, k: int)
    ensures AllStartsAtMost(x, k) && s <= k && AllStartsAtMost(y, k)
      ==> AllStartsAtMost(Join(s, e, x, y), k)
    ensures AllStartsAtLeast(x, k) && k <= s && AllStartsAtLeast(y, k)
      ==> AllStartsAtLeast(Join(s, e, x, y), k)
  {
    assert Elems(Join(s, e, x, y)) == Elems(x) + multiset{Interval(s, e)} + Elems(y);
  }

  /** The starts around the pivot `m` of a left-right double rotation. */
  lemma LeftRightOrder(t: Tree)
    requires t.Node? && t.left.Node? && t.left.right.Node?
    requires Valid(t.left) && OrderedAt(t.start, t.left, t.right)
    ensures var l, m := t.left, t.left.right;
      OrderedAt(m.start, Join(l.start, l.end, l.left, m.left), Join(t.start, t.end, m.right, t.right))
  {
    var l, m := t.left, t.left.right;
    ValidParts(l);
    ValidParts(m);
    LeftChildOrder(t);
    RightChildOrder(l);
    assert m.start <= t.start by { assert Interval(m.start, m.end) in Elems(l); }
    assert AllStartsAtMost(l.left, m.start);
    assert AllStartsAtMost(m.left, m.start);
    JoinStarts(l.start, l.end, l.left, m.left, m.start);
    assert AllStartsAtLeast(m.right, m.start);
    assert AllStartsAtLeast(t.right, m.start);
    JoinStarts(t.start, t.end, m.right, t.right, m.start);
  }

  /** The right grandchild of `t` sits below `t.start`, as `t.right` sits above it. */
  lemma LeftRightOuter(t: Tree)
    requires t.Node? && t.left.Node? && t.left.right.Node?
    requires OrderedAt(t.start, t.left, t.right)
    ensures OrderedAt(t.start, t.left.right.right, t.right)
  {
    var l, m := t.left, t.left.right;
    assert Elems(m.right) <= Elems(m) && Elems(m) <= Elems(l);
  }

  /** The two lower nodes of a left-right double rotation, and their order around the pivot. */
  lemma LeftRightParts(t: Tree)
    requires t.Node? && t.left.Node? && t.left.right.Node?
    requires t.start <= t.end && Valid(t.left) && Valid(t.right)
    requires OrderedAt(t.start, t.left, t.right)
    requires Ht(t.left.right) == Ht(t.right) + 1 && Ht(t.left.left) == Ht(t.right)
    ensures var l, m := t.left, t.left.right;
      var a := Join(l.start, l.end, l.left, m.left);
      var b := Join(t.start, t.end, m.right, t.right);
      && Valid(a) && Valid(b) && Ht(a) == Ht(t.right) + 1 && Ht(b) == Ht(t.right) + 1
      && m.start <= m.end && OrderedAt(m.start, a, b)
  {
    var l, m := t.left, t.left.right;
    ValidParts(l);
    ValidParts(m);
    RotateLeftLower(l);
    LeftChildOrder(t);
    LeftRightOrder(t);
    LeftRightOuter(t);
    JoinValid(t.start, t.end, m.right, t.right);
  }

  /** Left-right double rotation of a node whose left-right grandchild is one level too tall. */
  lemma RotateLeftRightRebalances(t: Tree)
    requires t.Node? && t.left.Node? && t.left.right.Node?
    requires t.start <= t.end && Valid(t.left) && Valid(t.right)
    requires OrderedAt(t.start, t.left, t.right)
    requires Ht(t.left.right) == Ht(t.right) + 1 && Ht(t.left.left) == Ht(t.right)
    ensures Valid(RotateRight(t.(left := RotateLeft(t.left))))
    ensures Ht(RotateRight(t.(left := RotateLeft(t.left)))) == Ht(t.right) + 2
  {
    var l, m := t.left, t.left.right;
    var a := Join(l.start, l.end, l.left, m.left);
    var b := Join(t.start, t.end, m.right, t.right);
    LeftRightParts(t);
    JoinValid(m.start, m.end, a, b);
    RotateLeftIsJoin(l);
    var rl := RotateLeft(l);
    RotateRightIsJoin(t.(left := rl));
  }

  /** The starts around the pivot `m` of a right-left double rotation. */
  lemma RightLeftOrder(t: Tree)
    requires t.Node? && t.right.Node? && t.right.left.Node?
    requires Valid(t.right) && OrderedAt(t.start, t.left, t.right)
    ensures var r, m := t.right, t.right.left;
      OrderedAt(m.start, Join(t.start, t.end, t.left, m.left), Join(r.start, r.end, m.right, r.right))
  {
    var r, m := t.right, t.right.left;
    ValidParts(r);
    ValidParts(m);
    RightChildOrder(t);
    LeftChildOrder(r);
    assert t.start <= m.start by { assert Interval(m.start, m.end) in Elems(r); }
    assert AllStartsAtMost(t.left, m.start);
    assert AllStartsAtMost(m.left, m.start);
    JoinStarts(t.start, t.end, t.left, m.left, m.start);
    assert AllStartsAtLeast(m.right, m.start);
    assert AllStartsAtLeast(r.right, m.start);
    JoinStarts(r.start, r.end, m.right, r.right, m.start);
  }

  /** Mirror of `LeftRightOuter`. */
  lemma RightLeftOuter(t: Tree)
    requires t.Node? && t.right.Node? && t.right.left.Node?
    requires OrderedAt(t.start, t.left, t.right)
    ensures OrderedAt(t.start, t.left, t.right.left.left)
  {
    var r, m := t.right, t.right.left;
    assert Elems(m.left) <= Elems(m) && Elems(m) <= Elems(r);
  }

  /** The two lower nodes of a right-left double rotation, and their order around the pivot. */
  lemma RightLeftParts(t: Tree)
    requires t.Node? && t.right.Node? && t.right.left.Node?
    requires t.start <= t.end && Valid(t.left) && Valid(t.right)
    requires OrderedAt(t.start, t.left, t.right)
    requires Ht(t.right.left) == Ht(t.left) + 1 && Ht(t.right.right) == Ht(t.left)
    ensures var r, m := t.right, t.right.left;
      var a := Join(t.start, t.end, t.left, m.left);
      var b := Join(r.start, r.end, m.right, r.right);
      && Valid(a) && Valid(b) && Ht(a) == Ht(t.left) + 1 && Ht(b) == Ht(t.left) + 1
      && m.start <= m.end && OrderedAt(m.start, a, b)
  {
    var r, m := t.right, t.right.left;
    ValidParts(r);
    ValidParts(m);
    RotateRightLower(r);
    RightChildOrder(t);
    RightLeftOrder(t);
    RightLeftOuter(t);
    JoinValid(t.start, t.end, t.left, m.left);
  }

  /** Right-left double rotation, the mirror of `RotateLeftRightRebalances`. */
  lemma RotateRightLeftRebalances(t: Tree)
    requires t.Node? && t.right.Node? && t.right.left.Node?
    requires t.start <= t.end && Valid(t.left) && Valid(t.right)
    requires OrderedAt(t.start, t.left, t.right)
    requires Ht(t.right.left) == Ht(t.left) + 1 && Ht(t.right.right) == Ht(t.left)
    ensures Valid(RotateLeft(t.(right := RotateRight(t.right))))
    ensures Ht(RotateLeft(t.(right := RotateRight(t.right)))) == Ht(t.left) + 2
  {
    var r, m := t.right, t.right.left;
    var a := Join(t.start, t.end, t.left, m.left);
    var b := Join(r.start, r.end, m.right, r.right);
    RightLeftParts(t);
    JoinValid(m.start, m.end, a, b);
    RotateRightIsJoin(r);
    var rr := RotateRight(r);
    RotateLeftIsJoin(t.(right := rr));
  }

  // ---------------------------------------------------------------------
  // Insertion
  // ---------------------------------------------------------------------

  /**
   * A node over valid, ordered children with normal bounds whose own
   * `max_end` and height have just been recomputed.
   */
  ghost predicate Refreshed(n: Tree)
  {
    && n.Node? && Valid(n.left) && Valid(n.right) && n.start <= n.end
    && OrderedAt(n.start, n.left, n.right)
    && n.height == FreshHeight(n) && n.maxEnd == FreshMax(n)
  }

  /**
   * The balance is off by at most two, and when it is off the heavy child
   * is itself one level heavier on the side the inserted start `s` went to.
   */
  ghost predicate HeavyTowards(n: Tree, s: int)
    requires n.Node?
  {
    && -2 <= GetBalance(n) <= 2
    && (GetBalance(n) == 2 ==>
        && n.left.Node?
        && (s < n.left.start ==> Ht(n.left.left) == Ht(n.left.right) + 1)
        && (n.left.start <= s ==> Ht(n.left.right) == Ht(n.left.left) + 1))
    && (GetBalance(n) == -2 ==>
        && n.right.Node?
        && (n.right.start <= s ==> Ht(n.right.right) == Ht(n.right.left) + 1)
        && (s < n.right.start ==> Ht(n.right.left) == Ht(n.right.right) + 1))
  }

  /** Linking a child that gained `iv` in place of the left subtree adds `iv` to the node. */
  lemma LinkedLeftElems(t: Tree, child: Tree, iv: Interval)
    requires t.Node? && Elems(child) == Elems(t.left) + multiset{iv}
    ensures Elems(UpdateHeight(UpdateMax(t.(left := child)))) == Elems(t) + multiset{iv}
  {
    var a, m, b := Elems(t.left), multiset{Interval(t.start, t.end)}, Elems(t.right);
    assert (a + multiset{iv}) + m + b == (a + m + b) + multiset{iv};
  }

  /** Mirror of `LinkedLeftElems`. */
  lemma LinkedRightElems(t: Tree, child: Tree, iv: Interval)
    requires t.Node? && Elems(child) == Elems(t.right) + multiset{iv}
    ensures Elems(UpdateHeight(UpdateMax(t.(right := child)))) == Elems(t) + multiset{iv}
  {
    var a, m, b := Elems(t.left), multiset{Interval(t.start, t.end)}, Elems(t.right);
    assert a + m + (b + multiset{iv}) == (a + m + b) + multiset{iv};
  }

  /**
   * What insertion into the subtree `before` produces: a valid tree holding one
   * more interval, at most one level taller, and (below an existing node)
   * taller on the side the inserted start went to when it did grow.
   */
  ghost predicate GrownFrom(before: Tree, child: Tree, s: int, e: int)
  {
    && Valid(child) && child.Node?
    && Elems(child) == Elems(before) + multiset{Interval(s, e)}
    && Ht(before) <= Ht(child) <= Ht(before) + 1
    && (before.Node? && Ht(child) == Ht(before) + 1 ==>
        && (s < child.start ==> Ht(child.left) == Ht(child.right) + 1)
        && (child.start <= s ==> Ht(child.right) == Ht(child.left) + 1))
  }

  /**
   * Height bookkeeping of one insertion step: the grown side had height
   * `hg` and now `hc`, the other side `ho`; the node was balanced.
   */
  lemma GrowthHeights(hg: int, ho: int, hc: int)
    requires -1 <= hg - ho <= 1 && hg <= hc <= hg + 1
    ensures -1 <= hc - ho <= 2
    ensures hc - ho == 2 ==> hc == hg + 1 && 1 + Max(hc, ho) - 1 == 1 + Max(hg, ho)
    ensures hc - ho <= 1 ==> 1 + Max(hg, ho) <= 1 + Max(hc, ho) <= 1 + Max(hg, ho) + 1
    ensures hc - ho <= 1 && 1 + Max(hc, ho) == 1 + Max(hg, ho) + 1 ==> hc == ho + 1 && hc == hg + 1
  {
  }

  /** Linking a grown child and refreshing the node gives valid, ordered parts and fresh aggregates. */
  lemma LeftGrowthShape(t: Tree, child: Tree, s: int, e: int)
    requires ValidBelow(t) && s < t.start && GrownFrom(t.left, child, s, e)
    ensures var n := UpdateHeight(UpdateMax(t.(left := child)));
      Refreshed(n)
  {
    var n := UpdateHeight(UpdateMax(t.(left := child)));
    assert n.left == child && n.right == t.right && n.start == t.start && n.end == t.end;
    forall iv | iv in Elems(child) ensures iv.start <= t.start {
      if iv != Interval(s, e) { assert iv in Elems(t.left); }
    }
    assert OrderedAt(n.start, n.left, n.right);
  }

  /** Mirror of `LeftGrowthShape`. */
  lemma RightGrowthShape(t: Tree, child: Tree, s: int, e: int)
    requires ValidBelow(t) && t.start <= s && GrownFrom(t.right, child, s, e)
    ensures var n := UpdateHeight(UpdateMax(t.(right := child)));
      Refreshed(n)
  {
    var n := UpdateHeight(UpdateMax(t.(right := child)));
    assert n.right == child && n.left == t.left && n.start == t.start && n.end == t.end;
    forall iv | iv in Elems(child) ensures t.start <= iv.start {
      if iv != Interval(s, e) { assert iv in Elems(t.right); }
    }
    assert OrderedAt(n.start, n.left, n.right);
  }

  /** Linking a grown left child and refreshing the node meets `Rebalance`'s demands. */
  lemma LeftGrowth(t: Tree, child: Tree, s: int, e: int)
    requires ValidBelow(t) && s < t.start && GrownFrom(t.left, child, s, e)
    ensures var n := UpdateHeight(UpdateMax(t.(left := child)));
      && Refreshed(n) && HeavyTowards(n, s) && -1 <= GetBalance(n)
      && (GetBalance(n) == 2 ==> Ht(n) - 1 == FreshHeight(t))
      && (GetBalance(n) <= 1 ==> FreshHeight(t) <= Ht(n) <= FreshHeight(t) + 1)
      && (GetBalance(n) <= 1 && Ht(n) == FreshHeight(t) + 1 ==> Ht(n.left) == Ht(n.right) + 1)
  {
    LeftGrowthShape(t, child, s, e);
    GrowthHeights(Ht(t.left), Ht(t.right), Ht(child));
  }

  /** Mirror of `LeftGrowth`. */
  lemma RightGrowth(t: Tree, child: Tree, s: int, e: int)
    requires ValidBelow(t) && t.start <= s && GrownFrom(t.right, child, s, e)
    ensures var n := UpdateHeight(UpdateMax(t.(right := child)));
      && Refreshed(n) && HeavyTowards(n, s) && GetBalance(n) <= 1
      && (GetBalance(n) == -2 ==> Ht(n) - 1 == FreshHeight(t))
      && (-1 <= GetBalance(n) ==> FreshHeight(t) <= Ht(n) <= FreshHeight(t) + 1)
      && (-1 <= GetBalance(n) && Ht(n) == FreshHeight(t) + 1 ==> Ht(n.right) == Ht(n.left) + 1)
  {
    RightGrowthShape(t, child, s, e);
    GrowthHeights(Ht(t.right), Ht(t.left), Ht(child));
  }

  /** A subtree slot after insertion: a new box of height 1 when empty, the recursive result otherwise. */
  lemma NewBoxGrown(s: int, e: int)
    requires s <= e
    ensures GrownFrom(Leaf, NewBox(s, e, 1), s, e)
  {
  }

  // ---------------------------------------------------------------------
  // Stabbing query
  // ---------------------------------------------------------------------

  /**
   * The test `contains` applies to one stored interval: each border counts
   * as inside only when its flag is set.
   */
  predicate Hits(iv: Interval, x: int, includeStart: bool, includeEnd: bool)
  {
    && (if includeStart then iv.start <= x else iv.start < x)
    && (if includeEnd then x <= iv.end else x < iv.end)
  }

  ghost predicate AnyHit(t: Tree, x: int, includeStart: bool, includeEnd: bool)
  {
    exists iv :: iv in Elems(t) && Hits(iv, x, includeStart, includeEnd)
  }

  /** A hit in a subtree is a hit on the node's own interval or in one of its children. */
  lemma AnyHitSplit(t: Tree, x: int, includeStart: bool, includeEnd: bool)
    requires t.Node?
    ensures AnyHit(t, x, includeStart, includeEnd) <==>
      || Hits(Interval(t.start, t.end), x, includeStart, includeEnd)
      || AnyHit(t.left, x, includeStart, includeEnd)
      || AnyHit(t.right, x, includeStart, includeEnd)
  {
    var mid := Interval(t.start, t.end);
    if AnyHit(t, x, includeStart, includeEnd) {
      var iv :| iv in Elems(t) && Hits(iv, x, includeStart, includeEnd);
      ElemsSplit(t, iv);
    }
    if AnyHit(t.left, x, includeStart, includeEnd) {
      var iv :| iv in Elems(t.left) && Hits(iv, x, includeStart, includeEnd);
      ElemsSplit(t, iv);
    }
    if AnyHit(t.right, x, includeStart, includeEnd) {
      var iv :| iv in Elems(t.right) && Hits(iv, x, includeStart, includeEnd);
      ElemsSplit(t, iv);
    }
    if Hits(mid, x, includeStart, includeEnd) {
      ElemsSplit(t, mid);
    }
  }

  /** An interval stored in a node is its own interval or stored in a child. */
  lemma ElemsSplit(t: Tree, iv: Interval)
    requires t.Node?
    ensures iv in Elems(t) <==> iv == Interval(t.start, t.end) || iv in Elems(t.left) || iv in Elems(t.right)
  {
  }

  /** Nothing below a node is hit when `x` is beyond its `max_end`. */
  lemma MaxPruneSound(t: Tree, x: int, includeStart: bool, includeEnd: bool)
    requires t.Node? && SearchInv(t)
    requires !(if includeEnd then x <= t.maxEnd else x < t.maxEnd)
    ensures !AnyHit(t, x, includeStart, includeEnd)
  {
    MaxEndIsUpperBound(t);
  }

  /** When `x` fails the node's start test, so does every interval in the right subtree. */
  lemma StartPruneSound(t: Tree, x: int, includeStart: bool, includeEnd: bool)
    requires t.Node? && SearchInv(t)
    requires !(if includeStart then t.start <= x else t.start < x)
    ensures !AnyHit(t.right, x, includeStart, includeEnd)
  {
  }

  /**
   * `IntervalNode::contains`: true exactly when some interval stored in the
   * subtree contains `x` under the border flags. Children are only visited
   * when `x` does not exceed the node's `max_end`, the right child only
   * when `x` also passes the node's start test.
   */
  function NodeContains(t: Tree, x: int, includeStart: bool, includeEnd: bool): (r: bool)
    requires t.Node? && SearchInv(t)
    ensures r <==> AnyHit(t, x, includeStart, includeEnd)
    decreases t
  {
    AnyHitSplit(t, x, includeStart, includeEnd);
    var startOk := if includeStart then t.start <= x else t.start < x;
    var endOk := if includeEnd then x <= t.end else x < t.end;
    var maxOk := if includeEnd then x <= t.maxEnd else x < t.maxEnd;
    assert !maxOk ==> !AnyHit(t, x, includeStart, includeEnd) by {
      if !maxOk { MaxPruneSound(t, x, includeStart, includeEnd); }
    }
    assert !startOk ==> !AnyHit(t.right, x, includeStart, includeEnd) by {
      if !startOk { StartPruneSound(t, x, includeStart, includeEnd); }
    }
    if startOk && endOk then
      true
    else if t.left.Node? && maxOk && NodeContains(t.left, x, includeStart, includeEnd) then
      true
    else if t.right.Node? && maxOk && startOk && NodeContains(t.right, x, includeStart, includeEnd) then
      true
    else
      false
  }

  // ---------------------------------------------------------------------
  // In-order coalescing
  // ---------------------------------------------------------------------

  /** The fold over a node's in-order sequence, split at the node's own interval. */
  lemma MergeSeqNode(t: Tree, list: seq<Interval>)
    requires t.Node?
    ensures MergeSeq(list, InOrder(t))
      == MergeSeq(Absorb(MergeSeq(list, InOrder(t.left)), Interval(t.start, t.end)), InOrder(t.right))
  {
    var mid := [Interval(t.start, t.end)] + InOrder(t.right);
    MergeSeqAppend(list, InOrder(t.left), mid);
    assert InOrder(t) == InOrder(t.left) + mid;
    assert mid[1..] == InOrder(t.right);
  }

  /**
   * `IntervalNode::merge`: visit the left subtree, absorb the node's own
   * interval into the list, visit the right subtree. This is the coalescing
   * fold over the in-order sequence of the subtree.
   */
  function MergeInto(t: Tree, list: seq<Interval>): (r: seq<Interval>)
    ensures r == MergeSeq(list, InOrder(t))
    decreases t
  {
    if t.Leaf? then list
    else
      var afterLeft := MergeInto(t.left, list);
      var afterNode := Absorb(afterLeft, Interval(t.start, t.end));
      MergeSeqNode(t, list);
      MergeInto(t.right, afterNode)
  }
}
