/**
 * `IntervalNode::insert` and its rebalancing tail: descend by start, hang a
 * new box on the empty slot, refresh the cached aggregates on the way back
 * up and rotate where the balance reaches two.
 */
module IntervalInsert {
  import opened Base
  import opened Intervals
  import opened IntervalNode

  /**
   * The rebalancing tail of `IntervalNode::insert`: a node whose balance
   * may have reached two is rotated back, the rotation being chosen by
   * comparing the inserted start `s` with the heavy child's start.
   */
  function Rebalance(n: Tree, s: int): (r: Tree)
    requires Refreshed(n) && HeavyTowards(n, s)
    ensures Valid(r) && r.Node?
    ensures Elems(r) == Elems(n)
    ensures -1 <= GetBalance(n) <= 1 ==> r == n
    ensures Ht(r) == if -1 <= GetBalance(n) <= 1 then Ht(n) else Ht(n) - 1
  {
    var balance := GetBalance(n);
    if balance > 1 then
      FixLeftHeavy(n, s)
    else if balance < -1 then
      FixRightHeavy(n, s)
    else
      n
  }

  /** Left-heavy case: a single right rotation (left-left) or a left-right double rotation. */
  function FixLeftHeavy(n: Tree, s: int): (r: Tree)
    requires Refreshed(n) && HeavyTowards(n, s) && GetBalance(n) == 2
    ensures Valid(r) && r.Node?
    ensures Elems(r) == Elems(n)
    ensures Ht(r) == Ht(n.left)
  {
    ValidParts(n.left);
    if s < n.left.start then
      RotateRightRebalances(n);
      RotateRight(n)
    else
      RotateLeftRightRebalances(n);
      RotateRight(n.(left := RotateLeft(n.left)))
  }

  /** Right-heavy case: a single left rotation (right-right) or a right-left double rotation. */
  function FixRightHeavy(n: Tree, s: int): (r: Tree)
    requires Refreshed(n) && HeavyTowards(n, s) && GetBalance(n) == -2
    ensures Valid(r) && r.Node?
    ensures Elems(r) == Elems(n)
    ensures Ht(r) == Ht(n.right)
  {
    ValidParts(n.right);
    if s >= n.right.start then
      RotateLeftRebalances(n);
      RotateLeft(n)
    else
      RotateRightLeftRebalances(n);
      RotateLeft(n.(right := RotateRight(n.right)))
  }

  /**
   * The part of `IntervalNode::insert` after the recursive call on the left:
   * link the grown child, refresh `max_end` and height, rebalance.
   */
  function LinkLeft(t: Tree, child: Tree, s: int, e: int): (r: Tree)
    requires ValidBelow(t) && s < t.start && GrownFrom(t.left, child, s, e)
    ensures Valid(r) && r.Node?
    ensures Elems(r) == Elems(t) + multiset{Interval(s, e)}
  {
    LeftGrowth(t, child, s, e);
    var n := UpdateHeight(UpdateMax(t.(left := child)));
    LinkedLeftElems(t, child, Interval(s, e));
    Rebalance(n, s)
  }

  /** The height of `LinkLeft`'s result: at most one level more, and taller on the inserted side when it grew. */
  lemma LinkLeftHeight(t: Tree, child: Tree, s: int, e: int)
    requires ValidBelow(t) && s < t.start && GrownFrom(t.left, child, s, e)
    ensures var r := LinkLeft(t, child, s, e);
      && FreshHeight(t) <= Ht(r) <= FreshHeight(t) + 1
      && (Ht(r) == FreshHeight(t) + 1 ==> r.start == t.start && Ht(r.left) == Ht(r.right) + 1)
  {
    LeftGrowth(t, child, s, e);
    var n := UpdateHeight(UpdateMax(t.(left := child)));
    var r := Rebalance(n, s);
    assert GetBalance(n) == 2 || (GetBalance(n) <= 1 && r == n);
  }

  /** Mirror of `LinkLeft` for an insertion that went right. */
  function LinkRight(t: Tree, child: Tree, s: int, e: int): (r: Tree)
    requires ValidBelow(t) && t.start <= s && GrownFrom(t.right, child, s, e)
    ensures Valid(r) && r.Node?
    ensures Elems(r) == Elems(t) + multiset{Interval(s, e)}
  {
    RightGrowth(t, child, s, e);
    var n := UpdateHeight(UpdateMax(t.(right := child)));
    LinkedRightElems(t, child, Interval(s, e));
    Rebalance(n, s)
  }

  /** The height of `LinkRight`'s result: at most one level more, and taller on the inserted side when it grew. */
  lemma LinkRightHeight(t: Tree, child: Tree, s: int, e: int)
    requires ValidBelow(t) && t.start <= s && GrownFrom(t.right, child, s, e)
    ensures var r := LinkRight(t, child, s, e);
      && FreshHeight(t) <= Ht(r) <= FreshHeight(t) + 1
      && (Ht(r) == FreshHeight(t) + 1 ==> r.start == t.start && Ht(r.right) == Ht(r.left) + 1)
  {
    RightGrowth(t, child, s, e);
    var n := UpdateHeight(UpdateMax(t.(right := child)));
    var r := Rebalance(n, s);
    assert GetBalance(n) == -2 || (-1 <= GetBalance(n) && r == n);
  }

  /**
   * `IntervalNode::insert`: descend left when `s` is below the node's start,
   * otherwise right; hang a new box of height 1 on an empty slot; recompute
   * the node's aggregates and rebalance. The result is a valid AVL interval
   * tree holding one more interval, at most one level taller; when it did
   * grow, no rotation happened at the root and the side `s` went to is the
   * taller one.
   */
  function NodeInsert(t: Tree, s: int, e: int): (r: Tree)
    requires ValidBelow(t) && s <= e
    ensures Valid(r) && r.Node?
    ensures Elems(r) == Elems(t) + multiset{Interval(s, e)}
    ensures FreshHeight(t) <= Ht(r) <= FreshHeight(t) + 1
    ensures Ht(r) == FreshHeight(t) + 1 ==>
      && r.start == t.start
      && (s < t.start ==> Ht(r.left) == Ht(r.right) + 1)
      && (t.start <= s ==> Ht(r.right) == Ht(r.left) + 1)
    decreases t
  {
    if s < t.start then
      var child := if t.left.Leaf? then NewBox(s, e, 1) else NodeInsert(t.left, s, e);
      assert GrownFrom(t.left, child, s, e) by {
        if t.left.Leaf? { NewBoxGrown(s, e); } else { ValidParts(t.left); }
      }
      LinkLeftHeight(t, child, s, e);
      LinkLeft(t, child, s, e)
    else
      var child := if t.right.Leaf? then NewBox(s, e, 1) else NodeInsert(t.right, s, e);
      assert GrownFrom(t.right, child, s, e) by {
        if t.right.Leaf? { NewBoxGrown(s, e); } else { ValidParts(t.right); }
      }
      LinkRightHeight(t, child, s, e);
      LinkRight(t, child, s, e)
  }
}
