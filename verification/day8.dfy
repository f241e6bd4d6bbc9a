/**
 * Day 8: the union-find (disjoint-set forest) that groups junction boxes.
 * `parent[i]` is `i` for a root; `find` follows parents to the root and
 * points every node it passed straight at that root (path compression);
 * `union` hangs the second root under the first. `group_count` is the
 * number of groups, which is the number of roots.
 */
module Day8 {

  datatype UnionFind = UnionFind(parent: seq<nat>, groupCount: nat)

  /** A ranking under which every non-root's parent ranks strictly lower: the parent links have no cycle. */
  ghost predicate IsRank(parent: seq<nat>, rank: seq<nat>)
  {
    && |rank| == |parent|
    && forall i :: 0 <= i < |parent| && parent[i] != i ==> parent[i] < |parent| && rank[parent[i]] < rank[i]
  }

  /** Parent links stay in range and lead to a root from everywhere. */
  ghost predicate Forest(parent: seq<nat>)
  {
    (forall i :: 0 <= i < |parent| ==> parent[i] < |parent|)
    && exists rank :: IsRank(parent, rank)
  }

  ghost function TheRank(parent: seq<nat>): (rank: seq<nat>)
    requires Forest(parent)
    ensures IsRank(parent, rank)
  {
    var rank :| IsRank(parent, rank); rank
  }

  /** The root `x` leads to. */
  ghost function Root(parent: seq<nat>, x: nat): (r: nat)
    requires Forest(parent) && x < |parent|
    ensures r < |parent| && parent[r] == r
    decreases TheRank(parent)[x]
  {
    if parent[x] == x then x else Root(parent, parent[x])
  }

  /** The roots, one per group. */
  ghost function Roots(parent: seq<nat>): set<nat>
  {
    set i | 0 <= i < |parent| && parent[i] == i
  }

  /** The state `UnionFind` keeps: a forest, and `group_count` counting its roots. */
  ghost predicate Valid(uf: UnionFind)
  {
    Forest(uf.parent) && uf.groupCount == |Roots(uf.parent)|
  }

  /** The parent links of `size` singletons. */
  function Singletons(size: nat): (p: seq<nat>)
    ensures |p| == size && forall i :: 0 <= i < size ==> p[i] == i
  {
    seq(size, i requires 0 <= i < size => i)
  }

  /** `UnionFind::new`: every element alone in its own group. */
  function New(size: nat): (r: UnionFind)
    ensures |r.parent| == size && r.groupCount == size
    ensures forall i :: 0 <= i < size ==> r.parent[i] == i
    ensures Valid(r)
  {
    var parent := Singletons(size);
    assert IsRank(parent, seq(size, i => 0));
    SingletonRoots(size);
    UnionFind(parent, size)
  }

  lemma {:induction false} SingletonRoots(n: nat)
    ensures |Roots(Singletons(n))| == n
  {
    if n > 0 {
      SingletonRoots(n - 1);
      assert Roots(Singletons(n)) == Roots(Singletons(n - 1)) + {n - 1};
    }
  }

  /** Following the parent of a non-root leads to the same root. */
  lemma RootStep(parent: seq<nat>, x: nat)
    requires Forest(parent) && x < |parent|
    ensures Root(parent, parent[x]) == Root(parent, x)
  {
  }

  /** A root other than `x` itself ranks strictly lower than `x`, under any ranking. */
  lemma {:induction false} RootRanksLower(parent: seq<nat>, rank: seq<nat>, x: nat)
    requires Forest(parent) && IsRank(parent, rank) && x < |parent|
    ensures Root(parent, x) == x <==> parent[x] == x
    ensures Root(parent, x) != x ==> rank[Root(parent, x)] < rank[x]
    decreases rank[x]
  {
    if parent[x] != x {
      RootRanksLower(parent, rank, parent[x]);
    }
  }

  /**
   * The recursive `find`: the parents are read down to the root before any
   * is written, then every node passed is pointed at the root on the way
   * back.
   */
  function FindFrom(parent: seq<nat>, x: nat): (r: (seq<nat>, nat))
    requires Forest(parent) && x < |parent|
    ensures |r.0| == |parent| && r.1 == Root(parent, x) && r.0[x] == r.1
    ensures forall i :: 0 <= i < |parent| ==> r.0[i] == parent[i] || r.0[i] == Root(parent, i)
    decreases TheRank(parent)[x]
  {
    if parent[x] == x then (parent, x)
    else
      var (p1, root) := FindFrom(parent, parent[x]);
      (p1[x := root], root)
  }

  /**
   * Any relinking of nodes straight to their roots keeps a forest with the
   * same root for everyone and the same roots.
   */
  lemma Compression(parent: seq<nat>, q: seq<nat>)
    requires Forest(parent) && |q| == |parent|
    requires forall i :: 0 <= i < |parent| ==> q[i] == parent[i] || q[i] == Root(parent, i)
    ensures Forest(q)
    ensures forall i :: 0 <= i < |q| ==> Root(q, i) == Root(parent, i)
    ensures Roots(q) == Roots(parent)
  {
    var rank := TheRank(parent);
    forall i | 0 <= i < |parent| && q[i] != i ensures q[i] < |q| && rank[q[i]] < rank[i] {
      RootRanksLower(parent, rank, i);
    }
    assert IsRank(q, rank);
    forall i | 0 <= i < |q| ensures Root(q, i) == Root(parent, i) {
      CompressedRoot(parent, q, rank, i);
    }
    forall i | 0 <= i < |parent| ensures q[i] == i <==> parent[i] == i {
      RootRanksLower(parent, rank, i);
    }
  }

  lemma {:induction false} CompressedRoot(parent: seq<nat>, q: seq<nat>, rank: seq<nat>, i: nat)
    requires Forest(parent) && IsRank(parent, rank) && |q| == |parent|
    requires forall j :: 0 <= j < |parent| ==> q[j] == parent[j] || q[j] == Root(parent, j)
    requires Forest(q) && i < |q|
    ensures Root(q, i) == Root(parent, i)
    decreases rank[i]
  {
    var r := Root(parent, i);
    assert q[r] == r;
    if q[i] != i && q[i] == parent[i] {
      CompressedRoot(parent, q, rank, parent[i]);
    }
  }

  /**
   * `UnionFind::find`: the root of `x`. The compressed forest gives every
   * element the same root as before and keeps the same roots, so the
   * group count stays right.
   */
  function Find(uf: UnionFind, x: nat): (r: (UnionFind, nat))
    requires Valid(uf) && x < |uf.parent|
    ensures r.1 == Root(uf.parent, x) && uf.parent[r.1] == r.1
    ensures Valid(r.0) && |r.0.parent| == |uf.parent| && r.0.groupCount == uf.groupCount
    ensures forall i :: 0 <= i < |uf.parent| ==> Root(r.0.parent, i) == Root(uf.parent, i)
  {
    var (p, root) := FindFrom(uf.parent, x);
    Compression(uf.parent, p);
    (UnionFind(p, uf.groupCount), root)
  }

  /**
   * Hanging root `ry` under root `rx`: still a forest; the members of
   * `ry`'s group now lead to `rx`, everyone else keeps their root, and
   * `ry` stops being a root.
   */
  lemma Link(parent: seq<nat>, rx: nat, ry: nat)
    requires Forest(parent) && rx < |parent| && ry < |parent|
    requires parent[rx] == rx && parent[ry] == ry && rx != ry
    ensures Forest(parent[ry := rx])
    ensures forall i :: 0 <= i < |parent| ==>
      Root(parent[ry := rx], i) == if Root(parent, i) == ry then rx else Root(parent, i)
    ensures Roots(parent[ry := rx]) == Roots(parent) - {ry}
  {
    var q := parent[ry := rx];
    var rank := TheRank(parent);
    var lift := rank[rx] + 1;
    var rank2 := seq(|parent|, i requires 0 <= i < |parent| => rank[i] + (if Root(parent, i) == ry then lift else 0));
    forall i | 0 <= i < |q| && q[i] != i ensures q[i] < |q| && rank2[q[i]] < rank2[i] {
      if i != ry {
        RootStep(parent, i);
      }
    }
    assert IsRank(q, rank2);
    forall i | 0 <= i < |parent| ensures Root(q, i) == if Root(parent, i) == ry then rx else Root(parent, i) {
      LinkedRoot(parent, rank, rx, ry, i);
    }
  }

  lemma {:induction false} LinkedRoot(parent: seq<nat>, rank: seq<nat>, rx: nat, ry: nat, i: nat)
    requires Forest(parent) && IsRank(parent, rank) && rx < |parent| && ry < |parent|
    requires parent[rx] == rx && parent[ry] == ry && rx != ry
    requires Forest(parent[ry := rx]) && i < |parent|
    ensures Root(parent[ry := rx], i) == if Root(parent, i) == ry then rx else Root(parent, i)
    decreases rank[i]
  {
    var q := parent[ry := rx];
    if i == ry {
      assert q[ry] == rx && q[rx] == rx;
    } else if parent[i] != i {
      LinkedRoot(parent, rank, rx, ry, parent[i]);
    }
  }

  lemma RemoveOneRoot(roots: set<nat>, ry: nat, rx: nat)
    requires ry in roots && rx in roots && rx != ry
    ensures |roots - {ry}| == |roots| - 1 && |roots| >= 2
  {
    assert rx in roots - {ry};
  }

  /**
   * `UnionFind::union`: after it `x` and `y` share a root. If they had
   * different roots, `y`'s whole group joins `x`'s root and the group
   * count drops by exactly one; otherwise the groups stay the same.
   * Everyone outside the two groups keeps their root.
   */
  function Union(uf: UnionFind, x: nat, y: nat): (r: UnionFind)
    requires Valid(uf) && x < |uf.parent| && y < |uf.parent|
    ensures Valid(r) && |r.parent| == |uf.parent|
    ensures Root(r.parent, x) == Root(r.parent, y)
    ensures r.groupCount == uf.groupCount - 1 <==> Root(uf.parent, x) != Root(uf.parent, y)
    ensures r.groupCount == uf.groupCount <==> Root(uf.parent, x) == Root(uf.parent, y)
    ensures forall i :: 0 <= i < |uf.parent| ==>
      Root(r.parent, i) == if Root(uf.parent, i) == Root(uf.parent, y) then Root(uf.parent, x) else Root(uf.parent, i)
  {
    var (f1, rx) := Find(uf, x);
    var (f2, ry) := Find(f1, y);
    if rx != ry then
      Link(f2.parent, rx, ry);
      RemoveOneRoot(Roots(f2.parent), ry, rx);
      UnionFind(f2.parent[ry := rx], f2.groupCount - 1)
    else
      f2
  }

  /** Three elements: joining 0 with 1 and then 1 with 2 leaves one group. */
  lemma UnionExample()
    ensures Union(Union(New(3), 0, 1), 1, 2).groupCount == 1
  {
    var a := New(3);
    assert Root(a.parent, 0) == 0 && Root(a.parent, 1) == 1;
    var b := Union(a, 0, 1);
    assert b.groupCount == 2;
    assert Root(b.parent, 1) == 0 && Root(b.parent, 2) == 2;
  }
}
