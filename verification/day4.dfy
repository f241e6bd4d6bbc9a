/**
 * Day 4: a rectangular grid of paper rolls (`true`) and empty floor
 * (`false`). A roll is accessible when fewer than four of its eight
 * neighbours hold a roll. One pass removes accessible rolls in row-major
 * order, in place, so an earlier removal can free a later roll; repeating
 * passes until one removes nothing empties the grid as far as it goes.
 */
module Day4 {

  datatype Grid = Grid(cells: seq<seq<bool>>, width: nat, height: nat)

  /** Every row is `width` long and there are `height` rows. */
  predicate Valid(g: Grid)
  {
    |g.cells| == g.height && forall y :: 0 <= y < |g.cells| ==> |g.cells[y]| == g.width
  }

  /** `Grid::new`: the width is the first row's length; an empty input panics on `grid[0]`. */
  function New(rows: seq<seq<bool>>): (r: Grid)
    requires |rows| > 0
    ensures r.cells == rows && r.width == |rows[0]| && r.height == |rows|
    ensures Valid(r) <==> forall y :: 0 <= y < |rows| ==> |rows[y]| == |rows[0]|
  {
    Grid(rows, |rows[0]|, |rows|)
  }

  /** `Grid::get`: indexing panics outside the rows. */
  function Get(g: Grid, x: nat, y: nat): bool
    requires y < |g.cells| && x < |g.cells[y]|
  {
    g.cells[y][x]
  }

  /** `Grid::remove`: the cell becomes floor, nothing else changes. */
  function Remove(g: Grid, x: nat, y: nat): (r: Grid)
    requires y < |g.cells| && x < |g.cells[y]|
    ensures r.width == g.width && r.height == g.height && |r.cells| == |g.cells|
    ensures forall cy :: 0 <= cy < |g.cells| ==> |r.cells[cy]| == |g.cells[cy]|
    ensures !Get(r, x, y)
    ensures forall cx, cy :: 0 <= cy < |g.cells| && 0 <= cx < |g.cells[cy]| && (cx, cy) != (x, y) ==> r.cells[cy][cx] == g.cells[cy][cx]
  {
    g.(cells := g.cells[y := g.cells[y][x := false]])
  }

  /** The cells holding a roll. */
  ghost function Rolls(g: Grid): set<(nat, nat)>
  {
    set x: nat, y: nat | y < |g.cells| && x < |g.cells[y]| && g.cells[y][x] :: (x, y)
  }

  /** Removing a roll takes exactly that cell out of the rolls. */
  lemma RemoveRoll(g: Grid, x: nat, y: nat)
    requires y < |g.cells| && x < |g.cells[y]| && Get(g, x, y)
    ensures Rolls(Remove(g, x, y)) == Rolls(g) - {(x, y)}
    ensures |Rolls(Remove(g, x, y))| == |Rolls(g)| - 1
  {
    var r := Remove(g, x, y);
    assert (x, y) in Rolls(g);
    forall c | c in Rolls(r) ensures c in Rolls(g) - {(x, y)} {
      assert r.cells[c.1][c.0];
    }
    forall c | c in Rolls(g) - {(x, y)} ensures c in Rolls(r) {
      assert g.cells[c.1][c.0];
    }
  }

  // ---------------------------------------------------------------------
  // Neighbours
  // ---------------------------------------------------------------------

  /** The eight directions in the order `get_adjacent` visits them. */
  const Offsets: seq<(int, int)> := [(-1, -1), (0, -1), (1, -1), (-1, 0), (1, 0), (-1, 1), (0, 1), (1, 1)]

  /**
   * The `filter_map` of `get_adjacent`: each offset whose target neither
   * underflows (`checked_add_signed`) nor leaves the grid.
   */
  function NeighbourCells(g: Grid, x: nat, y: nat, offsets: seq<(int, int)>): (r: seq<(nat, nat)>)
    ensures |r| <= |offsets|
    ensures forall i :: 0 <= i < |r| ==> r[i].0 < g.width && r[i].1 < g.height
  {
    if |offsets| == 0 then []
    else
      var nx := x + offsets[0].0;
      var ny := y + offsets[0].1;
      var rest := NeighbourCells(g, x, y, offsets[1..]);
      if 0 <= nx < g.width && 0 <= ny < g.height then [(nx as nat, ny as nat)] + rest else rest
  }

  /** The cell values at the listed cells, in order. */
  function Values(g: Grid, cs: seq<(nat, nat)>): (r: seq<bool>)
    requires Valid(g)
    requires forall i :: 0 <= i < |cs| ==> cs[i].0 < g.width && cs[i].1 < g.height
    ensures |r| == |cs| && forall i :: 0 <= i < |cs| ==> r[i] == Get(g, cs[i].0, cs[i].1)
  {
    seq(|cs|, i requires 0 <= i < |cs| => Get(g, cs[i].0, cs[i].1))
  }

  /** `Grid::get_adjacent`. */
  function Adjacent(g: Grid, x: nat, y: nat): (r: seq<bool>)
    requires Valid(g)
    ensures |r| <= 8
  {
    Values(g, NeighbourCells(g, x, y, Offsets))
  }

  function TrueCount(bs: seq<bool>): nat
  {
    if |bs| == 0 then 0 else (if bs[0] then 1 else 0) + TrueCount(bs[1..])
  }

  /** `Grid::is_accessible`: fewer than four neighbouring rolls. */
  predicate Accessible(g: Grid, x: nat, y: nat)
    requires Valid(g)
  {
    TrueCount(Adjacent(g, x, y)) < 4
  }

  /** A grid cell other than `(x, y)` at most one step away in each axis. */
  predicate IsNeighbour(g: Grid, x: nat, y: nat, c: (nat, nat))
  {
    c.0 < g.width && c.1 < g.height && c != (x, y) && -1 <= c.0 - x <= 1 && -1 <= c.1 - y <= 1
  }

  /** The neighbouring cells holding a roll. */
  ghost function NeighbourRolls(g: Grid, x: nat, y: nat): set<(nat, nat)>
    requires Valid(g)
  {
    set nx: nat, ny: nat | ny < g.height && nx < g.width && IsNeighbour(g, x, y, (nx, ny)) && Get(g, nx, ny) :: (nx, ny)
  }

  lemma {:induction false} NeighbourCellsMember(g: Grid, x: nat, y: nat, offsets: seq<(int, int)>, c: (nat, nat))
    ensures c in NeighbourCells(g, x, y, offsets) <==> c.0 < g.width && c.1 < g.height && (c.0 - x, c.1 - y) in offsets
  {
    if |offsets| > 0 {
      NeighbourCellsMember(g, x, y, offsets[1..], c);
      assert offsets == [offsets[0]] + offsets[1..];
    }
  }

  lemma {:induction false} NeighbourCellsDistinct(g: Grid, x: nat, y: nat, offsets: seq<(int, int)>)
    requires forall i, j :: 0 <= i < j < |offsets| ==> offsets[i] != offsets[j]
    ensures var cs := NeighbourCells(g, x, y, offsets);
      forall i, j :: 0 <= i < j < |cs| ==> cs[i] != cs[j]
  {
    if |offsets| > 0 {
      var rest := offsets[1..];
      NeighbourCellsDistinct(g, x, y, rest);
      var cs := NeighbourCells(g, x, y, offsets);
      var nx := x + offsets[0].0;
      var ny := y + offsets[0].1;
      if 0 <= nx < g.width && 0 <= ny < g.height {
        var c := (nx as nat, ny as nat);
        var tail := NeighbourCells(g, x, y, rest);
        NeighbourCellsMember(g, x, y, rest, c);
        assert offsets[0] !in rest;
        assert c !in tail;
        assert cs == [c] + tail;
        forall i, j | 0 <= i < j < |cs| ensures cs[i] != cs[j] {
          assert cs[j] == tail[j - 1];
          if i > 0 {
            assert cs[i] == tail[i - 1];
          }
        }
      } else {
        assert cs == NeighbourCells(g, x, y, rest);
      }
    }
  }

  /** The offsets are exactly the eight non-zero steps of at most one in each axis. */
  lemma OffsetsExact(d: (int, int))
    ensures d in Offsets <==> d != (0, 0) && -1 <= d.0 <= 1 && -1 <= d.1 <= 1
  {
  }

  /**
   * `get_adjacent` visits each in-bounds neighbour exactly once: the
   * visited cells are the neighbours, with no repeats, so there are at
   * most eight.
   */
  lemma NeighbourCellsExact(g: Grid, x: nat, y: nat)
    ensures forall c :: c in NeighbourCells(g, x, y, Offsets) <==> IsNeighbour(g, x, y, c)
    ensures forall i, j :: 0 <= i < j < |NeighbourCells(g, x, y, Offsets)| ==>
      NeighbourCells(g, x, y, Offsets)[i] != NeighbourCells(g, x, y, Offsets)[j]
  {
    forall c: (nat, nat) ensures c in NeighbourCells(g, x, y, Offsets) <==> IsNeighbour(g, x, y, c) {
      NeighbourCellsMember(g, x, y, Offsets, c);
      OffsetsExact((c.0 - x, c.1 - y));
    }
    NeighbourCellsDistinct(g, x, y, Offsets);
  }

  /** Counting the `true` values of distinct cells counts the rolls among them. */
  lemma {:induction false} TrueCountValues(g: Grid, cs: seq<(nat, nat)>)
    requires Valid(g)
    requires forall i :: 0 <= i < |cs| ==> cs[i].0 < g.width && cs[i].1 < g.height
    requires forall i, j :: 0 <= i < j < |cs| ==> cs[i] != cs[j]
    ensures TrueCount(Values(g, cs)) == |set c | c in cs && Get(g, c.0, c.1)|
  {
    if |cs| > 0 {
      var rest := cs[1..];
      TrueCountValues(g, rest);
      assert Values(g, cs)[1..] == Values(g, rest);
      var all := set c | c in cs && Get(g, c.0, c.1);
      var tail := set c | c in rest && Get(g, c.0, c.1);
      assert cs[0] !in rest;
      if Get(g, cs[0].0, cs[0].1) {
        assert all == tail + {cs[0]};
      } else {
        assert all == tail;
      }
    }
  }

  /** `is_accessible` holds exactly when fewer than four neighbouring cells hold a roll. */
  lemma AccessibleIffFewNeighbourRolls(g: Grid, x: nat, y: nat)
    requires Valid(g)
    ensures Accessible(g, x, y) <==> |NeighbourRolls(g, x, y)| < 4
  {
    var cs := NeighbourCells(g, x, y, Offsets);
    NeighbourCellsExact(g, x, y);
    TrueCountValues(g, cs);
    var listed := set c | c in cs && Get(g, c.0, c.1);
    assert listed == NeighbourRolls(g, x, y);
  }

  // ---------------------------------------------------------------------
  // Counting and removing
  // ---------------------------------------------------------------------

  /** Some roll is accessible. */
  ghost predicate HasAccessible(g: Grid)
    requires Valid(g)
  {
    exists x: nat, y: nat :: y < g.height && x < g.width && Get(g, x, y) && Accessible(g, x, y)
  }

  /** The accessible rolls. */
  ghost function AccessibleRolls(g: Grid): set<(nat, nat)>
    requires Valid(g)
  {
    set x: nat, y: nat | y < g.height && x < g.width && Get(g, x, y) && Accessible(g, x, y) :: (x, y)
  }

  lemma HasAccessibleIff(g: Grid)
    requires Valid(g)
    ensures HasAccessible(g) <==> AccessibleRolls(g) != {}
  {
    if HasAccessible(g) {
      var x: nat, y: nat :| y < g.height && x < g.width && Get(g, x, y) && Accessible(g, x, y);
      assert (x, y) in AccessibleRolls(g);
    }
    if AccessibleRolls(g) != {} {
      var c :| c in AccessibleRolls(g);
      assert c.1 < g.height && c.0 < g.width && Get(g, c.0, c.1) && Accessible(g, c.0, c.1);
    }
  }

  /** The row-major scan reaches `(x, y)` after cell `c`. */
  predicate ScannedBefore(c: (nat, nat), x: nat, y: nat)
  {
    c.1 < y || (c.1 == y && c.0 < x)
  }

  /** The accessible rolls the row-major scan has passed before reaching `(x, y)`. */
  ghost function AccessibleBefore(g: Grid, x: nat, y: nat): set<(nat, nat)>
    requires Valid(g)
  {
    set c | c in AccessibleRolls(g) && ScannedBefore(c, x, y)
  }

  /** Passing one more cell adds it to the accessible rolls passed exactly when it is one. */
  lemma AccessibleBeforeNext(g: Grid, x: nat, y: nat)
    requires Valid(g) && y < g.height && x < g.width
    ensures Get(g, x, y) && Accessible(g, x, y) ==> |AccessibleBefore(g, x + 1, y)| == |AccessibleBefore(g, x, y)| + 1
    ensures !(Get(g, x, y) && Accessible(g, x, y)) ==> AccessibleBefore(g, x + 1, y) == AccessibleBefore(g, x, y)
    ensures AccessibleBefore(g, x + 1, y) <= AccessibleBefore(g, x, y) + {(x, y)}
  {
    var before := AccessibleBefore(g, x, y);
    var after := AccessibleBefore(g, x + 1, y);
    forall c | c in after ensures c in before + {(x, y)} {
      assert ScannedBefore(c, x, y) || c == (x, y);
    }
    assert before <= after;
    assert (x, y) !in before;
    if Get(g, x, y) && Accessible(g, x, y) {
      assert (x, y) in AccessibleRolls(g);
      assert after == before + {(x, y)};
    } else {
      assert (x, y) !in after;
    }
  }

  /**
   * `Grid::get_accessible_count`: the number of accessible rolls. The
   * grid is passed by value, so it is unchanged.
   */
  method GetAccessibleCount(g: Grid) returns (count: nat)
    requires Valid(g)
    ensures count == |AccessibleRolls(g)|
    ensures count == 0 <==> !HasAccessible(g)
  {
    count := 0;
    var y := 0;
    while y < g.height
      invariant 0 <= y <= g.height
      invariant count == |AccessibleBefore(g, 0, y)|
    {
      var x := 0;
      while x < g.width
        invariant 0 <= x <= g.width
        invariant count == |AccessibleBefore(g, x, y)|
      {
        AccessibleBeforeNext(g, x, y);
        if Get(g, x, y) && Accessible(g, x, y) {
          count := count + 1;
        }
        x := x + 1;
      }
      assert AccessibleBefore(g, g.width, y) == AccessibleBefore(g, 0, y + 1);
      y := y + 1;
    }
    assert AccessibleBefore(g, 0, g.height) == AccessibleRolls(g);
    HasAccessibleIff(g);
  }

  /** The same shape: equal width, height and row lengths. */
  predicate SameShape(a: Grid, b: Grid)
  {
    Valid(a) && Valid(b) && a.width == b.width && a.height == b.height
  }

  /**
   * Accessibility only improves as rolls disappear: with fewer rolls around
   * a cell, fewer of its neighbours hold one.
   */
  lemma AccessibleShrinks(a: Grid, b: Grid, x: nat, y: nat)
    requires SameShape(a, b) && Rolls(a) <= Rolls(b)
    ensures Accessible(b, x, y) ==> Accessible(a, x, y)
  {
    AccessibleIffFewNeighbourRolls(a, x, y);
    AccessibleIffFewNeighbourRolls(b, x, y);
    NeighbourRollsShrink(a, b, x, y);
    var na := NeighbourRolls(a, x, y);
    var nb := NeighbourRolls(b, x, y);
    assert nb == na + (nb - na);
  }

  lemma NeighbourRollsShrink(a: Grid, b: Grid, x: nat, y: nat)
    requires SameShape(a, b) && Rolls(a) <= Rolls(b)
    ensures NeighbourRolls(a, x, y) <= NeighbourRolls(b, x, y)
  {
    forall c | c in NeighbourRolls(a, x, y) ensures c in NeighbourRolls(b, x, y) {
      assert c in Rolls(a);
    }
  }

  /**
   * A grid of `g`'s shape, holding only rolls of `g`, in which no roll is
   * accessible: removal passes started from `g` can never take one of its
   * rolls.
   */
  ghost predicate StableWithin(g: Grid, k: Grid)
  {
    SameShape(g, k) && Rolls(k) <= Rolls(g) && !HasAccessible(k)
  }

  /** A roll of `k` that is accessible in a grid with more rolls is accessible in `k`. */
  lemma AccessibleRollInSmaller(k: Grid, r: Grid, x: nat, y: nat)
    requires SameShape(k, r) && Rolls(k) <= Rolls(r)
    requires (x, y) in Rolls(k) && Accessible(r, x, y)
    ensures HasAccessible(k)
  {
    AccessibleShrinks(k, r, x, y);
    assert y < k.height && x < k.width && Get(k, x, y) && Accessible(k, x, y);
  }

  /** Removing an accessible roll keeps every stable grid below the one left. */
  lemma StableKept(g: Grid, r: Grid, x: nat, y: nat)
    requires SameShape(g, r) && y < r.height && x < r.width && Accessible(r, x, y)
    requires forall k :: StableWithin(g, k) ==> Rolls(k) <= Rolls(r)
    ensures forall k :: StableWithin(g, k) ==> Rolls(k) <= Rolls(Remove(r, x, y))
  {
    var r' := Remove(r, x, y);
    if Get(r, x, y) {
      RemoveRoll(r, x, y);
    } else {
      assert Rolls(r') == Rolls(r) by {
        forall c | c in Rolls(r') ensures c in Rolls(r) {
          assert r.cells[c.1][c.0];
        }
        forall c | c in Rolls(r) ensures c in Rolls(r') {
          assert r'.cells[c.1][c.0];
        }
      }
    }
    forall k | StableWithin(g, k) ensures Rolls(k) <= Rolls(r') {
      if (x, y) in Rolls(k) {
        AccessibleRollInSmaller(k, r, x, y);
        assert false;
      }
    }
  }

  /** The rolls of `g` gone from `r`. */
  ghost function Removed(g: Grid, r: Grid): set<(nat, nat)>
  {
    Rolls(g) - Rolls(r)
  }

  /**
   * Where a removal pass stands before cell `(x, y)` of the scan over the
   * starting grid `g`: `r` is the grid so far and `removed` counts the
   * rolls taken out of it (`PassCount`), the rolls gone are tracked cell by
   * cell (`PassGone`), and no stable grid within `g` has lost a roll
   * (`PassStable`).
   */
  ghost predicate PassState(g: Grid, r: Grid, removed: nat, x: nat, y: nat)
    requires Valid(g)
  {
    PassCount(g, r, removed, x, y) && PassGone(g, r, x, y) && PassStable(g, r)
  }

  /** Only rolls go, `removed` counts them, and nothing goes while no accessible roll of `g` has been passed. */
  ghost predicate PassCount(g: Grid, r: Grid, removed: nat, x: nat, y: nat)
    requires Valid(g)
  {
    && Valid(r) && r.width == g.width && r.height == g.height
    && Rolls(r) <= Rolls(g)
    && removed + |Rolls(r)| == |Rolls(g)|
    && (removed == 0 ==> r == g && AccessibleBefore(g, x, y) == {})
    && (removed > 0 ==> HasAccessible(g))
  }

  /**
   * Only cells already scanned are gone, each is accessible in `r`, and
   * every roll of `g` accessible from the start that has been scanned is
   * gone.
   */
  ghost predicate PassGone(g: Grid, r: Grid, x: nat, y: nat)
    requires Valid(g) && Valid(r)
  {
    && (forall c :: c in Removed(g, r) ==> ScannedBefore(c, x, y) && Accessible(r, c.0, c.1))
    && AccessibleBefore(g, x, y) <= Removed(g, r)
  }

  /** Every stable grid within `g` keeps its rolls in `r`. */
  ghost predicate PassStable(g: Grid, r: Grid)
  {
    forall k :: StableWithin(g, k) ==> Rolls(k) <= Rolls(r)
  }

  /** The scan finds each roll accessible in `g` still there and still accessible. */
  lemma ScanReaches(g: Grid, r: Grid, removed: nat, x: nat, y: nat)
    requires Valid(g) && y < g.height && x < g.width
    requires PassState(g, r, removed, x, y)
    ensures Get(g, x, y) && Accessible(g, x, y) ==> Get(r, x, y) && Accessible(r, x, y)
  {
    if Get(g, x, y) {
      assert (x, y) in Rolls(g);
      assert !ScannedBefore((x, y), x, y);
      assert (x, y) in Rolls(r);
      AccessibleShrinks(r, g, x, y);
    }
  }

  lemma SubsetStep<T>(a: set<T>, b: set<T>, c: set<T>, e: T)
    requires a <= b + {e} && b <= c
    ensures a <= c + {e}
  {
  }

  /** Removing the roll at `(x, y)` keeps the count. */
  lemma CountRemoveStep(g: Grid, r: Grid, removed: nat, x: nat, y: nat)
    requires Valid(g) && y < g.height && x < g.width
    requires PassCount(g, r, removed, x, y)
    requires Get(r, x, y) && Accessible(r, x, y)
    ensures PassCount(g, Remove(r, x, y), removed + 1, x + 1, y)
  {
    RemoveRoll(r, x, y);
    if removed == 0 {
      assert Get(g, x, y) && Accessible(g, x, y);
    }
  }

  /** After removing the roll at `(x, y)`, every roll gone so far, that one included, is accessible. */
  lemma GoneAccessibleStep(g: Grid, r: Grid, x: nat, y: nat)
    requires SameShape(g, r) && Rolls(r) <= Rolls(g) && y < g.height && x < g.width
    requires forall c :: c in Removed(g, r) ==> ScannedBefore(c, x, y) && Accessible(r, c.0, c.1)
    requires Get(r, x, y) && Accessible(r, x, y)
    ensures forall c :: c in Removed(g, Remove(r, x, y)) ==> ScannedBefore(c, x + 1, y) && Accessible(Remove(r, x, y), c.0, c.1)
  {
    var r' := Remove(r, x, y);
    RemoveRoll(r, x, y);
    forall c | c in Removed(g, r') ensures ScannedBefore(c, x + 1, y) && Accessible(r', c.0, c.1) {
      assert c == (x, y) || c in Removed(g, r);
      AccessibleShrinks(r', r, c.0, c.1);
    }
  }

  /** After removing the roll at `(x, y)`, every scanned roll accessible from the start is gone. */
  lemma GoneScanStep(g: Grid, r: Grid, x: nat, y: nat)
    requires SameShape(g, r) && y < g.height && x < g.width
    requires AccessibleBefore(g, x, y) <= Removed(g, r)
    requires Get(r, x, y)
    ensures AccessibleBefore(g, x + 1, y) <= Removed(g, Remove(r, x, y))
  {
    AccessibleBeforeNext(g, x, y);
    RemoveRoll(r, x, y);
    assert Removed(g, r) <= Removed(g, Remove(r, x, y));
    SubsetStep(AccessibleBefore(g, x + 1, y), AccessibleBefore(g, x, y), Removed(g, r), (x, y));
  }

  /** Removing the roll at `(x, y)` keeps the cell-by-cell record. */
  lemma GoneRemoveStep(g: Grid, r: Grid, x: nat, y: nat)
    requires SameShape(g, r) && y < g.height && x < g.width
    requires PassGone(g, r, x, y) && Rolls(r) <= Rolls(g)
    requires Get(r, x, y) && Accessible(r, x, y)
    ensures PassGone(g, Remove(r, x, y), x + 1, y)
  {
    GoneAccessibleStep(g, r, x, y);
    GoneScanStep(g, r, x, y);
  }

  /** The inner loop's body when the roll at `(x, y)` is removed. */
  lemma PassRemoveStep(g: Grid, r: Grid, removed: nat, x: nat, y: nat)
    requires Valid(g) && y < g.height && x < g.width
    requires PassState(g, r, removed, x, y)
    requires Get(r, x, y) && Accessible(r, x, y)
    ensures PassState(g, Remove(r, x, y), removed + 1, x + 1, y)
  {
    CountRemoveStep(g, r, removed, x, y);
    GoneRemoveStep(g, r, x, y);
    StableKept(g, r, x, y);
  }

  /** The inner loop's body when the cell at `(x, y)` stays. */
  lemma PassKeepStep(g: Grid, r: Grid, removed: nat, x: nat, y: nat)
    requires Valid(g) && y < g.height && x < g.width
    requires PassState(g, r, removed, x, y)
    requires !(Get(r, x, y) && Accessible(r, x, y))
    ensures PassState(g, r, removed, x + 1, y)
  {
    ScanReaches(g, r, removed, x, y);
    AccessibleBeforeNext(g, x, y);
  }

  /** Finishing a row starts the next one. */
  lemma PassNextRow(g: Grid, r: Grid, removed: nat, y: nat)
    requires Valid(g) && PassState(g, r, removed, g.width, y)
    ensures PassState(g, r, removed, 0, y + 1)
  {
    assert AccessibleBefore(g, g.width, y) == AccessibleBefore(g, 0, y + 1);
    forall c | c in Removed(g, r) ensures ScannedBefore(c, 0, y + 1) {
      assert c in Rolls(g);
    }
  }

  /** A finished pass removed every roll accessible at the start, and nothing exactly when there was none. */
  lemma PassDone(g: Grid, r: Grid, removed: nat)
    requires Valid(g) && PassState(g, r, removed, 0, g.height)
    ensures removed == 0 <==> !HasAccessible(g)
    ensures AccessibleRolls(g) <= Removed(g, r)
  {
    assert AccessibleBefore(g, 0, g.height) == AccessibleRolls(g);
    HasAccessibleIff(g);
  }

  /**
   * The body of `remove_accessible`'s inner loop: the roll at `(x, y)`, if
   * accessible now, is removed and counted.
   */
  function ScanCell(g: Grid, r: Grid, removed: nat, x: nat, y: nat): (res: (Grid, nat))
    requires Valid(g) && y < g.height && x < g.width
    requires PassState(g, r, removed, x, y)
    ensures PassState(g, res.0, res.1, x + 1, y)
  {
    if Get(r, x, y) && Accessible(r, x, y) then
      PassRemoveStep(g, r, removed, x, y);
      (Remove(r, x, y), removed + 1)
    else
      PassKeepStep(g, r, removed, x, y);
      (r, removed)
  }

  /** The inner loop of `remove_accessible`: one row, left to right. */
  method RemoveInRow(g: Grid, r: Grid, removed: nat, y: nat) returns (r': Grid, removed': nat)
    requires Valid(g) && y < g.height
    requires PassState(g, r, removed, 0, y)
    ensures PassState(g, r', removed', 0, y + 1)
  {
    r', removed' := r, removed;
    var x := 0;
    while x < g.width
      invariant 0 <= x <= g.width
      invariant PassState(g, r', removed', x, y)
    {
      var cell := ScanCell(g, r', removed', x, y);
      r', removed' := cell.0, cell.1;
      x := x + 1;
    }
    PassNextRow(g, r', removed', y);
  }

  /**
   * `Grid::remove_accessible`: one row-major pass that removes each roll
   * accessible at the moment the scan reaches it. Only rolls disappear and
   * the count is how many did. Every roll accessible at the start goes, a
   * removal only frees the rolls around it, so every roll that went is
   * accessible in the grid left, and no stable grid within the start loses
   * a roll. The pass removes nothing exactly when no roll was accessible.
   */
  method RemoveAccessible(g: Grid) returns (r: Grid, removed: nat)
    requires Valid(g)
    ensures SameShape(g, r)
    ensures Rolls(r) <= Rolls(g)
    ensures removed == |Rolls(g)| - |Rolls(r)|
    ensures removed == 0 <==> !HasAccessible(g)
    ensures AccessibleRolls(g) <= Rolls(g) - Rolls(r)
    ensures forall c :: c in Rolls(g) - Rolls(r) ==> Accessible(r, c.0, c.1)
    ensures forall k :: StableWithin(g, k) ==> Rolls(k) <= Rolls(r)
  {
    r := g;
    removed := 0;
    var y := 0;
    while y < g.height
      invariant 0 <= y <= g.height
      invariant PassState(g, r, removed, 0, y)
    {
      r, removed := RemoveInRow(g, r, removed, y);
      y := y + 1;
    }
    PassDone(g, r, removed);
  }

  /**
   * `Grid::remove_all`: passes until one removes nothing. Each earlier
   * pass removes at least one roll, so the loop ends; the total is the
   * number of rolls that went. What is left is the largest stable grid
   * within the start: no roll left is accessible, and every grid of the
   * same shape, holding only starting rolls, with no accessible roll, keeps
   * all its rolls in it.
   */
  method RemoveAll(g: Grid) returns (r: Grid, total: nat)
    requires Valid(g)
    ensures SameShape(g, r)
    ensures Rolls(r) <= Rolls(g)
    ensures total == |Rolls(g)| - |Rolls(r)|
    ensures !HasAccessible(r)
    ensures forall k :: StableWithin(g, k) ==> Rolls(k) <= Rolls(r)
  {
    r := g;
    total := 0;
    while true
      invariant SameShape(g, r)
      invariant Rolls(r) <= Rolls(g)
      invariant total + |Rolls(r)| == |Rolls(g)|
      invariant forall k :: StableWithin(g, k) ==> Rolls(k) <= Rolls(r)
      decreases |Rolls(r)|
    {
      var next, removed := RemoveAccessible(r);
      StableNarrows(g, r, next);
      total := total + removed;
      if removed == 0 {
        return;
      }
      r := next;
    }
  }

  /** A pass from `r` that keeps every stable grid within `r` keeps every one within `g` too. */
  lemma StableNarrows(g: Grid, r: Grid, next: Grid)
    requires SameShape(g, r) && Rolls(r) <= Rolls(g)
    requires forall k :: StableWithin(g, k) ==> Rolls(k) <= Rolls(r)
    requires forall k :: StableWithin(r, k) ==> Rolls(k) <= Rolls(next)
    ensures forall k :: StableWithin(g, k) ==> Rolls(k) <= Rolls(next)
  {
    forall k | StableWithin(g, k) ensures Rolls(k) <= Rolls(next) {
      assert StableWithin(r, k);
    }
  }
}
