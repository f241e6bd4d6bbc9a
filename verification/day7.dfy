/**
 * Day 7: a tachyon manifold. The grid is a sparse map from `(x, y)` to an
 * element. Beams start at `S` and move down one row per round; a beam
 * landing on a splitter `^` continues from the cells left and right of
 * it, and beams meeting in one cell add their multiplicities. A beam whose
 * next cell is outside the grid ends one timeline.
 */
module Day7 {
  import opened Base

  datatype Element = Start | Splitter | Beam | Empty

  /** `Element::parse_from_char`. */
  function ParseFromChar(chr: char): (r: Option<Element>)
    ensures r.Some? <==> chr in "S^|."
  {
    match chr
    case 'S' => Some(Start)
    case '^' => Some(Splitter)
    case '|' => Some(Beam)
    case '.' => Some(Empty)
    case _ => None
  }

  /** `Element::to_char`. */
  function ToChar(e: Element): char
  {
    match e
    case Start => 'S'
    case Splitter => '^'
    case Beam => '|'
    case Empty => '.'
  }

  /** The two directions of the codec: every element reads back, and a read character is the element's own. */
  lemma CharRoundTrip(e: Element, c: char)
    ensures ParseFromChar(ToChar(e)) == Some(e)
    ensures ParseFromChar(c) == Some(e) ==> ToChar(e) == c
  {
  }

  type Coord = (int, int)

  datatype Grid = Grid(data: map<Coord, Element>, width: nat, height: nat)

  /** The largest value of a set, or 0 for none (`max().unwrap_or(0)`). */
  function MaxOr0(s: set<int>): (m: int)
    ensures s == {} ==> m == 0
    ensures s != {} ==> m in s && forall v :: v in s ==> v <= m
  {
    if s == {} then 0
    else
      MaxExists(s);
      var m :| m in s && forall v :: v in s ==> v <= m;
      m
  }

  lemma {:induction false} MaxExists(s: set<int>)
    requires s != {}
    ensures exists m :: m in s && forall v :: v in s ==> v <= m
    decreases |s|
  {
    assert (forall v :: v !in s) ==> s == {};
    var x :| x in s;
    if s != {x} {
      MaxExists(s - {x});
      var m :| m in s - {x} && forall v :: v in s - {x} ==> v <= m;
      var top := if x >= m then x else m;
      forall v | v in s ensures v <= top {
        if v != x {
          assert v in s - {x};
        }
      }
      assert top in s;
    }
  }

  /** The x values of the keys. */
  function Xs(data: map<Coord, Element>): (r: set<int>)
    ensures forall c :: c in data ==> c.0 in r
    ensures data != map[] ==> r != {}
    ensures (forall c :: c in data ==> c.0 >= 0) ==> forall v :: v in r ==> v >= 0
  {
    var r := set c | c in data :: c.0;
    NonEmptyMap(data);
    r
  }

  /** The y values of the keys. */
  function Ys(data: map<Coord, Element>): (r: set<int>)
    ensures forall c :: c in data ==> c.1 in r
    ensures data != map[] ==> r != {}
    ensures (forall c :: c in data ==> c.1 >= 0) ==> forall v :: v in r ==> v >= 0
  {
    var r := set c | c in data :: c.1;
    NonEmptyMap(data);
    r
  }

  lemma NonEmptyMap(data: map<Coord, Element>)
    ensures data != map[] ==> exists c :: c in data
  {
    assert (forall c :: c !in data) ==> data == map[];
  }

  /**
   * `Grid::new`: one more than the largest x and y among the keys, so an
   * empty map gives a 1 by 1 grid. The `as usize` of a negative maximum is
   * left out: the keys come from the input's row and column indices.
   */
  function New(data: map<Coord, Element>): (r: Grid)
    requires forall c :: c in data ==> c.0 >= 0 && c.1 >= 0
    ensures r.data == data
    ensures data == map[] ==> r.width == 1 && r.height == 1
    ensures forall c :: c in data ==> c.0 < r.width && c.1 < r.height
    ensures data != map[] ==> r.width - 1 in Xs(data) && r.height - 1 in Ys(data)
  {
    var mx := MaxOr0(Xs(data));
    var my := MaxOr0(Ys(data));
    Grid(data, mx + 1, my + 1)
  }

  /** `Grid::get`. */
  function Get(g: Grid, c: Coord): (r: Option<Element>)
    ensures r.Some? <==> c in g.data
    ensures r.Some? ==> r.value == g.data[c]
  {
    if c in g.data then Some(g.data[c]) else None
  }

  /** `Grid::change`: only an existing cell is overwritten. */
  function Change(g: Grid, c: Coord, e: Element): (r: Grid)
    ensures r.data.Keys == g.data.Keys && r.width == g.width && r.height == g.height
    ensures c in g.data ==> r.data[c] == e
    ensures forall d :: d in g.data && d != c ==> r.data[d] == g.data[d]
  {
    if c in g.data then g.(data := g.data[c := e]) else g
  }

  /** Every cell of the `width` by `height` rectangle is a key. */
  predicate Rectangular(g: Grid)
  {
    forall x: int, y: int :: 0 <= x < g.width && 0 <= y < g.height ==> (x, y) in g.data
  }

  /** `Grid::is_valid`: row by row, stopping at the first missing cell. */
  method IsValid(g: Grid) returns (ok: bool)
    ensures ok <==> Rectangular(g)
  {
    var y := 0;
    while y < g.height
      invariant 0 <= y <= g.height
      invariant forall cx: int, cy: int :: 0 <= cx < g.width && 0 <= cy < y ==> (cx, cy) in g.data
    {
      var x := 0;
      while x < g.width
        invariant 0 <= x <= g.width
        invariant forall cx: int, cy: int :: 0 <= cx < g.width && 0 <= cy < y ==> (cx, cy) in g.data
        invariant forall cx: int :: 0 <= cx < x ==> (cx, y) in g.data
      {
        if Get(g, (x, y)).None? {
          return false;
        }
        x := x + 1;
      }
      y := y + 1;
    }
    return true;
  }

  // ---------------------------------------------------------------------
  // Beams
  // ---------------------------------------------------------------------

  /** `entry(c).and_modify(|e| *e += k).or_insert(k)`. */
  function AddBeam(m: map<Coord, nat>, c: Coord, k: nat): (r: map<Coord, nat>)
    ensures r.Keys == m.Keys + {c}
    ensures r[c] == (if c in m then m[c] else 0) + k
    ensures forall d :: d in m && d != c ==> r[d] == m[d]
  {
    if c in m then m[c := m[c] + k] else m[c := k]
  }

  /** The sum of all multiplicities. */
  ghost function Total(m: map<Coord, nat>): nat
    decreases |m.Keys|
  {
    if m == map[] then 0
    else
      var k :| k in m;
      m[k] + Total(m - {k})
  }

  /** Any key can be taken out first. */
  lemma {:induction false} TotalRemove(m: map<Coord, nat>, k: Coord)
    requires k in m
    ensures Total(m) == m[k] + Total(m - {k})
    decreases |m.Keys|
  {
    var j :| j in m && Total(m) == m[j] + Total(m - {j});
    if j != k {
      TotalRemove(m - {j}, k);
      TotalRemove(m - {k}, j);
      assert m - {j} - {k} == m - {k} - {j};
    }
  }

  /** Adding to a cell adds to the total. */
  lemma TotalAddBeam(m: map<Coord, nat>, c: Coord, k: nat)
    ensures Total(AddBeam(m, c, k)) == Total(m) + k
  {
    var r := AddBeam(m, c, k);
    TotalRemove(r, c);
    if c in m {
      TotalRemove(m, c);
      assert r - {c} == m - {c};
    } else {
      assert r - {c} == m;
    }
  }

  /** The state a round of the beam loop carries. */
  datatype RoundState = RoundState(grid: Grid, next: map<Coord, nat>, splitCount: nat, timelineCount: nat)

  function Down(c: Coord): Coord
  {
    (c.0, c.1 + 1)
  }

  /** `after` holds the beams of `before`, with `k` more on each cell of `targets`. */
  predicate Passed(before: map<Coord, nat>, after: map<Coord, nat>, targets: set<Coord>, k: nat)
  {
    && after.Keys == before.Keys + targets
    && forall d :: d in after ==>
         after[d] == (if d in before then before[d] else 0) + (if d in targets then k else 0)
  }

  /** `after` is `before` with the existing cells of `drawn` set to `Beam`. */
  predicate Painted(before: Grid, after: Grid, drawn: set<Coord>)
  {
    && after.data.Keys == before.data.Keys && after.width == before.width && after.height == before.height
    && forall d :: d in before.data ==> after.data[d] == if d in drawn then Beam else before.data[d]
  }

  lemma AddBeamPasses(m: map<Coord, nat>, c: Coord, k: nat)
    ensures Passed(m, AddBeam(m, c, k), {c}, k)
  {
  }

  lemma AddBeamTwicePasses(m: map<Coord, nat>, a: Coord, b: Coord, k: nat)
    requires a != b
    ensures Passed(m, AddBeam(AddBeam(m, a, k), b, k), {a, b}, k)
  {
    var m1 := AddBeam(m, a, k);
    var m2 := AddBeam(m1, b, k);
    forall d | d in m2
      ensures m2[d] == (if d in m then m[d] else 0) + (if d in {a, b} then k else 0)
    {
      if d != b && d != a {
        assert m2[d] == m1[d] == m[d];
      }
    }
  }

  lemma ChangePaints(g: Grid, c: Coord)
    ensures Painted(g, Change(g, c, Beam), {c})
  {
  }

  lemma ChangeTwicePaints(g: Grid, a: Coord, b: Coord)
    ensures Painted(g, Change(Change(g, a, Beam), b, Beam), {a, b})
  {
  }

  /** The cells either side of a splitter at `c`. */
  function Beside(c: Coord): set<Coord>
  {
    {(c.0 - 1, c.1), (c.0 + 1, c.1)}
  }

  /**
   * Where a beam goes on after looking at cell `down` holding `hit`:
   * nowhere when `down` is off the grid, to both sides of a splitter,
   * otherwise into `down` itself.
   */
  function Targets(hit: Option<Element>, down: Coord): set<Coord>
  {
    match hit
    case None => {}
    case Some(Splitter) => Beside(down)
    case Some(_) => {down}
  }

  /** The cells a step draws a beam into: an empty `down`, or both sides of a splitter. */
  function Drawn(hit: Option<Element>, down: Coord): set<Coord>
  {
    match hit
    case Some(Empty) => {down}
    case Some(Splitter) => Beside(down)
    case _ => {}
  }

  /**
   * The body of `for beam in beams`: the beam at `c` with multiplicity `k`
   * looks at the cell below. `None` is the panic on hitting `S`. Otherwise
   * every target cell gains `k` in the next round, every other beam of the
   * next round keeps its multiplicity, the drawn cells that exist become
   * `Beam`, and every other cell keeps its element.
   */
  function BeamStep(st: RoundState, c: Coord, k: nat): (r: Option<RoundState>)
    ensures r.None? <==> Get(st.grid, Down(c)) == Some(Start)
    ensures r.Some? ==> r.value.grid.data.Keys == st.grid.data.Keys
    ensures r.Some? ==> forall d :: d in r.value.next && d !in st.next ==> d.1 == c.1 + 1
    ensures r.Some? ==> Passed(st.next, r.value.next, Targets(Get(st.grid, Down(c)), Down(c)), k)
    ensures r.Some? ==> Painted(st.grid, r.value.grid, Drawn(Get(st.grid, Down(c)), Down(c)))
  {
    var down := Down(c);
    match Get(st.grid, down)
    case None => Some(st.(timelineCount := st.timelineCount + k))
    case Some(Empty) =>
      AddBeamPasses(st.next, down, k);
      ChangePaints(st.grid, down);
      Some(st.(grid := Change(st.grid, down, Beam), next := AddBeam(st.next, down, k)))
    case Some(Splitter) => Some(SplitAt(st, down, k))
    case Some(Beam) =>
      AddBeamPasses(st.next, down, k);
      Some(st.(next := AddBeam(st.next, down, k)))
    case Some(Start) => None
  }

  /** A beam of multiplicity `k` meeting the splitter at `down`: both sides get a beam and the split is counted. */
  function SplitAt(st: RoundState, down: Coord, k: nat): (r: RoundState)
    ensures Passed(st.next, r.next, Beside(down), k)
    ensures Painted(st.grid, r.grid, Beside(down))
    ensures r.splitCount == st.splitCount + 1 && r.timelineCount == st.timelineCount
    ensures Total(r.next) == Total(st.next) + 2 * k
  {
    var left := (down.0 - 1, down.1);
    var right := (down.0 + 1, down.1);
    AddBeamTwicePasses(st.next, left, right, k);
    ChangeTwicePaints(st.grid, left, right);
    TotalAddBeam(st.next, left, k);
    TotalAddBeam(AddBeam(st.next, left, k), right, k);
    RoundState(
      Change(Change(st.grid, left, Beam), right, Beam),
      AddBeam(AddBeam(st.next, left, k), right, k),
      st.splitCount + 1,
      st.timelineCount)
  }

  /**
   * What a step does to the counts: a beam leaving the grid ends `k`
   * timelines; any other beam carries `k` on, twice over at a splitter,
   * which is the only case that counts a split.
   */
  lemma BeamStepCounts(st: RoundState, c: Coord, k: nat)
    requires BeamStep(st, c, k).Some?
    ensures var r := BeamStep(st, c, k).value;
      var hit := Get(st.grid, Down(c));
      && (hit.None? ==> r.timelineCount == st.timelineCount + k && r.next == st.next)
      && (hit.Some? ==> r.timelineCount == st.timelineCount)
      && (r.splitCount == st.splitCount + 1 <==> hit == Some(Splitter))
      && (r.splitCount == st.splitCount <==> hit != Some(Splitter))
      && Total(r.next) + r.timelineCount
         == Total(st.next) + st.timelineCount + (if hit == Some(Splitter) then 2 * k else k)
  {
    var down := Down(c);
    var r := BeamStep(st, c, k).value;
    match Get(st.grid, down)
    case None =>
      assert r == st.(timelineCount := st.timelineCount + k);
    case Some(Empty) =>
      assert r.next == AddBeam(st.next, down, k) && r.splitCount == st.splitCount && r.timelineCount == st.timelineCount;
      TotalAddBeam(st.next, down, k);
    case Some(Beam) =>
      assert r == st.(next := AddBeam(st.next, down, k));
      TotalAddBeam(st.next, down, k);
    case Some(Splitter) =>
      assert r == SplitAt(st, down, k);
  }

  /** A beam landing where another already is adds to its multiplicity. */
  lemma BeamsMerge(st: RoundState, c: Coord, k: nat)
    requires BeamStep(st, c, k).Some?
    requires Get(st.grid, Down(c)) == Some(Empty) || Get(st.grid, Down(c)) == Some(Beam)
    ensures BeamStep(st, c, k).value.next[Down(c)] == (if Down(c) in st.next then st.next[Down(c)] else 0) + k
  {
  }

  /** The beams of a round, in the map's iteration order. */
  function Round(st: RoundState, beams: seq<(Coord, nat)>): (r: Option<RoundState>)
    decreases |beams|
  {
    if |beams| == 0 then Some(st)
    else
      var s := BeamStep(st, beams[0].0, beams[0].1);
      if s.None? then None else Round(s.value, beams[1..])
  }

  function Multiplicities(beams: seq<(Coord, nat)>): nat
  {
    if |beams| == 0 then 0 else beams[0].1 + Multiplicities(beams[1..])
  }

  /**
   * Over a round, the multiplicity is conserved except at splitters: the
   * next round's beams and the ended timelines account for every beam, at
   * least once and at most twice, and all new beams lie one row further down
   * when the round's beams share a row. The grid's keys never change.
   */
  lemma {:induction false} RoundConserves(st: RoundState, beams: seq<(Coord, nat)>, row: int)
    requires Round(st, beams).Some?
    requires forall i :: 0 <= i < |beams| ==> beams[i].0.1 == row
    ensures var r := Round(st, beams).value;
      && r.grid.data.Keys == st.grid.data.Keys
      && Total(st.next) + st.timelineCount + Multiplicities(beams) <= Total(r.next) + r.timelineCount
      && Total(r.next) + r.timelineCount <= Total(st.next) + st.timelineCount + 2 * Multiplicities(beams)
      && r.splitCount - st.splitCount <= |beams|
      && forall d :: d in r.next && d !in st.next ==> d.1 == row + 1
    decreases |beams|
  {
    if |beams| > 0 {
      var s := BeamStep(st, beams[0].0, beams[0].1).value;
      BeamStepCounts(st, beams[0].0, beams[0].1);
      RoundConserves(s, beams[1..], row);
    }
  }

  /**
   * Termination of the beam loop: when no key of the grid lies below row
   * `row`, a round of beams on row `row` passes nothing on.
   */
  lemma {:induction false} LastRowEndsBeams(st: RoundState, beams: seq<(Coord, nat)>, row: int)
    requires Round(st, beams).Some?
    requires forall i :: 0 <= i < |beams| ==> beams[i].0.1 == row
    requires forall c :: c in st.grid.data ==> c.1 <= row
    ensures Round(st, beams).value.next == st.next
    ensures Round(st, beams).value.timelineCount == st.timelineCount + Multiplicities(beams)
    decreases |beams|
  {
    if |beams| > 0 {
      var s := BeamStep(st, beams[0].0, beams[0].1).value;
      assert Down(beams[0].0) !in st.grid.data;
      LastRowEndsBeams(s, beams[1..], row);
    }
  }
}
