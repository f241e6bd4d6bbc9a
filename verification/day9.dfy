/**
 * Day 9: the red tiles form a closed outline of axis-parallel edges.
 * Part 1 is the largest rectangle spanned by two red tiles; part 2 the
 * largest one that no edge of the outline cuts into.
 */
module Day9 {
  import opened Base
  import Point2D

  type Point = Point2D.Point

  /** An edge of the outline, stored with its ends in increasing order. */
  datatype Segment =
    | Vertical(x: int, y1: int, y2: int)
    | Horizontal(y: int, x1: int, x2: int)

  predicate Normalised(s: Segment)
  {
    match s
    case Vertical(_, y1, y2) => y1 <= y2
    case Horizontal(_, x1, x2) => x1 <= x2
  }

  /** The two end points of a segment. */
  function Ends(s: Segment): set<Point>
  {
    match s
    case Vertical(x, y1, y2) => {Point2D.Point(x, y1), Point2D.Point(x, y2)}
    case Horizontal(y, x1, x2) => {Point2D.Point(x1, y), Point2D.Point(x2, y)}
  }

  // ---------------------------------------------------------------------
  // The outline
  // ---------------------------------------------------------------------

  /**
   * One step of the outline from `a` to `b`: vertical when the `x` values
   * agree (tested first, so a repeated point is a vertical edge), else
   * horizontal when the `y` values agree; a diagonal step is the panic.
   */
  function Classify(a: Point, b: Point): (r: Option<Segment>)
    ensures r.Some? <==> a.x == b.x || a.y == b.y
    ensures r.Some? ==> Normalised(r.value) && Ends(r.value) == {a, b}
    ensures r.Some? ==> (r.value.Vertical? <==> a.x == b.x)
  {
    if Min(a.x, b.x) == Max(a.x, b.x) then Some(Vertical(Min(a.x, b.x), Min(a.y, b.y), Max(a.y, b.y)))
    else if Min(a.y, b.y) == Max(a.y, b.y) then Some(Horizontal(Min(a.y, b.y), Min(a.x, b.x), Max(a.x, b.x)))
    else None
  }

  /** The direction an edge is walked in does not matter. */
  lemma ClassifySymmetric(a: Point, b: Point)
    ensures Classify(a, b) == Classify(b, a)
  {
  }

  /** The segments between consecutive points of `path` (`windows(2)`), or `None` at the first diagonal step. */
  function Steps(path: seq<Point>): (r: Option<seq<Segment>>)
    ensures r.Some? <==> forall i :: 0 <= i < |path| - 1 ==> Classify(path[i], path[i + 1]).Some?
    ensures r.Some? ==> |r.value| == Max(|path| - 1, 0)
    ensures r.Some? ==> forall i :: 0 <= i < |r.value| ==> Ends(r.value[i]) == {path[i], path[i + 1]}
  {
    if |path| < 2 then Some([])
    else match Classify(path[0], path[1])
      case None => None
      case Some(s) =>
        match Steps(path[1..])
        case None => None
        case Some(rest) => Some([s] + rest)
  }

  /** The point after `points[i]` on the closed outline. */
  function Next(points: seq<Point>, i: nat): Point
    requires i < |points|
  {
    points[(i + 1) % |points|]
  }

  /**
   * The outline through `points`, closed by stepping from the last point
   * back to the first. No points at all is the out-of-bounds panic.
   */
  function Outline(points: seq<Point>): (r: Option<seq<Segment>>)
    ensures r.Some? <==> |points| > 0 && forall i :: 0 <= i < |points| ==> Classify(points[i], Next(points, i)).Some?
    ensures r.Some? ==> |r.value| == |points|
    ensures r.Some? ==> forall i :: 0 <= i < |points| ==> Ends(r.value[i]) == {points[i], Next(points, i)}
  {
    if |points| == 0 then None
    else
      ClosedIsNext(points);
      Steps(points + [points[0]])
  }

  lemma ClosedIsNext(points: seq<Point>)
    requires |points| > 0
    ensures forall i :: 0 <= i < |points| ==> (points + [points[0]])[i] == points[i]
    ensures forall i :: 0 <= i < |points| ==> (points + [points[0]])[i + 1] == Next(points, i)
  {
    var closed := points + [points[0]];
    forall i | 0 <= i < |points| ensures closed[i + 1] == Next(points, i) {
      if i + 1 < |points| {
        assert (i + 1) % |points| == i + 1;
      } else {
        assert (i + 1) % |points| == 0;
      }
    }
  }

  // ---------------------------------------------------------------------
  // Rectangles
  // ---------------------------------------------------------------------

  /** `(|dx| + 1) * (|dy| + 1)` for the difference `outer - inner`. */
  function Area(a: Point, b: Point): nat
  {
    var d := Point2D.Sub(a, b);
    (Abs(d.y) + 1) * (Abs(d.x) + 1)
  }

  /** Each side of the rectangle fits in its area, and only a single tile has area 1. */
  lemma AreaBounds(a: Point, b: Point)
    ensures Area(a, b) >= Abs(a.x - b.x) + 1 && Area(a, b) >= Abs(a.y - b.y) + 1
    ensures Area(a, b) == 1 <==> a == b
  {
    var height := Abs(a.y - b.y) + 1;
    var width := Abs(a.x - b.x) + 1;
    MulAtLeast(height, width);
    MulAtLeast(width, height);
  }

  lemma AreaSymmetric(a: Point, b: Point)
    ensures Area(a, b) == Area(b, a)
  {
  }

  datatype Rect = Rect(left: int, right: int, top: int, bottom: int)

  /** The borders of the rectangle spanned by `a` and `b`. */
  function Bounds(a: Point, b: Point): (r: Rect)
    ensures r.left <= r.right && r.top <= r.bottom
    ensures Area(a, b) == (r.right - r.left + 1) * (r.bottom - r.top + 1)
  {
    assert Area(a, b) == (Max(a.y, b.y) - Min(a.y, b.y) + 1) * (Max(a.x, b.x) - Min(a.x, b.x) + 1);
    Rect(Min(a.x, b.x), Max(a.x, b.x), Min(a.y, b.y), Max(a.y, b.y))
  }

  // ---------------------------------------------------------------------
  // Crossing tests
  // ---------------------------------------------------------------------

  /** The edge runs along the whole unit step from `u` to `w` on its own line. */
  predicate Covers(lo: int, hi: int, u: int, w: int)
  {
    lo <= u && w <= hi
  }

  /**
   * A horizontal edge cuts the rectangle when it lies strictly between
   * the top and bottom borders and runs across the left border into the
   * inside (`[x1, x2)` holds `left`) or across the right border
   * (`(x1, x2]` holds `right`).
   */
  predicate HorizontalCrosses(h: Segment, r: Rect)
    requires h.Horizontal?
  {
    if h.y <= r.top || r.bottom <= h.y then false
    else if h.x1 <= r.left && r.left < h.x2 then true
    else if h.x1 < r.right && r.right <= h.x2 then true
    else false
  }

  /** The mirror image of `HorizontalCrosses` with the axes swapped. */
  predicate VerticalCrosses(v: Segment, r: Rect)
    requires v.Vertical?
  {
    if v.x <= r.left || r.right <= v.x then false
    else if v.y1 <= r.top && r.top < v.y2 then true
    else if v.y1 < r.bottom && r.bottom <= v.y2 then true
    else false
  }

  /** The crossing test in unit steps: the edge spans a step from a border inwards. */
  lemma HorizontalCrossesSteps(h: Segment, r: Rect)
    requires h.Horizontal?
    ensures HorizontalCrosses(h, r) <==>
      r.top < h.y < r.bottom && (Covers(h.x1, h.x2, r.left, r.left + 1) || Covers(h.x1, h.x2, r.right - 1, r.right))
  {
  }

  function Transpose(s: Segment): Segment
  {
    match s
    case Vertical(x, y1, y2) => Horizontal(x, y1, y2)
    case Horizontal(y, x1, x2) => Vertical(y, x1, x2)
  }

  function TransposeRect(r: Rect): Rect
  {
    Rect(r.top, r.bottom, r.left, r.right)
  }

  /** The vertical test is the horizontal one applied to the picture flipped about its diagonal. */
  lemma VerticalIsTransposedHorizontal(v: Segment, r: Rect)
    requires v.Vertical?
    ensures VerticalCrosses(v, r) == HorizontalCrosses(Transpose(v), TransposeRect(r))
    ensures Transpose(Transpose(v)) == v && TransposeRect(TransposeRect(r)) == r
  {
  }

  /** `horizontal_lines.iter().any(..)`: some horizontal edge cuts the rectangle. */
  function AnyHorizontal(segs: seq<Segment>, r: Rect): bool
  {
    if |segs| == 0 then false
    else if segs[0].Horizontal? && HorizontalCrosses(segs[0], r) then true
    else AnyHorizontal(segs[1..], r)
  }

  /** `any` finds exactly the edges that cut the rectangle. */
  lemma {:induction false} AnyHorizontalIff(segs: seq<Segment>, r: Rect)
    ensures AnyHorizontal(segs, r) <==> exists i :: 0 <= i < |segs| && segs[i].Horizontal? && HorizontalCrosses(segs[i], r)
  {
    if |segs| > 0 {
      AnyHorizontalIff(segs[1..], r);
      assert forall i :: 1 <= i < |segs| ==> segs[i] == segs[1..][i - 1];
    }
  }

  /** `vertical_lines.iter().any(..)`: some vertical edge cuts the rectangle. */
  function AnyVertical(segs: seq<Segment>, r: Rect): bool
  {
    if |segs| == 0 then false
    else if segs[0].Vertical? && VerticalCrosses(segs[0], r) then true
    else AnyVertical(segs[1..], r)
  }

  /** `any` finds exactly the edges that cut the rectangle. */
  lemma {:induction false} AnyVerticalIff(segs: seq<Segment>, r: Rect)
    ensures AnyVertical(segs, r) <==> exists i :: 0 <= i < |segs| && segs[i].Vertical? && VerticalCrosses(segs[i], r)
  {
    if |segs| > 0 {
      AnyVerticalIff(segs[1..], r);
      assert forall i :: 1 <= i < |segs| ==> segs[i] == segs[1..][i - 1];
    }
  }

  /** No edge of the outline cuts the rectangle spanned by `a` and `b`. */
  predicate Fits(segs: seq<Segment>, a: Point, b: Point)
  {
    !AnyHorizontal(segs, Bounds(a, b)) && !AnyVertical(segs, Bounds(a, b))
  }

  // ---------------------------------------------------------------------
  // The two maxima
  // ---------------------------------------------------------------------

  /** The pair `(a, b)` comes before the position `(o, i)` of the double loop. */
  predicate Before(a: int, b: int, o: int, i: int)
  {
    a < o || (a == o && b < i)
  }

  /** Every pair before `(o, i)` scores at most `best`. */
  ghost predicate AllAtMost(score: (int, int) -> nat, n: nat, o: int, i: int, best: nat)
  {
    forall a, b :: 0 <= a < b < n && Before(a, b, o, i) ==> score(a, b) <= best
  }

  /** Every accepted pair before `(o, i)` scores at most `best`. */
  ghost predicate OkAtMost(score: (int, int) -> nat, ok: (int, int) -> bool, n: nat, o: int, i: int, best: nat)
  {
    forall a, b :: 0 <= a < b < n && Before(a, b, o, i) && ok(a, b) ==> score(a, b) <= best
  }

  /** What the double loop knows at position `(o, i)`: both bounds, the pairs that reach them, and their order. */
  ghost predicate Progress(score: (int, int) -> nat, ok: (int, int) -> bool, n: nat, o: int, i: int,
                           part1: nat, part2: nat, w: (int, int, int, int))
  {
    && AllAtMost(score, n, o, i, part1)
    && OkAtMost(score, ok, n, o, i, part2)
    && (part1 == 0 || (0 <= w.0 < w.1 < n && score(w.0, w.1) == part1))
    && (part2 == 0 || (0 <= w.2 < w.3 < n && ok(w.2, w.3) && score(w.2, w.3) == part2))
    && part2 <= part1
  }

  /** Taking in pair `(o, i)` as the loop body does moves the loop one position on. */
  lemma MaximaStep(score: (int, int) -> nat, ok: (int, int) -> bool, n: nat, o: nat, i: nat,
                   p1: nat, p2: nat, w: (int, int, int, int))
    requires o < i < n && Progress(score, ok, n, o, i, p1, p2, w)
    ensures
      var area := score(o, i);
      var q1 := if area > p1 then area else p1;
      var fit := area >= p2 && ok(o, i);
      var w1 := if area > p1 then (o, i) else (w.0, w.1);
      var w2 := if fit then (o, i) else (w.2, w.3);
      Progress(score, ok, n, o, i + 1, q1, if fit then area else p2, (w1.0, w1.1, w2.0, w2.1))
  {
  }

  /** Finishing the row of `o` starts the row of `o + 1`. */
  lemma MaximaNextRow(score: (int, int) -> nat, ok: (int, int) -> bool, n: nat, o: nat, i: nat,
                      p1: nat, p2: nat, w: (int, int, int, int))
    requires i >= n && Progress(score, ok, n, o, i, p1, p2, w)
    ensures Progress(score, ok, n, o + 1, o + 2, p1, p2, w)
  {
  }

  /** Past the last row every pair has been taken in. */
  lemma MaximaDone(score: (int, int) -> nat, ok: (int, int) -> bool, n: nat, o: nat,
                   p1: nat, p2: nat, w: (int, int, int, int))
    requires o >= n && Progress(score, ok, n, o, o + 1, p1, p2, w)
    ensures forall a, b :: 0 <= a < b < n ==> score(a, b) <= p1
    ensures forall a, b :: 0 <= a < b < n && ok(a, b) ==> score(a, b) <= p2
  {
  }

  /** The area of pair `(a, b)`, total so that it can be handed around as a function. */
  function PairArea(points: seq<Point>, a: int, b: int): nat
  {
    if 0 <= a < |points| && 0 <= b < |points| then Area(points[a], points[b]) else 0
  }

  /** No edge cuts the rectangle of pair `(a, b)`. */
  predicate PairFits(points: seq<Point>, segs: seq<Segment>, a: int, b: int)
  {
    0 <= a < |points| && 0 <= b < |points| && Fits(segs, points[a], points[b])
  }

  /** The pair scores and the pair test as functions, so that both loops name the same ones. */
  ghost function ScoreOf(points: seq<Point>): (int, int) -> nat
  {
    (a: int, b: int) => PairArea(points, a, b)
  }

  ghost function OkOf(points: seq<Point>, segs: seq<Segment>): (int, int) -> bool
  {
    (a: int, b: int) => PairFits(points, segs, a, b)
  }

  /**
   * One pass of the inner loop body on pair `(o, i)`: part 1 takes any
   * larger area; part 2 skips areas below its best and takes the area when
   * no edge cuts the rectangle.
   */
  method TakePair(points: seq<Point>, segs: seq<Segment>, o: nat, i: nat, part1: nat, part2: nat,
                  ghost w: (int, int, int, int))
    returns (q1: nat, q2: nat, ghost w': (int, int, int, int))
    requires o < i < |points|
    requires Progress(ScoreOf(points), OkOf(points, segs), |points|, o, i, part1, part2, w)
    ensures Progress(ScoreOf(points), OkOf(points, segs), |points|, o, i + 1, q1, q2, w')
  {
    ghost var score := ScoreOf(points);
    ghost var ok := OkOf(points, segs);
    MaximaStep(score, ok, |points|, o, i, part1, part2, w);
    var area := Area(points[o], points[i]);
    assert area == score(o, i);
    q1, q2, w' := part1, part2, w;
    if area > q1 {
      q1 := area;
      w' := (o, i, w'.2, w'.3);
    }
    if area >= q2 {
      var rect := Bounds(points[o], points[i]);
      if !AnyHorizontal(segs, rect) && !AnyVertical(segs, rect) {
        assert ok(o, i);
        q2 := area;
        w' := (w'.0, w'.1, o, i);
      } else {
        assert !ok(o, i);
      }
    }
  }

  /** The inner loop for one `outer_idx`: every later point is paired with point `o`. */
  method ScanRow(points: seq<Point>, segs: seq<Segment>, o: nat, part1: nat, part2: nat,
                 ghost w: (int, int, int, int))
    returns (q1: nat, q2: nat, ghost w': (int, int, int, int))
    requires o < |points|
    requires Progress(ScoreOf(points), OkOf(points, segs), |points|, o, o + 1, part1, part2, w)
    ensures Progress(ScoreOf(points), OkOf(points, segs), |points|, o + 1, o + 2, q1, q2, w')
  {
    var n := |points|;
    q1, q2, w' := part1, part2, w;
    var i := o + 1;
    while i < n
      invariant o + 1 <= i
      invariant Progress(ScoreOf(points), OkOf(points, segs), n, o, i, q1, q2, w')
    {
      q1, q2, w' := TakePair(points, segs, o, i, q1, q2, w');
      i := i + 1;
    }
    MaximaNextRow(ScoreOf(points), OkOf(points, segs), n, o, i, q1, q2, w');
  }

  /**
   * The double loop over all pairs of distinct points. `max_area_part1`
   * is the largest area of any pair; `max_area_part2` skips pairs smaller
   * than the best so far and otherwise takes the area when no edge cuts
   * the rectangle, which makes it the largest area of a fitting pair.
   * Either maximum is 0 when there is no pair to take it from.
   */
  method Maxima(points: seq<Point>, segs: seq<Segment>) returns (part1: nat, part2: nat)
    ensures forall a, b :: 0 <= a < b < |points| ==> PairArea(points, a, b) <= part1
    ensures part1 == 0 || exists a, b :: 0 <= a < b < |points| && PairArea(points, a, b) == part1
    ensures forall a, b :: 0 <= a < b < |points| && PairFits(points, segs, a, b) ==> PairArea(points, a, b) <= part2
    ensures part2 == 0 || exists a, b :: 0 <= a < b < |points| && PairFits(points, segs, a, b) && PairArea(points, a, b) == part2
    ensures part2 <= part1
  {
    var n := |points|;
    ghost var score := ScoreOf(points);
    ghost var ok := OkOf(points, segs);
    part1, part2 := 0, 0;
    ghost var w := (0, 0, 0, 0);
    var o := 0;
    while o < n
      invariant 0 <= o <= n
      invariant Progress(score, ok, n, o, o + 1, part1, part2, w)
    {
      part1, part2, w := ScanRow(points, segs, o, part1, part2, w);
      o := o + 1;
    }
    MaximaDone(score, ok, n, o, part1, part2, w);
    forall a, b | 0 <= a < b < n
      ensures PairArea(points, a, b) <= part1
      ensures PairFits(points, segs, a, b) ==> PairArea(points, a, b) <= part2
    {
      assert score(a, b) == PairArea(points, a, b) && ok(a, b) == PairFits(points, segs, a, b);
    }
    if part1 != 0 {
      assert score(w.0, w.1) == part1;
    }
    if part2 != 0 {
      assert ok(w.2, w.3) && score(w.2, w.3) == part2;
    }
  }

  /**
   * The whole of day 9 after reading the points: build the outline (failing
   * on a diagonal step or an empty input), then take both maxima: part 1
   * the largest rectangle over any two points, part 2 the largest one that
   * no edge of the outline cuts.
   */
  method Solve(points: seq<Point>) returns (r: Option<(nat, nat)>)
    ensures r.Some? <==> Outline(points).Some?
    ensures r.Some? ==> forall a, b :: 0 <= a < b < |points| ==> PairArea(points, a, b) <= r.value.0
    ensures r.Some? ==> r.value.0 == 0 || exists a, b :: 0 <= a < b < |points| && PairArea(points, a, b) == r.value.0
    ensures r.Some? ==> forall a, b ::
      0 <= a < b < |points| && PairFits(points, Outline(points).value, a, b) ==> PairArea(points, a, b) <= r.value.1
    ensures r.Some? ==> r.value.1 == 0 || exists a, b ::
      0 <= a < b < |points| && PairFits(points, Outline(points).value, a, b) && PairArea(points, a, b) == r.value.1
    ensures r.Some? ==> r.value.1 <= r.value.0
    ensures r.Some? ==> (r.value.0 == 0 <==> |points| < 2)
  {
    var outline := Outline(points);
    if outline.None? {
      return None;
    }
    var part1, part2 := Maxima(points, outline.value);
    if |points| >= 2 {
      assert PairArea(points, 0, 1) <= part1;
      AreaBounds(points[0], points[1]);
    }
    return Some((part1, part2));
  }
}
