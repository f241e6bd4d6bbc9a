/**
 * `Point2D` from the shared math module: two signed coordinates, parsed
 * from `x,y`, with component-wise `+`, `-`, `pow` and `sum`.
 */
module Point2D {
  import opened Base
  import opened Text

  datatype Point = Point(x: int, y: int)

  /** Why `parse` refused its input: not exactly two pieces, or a piece that is no `i64`. */
  datatype ParseError = WrongFormat(input: seq<char>) | Invalid(field: char, text: seq<char>)

  const Origin := Point(0, 0)

  predicate InRange(p: Point)
  {
    I64_MIN <= p.x <= I64_MAX && I64_MIN <= p.y <= I64_MAX
  }

  /**
   * `Point2D::parse`: split on `,`; anything but two pieces is a format
   * error, then `x` is parsed before `y`, and the first piece that fails
   * names the error.
   */
  function Parse(s: seq<char>): (r: Result<Point, ParseError>)
    ensures r.Ok? <==>
      var parts := Split(s, ',');
      |parts| == 2 && ParseI64(parts[0]).Some? && ParseI64(parts[1]).Some?
    ensures r.Ok? ==> InRange(r.value) && r.value == Point(ParseI64(Split(s, ',')[0]).value, ParseI64(Split(s, ',')[1]).value)
    ensures Occurrences(s, ',') != 1 <==> r == Err(WrongFormat(s))
    ensures r.Err? && r.error.Invalid? ==> r.error.text == Split(s, ',')[if r.error.field == 'x' then 0 else 1]
  {
    var parts := Split(s, ',');
    if |parts| != 2 then Err(WrongFormat(s))
    else match ParseI64(parts[0])
      case None => Err(Invalid('x', parts[0]))
      case Some(x) =>
        match ParseI64(parts[1])
        case None => Err(Invalid('y', parts[1]))
        case Some(y) => Ok(Point(x, y))
  }

  /** The `x,y` text that `parse` reads: each coordinate in decimal, a comma between. */
  function Format(p: Point): (r: seq<char>)
    ensures Occurrences(r, ',') == 1
  {
    DecimalHasNo(p.x, ',');
    DecimalHasNo(p.y, ',');
    var parts := [SignedDecimal(p.x), SignedDecimal(p.y)];
    SplitJoin(parts, ',');
    assert Join(parts, ',') == SignedDecimal(p.x) + [','] + SignedDecimal(p.y);
    SignedDecimal(p.x) + [','] + SignedDecimal(p.y)
  }

  /** Every point with `i64` coordinates is read back from its text. */
  lemma ParseFormat(p: Point)
    requires InRange(p)
    ensures Parse(Format(p)) == Ok(p)
  {
    var parts := [SignedDecimal(p.x), SignedDecimal(p.y)];
    DecimalHasNo(p.x, ',');
    DecimalHasNo(p.y, ',');
    SplitJoin(parts, ',');
    assert Join(parts, ',') == Format(p);
    I64RoundTrip(p.x);
    I64RoundTrip(p.y);
  }

  function Add(a: Point, b: Point): (r: Point)
    ensures r.x - b.x == a.x && r.y - b.y == a.y
  {
    Point(a.x + b.x, a.y + b.y)
  }

  function Sub(a: Point, b: Point): (r: Point)
    ensures Add(r, b) == a
  {
    Point(a.x - b.x, a.y - b.y)
  }

  /** `(a + b) - b == a` and `(a - b) + b == a`. */
  lemma AddSubInverse(a: Point, b: Point)
    ensures Sub(Add(a, b), b) == a && Add(Sub(a, b), b) == a
  {
  }

  /** `pow`: each coordinate raised to `exponent`. */
  function Pow(p: Point, exponent: nat): (r: Point)
    ensures exponent == 0 ==> r == Point(1, 1)
    ensures exponent == 1 ==> r == p
  {
    PowerSmall(p.x);
    PowerSmall(p.y);
    Point(Power(p.x, exponent), Power(p.y, exponent))
  }

  /** One more factor: each coordinate of `p^(e + 1)` is that of `p^e` times the same coordinate of `p`. */
  lemma PowStep(p: Point, e: nat)
    ensures Pow(p, e + 1) == Point(Pow(p, e).x * p.x, Pow(p, e).y * p.y)
  {
  }

  /** Exponents add coordinate by coordinate: `p^(a + b)` is `p^a` times `p^b` in each coordinate. */
  lemma PowAdd(p: Point, a: nat, b: nat)
    ensures Pow(p, a + b) == Point(Pow(p, a).x * Pow(p, b).x, Pow(p, a).y * Pow(p, b).y)
  {
    PowerSum(p.x, a, b);
    PowerSum(p.y, a, b);
  }

  /** `sum`: the coordinates added up. */
  function Sum(p: Point): int
  {
    p.x + p.y
  }

  /** The integer under the square root in `distance`. */
  function DistanceSquared(a: Point, b: Point): (r: int)
  {
    Sum(Pow(Sub(a, b), 2))
  }

  /** A squared distance is never negative and is zero exactly between equal points. */
  lemma DistanceSquaredZero(a: Point, b: Point)
    ensures DistanceSquared(a, b) >= 0
    ensures DistanceSquared(a, b) == 0 <==> a == b
    ensures DistanceSquared(a, b) == DistanceSquared(b, a)
  {
    var d := Sub(a, b);
    var e := Sub(b, a);
    PowerSmall(d.x);
    PowerSmall(d.y);
    PowerSmall(e.x);
    PowerSmall(e.y);
    assert e.x * e.x == d.x * d.x && e.y * e.y == d.y * d.y;
    Square(d.x);
    Square(d.y);
  }

  lemma Square(v: int)
    ensures v * v >= 0 && (v * v == 0 <==> v == 0)
  {
  }
}
