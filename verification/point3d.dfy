/**
 * `Point3D` from the shared math module: three signed coordinates, parsed
 * from `x,y,z`, with component-wise `+`, `-`, `pow`, `sum` and `==`.
 */
module Point3D {
  import opened Base
  import opened Text

  datatype Point = Point(x: int, y: int, z: int)

  /** Why `parse` refused its input: not exactly three pieces, or a piece that is no `i64`. */
  datatype ParseError = WrongFormat(input: seq<char>) | Invalid(field: char, text: seq<char>)

  const Origin := Point(0, 0, 0)

  predicate InRange(p: Point)
  {
    && I64_MIN <= p.x <= I64_MAX
    && I64_MIN <= p.y <= I64_MAX
    && I64_MIN <= p.z <= I64_MAX
  }

  /**
   * `Point3D::parse`: split on `,`; anything but three pieces is a format
   * error, then `x`, `y` and `z` are parsed in that order, and the first
   * piece that fails names the error.
   */
  function Parse(s: seq<char>): (r: Result<Point, ParseError>)
    ensures r.Ok? <==>
      var parts := Split(s, ',');
      |parts| == 3 && ParseI64(parts[0]).Some? && ParseI64(parts[1]).Some? && ParseI64(parts[2]).Some?
    ensures r.Ok? ==>
      var parts := Split(s, ',');
      InRange(r.value) && r.value == Point(ParseI64(parts[0]).value, ParseI64(parts[1]).value, ParseI64(parts[2]).value)
    ensures Occurrences(s, ',') != 2 <==> r == Err(WrongFormat(s))
    ensures r.Err? && r.error.Invalid? ==>
      r.error.text == Split(s, ',')[if r.error.field == 'x' then 0 else if r.error.field == 'y' then 1 else 2]
  {
    var parts := Split(s, ',');
    if |parts| != 3 then Err(WrongFormat(s))
    else match ParseI64(parts[0])
      case None => Err(Invalid('x', parts[0]))
      case Some(x) =>
        match ParseI64(parts[1])
        case None => Err(Invalid('y', parts[1]))
        case Some(y) =>
          match ParseI64(parts[2])
          case None => Err(Invalid('z', parts[2]))
          case Some(z) => Ok(Point(x, y, z))
  }

  /** The `x,y,z` text that `parse` reads: each coordinate in decimal, commas between. */
  function Format(p: Point): (r: seq<char>)
    ensures Occurrences(r, ',') == 2
  {
    FormatSplits(p);
    SignedDecimal(p.x) + [','] + SignedDecimal(p.y) + [','] + SignedDecimal(p.z)
  }

  lemma FormatSplits(p: Point)
    ensures
      var parts := [SignedDecimal(p.x), SignedDecimal(p.y), SignedDecimal(p.z)];
      Split(SignedDecimal(p.x) + [','] + SignedDecimal(p.y) + [','] + SignedDecimal(p.z), ',') == parts
  {
    var parts := [SignedDecimal(p.x), SignedDecimal(p.y), SignedDecimal(p.z)];
    DecimalHasNo(p.x, ',');
    DecimalHasNo(p.y, ',');
    DecimalHasNo(p.z, ',');
    SplitJoin(parts, ',');
    assert parts[1..][1..] == [parts[2]];
    assert Join(parts[1..], ',') == SignedDecimal(p.y) + [','] + SignedDecimal(p.z);
    assert Join(parts, ',') == SignedDecimal(p.x) + [','] + SignedDecimal(p.y) + [','] + SignedDecimal(p.z);
  }

  /** Every point with `i64` coordinates is read back from its text. */
  lemma ParseFormat(p: Point)
    requires InRange(p)
    ensures Parse(Format(p)) == Ok(p)
  {
    FormatSplits(p);
    I64RoundTrip(p.x);
    I64RoundTrip(p.y);
    I64RoundTrip(p.z);
  }

  function Add(a: Point, b: Point): (r: Point)
    ensures r.x - b.x == a.x && r.y - b.y == a.y && r.z - b.z == a.z
  {
    Point(a.x + b.x, a.y + b.y, a.z + b.z)
  }

  function Sub(a: Point, b: Point): (r: Point)
    ensures Add(r, b) == a
  {
    Point(a.x - b.x, a.y - b.y, a.z - b.z)
  }

  /** `(a + b) - b == a` and `(a - b) + b == a`. */
  lemma AddSubInverse(a: Point, b: Point)
    ensures Sub(Add(a, b), b) == a && Add(Sub(a, b), b) == a
  {
  }

  /** The hand-written `PartialEq`: equal exactly when the points are the same. */
  function Eq(a: Point, b: Point): (r: bool)
    ensures r <==> a == b
    ensures r <==> Sub(a, b) == Origin
  {
    a.x == b.x && a.y == b.y && a.z == b.z
  }

  /** `pow`: each coordinate raised to `exponent`. */
  function Pow(p: Point, exponent: nat): (r: Point)
    ensures exponent == 0 ==> r == Point(1, 1, 1)
    ensures exponent == 1 ==> r == p
  {
    PowerSmall(p.x);
    PowerSmall(p.y);
    PowerSmall(p.z);
    Point(Power(p.x, exponent), Power(p.y, exponent), Power(p.z, exponent))
  }

  /** One more factor: each coordinate of `p^(e + 1)` is that of `p^e` times the same coordinate of `p`. */
  lemma PowStep(p: Point, e: nat)
    ensures Pow(p, e + 1) == Point(Pow(p, e).x * p.x, Pow(p, e).y * p.y, Pow(p, e).z * p.z)
  {
  }

  /** Exponents add coordinate by coordinate: `p^(a + b)` is `p^a` times `p^b` in each coordinate. */
  lemma PowAdd(p: Point, a: nat, b: nat)
    ensures Pow(p, a + b) == Point(Pow(p, a).x * Pow(p, b).x, Pow(p, a).y * Pow(p, b).y, Pow(p, a).z * Pow(p, b).z)
  {
    PowerSum(p.x, a, b);
    PowerSum(p.y, a, b);
    PowerSum(p.z, a, b);
  }

  /** `sum`: the coordinates added up. */
  function Sum(p: Point): int
  {
    p.x + p.y + p.z
  }

  /** The integer under the square root in `distance`. */
  function DistanceSquared(a: Point, b: Point): int
  {
    Sum(Pow(Sub(a, b), 2))
  }

  /** A squared distance is never negative, symmetric, and zero exactly between equal points. */
  lemma DistanceSquaredZero(a: Point, b: Point)
    ensures DistanceSquared(a, b) >= 0
    ensures DistanceSquared(a, b) == 0 <==> Eq(a, b)
    ensures DistanceSquared(a, b) == DistanceSquared(b, a)
  {
    var d := Sub(a, b);
    var e := Sub(b, a);
    PowerSmall(d.x);
    PowerSmall(d.y);
    PowerSmall(d.z);
    PowerSmall(e.x);
    PowerSmall(e.y);
    PowerSmall(e.z);
    assert e.x * e.x == d.x * d.x && e.y * e.y == d.y * d.y && e.z * e.z == d.z * d.z;
    Square(d.x);
    Square(d.y);
    Square(d.z);
  }

  lemma Square(v: int)
    ensures v * v >= 0 && (v * v == 0 <==> v == 0)
  {
  }
}
