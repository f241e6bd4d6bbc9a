/**
 * The pieces of Rust's `str` handling the puzzles rely on: decimal digits,
 * `to_string` of a non-negative integer, `str::parse` for `u32` and `i64`
 * (`from_str_radix` with radix 10), and `str::split` on one character.
 * Strings are sequences of characters; only ASCII digits and signs matter.
 */
module Text {
  import opened Base

  const U32_MAX: nat := 0xFFFF_FFFF
  const I64_MIN: int := -0x8000_0000_0000_0000
  const I64_MAX: int := 0x7FFF_FFFF_FFFF_FFFF

  predicate IsDigit(c: char)
  {
    '0' <= c <= '9'
  }

  predicate AllDigits(s: seq<char>)
  {
    forall i :: 0 <= i < |s| ==> IsDigit(s[i])
  }

  function DigitValue(c: char): (d: nat)
    requires IsDigit(c)
    ensures d < 10
  {
    (c as int) - ('0' as int)
  }

  function DigitChar(d: nat): (c: char)
    requires d < 10
    ensures IsDigit(c) && DigitValue(c) == d
  {
    (('0' as int) + d) as char
  }

  /** The number a run of decimal digits denotes, most significant first. */
  function Value(s: seq<char>): nat
    requires AllDigits(s)
  {
    if |s| == 0 then 0 else Value(s[..|s| - 1]) * 10 + DigitValue(s[|s| - 1])
  }

  lemma ValueSnoc(s: seq<char>, c: char)
    requires AllDigits(s) && IsDigit(c)
    ensures AllDigits(s + [c]) && Value(s + [c]) == Value(s) * 10 + DigitValue(c)
  {
    assert (s + [c])[..|s|] == s;
  }

  /** A digit run of length `n` denotes less than `10^n`. */
  lemma {:induction false} ValueBound(s: seq<char>)
    requires AllDigits(s)
    ensures Value(s) < Power(10, |s|)
  {
    if |s| > 0 {
      ValueBound(s[..|s| - 1]);
    }
  }

  /** `to_string` of a non-negative integer: no sign, no leading zero. */
  function ToDecimal(n: nat): (r: seq<char>)
    ensures |r| > 0 && AllDigits(r)
    ensures |r| > 1 ==> r[0] != '0'
    ensures Value(r) == n
    decreases n
  {
    if n < 10 then [DigitChar(n)]
    else
      var prefix := ToDecimal(n / 10);
      ValueSnoc(prefix, DigitChar(n % 10));
      prefix + [DigitChar(n % 10)]
  }

  /** Decimal text of any integer: a `-` in front of the magnitude when negative. */
  function SignedDecimal(i: int): (r: seq<char>)
    ensures |r| > 0 && (r[0] == '-' <==> i < 0)
  {
    if i < 0 then ['-'] + ToDecimal(-i) else ToDecimal(i)
  }

  /**
   * `s.parse::<u64-like>()` for an unsigned type whose largest value is
   * `max`: an optional `+`, then at least one ASCII digit and nothing
   * else; a value above `max` is an overflow error.
   */
  function ParseUnsigned(s: seq<char>, max: nat): (r: Option<nat>)
    ensures r.Some? ==> r.value <= max
    ensures r.Some? ==> |s| > 0 && s[0] != '-'
    ensures |s| == 0 || s == ['+'] ==> r.None?
    ensures |s| > 0 && AllDigits(s) ==> (r.Some? <==> Value(s) <= max)
    ensures r.Some? && AllDigits(s) ==> r.value == Value(s)
  {
    if |s| == 0 || ((s[0] == '+' || s[0] == '-') && |s| == 1) then None
    else
      var digits := if s[0] == '+' then s[1..] else s;
      if !AllDigits(digits) then None
      else if Value(digits) > max then None
      else Some(Value(digits))
  }

  /**
   * `s.parse::<i64-like>()` for a signed type with range `[min, max]`: an
   * optional `+` or `-`, then at least one ASCII digit and nothing else; a
   * value outside the range is an overflow error.
   */
  function ParseSigned(s: seq<char>, min: int, max: int): (r: Option<int>)
    ensures r.Some? ==> min <= r.value <= max
    ensures |s| == 0 || s == ['+'] || s == ['-'] ==> r.None?
    ensures r.Some? && s[0] == '-' ==> r.value <= 0
  {
    if |s| == 0 || ((s[0] == '+' || s[0] == '-') && |s| == 1) then None
    else
      var negative := s[0] == '-';
      var digits := if s[0] == '+' || s[0] == '-' then s[1..] else s;
      if !AllDigits(digits) then None
      else
        var v: int := if negative then -(Value(digits) as int) else Value(digits);
        if v < min || v > max then None else Some(v)
  }

  function ParseU32(s: seq<char>): (r: Option<nat>)
    ensures r.Some? ==> r.value <= U32_MAX
  {
    ParseUnsigned(s, U32_MAX)
  }

  function ParseI64(s: seq<char>): (r: Option<int>)
    ensures r.Some? ==> I64_MIN <= r.value <= I64_MAX
  {
    ParseSigned(s, I64_MIN, I64_MAX)
  }

  /** Parsing undoes `to_string` for every value in range, with or without a leading `+`. */
  lemma UnsignedRoundTrip(n: nat, max: nat)
    requires n <= max
    ensures ParseUnsigned(ToDecimal(n), max) == Some(n)
    ensures ParseUnsigned(['+'] + ToDecimal(n), max) == Some(n)
  {
    var d := ToDecimal(n);
    assert (['+'] + d)[1..] == d;
  }

  /** Parsing undoes the signed rendering for every value in range. */
  lemma SignedRoundTrip(i: int, min: int, max: int)
    requires min <= i <= max
    ensures ParseSigned(SignedDecimal(i), min, max) == Some(i)
  {
    if i < 0 {
      var d := ToDecimal(-i);
      assert (['-'] + d)[1..] == d;
    }
  }

  lemma I64RoundTrip(i: int)
    requires I64_MIN <= i <= I64_MAX
    ensures ParseI64(SignedDecimal(i)) == Some(i)
  {
    SignedRoundTrip(i, I64_MIN, I64_MAX);
  }

  // ---------------------------------------------------------------------
  // `str::split(sep)`
  // ---------------------------------------------------------------------

  /** Glues pieces back together with `sep` between consecutive ones. */
  function Join(parts: seq<seq<char>>, sep: char): seq<char>
  {
    if |parts| == 0 then []
    else if |parts| == 1 then parts[0]
    else parts[0] + [sep] + Join(parts[1..], sep)
  }

  function Occurrences(s: seq<char>, c: char): nat
  {
    if |s| == 0 then 0 else (if s[0] == c then 1 else 0) + Occurrences(s[1..], c)
  }

  /**
   * `s.split(sep).collect()`: the maximal separator-free pieces, one more
   * than there are separators (an empty string gives one empty piece).
   */
  function Split(s: seq<char>, sep: char): (r: seq<seq<char>>)
    ensures |r| == Occurrences(s, sep) + 1
    ensures forall k :: 0 <= k < |r| ==> sep !in r[k]
    ensures Join(r, sep) == s
  {
    if |s| == 0 then [[]]
    else if s[0] == sep then
      var rest := Split(s[1..], sep);
      assert s == [] + [sep] + Join(rest, sep);
      [[]] + rest
    else
      var rest := Split(s[1..], sep);
      var r := [[s[0]] + rest[0]] + rest[1..];
      assert r[1..] == rest[1..];
      assert Join(r, sep) == s by {
        if |rest| > 1 {
          assert Join(rest, sep) == rest[0] + [sep] + Join(rest[1..], sep);
        }
      }
      r
  }

  /** Where the first `sep` in `s` sits, or `|s|` when there is none. */
  function FirstIndex(s: seq<char>, sep: char): (r: nat)
    ensures r <= |s|
    ensures r < |s| ==> s[r] == sep
    ensures sep !in s[..r]
  {
    if |s| == 0 then 0
    else if s[0] == sep then 0
    else
      var r := 1 + FirstIndex(s[1..], sep);
      assert s[..r] == [s[0]] + s[1..][..r - 1];
      r
  }

  /** The first separator of `x + [sep] + y` is the one after a separator-free `x`. */
  lemma {:induction false} FirstIndexAfter(x: seq<char>, y: seq<char>, sep: char)
    requires sep !in x
    ensures FirstIndex(x + [sep] + y, sep) == |x|
  {
    if |x| > 0 {
      assert (x + [sep] + y)[1..] == x[1..] + [sep] + y;
      FirstIndexAfter(x[1..], y, sep);
    }
  }

  lemma {:induction false} FirstIndexNone(s: seq<char>, sep: char)
    requires sep !in s
    ensures FirstIndex(s, sep) == |s|
  {
    if |s| > 0 {
      FirstIndexNone(s[1..], sep);
    }
  }

  /**
   * The shape of a join of separator-free pieces: a single piece has no
   * separator at all; otherwise the first separator ends the first piece
   * and the rest is the join of the remaining pieces.
   */
  lemma JoinShape(a: seq<seq<char>>, sep: char)
    requires |a| >= 1 && forall k :: 0 <= k < |a| ==> sep !in a[k]
    ensures |a| == 1 <==> FirstIndex(Join(a, sep), sep) == |Join(a, sep)|
    ensures |a| > 1 ==>
      var j := Join(a, sep);
      var f := FirstIndex(j, sep);
      f < |j| && j[..f] == a[0] && j[f + 1..] == Join(a[1..], sep)
  {
    var j := Join(a, sep);
    if |a| == 1 {
      FirstIndexNone(a[0], sep);
    } else {
      FirstIndexAfter(a[0], Join(a[1..], sep), sep);
      assert j[..|a[0]|] == a[0];
      assert j[|a[0]| + 1..] == Join(a[1..], sep);
    }
  }

  /** Joining separator-free pieces loses nothing: the pieces can be read back. */
  lemma {:induction false} JoinInjective(a: seq<seq<char>>, b: seq<seq<char>>, sep: char)
    requires |a| >= 1 && |b| >= 1 && Join(a, sep) == Join(b, sep)
    requires forall k :: 0 <= k < |a| ==> sep !in a[k]
    requires forall k :: 0 <= k < |b| ==> sep !in b[k]
    ensures a == b
    decreases |a|
  {
    JoinShape(a, sep);
    JoinShape(b, sep);
    if |a| > 1 {
      JoinInjective(a[1..], b[1..], sep);
      assert a == [a[0]] + a[1..] && b == [b[0]] + b[1..];
    }
  }

  /** `split` undoes joining with the same separator, for separator-free pieces. */
  lemma SplitJoin(parts: seq<seq<char>>, sep: char)
    requires |parts| >= 1 && forall k :: 0 <= k < |parts| ==> sep !in parts[k]
    ensures Split(Join(parts, sep), sep) == parts
  {
    JoinInjective(Split(Join(parts, sep), sep), parts, sep);
  }

  /** Decimal text holds digits and at most a minus sign, so any other separator splits it cleanly. */
  lemma DecimalHasNo(i: int, c: char)
    requires !IsDigit(c) && c != '-'
    ensures c !in SignedDecimal(i)
  {
    var d := ToDecimal(if i < 0 then -i else i);
    assert forall k :: 0 <= k < |d| ==> d[k] != c;
  }
}
