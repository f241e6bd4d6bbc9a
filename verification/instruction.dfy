/** A rotation of the safe's dial as written in the puzzle input: `R<steps>` or `L<steps>`. */
module Instruction {
  import opened Base
  import opened Text

  datatype Direction = Left | Right

  datatype Instruction = Instruction(direction: Direction, steps: nat)

  function Letter(d: Direction): char
  {
    match d
    case Right => 'R'
    case Left => 'L'
  }

  /**
   * `Instruction::parse`. The source slices the first byte off with
   * `&s[0..1]`, which panics unless the first character is ASCII; the
   * requires rules that out. Under it, the byte length is below 2 exactly
   * when there is at most one character.
   */
  function Parse(s: seq<char>): (r: Option<Instruction>)
    requires |s| > 0 ==> s[0] as int < 128
    ensures |s| < 2 ==> r.None?
    ensures |s| >= 2 && s[0] != 'R' && s[0] != 'L' ==> r.None?
    ensures r.Some? <==> |s| >= 2 && (s[0] == 'R' || s[0] == 'L') && ParseU32(s[1..]).Some?
    ensures r.Some? ==> Letter(r.value.direction) == s[0] && Some(r.value.steps) == ParseU32(s[1..])
  {
    if |s| < 2 then None
    else
      var direction :=
        if s[0] == 'R' then Some(Right)
        else if s[0] == 'L' then Some(Left)
        else None;
      if direction.None? then None
      else
        var steps := ParseU32(s[1..]);
        if steps.None? then None
        else Some(Instruction(direction.value, steps.value))
  }

  /** Writing an instruction out and parsing it back gives the same instruction. */
  lemma ParseRoundTrip(d: Direction, n: nat)
    requires n <= U32_MAX
    ensures Parse([Letter(d)] + ToDecimal(n)) == Some(Instruction(d, n))
  {
    var s := [Letter(d)] + ToDecimal(n);
    assert s[1..] == ToDecimal(n);
    UnsignedRoundTrip(n, U32_MAX);
  }
}
