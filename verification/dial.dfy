/**
 * The safe's dial: positions 0..99 on a circle, turned left or right by a
 * number of clicks. It counts how often a turn ends on 0 (`zero_hits`) and
 * how often the pointer passes or lands on 0 during turns (`zero_wraps`).
 */
module Dial {
  import opened Instruction

  datatype Dial = Dial(position: nat, zeroHits: nat, zeroWraps: nat)

  /** `Dial::new`: the initial position is a `u8`, taken as given. */
  function New(initPos: nat): (r: Dial)
    requires initPos < 256
    ensures r.position == initPos && r.zeroHits == 0 && r.zeroWraps == 0
  {
    Dial(initPos, 0, 0)
  }

  /** The signed number of clicks: negative to the left. */
  function Delta(i: Instruction): int
  {
    if i.direction == Left then -(i.steps as int) else i.steps as int
  }

  /**
   * `Dial::turn`. The new position is the Euclidean remainder of the signed
   * sum. `zero_wraps` gains the full rotations, plus one when the dial did
   * not start on 0 and the leftover part of the turn reaches or crosses 0.
   */
  function Turn(d: Dial, i: Instruction): (r: Dial)
    ensures 0 <= r.position < 100
    ensures r.position == (d.position + Delta(i)) % 100
    ensures r.zeroHits == d.zeroHits + 1 <==> r.position == 0
    ensures r.zeroHits == d.zeroHits <==> r.position != 0
    ensures r.zeroWraps >= d.zeroWraps + i.steps / 100
    ensures r.zeroWraps <= d.zeroWraps + i.steps / 100 + 1
  {
    var posStart := d.position as int;
    var position := (posStart + Delta(i)) % 100;
    var zeroHits := if position == 0 then d.zeroHits + 1 else d.zeroHits;
    var fullRotations := i.steps / 100;
    var remainder := if i.direction == Left then -(i.steps % 100) else i.steps % 100;
    var crossed := posStart != 0 && (posStart + remainder <= 0 || posStart + remainder >= 100);
    var zeroWraps := d.zeroWraps + fullRotations + (if crossed then 1 else 0);
    Dial(position, zeroHits, zeroWraps)
  }

  /** Applies the instructions in order. */
  function TurnAll(d: Dial, instrs: seq<Instruction>): (r: Dial)
    ensures r.zeroHits >= d.zeroHits && r.zeroWraps >= d.zeroWraps
    ensures |instrs| > 0 ==> r.position < 100
    decreases |instrs|
  {
    if |instrs| == 0 then d else TurnAll(Turn(d, instrs[0]), instrs[1..])
  }

  // ---------------------------------------------------------------------
  // Reference: the dial moved one click at a time
  // ---------------------------------------------------------------------

  function Unit(dir: Direction): int
  {
    if dir == Left then -1 else 1
  }

  function ClickOnce(p: int, dir: Direction): int
  {
    (p + Unit(dir)) % 100
  }

  /** Where the pointer rests after `n` single clicks from `p`. */
  function Walk(p: int, dir: Direction, n: nat): int
    decreases n
  {
    if n == 0 then p else Walk(ClickOnce(p, dir), dir, n - 1)
  }

  /** How many of the `n` single clicks from `p` leave the pointer on 0. */
  function ZeroClicks(p: int, dir: Direction, n: nat): nat
    decreases n
  {
    if n == 0 then 0
    else
      var q := ClickOnce(p, dir);
      (if q == 0 then 1 else 0) + ZeroClicks(q, dir, n - 1)
  }

  lemma ModShift(a: int, b: int)
    ensures (a % 100 + b) % 100 == (a + b) % 100
  {
    var k := a / 100;
    assert a == 100 * k + a % 100;
    assert a + b == (a % 100 + b) + 100 * k;
  }

  /** Turning in one go ends where clicking one step at a time ends. */
  lemma {:induction false} WalkPosition(p: int, dir: Direction, n: nat)
    requires 0 <= p < 100
    ensures Walk(p, dir, n) == (p + Unit(dir) * n) % 100
    decreases n
  {
    if n > 0 {
      var q := ClickOnce(p, dir);
      WalkPosition(q, dir, n - 1);
      ModShift(p + Unit(dir), Unit(dir) * (n - 1));
      assert Unit(dir) * n == Unit(dir) + Unit(dir) * (n - 1);
    }
  }

  /** Whether the sub-100 leftover of a turn from `p` reaches or crosses 0. */
  function Crossing(p: int, dir: Direction, rest: nat): nat
  {
    var remainder: int := if dir == Left then -(rest as int) else rest;
    if p != 0 && (p + remainder <= 0 || p + remainder >= 100) then 1 else 0
  }

  /** One click ahead of `p`: the leftover crossing splits into the first click and the rest. */
  lemma CrossingStep(p: int, dir: Direction, n: nat)
    requires 0 <= p < 100 && n > 0
    ensures var q := ClickOnce(p, dir);
      n / 100 + Crossing(p, dir, n % 100)
      == (if q == 0 then 1 else 0) + (n - 1) / 100 + Crossing(q, dir, (n - 1) % 100)
  {
    if n % 100 == 0 {
      assert n / 100 == (n - 1) / 100 + 1;
      assert (n - 1) % 100 == 99;
    } else {
      assert n / 100 == (n - 1) / 100;
      assert (n - 1) % 100 == n % 100 - 1;
    }
  }

  /**
   * The wrap formula counts the zero clicks: full rotations pass 0 once
   * each, and the leftover passes it at most once, never from 0 itself.
   */
  lemma {:induction false} ZeroClicksFormula(p: int, dir: Direction, n: nat)
    requires 0 <= p < 100
    ensures ZeroClicks(p, dir, n) == n / 100 + Crossing(p, dir, n % 100)
    decreases n
  {
    if n > 0 {
      var q := ClickOnce(p, dir);
      ZeroClicksFormula(q, dir, n - 1);
      CrossingStep(p, dir, n);
    }
  }

  /**
   * `turn` agrees with clicking the dial one step at a time: same final
   * position, and `zero_wraps` grows by the number of clicks that land on 0.
   */
  lemma TurnIsClickByClick(d: Dial, i: Instruction)
    requires d.position < 100
    ensures Turn(d, i).position == Walk(d.position, i.direction, i.steps)
    ensures Turn(d, i).zeroWraps == d.zeroWraps + ZeroClicks(d.position, i.direction, i.steps)
    ensures Turn(d, i).zeroHits == d.zeroHits + (if Walk(d.position, i.direction, i.steps) == 0 then 1 else 0)
  {
    WalkPosition(d.position, i.direction, i.steps);
    assert Unit(i.direction) * i.steps == Delta(i);
    ZeroClicksFormula(d.position, i.direction, i.steps);
  }

  /** From 0, only the full rotations count: the leftover never crosses. */
  lemma FromZeroOnlyFullRotations(d: Dial, i: Instruction)
    requires d.position == 0
    ensures Turn(d, i).zeroWraps == d.zeroWraps + i.steps / 100
  {
  }

  /** L200 from 50 passes 0 twice. */
  lemma TurnExampleLeft200()
    ensures Turn(New(50), Instruction(Left, 200)).zeroWraps == 2
  {
  }

  /** R200 from 0 passes 0 twice: the start does not count. */
  lemma TurnExampleRight200FromZero()
    ensures Turn(New(0), Instruction(Right, 200)).zeroWraps == 2
  {
  }

  /** L50 then R50 from 50 lands on 0 once and leaves it. */
  lemma TurnExampleThereAndBack()
    ensures TurnAll(New(50), [Instruction(Left, 50), Instruction(Right, 50)]).zeroWraps == 1
  {
    var twice := [Instruction(Left, 50), Instruction(Right, 50)];
    assert twice[1..][1..] == [];
  }

  /**
   * A dial may start anywhere up to 255, but the crossing test
   * `pos_start + remainder >= 100` assumes a start below 100: R10 from 150
   * counts a pass although none of the ten clicks lands on 0.
   */
  lemma HighStartOvercounts()
    ensures Turn(New(150), Instruction(Right, 10)).zeroWraps == 1
    ensures ZeroClicks(150, Right, 10) == 0
  {
    assert ClickOnce(150, Right) == 51;
    ZeroClicksFormula(51, Right, 9);
    assert Crossing(51, Right, 9) == 0;
  }
}
