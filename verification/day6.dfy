/**
 * Day 6: worksheet problems. A problem is a list of numbers and an
 * operation, `+` or `*`, solved by folding the numbers from the
 * operation's identity. Part 2 reads the worksheet column by column from
 * the right: each column's digits above the last row, top to bottom, make
 * one number, pushed on a stack unless it is 0; an operator in the last row
 * drains the stack into the running total.
 */
module Day6 {
  import opened Base
  import opened Text

  datatype Operation = Add | Multiply

  datatype Problem = Problem(numbers: seq<nat>, operation: Option<Operation>)

  /** `Operation::parse_from_symbol`. */
  function ParseFromSymbol(symbol: char): (r: Option<Operation>)
    ensures r.Some? <==> symbol == '+' || symbol == '*'
  {
    match symbol
    case '+' => Some(Add)
    case '*' => Some(Multiply)
    case _ => None
  }

  /** The worksheet symbol of an operation. */
  function Symbol(op: Operation): char
  {
    match op
    case Add => '+'
    case Multiply => '*'
  }

  /** Every operation is read back from its symbol, and only symbols are read. */
  lemma SymbolRoundTrip(op: Operation, c: char)
    ensures ParseFromSymbol(Symbol(op)) == Some(op)
    ensures ParseFromSymbol(c) == Some(op) ==> c == Symbol(op)
  {
  }

  /** `Operation::apply` (unbounded; `u64` overflow is not modelled). */
  function Apply(op: Operation, a: nat, b: nat): nat
  {
    match op
    case Add => a + b
    case Multiply => a * b
  }

  /** The fold's starting accumulator in `solve` and in part 2. */
  function Identity(op: Operation): (r: nat)
    ensures forall a: nat :: Apply(op, r, a) == a && Apply(op, a, r) == a
  {
    match op
    case Add => 0
    case Multiply => 1
  }

  /** `Problem::new`. */
  function NewProblem(): (r: Problem)
    ensures r.numbers == [] && r.operation.None?
  {
    Problem([], None)
  }

  /** `Problem::add_number`: appended at the end, nothing else changes. */
  function AddNumber(p: Problem, n: nat): (r: Problem)
    ensures |r.numbers| == |p.numbers| + 1 && r.numbers[..|p.numbers|] == p.numbers
    ensures r.numbers[|p.numbers|] == n && r.operation == p.operation
  {
    p.(numbers := p.numbers + [n])
  }

  /** `Problem::add_operation`: replaces any earlier operation. */
  function AddOperation(p: Problem, op: Operation): (r: Problem)
    ensures r.operation == Some(op) && r.numbers == p.numbers
  {
    p.(operation := Some(op))
  }

  /** The `fold` over the numbers, left to right. */
  function FoldLeft(op: Operation, acc: nat, ns: seq<nat>): nat
    decreases |ns|
  {
    if |ns| == 0 then acc else FoldLeft(op, Apply(op, acc, ns[0]), ns[1..])
  }

  /** `Problem::solve`: it panics when no operation was added. */
  function Solve(p: Problem): nat
    requires p.operation.Some?
  {
    FoldLeft(p.operation.value, Identity(p.operation.value), p.numbers)
  }

  // ---------------------------------------------------------------------
  // Reference: the sum or the product of a list
  // ---------------------------------------------------------------------

  /** The sum (for `Add`) or product (for `Multiply`) of the numbers. */
  function Aggregate(op: Operation, ns: seq<nat>): nat
  {
    if |ns| == 0 then Identity(op) else Apply(op, ns[0], Aggregate(op, ns[1..]))
  }

  lemma ApplyAssoc(op: Operation, a: nat, b: nat, c: nat)
    ensures Apply(op, Apply(op, a, b), c) == Apply(op, a, Apply(op, b, c))
  {
    if op == Multiply {
      assert (a * b) * c == a * (b * c);
    }
  }

  lemma ApplyComm(op: Operation, a: nat, b: nat)
    ensures Apply(op, a, b) == Apply(op, b, a)
  {
  }

  /** Folding from `acc` combines `acc` with the aggregate. */
  lemma {:induction false} FoldLeftAggregate(op: Operation, acc: nat, ns: seq<nat>)
    ensures FoldLeft(op, acc, ns) == Apply(op, acc, Aggregate(op, ns))
    decreases |ns|
  {
    if |ns| > 0 {
      FoldLeftAggregate(op, Apply(op, acc, ns[0]), ns[1..]);
      ApplyAssoc(op, acc, ns[0], Aggregate(op, ns[1..]));
    }
  }

  /** `solve` is the sum or product of the numbers; no numbers give 0 or 1. */
  lemma SolveIsAggregate(p: Problem)
    requires p.operation.Some?
    ensures Solve(p) == Aggregate(p.operation.value, p.numbers)
    ensures p.numbers == [] ==> Solve(p) == Identity(p.operation.value)
  {
    FoldLeftAggregate(p.operation.value, Identity(p.operation.value), p.numbers);
  }

  /** Adding a number to a problem applies the operation once more to its answer. */
  lemma SolveAddNumber(p: Problem, n: nat)
    requires p.operation.Some?
    ensures Solve(AddNumber(p, n)) == Apply(p.operation.value, Solve(p), n)
  {
    var op := p.operation.value;
    SolveIsAggregate(p);
    SolveIsAggregate(AddNumber(p, n));
    AggregateSnoc(op, p.numbers, n);
  }

  /** The aggregate of a list extended at the end. */
  lemma {:induction false} AggregateSnoc(op: Operation, ns: seq<nat>, n: nat)
    ensures Aggregate(op, ns + [n]) == Apply(op, Aggregate(op, ns), n)
    decreases |ns|
  {
    if |ns| == 0 {
      assert ns + [n] == [n];
    } else {
      assert (ns + [n])[1..] == ns[1..] + [n];
      AggregateSnoc(op, ns[1..], n);
      ApplyAssoc(op, ns[0], Aggregate(op, ns[1..]), n);
    }
  }

  // ---------------------------------------------------------------------
  // `uniform_line_length`
  // ---------------------------------------------------------------------

  /** `uniform_line_length`: the common row length, `Some(0)` for no rows. */
  function UniformLineLength(grid: seq<seq<char>>): (r: Option<nat>)
    ensures |grid| == 0 ==> r == Some(0)
    ensures |grid| > 0 ==> (r.Some? <==> forall y :: 0 <= y < |grid| ==> |grid[y]| == |grid[0]|)
    ensures |grid| > 0 && r.Some? ==> r.value == |grid[0]|
  {
    if |grid| == 0 then Some(0)
    else if forall y :: 0 <= y < |grid| ==> |grid[y]| == |grid[0]| then Some(|grid[0]|)
    else None
  }

  // ---------------------------------------------------------------------
  // Part 2: the worksheet read by columns (the loop of `main`)
  // ---------------------------------------------------------------------

  /**
   * What part 2 needs to run without panicking: equal row lengths, only
   * digits or spaces above the last row, only `+`, `*` or spaces in it.
   */
  predicate Worksheet(grid: seq<seq<char>>)
  {
    && UniformLineLength(grid).Some?
    && (forall y, x :: 0 <= y < |grid| - 1 && 0 <= x < |grid[y]| ==> grid[y][x] == ' ' || IsDigit(grid[y][x]))
    && (|grid| > 0 ==> OperatorRow(grid[|grid| - 1]))
  }

  predicate OperatorRow(row: seq<char>)
  {
    forall x :: 0 <= x < |row| ==> row[x] == ' ' || ParseFromSymbol(row[x]).Some?
  }

  /** The digits of column `x` in rows `[0, y)`, top to bottom, spaces skipped. */
  function ColumnDigits(grid: seq<seq<char>>, x: nat, y: nat): (r: seq<char>)
    requires Worksheet(grid) && y < |grid| && (y > 0 ==> x < |grid[0]|)
    ensures AllDigits(r)
  {
    if y == 0 then []
    else
      var c := grid[y - 1][x];
      ColumnDigits(grid, x, y - 1) + (if c == ' ' then [] else [c])
  }

  /**
   * The inner `for y in (0..len-1).rev()` loop, rows `y - 1` up to 0:
   * each digit adds `multiplier * digit` and multiplies the multiplier by 10.
   */
  function ReadColumn(grid: seq<seq<char>>, x: nat, y: nat, multiplier: nat, num: nat): nat
    requires Worksheet(grid) && y < |grid| && (y > 0 ==> x < |grid[0]|)
  {
    if y == 0 then num
    else
      var c := grid[y - 1][x];
      if c == ' ' then ReadColumn(grid, x, y - 1, multiplier, num)
      else ReadColumn(grid, x, y - 1, multiplier * 10, num + multiplier * DigitValue(c))
  }

  lemma ShiftDigit(m: int, v: int, d: int, num: int)
    ensures num + m * d + (m * 10) * v == num + m * (v * 10 + d)
  {
  }

  /** Reading bottom-up with growing multipliers gives the digits' decimal value top-down. */
  lemma {:induction false} ReadColumnValue(grid: seq<seq<char>>, x: nat, y: nat, multiplier: nat, num: nat)
    requires Worksheet(grid) && y < |grid| && (y > 0 ==> x < |grid[0]|)
    ensures ReadColumn(grid, x, y, multiplier, num) == num + multiplier * Value(ColumnDigits(grid, x, y))
  {
    if y > 0 {
      var c := grid[y - 1][x];
      var above := ColumnDigits(grid, x, y - 1);
      if c == ' ' {
        ReadColumnValue(grid, x, y - 1, multiplier, num);
        assert ColumnDigits(grid, x, y) == above;
      } else {
        ReadColumnValue(grid, x, y - 1, multiplier * 10, num + multiplier * DigitValue(c));
        ValueSnoc(above, c);
        ShiftDigit(multiplier, Value(above), DigitValue(c), num);
      }
    }
  }

  /** The number of column `x`. */
  function ColumnNumber(grid: seq<seq<char>>, x: nat): (r: nat)
    requires Worksheet(grid) && |grid| > 0 && x < |grid[0]|
    ensures r == Value(ColumnDigits(grid, x, |grid| - 1))
  {
    ReadColumnValue(grid, x, |grid| - 1, 1, 0);
    ReadColumn(grid, x, |grid| - 1, 1, 0)
  }

  /** `while let Some(number) = number_stack.pop()`: the stack folded from its top. */
  function Drain(op: Operation, acc: nat, stack: seq<nat>): nat
    decreases |stack|
  {
    if |stack| == 0 then acc
    else Drain(op, Apply(op, acc, stack[|stack| - 1]), stack[..|stack| - 1])
  }

  /** Draining from the top gives the same as solving the stacked numbers as a problem. */
  lemma {:induction false} DrainAggregate(op: Operation, acc: nat, stack: seq<nat>)
    ensures Drain(op, acc, stack) == Apply(op, acc, Aggregate(op, stack))
    decreases |stack|
  {
    if |stack| > 0 {
      var init := stack[..|stack| - 1];
      var top := stack[|stack| - 1];
      DrainAggregate(op, Apply(op, acc, top), init);
      assert stack == init + [top];
      AggregateSnoc(op, init, top);
      ApplyAssoc(op, acc, top, Aggregate(op, init));
      ApplyComm(op, top, Aggregate(op, init));
    }
  }

  datatype Part2State = Part2State(stack: seq<nat>, total: nat)

  /** One column of the outer loop. */
  function Column(grid: seq<seq<char>>, x: nat, st: Part2State): (r: Part2State)
    requires Worksheet(grid) && |grid| > 0 && x < |grid[0]|
  {
    var num := ColumnNumber(grid, x);
    var stack := if num > 0 then st.stack + [num] else st.stack;
    var opChar := grid[|grid| - 1][x];
    if opChar == ' ' then Part2State(stack, st.total)
    else
      var op := ParseFromSymbol(opChar).value;
      Part2State([], st.total + Drain(op, Identity(op), stack))
  }

  /**
   * What a column does: a non-zero number is pushed; an operator column
   * adds the problem formed by the stacked numbers and its operator to the
   * total and empties the stack.
   */
  lemma ColumnEffect(grid: seq<seq<char>>, x: nat, st: Part2State)
    requires Worksheet(grid) && |grid| > 0 && x < |grid[0]|
    ensures var num := Value(ColumnDigits(grid, x, |grid| - 1));
      var stack := if num > 0 then st.stack + [num] else st.stack;
      var opChar := grid[|grid| - 1][x];
      var r := Column(grid, x, st);
      && (opChar == ' ' ==> r == Part2State(stack, st.total))
      && (opChar != ' ' ==>
            && ParseFromSymbol(opChar).Some?
            && r.stack == []
            && r.total == st.total + Solve(Problem(stack, ParseFromSymbol(opChar))))
  {
    var num := ColumnNumber(grid, x);
    var stack := if num > 0 then st.stack + [num] else st.stack;
    var opChar := grid[|grid| - 1][x];
    if opChar != ' ' {
      var op := ParseFromSymbol(opChar).value;
      DrainAggregate(op, Identity(op), stack);
      SolveIsAggregate(Problem(stack, Some(op)));
    }
  }

  /** Columns `x - 1` down to 0. */
  function Columns(grid: seq<seq<char>>, x: nat, st: Part2State): Part2State
    requires Worksheet(grid) && (x > 0 ==> |grid| > 0 && x <= |grid[0]|)
    decreases x
  {
    if x == 0 then st else Columns(grid, x - 1, Column(grid, x - 1, st))
  }

  /** The part 2 total; no rows give 0. */
  function Part2(grid: seq<seq<char>>): (r: nat)
    requires Worksheet(grid)
    ensures |grid| == 0 ==> r == 0
  {
    Columns(grid, UniformLineLength(grid).value, Part2State([], 0)).total
  }

  /** The worksheet of the example: `1` over `23` over `+`, the `1` in the left column. */
  function ExampleSheet(): seq<seq<char>>
  {
    ["1 ", "23", "+ "]
  }

  lemma ExampleIsWorksheet()
    ensures Worksheet(ExampleSheet())
  {
    var grid := ExampleSheet();
    assert forall y, x :: 0 <= y < 2 && 0 <= x < 2 ==> grid[y][x] == ' ' || IsDigit(grid[y][x]);
  }

  lemma ExampleRightNumber()
    ensures Worksheet(ExampleSheet()) && ColumnNumber(ExampleSheet(), 1) == 3
  {
    ExampleIsWorksheet();
    var grid := ExampleSheet();
    assert ColumnDigits(grid, 1, 1) == [];
    assert ColumnDigits(grid, 1, 2) == [] + "3";
    assert Value("3") == Value([]) * 10 + 3;
  }

  lemma ExampleLeftNumber()
    ensures Worksheet(ExampleSheet()) && ColumnNumber(ExampleSheet(), 0) == 12
  {
    ExampleIsWorksheet();
    var grid := ExampleSheet();
    assert ColumnDigits(grid, 0, 1) == [] + "1";
    assert ColumnDigits(grid, 0, 2) == "1" + "2";
    ValueSnoc([], '1');
    ValueSnoc("1", '2');
  }

  /** Its columns read 12 (left) and 3 (right). */
  lemma ExampleNumbers()
    ensures Worksheet(ExampleSheet())
    ensures ColumnNumber(ExampleSheet(), 1) == 3
    ensures ColumnNumber(ExampleSheet(), 0) == 12
  {
    ExampleRightNumber();
    ExampleLeftNumber();
  }

  /** The right column pushes 3. */
  lemma ExampleRightColumn()
    ensures Worksheet(ExampleSheet())
    ensures Column(ExampleSheet(), 1, Part2State([], 0)) == Part2State([3], 0)
  {
    ExampleNumbers();
  }

  /** The left column pushes 12, and its `+` adds 3 + 12 to the total. */
  lemma ExampleLeftColumn()
    ensures Worksheet(ExampleSheet())
    ensures Column(ExampleSheet(), 0, Part2State([3], 0)) == Part2State([], 15)
  {
    ExampleNumbers();
    assert [3] + [12] == [3, 12];
    assert [3, 12][..1] == [3] && [3][..0] == [];
    assert Drain(Add, 0, [3, 12]) == 15;
  }

  lemma Part2Example()
    ensures Worksheet(ExampleSheet()) && Part2(ExampleSheet()) == 15
  {
    ExampleRightColumn();
    ExampleLeftColumn();
    var grid := ExampleSheet();
    assert UniformLineLength(grid).value == 2;
    assert Columns(grid, 2, Part2State([], 0)) == Columns(grid, 1, Part2State([3], 0));
  }
}
