/** The elementary cellular automaton of src/lib.rs: a row of 0/1 cells is
    seeded, then each following row is computed from the previous one by a
    Wolfram rule number, cells beyond either edge reading as 0. */
module Automaton {
  import opened Wrappers

  type Row = seq<bv8>

  predicate IsBinary(row: Row)
  {
    forall i :: 0 <= i < |row| ==> row[i] <= 1
  }

  /** The left and right neighbours of cell `i`; the row does not wrap. */
  function Left(row: Row, i: int): bv8
    requires 0 <= i < |row|
  {
    if i == 0 then 0 else row[i - 1]
  }

  function Right(row: Row, i: int): bv8
    requires 0 <= i < |row|
  {
    if i == |row| - 1 then 0 else row[i + 1]
  }

  /** The rule-table index of cell `i`: `(left << 2) | (center << 1) | right`. */
  function Pattern(row: Row, i: int): (idx: bv8)
    requires IsBinary(row) && 0 <= i < |row|
    ensures idx < 8
  {
    (Left(row, i) << 2) | (row[i] << 1) | Right(row, i)
  }

  /** The next state of cell `i`: bit `Pattern` of the rule. */
  function NextCell(rule: bv8, row: Row, i: int): (cell: bv8)
    requires IsBinary(row) && 0 <= i < |row|
    ensures cell <= 1
  {
    (rule >> Pattern(row, i)) & 1
  }

  /** One generation: every cell takes its next state, all from the old row. */
  function Step(rule: bv8, row: Row): (next: Row)
    requires IsBinary(row)
    ensures |next| == |row| && IsBinary(next)
  {
    seq(|row|, i requires 0 <= i < |row| => NextCell(rule, row, i))
  }

  /** Binary digit `k` of `n`: the Wolfram numbering's reading of a rule. */
  function Bit(n: nat, k: nat): nat
  {
    if k == 0 then n % 2 else Bit(n / 2, k - 1)
  }

  /** The state of cell `j` as a number, 0 outside the row. */
  function CellValue(row: Row, j: int): nat
  {
    if 0 <= j < |row| then row[j] as nat else 0
  }

  lemma HalveBits(rule: bv8)
    ensures (rule >> 1) as int == rule as int / 2
  {
  }

  lemma LowBit(rule: bv8)
    ensures (rule & 1) as int == rule as int % 2
  {
  }

  lemma ShiftSplit(rule: bv8, k: nat)
    requires 0 < k < 8
    ensures rule >> k == (rule >> 1) >> (k - 1)
  {
  }

  lemma {:induction false} ShiftBit(rule: bv8, k: nat)
    requires k < 8
    ensures ((rule >> k) & 1) as int == Bit(rule as int, k)
    decreases k
  {
    if k == 0 {
      LowBit(rule);
    } else {
      ShiftBit(rule >> 1, k - 1);
      ShiftSplit(rule, k);
      HalveBits(rule);
    }
  }

  lemma PackPattern(l: bv8, c: bv8, r: bv8)
    requires l <= 1 && c <= 1 && r <= 1
    ensures ((l << 2) | (c << 1) | r) as int == 4 * l as int + 2 * c as int + r as int
  {
  }

  /** Every new cell is bit `4 * left + 2 * center + right` of the rule number,
      with the cells off either edge counting as 0. */
  lemma StepIsRuleBit(rule: bv8, row: Row, i: int)
    requires IsBinary(row) && 0 <= i < |row|
    ensures Step(rule, row)[i] as int ==
            Bit(rule as int, 4 * CellValue(row, i - 1) + 2 * CellValue(row, i) + CellValue(row, i + 1))
  {
    PackPattern(Left(row, i), row[i], Right(row, i));
    ShiftBit(rule, Pattern(row, i) as int);
  }

  /** Under rule 90 a single live cell in the middle of five splits in two. */
  lemma Rule90Example()
    ensures Step(90, [0, 0, 1, 0, 0]) == [0, 1, 0, 1, 0]
  {
    var row: Row := [0, 0, 1, 0, 0];
    assert Pattern(row, 0) == 0 && Pattern(row, 1) == 1 && Pattern(row, 2) == 2;
    assert Pattern(row, 3) == 4 && Pattern(row, 4) == 0;
  }

  /** Bits 0 to 7 of 90, i.e. 0b0101_1010. */
  lemma Bit90(k: nat)
    requires k < 8
    ensures Bit(90, k) == [0, 1, 0, 1, 1, 0, 1, 0][k]
  {
    assert Bit(90, 0) == 0 && Bit(45, 0) == 1 && Bit(22, 0) == 0 && Bit(11, 0) == 1;
    assert Bit(5, 0) == 1 && Bit(2, 0) == 0 && Bit(1, 0) == 1 && Bit(0, 0) == 0;
    assert Bit(90, 7) == Bit(45, 6) == Bit(22, 5) == Bit(11, 4) == Bit(5, 3) == Bit(2, 2) == Bit(1, 1) == Bit(0, 0);
    assert Bit(90, 6) == Bit(45, 5) == Bit(22, 4) == Bit(11, 3) == Bit(5, 2) == Bit(2, 1) == Bit(1, 0);
    assert Bit(90, 5) == Bit(45, 4) == Bit(22, 3) == Bit(11, 2) == Bit(5, 1) == Bit(2, 0);
    assert Bit(90, 4) == Bit(45, 3) == Bit(22, 2) == Bit(11, 1) == Bit(5, 0);
    assert Bit(90, 3) == Bit(45, 2) == Bit(22, 1) == Bit(11, 0);
    assert Bit(90, 2) == Bit(45, 1) == Bit(22, 0);
  }

  /** 1 when two cells differ, 0 when they agree. */
  function Differ(p: bv8, q: bv8): bv8
  {
    if p == q then 0 else 1
  }

  /** Under rule 90 every cell becomes the exclusive or of its two
      neighbours, the cells off either edge counting as 0. */
  lemma Rule90Xor(row: Row, i: int)
    requires IsBinary(row) && 0 <= i < |row|
    ensures Step(90, row)[i] == Differ(Left(row, i), Right(row, i))
  {
    StepIsRuleBit(90, row, i);
    var l, c, r := CellValue(row, i - 1), CellValue(row, i), CellValue(row, i + 1);
    Bit90(4 * l + 2 * c + r);
    assert l == Left(row, i) as nat && r == Right(row, i) as nat;
    assert Left(row, i) == 0 || Left(row, i) == 1;
    assert Right(row, i) == 0 || Right(row, i) == 1;
  }

  /** What rule 90 makes of a row: each cell the exclusive or of its
      neighbours. */
  function Xor90(row: Row): (next: Row)
    ensures |next| == |row|
  {
    seq(|row|, i requires 0 <= i < |row| => Differ(Left(row, i), Right(row, i)))
  }

  lemma Rule90Row(row: Row)
    requires IsBinary(row)
    ensures Step(90, row) == Xor90(row)
  {
    forall i | 0 <= i < |row| ensures Step(90, row)[i] == Xor90(row)[i] {
      Rule90Xor(row, i);
    }
  }

  /** Rule 90 widens a single live cell into a growing triangle. */
  lemma Rule90Steps()
    ensures Step(90, [0, 0, 0, 1, 0, 0, 0]) == [0, 0, 1, 0, 1, 0, 0]
    ensures Step(90, [0, 0, 1, 0, 1, 0, 0]) == [0, 1, 0, 0, 0, 1, 0]
    ensures Step(90, [0, 1, 0, 0, 0, 1, 0]) == [1, 0, 1, 0, 1, 0, 1]
  {
    var r0: Row, r1: Row, r2: Row := [0, 0, 0, 1, 0, 0, 0], [0, 0, 1, 0, 1, 0, 0], [0, 1, 0, 0, 0, 1, 0];
    Rule90Row(r0);
    SevenCells(Xor90(r0));
    Rule90Row(r1);
    SevenCells(Xor90(r1));
    Rule90Row(r2);
    SevenCells(Xor90(r2));
  }

  lemma SevenCells(row: Row)
    requires |row| == 7
    ensures row == [row[0], row[1], row[2], row[3], row[4], row[5], row[6]]
  {
  }

  /** Four generations of rule 90 from a single live cell in a row of seven
      draw the start of a Sierpinski triangle; `run_automaton` lays them end
      to end. */
  lemma Rule90History()
    ensures History(90, [0, 0, 0, 1, 0, 0, 0], 4) ==
            [[0, 0, 0, 1, 0, 0, 0], [0, 0, 1, 0, 1, 0, 0], [0, 1, 0, 0, 0, 1, 0], [1, 0, 1, 0, 1, 0, 1]]
    ensures Flatten(History(90, [0, 0, 0, 1, 0, 0, 0], 4)) ==
            [0, 0, 0, 1, 0, 0, 0] + [0, 0, 1, 0, 1, 0, 0] + [0, 1, 0, 0, 0, 1, 0] + [1, 0, 1, 0, 1, 0, 1]
  {
    var r0: Row := [0, 0, 0, 1, 0, 0, 0];
    var r1: Row := [0, 0, 1, 0, 1, 0, 0];
    var r2: Row := [0, 1, 0, 0, 0, 1, 0];
    var r3: Row := [1, 0, 1, 0, 1, 0, 1];
    Rule90Steps();
    var h := History(90, r0, 4);
    assert h[0] == r0 && h[1] == r1 && h[2] == r2 && h[3] == r3;
    assert h == [r0, r1, r2, r3];
    FlattenFour(r0, r1, r2, r3);
  }

  lemma FlattenFour(r0: Row, r1: Row, r2: Row, r3: Row)
    ensures Flatten([r0, r1, r2, r3]) == r0 + r1 + r2 + r3
  {
    assert [r0][..0] == [];
    assert Flatten([r0]) == r0;
    assert [r0, r1][..1] == [r0];
    assert Flatten([r0, r1]) == r0 + r1;
    assert [r0, r1, r2][..2] == [r0, r1];
    assert Flatten([r0, r1, r2]) == r0 + r1 + r2;
    assert [r0, r1, r2, r3][..3] == [r0, r1, r2];
  }

  /** Rule 0 clears every cell, whatever the row holds. */
  lemma RuleZeroClears(row: Row)
    requires IsBinary(row)
    ensures forall i :: 0 <= i < |row| ==> Step(0, row)[i] == 0
  {
  }

  /** The row after `n` generations. */
  function Iterate(rule: bv8, row: Row, n: nat): (r: Row)
    requires IsBinary(row)
    ensures |r| == |row| && IsBinary(r)
    decreases n
  {
    if n == 0 then row else Step(rule, Iterate(rule, row, n - 1))
  }

  /** The first `count` rows of a run from `row0`: row g is the g-th iterate. */
  function History(rule: bv8, row0: Row, count: nat): (rows: seq<Row>)
    requires IsBinary(row0)
    ensures |rows| == count
    ensures forall g :: 0 <= g < count ==> |rows[g]| == |row0| && IsBinary(rows[g])
  {
    seq(count, g requires 0 <= g < count => Iterate(rule, row0, g))
  }

  /** Every row of a history after the first is the step of the row before
      it, and nothing else. */
  lemma HistoryStep(rule: bv8, row0: Row, count: nat, g: nat)
    requires IsBinary(row0) && 0 < g < count
    ensures History(rule, row0, count)[g] == Step(rule, History(rule, row0, count)[g - 1])
  {
  }

  /** With rule 0 every row of a history from index 1 onward is all zeros. */
  lemma RuleZeroHistory(row0: Row, count: nat, g: nat, i: int)
    requires IsBinary(row0) && 1 <= g < count && 0 <= i < |row0|
    ensures History(0, row0, count)[g][i] == 0
  {
    RuleZeroClears(Iterate(0, row0, g - 1));
  }

  /** Rows laid end to end. */
  function Flatten(rows: seq<Row>): (flat: seq<bv8>)
    decreases |rows|
  {
    if rows == [] then [] else Flatten(rows[..|rows| - 1]) + rows[|rows| - 1]
  }

  /** Cell i of row g of `count` rows of width w has a slot among them. */
  lemma {:induction false} RowSlot(g: int, i: int, w: int, count: int)
    requires 0 <= g < count && 0 <= i < w
    ensures 0 <= g * w + i < count * w
    decreases count
  {
    assert count * w == (count - 1) * w + w;
    if g < count - 1 {
      RowSlot(g, i, w, count - 1);
    } else if g > 0 {
      RowSlot(g - 1, i, w, g);
    }
  }

  /** Rows of width `w` laid end to end hold `|rows| * w` cells. */
  lemma {:induction false} FlattenLength(rows: seq<Row>, w: nat)
    requires forall g :: 0 <= g < |rows| ==> |rows[g]| == w
    ensures |Flatten(rows)| == |rows| * w
    decreases |rows|
  {
    if rows != [] {
      var n := |rows| - 1;
      FlattenLength(rows[..n], w);
      assert |rows| * w == n * w + w;
    }
  }

  /** Rows of width `w` laid end to end: cell i of row g sits at `g * w + i`. */
  lemma {:induction false} FlattenCell(rows: seq<Row>, w: nat, g: int, i: int)
    requires forall g :: 0 <= g < |rows| ==> |rows[g]| == w
    requires 0 <= g < |rows| && 0 <= i < w
    ensures g * w + i < |Flatten(rows)| && Flatten(rows)[g * w + i] == rows[g][i]
    decreases |rows|
  {
    var n := |rows| - 1;
    var front := rows[..n];
    FlattenLength(front, w);
    var flatFront := Flatten(front);
    assert Flatten(rows) == flatFront + rows[n];
    if g < n {
      FlattenCell(front, w, g, i);
      RowSlot(g, i, w, n);
      assert front[g] == rows[g];
    } else {
      assert g * w + i == |flatFront| + i;
    }
  }

  /** The flat output holds `count * width` cells, each 0 or 1. */
  lemma FlatHistoryShape(rule: bv8, row0: Row, count: nat)
    requires IsBinary(row0)
    ensures |Flatten(History(rule, row0, count))| == count * |row0|
    ensures IsBinary(Flatten(History(rule, row0, count)))
  {
    var rows, w := History(rule, row0, count), |row0|;
    FlattenLength(rows, w);
    var flat := Flatten(rows);
    forall k | 0 <= k < |flat| ensures flat[k] <= 1 {
      SplitIndex(k, w, count);
      FlattenCell(rows, w, k / w, k % w);
    }
  }

  /** An index below `count * w` is some cell of some row. */
  lemma SplitIndex(k: int, w: int, count: int)
    requires 0 <= k < count * w && w >= 0
    ensures w > 0 && 0 <= k / w < count && 0 <= k % w < w && k == k / w * w + k % w
  {
    if w == 0 {
      assert false;
    }
    var g := k / w;
    if g >= count {
      assert false;
    }
  }

  datatype AutomatonError = CentreOutOfRange

  /** Whether a run draws its first row at random: only for a distribution
      above 0. */
  predicate RandomStart(distribution: Option<real>)
  {
    distribution.Some? && distribution.value > 0.0
  }

  /** The first row of a run. `draws[i]` stands for whether the i-th number
      drawn from the generator fell below the distribution. Otherwise the
      single cell at `width / 2` is set, which a row of width 0 does not have. */
  function InitialRow(distribution: Option<real>, draws: seq<bool>, width: nat): (r: Result<Row, AutomatonError>)
    requires |draws| == width
    ensures r.Ok? ==> |r.value| == width && IsBinary(r.value)
  {
    if RandomStart(distribution) then
      Ok(seq(width, i requires 0 <= i < width => if draws[i] then 1 else 0))
    else if width == 0 then
      Err(CentreOutOfRange)
    else
      Ok(seq(width, i requires 0 <= i < width => if i == width / 2 then 1 else 0))
  }

  /** Without a positive distribution the first row holds exactly one live
      cell, at `width / 2`; a row of width 0 is an error. */
  lemma CentreStart(distribution: Option<real>, draws: seq<bool>, width: nat)
    requires |draws| == width && !RandomStart(distribution)
    ensures width == 0 <==> InitialRow(distribution, draws, width).Err?
    ensures width > 0 ==>
      var row := InitialRow(distribution, draws, width).value;
      row[width / 2] == 1 && (set i | 0 <= i < width && row[i] != 0) == {width / 2}
  {
  }

  /** With a positive distribution cell i is live exactly when draw i fell
      below it. */
  lemma RandomStartRow(distribution: Option<real>, draws: seq<bool>, width: nat, i: int)
    requires |draws| == width && RandomStart(distribution) && 0 <= i < width
    ensures InitialRow(distribution, draws, width).Ok?
    ensures InitialRow(distribution, draws, width).value[i] == 1 <==> draws[i]
  {
  }

  /** How many rows a run emits: the first row always, then one per further
      generation, so a request for 0 generations still yields one row. */
  function RowCount(generations: nat): (n: nat)
    ensures n >= 1 && n >= generations && (generations >= 1 ==> n == generations)
  {
    if generations == 0 then 1 else generations
  }

  /** The first row, built in place in a fresh vector of zeros. */
  method SeedRow(distribution: Option<real>, draws: seq<bool>, width: nat)
    returns (r: Result<array<bv8>, AutomatonError>)
    requires |draws| == width
    ensures InitialRow(distribution, draws, width).Err? ==> r == Err(CentreOutOfRange)
    ensures InitialRow(distribution, draws, width).Ok? ==>
      r.Ok? && fresh(r.value) && r.value[..] == InitialRow(distribution, draws, width).value
  {
    var current := new bv8[width](_ => 0);
    if RandomStart(distribution) {
      for i := 0 to width
        invariant forall j :: 0 <= j < i ==> current[j] == if draws[j] then 1 else 0
      {
        current[i] := if draws[i] then 1 else 0;
      }
    } else {
      if width == 0 {
        return Err(CentreOutOfRange);
      }
      current[width / 2] := 1;
    }
    return Ok(current);
  }

  /** The inner loop of both runs: a fresh row of zeros whose cells are
      then set, left to right, from the current row. */
  method StepRow(rule: bv8, current: array<bv8>) returns (next: array<bv8>)
    requires IsBinary(current[..])
    ensures fresh(next) && next[..] == Step(rule, current[..])
  {
    var width := current.Length;
    next := new bv8[width](_ => 0);
    for i := 0 to width
      invariant forall j :: 0 <= j < i ==> next[j] == Step(rule, current[..])[j]
    {
      var left := if i == 0 then 0 else current[i - 1];
      var center := current[i];
      var right := if i == width - 1 then 0 else current[i + 1];
      var idx := (left << 2) | (center << 1) | right;
      assert idx == Pattern(current[..], i);
      next[i] := (rule >> idx) & 1;
    }
  }

  /** run_automaton: the seeded row followed by `generations - 1` further
      rows, laid end to end; the history of the rule from the first row. */
  method RunAutomaton(rule: bv8, distribution: Option<real>, width: nat, generations: nat, draws: seq<bool>)
    returns (r: Result<seq<bv8>, AutomatonError>)
    requires |draws| == width
    ensures InitialRow(distribution, draws, width).Err? ==> r == Err(CentreOutOfRange)
    ensures InitialRow(distribution, draws, width).Ok? ==>
      r == Ok(Flatten(History(rule, InitialRow(distribution, draws, width).value, RowCount(generations))))
  {
    var seeded := SeedRow(distribution, draws, width);
    if seeded.Err? {
      return Err(seeded.error);
    }
    var current := seeded.value;
    ghost var row0 := current[..];
    var out := current[..];
    assert History(rule, row0, 1) == [row0];
    var g := 1;
    while g < generations
      invariant 1 <= g <= RowCount(generations)
      invariant current[..] == Iterate(rule, row0, g - 1)
      invariant out == Flatten(History(rule, row0, g))
    {
      current, out := AppendGeneration(rule, row0, g, current, out);
      g := g + 1;
    }
    return Ok(out);
  }

  /** One pass of run_automaton's generation loop: step the current row and
      append the new row to the output. */
  method AppendGeneration(rule: bv8, ghost row0: Row, ghost g: nat, current: array<bv8>, out: seq<bv8>)
    returns (next: array<bv8>, out': seq<bv8>)
    requires IsBinary(row0) && g >= 1
    requires current[..] == Iterate(rule, row0, g - 1) && out == Flatten(History(rule, row0, g))
    ensures fresh(next) && next[..] == Iterate(rule, row0, g)
    ensures out' == Flatten(History(rule, row0, g + 1))
  {
    next := StepRow(rule, current);
    FlattenHistoryNext(rule, row0, g);
    out' := out + next[..];
  }

  /** One more generation appends the next iterate to the flat history. */
  lemma FlattenHistoryNext(rule: bv8, row0: Row, g: nat)
    requires IsBinary(row0)
    ensures Flatten(History(rule, row0, g + 1)) == Flatten(History(rule, row0, g)) + Iterate(rule, row0, g)
  {
    var longer := History(rule, row0, g + 1);
    assert longer[..g] == History(rule, row0, g);
    assert longer[g] == Iterate(rule, row0, g);
  }

  /** The stepping of generate_automaton_image: the same run, kept as one
      vector per row. It is the history run_automaton lays end to end. */
  method AutomatonRows(rule: bv8, distribution: Option<real>, width: nat, generations: nat, draws: seq<bool>)
    returns (r: Result<seq<Row>, AutomatonError>)
    requires |draws| == width
    ensures InitialRow(distribution, draws, width).Err? ==> r == Err(CentreOutOfRange)
    ensures InitialRow(distribution, draws, width).Ok? ==>
      r == Ok(History(rule, InitialRow(distribution, draws, width).value, RowCount(generations)))
  {
    var seeded := SeedRow(distribution, draws, width);
    if seeded.Err? {
      return Err(seeded.error);
    }
    var current := seeded.value;
    ghost var row0 := current[..];
    var rows := [current[..]];
    var g := 1;
    while g < generations
      invariant 1 <= g <= RowCount(generations)
      invariant current[..] == Iterate(rule, row0, g - 1)
      invariant rows == History(rule, row0, g)
    {
      var next := StepRow(rule, current);
      rows := rows + [next[..]];
      current := next;
      g := g + 1;
    }
    return Ok(rows);
  }
}
