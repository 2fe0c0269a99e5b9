/**
  The outcome evaluator: a pure function from the field and the two
  players' marks to the state of the game.
 */
module Outcome {
  import opened Grid

  datatype Progress = InProgress | WonAi | WonHum | Draw

  /** Which mark each player puts down; fixed when the game starts. */
  datatype Sides = Sides(human: Cell, ai: Cell) {
    /** The two assignments a game start can produce. */
    predicate Valid() {
      (human == Cross && ai == Zero) || (human == Zero && ai == Cross)
    }
  }

  /** Three cells of the field. The first one is the cell the evaluator compares the other two against. */
  datatype Line = Line(i: Index, j: Index, k: Index)

  function Row(y: nat): Line
    requires y < 3
  {
    Line(3 * y, 3 * y + 1, 3 * y + 2)
  }

  function Column(x: nat): Line
    requires x < 3
  {
    Line(x, 3 + x, 6 + x)
  }

  const Diagonal: Line := Line(0, 4, 8)

  /** Top-right to bottom-left, compared against the centre. */
  const AntiDiagonal: Line := Line(4, 2, 6)

  /**
    The eight lines in the order the evaluator first reaches them: row 0,
    then every column (the column loop sits inside the row loop), then
    rows 1 and 2, then the two diagonals. The later passes of the column
    loop look at the same columns again and cannot change the verdict.
   */
  const ScanOrder: seq<Line> :=
    [Row(0), Column(0), Column(1), Column(2), Row(1), Row(2), Diagonal, AntiDiagonal]

  predicate Owns(b: Board, l: Line, m: Cell) {
    b[l.i] == m && b[l.j] == m && b[l.k] == m
  }

  /** Three equal marks: the game is won on this line. */
  predicate Complete(b: Board, l: Line) {
    b[l.i] != Empty && Owns(b, l, b[l.i])
  }

  /** Neither player holds all three cells of the line. */
  predicate Unowned(b: Board, s: Sides, l: Line) {
    !Owns(b, l, s.human) && !Owns(b, l, s.ai)
  }

  /** Some line of the field is held entirely by `m`. */
  predicate OwnsSome(b: Board, m: Cell) {
    exists l :: l in ScanOrder && Owns(b, l, m)
  }

  /** The outcome a complete line of mark `m` announces. */
  function Winner(s: Sides, m: Cell): Progress {
    if m == s.human then WonHum else WonAi
  }

  /**
    One line test: the three cells are equal, and their common value is
    the human's mark (checked first) or the computer's. A line of equal
    cells holding neither mark, such as three empty cells, decides nothing.
   */
  function Decide(b: Board, s: Sides, l: Line): (r: Option<Progress>)
    ensures r.None? <==> Unowned(b, s, l)
    ensures r == Some(WonHum) <==> Owns(b, l, s.human)
    ensures r == Some(WonAi) <==> Owns(b, l, s.ai) && !Owns(b, l, s.human)
    ensures r.Some? ==> r.value == WonHum || r.value == WonAi
  {
    if b[l.i] == b[l.j] && b[l.i] == b[l.k] then
      if b[l.i] == s.human then Some(WonHum)
      else if b[l.i] == s.ai then Some(WonAi)
      else None
    else None
  }

  /** The inner loop of the evaluator: columns x..2, stopping at the first decisive one. */
  function ScanColumns(b: Board, s: Sides, x: nat): (r: Option<Progress>)
    requires x <= 3
    decreases 3 - x
    ensures r.None? <==> forall x' :: x <= x' < 3 ==> Unowned(b, s, Column(x'))
    ensures r == Some(WonHum) ==> exists x' :: x <= x' < 3 && Owns(b, Column(x'), s.human)
    ensures r == Some(WonAi) ==> exists x' :: x <= x' < 3 && Owns(b, Column(x'), s.ai)
    ensures r.Some? ==> r.value == WonHum || r.value == WonAi
  {
    if x == 3 then None
    else
      match Decide(b, s, Column(x))
      case Some(p) => Some(p)
      case None => ScanColumns(b, s, x + 1)
  }

  /** Both diagonals, then the draw test: a field with no empty cell is a draw. */
  function ScanDiagonals(b: Board, s: Sides): (p: Progress)
    ensures p == WonHum ==> Owns(b, Diagonal, s.human) || Owns(b, AntiDiagonal, s.human)
    ensures p == WonAi ==> Owns(b, Diagonal, s.ai) || Owns(b, AntiDiagonal, s.ai)
    ensures p == Draw || p == InProgress <==> Unowned(b, s, Diagonal) && Unowned(b, s, AntiDiagonal)
    ensures p == Draw ==> Full(b)
    ensures p == InProgress ==> !Full(b)
  {
    match Decide(b, s, Diagonal)
    case Some(p) => p
    case None =>
      match Decide(b, s, AntiDiagonal)
      case Some(p) => p
      case None => if Full(b) then Draw else InProgress
  }

  /** The outer loop of the evaluator: row y, then the column loop, then the rows below. */
  function ScanRows(b: Board, s: Sides, y: nat): (p: Progress)
    requires y <= 3
    decreases 3 - y
    ensures p == WonHum ==> OwnsSome(b, s.human)
    ensures p == WonAi ==> OwnsSome(b, s.ai)
    ensures p == Draw || p == InProgress ==>
      && (forall y' :: y <= y' < 3 ==> Unowned(b, s, Row(y')))
      && (y < 3 ==> forall x :: 0 <= x < 3 ==> Unowned(b, s, Column(x)))
      && Unowned(b, s, Diagonal) && Unowned(b, s, AntiDiagonal)
    ensures p == Draw ==> Full(b)
    ensures p == InProgress ==> !Full(b)
  {
    if y == 3 then ScanDiagonals(b, s)
    else
      match Decide(b, s, Row(y))
      case Some(p) => RowInScan(y); p
      case None =>
        match ScanColumns(b, s, 0)
        case Some(p) => ColumnsInScan(); p
        case None => ScanRows(b, s, y + 1)
  }

  lemma RowInScan(y: nat)
    requires y < 3
    ensures Row(y) in ScanOrder
  {
    if y == 0 {
      assert ScanOrder[0] == Row(y);
    } else if y == 1 {
      assert ScanOrder[4] == Row(y);
    } else {
      assert ScanOrder[5] == Row(y);
    }
  }

  lemma ColumnsInScan()
    ensures forall x :: 0 <= x < 3 ==> Column(x) in ScanOrder
  {
    assert ScanOrder[1] == Column(0);
    assert ScanOrder[2] == Column(1);
    assert ScanOrder[3] == Column(2);
  }

  /**
    The evaluator. A win is only reported for a line the winner holds
    entirely; a draw or an unfinished game only when no line is held by
    either player, told apart by whether an empty cell is left.
   */
  function GetWon(b: Board, s: Sides): (p: Progress)
    ensures p == WonHum ==> OwnsSome(b, s.human)
    ensures p == WonAi ==> OwnsSome(b, s.ai)
    ensures p == Draw || p == InProgress <==> forall l :: l in ScanOrder ==> Unowned(b, s, l)
    ensures p == Draw ==> Full(b)
    ensures p == InProgress ==> !Full(b)
  {
    var p := ScanRows(b, s, 0);
    assert p == Draw || p == InProgress ==> forall l :: l in ScanOrder ==> Unowned(b, s, l);
    assert (forall l :: l in ScanOrder ==> Unowned(b, s, l)) ==> p == Draw || p == InProgress by {
      if p == WonHum || p == WonAi {
        var m := if p == WonHum then s.human else s.ai;
        var l :| l in ScanOrder && Owns(b, l, m);
        assert !Unowned(b, s, l);
      }
    }
    p
  }

  /** With a valid assignment, a complete line is one that one of the players holds. */
  lemma CompleteMeansOwned(b: Board, s: Sides, l: Line)
    requires s.Valid()
    ensures Complete(b, l) <==> !Unowned(b, s, l)
    ensures Complete(b, l) ==> Owns(b, l, b[l.i]) && (b[l.i] == s.human || b[l.i] == s.ai)
  {
  }

  /** No line of the scan is complete. */
  predicate NoLine(b: Board) {
    forall l :: l in ScanOrder ==> !Complete(b, l)
  }

  /** A draw is exactly a full field on which no line is complete. */
  lemma DrawIff(b: Board, s: Sides)
    requires s.Valid()
    ensures GetWon(b, s) == Draw <==> NoLine(b) && Full(b)
  {
    forall l | l in ScanOrder {
      CompleteMeansOwned(b, s, l);
    }
  }

  /** The game goes on exactly when no line is complete and some cell is empty. */
  lemma InProgressIff(b: Board, s: Sides)
    requires s.Valid()
    ensures GetWon(b, s) == InProgress <==> NoLine(b) && !Full(b)
  {
    forall l | l in ScanOrder {
      CompleteMeansOwned(b, s, l);
    }
  }

  /** A complete line anywhere means the evaluator reports a winner. */
  lemma CompleteLineWins(b: Board, s: Sides, l: Line)
    requires s.Valid() && l in ScanOrder && Complete(b, l)
    ensures GetWon(b, s) == WonHum || GetWon(b, s) == WonAi
  {
    CompleteMeansOwned(b, s, l);
  }

  /**
    Three empty cells in a line are equal but decide nothing: the line
    test falls through and the scan goes on.
   */
  lemma EmptyLineIsNoWin(b: Board, s: Sides, l: Line)
    requires s.Valid() && Owns(b, l, Empty)
    ensures Decide(b, s, l).None?
    ensures !Complete(b, l)
  {
  }

  /**
    The first complete line in scan order decides the outcome, even when a
    later line is complete for the other player.
   */
  lemma {:induction false} FirstCompleteLineDecides(b: Board, s: Sides, n: nat)
    requires s.Valid() && n < |ScanOrder| && Complete(b, ScanOrder[n])
    requires forall k :: 0 <= k < n ==> !Complete(b, ScanOrder[k])
    ensures GetWon(b, s) == Winner(s, b[ScanOrder[n].i])
  {
    forall k | 0 <= k < |ScanOrder| {
      CompleteMeansOwned(b, s, ScanOrder[k]);
    }
    assert ScanOrder[0] == Row(0) && ScanOrder[4] == Row(1) && ScanOrder[5] == Row(2);
    assert ScanOrder[1] == Column(0) && ScanOrder[2] == Column(1) && ScanOrder[3] == Column(2);
    var w := Winner(s, b[ScanOrder[n].i]);
    if n == 0 {
    } else if n <= 3 {
      if n == 1 {
        assert Decide(b, s, Column(0)) == Some(w);
      } else if n == 2 {
        assert Decide(b, s, Column(1)) == Some(w);
        assert ScanColumns(b, s, 1) == Some(w);
      } else {
        assert Decide(b, s, Column(2)) == Some(w);
        assert ScanColumns(b, s, 2) == Some(w);
        assert ScanColumns(b, s, 1) == Some(w);
      }
      assert ScanColumns(b, s, 0) == Some(w);
    } else {
      assert ScanColumns(b, s, 0).None?;
      assert ScanRows(b, s, 0) == ScanRows(b, s, 1);
      if n > 4 {
        assert ScanRows(b, s, 1) == ScanRows(b, s, 2);
        if n > 5 {
          assert ScanRows(b, s, 2) == ScanRows(b, s, 3);
        }
      }
    }
  }
}
