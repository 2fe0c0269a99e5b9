/**
  The playing field of the console tic-tac-toe game: a fixed 3x3 grid of
  cells. The game stores it as three rows of three cells; here it is one
  sequence of nine cells in row-major order, so cell (y, x) sits at
  index 3 * y + x.
 */
module Grid {

  datatype Option<T> = None | Some(value: T)

  /** One square of the field, printed as 'X', '0' and '_' by the game. */
  datatype Cell = Cross | Zero | Empty

  /** A position on the field, 0-based. */
  type Index = i: nat | i < 9

  type Board = b: seq<Cell> | |b| == 9
    witness [Empty, Empty, Empty, Empty, Empty, Empty, Empty, Empty, Empty]

  /** The field every game starts from. */
  const EmptyBoard: Board := seq(9, _ => Empty)

  /** A (row, column) pair, 0-based. Like the game's unsigned pair it can hold any value. */
  datatype Coord = Coord(y: nat, x: nat)

  predicate InRange(c: Coord) {
    c.y < 3 && c.x < 3
  }

  /** The flat index of an in-range coordinate. */
  function At(c: Coord): (i: Index)
    requires InRange(c)
    ensures i / 3 == c.y && i % 3 == c.x
  {
    3 * c.y + c.x
  }

  /** The coordinate of a flat index; row-major scanning of y then x visits 0..8 in order. */
  function CoordOf(i: Index): (c: Coord)
    ensures InRange(c) && At(c) == i
  {
    Coord(i / 3, i % 3)
  }

  /** No cell is empty. */
  predicate Full(b: Board) {
    forall i :: 0 <= i < 9 ==> b[i] != Empty
  }

  /** How many cells of `s` hold `m`. */
  function Count(s: seq<Cell>, m: Cell): (n: nat)
    ensures n <= |s|
  {
    if |s| == 0 then 0 else (if s[0] == m then 1 else 0) + Count(s[1..], m)
  }

  /** The number of marked (non-empty) cells. */
  function Filled(b: Board): nat {
    Count(b, Cross) + Count(b, Zero)
  }

  /** Overwriting one cell moves one unit of count from the old value to the new one. */
  lemma {:induction false} CountUpdate(s: seq<Cell>, i: nat, v: Cell, m: Cell)
    requires i < |s|
    ensures Count(s[i := v], m) == Count(s, m) - (if s[i] == m then 1 else 0) + (if v == m then 1 else 0)
  {
    if i > 0 {
      assert s[i := v][1..] == s[1..][i - 1 := v];
      CountUpdate(s[1..], i - 1, v, m);
    } else {
      assert s[i := v][1..] == s[1..];
    }
  }

  /** Every cell holds one of the three values. */
  lemma {:induction false} CountPartition(s: seq<Cell>)
    ensures Count(s, Cross) + Count(s, Zero) + Count(s, Empty) == |s|
  {
    if |s| > 0 {
      CountPartition(s[1..]);
    }
  }

  /** A sequence counts no `m` exactly when no cell holds `m`. */
  lemma {:induction false} CountZeroIff(s: seq<Cell>, m: Cell)
    ensures (forall i :: 0 <= i < |s| ==> s[i] != m) <==> Count(s, m) == 0
  {
    if |s| > 0 {
      CountZeroIff(s[1..], m);
      assert forall i :: 1 <= i < |s| ==> s[i] == s[1..][i - 1];
    }
  }

  /** The field is full exactly when it has nine marks. */
  lemma FullIffNineFilled(b: Board)
    ensures Full(b) <==> Filled(b) == 9
    ensures Filled(b) + Count(b, Empty) == 9
  {
    CountPartition(b);
    CountZeroIff(b, Empty);
  }
}
