/**
  Concrete positions that pin the selector's tiers down on fixed fields.
 */
module Scenarios {
  import opened Grid
  import opened Outcome
  import opened Opponent

  const X := Cross
  const O := Zero
  const E := Empty

  /** On hard, an empty field gets the centre: no win, no block, centre free. */
  lemma CentreOnEmptyField(b: Board, s: Sides, chance: int, pick: nat)
    requires s.Valid() && forall i :: 0 <= i < 9 ==> b[i] == Empty
    ensures AICoord(b, s, Hard, chance, pick).coord == Centre
  {
    forall i: Index
      ensures !WinAt(b, s, i) && !BlockAt(b, s, i)
    {
      SinglePlacementNoWin(b, s, s.ai, i);
      SinglePlacementNoWin(b, s, s.human, i);
    }
    assert NoWin(b, s) && NoBlock(b, s);
    assert b[4] == Empty;
  }

  /** One mark on an empty field completes no line. */
  lemma SinglePlacementNoWin(b: Board, s: Sides, mark: Cell, i: Index)
    requires s.Valid() && (mark == s.human || mark == s.ai)
    requires forall i :: 0 <= i < 9 ==> b[i] == Empty
    ensures GetWon(b[i := mark], s) == InProgress
  {
    var b' := b[i := mark];
    forall l | l in ScanOrder
      ensures Unowned(b', s, l)
    {
      assert l.i != l.j;
      assert b'[l.i] == Empty || b'[l.j] == Empty;
    }
    assert b'[(i + 1) % 9] == Empty;
  }

  /**
    The computer plays cross with X at (0,0) and (0,1) and O at (1,0) and
    (1,1): both sides threaten, and the win at (0,2) is taken.
   */
  lemma WinTakenOverBlock(chance: int, pick: nat)
    ensures AICoord([X, X, E, O, O, E, E, E, E], Sides(Zero, Cross), Hard, chance, pick).coord == Coord(0, 2)
  {
    var b: Board := [X, X, E, O, O, E, E, E, E];
    var s := Sides(Zero, Cross);
    assert WinAt(b, s, 2) by {
      assert Owns(b[2 := X], ScanOrder[0], X);
    }
    assert !WinAt(b, s, 0) && !WinAt(b, s, 1);
  }

  /** The human's cross at (0,0) and (2,2), the computer's zero at the centre, the rest empty. */
  predicate OpposedCorners(b: Board) {
    && b[0] == X && b[4] == O && b[8] == X
    && b[1] == E && b[2] == E && b[3] == E && b[5] == E && b[6] == E && b[7] == E
  }

  /**
    With the human on two opposite corners and the computer in the centre
    there is nothing to win or block, so a free corner is drawn: (2,0) or (0,2).
   */
  lemma CornerAfterOpposedCorners(b: Board, chance: int, pick: nat)
    requires OpposedCorners(b)
    ensures AICoord(b, Sides(Cross, Zero), Hard, chance, pick).coord in {Coord(2, 0), Coord(0, 2)}
  {
    OpposedCornersNoThreat(b);
    assert AICoord(b, Sides(Cross, Zero), Hard, chance, pick).coord == Fallback(b, pick);
    FreeCornerOfOpposed(b, pick);
  }

  /** With the centre taken and (0,0), (2,2) held, the corner tier draws (2,0) or (0,2). */
  lemma FreeCornerOfOpposed(b: Board, pick: nat)
    requires OpposedCorners(b)
    ensures Fallback(b, pick) in {Coord(2, 0), Coord(0, 2)}
  {
    assert Corners[2] == 6 && b[6] == Empty;
    var c := Fallback(b, pick);
    assert At(c) in Corners && b[At(c)] == Empty;
    assert At(c) == 6 || At(c) == 2;
    if At(c) == 6 {
      assert c.y == 2 && c.x == 0;
    } else {
      assert c.y == 0 && c.x == 2;
    }
  }

  /** On that field neither player can complete a line with one more mark. */
  lemma OpposedCornersNoThreat(b: Board)
    requires OpposedCorners(b)
    ensures NoWin(b, Sides(Cross, Zero)) && NoBlock(b, Sides(Cross, Zero))
  {
    forall i: Index
      ensures !WinAt(b, Sides(Cross, Zero), i) && !BlockAt(b, Sides(Cross, Zero), i)
    {
      TwoPlusOneNoWin(b, O, i);
      TwoPlusOneNoWin(b, X, i);
    }
  }

  /** On that field no single placement completes a line. */
  lemma TwoPlusOneNoWin(b: Board, mark: Cell, i: Index)
    requires OpposedCorners(b) && (mark == X || mark == O)
    ensures b[i] == Empty ==> GetWon(b[i := mark], Sides(Cross, Zero)) == InProgress
  {
    if b[i] == Empty {
      var b' := b[i := mark];
      forall l | l in ScanOrder
        ensures Unowned(b', Sides(Cross, Zero), l)
      {
      }
      assert b'[if i == 1 then 2 else 1] == Empty;
    }
  }
}
