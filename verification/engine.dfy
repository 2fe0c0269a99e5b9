/**
  The turn engine: the start of a game (difficulty, who plays cross, who
  moves first), the check on the human's typed coordinates, and the loop
  that alternates the two players until the evaluator reports an end.
 */
module Engine {
  import opened Grid
  import opened Outcome
  import opened Opponent

  /** Everything the game keeps between moves. */
  datatype Game = Game(field: Board, turn: nat, sides: Sides, level: Level, progress: Progress)

  /** The mark of the player to move: even turns are the human's, odd turns the computer's. */
  function MoverMark(g: Game): (m: Cell)
    ensures g.sides.Valid() ==> (m == g.sides.human <==> g.turn % 2 == 0)
    ensures g.sides.Valid() ==> (m == g.sides.ai <==> g.turn % 2 == 1)
  {
    if g.turn % 2 == 0 then g.sides.human else g.sides.ai
  }

  /** The turn counter a game starts from: 0 when the human plays cross, 1 otherwise. */
  function FirstTurn(s: Sides): nat {
    if s.human == Cross then 0 else 1
  }

  /**
    The counting half of the invariant: the counter has advanced once per
    mark, and cross leads zero by the parity of the number of marks, which
    is what "cross moves first and the players alternate" leaves behind.
   */
  predicate Tally(g: Game) {
    && g.turn == FirstTurn(g.sides) + Filled(g.field)
    && Count(g.field, Cross) == Count(g.field, Zero) + Filled(g.field) % 2
  }

  /**
    What holds between moves of every game: the assignment is one of the
    two a start produces, the stored progress is the field's evaluation,
    and the tally above.
   */
  predicate Inv(g: Game) {
    g.sides.Valid() && g.progress == GetWon(g.field, g.sides) && Tally(g)
  }

  /** No line of the empty field belongs to anyone, so a new game is in progress. */
  lemma EmptyBoardInProgress(s: Sides)
    requires s.Valid()
    ensures GetWon(EmptyBoard, s) == InProgress
  {
    forall l | l in ScanOrder
      ensures Unowned(EmptyBoard, s, l)
    {
      assert EmptyBoard[l.i] == Empty;
    }
    assert EmptyBoard[0] == Empty;
  }

  /**
    The start of a game. `seat` is the draw from [0, 1000]: above 500 the
    human plays cross and moves on turn 0, otherwise the computer plays
    cross and the counter starts at 1, so that cross always moves first.
   */
  method InitGame(level: Level, seat: int) returns (g: Game)
    ensures forall i :: 0 <= i < 9 ==> g.field[i] == Empty
    ensures g.level == level && g.progress == InProgress
    ensures Filled(g.field) == 0
    ensures g.sides.Valid()
    ensures seat > 500 <==> g.sides.human == Cross
    ensures g.turn == 0 <==> g.sides.human == Cross
    ensures MoverMark(g) == Cross
    ensures g == Game(EmptyBoard, FirstTurn(g.sides), g.sides, level, InProgress)
    ensures Inv(g)
  {
    if seat > 500 {
      g := Game(EmptyBoard, 0, Sides(Cross, Zero), level, InProgress);
    } else {
      g := Game(EmptyBoard, 1, Sides(Zero, Cross), level, InProgress);
    }
    CountZeroIff(EmptyBoard, Cross);
    CountZeroIff(EmptyBoard, Zero);
    EmptyBoardInProgress(g.sides);
  }

  /** One attempt at the prompt: the column and the row typed, 1-based, as unsigned integers. */
  datatype Raw = Raw(x: nat, y: nat)

  /** The prompt accepts an attempt inside 1..3 on both axes that names an empty cell. */
  predicate Accepts(b: Board, r: Raw) {
    r.x != 0 && r.x <= 3 && r.y != 0 && r.y <= 3 && b[3 * (r.y - 1) + (r.x - 1)] == Empty
  }

  /** The cell an accepted attempt names, converted to 0-based. */
  function Converted(r: Raw): Coord
    requires r.x != 0 && r.y != 0
  {
    Coord(r.y - 1, r.x - 1)
  }

  /** An attempt is accepted exactly when it converts to an in-range empty cell. */
  lemma AcceptsIff(b: Board, r: Raw)
    ensures Accepts(b, r) <==>
      r.x != 0 && r.y != 0 && InRange(Converted(r)) && b[At(Converted(r))] == Empty
  {
  }

  /** Attempt `k` is the first one at or after `from` that the prompt accepts. */
  predicate FirstAccepted(b: Board, input: seq<Raw>, from: nat, k: int) {
    from <= k < |input| && Accepts(b, input[k]) && forall j :: from <= j < k ==> !Accepts(b, input[j])
  }

  /** The re-prompt loop: reads attempts from position `from` until one is accepted. */
  function ReadFrom(b: Board, input: seq<Raw>, from: nat): (r: Option<nat>)
    requires from <= |input|
    decreases |input| - from
    ensures r.Some? ==> FirstAccepted(b, input, from, r.value)
    ensures r.None? <==> forall j :: from <= j < |input| ==> !Accepts(b, input[j])
  {
    if from == |input| then None
    else if Accepts(b, input[from]) then Some(from)
    else ReadFrom(b, input, from + 1)
  }

  /** An accepted human move and the input left after it. */
  datatype HumanMove = HumanMove(coord: Coord, rest: seq<Raw>)

  /**
    The human's move: attempts are read from `input` until one is accepted
    and then converted to 0-based. None means the input ran out first,
    where the game would wait forever.
   */
  function HumanCoord(b: Board, input: seq<Raw>): (r: Option<HumanMove>)
    ensures r.None? <==> forall k :: 0 <= k < |input| ==> !Accepts(b, input[k])
    ensures r.Some? ==> InRange(r.value.coord) && b[At(r.value.coord)] == Empty
    ensures r.Some? ==> exists k ::
      && FirstAccepted(b, input, 0, k)
      && r.value.coord == Converted(input[k])
      && r.value.rest == input[k + 1..]
  {
    match ReadFrom(b, input, 0)
    case None => None
    case Some(k) =>
      assert FirstAccepted(b, input, 0, k);
      Some(HumanMove(Converted(input[k]), input[k + 1..]))
  }

  /** Puts `mark` on an in-range cell, re-evaluates the field and advances the counter. */
  function Place(g: Game, c: Coord, mark: Cell): (g': Game)
    requires InRange(c)
    ensures g'.field[At(c)] == mark
    ensures forall j :: 0 <= j < 9 && j != At(c) ==> g'.field[j] == g.field[j]
    ensures g'.turn == g.turn + 1 && g'.sides == g.sides && g'.level == g.level
    ensures g'.progress == GetWon(g'.field, g'.sides)
  {
    var field := g.field[At(c) := mark];
    g.(field := field, progress := GetWon(field, g.sides), turn := g.turn + 1)
  }

  /** `rest` is what is left of `input` after some attempts were read from its front. */
  predicate SuffixOf(rest: seq<Raw>, input: seq<Raw>) {
    |rest| <= |input| && rest == input[|input| - |rest|..]
  }

  lemma SuffixTrans(a: seq<Raw>, b: seq<Raw>, c: seq<Raw>)
    requires SuffixOf(a, b) && SuffixOf(b, c)
    ensures SuffixOf(a, c)
  {
    assert c[|c| - |b|..][|b| - |a|..] == c[|c| - |a|..];
  }

  /** The game after one pass of the loop, the cell that pass marked, and the human input still unread. */
  datatype Turned = Turned(game: Game, cell: Index, input: seq<Raw>)

  /** The human's half of the loop: read an accepted move and put the human's mark there. */
  function HumanTurn(g: Game, input: seq<Raw>): (r: Option<Turned>)
    ensures r.None? <==> forall k :: 0 <= k < |input| ==> !Accepts(g.field, input[k])
    ensures r.Some? ==> g.field[r.value.cell] == Empty
    ensures r.Some? ==> r.value.game.field == g.field[r.value.cell := g.sides.human]
    // the marked cell is the first accepted attempt, and reading stops right after it
    ensures r.Some? ==>
      && HumanCoord(g.field, input).Some?
      && r.value.cell == At(HumanCoord(g.field, input).value.coord)
      && r.value.input == HumanCoord(g.field, input).value.rest
    ensures r.Some? ==> SuffixOf(r.value.input, input) && |r.value.input| < |input|
  {
    match HumanCoord(g.field, input)
    case None => None
    case Some(m) =>
      var k :| FirstAccepted(g.field, input, 0, k) && m.rest == input[k + 1..];
      assert SuffixOf(m.rest, input);
      Some(Turned(Place(g, m.coord, g.sides.human), At(m.coord), m.rest))
  }

  /** The computer's half of the loop: select a cell and put the computer's mark there. */
  function ComputerTurn(g: Game, input: seq<Raw>, chance: int, pick: nat): (r: Turned)
    // the human's input is not read
    ensures r.input == input
    ensures !Full(g.field) ==> g.field[r.cell] == Empty
    ensures r.game.field == g.field[r.cell := g.sides.ai]
    // the marked cell is the selector's choice
    ensures r.cell == At(AICoord(g.field, g.sides, g.level, chance, pick).coord)
  {
    var sel := AICoord(g.field, g.sides, g.level, chance, pick);
    Turned(Place(g.(field := sel.field), sel.coord, g.sides.ai), At(sel.coord), input)
  }

  /**
    One pass of the turn loop: the human's move on an even counter, the
    computer's on an odd one; then the field is evaluated and the counter
    advances. `chance` and `pick` are the computer's draws for this turn.
   */
  function Step(g: Game, input: seq<Raw>, chance: int, pick: nat): (r: Option<Turned>)
    ensures r.None? <==> g.turn % 2 == 0 && forall k :: 0 <= k < |input| ==> !Accepts(g.field, input[k])
    ensures r.Some? ==>
      && r.value.game.turn == g.turn + 1
      && r.value.game.sides == g.sides && r.value.game.level == g.level
      && r.value.game.progress == GetWon(r.value.game.field, g.sides)
    ensures r.Some? ==> r.value.game.field == g.field[r.value.cell := MoverMark(g)]
    ensures r.Some? && !Full(g.field) ==> g.field[r.value.cell] == Empty
    ensures r.Some? && g.turn % 2 == 0 ==>
      && HumanCoord(g.field, input).Some?
      && r.value.cell == At(HumanCoord(g.field, input).value.coord)
      && r.value.input == HumanCoord(g.field, input).value.rest
    ensures r.Some? && g.turn % 2 == 1 ==>
      && r.value.cell == At(AICoord(g.field, g.sides, g.level, chance, pick).coord)
      && r.value.input == input
    ensures r.Some? ==> SuffixOf(r.value.input, input)
  {
    if g.turn % 2 == 0 then
      var t := HumanTurn(g, input);
      assert t.Some? ==> MoverMark(g) == g.sides.human;
      t
    else
      var t := ComputerTurn(g, input, chance, pick);
      assert MoverMark(g) == g.sides.ai;
      assert input[|input| - |input|..] == input;
      Some(t)
  }

  /**
    Filling one empty cell with the mark of the player to move and
    advancing the counter keeps the tally.
   */
  lemma FillKeepsTally(g: Game, g': Game, i: Index)
    requires g.sides.Valid() && Tally(g) && g.field[i] == Empty
    requires g'.field == g.field[i := MoverMark(g)] && g'.turn == g.turn + 1 && g'.sides == g.sides
    ensures Tally(g')
    ensures Count(g'.field, Empty) + 1 == Count(g.field, Empty)
  {
    var mark := MoverMark(g);
    var f := Filled(g.field);
    CountUpdate(g.field, i, mark, Cross);
    CountUpdate(g.field, i, mark, Zero);
    CountUpdate(g.field, i, mark, Empty);
    assert mark == Cross <==> f % 2 == 0;
    assert Filled(g'.field) == f + 1;
  }

  /** Filling one empty cell as above and re-evaluating keeps the invariant. */
  lemma FillKeepsInvariant(g: Game, g': Game, i: Index)
    requires Inv(g) && g.field[i] == Empty
    requires g'.field == g.field[i := MoverMark(g)] && g'.turn == g.turn + 1 && g'.sides == g.sides
    requires g'.progress == GetWon(g'.field, g'.sides)
    ensures Inv(g')
    ensures Count(g'.field, Empty) + 1 == Count(g.field, Empty)
  {
    FillKeepsTally(g, g', i);
  }

  /** The pass can proceed: it is the computer's turn, or the human's input holds an accepted attempt. */
  predicate CanMove(g: Game, input: seq<Raw>) {
    g.turn % 2 == 1 || exists k :: 0 <= k < |input| && Accepts(g.field, input[k])
  }

  /**
    Every pass of the loop over a game in play, when the mover has a move,
    keeps the invariant and fills exactly one empty cell.
   */
  lemma StepKeepsInvariant(g: Game, input: seq<Raw>, chance: int, pick: nat)
    requires g.progress == InProgress && CanMove(g, input) && Inv(g)
    ensures Step(g, input, chance, pick).Some?
    ensures Count(Step(g, input, chance, pick).value.game.field, Empty) + 1 == Count(g.field, Empty)
    ensures Inv(Step(g, input, chance, pick).value.game)
  {
    var next := Step(g, input, chance, pick).value;
    assert !Full(g.field);
    FillKeepsInvariant(g, next.game, next.cell);
  }

  /** A game in play still has an empty cell, so the computer always finds a move. */
  lemma InProgressHasEmptyCell(g: Game)
    requires Inv(g) && g.progress == InProgress
    ensures exists i: Index :: g.field[i] == Empty
    ensures Filled(g.field) < 9
  {
    FullIffNineFilled(g.field);
  }

  /** One pass of the loop, summarised for the loop of `Play`. */
  lemma PassAdvances(g: Game, input: seq<Raw>, chance: int, pick: nat)
    requires g.progress == InProgress && CanMove(g, input) && Inv(g)
    ensures Step(g, input, chance, pick).Some?
    ensures Step(g, input, chance, pick).value.game.level == g.level
    ensures Filled(Step(g, input, chance, pick).value.game.field) == Filled(g.field) + 1
    ensures Filled(Step(g, input, chance, pick).value.game.field) <= 9
    ensures Inv(Step(g, input, chance, pick).value.game)
  {
    var g' := Step(g, input, chance, pick).value.game;
    StepKeepsInvariant(g, input, chance, pick);
    FullIffNineFilled(g.field);
    FullIffNineFilled(g'.field);
  }

  /** One pass of the loop body of `main`, as a statement. */
  method Pass(g: Game, input: seq<Raw>, chance: int, pick: nat) returns (r: Option<Turned>)
    requires g.progress == InProgress && Inv(g)
    ensures r == Step(g, input, chance, pick)
    ensures r.Some? <==> CanMove(g, input)
    ensures r.Some? ==> r.value.game.sides == g.sides && r.value.game.level == g.level
    ensures r.Some? ==> SuffixOf(r.value.input, input)
    ensures r.Some? ==> Filled(r.value.game.field) == Filled(g.field) + 1 <= 9
    ensures r.Some? ==> Inv(r.value.game)
  {
    r := Step(g, input, chance, pick);
    if CanMove(g, input) {
      PassAdvances(g, input, chance, pick);
    }
  }

  /**
    What the recursion of the loop needs to terminate: a valid assignment,
    so every pass writes a mark, and an empty cell while the game is in
    play, so every pass fills one.
   */
  predicate Proper(g: Game) {
    g.sides.Valid() && (g.progress == InProgress ==> Count(g.field, Empty) > 0)
  }

  /** A game satisfying the invariant is proper. */
  lemma InvIsProper(g: Game)
    requires Inv(g)
    ensures Proper(g)
  {
    CountZeroIff(g.field, Empty);
  }

  /** A pass over a proper game in play keeps it proper and removes one empty cell. */
  lemma StepKeepsProper(g: Game, input: seq<Raw>, chance: int, pick: nat)
    requires Proper(g) && g.progress == InProgress && Step(g, input, chance, pick).Some?
    ensures Proper(Step(g, input, chance, pick).value.game)
    ensures Count(Step(g, input, chance, pick).value.game.field, Empty) < Count(g.field, Empty)
  {
    var t := Step(g, input, chance, pick).value;
    CountZeroIff(g.field, Empty);
    assert !Full(g.field);
    CountUpdate(g.field, t.cell, MoverMark(g), Empty);
    CountZeroIff(t.game.field, Empty);
  }

  /** How a run of the loop ends: the last game, whether it stalled, and the input not yet read. */
  datatype Ending = Ending(game: Game, stalled: bool, unread: seq<Raw>)

  /**
    The loop of `main` as a recursion: passes run until the evaluation is
    no longer in progress, or until the human is to move and no attempt
    left in the input is accepted (`true` in the middle: the game would
    wait at the prompt). The result is the last game, whether the run
    stalled, and the unread input.
    `chances` and `picks` give the computer's draws for each turn.
   */
  function Run(g: Game, input: seq<Raw>, chances: nat -> int, picks: nat -> nat): (r: Ending)
    requires Proper(g)
    decreases Count(g.field, Empty)
    ensures r.game.sides == g.sides && r.game.level == g.level
    ensures SuffixOf(r.unread, input)
    ensures r.stalled || r.game.progress != InProgress
    ensures r.stalled ==> r.game.progress == InProgress && r.game.turn % 2 == 0
    ensures r.stalled ==> forall k :: 0 <= k < |r.unread| ==> !Accepts(r.game.field, r.unread[k])
  {
    assert input[|input| - |input|..] == input;
    if g.progress != InProgress then Ending(g, false, input)
    else if Step(g, input, chances(g.turn), picks(g.turn)).None? then Ending(g, true, input)
    else
      var t := Step(g, input, chances(g.turn), picks(g.turn)).value;
      StepKeepsProper(g, input, chances(g.turn), picks(g.turn));
      var r := Run(t.game, t.input, chances, picks);
      SuffixTrans(r.unread, t.input, input);
      r
  }

  /** Every run from a game satisfying the invariant ends in a game satisfying it. */
  lemma {:induction false} RunKeepsInvariant(g: Game, input: seq<Raw>, chances: nat -> int, picks: nat -> nat)
    requires Inv(g)
    ensures Proper(g) && Inv(Run(g, input, chances, picks).game)
    decreases Count(g.field, Empty)
  {
    InvIsProper(g);
    if g.progress == InProgress && Step(g, input, chances(g.turn), picks(g.turn)).Some? {
      var t := Step(g, input, chances(g.turn), picks(g.turn)).value;
      StepKeepsInvariant(g, input, chances(g.turn), picks(g.turn));
      StepKeepsProper(g, input, chances(g.turn), picks(g.turn));
      RunKeepsInvariant(t.game, t.input, chances, picks);
    }
  }

  /**
    The game: the start, then the do-while loop of `main`, which runs a
    first pass because a new game is in progress and stops at the first
    evaluation other than in progress. `input` is everything the human
    types; `chances` and `picks` give the computer's draws for each turn.
    `stalled` means the human's input ran out, where the game would wait.
    The loop fills one empty cell per pass, so it ends within nine moves.
   */
  method Play(level: Level, seat: int, input: seq<Raw>, chances: nat -> int, picks: nat -> nat)
    returns (g: Game, moves: nat, stalled: bool, unread: seq<Raw>)
    ensures g.level == level && g.sides.Valid()
    ensures seat > 500 <==> g.sides.human == Cross
    ensures stalled || g.progress != InProgress
    ensures stalled ==> g.progress == InProgress && g.turn % 2 == 0
    // the game stalls only when no attempt left in the input is accepted
    ensures stalled ==> forall k :: 0 <= k < |unread| ==> !Accepts(g.field, unread[k])
    ensures SuffixOf(unread, input)
    ensures moves == Filled(g.field) && moves <= 9
    ensures Count(g.field, Cross) - Count(g.field, Zero) in {0, 1}
    ensures Inv(g)
    // the result is the run of the passes from the new game over the input and the draws
    ensures Ending(g, stalled, unread) == Run(Game(EmptyBoard, FirstTurn(g.sides), g.sides, level, InProgress), input, chances, picks)
  {
    g := InitGame(level, seat);
    ghost var start := g;
    InvIsProper(start);
    unread := input;
    moves := 0;
    stalled := false;
    while g.progress == InProgress
      invariant Inv(g) && Proper(g)
      invariant moves == Filled(g.field) <= 9
      invariant Run(g, unread, chances, picks) == Run(start, input, chances, picks)
      invariant !stalled
      decreases 9 - moves
    {
      var chance, pick := chances(g.turn), picks(g.turn);
      var next := Pass(g, unread, chance, pick);
      if next.None? {
        stalled := true;
        break;
      }
      g, unread := next.value.game, next.value.input;
      InvIsProper(g);
      moves := moves + 1;
    }
  }
}
