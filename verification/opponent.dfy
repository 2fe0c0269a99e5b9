/**
  The computer's move selector. Three tiers are tried in a fixed order:
  a one-ply lookahead (take a win, else block the human's win), then the
  centre, then a random empty corner or, failing that, a random empty
  edge. The game's two random draws are parameters here.
 */
module Opponent {
  import opened Grid
  import opened Outcome

  /** The difficulty level; the game's text tokens are "eazy", "normal" and "hard". */
  datatype Level = Easy | Normal | Hard

  /**
    Whether the lookahead tier runs: always on hard; on normal when the
    draw from [0, 500] exceeds 100; never on easy.
   */
  predicate Lookahead(level: Level, chance: int)
    ensures level == Easy ==> !Lookahead(level, chance)
    ensures level == Normal ==> (Lookahead(level, chance) <==> chance > 100)
    ensures level == Hard ==> Lookahead(level, chance)
  {
    (level == Normal && chance > 100) || level == Hard
  }

  /** Putting `mark` on the empty cell `i` makes the evaluator report `target`. */
  predicate Hit(b: Board, s: Sides, mark: Cell, target: Progress, i: Index) {
    b[i] == Empty && GetWon(b[i := mark], s) == target
  }

  /** The computer wins by playing `i`. */
  predicate WinAt(b: Board, s: Sides, i: Index) {
    Hit(b, s, s.ai, WonAi, i)
  }

  /** The human would win by playing `i`, so the computer blocks there. */
  predicate BlockAt(b: Board, s: Sides, i: Index) {
    Hit(b, s, s.human, WonHum, i)
  }

  /** What one lookahead pass found, and the field as the pass leaves it. */
  datatype ProbeResult = ProbeResult(hit: Option<Index>, field: Board)

  /**
    One lookahead pass over cells i..8 in row-major order: each empty cell
    gets `mark`, the field is evaluated, and the cell is set back to empty
    before the pass returns or moves on. The pass leaves the field as it
    found it and reports the first cell whose placement gives `target`.
   */
  function Probe(w: Board, s: Sides, mark: Cell, target: Progress, i: nat): (r: ProbeResult)
    requires i <= 9
    decreases 9 - i
    ensures r.field == w
    ensures r.hit.Some? ==>
      && i <= r.hit.value
      && Hit(w, s, mark, target, r.hit.value)
      && forall j :: i <= j < r.hit.value ==> !Hit(w, s, mark, target, j)
    ensures r.hit.None? ==> forall j :: i <= j < 9 ==> !Hit(w, s, mark, target, j)
  {
    if i == 9 then ProbeResult(None, w)
    else if w[i] == Empty then
      var placed := w[i := mark];
      assert placed[i := Empty] == w;
      if GetWon(placed, s) == target then ProbeResult(Some(i), placed[i := Empty])
      else Probe(placed[i := Empty], s, mark, target, i + 1)
    else Probe(w, s, mark, target, i + 1)
  }

  const Centre: Coord := Coord(1, 1)

  /** Corners in the order the selector lists them: (0,0), (2,2), (2,0), (0,2). */
  const Corners: seq<Index> := [0, 8, 6, 2]

  /** Edge midpoints in the order the selector lists them: (0,1), (2,1), (1,0), (1,2). */
  const Edges: seq<Index> := [1, 7, 3, 5]

  /** Some cell among `cs` is empty. */
  predicate AnyEmpty(b: Board, cs: seq<Index>) {
    exists i :: i in cs && b[i] == Empty
  }

  /** `r` is `cs` with some entries left out, the rest kept in their order. */
  predicate Subsequence(r: seq<Index>, cs: seq<Index>)
    decreases |cs|
  {
    if |r| == 0 then true
    else if |cs| == 0 then false
    else (r[0] == cs[0] && Subsequence(r[1..], cs[1..])) || Subsequence(r, cs[1..])
  }

  /** The empty cells among `cs`, in the order of `cs`. */
  function EmptyAmong(b: Board, cs: seq<Index>): (r: seq<Index>)
    ensures |r| <= |cs|
    ensures forall i :: i in r <==> i in cs && b[i] == Empty
    ensures Subsequence(r, cs)
    ensures (forall k :: 0 <= k < |cs| ==> b[cs[k]] == Empty) ==> r == cs
  {
    if |cs| == 0 then []
    else
      var rest := EmptyAmong(b, cs[1..]);
      if b[cs[0]] == Empty then
        var r := [cs[0]] + rest;
        assert r[1..] == rest;
        r
      else rest
  }

  /** The centre, the corners and the edges cover the field. */
  lemma TiersCoverField(i: Index)
    ensures i == 4 || i in Corners || i in Edges
  {
    assert Corners[0] == 0 && Corners[1] == 8 && Corners[2] == 6 && Corners[3] == 2;
    assert Edges[0] == 1 && Edges[1] == 7 && Edges[2] == 3 && Edges[3] == 5;
  }

  /** One random pick among the empty cells of `cs`, if any. */
  function PickAmong(b: Board, cs: seq<Index>, pick: nat): (r: Option<Index>)
    ensures r.None? <==> !AnyEmpty(b, cs)
    ensures r.Some? ==> r.value in cs && b[r.value] == Empty
  {
    var free := EmptyAmong(b, cs);
    if |free| > 0 then
      assert free[pick % |free|] in free;
      Some(free[pick % |free|])
    else None
  }

  /**
    The second and third tiers: the centre if it is empty, else the
    empty corner the draw picks, else the empty edge the draw picks, and
    on a full field the default coordinate (0, 0).
   */
  function Fallback(b: Board, pick: nat): (c: Coord)
    ensures InRange(c)
    ensures b[4] == Empty ==> c == Centre
    ensures b[4] != Empty && AnyEmpty(b, Corners) ==> At(c) in Corners && b[At(c)] == Empty
    ensures b[4] != Empty && !AnyEmpty(b, Corners) && AnyEmpty(b, Edges) ==>
      At(c) in Edges && b[At(c)] == Empty
    ensures !Full(b) ==> b[At(c)] == Empty
    ensures Full(b) ==> c == Coord(0, 0)
  {
    if b[4] == Empty then Centre
    else
      match PickAmong(b, Corners, pick)
      case Some(i) => CoordOf(i)
      case None =>
        match PickAmong(b, Edges, pick)
        case Some(i) => CoordOf(i)
        case None =>
          assert Full(b) by {
            forall i: Index
              ensures b[i] != Empty
            {
              TiersCoverField(i);
            }
          }
          Coord(0, 0)
  }

  /** `i` is the first cell in row-major order where the computer wins. */
  predicate FirstWin(b: Board, s: Sides, i: Index) {
    WinAt(b, s, i) && forall j :: 0 <= j < i ==> !WinAt(b, s, j)
  }

  /** `i` is the first cell in row-major order where the human would win. */
  predicate FirstBlock(b: Board, s: Sides, i: Index) {
    BlockAt(b, s, i) && forall j :: 0 <= j < i ==> !BlockAt(b, s, j)
  }

  predicate NoWin(b: Board, s: Sides) {
    forall j :: 0 <= j < 9 ==> !WinAt(b, s, j)
  }

  predicate NoBlock(b: Board, s: Sides) {
    forall j :: 0 <= j < 9 ==> !BlockAt(b, s, j)
  }

  /**
    The lookahead tier: the winning pass, then the blocking pass on the
    field the first pass left behind.
   */
  function Tier1(b: Board, s: Sides): (r: ProbeResult)
    ensures r.field == b
    ensures !NoWin(b, s) ==> r.hit.Some? && FirstWin(b, s, r.hit.value)
    ensures NoWin(b, s) && !NoBlock(b, s) ==> r.hit.Some? && FirstBlock(b, s, r.hit.value)
    ensures r.hit.None? <==> NoWin(b, s) && NoBlock(b, s)
  {
    var win := Probe(b, s, s.ai, WonAi, 0);
    if win.hit.Some? then
      assert WinAt(b, s, win.hit.value);
      win
    else
      assert NoWin(b, s);
      var block := Probe(win.field, s, s.human, WonHum, 0);
      assert block.hit.Some? ==> BlockAt(b, s, block.hit.value);
      block
  }

  /** What the selector returns: the chosen cell and the field after the lookahead passes. */
  datatype Selection = Selection(coord: Coord, field: Board)

  /**
    The computer's move. `chance` is the draw from [0, 500] made on
    normal difficulty, `pick` the draw from [0, 1000] that chooses among
    the empty corners or edges.
   */
  function AICoord(b: Board, s: Sides, level: Level, chance: int, pick: nat): (sel: Selection)
    ensures sel.field == b
    ensures InRange(sel.coord)
    ensures !Full(b) ==> b[At(sel.coord)] == Empty
    ensures Full(b) ==> sel.coord == Coord(0, 0)
    // take the first winning cell in row-major order
    ensures Lookahead(level, chance) && !NoWin(b, s) ==> FirstWin(b, s, At(sel.coord))
    // with no win, block the first cell where the human would win
    ensures Lookahead(level, chance) && NoWin(b, s) && !NoBlock(b, s) ==> FirstBlock(b, s, At(sel.coord))
    // otherwise the centre, corner and edge tiers decide
    ensures !Lookahead(level, chance) || (NoWin(b, s) && NoBlock(b, s)) ==> sel.coord == Fallback(b, pick)
  {
    if Lookahead(level, chance) then
      var tier1 := Tier1(b, s);
      if tier1.hit.Some? then Selection(CoordOf(tier1.hit.value), tier1.field)
      else Selection(Fallback(tier1.field, pick), tier1.field)
    else Selection(Fallback(b, pick), b)
  }

  /** Every empty listed cell is the one some draw below the list's length picks. */
  lemma PickReaches(b: Board, cs: seq<Index>, c: Index)
    requires c in cs && b[c] == Empty
    ensures exists k: nat :: k < |cs| && PickAmong(b, cs, k) == Some(c)
  {
    var free := EmptyAmong(b, cs);
    assert c in free;
    var k :| 0 <= k < |free| && free[k] == c;
    assert k % |free| == k;
    assert PickAmong(b, cs, k) == Some(free[k]);
  }

  /** Every empty corner is the one some draw picks once the centre is taken. */
  lemma EveryEmptyCornerReachable(b: Board, c: Index)
    requires b[4] != Empty && c in Corners && b[c] == Empty
    ensures exists pick: nat :: pick <= 1000 && At(Fallback(b, pick)) == c
  {
    PickReaches(b, Corners, c);
    var k: nat :| k < |Corners| && PickAmong(b, Corners, k) == Some(c);
    assert Fallback(b, k) == CoordOf(c);
  }

  /** Every empty edge is the one some draw picks once the centre and corners are taken. */
  lemma EveryEmptyEdgeReachable(b: Board, e: Index)
    requires b[4] != Empty && !AnyEmpty(b, Corners) && e in Edges && b[e] == Empty
    ensures exists pick: nat :: pick <= 1000 && At(Fallback(b, pick)) == e
  {
    PickReaches(b, Edges, e);
    var k: nat :| k < |Edges| && PickAmong(b, Edges, k) == Some(e);
    assert PickAmong(b, Corners, k).None?;
    assert Fallback(b, k) == CoordOf(e);
  }

  /**
    On a field still in play, a lookahead hit means completing a line:
    the cell wins for `mark` exactly when `mark` then holds some line.
   */
  lemma HitCompletesLine(b: Board, s: Sides, mark: Cell, i: Index)
    requires s.Valid() && (mark == s.human || mark == s.ai)
    requires GetWon(b, s) == InProgress && b[i] == Empty
    ensures Hit(b, s, mark, Winner(s, mark), i) <==> OwnsSome(b[i := mark], mark)
  {
    var b' := b[i := mark];
    var other := if mark == s.human then s.ai else s.human;
    // the other player holds the same cells as before, and no line then
    assert !OwnsSome(b', other);
    if OwnsSome(b', mark) {
      var l :| l in ScanOrder && Owns(b', l, mark);
      assert !Unowned(b', s, l);
    }
  }

  /** A computer win, when there is one, beats a block. */
  lemma WinBeatsBlock(b: Board, s: Sides, level: Level, chance: int, pick: nat, i: Index, j: Index)
    requires Lookahead(level, chance) && WinAt(b, s, i) && BlockAt(b, s, j)
    ensures WinAt(b, s, At(AICoord(b, s, level, chance, pick).coord))
  {
  }

  /** On easy the lookahead never runs: the move ignores wins and blocks. */
  lemma EasyNeverLooksAhead(b: Board, s: Sides, chance: int, pick: nat)
    ensures AICoord(b, s, Easy, chance, pick).coord == Fallback(b, pick)
  {
  }
}
