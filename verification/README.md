# Console tic-tac-toe: the game engine in Dafny

This project models the core of a two-player console tic-tac-toe game in
which a human plays against the computer on a fixed 3x3 field:

- the outcome evaluator `getWon`, which decides whether a field is won by
  the human, won by the computer, drawn, or still in progress;
- the computer's move selector `getAICoord`, which has three tiers in
  order. First a one-ply lookahead that takes a win or blocks the human's
  win; then the centre; then a random free corner or, failing that, a
  random free edge;
- the start of a game in `initGame`: the random assignment of the marks
  and the turn counter;
- the check that `getHumanCoord` applies to the human's typed coordinates;
- the do-while turn loop of `main`, which alternates the two players until
  the evaluator reports an end.

The field is a sequence of nine cells in row-major order; cell (y, x) sits
at index 3y + x (module `Grid`). The evaluator is module `Outcome`, the
selector is module `Opponent`, and the game start, human input and turn
loop are module `Engine`. Module `Scenarios` pins the selector down on a
few concrete fields.

Randomness is made explicit. Each draw of the game's random generator is a
parameter:

- `seat` decides who plays cross;
- `chance` decides whether the lookahead runs on normal difficulty;
- `pick` chooses among the free corners or edges.

Over a whole game, `Engine.Play` takes the draws as functions of the turn
counter, and its result is the recursion `Engine.Run` over the passes.
The human's typing is a sequence of attempts. The game reads it
until an attempt is accepted; if the sequence runs out first, the game
would wait forever, and the model reports "stalled".

Three details of the code shape the model:

- The evaluator's column loop sits inside its row loop. The lines are
  therefore first reached in the order row 0, columns 0..2, row 1, row 2,
  main diagonal, anti-diagonal. `Outcome.ScanOrder` is that order, and
  `Outcome.FirstCompleteLineDecides` proves that the first complete line
  in it decides.
- The anti-diagonal is compared against its centre cell. A line of equal
  cells counts only if the common value is the human's or the computer's
  mark, so a line of three empty cells falls through. With the two mark
  assignments a game start produces, this is the same as "three equal
  non-empty cells" (`Outcome.CompleteMeansOwned`).
- On a full field the selector returns the value-initialised coordinate
  `{}`, which is (0, 0).

## Model

| member | source | states |
|---|---|---|
| Outcome.Decide | main.cpp:154-163 | a line decides nothing exactly when neither player holds all three cells; it reports the human when the human holds it, checked first, and the computer when only the computer does |
| Outcome.ScanColumns | main.cpp:165-178 | the column loop finds nothing exactly when no remaining column is held; a reported win names a column the winner holds |
| Outcome.ScanDiagonals | main.cpp:181-224 | after the rows and columns: a win only for a diagonal the winner holds; draw or in progress exactly when neither diagonal is held; draw only on a full field, in progress only with an empty cell |
| Outcome.ScanRows | main.cpp:152-179 | a reported win names a line in the scan that the winner holds; a draw or in-progress verdict means no remaining row, no column and no diagonal is held |
| Outcome.GetWon | main.cpp:150-225 | a win is reported only for a line the winner holds entirely; draw or in progress exactly when no line is held by either player; draw implies a full field, in progress an empty cell |
| Outcome.CompleteMeansOwned | main.cpp:154-163 | with a valid mark assignment, a line of three equal non-empty cells is exactly a line one of the players holds |
| Outcome.DrawIff | main.cpp:205-224 | the evaluator reports a draw if and only if the field is full and no line is complete |
| Outcome.InProgressIff | main.cpp:205-224 | the evaluator reports in progress if and only if no line is complete and some cell is empty |
| Outcome.CompleteLineWins | main.cpp:152-203 | any complete line makes the evaluator report a winner, never a draw or in progress |
| Outcome.EmptyLineIsNoWin | main.cpp:154-163 | a line of three empty cells is equal but decides nothing: the line test falls through, and the line is not complete |
| Outcome.FirstCompleteLineDecides | main.cpp:152-203 | when several lines are complete, the first in the evaluator's visiting order decides the winner, even if a later one belongs to the other player |
| Opponent.Lookahead | main.cpp:229 | the lookahead tier never runs on easy, always runs on hard, and runs on normal exactly when the draw exceeds 100 |
| Opponent.Probe | main.cpp:231-263 | one lookahead pass leaves the field exactly as it found it; it reports the first cell in row-major order whose hypothetical mark yields the target outcome, and reports none only when no empty cell does |
| Opponent.EmptyAmong | main.cpp:271-296 | the candidate list holds exactly the listed cells that are empty, as a subsequence of the fixed list (so in its order), and is the whole list when every listed cell is empty |
| Opponent.PickAmong | main.cpp:298-302 | the random pick returns nothing exactly when no listed cell is empty, and otherwise a listed empty cell |
| Opponent.PickReaches | main.cpp:298-302 | every empty listed cell is the pick of some draw below the length of the list |
| Opponent.Fallback | main.cpp:266-335 | the centre if it is empty; else a free corner when one exists; else a free edge; the result is an empty in-range cell unless the field is full, where it is (0, 0) |
| Opponent.Tier1 | main.cpp:229-264 | both passes together leave the field unchanged; the first winning cell when there is one, else the first blocking cell; no hit exactly when there is neither |
| Opponent.AICoord | main.cpp:227-336 | the field is unchanged by the lookahead; the move is in range and empty unless the field is full, then (0, 0); with lookahead the first win comes first, then the first block; otherwise the centre, corner and edge tiers decide |
| Opponent.EveryEmptyCornerReachable | main.cpp:274-302 | with the centre taken, every empty corner is chosen by some draw in [0, 1000] |
| Opponent.EveryEmptyEdgeReachable | main.cpp:304-333 | with the centre and all corners taken, every empty edge is chosen by some draw in [0, 1000] |
| Opponent.HitCompletesLine | main.cpp:231-263 | on a field still in play, a hypothetical mark is reported as that player's win exactly when it completes a line for that player |
| Opponent.WinBeatsBlock | main.cpp:229-264 | when the computer can both win and block, it wins |
| Opponent.EasyNeverLooksAhead | main.cpp:229-230 | on easy the lookahead never runs: the move is the centre, corner or edge choice whatever the field threatens |
| Engine.EmptyBoardInProgress | main.cpp:76-82 | the freshly cleared field evaluates as in progress |
| Engine.MoverMark | main.cpp:364-372 | with a valid assignment, the human moves exactly on even counters and the computer exactly on odd ones |
| Engine.InitGame | main.cpp:76-95 | a new game has an empty field and is in progress; the human plays cross exactly when the draw exceeds 500, and the counter starts at 0 exactly then, so cross always moves first; the game invariant holds |
| Engine.AcceptsIff | main.cpp:141-142 | an attempt is accepted exactly when both typed values are non-zero and, converted to 0-based, name an in-range empty cell |
| Engine.ReadFrom | main.cpp:133-142 | the re-prompt loop returns the first accepted attempt at or after the current position, and nothing exactly when no later attempt is accepted |
| Engine.HumanCoord | main.cpp:130-148 | the human's move is the first accepted attempt converted to 0-based, an empty in-range cell; with no accepted attempt there is no move |
| Engine.Place | main.cpp:367-379 | the chosen cell gets the mark and no other cell changes; the stored outcome is the evaluation of the new field; the counter advances by one |
| Engine.HumanTurn | main.cpp:364-368 | the human's mark goes on the cell of the first accepted attempt, which is empty, and the input left is what follows that attempt; no move exactly when no attempt is accepted |
| Engine.ComputerTurn | main.cpp:369-372 | the computer's mark goes on the selector's choice, a cell that was empty whenever the field was not full; the human's input is left unread |
| Engine.Step | main.cpp:362-381 | one pass: on an even counter the human's mark goes on the first accepted attempt and the input after it is left, on an odd counter the computer's mark goes on the selector's choice and the input is untouched; exactly one cell changes; then the field is re-evaluated and the counter advances |
| Engine.FillKeepsTally | main.cpp:84-95 | filling one empty cell with the mover's mark keeps "counter = start + marks" and "cross leads zero by the parity of the marks", and removes one empty cell |
| Engine.FillKeepsInvariant | main.cpp:362-381 | filling one empty cell and re-evaluating keeps the game invariant |
| Engine.StepKeepsInvariant | main.cpp:362-381 | every pass over a game in play whose mover has a move (the computer always, the human when some attempt is accepted) succeeds, fills exactly one empty cell, and keeps the invariant |
| Engine.InProgressHasEmptyCell | main.cpp:205-224 | a game in play has an empty cell and fewer than nine marks |
| Engine.PassAdvances | main.cpp:362-381 | a pass over a game in play whose mover has a move succeeds, keeps the difficulty, adds exactly one mark without going past nine, and keeps the invariant |
| Engine.Pass | main.cpp:362-381 | a pass is exactly one step of the loop; it proceeds exactly when the computer is to move or the human's input holds an accepted attempt, and then keeps the sides, the difficulty and the invariant, adds one mark and leaves a suffix of the input |
| Engine.StepKeepsProper | main.cpp:362-381 | a pass over a game in play with a valid assignment and an empty cell fills exactly one empty cell, and the game it leaves has an empty cell again whenever it is still in play |
| Engine.Run | main.cpp:362-381 | running passes from a game with a valid assignment and, while in play, an empty cell ends either with an evaluation other than in progress, or stalled on the human's turn with no accepted attempt left in the unread input, which is a suffix of the input; the sides and the difficulty are kept |
| Engine.RunKeepsInvariant | main.cpp:362-381 | the game a run ends in satisfies the game invariant, by induction over the passes |
| Engine.Play | main.cpp:354-387 | the result is exactly the run of the passes from the new game (empty field, in progress, counter letting cross move first) over the input and the per-turn draws; so the loop stops at the first evaluation other than in progress, or stalls on the human's turn when no attempt left in the unread input is accepted; the human plays cross exactly when the start draw exceeds 500; the moves equal the marks, at most nine; crosses minus zeros is 0 or 1; the invariant holds |
| Scenarios.CentreOnEmptyField | main.cpp:266-269 | on hard, an empty field gets the centre |
| Scenarios.SinglePlacementNoWin | main.cpp:150-225 | one mark on an empty field completes no line |
| Scenarios.WinTakenOverBlock | main.cpp:229-264 | with a win for the computer and a threat by the human on the field, the computer takes the win at (0, 2) |
| Scenarios.CornerAfterOpposedCorners | main.cpp:266-302 | with the human on (0,0) and (2,2) and the computer in the centre, the computer takes corner (2,0) or (0,2) |
| Scenarios.FreeCornerOfOpposed | main.cpp:274-302 | on that field the corner tier can only draw (2,0) or (0,2) |
| Scenarios.OpposedCornersNoThreat | main.cpp:231-263 | on that field neither player can complete a line with one more mark |

## Left out

- Console output is not modelled: `drawGame`, `clearScr`, the prompts, the stream operator for cells and `theEnd` only print.
- Stream input is not modelled: reading the difficulty word and the coordinates from the console. The human's typing is a sequence of attempts given as a parameter.
- The difficulty word is not modelled. The prompt loop that accepts "normal", "eazy" and "hard" is replaced by the enumeration `Level`. The selector compares only with "normal" and "hard", so `Easy` stands for "eazy".
- The random generator (`getRandomNumber` over a time-seeded Mersenne Twister) is not modelled. Its draws are parameters, or functions of the turn counter, of unbounded range. The model proves its properties for every value, not only for values inside [0, 500] or [0, 1000].
- The pause after the computer's move is not modelled, because it only affects timing.
- Allocation and release of the field (`deinitGame`) are not modelled, because the field is an immutable sequence. The same goes for the struct-packing pragma and the `size` member, which is fixed at 3.
- The human's typed values are modelled as natural numbers. What the C++ stream does with a negative number or non-numeric text typed into an unsigned field is not modelled: wrap-around, or a failed stream that re-prompts forever.
- The turn counter is unbounded in the model; in the code it is `size_t`. It never exceeds ten in a game, so the width does not matter.
- Waiting at the prompt forever is not modelled. When no attempt left in the human's input is accepted, the code would re-prompt without end; `Engine.Play` stops there and reports `stalled`, with the unread rest of the input.

