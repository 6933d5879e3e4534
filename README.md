# Tic-tac-toe against the computer: a verified model

This project models the core of a browser tic-tac-toe game in which a human plays X
against the computer, which plays O. Three parts are modelled:

- **Board logic** (`game_logic.dfy`, module `GameLogic`): the 3x3 board, the eight winning
  lines in their fixed order, win and draw detection (`EvaluateBoard`), and placing one
  mark (`MakeMove`). These are pure functions over board values.
- **The two computer strategies** (`ai.dfy`, module `AI`).
  - The hard strategy is an exhaustive minimax search. It prefers quicker wins and later
    losses, and it counts every position it visits.
    - The recursive search `MinimaxInternal` and its loop are methods. They share a
      `Metrics` object whose counter they increment.
    - The methods are proved equal to the specification function `Minimax`, which returns
      the score and the number of positions visited.
    - `GetHardAIMove` is proved equal to `HardDecision`: the first empty square with the
      highest score.
  - The easy strategy blocks a line that X is about to complete, unless a first random roll
    says to skip the check. Otherwise it picks an empty square with a second roll.
  - The critical-square scan (`FindCriticalSquares`) and the empty-square scan
    (`GetEmptyIndices`) are loops, each proved against a recursive specification function.
- **The game screen** (`game.dfy`, module `Game`):
  - the score record (`UpdateScoresWithOutcome`): wins, losses, draws and the current streak;
  - the turn logic of one game, as the class `GameState`. Its methods are the event handlers
    and effects that update the board, the player to move, the difficulty, the record, the
    search statistics and the "result recorded" flag.

Conventions used throughout:

- A square holds `Empty`, `X` or `O`; `Empty` stands for the `null` of the original.
- A board is a sequence of exactly nine squares, indexed row by row.
- The random source is replaced by its values: `GetEasyAIMove` takes the first and the
  second roll as parameters.
- The `onEvaluateMove` observer of the hard strategy is modelled as a trace that
  `GetHardAIMove` returns. The trace has one `(index, score)` entry per candidate square,
  in order.
- `-Infinity` and `+Infinity`, the starting values of the running best score, become
  `None`: no candidate has been seen yet.

The first roll of the easy strategy follows the code (`src/utils/ai.js:129`): the block
check is skipped when the roll is below 0.4. So a roll of 0.0 always skips the check and a
roll of 0.9 never does.

## Model

| member | source | states |
|---|---|---|
| GameLogic.CreateInitialBoard | src/utils/gameLogic.js:17 | the new board has nine squares, all empty |
| GameLogic.WinningLines | src/utils/gameLogic.js:6-15 | the three rows, the three columns and the two diagonals, in the order the scans visit them |
| GameLogic.WinningLinesDistinct | src/utils/gameLogic.js:6-15 | each winning line consists of three different squares |
| GameLogic.IsBoardFull | src/utils/gameLogic.js:19 | every square holds a mark (the definition of `every(Boolean)`) |
| GameLogic.FullIffNoEmpty | src/utils/gameLogic.js:19 | a board is full exactly when no square is empty |
| GameLogic.FirstWinFrom | src/utils/gameLogic.js:21-28 | the scan over the winning lines stops at the first line whose three squares hold the same mark, and no earlier line is held |
| GameLogic.GetWinningLine | src/utils/gameLogic.js:21-28 | no line is returned exactly when no winning line is held; otherwise the first held line in the fixed order is returned |
| GameLogic.EvaluateBoard | src/utils/gameLogic.js:30-56 | the game is complete exactly when there is a winner or a draw; a draw is a full board without a winner; the winner is the mark on the first held line; the line is the one `GetWinningLine` finds |
| GameLogic.MakeMove | src/utils/gameLogic.js:58-65 | an occupied square leaves the board unchanged; an empty square receives the mark; no other square changes |
| GameLogic.MakeMoveCounts | src/utils/gameLogic.js:58-65 | a move on an empty square removes one empty square, adds one mark of the player and leaves the other player's marks as they were |
| GameLogic.MakeMoveSettles | src/utils/gameLogic.js:58-65 | a second move on the same square changes nothing |
| AI.SwitchPlayer | src/utils/ai.js:3-4 | the other player is never the same player |
| AI.SwitchPlayerInvolution | src/utils/ai.js:3-4 | switching twice gives back the player |
| AI.EmptyBelowFacts | src/utils/ai.js:6-12 | the prefix scan lists exactly the empty squares below the bound, each once, in increasing order |
| AI.EmptyIndicesFacts | src/utils/ai.js:6-12 | the empty squares are listed in increasing order; there are as many as there are empty squares; the list is empty exactly when the board is full |
| AI.GetEmptyIndices | src/utils/ai.js:6-12 | the loop builds the list of empty squares in increasing order |
| AI.ScoreForWinner | src/utils/ai.js:14-22 | the score is positive exactly for a win of the computer, negative exactly for a win of the opponent, and zero for a draw; its size is 10 - depth |
| AI.ScoreForWinnerPrefersQuickWins | src/utils/ai.js:14-22 | a win found sooner scores higher, and a loss found sooner scores lower |
| AI.BestScore | src/utils/ai.js:42-61 | the running best is still -Infinity or +Infinity only when no child has been searched yet |
| AI.BestScoreIsExtremum | src/utils/ai.js:42-61 | the running best is the score of one child, and no child scores above it when maximizing, or below it when minimizing |
| AI.ChildrenAt | src/utils/ai.js:44-53 | the k-th child is the search of a copy of the board with the player to move on the k-th empty square, the other player next, one ply deeper |
| AI.Minimax | src/utils/ai.js:24-64 | the value of a position and the size of its search tree: a finished position is one node scored by `ScoreForWinner`; otherwise the node plus its children, with the best child score for the side to move |
| AI.MinimaxInternal | src/utils/ai.js:24-64 | the recursive search returns the minimax score of the position and adds the size of the searched tree to the shared counter |
| AI.SearchChildren | src/utils/ai.js:41-61 | the loop keeps the running best over the children searched so far, and the counter grows by their tree sizes |
| AI.SearchChild | src/utils/ai.js:45-53 | one iteration searches the child with the move played on a copy of the board |
| AI.InPlay | src/utils/ai.js:33-40 | a position that is not over has at least one empty square, so the search never returns an infinite score |
| AI.MinimaxIsBestMove | src/utils/ai.js:24-64 | for a game in play, the value is the value of one of the moves, and no move is better for the player to move |
| AI.MinimaxBound | src/utils/ai.js:14-64 | every score lies within 10 - depth of zero, and strictly within it below a position still in play |
| AI.PositionsIgnoreScoring | src/utils/ai.js:24-64 | the number of positions visited depends neither on whose score is computed nor on the starting depth |
| AI.PositionsBounded | src/utils/ai.js:31-61 | the search visits exactly one position when the game is over, and otherwise more than one; the tree is no larger than the bound fixed by the number of empty squares |
| AI.LeaderPosFacts | src/utils/ai.js:93-113 | the leading square holds the best score, and every earlier square scores strictly less |
| AI.Candidates | src/utils/ai.js:96-105 | one search per empty square, in increasing order, of the board with the computer's mark there, the opponent to move, at depth 1 |
| AI.HardDecision | src/utils/ai.js:82-120 | there is no decision exactly when the board is full; the chosen square is empty |
| AI.HardDecisionIsFirstBest | src/utils/ai.js:93-113 | the hard strategy picks the lowest square with the highest score |
| AI.HardDecisionIsMinimax | src/utils/ai.js:82-120 | for a game in play, the decision's score is the minimax value, and the positions it reports are all positions of the game tree except the root |
| AI.CandidateScore | src/utils/ai.js:96-105 | a candidate scores at most 9, and exactly 9 when its square wins at once |
| AI.HardDecisionTakesWin | src/utils/ai.js:82-120 | when a move wins at once, the hard strategy takes a winning move and scores 9 |
| AI.GetHardAIMove | src/utils/ai.js:82-120 | the method returns the hard decision, and it reports each candidate square to the observer with its score, in order |
| AI.ScanCandidates | src/utils/ai.js:92-113 | the loop keeps the best score, the square of the first best score, the observer trace and the counter |
| AI.LineThreat | src/utils/ai.js:69-76 | the first empty square of the line when two of its squares are filled, both with the player's mark; no square otherwise |
| AI.LineThreatIsCompletion | src/utils/ai.js:68-77 | on one line, the square reported is exactly the empty square where the player would complete the line |
| AI.CriticalBelowFacts | src/utils/ai.js:66-80 | the squares reported for the first lines are exactly the empty squares that complete one of those lines |
| AI.CriticalSquaresFacts | src/utils/ai.js:66-80 | the critical squares are exactly the empty squares where the player would complete a winning line |
| AI.FindCriticalSquares | src/utils/ai.js:66-80 | the loop collects the critical squares in the order of the winning lines |
| AI.PickIndex | src/utils/ai.js:137 | `floor(roll * n)` is a valid position in a list of `n` entries |
| AI.GetEasyAIMove | src/utils/ai.js:122-139 | there is no move exactly when the board is full; the move is on an empty square; it is the first critical square when the first roll does not skip the check and such a square exists; otherwise it is the empty square the second roll picks |
| AI.EasyAIBlocks | src/utils/ai.js:128-135 | unless the first roll skips the check, the easy strategy plays a square that X would use to complete a line |
| AI.Metrics.constructor | src/utils/ai.js:92 | the counter starts at zero |
| Game.DefaultScores | src/components/Game.js:19-24 | no wins, losses or draws, and no streak |
| Game.KindOf | src/components/Game.js:78-89 | a draw continues a draw streak, a win of X a player streak, a win of O a computer streak; anything else counts as a draw |
| Game.UpdateScoresWithOutcome | src/components/Game.js:70-99 | the outcome's counter grows by one and the others are kept; a finished game adds exactly one to the total; the streak takes the outcome's kind; the count grows by one when the kind repeats and restarts at 1 otherwise |
| Game.UnfinishedOutcomeCountsAsDrawStreak | src/components/Game.js:78-96 | an outcome that is neither a draw nor a win changes no counter but counts as a draw for the streak |
| Game.StreakStep | src/components/Game.js:78-96 | one result gives the streak the result's kind, and the count grows by one when the kind repeats and restarts at 1 otherwise |
| Game.ReplayTotal | src/components/Game.js:70-99 | over a history of finished games, each game is counted exactly once |
| Game.ReplayStreak | src/components/Game.js:91-96 | from the default record, the streak has the kind of the last result, and its count is the length of the longest final run of results of that kind |
| Game.ReplayStreakBounded | src/components/Game.js:19-24 | from the default record, with finished games, the streak never exceeds the number of games, and there is a streak exactly when a game has been played |
| Game.InProgressHasRoom | src/components/Game.js:128-131 | a game still in progress has an empty square, so the computer always has a move |
| Game.AIChoice | src/components/Game.js:136-175 | the computer's square is empty, and it exists exactly when the board is not full; the easy strategy reports no searched positions |
| Game.GameState.constructor | src/components/Game.js:101-107 | a new screen starts with an empty board, X to move, the hard difficulty, the saved record and no result recorded |
| Game.GameState.HandleSquareSelect | src/components/Game.js:183-200 | the click is ignored when it is not X's turn, the game is over or the square is taken; otherwise X plays there, O is to move, the statistics are reset and the result is no longer recorded; the turn invariant is kept |
| Game.GameState.RecordResult | src/components/Game.js:112-119 | a finished game is added to the record once, and a second run changes nothing |
| Game.GameState.PlayAITurn | src/components/Game.js:128-181 | when O is to move and the game is not over, the computer plays its chosen square, which is empty, reports the positions searched and hands the turn back to X; otherwise nothing changes |
| Game.GameState.HandleNewGame | src/components/Game.js:202-207 | the board is cleared, X is to move, and the record and the difficulty are kept |
| Game.GameState.HandleResetScores | src/components/Game.js:209-217 | the record goes back to the default, and the game in progress is untouched |
| Game.GameState.HandleDifficultyChange | src/components/Game.js:219-225 | the new difficulty is set and a new game starts |
| Game.TurnParity | src/components/Game.js:183-200 | under the turn invariant, X is to move exactly when an odd number of squares is empty |

## Left out

- Rendering is not modelled (the JSX of `Game.js`, and `Board.js`, `Square.js` and `GameInfo.js`). It only presents the state that the model holds.
- Loading and saving the record in `localStorage`, including parsing a stored record, are not modelled, because they are I/O. The constructor of `GameState` takes the loaded record as a parameter, and `HandleResetScores` does not remove the stored copy.
- The 400 ms timer, its cancellation and `thinkingTimeMs` are not modelled, because they are timing. `PlayAITurn` is the body of the timer callback. React runs the effects after each change of state; in the model the caller runs `RecordResult` and `PlayAITurn` itself.
- `console.info` in the observer is not modelled. The observer's calls are returned as a trace instead.
- `Math.random` is not modelled, and neither is any claim that the random choice is uniform. The easy strategy takes its two rolls as parameters. The second roll must lie in [0, 1), which is what `Math.random` promises.
- AI.GetEasyAIMove: the second roll is a parameter even when the first roll leads to a block, and then it is simply not used. The original draws it only when no block is made.
- GameLogic.MakeMove: the index is a square of the board (0 to 8). Indexes outside the board, which the original would write to a longer array, are not modelled.
- A score record read from storage with missing or extra fields is not modelled. Counters are natural numbers and the streak kind is one of the three kinds or none.
- No lemma proves that the hard strategy never loses, and none fixes the number of positions searched from a given board. Both would need the whole game tree to be computed, which is too large for the verifier.
- Game.GameState.PlayAITurn: the fallbacks for a missing decision (`decision?.positionsEvaluated ?? 0`, and the `typeof index === "number"` checks) are not taken as separate paths. Whenever O is to move in a game in progress, both strategies return a move on an empty square (`InProgressHasRoom`), so those fallbacks never apply.
