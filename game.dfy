/** The game screen: the score record kept across games and the turn logic of one game
    between the human (X) and the computer (O). Rendering, persistence and timers are
    not modelled; the two random rolls of the easy strategy are parameters. */
module Game {
  import opened GameLogic
  import opened AI

  /* ---------------------------------------------------------------- score record */

  /** The kind of the current streak: `"draw"`, `"player"` or `"ai"`. */
  datatype StreakKind = DrawStreak | PlayerStreak | AIStreak

  /** `kind == None` stands for `type: null`, the streak before any game. */
  datatype Streak = Streak(kind: Option<StreakKind>, count: nat)

  datatype Scores = Scores(wins: nat, losses: nat, draws: nat, streak: Streak)

  const DefaultScores: Scores := Scores(0, 0, 0, Streak(None, 0))

  function Total(s: Scores): nat {
    s.wins + s.losses + s.draws
  }

  /** The streak kind an outcome continues. It starts as a draw and is replaced only
      by a win of X or of O, so an outcome that is neither a draw nor a win counts as
      a draw for the streak. */
  function KindOf(winner: Cell, isDraw: bool): StreakKind {
    if isDraw then DrawStreak
    else if winner == X then PlayerStreak
    else if winner == O then AIStreak
    else DrawStreak
  }

  /** A finished game: somebody won or it is a draw. */
  predicate Finished(winner: Cell, isDraw: bool) {
    isDraw || winner != Empty
  }

  /** The record after one more outcome. The counter of the outcome grows by one and
      the others are kept; the streak grows when it has the outcome's kind and
      restarts at 1 otherwise. */
  function UpdateScoresWithOutcome(s: Scores, winner: Cell, isDraw: bool): (r: Scores)
    ensures r.draws == s.draws + (if isDraw then 1 else 0)
    ensures r.wins == s.wins + (if !isDraw && winner == X then 1 else 0)
    ensures r.losses == s.losses + (if !isDraw && winner == O then 1 else 0)
    ensures Total(r) == Total(s) + (if Finished(winner, isDraw) then 1 else 0)
    ensures r.streak.kind == Some(KindOf(winner, isDraw))
    ensures r.streak.kind == s.streak.kind ==> r.streak.count == s.streak.count + 1
    ensures r.streak.kind != s.streak.kind ==> r.streak.count == 1
  {
    var wins := if !isDraw && winner == X then s.wins + 1 else s.wins;
    var losses := if !isDraw && winner == O then s.losses + 1 else s.losses;
    var draws := if isDraw then s.draws + 1 else s.draws;
    var kind := KindOf(winner, isDraw);
    var streak := if s.streak.kind == Some(kind) then Streak(Some(kind), s.streak.count + 1)
                  else Streak(Some(kind), 1);
    Scores(wins, losses, draws, streak)
  }

  /** An outcome that is neither a draw nor a win changes no counter, yet it still
      continues or starts a draw streak. */
  lemma UnfinishedOutcomeCountsAsDrawStreak(s: Scores)
    ensures var r := UpdateScoresWithOutcome(s, Empty, false);
            r.wins == s.wins && r.losses == s.losses && r.draws == s.draws &&
            r.streak.kind == Some(DrawStreak)
  {
  }

  /** The outcome of one game, as handed to `UpdateScoresWithOutcome`. */
  datatype Result = Result(winner: Cell, isDraw: bool)

  function Kind(g: Result): StreakKind {
    KindOf(g.winner, g.isDraw)
  }

  /** The record after the results of `gs`, in order. */
  function Replay(s: Scores, gs: seq<Result>): Scores {
    if gs == [] then s
    else UpdateScoresWithOutcome(Replay(s, gs[..|gs| - 1]), gs[|gs| - 1].winner, gs[|gs| - 1].isDraw)
  }

  /** Every finished game is counted exactly once. */
  lemma {:induction false} ReplayTotal(s: Scores, gs: seq<Result>)
    requires forall i :: 0 <= i < |gs| ==> Finished(gs[i].winner, gs[i].isDraw)
    ensures Total(Replay(s, gs)) == Total(s) + |gs|
  {
    if gs != [] {
      ReplayTotal(s, gs[..|gs| - 1]);
    }
  }

  /** One result moves the streak on: it grows when the result has the streak's kind
      and restarts at 1 with the result's kind otherwise. */
  lemma StreakStep(s: Scores, g: Result)
    ensures var st := UpdateScoresWithOutcome(s, g.winner, g.isDraw).streak;
            st.kind == Some(Kind(g)) &&
            st.count == (if s.streak.kind == Some(Kind(g)) then s.streak.count + 1 else 1)
  {
  }

  /** The record after one more result is the update of the record before it. */
  lemma ReplayStep(s: Scores, gs: seq<Result>)
    requires gs != []
    ensures Replay(s, gs) == UpdateScoresWithOutcome(Replay(s, gs[..|gs| - 1]), gs[|gs| - 1].winner, gs[|gs| - 1].isDraw)
  {
  }

  /** `gs` ends with a run of exactly `n` results of the last result's kind. */
  predicate EndsWithRun(gs: seq<Result>, n: nat) {
    1 <= n <= |gs| &&
    (forall i :: |gs| - n <= i < |gs| ==> Kind(gs[i]) == Kind(gs[|gs| - 1])) &&
    (n < |gs| ==> Kind(gs[|gs| - n - 1]) != Kind(gs[|gs| - 1]))
  }

  /** A result of the same kind as the one before it lengthens the final run by one. */
  lemma RunExtends(gs: seq<Result>, k: nat)
    requires |gs| >= 2 && EndsWithRun(gs[..|gs| - 1], k)
    requires Kind(gs[|gs| - 2]) == Kind(gs[|gs| - 1])
    ensures EndsWithRun(gs, k + 1)
  {
    var m := |gs| - 1;
    var prefix := gs[..m];
    assert prefix[m - 1] == gs[m - 1];
    forall i | |gs| - (k + 1) <= i < |gs|
      ensures Kind(gs[i]) == Kind(gs[m])
    {
      if i < m {
        assert prefix[i] == gs[i];
      }
    }
    if k + 1 < |gs| {
      assert prefix[|prefix| - k - 1] == gs[|gs| - (k + 1) - 1];
    }
  }

  /** One more result keeps the streak equal to the final run of the history. */
  lemma RunStep(gs: seq<Result>, before: Scores)
    requires |gs| >= 2
    requires var prefix := gs[..|gs| - 1];
             before.streak.kind == Some(Kind(prefix[|prefix| - 1])) && EndsWithRun(prefix, before.streak.count)
    ensures var st := UpdateScoresWithOutcome(before, gs[|gs| - 1].winner, gs[|gs| - 1].isDraw).streak;
            st.kind == Some(Kind(gs[|gs| - 1])) && EndsWithRun(gs, st.count)
  {
    var m := |gs| - 1;
    assert gs[..m][m - 1] == gs[m - 1];
    StreakStep(before, gs[m]);
    if Kind(gs[m - 1]) == Kind(gs[m]) {
      RunExtends(gs, before.streak.count);
    }
  }

  /** Starting from the default record, the streak is the run of equal kinds that ends
      the history: it has the kind of the last result, its count `n` is the length of
      the longest suffix of that kind, and the result before that suffix, if any, is of
      another kind. */
  lemma {:induction false} ReplayStreak(gs: seq<Result>)
    requires gs != []
    ensures var st := Replay(DefaultScores, gs).streak;
            st.kind == Some(Kind(gs[|gs| - 1])) && EndsWithRun(gs, st.count)
  {
    var prefix := gs[..|gs| - 1];
    ReplayStep(DefaultScores, gs);
    if prefix == [] {
      StreakStep(DefaultScores, gs[0]);
    } else {
      ReplayStreak(prefix);
      RunStep(gs, Replay(DefaultScores, prefix));
    }
  }

  /** One more finished result keeps the streak within the total and makes it present. */
  lemma BoundedStep(before: Scores, g: Result)
    requires Finished(g.winner, g.isDraw)
    requires before.streak.count <= Total(before)
    ensures var after := UpdateScoresWithOutcome(before, g.winner, g.isDraw);
            after.streak.kind != None && 1 <= after.streak.count <= Total(after)
  {
    StreakStep(before, g);
  }

  /** From the default record, with finished games only, the streak never exceeds the
      number of games, and there is a streak exactly when a game was played. */
  lemma {:induction false} ReplayStreakBounded(gs: seq<Result>)
    requires forall i :: 0 <= i < |gs| ==> Finished(gs[i].winner, gs[i].isDraw)
    ensures Replay(DefaultScores, gs).streak.count <= Total(Replay(DefaultScores, gs))
    ensures Replay(DefaultScores, gs).streak.kind == None <==> gs == []
    ensures Replay(DefaultScores, gs).streak.kind == None <==> Replay(DefaultScores, gs).streak.count == 0
  {
    if gs != [] {
      var prefix := gs[..|gs| - 1];
      assert forall i :: 0 <= i < |prefix| ==> Finished(prefix[i].winner, prefix[i].isDraw) by {
        forall i | 0 <= i < |prefix|
          ensures Finished(prefix[i].winner, prefix[i].isDraw)
        {
          assert prefix[i] == gs[i];
        }
      }
      ReplayStreakBounded(prefix);
      ReplayStep(DefaultScores, gs);
      BoundedStep(Replay(DefaultScores, prefix), gs[|gs| - 1]);
    }
  }

  /* ---------------------------------------------------------------- game state */

  datatype Difficulty = Easy | Hard

  /** A full board has no move left, so a game still in progress has an empty square. */
  lemma InProgressHasRoom(b: Board)
    requires !EvaluateBoard(b).isComplete
    ensures !IsBoardFull(b)
  {
  }

  /** The square the computer plays, if any, and the positions it reports as searched. */
  datatype Choice = Choice(index: Option<Index>, positions: nat)

  /** The square the computer plays on `b` with the given rolls, and the positions it
      reports as searched. */
  function AIChoice(b: Board, d: Difficulty, missRoll: real, pickRoll: real): (r: Choice)
    requires 0.0 <= pickRoll < 1.0
    ensures r.index.None? <==> IsBoardFull(b)
    ensures r.index.Some? ==> b[r.index.value] == Empty
    ensures d == Easy ==> r.positions == 0
  {
    if d == Hard then
      var decision := HardDecision(b, O);
      if decision.Some? then Choice(Some(decision.value.index), decision.value.positionsEvaluated) else Choice(None, 0)
    else
      Choice(GetEasyAIMove(b, missRoll, pickRoll), 0)
  }

  /** The state of the game screen that the handlers update. */
  class GameState {
    var board: Board
    var currentPlayer: Mark
    var difficulty: Difficulty
    var scores: Scores
    /** `aiMetrics.positionsEvaluated`. */
    var positionsEvaluated: nat
    var resultRecorded: bool

    /** X moves first, so X has as many marks as O when X is to move and one more when
        O is to move; a result is only recorded for a finished game. */
    ghost predicate Valid()
      reads this
    {
      Count(board, X) == Count(board, O) + (if currentPlayer == O then 1 else 0) &&
      (resultRecorded ==> EvaluateBoard(board).isComplete)
    }

    /** A new screen, with the record read from storage given as `saved`. */
    constructor (saved: Scores)
      ensures Valid()
      ensures board == CreateInitialBoard() && currentPlayer == X && difficulty == Hard
      ensures scores == saved && positionsEvaluated == 0 && !resultRecorded
    {
      board := CreateInitialBoard();
      currentPlayer := X;
      difficulty := Hard;
      scores := saved;
      positionsEvaluated := 0;
      resultRecorded := false;
      new;
      EmptyBoardCounts();
    }

    static lemma EmptyBoardCounts()
      ensures Count(CreateInitialBoard(), X) == 0 && Count(CreateInitialBoard(), O) == 0
    {
      CountZero(CreateInitialBoard(), X);
      CountZero(CreateInitialBoard(), O);
    }

    /** The human clicks square `index`. The click is ignored when it is not X's turn,
        the game is over or the square is taken; otherwise X plays there and the turn
        passes to O. */
    method HandleSquareSelect(index: Index)
      requires Valid()
      modifies this
      ensures Valid()
      ensures old(currentPlayer) != X || old(EvaluateBoard(board).isComplete) || old(board[index]) != Empty ==>
                unchanged(this)
      ensures old(currentPlayer) == X && !old(EvaluateBoard(board).isComplete) && old(board[index]) == Empty ==>
                board == MakeMove(old(board), index, X) && currentPlayer == O &&
                positionsEvaluated == 0 && !resultRecorded &&
                scores == old(scores) && difficulty == old(difficulty)
    {
      if currentPlayer != X || EvaluateBoard(board).isComplete || board[index] != Empty {
        return;
      }
      MakeMoveCounts(board, index, X);
      board := MakeMove(board, index, X);
      currentPlayer := O;
      positionsEvaluated := 0;
      resultRecorded := false;
    }

    /** The effect that records a finished game once: the record is updated with the
        outcome and the game is marked as recorded. */
    method RecordResult()
      requires Valid()
      modifies this
      ensures Valid()
      ensures old(resultRecorded) || !old(EvaluateBoard(board).isComplete) ==> unchanged(this)
      ensures !old(resultRecorded) && old(EvaluateBoard(board).isComplete) ==>
                scores == UpdateScoresWithOutcome(old(scores), EvaluateBoard(board).winner, EvaluateBoard(board).isDraw) &&
                resultRecorded && board == old(board) && currentPlayer == old(currentPlayer) &&
                difficulty == old(difficulty) && positionsEvaluated == old(positionsEvaluated)
    {
      var e := EvaluateBoard(board);
      if e.isComplete && !resultRecorded {
        scores := UpdateScoresWithOutcome(scores, e.winner, e.isDraw);
        resultRecorded := true;
      }
    }

    /** The computer's turn, run when O is to move and the game is not over. `missRoll`
        and `pickRoll` are the two values the easy strategy draws. The computer plays on
        an empty square and the turn goes back to X. */
    method PlayAITurn(missRoll: real, pickRoll: real)
      requires Valid() && 0.0 <= pickRoll < 1.0
      modifies this
      ensures Valid()
      ensures old(currentPlayer) != O || old(EvaluateBoard(board).isComplete) ==> unchanged(this)
      ensures old(currentPlayer) == O && !old(EvaluateBoard(board).isComplete) ==>
                var choice := AIChoice(old(board), old(difficulty), missRoll, pickRoll);
                choice.index.Some? && old(board[choice.index.value]) == Empty &&
                board == MakeMove(old(board), choice.index.value, O) &&
                positionsEvaluated == choice.positions && currentPlayer == X &&
                scores == old(scores) && difficulty == old(difficulty) && resultRecorded == old(resultRecorded)
    {
      if currentPlayer != O || EvaluateBoard(board).isComplete {
        return;
      }
      InProgressHasRoom(board);
      if difficulty == Hard {
        // the board has room, so there is a decision and its square is empty
        var decision, _ := GetHardAIMove(board, O);
        if decision.Some? {
          var index := decision.value.index;
          if board[index] == Empty {
            MakeMoveCounts(board, index, O);
            board := MakeMove(board, index, O);
          }
          positionsEvaluated := decision.value.positionsEvaluated;
        }
      } else {
        // likewise the easy strategy has a square, and it is empty
        var index := GetEasyAIMove(board, missRoll, pickRoll);
        if index.Some? {
          if board[index.value] == Empty {
            MakeMoveCounts(board, index.value, O);
            board := MakeMove(board, index.value, O);
          }
        }
        positionsEvaluated := 0;
      }
      currentPlayer := X;
    }

    /** A fresh board with X to move; the record and the difficulty stay. */
    method HandleNewGame()
      modifies this
      ensures Valid()
      ensures board == CreateInitialBoard() && currentPlayer == X
      ensures positionsEvaluated == 0 && !resultRecorded
      ensures scores == old(scores) && difficulty == old(difficulty)
    {
      board := CreateInitialBoard();
      currentPlayer := X;
      positionsEvaluated := 0;
      resultRecorded := false;
      EmptyBoardCounts();
    }

    /** The record goes back to the default; the game in progress is untouched. */
    method HandleResetScores()
      requires Valid()
      modifies this
      ensures Valid()
      ensures scores == DefaultScores
      ensures board == old(board) && currentPlayer == old(currentPlayer) && difficulty == old(difficulty)
      ensures positionsEvaluated == old(positionsEvaluated) && resultRecorded == old(resultRecorded)
    {
      scores := DefaultScores;
    }

    /** Changing the difficulty starts a new game. */
    method HandleDifficultyChange(next: Difficulty)
      modifies this
      ensures Valid()
      ensures difficulty == next && board == CreateInitialBoard() && currentPlayer == X
      ensures positionsEvaluated == 0 && !resultRecorded && scores == old(scores)
    {
      difficulty := next;
      HandleNewGame();
    }
  }

  /** Under the invariant, X is to move exactly when an odd number of squares is empty:
      X has the first move on the empty board of nine squares, and each move fills one. */
  lemma TurnParity(g: GameState)
    requires g.Valid()
    ensures g.currentPlayer == X <==> Count(g.board, Empty) % 2 == 1
  {
    CountPartition(g.board);
  }
}
