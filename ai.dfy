/** The two computer strategies: an exhaustive minimax search ("hard")
    and a beatable heuristic driven by random rolls ("easy"). */
module AI {
  import opened GameLogic

  function SwitchPlayer(p: Mark): (q: Mark)
    ensures q != p
  {
    if p == X then O else X
  }

  lemma SwitchPlayerInvolution(p: Mark)
    ensures SwitchPlayer(SwitchPlayer(p)) == p
  {
  }

  /* ---------------------------------------------------------------- empty squares */

  /** The empty squares below `n`, in increasing order. */
  function EmptyBelow(b: Board, n: nat): (r: seq<Index>)
    requires n <= 9
    ensures |r| == Count(b[..n], Empty)
  {
    if n == 0 then []
    else
      assert b[..n][..n - 1] == b[..n - 1];
      EmptyBelow(b, n - 1) + (if b[n - 1] == Empty then [n - 1] else [])
  }

  /** `EmptyBelow` lists exactly the empty squares below `n`, each once, in increasing order. */
  lemma {:induction false} EmptyBelowFacts(b: Board, n: nat)
    requires n <= 9
    ensures forall i :: 0 <= i < 9 ==> (i in EmptyBelow(b, n) <==> i < n && b[i] == Empty)
    ensures forall j, k :: 0 <= j < k < |EmptyBelow(b, n)| ==> EmptyBelow(b, n)[j] < EmptyBelow(b, n)[k]
  {
    if n > 0 {
      EmptyBelowFacts(b, n - 1);
      var r := EmptyBelow(b, n - 1);
      forall j | 0 <= j < |r| ensures r[j] < n - 1 {
        assert r[j] in r;
      }
    }
  }

  function EmptyIndices(b: Board): seq<Index> {
    EmptyBelow(b, 9)
  }

  lemma EmptyIndicesFacts(b: Board)
    ensures forall i :: 0 <= i < 9 ==> (i in EmptyIndices(b) <==> b[i] == Empty)
    ensures forall j, k :: 0 <= j < k < |EmptyIndices(b)| ==> EmptyIndices(b)[j] < EmptyIndices(b)[k]
    ensures |EmptyIndices(b)| == Count(b, Empty)
    ensures |EmptyIndices(b)| == 0 <==> IsBoardFull(b)
  {
    EmptyBelowFacts(b, 9);
    assert b[..9] == b;
    FullIffNoEmpty(b);
  }

  method GetEmptyIndices(b: Board) returns (indices: seq<Index>)
    ensures indices == EmptyIndices(b)
  {
    indices := [];
    var i := 0;
    while i < 9
      invariant 0 <= i <= 9
      invariant indices == EmptyBelow(b, i)
    {
      if b[i] == Empty {
        indices := indices + [i];
      }
      i := i + 1;
    }
  }

  /* ---------------------------------------------------------------- leaf scores */

  /** The score of a finished game seen from `ai`, `depth` plies below the search root.
      `winner == Empty` is a draw. A quicker win scores higher, a later loss scores higher. */
  function ScoreForWinner(winner: Cell, ai: Mark, depth: int): (s: int)
    ensures depth < 10 ==> (s > 0 <==> winner == ai) && (s < 0 <==> winner != ai && winner != Empty)
    ensures depth <= 10 ==> s == 0 || s == 10 - depth || s == depth - 10
    ensures 1 <= depth <= 9 ==> -9 <= s <= 9
  {
    if winner == ai then 10 - depth
    else if winner == Empty then 0
    else depth - 10
  }

  lemma ScoreForWinnerPrefersQuickWins(ai: Mark, d1: int, d2: int)
    requires d1 < d2
    ensures ScoreForWinner(ai, ai, d1) > ScoreForWinner(ai, ai, d2)
    ensures ScoreForWinner(SwitchPlayer(ai), ai, d1) < ScoreForWinner(SwitchPlayer(ai), ai, d2)
  {
  }

  /* ---------------------------------------------------------------- minimax search */

  /** The result of searching one position: its score and the number of positions visited. */
  datatype Outcome = Outcome(score: int, positions: nat)

  /** The game is over: somebody won or the board is a draw. */
  predicate IsTerminal(b: Board) {
    var e := EvaluateBoard(b);
    e.winner != Empty || e.isDraw
  }

  predicate AllEmpty(b: Board, idx: seq<Index>) {
    forall k :: 0 <= k < |idx| ==> b[idx[k]] == Empty
  }

  /** One step of the running best: `None` stands for the initial -Infinity
      (maximizing) or +Infinity (minimizing), which every score beats. */
  function Improve(best: Option<int>, score: int, maximizing: bool): Option<int> {
    if maximizing then
      if best.None? || score > best.value then Some(score) else best
    else
      if best.None? || score < best.value then Some(score) else best
  }

  /** The running best over the first `n` children, in order. */
  function BestScore(cs: seq<Outcome>, n: nat, maximizing: bool): (r: Option<int>)
    requires n <= |cs|
    ensures r.None? <==> n == 0
  {
    if n == 0 then None else Improve(BestScore(cs, n - 1, maximizing), cs[n - 1].score, maximizing)
  }

  /** The running best is the score of one of the children and no child beats it. */
  lemma {:induction false} BestScoreIsExtremum(cs: seq<Outcome>, n: nat, maximizing: bool)
    requires 0 < n <= |cs|
    ensures exists k :: 0 <= k < n && cs[k].score == BestScore(cs, n, maximizing).value
    ensures forall k :: 0 <= k < n ==>
              if maximizing then cs[k].score <= BestScore(cs, n, maximizing).value
              else BestScore(cs, n, maximizing).value <= cs[k].score
  {
    if n == 1 {
      assert cs[0].score == BestScore(cs, n, maximizing).value;
    } else {
      BestScoreIsExtremum(cs, n - 1, maximizing);
      var best := BestScore(cs, n, maximizing).value;
      if best == cs[n - 1].score {
        assert 0 <= n - 1 < n && cs[n - 1].score == best;
      } else {
        assert best == BestScore(cs, n - 1, maximizing).value;
      }
    }
  }

  /** The positions visited in the first `n` children. */
  function TotalPositions(cs: seq<Outcome>, n: nat): nat
    requires n <= |cs|
  {
    if n == 0 then 0 else TotalPositions(cs, n - 1) + cs[n - 1].positions
  }

  /** The value of `b` for `ai` with `current` to move, and the size of the searched tree. */
  function Minimax(b: Board, current: Mark, ai: Mark, depth: int): Outcome
    decreases Count(b, Empty), 1, 0
  {
    if IsTerminal(b) then
      Outcome(ScoreForWinner(EvaluateBoard(b).winner, ai, depth), 1)
    else
      var empties := EmptyIndices(b);
      EmptyIndicesFacts(b);
      var cs := Children(b, current, ai, depth, empties);
      Outcome(BestScore(cs, |cs|, current == ai).value, 1 + TotalPositions(cs, |cs|))
  }

  /** The searches of the children obtained by `current` playing at each of `idx`, in order. */
  function Children(b: Board, current: Mark, ai: Mark, depth: int, idx: seq<Index>): (cs: seq<Outcome>)
    requires AllEmpty(b, idx)
    ensures |cs| == |idx|
    decreases Count(b, Empty), 0, |idx|
  {
    if idx == [] then []
    else
      CountUpdate(b, idx[0], current, Empty);
      [Minimax(b[idx[0] := current], SwitchPlayer(current), ai, depth + 1)] +
      Children(b, current, ai, depth, idx[1..])
  }

  lemma {:induction false} ChildrenAt(b: Board, current: Mark, ai: Mark, depth: int, idx: seq<Index>, k: nat)
    requires AllEmpty(b, idx) && k < |idx|
    ensures Children(b, current, ai, depth, idx)[k] ==
            Minimax(b[idx[k] := current], SwitchPlayer(current), ai, depth + 1)
    ensures Count(b[idx[k] := current], Empty) == Count(b, Empty) - 1
    decreases k
  {
    CountUpdate(b, idx[k], current, Empty);
    if k > 0 {
      ChildrenAt(b, current, ai, depth, idx[1..], k - 1);
    }
  }

  lemma EmptyIndicesAllEmpty(b: Board)
    ensures AllEmpty(b, EmptyIndices(b))
  {
    EmptyIndicesFacts(b);
    var e := EmptyIndices(b);
    forall k | 0 <= k < |e| ensures b[e[k]] == Empty {
      assert e[k] in e;
    }
  }

  /** Search statistics shared by all recursive calls of one decision. */
  class Metrics {
    var positions: nat

    constructor ()
      ensures positions == 0
    {
      positions := 0;
    }
  }

  method MinimaxInternal(b: Board, current: Mark, ai: Mark, depth: int, metrics: Metrics) returns (score: int)
    modifies metrics
    ensures score == Minimax(b, current, ai, depth).score
    ensures metrics.positions == old(metrics.positions) + Minimax(b, current, ai, depth).positions
    decreases Count(b, Empty), 2
  {
    metrics.positions := metrics.positions + 1;
    var e := EvaluateBoard(b);
    if e.winner != Empty || e.isDraw {
      return ScoreForWinner(e.winner, ai, depth);
    }
    var empties := GetEmptyIndices(b);
    InPlay(b);
    var best := SearchChildren(b, current, ai, depth, empties, metrics);
    score := best.value;
  }

  /** The search loop over the children, in the order of `idx`, keeping the running best. */
  method SearchChildren(b: Board, current: Mark, ai: Mark, depth: int, idx: seq<Index>, metrics: Metrics)
    returns (best: Option<int>)
    requires AllEmpty(b, idx)
    modifies metrics
    ensures best == BestScore(Children(b, current, ai, depth, idx), |idx|, current == ai)
    ensures metrics.positions == old(metrics.positions) + TotalPositions(Children(b, current, ai, depth, idx), |idx|)
    decreases Count(b, Empty), 1
  {
    var maximizing := current == ai;
    ghost var cs := Children(b, current, ai, depth, idx);
    best := None;
    var k := 0;
    while k < |idx|
      invariant 0 <= k <= |idx|
      invariant best == BestScore(cs, k, maximizing)
      invariant metrics.positions == old(metrics.positions) + TotalPositions(cs, k)
    {
      var s := SearchChild(b, current, ai, depth, idx, k, metrics);
      if maximizing {
        if best.None? || s > best.value {
          best := Some(s);
        }
      } else if best.None? || s < best.value {
        best := Some(s);
      }
      k := k + 1;
    }
  }

  /** The body of the search loop: `current` plays at `idx[k]` on a copy of the board,
      and the copy is searched one ply deeper with the other player to move. */
  method SearchChild(b: Board, current: Mark, ai: Mark, depth: int, idx: seq<Index>, k: nat, metrics: Metrics)
    returns (score: int)
    requires AllEmpty(b, idx) && k < |idx|
    modifies metrics
    ensures score == Children(b, current, ai, depth, idx)[k].score
    ensures metrics.positions == old(metrics.positions) + Children(b, current, ai, depth, idx)[k].positions
    decreases Count(b, Empty), 0
  {
    var next := b[idx[k] := current];
    ChildrenAt(b, current, ai, depth, idx, k);
    score := MinimaxInternal(next, SwitchPlayer(current), ai, depth + 1, metrics);
  }

  /** The facts about a position that is still in play that every proof below starts from. */
  lemma InPlay(b: Board)
    requires !IsTerminal(b)
    ensures |EmptyIndices(b)| == Count(b, Empty) > 0
    ensures AllEmpty(b, EmptyIndices(b))
  {
    EmptyIndicesFacts(b);
    EmptyIndicesAllEmpty(b);
  }

  /** The minimax rule, independent of the order of the search: in a game still in
      play, the value of a position is the value of one of its moves, and no move is
      better for the player to move (higher for `ai`, lower for the opponent). */
  lemma MinimaxIsBestMove(b: Board, current: Mark, ai: Mark, depth: int)
    requires !IsTerminal(b)
    ensures exists i: Index :: b[i] == Empty &&
              Minimax(b[i := current], SwitchPlayer(current), ai, depth + 1).score == Minimax(b, current, ai, depth).score
    ensures forall i: Index :: b[i] == Empty ==>
              if current == ai then
                Minimax(b[i := current], SwitchPlayer(current), ai, depth + 1).score <= Minimax(b, current, ai, depth).score
              else
                Minimax(b, current, ai, depth).score <= Minimax(b[i := current], SwitchPlayer(current), ai, depth + 1).score
  {
    InPlay(b);
    EmptyIndicesFacts(b);
    var e := EmptyIndices(b);
    var cs := Children(b, current, ai, depth, e);
    BestScoreIsExtremum(cs, |cs|, current == ai);
    var k :| 0 <= k < |cs| && cs[k].score == BestScore(cs, |cs|, current == ai).value;
    ChildrenAt(b, current, ai, depth, e, k);
    assert b[e[k]] == Empty;
    forall i: Index | b[i] == Empty
      ensures if current == ai then
                Minimax(b[i := current], SwitchPlayer(current), ai, depth + 1).score <= Minimax(b, current, ai, depth).score
              else
                Minimax(b, current, ai, depth).score <= Minimax(b[i := current], SwitchPlayer(current), ai, depth + 1).score
    {
      MoveWithinValue(b, current, ai, depth, i);
    }
  }

  lemma MoveWithinValue(b: Board, current: Mark, ai: Mark, depth: int, i: Index)
    requires !IsTerminal(b) && b[i] == Empty
    ensures if current == ai then
              Minimax(b[i := current], SwitchPlayer(current), ai, depth + 1).score <= Minimax(b, current, ai, depth).score
            else
              Minimax(b, current, ai, depth).score <= Minimax(b[i := current], SwitchPlayer(current), ai, depth + 1).score
  {
    InPlay(b);
    EmptyIndicesFacts(b);
    var e := EmptyIndices(b);
    var cs := Children(b, current, ai, depth, e);
    BestScoreIsExtremum(cs, |cs|, current == ai);
    assert i in e;
    var j :| 0 <= j < |e| && e[j] == i;
    ChildrenAt(b, current, ai, depth, e, j);
  }

  /** Every score lies within 10 - depth of zero, and strictly within it below a
      position that is not over, as long as the search cannot pass depth 10. */
  lemma {:induction false} MinimaxBound(b: Board, current: Mark, ai: Mark, depth: int)
    requires 0 <= depth && depth + Count(b, Empty) <= 10
    ensures -(10 - depth) <= Minimax(b, current, ai, depth).score <= 10 - depth
    ensures !IsTerminal(b) ==> -(9 - depth) <= Minimax(b, current, ai, depth).score <= 9 - depth
    decreases Count(b, Empty), 1
  {
    if !IsTerminal(b) {
      InPlay(b);
      var empties := EmptyIndices(b);
      var cs := Children(b, current, ai, depth, empties);
      forall k | 0 <= k < |cs| ensures -(9 - depth) <= cs[k].score <= 9 - depth {
        ChildBound(b, current, ai, depth, empties, k);
      }
      BestScoreIsExtremum(cs, |cs|, current == ai);
    }
  }

  lemma {:induction false} ChildBound(b: Board, current: Mark, ai: Mark, depth: int, idx: seq<Index>, k: nat)
    requires AllEmpty(b, idx) && k < |idx|
    requires 0 <= depth && depth + Count(b, Empty) <= 10
    ensures -(9 - depth) <= Children(b, current, ai, depth, idx)[k].score <= 9 - depth
    decreases Count(b, Empty), 0
  {
    ChildrenAt(b, current, ai, depth, idx, k);
    MinimaxBound(b[idx[k] := current], SwitchPlayer(current), ai, depth + 1);
  }

  /** The number of positions visited depends only on the board and the side to move,
      not on whose score is computed or at which depth the search starts. */
  lemma {:induction false} PositionsIgnoreScoring(b: Board, current: Mark, ai1: Mark, d1: int, ai2: Mark, d2: int)
    ensures Minimax(b, current, ai1, d1).positions == Minimax(b, current, ai2, d2).positions
    decreases Count(b, Empty), 1
  {
    if !IsTerminal(b) {
      InPlay(b);
      var empties := EmptyIndices(b);
      var cs1 := Children(b, current, ai1, d1, empties);
      var cs2 := Children(b, current, ai2, d2, empties);
      forall k | 0 <= k < |cs1| ensures cs1[k].positions == cs2[k].positions {
        ChildPositionsIgnoreScoring(b, current, ai1, d1, ai2, d2, empties, k);
      }
      SamePositions(cs1, cs2, |cs1|);
    }
  }

  lemma {:induction false} ChildPositionsIgnoreScoring(b: Board, current: Mark, ai1: Mark, d1: int, ai2: Mark, d2: int,
                                                       idx: seq<Index>, k: nat)
    requires AllEmpty(b, idx) && k < |idx|
    ensures Children(b, current, ai1, d1, idx)[k].positions == Children(b, current, ai2, d2, idx)[k].positions
    decreases Count(b, Empty), 0
  {
    ChildrenAt(b, current, ai1, d1, idx, k);
    ChildrenAt(b, current, ai2, d2, idx, k);
    PositionsIgnoreScoring(b[idx[k] := current], SwitchPlayer(current), ai1, d1 + 1, ai2, d2 + 1);
  }

  lemma {:induction false} SamePositions(cs1: seq<Outcome>, cs2: seq<Outcome>, n: nat)
    requires n <= |cs1| && n <= |cs2|
    requires forall k :: 0 <= k < n ==> cs1[k].positions == cs2[k].positions
    ensures TotalPositions(cs1, n) == TotalPositions(cs2, n)
  {
    if n > 0 {
      SamePositions(cs1, cs2, n - 1);
    }
  }

  /** The largest tree a search can visit with `e` empty squares: 1 + e * MaxNodes(e - 1). */
  function MaxNodes(e: nat): nat {
    if e == 0 then 1 else 1 + e * MaxNodes(e - 1)
  }

  /** A position counts once and is a leaf exactly when the game is over; the whole
      tree stays within MaxNodes of its number of empty squares. */
  lemma {:induction false} PositionsBounded(b: Board, current: Mark, ai: Mark, depth: int)
    ensures Minimax(b, current, ai, depth).positions == 1 <==> IsTerminal(b)
    ensures Minimax(b, current, ai, depth).positions <= MaxNodes(Count(b, Empty))
    decreases Count(b, Empty), 1
  {
    if !IsTerminal(b) {
      InPlay(b);
      var empties := EmptyIndices(b);
      var e := Count(b, Empty);
      var m := MaxNodes(e - 1);
      var cs := Children(b, current, ai, depth, empties);
      forall k | 0 <= k < |cs| ensures 1 <= cs[k].positions <= m {
        ChildPositionsBounded(b, current, ai, depth, empties, k);
      }
      PositionsSumBounded(cs, |cs|, m);
      assert MaxNodes(e) == 1 + e * m;
    }
  }

  lemma {:induction false} ChildPositionsBounded(b: Board, current: Mark, ai: Mark, depth: int, idx: seq<Index>, k: nat)
    requires AllEmpty(b, idx) && k < |idx|
    ensures Count(b, Empty) > 0
    ensures 1 <= Children(b, current, ai, depth, idx)[k].positions <= MaxNodes(Count(b, Empty) - 1)
    decreases Count(b, Empty), 0
  {
    ChildrenAt(b, current, ai, depth, idx, k);
    PositionsBounded(b[idx[k] := current], SwitchPlayer(current), ai, depth + 1);
  }

  lemma {:induction false} PositionsSumBounded(cs: seq<Outcome>, n: nat, m: nat)
    requires n <= |cs|
    requires forall k :: 0 <= k < n ==> 1 <= cs[k].positions <= m
    ensures n <= TotalPositions(cs, n) <= n * m
  {
    if n > 0 {
      PositionsSumBounded(cs, n - 1, m);
      assert (n - 1) * m + m == n * m;
    }
  }

  /* ---------------------------------------------------------------- hard strategy */

  /** What the hard strategy decides: a square, its score and the positions searched. */
  datatype Decision = Decision(index: Index, score: int, positionsEvaluated: nat)

  /** One call of the `onEvaluateMove` observer. */
  datatype Evaluated = Evaluated(index: Index, score: int)

  /** The searches below each empty square, with `ai` playing there first (depth 1). */
  function Candidates(b: Board, ai: Mark): (cs: seq<Outcome>)
    ensures |cs| == |EmptyIndices(b)|
  {
    EmptyIndicesAllEmpty(b);
    Children(b, ai, ai, 0, EmptyIndices(b))
  }

  /** The position of the leading candidate among the first `n`: a candidate
      replaces the leader only with a strictly greater score. */
  function LeaderPos(cs: seq<Outcome>, n: nat): (p: nat)
    requires 0 < n <= |cs|
    ensures p < n
  {
    if n == 1 then 0
    else if cs[n - 1].score > BestScore(cs, n - 1, true).value then n - 1
    else LeaderPos(cs, n - 1)
  }

  lemma {:induction false} LeaderPosFacts(cs: seq<Outcome>, n: nat)
    requires 0 < n <= |cs|
    ensures cs[LeaderPos(cs, n)].score == BestScore(cs, n, true).value
    ensures forall j :: 0 <= j < LeaderPos(cs, n) ==> cs[j].score < cs[LeaderPos(cs, n)].score
  {
    if n > 1 {
      LeaderPosFacts(cs, n - 1);
      BestScoreIsExtremum(cs, n - 1, true);
    }
  }

  /** The calls of the observer over the first `n` candidates, in order. */
  function TraceOf(e: seq<Index>, cs: seq<Outcome>, n: nat): (t: seq<Evaluated>)
    requires n <= |e| && n <= |cs|
    ensures |t| == n
  {
    if n == 0 then [] else TraceOf(e, cs, n - 1) + [Evaluated(e[n - 1], cs[n - 1].score)]
  }

  function HardDecision(b: Board, ai: Mark): (r: Option<Decision>)
    ensures r.None? <==> IsBoardFull(b)
    ensures r.Some? ==> b[r.value.index] == Empty
  {
    EmptyIndicesFacts(b);
    var empties := EmptyIndices(b);
    if empties == [] then None
    else
      var cs := Candidates(b, ai);
      var p := LeaderPos(cs, |cs|);
      assert empties[p] in empties;
      Some(Decision(empties[p], BestScore(cs, |cs|, true).value, TotalPositions(cs, |cs|)))
  }

  /** The hard strategy picks the lowest empty square whose search scores highest. */
  lemma HardDecisionIsFirstBest(b: Board, ai: Mark)
    requires !IsBoardFull(b)
    ensures var d := HardDecision(b, ai).value;
            var e := EmptyIndices(b);
            var cs := Candidates(b, ai);
            (forall k :: 0 <= k < |e| ==> cs[k].score <= d.score) &&
            exists p :: 0 <= p < |e| && e[p] == d.index && cs[p].score == d.score &&
                        forall j :: 0 <= j < p ==> e[j] < d.index && cs[j].score < d.score
  {
    var e := EmptyIndices(b);
    var cs := Candidates(b, ai);
    EmptyIndicesFacts(b);
    var p := LeaderPos(cs, |cs|);
    LeaderPosFacts(cs, |cs|);
    BestScoreIsExtremum(cs, |cs|, true);
    assert e[p] == HardDecision(b, ai).value.index;
  }

  /** On a game still in progress the hard strategy's score is the minimax value of the
      position, and it visits every position of the game tree except the root. */
  lemma HardDecisionIsMinimax(b: Board, ai: Mark)
    requires !IsTerminal(b)
    ensures HardDecision(b, ai).Some?
    ensures HardDecision(b, ai).value.score == Minimax(b, ai, ai, 0).score
    ensures HardDecision(b, ai).value.positionsEvaluated + 1 == Minimax(b, ai, ai, 0).positions
  {
    EmptyIndicesFacts(b);
  }

  /** A candidate scores at most 9, and exactly 9 when its square wins on the spot. */
  lemma {:induction false} CandidateScore(b: Board, ai: Mark, k: nat)
    requires k < |EmptyIndices(b)|
    ensures Candidates(b, ai)[k].score <= 9
    ensures Candidates(b, ai)[k].score == 9 <==> EvaluateBoard(b[EmptyIndices(b)[k] := ai]).winner == ai
  {
    var e := EmptyIndices(b);
    EmptyIndicesAllEmpty(b);
    ChildrenAt(b, ai, ai, 0, e, k);
    MinimaxBound(b[e[k] := ai], SwitchPlayer(ai), ai, 1);
  }

  /** When some square wins on the spot, the hard strategy takes a winning square and scores 9. */
  lemma HardDecisionTakesWin(b: Board, ai: Mark, i: Index)
    requires b[i] == Empty && EvaluateBoard(b[i := ai]).winner == ai
    ensures HardDecision(b, ai).Some?
    ensures HardDecision(b, ai).value.score == 9
    ensures EvaluateBoard(MakeMove(b, HardDecision(b, ai).value.index, ai)).winner == ai
  {
    var e := EmptyIndices(b);
    var cs := Candidates(b, ai);
    EmptyIndicesFacts(b);
    assert i in e;
    var q :| 0 <= q < |e| && e[q] == i;
    forall k | 0 <= k < |e|
      ensures cs[k].score <= 9
      ensures cs[k].score == 9 <==> EvaluateBoard(b[e[k] := ai]).winner == ai
    {
      CandidateScore(b, ai, k);
    }
    HardDecisionIsFirstBest(b, ai);
  }

  method GetHardAIMove(b: Board, ai: Mark) returns (r: Option<Decision>, trace: seq<Evaluated>)
    ensures r == HardDecision(b, ai)
    ensures r.None? <==> IsBoardFull(b)
    ensures r.Some? ==> b[r.value.index] == Empty
    ensures trace == TraceOf(EmptyIndices(b), Candidates(b, ai), |EmptyIndices(b)|)
  {
    var empties := GetEmptyIndices(b);
    if |empties| == 0 {
      return None, [];
    }
    EmptyIndicesAllEmpty(b);
    var metrics := new Metrics();
    var score, index;
    score, index, trace := ScanCandidates(b, ai, empties, metrics);
    r := Some(Decision(index, score, metrics.positions));
  }

  /** The loop of the hard strategy: `ai` plays at each square of `idx` in turn, the
      resulting position is searched, the observer is told the score, and a square
      replaces the leader only with a strictly greater score. */
  method ScanCandidates(b: Board, ai: Mark, idx: seq<Index>, metrics: Metrics)
    returns (bestScore: int, bestMove: Index, trace: seq<Evaluated>)
    requires AllEmpty(b, idx) && |idx| > 0
    modifies metrics
    ensures bestScore == BestScore(Children(b, ai, ai, 0, idx), |idx|, true).value
    ensures bestMove == idx[LeaderPos(Children(b, ai, ai, 0, idx), |idx|)]
    ensures trace == TraceOf(idx, Children(b, ai, ai, 0, idx), |idx|)
    ensures metrics.positions == old(metrics.positions) + TotalPositions(Children(b, ai, ai, 0, idx), |idx|)
  {
    ghost var cs := Children(b, ai, ai, 0, idx);
    var best: Option<int> := None;
    bestMove := idx[0];
    trace := [];
    var k := 0;
    while k < |idx|
      invariant 0 <= k <= |idx|
      invariant best == BestScore(cs, k, true)
      invariant k > 0 ==> bestMove == idx[LeaderPos(cs, k)]
      invariant metrics.positions == old(metrics.positions) + TotalPositions(cs, k)
      invariant trace == TraceOf(idx, cs, k)
    {
      var index := idx[k];
      var score := SearchChild(b, ai, ai, 0, idx, k, metrics);
      trace := trace + [Evaluated(index, score)];
      if best.None? || score > best.value {
        best := Some(score);
        bestMove := index;
      }
      k := k + 1;
    }
    bestScore := best.value;
  }

  /* ---------------------------------------------------------------- critical squares */

  /** Playing `p` at the empty square `i` of `l` completes `l` for `p`. */
  predicate Completes(b: Board, l: Line, p: Mark, i: Index) {
    OnLine(l, i) && b[i] == Empty && Wins(b[i := p], l)
  }

  lemma CountOfThree(x: Cell, y: Cell, z: Cell, c: Cell)
    ensures Count([x, y, z], c) == (if x == c then 1 else 0) + (if y == c then 1 else 0) + (if z == c then 1 else 0)
  {
    assert [x, y, z][..2] == [x, y];
    assert Count([x, y, z], c) == Count([x, y], c) + (if z == c then 1 else 0);
    assert [x, y][..1] == [x];
    assert Count([x, y], c) == Count([x], c) + (if y == c then 1 else 0);
    assert [x][..0] == [];
    assert Count([x], c) == if x == c then 1 else 0;
  }

  /** The square of `l` that `p` needs to complete it: the first empty square of `l`
      when two of its squares are filled and both hold `p`. */
  function LineThreat(b: Board, l: Line, p: Mark): seq<Index> {
    var cells := [b[l.a], b[l.b], b[l.c]];
    var filled := 3 - Count(cells, Empty);
    var owned := Count(cells, p);
    if filled == 2 && owned == 2 then
      if b[l.a] == Empty then [l.a]
      else if b[l.b] == Empty then [l.b]
      else if b[l.c] == Empty then [l.c]
      else []
    else []
  }

  /** On a line of three different squares, the square reported is exactly the one whose
      move by `p` completes the line. */
  lemma LineThreatIsCompletion(b: Board, l: Line, p: Mark)
    requires DistinctSquares(l)
    ensures forall i :: i in LineThreat(b, l, p) <==> Completes(b, l, p, i)
  {
    CountOfThree(b[l.a], b[l.b], b[l.c], Empty);
    CountOfThree(b[l.a], b[l.b], b[l.c], p);
    forall i: Index | Completes(b, l, p, i) ensures i in LineThreat(b, l, p) {
      var b' := b[i := p];
      assert b'[l.a] == p && b'[l.b] == p && b'[l.c] == p;
    }
  }

  /** The critical squares found in the first `n` winning lines, in line order. */
  function CriticalBelow(b: Board, p: Mark, n: nat): seq<Index>
    requires n <= |WinningLines|
  {
    if n == 0 then [] else CriticalBelow(b, p, n - 1) + LineThreat(b, WinningLines[n - 1], p)
  }

  /** Every square reported completes one of the first `n` lines for `p`, and every
      square that completes one of them is reported. */
  lemma {:induction false} CriticalBelowFacts(b: Board, p: Mark, n: nat)
    requires n <= |WinningLines|
    ensures forall i :: i in CriticalBelow(b, p, n) ==>
              b[i] == Empty && exists k :: 0 <= k < n && Completes(b, WinningLines[k], p, i)
    ensures forall k, i :: 0 <= k < n && Completes(b, WinningLines[k], p, i) ==> i in CriticalBelow(b, p, n)
  {
    if n > 0 {
      CriticalBelowFacts(b, p, n - 1);
      WinningLinesDistinct();
      LineThreatIsCompletion(b, WinningLines[n - 1], p);
    }
  }

  function CriticalSquares(b: Board, p: Mark): seq<Index> {
    CriticalBelow(b, p, |WinningLines|)
  }

  /** The critical squares for `p` are exactly the empty squares where `p` would complete
      a winning line. */
  lemma CriticalSquaresFacts(b: Board, p: Mark)
    ensures forall i :: i in CriticalSquares(b, p) ==>
              b[i] == Empty && exists k :: 0 <= k < |WinningLines| && Completes(b, WinningLines[k], p, i)
    ensures forall k, i :: 0 <= k < |WinningLines| && Completes(b, WinningLines[k], p, i) ==>
              i in CriticalSquares(b, p)
  {
    CriticalBelowFacts(b, p, |WinningLines|);
  }

  method FindCriticalSquares(b: Board, p: Mark) returns (indices: seq<Index>)
    ensures indices == CriticalSquares(b, p)
  {
    indices := [];
    var n := 0;
    while n < |WinningLines|
      invariant 0 <= n <= |WinningLines|
      invariant indices == CriticalBelow(b, p, n)
    {
      indices := indices + LineThreat(b, WinningLines[n], p);
      n := n + 1;
    }
  }

  /* ---------------------------------------------------------------- easy strategy */

  /** Below this first roll the easy strategy does not look for a square to block. */
  const MissBlockChance: real := 0.4

  /** `floor(roll * n)`: a position in a list of `n` entries for a roll in [0, 1). */
  function PickIndex(roll: real, n: nat): (k: int)
    requires 0.0 <= roll < 1.0 && n > 0
    ensures 0 <= k < n
  {
    var x := roll * (n as real);
    assert 0.0 <= x < n as real;
    x.Floor
  }

  /** The easy strategy with its two random rolls made explicit: `missRoll` is the first
      `rng()` value, `pickRoll` the second, drawn only when no block is made. */
  function GetEasyAIMove(b: Board, missRoll: real, pickRoll: real): (r: Option<Index>)
    requires 0.0 <= pickRoll < 1.0
    ensures r.None? <==> IsBoardFull(b)
    ensures r.Some? ==> b[r.value] == Empty
    ensures EmptyIndices(b) != [] && missRoll >= MissBlockChance && CriticalSquares(b, X) != [] ==>
              r == Some(CriticalSquares(b, X)[0])
    ensures EmptyIndices(b) != [] && (missRoll < MissBlockChance || CriticalSquares(b, X) == []) ==>
              r == Some(EmptyIndices(b)[PickIndex(pickRoll, |EmptyIndices(b)|)])
  {
    EmptyIndicesFacts(b);
    var empties := EmptyIndices(b);
    if |empties| == 0 then None
    else
      var critical := CriticalSquares(b, X);
      CriticalSquaresFacts(b, X);
      if missRoll >= MissBlockChance && |critical| > 0 then
        assert critical[0] in critical;
        Some(critical[0])
      else
        var k := PickIndex(pickRoll, |empties|);
        assert empties[k] in empties;
        Some(empties[k])
  }

  /** Unless the first roll skips the check, the easy strategy blocks a line
      that X would complete on its next move. */
  lemma EasyAIBlocks(b: Board, missRoll: real, pickRoll: real, k: nat, i: Index)
    requires 0.0 <= pickRoll < 1.0 && missRoll >= MissBlockChance
    requires k < |WinningLines| && Completes(b, WinningLines[k], X, i)
    ensures GetEasyAIMove(b, missRoll, pickRoll).Some?
    ensures exists k' :: 0 <= k' < |WinningLines| &&
              Completes(b, WinningLines[k'], X, GetEasyAIMove(b, missRoll, pickRoll).value)
  {
    var c := CriticalSquares(b, X);
    CriticalSquaresFacts(b, X);
    assert i in c;
    assert c[0] in c;
    EmptyIndicesFacts(b);
    assert b[i] == Empty;
  }
}
