/** The board of a 3x3 tic-tac-toe game and the queries over it:
    win and draw detection and the placement of one mark.
    Every operation takes a board value and returns a new value;
    nothing is updated in place. */
module GameLogic {

  datatype Option<T> = None | Some(value: T)

  /** A square of the board. `Empty` stands for the JavaScript `null`
      (the only falsy value a square can hold). */
  datatype Cell = Empty | X | O

  /** The mark of a player: a square that is not empty. */
  type Mark = c: Cell | c != Empty witness X

  /** A position on the board, row-major: index = row * 3 + col. */
  type Index = i: int | 0 <= i < 9

  /** A board always has exactly nine squares. */
  type Board = b: seq<Cell> | |b| == 9
    witness [Empty, Empty, Empty, Empty, Empty, Empty, Empty, Empty, Empty]

  /** Three squares that win when they hold the same mark. */
  datatype Line = Line(a: Index, b: Index, c: Index)

  /** The three rows, the three columns and the two diagonals, in this order. */
  const WinningLines: seq<Line> := [
    Line(0, 1, 2), Line(3, 4, 5), Line(6, 7, 8),
    Line(0, 3, 6), Line(1, 4, 7), Line(2, 5, 8),
    Line(0, 4, 8), Line(2, 4, 6)
  ]

  /** The three squares of `l` are different squares. */
  predicate DistinctSquares(l: Line) {
    l.a != l.b && l.a != l.c && l.b != l.c
  }

  lemma WinningLinesDistinct()
    ensures forall k :: 0 <= k < |WinningLines| ==> DistinctSquares(WinningLines[k])
  {
  }

  predicate OnLine(l: Line, i: Index) {
    i == l.a || i == l.b || i == l.c
  }

  /** The three squares of `l` hold one and the same mark. */
  predicate Wins(b: Board, l: Line) {
    b[l.a] != Empty && b[l.a] == b[l.b] && b[l.a] == b[l.c]
  }

  /** Some winning line is held by one player. */
  predicate HasWinningLine(b: Board) {
    exists k {:trigger Wins(b, WinningLines[k])} :: 0 <= k < |WinningLines| && Wins(b, WinningLines[k])
  }

  function CreateInitialBoard(): (b: Board)
    ensures forall i :: 0 <= i < |b| ==> b[i] == Empty
  {
    seq(9, _ => Empty)
  }

  /** Every square holds a mark. */
  predicate IsBoardFull(b: Board) {
    forall i :: 0 <= i < |b| ==> b[i] != Empty
  }

  /** The number of squares of `s` that hold `c`. */
  function Count(s: seq<Cell>, c: Cell): (n: nat)
    ensures n <= |s|
  {
    if s == [] then 0 else Count(s[..|s| - 1], c) + (if s[|s| - 1] == c then 1 else 0)
  }

  lemma {:induction false} CountZero(s: seq<Cell>, c: Cell)
    ensures Count(s, c) == 0 <==> forall i :: 0 <= i < |s| ==> s[i] != c
  {
    if s != [] {
      CountZero(s[..|s| - 1], c);
      assert forall i :: 0 <= i < |s| - 1 ==> s[..|s| - 1][i] == s[i];
    }
  }

  /** Writing `v` at `i` changes the count of `c` only by what was there and what is written. */
  /** Every square holds exactly one of the three values. */
  lemma {:induction false} CountPartition(s: seq<Cell>)
    ensures Count(s, X) + Count(s, O) + Count(s, Empty) == |s|
  {
    if s != [] {
      CountPartition(s[..|s| - 1]);
    }
  }

  lemma {:induction false} CountUpdate(s: seq<Cell>, i: nat, v: Cell, c: Cell)
    requires i < |s|
    ensures Count(s[i := v], c) ==
            Count(s, c) - (if s[i] == c then 1 else 0) + (if v == c then 1 else 0)
  {
    var n := |s| - 1;
    if i < n {
      assert s[i := v][..n] == s[..n][i := v];
      CountUpdate(s[..n], i, v, c);
    } else {
      assert s[i := v][..n] == s[..n];
    }
  }

  /** The position in `WinningLines`, at or after `from`, of the first line that wins. */
  function FirstWinFrom(b: Board, from: nat): (k: nat)
    requires from <= |WinningLines|
    ensures from <= k <= |WinningLines|
    ensures k < |WinningLines| ==> Wins(b, WinningLines[k])
    ensures forall j {:trigger Wins(b, WinningLines[j])} :: from <= j < k ==> !Wins(b, WinningLines[j])
    decreases |WinningLines| - from
  {
    if from == |WinningLines| then from
    else if Wins(b, WinningLines[from]) then from
    else FirstWinFrom(b, from + 1)
  }

  /** The first winning line in `WinningLines` order, or `None`. */
  function GetWinningLine(b: Board): (r: Option<Line>)
    ensures r.None? <==> !HasWinningLine(b)
    ensures r.Some? ==> exists k :: 0 <= k < |WinningLines| && WinningLines[k] == r.value &&
                          Wins(b, r.value) && forall j {:trigger Wins(b, WinningLines[j])} :: 0 <= j < k ==> !Wins(b, WinningLines[j])
  {
    var k := FirstWinFrom(b, 0);
    if k < |WinningLines| then Some(WinningLines[k]) else None
  }

  /** The outcome of a position. `winner == Empty` stands for `winner: null`. */
  datatype Evaluation = Evaluation(winner: Cell, winningLine: Option<Line>, isDraw: bool, isComplete: bool)

  /** The invariant every evaluation keeps: the game is over exactly when someone won
      or it is a draw, and a draw is a full board without a winner. */
  predicate Consistent(b: Board, e: Evaluation) {
    (e.isComplete <==> e.winner != Empty || e.isDraw) &&
    (e.isDraw <==> IsBoardFull(b) && e.winner == Empty) &&
    (e.winner != Empty <==> e.winningLine.Some?)
  }

  function EvaluateBoard(b: Board): (e: Evaluation)
    ensures Consistent(b, e)
    ensures e.winningLine == GetWinningLine(b)
    ensures e.winningLine.Some? ==> e.winner == b[e.winningLine.value.a] && e.isComplete && !e.isDraw
    ensures e.winner != Empty <==> HasWinningLine(b)
    ensures !HasWinningLine(b) ==> e.isDraw == IsBoardFull(b) && e.isComplete == IsBoardFull(b)
  {
    var line := GetWinningLine(b);
    if line.Some? then
      Evaluation(b[line.value.a], line, false, true)
    else if IsBoardFull(b) then
      Evaluation(Empty, None, true, true)
    else
      Evaluation(Empty, None, false, false)
  }

  /** Places `player` at `index`; an occupied square leaves the board as it is. */
  function MakeMove(b: Board, index: Index, player: Mark): (r: Board)
    ensures b[index] != Empty ==> r == b
    ensures b[index] == Empty ==> r[index] == player
    ensures forall j :: 0 <= j < 9 && j != index ==> r[j] == b[j]
  {
    if b[index] != Empty then b else b[index := player]
  }

  /** A move on an empty square fills exactly one square: one empty square fewer
      and one more mark of the player, the other mark unchanged. */
  lemma MakeMoveCounts(b: Board, index: Index, player: Mark)
    requires b[index] == Empty
    ensures Count(MakeMove(b, index, player), Empty) == Count(b, Empty) - 1
    ensures Count(MakeMove(b, index, player), player) == Count(b, player) + 1
    ensures forall c :: c != Empty && c != player ==>
              Count(MakeMove(b, index, player), c) == Count(b, c)
  {
    forall c {
      CountUpdate(b, index, player, c);
    }
  }

  /** Once a square holds a mark, a second move there changes nothing. */
  lemma MakeMoveSettles(b: Board, index: Index, p: Mark, q: Mark)
    ensures MakeMove(MakeMove(b, index, p), index, q) == MakeMove(b, index, p)
  {
  }

  /** A full board is one with no empty square left. */
  lemma FullIffNoEmpty(b: Board)
    ensures IsBoardFull(b) <==> Count(b, Empty) == 0
  {
    CountZero(b, Empty);
  }
}
