/**
 * The state machine of the Game component (src/index.js, class Game): the
 * history of board snapshots, whose turn it is, and the winner, changed by
 * a click on a square and by a jump back in the history.
 *
 * Each setState call is one atomic update of the fields.
 */
module TicTacToe {

  import opened Wrappers
  import opened Squares
  import opened Display

  /** Snapshot k of a game: nine squares, (k+1)/2 of them X and k/2 of them O. */
  ghost predicate IsSnapshot(squares: seq<Cell>, k: nat)
  {
    |squares| == 9 && Count(squares, X) == (k + 1) / 2 && Count(squares, O) == k / 2
  }

  /** Every mark on the earlier board is still in place on the later one. */
  ghost predicate Extends(before: seq<Cell>, after: seq<Cell>)
  {
    |before| == |after|
    && forall j :: 0 <= j < |before| && before[j] != Empty ==> after[j] == before[j]
  }

  /**
   * A history that play can produce: snapshot k is a snapshot after k moves,
   * and each snapshot keeps every mark of the one before.
   */
  ghost predicate LegalHistory(history: seq<seq<Cell>>)
  {
    && (forall k :: 0 <= k < |history| ==> IsSnapshot(history[k], k))
    && (forall k :: 0 < k < |history| ==> Extends(history[k - 1], history[k]))
  }

  /** Appending the next snapshot to a legal history keeps it legal. */
  lemma AppendKeepsLegal(history: seq<seq<Cell>>, squares: seq<Cell>)
    requires |history| > 0 && LegalHistory(history)
    requires IsSnapshot(squares, |history|) && Extends(history[|history| - 1], squares)
    ensures LegalHistory(history + [squares])
  {
    var h := history + [squares];
    assert forall k :: 0 <= k < |history| ==> h[k] == history[k];
  }

  /** A non-empty prefix of a legal history is legal. */
  lemma PrefixKeepsLegal(history: seq<seq<Cell>>, n: nat)
    requires LegalHistory(history)
    requires 0 < n <= |history|
    ensures LegalHistory(history[..n])
  {
  }

  /** Snapshot k of a game holds k marks. */
  lemma SnapshotHasKMarks(squares: seq<Cell>, k: nat)
    requires IsSnapshot(squares, k)
    ensures Count(squares, Empty) == 9 - k
    ensures k <= 9
  {
    CountPartition(squares);
  }

  class Game {
    var history: seq<seq<Cell>>
    var xIsNext: bool
    var winner: Option<Mark>

    /**
     * The invariant the two handlers keep: the history starts at the empty
     * board and each snapshot adds one mark, X and O alternating; the turn
     * flag follows the number of moves, except that a winning move leaves
     * it unflipped; a recorded winner is the winner of the current board.
     */
    ghost predicate Valid()
      reads this
    {
      |history| > 0
      && LegalHistory(history)
      && xIsNext == (((|history| - 1) % 2 == 0) == winner.None?)
      && (winner.Some? ==> winner == Winner(history[|history| - 1]))
    }

    /** The initial state: one empty snapshot, X to move, no winner. */
    constructor ()
      ensures Valid()
      ensures history == [EmptyBoard] && xIsNext && winner == None
      ensures Status(winner, xIsNext) == "Next player: X"
      ensures MoveLabels(history) == ["Go to game start"]
    {
      history := [EmptyBoard];
      xIsNext := true;
      winner := None;
    }

    /** The board on display: the latest snapshot. */
    function CurrentSquares(): (squares: seq<Cell>)
      reads this
      requires |history| > 0
      ensures squares == history[|history| - 1]
      ensures Valid() ==> |squares| == 9 && Count(squares, Empty) == 10 - |history|
    {
      MovesOnCurrentBoard();
      history[|history| - 1]
    }

    /** In a valid state the current board holds one mark per move played. */
    lemma MovesOnCurrentBoard()
      requires |history| > 0
      ensures Valid() ==> Count(history[|history| - 1], Empty) == 10 - |history|
    {
      if Valid() {
        SnapshotHasKMarks(history[|history| - 1], |history| - 1);
      }
    }

    /**
     * A click on square i. Ignored once the game has a winner or when the
     * square is taken; otherwise the mover's mark is written on a copy of
     * the current board, the copy is appended to the history, and either
     * the winner is recorded (the turn flag stays) or the turn passes.
     */
    method HandleClick(i: nat)
      requires Valid()
      requires i < 9
      modifies this
      ensures Valid()
      ensures old(winner).Some? || old(CurrentSquares())[i] != Empty ==>
                history == old(history) && xIsNext == old(xIsNext) && winner == old(winner)
      ensures old(winner).None? && old(CurrentSquares())[i] == Empty ==>
                && history == old(history) + [old(CurrentSquares())[i := MoverMark(old(xIsNext))]]
                && winner == Winner(history[|history| - 1])
                && (winner.Some? ==> xIsNext == old(xIsNext))
                && (winner.None? ==> xIsNext == !old(xIsNext))
    {
      var current := CurrentSquares();
      if winner.Some? || current[i] != Empty {
        return;
      }
      var squares := current[i := MoverMark(xIsNext)];
      var w := CalculateWinner(squares);
      ghost var n := |history|;
      MoveKeepsSnapshot(current, i, n - 1, xIsNext);
      AppendKeepsLegal(history, squares);
      if w.Some? {
        history, winner := history + [squares], w;
      } else {
        history, xIsNext := history + [squares], !xIsNext;
      }
    }

    /**
     * A jump to snapshot step of the history: later snapshots are dropped and
     * the turn flag is recomputed from the parity of step. The winner always
     * ends up null: the source (src/index.js:115) keeps a null winner, and
     * otherwise passes the wrapper object {squares} instead of the board to
     * the win evaluation, which finds no numbered squares in it and returns
     * null.
     */
    method JumpTo(step: nat)
      requires Valid()
      requires step < |history|
      modifies this
      ensures Valid()
      ensures history == old(history)[..step + 1]
      ensures xIsNext == (step % 2 == 0)
      ensures winner == None
    {
      PrefixKeepsLegal(history, step + 1);
      history := history[..step + 1];
      xIsNext := step % 2 == 0;
      winner := None;
    }
  }

  /**
   * A legal move turns snapshot k into snapshot k + 1, provided the mover is
   * the one the parity of k designates.
   */
  lemma MoveKeepsSnapshot(current: seq<Cell>, i: nat, k: nat, xIsNext: bool)
    requires IsSnapshot(current, k)
    requires i < 9 && current[i] == Empty
    requires xIsNext == (k % 2 == 0)
    ensures IsSnapshot(current[i := MoverMark(xIsNext)], k + 1)
    ensures Extends(current, current[i := MoverMark(xIsNext)])
  {
    CountUpdate(current, i, MoverMark(xIsNext), X);
    CountUpdate(current, i, MoverMark(xIsNext), O);
  }

  /**
   * What the invariant says of the history: snapshot k has nine squares of
   * which exactly k are marked, so a game has at most ten snapshots.
   */
  lemma HistoryShape(g: Game)
    requires g.Valid()
    ensures forall k :: 0 <= k < |g.history| ==> |g.history[k]| == 9 && Count(g.history[k], Empty) == 9 - k
    ensures |g.history| <= 10
  {
    forall k | 0 <= k < |g.history|
      ensures |g.history[k]| == 9 && Count(g.history[k], Empty) == 9 - k
    {
      SnapshotHasKMarks(g.history[k], k);
    }
    SnapshotHasKMarks(g.history[|g.history| - 1], |g.history| - 1);
  }

  /** After nine moves every square is taken, so every further click is ignored. */
  lemma FullBoardIgnoresClicks(g: Game, i: nat)
    requires g.Valid()
    requires |g.history| == 10 && i < 9
    ensures g.CurrentSquares()[i] != Empty
  {
    HistoryShape(g);
    CountZero(g.CurrentSquares(), Empty);
  }

  /**
   * While nobody has won, the status line names X after an even number of
   * moves and O after an odd number.
   */
  lemma StatusShowsTurn(g: Game)
    requires g.Valid()
    requires g.winner.None?
    ensures Status(g.winner, g.xIsNext)
            == "Next player: " + MarkText(MoverMark((|g.history| - 1) % 2 == 0))
  {
  }

  /**
   * X plays 0, O plays 3, X plays 1, O plays 4, X plays 2: the top row is
   * X's, six snapshots are recorded, and the turn flag stays with X.
   */
  method PlayTopRowWin() returns (g: Game)
    ensures fresh(g) && g.Valid()
    ensures |g.history| == 6 && g.winner == Some(X) && g.xIsNext
    ensures g.CurrentSquares() == [X, X, X, O, O, Empty, Empty, Empty, Empty]
  {
    g := new Game();
    g.HandleClick(0);
    NoWinnerYet([X, Empty, Empty, Empty, Empty, Empty, Empty, Empty, Empty]);
    g.HandleClick(3);
    NoWinnerYet([X, Empty, Empty, O, Empty, Empty, Empty, Empty, Empty]);
    g.HandleClick(1);
    NoWinnerYet([X, X, Empty, O, Empty, Empty, Empty, Empty, Empty]);
    g.HandleClick(4);
    NoWinnerYet([X, X, Empty, O, O, Empty, Empty, Empty, Empty]);
    g.HandleClick(2);
    assert Complete(g.CurrentSquares(), Lines[0]);
  }

  /**
   * Every line passes through square 2, 5, 6, 7 or 8, so a board with those
   * five squares empty has no winner.
   */
  lemma NoWinnerYet(squares: seq<Cell>)
    requires |squares| == 9
    requires squares[2] == squares[5] == squares[6] == squares[7] == squares[8] == Empty
    ensures Winner(squares) == None
  {
    forall k | 0 <= k < |Lines|
      ensures !Complete(squares, Lines[k])
    {
    }
  }

  /**
   * The scripted game above ends with the status "Winner: X" and history
   * labels from "Go to game start" to "Go to step #5".
   */
  method TopRowWin() returns (status: string, snapshots: nat, labels: seq<string>)
    ensures status == "Winner: X"
    ensures snapshots == 6
    ensures |labels| == 6 && labels[0] == "Go to game start" && labels[5] == "Go to step #5"
  {
    var g := PlayTopRowWin();
    status, snapshots, labels := Status(g.winner, g.xIsNext), |g.history|, MoveLabels(g.history);
  }

  /**
   * Because a jump always clears the winner, jumping to the snapshot on which
   * X won reopens the board: O may move, and the win evaluation, which scans
   * the top row first, then records X as the winner of O's move.
   */
  method ReplayAfterWin() returns (statusAfterJump: string, statusAfterMove: string, moved: bool)
    ensures statusAfterJump == "Next player: O"
    ensures moved
    ensures statusAfterMove == "Winner: X"
  {
    var g := PlayTopRowWin();
    g.JumpTo(5);
    statusAfterJump := Status(g.winner, g.xIsNext);
    var before := |g.history|;
    g.HandleClick(8);
    moved := |g.history| == before + 1;
    assert Complete(g.CurrentSquares(), Lines[0]);
    statusAfterMove := Status(g.winner, g.xIsNext);
  }
}
