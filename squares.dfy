/**
 * The squares of the 3x3 board and the win evaluation of the Game component
 * (src/index.js, calculateWinner).
 *
 * A board is a row-major sequence of cells, index 0 at the top left and
 * index 8 at the bottom right, exactly as the Board component lays them out.
 */
module Squares {

  import opened Wrappers

  /** One square: empty (JavaScript null) or holding one player's mark. */
  datatype Cell = Empty | X | O

  /** A player's mark: a cell that is not empty. */
  type Mark = c: Cell | c != Empty witness X

  /** The board every game starts from: nine empty squares. */
  const EmptyBoard: seq<Cell> := [Empty, Empty, Empty, Empty, Empty, Empty, Empty, Empty, Empty]

  /** The mark the player to move writes: X when xIsNext holds, O otherwise. */
  function MoverMark(xIsNext: bool): Mark
  {
    if xIsNext then X else O
  }

  /** A line of three squares, by index. */
  datatype Line = Line(a: nat, b: nat, c: nat)

  /** The eight winning lines, in the order they are scanned: rows, columns, diagonals. */
  const Lines: seq<Line> := [
    Line(0, 1, 2), Line(3, 4, 5), Line(6, 7, 8),
    Line(0, 3, 6), Line(1, 4, 7), Line(2, 5, 8),
    Line(0, 4, 8), Line(2, 4, 6)
  ]

  /**
   * The square at index i. Reading past the end of a JavaScript array
   * gives undefined, which the win test treats like an empty square.
   */
  function At(squares: seq<Cell>, i: nat): Cell
  {
    if i < |squares| then squares[i] else Empty
  }

  /** The three squares of the line hold the same non-empty mark. */
  predicate Complete(squares: seq<Cell>, line: Line)
  {
    At(squares, line.a) != Empty
    && At(squares, line.a) == At(squares, line.b)
    && At(squares, line.a) == At(squares, line.c)
  }

  /** The winner found by scanning the lines from index k on. */
  function WinnerFrom(squares: seq<Cell>, k: nat): Option<Mark>
    decreases |Lines| - k
  {
    if k >= |Lines| then None
    else if Complete(squares, Lines[k]) then Some(At(squares, Lines[k].a))
    else WinnerFrom(squares, k + 1)
  }

  /** Line k is complete and no line scanned before it is. */
  ghost predicate FirstComplete(squares: seq<Cell>, k: int)
  {
    0 <= k < |Lines|
    && Complete(squares, Lines[k])
    && forall j :: 0 <= j < k ==> !Complete(squares, Lines[j])
  }

  /** No line holds three equal non-empty marks. */
  ghost predicate NoCompleteLine(squares: seq<Cell>)
  {
    forall k :: 0 <= k < |Lines| ==> !Complete(squares, Lines[k])
  }

  /** The first complete line in the scanning order holds mark m. */
  ghost predicate FirstLineIsOf(squares: seq<Cell>, m: Mark)
  {
    exists k :: FirstComplete(squares, k) && At(squares, Lines[k].a) == m
  }

  lemma {:induction false} WinnerFromFirst(squares: seq<Cell>, k: nat)
    requires forall j :: 0 <= j < k && j < |Lines| ==> !Complete(squares, Lines[j])
    ensures WinnerFrom(squares, k).None? <==>
              forall j :: k <= j < |Lines| ==> !Complete(squares, Lines[j])
    ensures WinnerFrom(squares, k).Some? ==>
              exists j :: FirstComplete(squares, j) && WinnerFrom(squares, k) == Some(At(squares, Lines[j].a))
    decreases |Lines| - k
  {
    if k < |Lines| {
      if Complete(squares, Lines[k]) {
        assert FirstComplete(squares, k);
      } else {
        WinnerFromFirst(squares, k + 1);
      }
    }
  }

  /**
   * The winner of a board. There is none exactly when no line holds three
   * equal non-empty marks (so a full board without a line is a draw);
   * otherwise it is the mark of the first complete line in the scanning
   * order: rows, then columns, then diagonals.
   */
  function Winner(squares: seq<Cell>): (r: Option<Mark>)
    ensures r.None? <==> NoCompleteLine(squares)
    ensures r.Some? ==> FirstLineIsOf(squares, r.value)
  {
    WinnerFromFirst(squares, 0);
    WinnerFrom(squares, 0)
  }

  /** A winner is reported only when all three squares of some line hold that mark. */
  lemma WinnerOwnsALine(squares: seq<Cell>, m: Mark)
    requires Winner(squares) == Some(m)
    ensures exists k :: 0 <= k < |Lines|
              && At(squares, Lines[k].a) == m
              && At(squares, Lines[k].b) == m
              && At(squares, Lines[k].c) == m
  {
    var k :| FirstComplete(squares, k) && At(squares, Lines[k].a) == m;
    assert At(squares, Lines[k].b) == m;
  }

  /**
   * The win evaluation as the source writes it: a loop over the lines that
   * returns at the first complete one.
   */
  method CalculateWinner(squares: seq<Cell>) returns (winner: Option<Mark>)
    ensures winner == Winner(squares)
  {
    var k := 0;
    while k < |Lines|
      invariant 0 <= k <= |Lines|
      invariant Winner(squares) == WinnerFrom(squares, k)
    {
      var line := Lines[k];
      var a := At(squares, line.a);
      if a != Empty && a == At(squares, line.b) && a == At(squares, line.c) {
        return Some(a);
      }
      k := k + 1;
    }
    return None;
  }

  /** The board holding mark m on line k and nothing else. */
  function LoneLine(k: nat, m: Mark): (squares: seq<Cell>)
    requires k < |Lines|
    ensures |squares| == 9
  {
    seq(9, j requires 0 <= j < 9 =>
      if j == Lines[k].a || j == Lines[k].b || j == Lines[k].c then m else Empty)
  }

  /** Each of the eight lines, filled with one mark on an otherwise empty board, wins for that mark. */
  lemma LoneLineWins(k: nat, m: Mark)
    requires k < |Lines|
    ensures Winner(LoneLine(k, m)) == Some(m)
  {
    var squares := LoneLine(k, m);
    forall j | 0 <= j < k
      ensures !Complete(squares, Lines[j])
    {
    }
    assert Complete(squares, Lines[k]);
  }

  /** A full board with no complete line: the game is drawn. */
  const DrawnBoard: seq<Cell> := [X, O, X, X, O, O, O, X, X]

  lemma DrawnBoardHasNoWinner()
    ensures Winner(DrawnBoard) == None
    ensures forall i :: 0 <= i < 9 ==> DrawnBoard[i] != Empty
  {
    forall k | 0 <= k < |Lines|
      ensures !Complete(DrawnBoard, Lines[k])
    {
    }
  }

  /** The number of squares holding c. */
  function Count(squares: seq<Cell>, c: Cell): (n: nat)
    ensures n <= |squares|
  {
    if squares == [] then 0
    else (if squares[0] == c then 1 else 0) + Count(squares[1..], c)
  }

  /** Every square is empty, X or O, so the three counts add up to the board size. */
  lemma {:induction false} CountPartition(squares: seq<Cell>)
    ensures Count(squares, Empty) + Count(squares, X) + Count(squares, O) == |squares|
  {
    if squares != [] {
      CountPartition(squares[1..]);
    }
  }

  /** Writing d at index i moves one square from the count of squares[i] to the count of d. */
  lemma {:induction false} CountUpdate(squares: seq<Cell>, i: nat, d: Cell, c: Cell)
    requires i < |squares|
    ensures Count(squares[i := d], c)
            == Count(squares, c) - (if squares[i] == c then 1 else 0) + (if d == c then 1 else 0)
  {
    if i == 0 {
      assert squares[i := d][1..] == squares[1..];
    } else {
      assert squares[i := d][1..] == squares[1..][i - 1 := d];
      CountUpdate(squares[1..], i - 1, d, c);
    }
  }

  /** A value that occurs nowhere has count zero, and conversely. */
  lemma {:induction false} CountZero(squares: seq<Cell>, c: Cell)
    ensures Count(squares, c) == 0 <==> forall i :: 0 <= i < |squares| ==> squares[i] != c
  {
    if squares != [] {
      CountZero(squares[1..], c);
      if Count(squares, c) == 0 {
        forall i | 0 <= i < |squares| ensures squares[i] != c {
          if i > 0 { assert squares[i] == squares[1..][i - 1]; }
        }
      } else if squares[0] != c {
        var i :| 0 <= i < |squares[1..]| && squares[1..][i] == c;
        assert squares[i + 1] == c;
      }
    }
  }
}
