/** The Tic-Tac-Toe rule engine of the game page: the 3x3 board, writing a
    mark, and `checkGameOver`, which looks for a completed line in a fixed
    order (rows, then columns, then the two diagonals) before it looks for
    a full board. */
module TicTacToeBoard {
  import opened Protocol

  const Size: nat := 3

  /** A cell: "empty", "X" or "O". */
  datatype Mark = Blank | X | O

  /** `board[x][y]`: `x` selects the row, `y` the column. */
  type Board = seq<seq<Mark>>

  /** What `checkGameOver` returns: the mark of a completed line, "draw", or
      `null` while the game goes on. */
  datatype Outcome = Won(mark: Mark) | Draw | Pending

  predicate IsGrid(b: Board) {
    |b| == Size && forall x :: 0 <= x < |b| ==> |b[x]| == Size
  }

  function CreateEmptyBoard(): (b: Board)
    ensures IsGrid(b)
    ensures forall x, y :: 0 <= x < Size && 0 <= y < Size ==> b[x][y] == Blank
  {
    seq(Size, _ => seq(Size, _ => Blank))
  }

  /** `newBoard[x][y] = symbol` on a row-by-row copy. */
  function SetMark(b: Board, x: nat, y: nat, m: Mark): (nb: Board)
    requires IsGrid(b) && x < Size && y < Size
    ensures IsGrid(nb) && nb[x][y] == m
    ensures forall r, c :: 0 <= r < Size && 0 <= c < Size && (r != x || c != y) ==> nb[r][c] == b[r][c]
  {
    b[x := b[x][y := m]]
  }

  // ---------------------------------------------------------------------
  // The eight lines, in the order `checkGameOver` tries them

  const LineCount: nat := 8

  /** Row and column of the `j`-th cell of line `k`: lines 0-2 are the
      rows, 3-5 the columns, 6 the main diagonal and 7 the anti-diagonal
      (from the top right). */
  function LineRow(k: nat, j: nat): nat
    requires k < LineCount && j < Size
  {
    if k < 3 then k else j
  }

  function LineCol(k: nat, j: nat): nat
    requires k < LineCount && j < Size
  {
    if k < 3 then j else if k < 6 then k - 3 else if k == 6 then j else 2 - j
  }

  function At(b: Board, k: nat, j: nat): Mark
    requires IsGrid(b) && k < LineCount && j < Size
  {
    b[LineRow(k, j)][LineCol(k, j)]
  }

  /** Line `k` holds three equal marks that are not "empty". */
  predicate Complete(b: Board, k: nat)
    requires IsGrid(b) && k < LineCount
  {
    At(b, k, 0) != Blank && At(b, k, 0) == At(b, k, 1) && At(b, k, 1) == At(b, k, 2)
  }

  /** The first complete line at or after `k`. */
  function FirstComplete(b: Board, k: nat): (r: Option<nat>)
    requires IsGrid(b) && k <= LineCount
    ensures r.Some? ==> k <= r.value < LineCount && Complete(b, r.value)
    ensures r.Some? ==> forall j :: k <= j < r.value ==> !Complete(b, j)
    ensures r.None? <==> forall j :: k <= j < LineCount ==> !Complete(b, j)
    decreases LineCount - k
  {
    if k == LineCount then None
    else if Complete(b, k) then Some(k)
    else FirstComplete(b, k + 1)
  }

  /** `board.every(row => row.every(cell => cell !== "empty"))`. */
  predicate Full(b: Board) {
    forall x, y :: 0 <= x < |b| && 0 <= y < |b[x]| ==> b[x][y] != Blank
  }

  /** The result `checkGameOver` specifies: the mark of the first complete
      line, otherwise a draw on a full board, otherwise nothing yet. */
  function Result(b: Board): Outcome
    requires IsGrid(b)
  {
    match FirstComplete(b, 0)
    case Some(k) => Won(At(b, k, 0))
    case None => if Full(b) then Draw else Pending
  }

  /** `checkGameOver`: the row loop, the column loop, the two diagonal
      tests and the full-board test, each returning as soon as it finds
      something. */
  method CheckGameOver(board: Board) returns (r: Outcome)
    requires IsGrid(board)
    ensures r == Result(board)
  {
    for i := 0 to Size
      invariant forall k :: 0 <= k < i ==> !Complete(board, k)
    {
      if board[i][0] != Blank && board[i][0] == board[i][1] && board[i][1] == board[i][2] {
        assert Complete(board, i);
        return Won(board[i][0]);
      }
      assert !Complete(board, i);
    }
    for i := 0 to Size
      invariant forall k :: 0 <= k < Size + i ==> !Complete(board, k)
    {
      if board[0][i] != Blank && board[0][i] == board[1][i] && board[1][i] == board[2][i] {
        assert Complete(board, Size + i);
        return Won(board[0][i]);
      }
      assert !Complete(board, Size + i);
    }
    if board[0][0] != Blank && board[0][0] == board[1][1] && board[1][1] == board[2][2] {
      assert Complete(board, 6);
      return Won(board[0][0]);
    }
    assert !Complete(board, 6);
    if board[0][2] != Blank && board[0][2] == board[1][1] && board[1][1] == board[2][0] {
      assert Complete(board, 7);
      return Won(board[0][2]);
    }
    assert !Complete(board, 7);
    if Full(board) {
      return Draw;
    }
    return Pending;
  }

  // ---------------------------------------------------------------------
  // Properties of the outcome

  /** A reported winner has a complete line of its own mark. */
  lemma WonHasLine(b: Board)
    requires IsGrid(b) && Result(b).Won?
    ensures Result(b).mark != Blank
    ensures exists k :: 0 <= k < LineCount && Complete(b, k) && At(b, k, 0) == Result(b).mark
  {
    var k := FirstComplete(b, 0).value;
    assert Complete(b, k) && At(b, k, 0) == Result(b).mark;
  }

  /** The game goes on exactly when no line is complete and some cell is
      empty; it is a draw exactly when no line is complete and no cell is
      empty. */
  lemma PendingAndDraw(b: Board)
    requires IsGrid(b)
    ensures Result(b) == Pending <==> (forall k :: 0 <= k < LineCount ==> !Complete(b, k)) && !Full(b)
    ensures Result(b) == Draw <==> (forall k :: 0 <= k < LineCount ==> !Complete(b, k)) && Full(b)
  {
  }

  /** A complete line that does not pass through the written cell was
      complete before. */
  lemma LineThroughMove(b: Board, x: nat, y: nat, m: Mark, k: nat)
    requires IsGrid(b) && x < Size && y < Size && k < LineCount
    requires Complete(SetMark(b, x, y, m), k) && !Complete(b, k)
    ensures exists j :: 0 <= j < Size && LineRow(k, j) == x && LineCol(k, j) == y
  {
    var nb := SetMark(b, x, y, m);
    if At(nb, k, 0) != At(b, k, 0) {
      assert LineRow(k, 0) == x && LineCol(k, 0) == y;
    } else if At(nb, k, 1) != At(b, k, 1) {
      assert LineRow(k, 1) == x && LineCol(k, 1) == y;
    } else {
      assert At(nb, k, 2) != At(b, k, 2);
      assert LineRow(k, 2) == x && LineCol(k, 2) == y;
    }
  }

  /** Only the player who moves can win by that move: writing a mark on a
      board where the game was still going on either leaves it going on,
      makes it a draw, or completes a line of that mark. Nothing else
      matters, not even whether the cell was empty. */
  lemma MoverWins(b: Board, x: nat, y: nat, m: Mark)
    requires IsGrid(b) && x < Size && y < Size && m != Blank
    requires Result(b) == Pending
    ensures Result(SetMark(b, x, y, m)).Won? ==> Result(SetMark(b, x, y, m)).mark == m
  {
    var nb := SetMark(b, x, y, m);
    var first := FirstComplete(nb, 0);
    if first.Some? {
      var k := first.value;
      LineThroughMove(b, x, y, m, k);
      var j :| 0 <= j < Size && LineRow(k, j) == x && LineCol(k, j) == y;
      assert At(nb, k, j) == m;
    }
  }

  /** A fresh board has no result. */
  lemma EmptyBoardPending()
    ensures Result(CreateEmptyBoard()) == Pending
  {
    var b := CreateEmptyBoard();
    assert b[0][0] == Blank;
    assert FirstComplete(b, 0) == None;
  }

  /** Rows are looked at in index order: with the top and middle rows
      both complete, the top row's mark is the result. */
  lemma RowsInOrder()
    ensures Result([[O, O, O], [X, X, X], [Blank, Blank, Blank]]) == Won(O)
  {
    assert Complete([[O, O, O], [X, X, X], [Blank, Blank, Blank]], 0);
  }

  /** A complete row and a complete column cross in one cell, so they
      carry the same mark: looking at rows before columns never changes
      the result. */
  lemma RowAndColumnAgree(b: Board, i: nat, j: nat)
    requires IsGrid(b) && i < Size && j < Size
    requires Complete(b, i) && Complete(b, 3 + j)
    ensures At(b, i, 0) == At(b, 3 + j, 0)
  {
    assert At(b, i, j) == b[i][j] == At(b, 3 + j, i);
  }

  /** A complete column wins when no row and no earlier column is
      complete; its mark is the result. */
  lemma ColumnWin(b: Board, j: nat)
    requires IsGrid(b) && j < Size
    requires forall k :: 0 <= k < 3 + j ==> !Complete(b, k)
    requires Complete(b, 3 + j)
    ensures Result(b) == Won(b[0][j])
  {
    var r := FirstComplete(b, 0);
    assert r.Some? && r.value == 3 + j;
  }

  /** The main diagonal wins when no row or column is complete; its mark
      is the result. */
  lemma DiagonalWin(b: Board)
    requires IsGrid(b)
    requires forall k :: 0 <= k < 6 ==> !Complete(b, k)
    requires Complete(b, 6)
    ensures Result(b) == Won(b[0][0])
  {
    var r := FirstComplete(b, 0);
    assert r.Some? && r.value == 6;
  }

  /** The anti-diagonal wins when no other line is complete; its mark,
      read from the top right cell, is the result. */
  lemma AntiDiagonalWin(b: Board)
    requires IsGrid(b)
    requires forall k :: 0 <= k < 7 ==> !Complete(b, k)
    requires Complete(b, 7)
    ensures Result(b) == Won(b[0][2])
  {
    var r := FirstComplete(b, 0);
    assert r.Some? && r.value == 7;
  }

  /** The full board X O X / X O O / O X X has no line and is a draw;
      with its middle-left cell emptied the game goes on. */
  lemma DrawAndPending()
    ensures Result([[X, O, X], [X, O, O], [O, X, X]]) == Draw
    ensures Result([[X, O, X], [Blank, O, O], [O, X, X]]) == Pending
  {
    var b := [[X, O, X], [X, O, O], [O, X, X]];
    assert !Complete(b, 0) && !Complete(b, 1) && !Complete(b, 2) && !Complete(b, 3);
    assert !Complete(b, 4) && !Complete(b, 5) && !Complete(b, 6) && !Complete(b, 7);
    var b2 := [[X, O, X], [Blank, O, O], [O, X, X]];
    assert !Complete(b2, 0) && !Complete(b2, 1) && !Complete(b2, 2) && !Complete(b2, 3);
    assert !Complete(b2, 4) && !Complete(b2, 5) && !Complete(b2, 6) && !Complete(b2, 7);
    assert b2[1][0] == Blank;
  }

  /** `b` holds a subset of the marks of `later`: every mark in `b` is in
      `later`, in the same cell. */
  predicate Below(b: Board, later: Board)
    requires IsGrid(b) && IsGrid(later)
  {
    forall r, c :: 0 <= r < Size && 0 <= c < Size && b[r][c] != Blank ==> b[r][c] == later[r][c]
  }

  /** A line complete on `b` is complete on any board holding `b`'s marks. */
  lemma BelowComplete(b: Board, later: Board, k: nat)
    requires IsGrid(b) && IsGrid(later) && Below(b, later) && k < LineCount
    ensures Complete(b, k) ==> Complete(later, k)
  {
    assert At(b, k, 0) != Blank ==> At(later, k, 0) == At(b, k, 0);
    assert At(b, k, 1) != Blank ==> At(later, k, 1) == At(b, k, 1);
    assert At(b, k, 2) != Blank ==> At(later, k, 2) == At(b, k, 2);
  }

  /** Taking marks off a board that has no result leaves a board that has
      none: it has no line the fuller board lacks, and an empty cell of the
      fuller board is empty in it too. */
  lemma BelowPending(b: Board, later: Board)
    requires IsGrid(b) && IsGrid(later) && Below(b, later) && Result(later) == Pending
    ensures Result(b) == Pending
  {
    forall k | 0 <= k < LineCount
      ensures Complete(b, k) ==> Complete(later, k)
    {
      BelowComplete(b, later, k);
    }
    var r, c :| 0 <= r < Size && 0 <= c < Size && later[r][c] == Blank;
    assert b[r][c] == Blank;
  }

  /** X takes the top row in three turns while O plays the middle row
      without blocking: the game goes on until X's third mark, which wins
      by the top row. */
  lemma TopRowScenario()
    ensures var b1 := SetMark(CreateEmptyBoard(), 0, 0, X);
      var b2 := SetMark(b1, 1, 0, O);
      var b3 := SetMark(b2, 0, 1, X);
      var b4 := SetMark(b3, 1, 1, O);
      var b5 := SetMark(b4, 0, 2, X);
      && Result(b1) == Pending && Result(b2) == Pending && Result(b3) == Pending
      && Result(b4) == Pending && Result(b5) == Won(X)
  {
    var b1 := SetMark(CreateEmptyBoard(), 0, 0, X);
    var b2 := SetMark(b1, 1, 0, O);
    var b3 := SetMark(b2, 0, 1, X);
    var b4 := SetMark(b3, 1, 1, O);
    assert forall k :: 0 <= k < LineCount ==> At(b4, k, 2) == Blank;
    assert b4[2][2] == Blank;
    BelowPending(b1, b4);
    BelowPending(b2, b4);
    BelowPending(b3, b4);
    var b5 := SetMark(b4, 0, 2, X);
    assert Complete(b5, 0);
  }
}
