/** The Tic-Tac-Toe `makeMove` tool: it checks a proposed move against the
    board the proposer passed in, which may be malformed. Unlike the
    Battleship tool it demands whole-number coordinates. */
module TicTacToeTool {
  import opened Protocol
  import opened TicTacToeBoard

  const OutOfBounds: string := "Coordinates out of bounds"
  const SpotTaken: string := "Spot already taken"

  /** Both coordinates are integers in [0, 3). */
  predicate OnBoard(x: real, y: real) {
    IsIndex(x, Size) && IsIndex(y, Size)
  }

  /** The tool's body. A row the board does not have makes `board[x][y]`
      throw; a cell the row does not have reads `undefined`, which is not
      "empty". */
  function ValidateMove(board: Board, x: real, y: real): (r: Executed<MoveCheck>)
    ensures r == Returned(Invalid(OutOfBounds)) <==> !OnBoard(x, y)
    ensures r == Raised <==> OnBoard(x, y) && x.Floor >= |board|
    ensures r.Returned? && r.value.Valid? <==>
              && OnBoard(x, y) && x.Floor < |board| && y.Floor < |board[x.Floor]|
              && board[x.Floor][y.Floor] == Blank
    ensures r.Returned? && r.value.Valid? ==> r.value == Valid(x, y)
    ensures r.Returned? && r.value.Invalid? ==> r.value.reason in {OutOfBounds, SpotTaken}
  {
    if !OnBoard(x, y) then Returned(Invalid(OutOfBounds))
    else if x.Floor >= |board| then Raised
    else if y.Floor >= |board[x.Floor]| || board[x.Floor][y.Floor] != Blank then
      Returned(Invalid(SpotTaken))
    else Returned(Valid(x, y))
  }

  /** On a well-formed board the tool never throws, and it accepts exactly
      the empty cells. */
  lemma ValidateOnGrid(board: Board, x: int, y: int)
    requires IsGrid(board)
    ensures var r := ValidateMove(board, x as real, y as real);
      && r.Returned?
      && (r.value.Valid? <==> 0 <= x < Size && 0 <= y < Size && board[x][y] == Blank)
  {
    assert (x as real).Floor == x && (y as real).Floor == y;
  }

  /** Whatever board the proposer passed, an answer of this tool never
      reaches the page as a stray column, and it reaches the page as a move
      exactly when the tool accepted it, at the coordinates it checked. */
  lemma ToolAnswerOnPage(results: seq<ToolResult<MoveCheck>>, board: Board, x: real, y: real)
    requires FindOutput(results, "makeMove") == Some(ValidateMove(board, x, y))
    ensures var t := TargetOf(Replied(results), "makeMove", Size);
      && !t.StrayColumn?
      && (t.AtCell? <==> ValidateMove(board, x, y).Returned? && ValidateMove(board, x, y).value.Valid?)
      && (t.AtCell? ==> t.x as real == x && t.y as real == y)
  {
  }

  /** A move the tool accepted against the real board lands on an empty
      cell, so the page's write erases no mark. */
  lemma AcceptedMoveErasesNothing(board: Board, x: real, y: real, m: Mark)
    requires IsGrid(board)
    requires ValidateMove(board, x, y).Returned? && ValidateMove(board, x, y).value.Valid?
    ensures var t := TargetOf(Replied([ToolResult("makeMove", ValidateMove(board, x, y))]), "makeMove", Size);
      && t == AtCell(x.Floor, y.Floor)
      && forall r, c :: 0 <= r < Size && 0 <= c < Size && board[r][c] != Blank ==>
           SetMark(board, t.x, t.y, m)[r][c] == board[r][c]
  {
  }

  /** The tool's edge cases: fractions and the far edge are out of bounds,
      a missing row throws, and a missing cell counts as taken. */
  lemma ValidateEdgeCases()
    ensures ValidateMove(CreateEmptyBoard(), 1.0, 2.0) == Returned(Valid(1.0, 2.0))
    ensures ValidateMove(CreateEmptyBoard(), 1.5, 2.0) == Returned(Invalid(OutOfBounds))
    ensures ValidateMove(CreateEmptyBoard(), 0.0, 3.0) == Returned(Invalid(OutOfBounds))
    ensures ValidateMove(CreateEmptyBoard(), -1.0, 0.0) == Returned(Invalid(OutOfBounds))
    ensures ValidateMove(SetMark(CreateEmptyBoard(), 1, 1, O), 1.0, 1.0) == Returned(Invalid(SpotTaken))
    ensures ValidateMove([], 0.0, 0.0) == Raised
    ensures ValidateMove([[Blank]], 0.0, 2.0) == Returned(Invalid(SpotTaken))
  {
    assert (1.5).Floor == 1;
  }
}
