/** The state of the Tic-Tac-Toe game page and its transitions: one shared
    board, whose turn it is, and the end of the game. Player 1 plays "X",
    player 2 plays "O". */
module TicTacToeGame {
  import opened Protocol
  import opened TicTacToeBoard

  /** The symbol each seat plays. */
  function Symbol(p: Player): (m: Mark)
    ensures m != Blank
    ensures m.X? <==> p.Player1?
    ensures m.O? <==> p.Player2?
  {
    if p == Player1 then X else O
  }

  class TicTacToe {
    /** The names of the two players chosen on the menu. */
    const llm1: string
    const llm2: string

    var board: Board
    var currentPlayer: Player
    var gameOver: bool
    var winner: Option<string>
    var isInitialized: bool

    function NameOf(p: Player): string {
      if p == Player1 then llm1 else llm2
    }

    /** The page's invariant: before initialisation the board is empty and
        nothing has happened; afterwards the board is 3x3, the game is over
        exactly when `checkGameOver` has a result for it, there is a winner
        exactly when that result is a line, and then the line is in the
        symbol of the player whose turn it still is, who is the winner. */
    ghost predicate Valid()
      reads this
    {
      && (!isInitialized ==> board == [] && !gameOver && winner == None)
      && (isInitialized ==>
            && IsGrid(board)
            && (gameOver <==> Result(board) != Pending)
            && (winner.Some? <==> Result(board).Won?)
            && (Result(board).Won? ==>
                  Result(board).mark == Symbol(currentPlayer) && winner == Some(NameOf(currentPlayer))))
    }

    /** The state before the mount effect runs. */
    constructor (name1: string, name2: string)
      ensures Valid()
      ensures llm1 == name1 && llm2 == name2
      ensures board == [] && currentPlayer == Player1 && !gameOver && winner == None && !isInitialized
    {
      llm1, llm2 := name1, name2;
      board, currentPlayer, gameOver, winner, isInitialized := [], Player1, false, None, false;
    }

    /** `initializeGame`: a fresh board, player 1 to move. */
    method InitializeGame()
      modifies this
      ensures Valid()
      ensures board == CreateEmptyBoard()
      ensures currentPlayer == Player1 && !gameOver && winner == None && isInitialized
    {
      currentPlayer := Player1;
      gameOver := false;
      winner := None;
      board := CreateEmptyBoard();
      isInitialized := true;
      EmptyBoardPending();
    }

    /** The end of `makeMove`: the new board is stored and checked. A
        result ends the game, a line makes the mover the winner, and only
        while there is no result does the turn pass. */
    method Settle(newBoard: Board)
      requires Valid() && isInitialized && !gameOver
      requires IsGrid(newBoard)
      requires Result(newBoard).Won? ==> Result(newBoard).mark == Symbol(currentPlayer)
      modifies this
      ensures Valid() && isInitialized && board == newBoard
      ensures (gameOver <==> Result(board) != Pending)
      ensures winner == (if Result(board).Won? then Some(NameOf(old(currentPlayer))) else None)
      ensures currentPlayer == (if gameOver then old(currentPlayer) else old(currentPlayer).Other())
    {
      board := newBoard;
      var gameResult := CheckGameOver(newBoard);
      if gameResult != Pending {
        gameOver := true;
        if gameResult != Draw {
          winner := Some(NameOf(currentPlayer));
        }
      } else {
        currentPlayer := currentPlayer.Other();
      }
    }

    /** `makeMove` for the player whose turn it is, given the reply of the
        move route. The move is ignored when the game is over or not
        started, or when the reply carries no usable in-range move. A move
        at a cell writes the mover's symbol there, whatever the cell held;
        a stray column index writes nothing. Then the board is checked: a
        result ends the game, a line makes the mover the winner, and only
        while there is no result does the turn pass. */
    method MakeMove(reply: Reply<MoveCheck>)
      requires Valid()
      modifies this
      ensures Valid()
      ensures var t := TargetOf(reply, "makeMove", Size);
        if old(gameOver) || !old(isInitialized) || t.NoMove? then unchanged(this)
        else
          && isInitialized
          && board == (if t.AtCell? then SetMark(old(board), t.x, t.y, Symbol(old(currentPlayer)))
                       else old(board))
          && (gameOver <==> Result(board) != Pending)
          && winner == (if Result(board).Won? then Some(NameOf(old(currentPlayer))) else None)
          && currentPlayer == (if gameOver then old(currentPlayer) else old(currentPlayer).Other())
    {
      // An initialised board is never empty, so the page's length check
      // adds nothing here.
      if gameOver || !isInitialized {
        return;
      }
      var mover := currentPlayer;
      var t := TargetOf(reply, "makeMove", Size);
      var newBoard := board;
      match t {
        case NoMove =>
          return;
        case StrayColumn(_) =>
          // `newBoard[x][y] = symbol` with a fractional `y` creates a named
          // property of the copied row instead of writing a cell.
        case AtCell(x, y) =>
          newBoard := SetMark(board, x, y, Symbol(mover));
          MoverWins(board, x, y, Symbol(mover));
      }
      Settle(newBoard);
    }
  }
}
