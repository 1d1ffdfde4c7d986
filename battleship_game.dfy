/** The state of the Battleship game page and its transitions: two fleet
    boards, the two attackers' views of them, whose turn it is, and the end
    of the game. Each React state variable is a field; each handler is a
    method that sets them. */
module BattleshipGame {
  import opened Protocol
  import opened BattleshipBoard
  import opened BattleshipTool

  /** The fleet of the scenario below: one two-cell ship at (3,3)-(3,4). */
  lemma ScenarioFleet()
    ensures var fleet := SetCell(SetCell(CreateEmptyBoard(), 3, 3, Ship), 3, 4, Ship);
      && IsGrid(fleet) && fleet[3][3] == Ship && fleet[3][4] == Ship
      && Count(fleet, Ship) == 2 && HasShip(fleet)
  {
    var e := CreateEmptyBoard();
    var half := SetCell(e, 3, 3, Ship);
    var fleet := SetCell(half, 3, 4, Ship);
    assert half[3][4] == Empty;
    EmptyBoardCounts(Ship);
    CountSetCell(e, 3, 3, Ship, Ship);
    CountSetCell(half, 3, 4, Ship, Ship);
    HasShipIffCount(fleet);
  }

  /** A two-cell ship at (3,3)-(3,4) is the whole fleet. A shot at (3,3)
      hits it without ending the game; the tool then refuses (3,3) as
      already targeted; a shot at (3,4) leaves no ship cell, which ends the
      game. */
  lemma SinkingScenario(fleet: Board)
    requires IsGrid(fleet) && fleet[3][3] == Ship && fleet[3][4] == Ship && Count(fleet, Ship) == 2
    ensures var s1 := ApplyAttack(CreateEmptyBoard(), fleet, 3, 3);
      var s2 := ApplyAttack(s1.view, s1.fleet, 3, 4);
      && s1.hit && HasShip(s1.fleet)
      && ValidateAttack(s1.view, 3.0, 3.0) == Returned(Invalid(AlreadyTargeted))
      && s2.hit && !HasShip(s2.fleet)
  {
    var s1 := ApplyAttack(CreateEmptyBoard(), fleet, 3, 3);
    HasShipIffCount(fleet);
    AttackCounts(CreateEmptyBoard(), fleet, 3, 3);
    AttackSinksLast(CreateEmptyBoard(), fleet, 3, 3);
    assert s1.fleet[3][4] == Ship;
    AttackSinksLast(s1.view, s1.fleet, 3, 4);
  }

  class Battleship {
    /** The names of the two players chosen on the menu. */
    const llm1: string
    const llm2: string

    var player1Board: Board
    var player2Board: Board
    /** What player 1 knows of player 2's board, and the other way round. */
    var player1View: Board
    var player2View: Board
    var currentPlayer: Player
    var gameOver: bool
    var winner: Option<string>
    var isInitialized: bool

    /** The page's invariant: before initialisation every board is empty
        and nothing has happened; afterwards all four boards are 10x10,
        each view shows no more than the fleet it looks at, the game is
        over exactly when a fleet has no ship cell left, and then the winner
        is the player who sank it. */
    ghost predicate Valid()
      reads this
    {
      && (winner.Some? <==> gameOver)
      && (!isInitialized ==>
            player1Board == [] && player2Board == [] && player1View == [] && player2View == []
            && !gameOver)
      && (isInitialized ==>
            && Side(player2Board, player1View)
            && Side(player1Board, player2View)
            && (gameOver <==> !HasShip(player1Board) || !HasShip(player2Board))
            && (gameOver ==> winner == Some(if !HasShip(player2Board) then llm1 else llm2)))
    }

    /** The state before the mount effect runs. */
    constructor (name1: string, name2: string)
      ensures Valid()
      ensures llm1 == name1 && llm2 == name2
      ensures player1Board == [] && player2Board == [] && player1View == [] && player2View == []
      ensures currentPlayer == Player1 && !gameOver && winner == None && !isInitialized
    {
      llm1, llm2 := name1, name2;
      player1Board, player2Board, player1View, player2View := [], [], [], [];
      currentPlayer, gameOver, winner, isInitialized := Player1, false, None, false;
    }

    /** The state setters of `initializeGame`, once both fleets are placed. */
    method SetUp(fleet1: Board, fleet2: Board)
      requires Side(fleet1, CreateEmptyBoard()) && Side(fleet2, CreateEmptyBoard())
      requires HasShip(fleet1) && HasShip(fleet2)
      modifies this
      ensures Valid()
      ensures player1Board == fleet1 && player2Board == fleet2
      ensures player1View == CreateEmptyBoard() && player2View == CreateEmptyBoard()
      ensures currentPlayer == Player1 && !gameOver && winner == None && isInitialized
    {
      currentPlayer, gameOver, winner := Player1, false, None;
      player1Board, player2Board := fleet1, fleet2;
      player1View, player2View := CreateEmptyBoard(), CreateEmptyBoard();
      isInitialized := true;
    }

    /** `initializeGame`, with the random draws of the two placements
        supplied. When either sequence of draws runs out before its fleet is
        placed, `ok` is false and nothing changes. */
    method InitializeGame(draws1: seq<Draw>, draws2: seq<Draw>) returns (ok: bool)
      requires Valid() && DrawsInRange(draws1) && DrawsInRange(draws2)
      modifies this
      ensures Valid()
      ensures ok <==> (PlaceAll(CreateEmptyBoard(), Fleet, draws1).Some?
                       && PlaceAll(CreateEmptyBoard(), Fleet, draws2).Some?)
      ensures ok ==>
                && player1Board == PlaceAll(CreateEmptyBoard(), Fleet, draws1).value
                && player2Board == PlaceAll(CreateEmptyBoard(), Fleet, draws2).value
                && player1View == CreateEmptyBoard() && player2View == CreateEmptyBoard()
                && currentPlayer == Player1 && !gameOver && winner == None && isInitialized
      ensures !ok ==> unchanged(this)
    {
      var fleet1 := PlaceShips(CreateEmptyBoard(), draws1);
      var fleet2 := PlaceShips(CreateEmptyBoard(), draws2);
      if fleet1.None? || fleet2.None? {
        return false;
      }
      FreshSide(draws1);
      FreshSide(draws2);
      SetUp(fleet1.value, fleet2.value);
      return true;
    }

    /** `checkGameOver(board, loserName)`: once the loser's board has no
        ship cell left, the game is over and the other name wins. */
    method CheckGameOver(board: Board, loserName: string)
      modifies this
      ensures gameOver == (old(gameOver) || !HasShip(board))
      ensures winner == if HasShip(board) then old(winner)
                        else Some(if loserName == llm1 then llm2 else llm1)
      ensures player1Board == old(player1Board) && player2Board == old(player2Board)
      ensures player1View == old(player1View) && player2View == old(player2View)
      ensures currentPlayer == old(currentPlayer) && isInitialized == old(isInitialized)
    {
      var shipsRemaining := HasShip(board);
      if !shipsRemaining {
        gameOver := true;
        winner := Some(if loserName == llm1 then llm2 else llm1);
      }
    }

    /** Player 1's shot at `(x, y)` on player 2's fleet. Only a hit is
        written back to the fleet board and checked for the end of the
        game; after a miss the fleet board is unchanged. */
    method FireAtPlayer2(x: nat, y: nat)
      requires Valid() && isInitialized && !gameOver && x < GridSize && y < GridSize
      modifies this
      ensures Valid() && isInitialized && currentPlayer == old(currentPlayer)
      ensures var s := ApplyAttack(old(player1View), old(player2Board), x, y);
        && player1View == s.view && player2Board == s.fleet
        && player2View == old(player2View) && player1Board == old(player1Board)
        && (gameOver <==> !HasShip(s.fleet))
        && winner == (if gameOver then Some(llm1) else None)
    {
      var s := ApplyAttack(player1View, player2Board, x, y);
      AttackKeepsSide(player2Board, player1View, x, y);
      player1View, player2Board := s.view, s.fleet;
      if s.hit {
        CheckGameOver(s.fleet, llm2);
      }
    }

    /** Player 2's shot at `(x, y)` on player 1's fleet. */
    method FireAtPlayer1(x: nat, y: nat)
      requires Valid() && isInitialized && !gameOver && x < GridSize && y < GridSize
      modifies this
      ensures Valid() && isInitialized && currentPlayer == old(currentPlayer)
      ensures var s := ApplyAttack(old(player2View), old(player1Board), x, y);
        && player2View == s.view && player1Board == s.fleet
        && player1View == old(player1View) && player2Board == old(player2Board)
        && (gameOver <==> !HasShip(s.fleet))
        && winner == (if gameOver then Some(llm2) else None)
    {
      var s := ApplyAttack(player2View, player1Board, x, y);
      AttackKeepsSide(player1Board, player2View, x, y);
      player2View, player1Board := s.view, s.fleet;
      if s.hit {
        CheckGameOver(s.fleet, llm1);
      }
    }

    /** `makeMove` for the player whose turn it is, given the reply of the
        move route. The move is ignored when the game is over or not
        started, or when the reply carries no usable in-range shot. A shot
        at a cell is applied to the attacker's view and, on a hit, to the
        defender's fleet, after which the game may end; either way the turn
        passes to the other player. A stray column index passes the turn
        and changes no cell. */
    method MakeMove(reply: Reply<MoveCheck>)
      requires Valid()
      modifies this
      ensures Valid()
      ensures var t := TargetOf(reply, "makeMove", GridSize);
        if old(gameOver) || !old(isInitialized) || t.NoMove? then unchanged(this)
        else
          && currentPlayer == old(currentPlayer).Other()
          && isInitialized
          && (t.StrayColumn? ==>
                player1Board == old(player1Board) && player2Board == old(player2Board)
                && player1View == old(player1View) && player2View == old(player2View)
                && gameOver == old(gameOver) && winner == old(winner))
          && (t.AtCell? && old(currentPlayer) == Player1 ==>
                var s := ApplyAttack(old(player1View), old(player2Board), t.x, t.y);
                && player1View == s.view && player2Board == s.fleet
                && player2View == old(player2View) && player1Board == old(player1Board)
                && (gameOver <==> !HasShip(s.fleet))
                && winner == (if gameOver then Some(llm1) else None))
          && (t.AtCell? && old(currentPlayer) == Player2 ==>
                var s := ApplyAttack(old(player2View), old(player1Board), t.x, t.y);
                && player2View == s.view && player1Board == s.fleet
                && player1View == old(player1View) && player2Board == old(player2Board)
                && (gameOver <==> !HasShip(s.fleet))
                && winner == (if gameOver then Some(llm2) else None))
    {
      // An initialised board is never empty, so the page's length checks
      // add nothing here.
      if gameOver || !isInitialized {
        return;
      }
      var mover := currentPlayer;
      var t := TargetOf(reply, "makeMove", GridSize);
      match t {
        case NoMove =>
          return;
        case StrayColumn(_) =>
          // `newView[x][y] = "miss"` with a fractional `y` creates a named
          // property instead of writing a cell.
        case AtCell(x, y) =>
          if mover == Player1 {
            FireAtPlayer2(x, y);
          } else {
            FireAtPlayer1(x, y);
          }
      }
      currentPlayer := mover.Other();
    }
  }
}
