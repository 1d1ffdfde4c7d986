# AI Battleground game engines, in Dafny

AI Battleground pits two players against each other in three games:
Battleship, Tic-Tac-Toe and Mastermind. A player is an LLM backend or a
human. Each game runs the same way, which this project calls the
*validated-move protocol*:

1. The game page asks the current player's backend for a move.
2. The backend answers by calling the game's tool (`makeMove` or
   `makeGuess`), and the move route returns the recorded tool results.
3. The page takes the first result recorded under the tool's name. It
   applies the move only when the tool said it was valid.

This project models three parts of that system:

- the three tools' validation logic;
- the Mastermind feedback algorithm;
- the rule engine of each game page: board creation, ship placement,
  applying a move, game-over detection, initialisation and the turn toggle.

The files follow the program's structure:

| file | module | models |
|---|---|---|
| `protocol.dfy` | `Protocol` | tool results, the route's reply, and how a page reads a move out of it |
| `mastermind_tool.dfy` | `MastermindTool` | `src/lib/tool/Mastermind.ts` |
| `battleship_tool.dfy` | `BattleshipTool` | `src/lib/tool/Battleship.ts` |
| `tictactoe_tool.dfy` | `TicTacToeTool` | `src/lib/tool/TicTacToe.ts` |
| `battleship_board.dfy` | `BattleshipBoard` | the board logic of `src/app/battleship/page.tsx` |
| `battleship_game.dfy` | `BattleshipGame` | the state and handlers of that page |
| `tictactoe_board.dfy` | `TicTacToeBoard` | the board logic of `src/app/tictactoe/page.tsx` |
| `tictactoe_game.dfy` | `TicTacToeGame` | the state and handlers of that page |
| `mastermind_game.dfy` | `MastermindGame` | the state and handlers of `src/app/mastermind/page.tsx` |

How the model represents the program:

- **Page state.** Each game page's React state is a class. Its fields are
  the state variables, and each handler is a `modifies this` method.
  A ghost `Valid()` states the page's invariant, and every handler keeps it.
- **Boards.** Boards are values (`seq<seq<…>>`), because the pages copy a
  board row by row before they change it.
- **Loops.** The pure parts are functions. The loops of the source
  (`generateFeedback`, `canPlaceShip`, `placeShips`, `checkGameOver`,
  `execute`) are methods, each proved equal to its specification function.
- **Coordinates.** Coordinates are `real`, since they are JavaScript
  numbers. This lets the model tell fractional coordinates apart, which
  matters in two places:
  - the Tic-Tac-Toe tool rejects them with `Number.isInteger`;
  - the Battleship tool does not check for them at all.
- **Untrusted boards.** The tools check moves against a board the backend
  sends along with the call, so that board may be malformed:
  - a missing row makes `board[x][y]` throw, which is recorded as `Raised`;
  - a missing cell reads `undefined`, which counts as "taken".

## Model

| member | source | states |
|---|---|---|
| Protocol.FindOutput | src/app/battleship/page.tsx:224-226 | The output is absent exactly when no result carries the name. When one does, the output is the earliest such result's. |
| Protocol.TargetOf | src/app/battleship/page.tsx:219-240 | Both directions are stated. A move on a cell is read exactly when the reply's first result under the tool name returned `{valid: true}` with whole coordinates in range, and then the move is at those coordinates. A stray column comes exactly from such an answer with a whole in-range row and a fractional in-range column. An API error, a missing, raised or invalid result, and out-of-range coordinates all give no move. |
| Protocol.Player.Other | src/app/battleship/page.tsx:256 | The turn toggle always passes the turn to the other seat. |
| MastermindTool.Answer | src/lib/tool/Mastermind.ts:17-42 | A guess is accepted exactly when it has four colours, all from the palette. A wrong length gives the length message. Otherwise a rejection names the first colour off the palette. An accepted guess is returned with its four pegs. `isCorrect` means every peg is "correct", which for a four-colour code holds exactly when the guess equals the code. |
| MastermindTool.Execute | src/lib/tool/Mastermind.ts:17-42 | The tool's length check, palette loop and scoring return exactly `Answer(code, guess)`. |
| MastermindTool.MarkExact | src/lib/tool/Mastermind.ts:44-56 | The first pass emits one "correct" per exact match. It nulls exactly the matched slots in the copies of the code and of the guess. |
| MastermindTool.GenerateFeedback | src/lib/tool/Mastermind.ts:44-74 | Both passes together produce exactly the specified pegs: all "correct" first, then the second pass's pegs in guess order. |
| MastermindTool.PegsLength | src/lib/tool/Mastermind.ts:44-74 | There is one peg per guess slot. |
| MastermindTool.PegsCorrectFirst | src/lib/tool/Mastermind.ts:50-71 | Peg k is "correct" exactly when k is below the number of exact matches. The second pass never emits "correct". |
| MastermindTool.PegCountIsMatched | src/lib/tool/Mastermind.ts:50-71 | The "correct" and "wrong-position" pegs together number the matched colours. |
| MastermindTool.MatchedIsIntersection | src/lib/tool/Mastermind.ts:59-71 | The matched colours form the multiset intersection of code and guess. So no code slot is consumed twice, each colour is matched at most min(code count, guess count) times, and the non-"incorrect" pegs equal the intersection's size. |
| MastermindTool.SelfFeedback | src/lib/tool/Mastermind.ts:50-56 | Scoring the code against itself gives all "correct". |
| MastermindTool.AllCorrectIffEqual | src/lib/tool/Mastermind.ts:40 | For equal lengths, the feedback is all "correct" exactly when the guess is the code. |
| MastermindTool.ExampleFeedback | src/lib/tool/Mastermind.ts:44-74 | Code red-blue-green-yellow against guess blue-red-green-purple scores correct, wrong-position, wrong-position, incorrect. |
| BattleshipBoard.CreateEmptyBoard | src/app/battleship/page.tsx:288-291 | A new board is 10x10 with every cell empty. |
| BattleshipBoard.SetCell | src/app/battleship/page.tsx:243-248 | Writing to one cell of a copied board changes that cell and keeps every other cell and the board's shape. |
| BattleshipBoard.CountSetCell | src/app/battleship/page.tsx:246-252 | A one-cell write moves that cell from the count of its old value to the count of its new one. |
| BattleshipBoard.HasShipIffCount | src/app/battleship/page.tsx:262 | `board.some(row => row.includes("ship"))` holds exactly when the ship count is positive. |
| BattleshipBoard.EmptyBoardCounts | src/app/battleship/page.tsx:288-291 | A new board has one hundred empty cells and no cell of any other kind. |
| BattleshipBoard.CanPlaceShip | src/app/battleship/page.tsx:313-332 | The result is true exactly when the ship stays on the board and all of its cells, horizontal or vertical, are empty. |
| BattleshipBoard.StampStep | src/app/battleship/page.tsx:302-305 | Marking one more cell of an accepted ship is one more one-cell write of "ship". |
| BattleshipBoard.StampCount | src/app/battleship/page.tsx:301-305 | Stamping a placeable ship of size s turns exactly s empty cells into ship cells. No other count changes. |
| BattleshipBoard.MarkShip | src/app/battleship/page.tsx:302-305 | The marking loop writes "ship" on exactly the cells of the accepted ship. |
| BattleshipBoard.PlaceShips | src/app/battleship/page.tsx:293-311 | The rejection-sampling loop, given a finite supply of draws, returns exactly the specified placement. It gives `None` when the draws run out. |
| BattleshipBoard.PlaceAllCounts | src/app/battleship/page.tsx:293-311 | A completed placement is a grid. It moves exactly the sum of the ship sizes from empty to ship, and no other count changes. |
| BattleshipBoard.PlaceAllShips | src/app/battleship/page.tsx:295-308 | Each ship is placed by exactly one accepted draw, taken from the supply and fitting the grid. |
| BattleshipBoard.StampedPlace | src/app/battleship/page.tsx:301 | A ship placeable after another was stamped was placeable before, and shares no cell with it. |
| BattleshipBoard.PlaceAllOnWater | src/app/battleship/page.tsx:301 | Every placed ship lies inside the grid on cells that were empty on the starting board. |
| BattleshipBoard.PlaceAllDisjoint | src/app/battleship/page.tsx:293-311 | No two placed ships share a cell. |
| BattleshipBoard.PlaceAllCells | src/app/battleship/page.tsx:293-311 | After placement a cell is "ship" exactly when some placed ship covers it. Every other cell is as it was. |
| BattleshipBoard.FleetSize | src/app/battleship/page.tsx:130-136 | The five ship sizes add up to seventeen. |
| BattleshipBoard.FleetOnEmptyBoard | src/app/battleship/page.tsx:279-280 | A fleet placed on a new board has seventeen ship cells, eighty-three empty cells, no hit and no miss, so it has ships to sink. |
| BattleshipBoard.ApplyAttack | src/app/battleship/page.tsx:243-254 | A shot is a hit exactly when the fleet cell is a ship. A hit marks "hit" in both boards. Anything else marks "miss" in the view and leaves the fleet board alone. No other cell changes. |
| BattleshipBoard.AttackCounts | src/app/battleship/page.tsx:246-253 | A hit moves exactly one cell from ship to hit, and a miss leaves the fleet unchanged. The number of cells that are or were ships stays the same. |
| BattleshipBoard.AttackSinksLast | src/app/battleship/page.tsx:246-250 | After a shot no ship is left exactly when it hit the last ship cell. |
| BattleshipBoard.AttackKeepsView | src/app/battleship/page.tsx:243-255 | A shot keeps the view consistent: the view shows no ship, and every "hit" in it is a hit on the fleet. |
| BattleshipBoard.ReshotSunkCell | src/app/battleship/page.tsx:246-253 | A second shot at a sunk cell is a miss. It writes "miss" over the view's "hit" and leaves the fleet unchanged. |
| BattleshipBoard.EmptyViewConsistent | src/app/battleship/page.tsx:281-282 | A new view is consistent with any fleet. |
| BattleshipBoard.FreshSide | src/app/battleship/page.tsx:278-282 | A freshly placed fleet and a new view form a consistent side with ships left. |
| BattleshipBoard.AttackKeepsSide | src/app/battleship/page.tsx:243-255 | A shot keeps a side consistent. It ends the side exactly when it hits the last ship, and after a miss the fleet is unchanged. |
| BattleshipTool.ValidateAttack | src/lib/tool/Battleship.ts:12-24 | The tool reports "out of bounds" exactly when a coordinate is outside [0, 10), with no integer check. It throws exactly when the row index names no row. It accepts exactly an existing empty cell and echoes the coordinates. Reasons are only the two messages. |
| BattleshipTool.ValidateOnGrid | src/lib/tool/Battleship.ts:16-23 | On a well-formed view with whole coordinates the tool never throws. It accepts exactly the in-range cells not yet shot at. |
| BattleshipTool.AcceptedShotIsFresh | src/lib/tool/Battleship.ts:19-23 | A shot accepted against the real view reaches the page as that cell. The cell is unshot, and the attack marks one more view cell. |
| BattleshipTool.ValidateEdgeCases | src/lib/tool/Battleship.ts:16-23 | On a new view: a fractional row throws, a fractional column reads as already targeted, the far edge is out of bounds, and a shot cell is already targeted. |
| BattleshipGame.Battleship.constructor | src/app/battleship/page.tsx:157-165 | Before the mount effect every board is empty, player 1 is to move, and nothing has happened. |
| BattleshipGame.Battleship.SetUp | src/app/battleship/page.tsx:274-283 | Once both fleets are placed, the state setters give new views, player 1 to move, no winner, and an initialised game. |
| BattleshipGame.Battleship.InitializeGame | src/app/battleship/page.tsx:273-284 | Both fleets are placed from their draws on new boards, views are empty, player 1 is to move, and the game is not over. If a placement runs out of draws, nothing changes. |
| BattleshipGame.Battleship.CheckGameOver | src/app/battleship/page.tsx:261-268 | When the given board has no ship cell, the game is over and the player not named as loser wins. Otherwise nothing changes, and the boards and turn stay as they were. |
| BattleshipGame.Battleship.FireAtPlayer2 | src/app/battleship/page.tsx:243-255 | Player 1's shot updates player 1's view and player 2's fleet as the attack prescribes. The game ends, with player 1 winning, exactly when no ship of player 2 is left. |
| BattleshipGame.Battleship.FireAtPlayer1 | src/app/battleship/page.tsx:243-255 | The same for player 2's shot at player 1's fleet. |
| BattleshipGame.Battleship.MakeMove | src/app/battleship/page.tsx:195-257 | The page invariant holds afterwards. When the game is over or not started, or the reply carries no usable move, nothing changes. A shot at a cell is applied for the mover, and the game ends with the mover winning exactly when the defender has no ship left. A stray column changes no board. The turn passes in every case that is not ignored. |
| BattleshipGame.ScenarioFleet | src/app/battleship/page.tsx:246 | A two-cell ship at (3,3) and (3,4) gives a 10x10 fleet with two ship cells. |
| BattleshipGame.SinkingScenario | src/app/battleship/page.tsx:243-256 | On a fleet with a single two-cell ship: the first hit leaves ships afloat, the tool then rejects that cell as already targeted, and the second hit sinks the fleet. |
| TicTacToeBoard.CreateEmptyBoard | src/app/tictactoe/page.tsx:160-163 | A new board is 3x3 with every cell empty. |
| TicTacToeBoard.SetMark | src/app/tictactoe/page.tsx:98-99 | Writing the mover's symbol sets exactly that cell and keeps the others and the 3x3 shape. |
| TicTacToeBoard.FirstComplete | src/app/tictactoe/page.tsx:116-137 | The result is the first complete line in the order rows, columns, main diagonal, anti-diagonal, or none exactly when no line is complete. |
| TicTacToeBoard.CheckGameOver | src/app/tictactoe/page.tsx:116-145 | The loops and tests return the specified result: the first complete line's mark, else a draw on a full board, else nothing yet. |
| TicTacToeBoard.WonHasLine | src/app/tictactoe/page.tsx:118-137 | A reported winner is "X" or "O" and owns a complete line. |
| TicTacToeBoard.PendingAndDraw | src/app/tictactoe/page.tsx:116-145 | The game goes on exactly when no line is complete and some cell is empty. It is a draw exactly when no line is complete and no cell is empty. |
| TicTacToeBoard.LineThroughMove | src/app/tictactoe/page.tsx:98-102 | A line completed by a write passes through the written cell. |
| TicTacToeBoard.MoverWins | src/app/tictactoe/page.tsx:99-107 | On a board with no result, a write can only produce a line of the written mark. So the page's "the mover wins" is correct even though the page never checks which mark won. |
| TicTacToeBoard.EmptyBoardPending | src/app/tictactoe/page.tsx:150-156 | A new board has no result. |
| TicTacToeBoard.RowsInOrder | src/app/tictactoe/page.tsx:118-122 | Rows are looked at in index order: with the top row of O and the middle row of X complete, O wins. |
| TicTacToeBoard.RowAndColumnAgree | src/app/tictactoe/page.tsx:118-129 | A complete row and a complete column always carry the same mark, so looking at rows before columns never changes the result. |
| TicTacToeBoard.ColumnWin | src/app/tictactoe/page.tsx:118-129 | On any board with no complete row and no complete earlier column, a complete column j gives the result "won by the column's mark". |
| TicTacToeBoard.DiagonalWin | src/app/tictactoe/page.tsx:118-134 | On any board with no complete row or column, a complete main diagonal gives the result "won by its mark". |
| TicTacToeBoard.AntiDiagonalWin | src/app/tictactoe/page.tsx:118-137 | On any board where no other line is complete, a complete anti-diagonal gives the result "won by the mark of its top right cell". |
| TicTacToeBoard.DrawAndPending | src/app/tictactoe/page.tsx:140-144 | The full board X O X / X O O / O X X has no line and is a draw. With its middle-left cell emptied, the game goes on. |
| TicTacToeBoard.BelowPending | src/app/tictactoe/page.tsx:116-145 | Removing marks from a board with no result leaves a board with no result. |
| TicTacToeBoard.TopRowScenario | src/app/tictactoe/page.tsx:98-111 | In the game X (0,0), O (1,0), X (0,1), O (1,1), X (0,2), the game goes on until X's third mark, which wins by the top row. |
| TicTacToeTool.ValidateMove | src/lib/tool/TicTacToe.ts:11-24 | The tool reports "out of bounds" exactly when a coordinate is not a whole number in [0, 3). It throws exactly when the row is missing. It accepts exactly an existing empty cell and echoes the coordinates. Reasons are only the two messages. |
| TicTacToeTool.ValidateOnGrid | src/lib/tool/TicTacToe.ts:15-23 | On a 3x3 board with whole coordinates the tool never throws, and it accepts exactly the empty cells. |
| TicTacToeTool.ToolAnswerOnPage | src/lib/tool/TicTacToe.ts:15-23 | Whatever board the caller sent, a tool answer never reaches the page as a stray column. It reaches the page as a move exactly when the tool accepted it, at the coordinates checked. |
| TicTacToeTool.AcceptedMoveErasesNothing | src/lib/tool/TicTacToe.ts:19-23 | A move accepted against the real board lands on an empty cell, so the page's write erases no mark. |
| TicTacToeTool.ValidateEdgeCases | src/lib/tool/TicTacToe.ts:15-23 | Fractions and the far edge are out of bounds, a negative row is out of bounds, a marked cell is taken, a missing row throws, and a missing cell counts as taken. |
| TicTacToeGame.Symbol | src/app/tictactoe/page.tsx:41-48 | Player 1 plays "X" and player 2 plays "O", never "empty". |
| TicTacToeGame.TicTacToe.constructor | src/app/tictactoe/page.tsx:27-31 | Before the mount effect the board is empty, player 1 is to move, and nothing has happened. |
| TicTacToeGame.TicTacToe.InitializeGame | src/app/tictactoe/page.tsx:150-156 | There is a new board, player 1 is to move, the game is not over, and the invariant holds. |
| TicTacToeGame.TicTacToe.Settle | src/app/tictactoe/page.tsx:100-111 | The new board is stored. The game is over exactly when it has a result, the mover wins exactly on a line, and the turn passes only when there is no result. |
| TicTacToeGame.TicTacToe.MakeMove | src/app/tictactoe/page.tsx:59-112 | The page invariant holds afterwards, so a winner's line is always in the winner's symbol. Nothing changes when the game is over or not started, or the reply carries no usable move. Otherwise the mover's symbol is written at the cell (a stray column writes nothing). The game ends exactly when the board has a result, the mover wins exactly on a line, and otherwise the turn passes. |
| MastermindGame.AcceptedGuess | src/app/mastermind/page.tsx:125-133 | A move reply is accepted exactly when it is not an API error and its first `makeGuess` result returned a valid answer. That answer is the one used. |
| MastermindGame.PickColor | src/app/mastermind/page.tsx:166-169 | `COLORS[Math.floor(Math.random() * 6)]` is always a palette colour. |
| MastermindGame.HumanGuessScored | src/app/mastermind/page.tsx:89-133 | When a human's composed guess is scored by the tool against the real secret, the page accepts the true feedback and the guess. The guess is correct exactly when it equals the secret. |
| MastermindGame.Mastermind.IsHumanTurn | src/app/mastermind/page.tsx:161 | Documents the seat lookup: it is a human turn exactly when player 1 is to move and is named "Human", or player 2 is to move and is named "Human". |
| MastermindGame.Mastermind.constructor | src/app/mastermind/page.tsx:44-50 | Before the mount effect there is no secret and no guess, player 1 is to move, and nothing has happened. |
| MastermindGame.Mastermind.InitializeGame | src/app/mastermind/page.tsx:164-178 | The secret is four palette colours drawn from the supplied random numbers. History and composed guess are empty, player 1 is to move, and the game is not over. |
| MastermindGame.Mastermind.HandleColorSelection | src/app/mastermind/page.tsx:190-194 | On a human turn with fewer than four colours composed, the colour is appended. Otherwise nothing changes, and the invariant holds. |
| MastermindGame.Mastermind.HandleRemoveColor | src/app/mastermind/page.tsx:196-200 | On a human turn with a non-empty composed guess, the last colour is dropped. Otherwise nothing changes, and the invariant holds. |
| MastermindGame.Mastermind.MakeGuess | src/app/mastermind/page.tsx:85-156 | Nothing changes when the game is over or not started, when a human has not composed four colours, or when the reply has no valid answer. Otherwise the answer is appended to the history and a human's guess is cleared. A correct guess ends the game with the mover winning. Failing that, the tenth guess ends it without a winner, and any other guess passes the turn. The invariant keeps at most ten guesses and places a winner only on the seat still to move. |

## Left out

- I/O is not modelled: the `fetch` calls, the move routes, the LLM backends (`BaseLLM` and its subclasses), React rendering, the auto-play timers and `updateScore`. What a move route returns is a parameter of each move handler.
- `getSchema` of each tool is not modelled; it only describes the tool to the LLM.
- Randomness is supplied as parameters: `Math.random()` draws are a sequence of `Draw` values (Battleship) or of reals in [0, 1) (Mastermind).
- BattleshipBoard.PlaceShips: given finitely many draws, the model returns `None` when they run out. The page would keep drawing forever. Likewise `InitializeGame` then reports `ok == false` and changes nothing.
- JavaScript values other than finite numbers are not modelled: NaN, Infinity, strings in coordinate fields, non-array guesses (`!Array.isArray(guess)` in `src/lib/tool/Mastermind.ts:21`), and output objects lacking fields.
- Each move handler is treated as one atomic step on the current state. The handlers are asynchronous and read state through a render's closure, so a stale closure or two overlapping moves are not modelled.
- `src/lib/tool/Tool.ts:20-24` assigns the constructor's `execute` argument to an own property. `MastermindTool` and `TicTacToeTool` pass no such argument, so at run time `undefined` shadows their `execute` methods, and `BaseLLM.executeTools` records the resulting error. The model takes the `execute` bodies as what runs, and this base class is not part of this model.
- MastermindGame: the backend's side of a move is not modelled, beyond HumanGuessScored's statement about a human guess scored against the real secret. That side covers `Human.generate` parsing a JSON call, and how an LLM chooses the `code` it passes to the tool. The AI prompt does not contain the secret code, so an LLM's score is whatever its own tool call computed.
- MastermindGame.Mastermind.HandleColorSelection requires a palette colour, which is what the `Color` parameter type guarantees.
- BattleshipGame.Battleship.Valid does not fix the ship counts (seventeen cells that are ship or hit). Those are stated as lemmas (FleetOnEmptyBoard, AttackCounts) instead.
- The Battleship tool's schema declares `x` and `y` as plain numbers (`src/lib/tool/Battleship.ts:52-63`), and the tool has no whole-number check. A fractional row makes the tool throw, and a fractional column reads as "already targeted". The model follows the code.
- The Battleship page applies a shot without checking the real view. The tool checks the view the backend sent, so a repeated shot at a sunk cell reaches the page and becomes a "miss" (ReshotSunkCell). The model follows the code.
- The Tic-Tac-Toe page writes the mover's symbol without checking that the cell is empty; it relies on the tool having checked the board the backend sent. The model follows the code, and AcceptedMoveErasesNothing states when this is safe.
- With a whole row and a fractional column, both move handlers write to a non-index property of the copied row. No cell changes, yet the Battleship turn passes, and the Tic-Tac-Toe turn passes because the board still has no result. The model follows the code (`StrayColumn`).
