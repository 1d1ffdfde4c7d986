/** The state of the Mastermind game page and its transitions: the secret
    code, the guess a human player is composing, the history of scored
    guesses, whose turn it is, and the end of the game. Both players try to
    break the same code, taking turns, for at most ten guesses in all. */
module MastermindGame {
  import opened Protocol
  import opened MastermindTool

  const MaxAttempts: nat := 10

  /** The player name that makes a seat a human one. */
  const Human: string := "Human"

  /** One entry of the guess history. */
  datatype Guess = Guess(colors: seq<string>, feedback: seq<Peg>)

  /** The tool output the page accepts from a move reply: the first
      `makeGuess` result, when it returned a valid answer. */
  function AcceptedGuess(reply: Reply<GuessCheck>): (g: Option<GuessCheck>)
    ensures g.Some? <==> reply.Replied? && exists o: GuessCheck :: o.GuessOk? && FindOutput(reply.toolResults, "makeGuess") == Some(Returned(o))
    ensures g.Some? ==> g.value.GuessOk? && FindOutput(reply.toolResults, "makeGuess") == Some(Returned(g.value))
  {
    match reply
    case ApiError => None
    case Replied(results) =>
      var o := FindOutput(results, "makeGuess");
      if o.Some? && o.value.Returned? && o.value.value.GuessOk? then Some(o.value.value) else None
  }

  /** `COLORS[Math.floor(Math.random() * COLORS.length)]` for a draw `r` of
      `Math.random()`. */
  function PickColor(r: real): (c: string)
    requires 0.0 <= r < 1.0
    ensures c in Palette
  {
    var k := (r * |Palette| as real).Floor;
    assert 0 <= k < |Palette| by {
      assert 0.0 <= r * 6.0 < 6.0;
    }
    Palette[k]
  }

  /** A human guess is scored against the real secret code: the Human
      backend turns the prompt the page built from the secret and the
      composed guess into a call of the tool. If that answer is the first
      `makeGuess` result, the page accepts it, records the true feedback,
      and ends the game with a win exactly when the guess is the code. */
  lemma HumanGuessScored(secret: seq<string>, guess: seq<string>, results: seq<ToolResult<GuessCheck>>)
    requires |secret| == CodeLength && |guess| == CodeLength
    requires forall k :: 0 <= k < |guess| ==> guess[k] in Palette
    requires FindOutput(results, "makeGuess") == Some(Returned(Answer(secret, guess)))
    ensures AcceptedGuess(Replied(results)) == Some(GuessOk(guess, Pegs(secret, guess), guess == secret))
  {
  }

  class Mastermind {
    /** The names of the two players chosen on the menu. */
    const llm1: string
    const llm2: string

    var secretCode: seq<string>
    var currentGuess: seq<string>
    var guessHistory: seq<Guess>
    var currentPlayer: Player
    var gameOver: bool
    var winner: Option<string>
    var isInitialized: bool

    function NameOf(p: Player): string {
      if p == Player1 then llm1 else llm2
    }

    /** `isHumanTurn`: the seat to move is played by the human. The ensures
        only spells out the seat lookup. */
    predicate IsHumanTurn(): (h: bool)
      reads this
      ensures h <==> (currentPlayer.Player1? && llm1 == Human) || (currentPlayer.Player2? && llm2 == Human)
    {
      NameOf(currentPlayer) == Human
    }

    /** The page's invariant: the composed guess holds at most four palette
        colours; the secret code is four palette colours once the game is
        set up; at most ten guesses are recorded, and fewer while the game
        goes on; a game over without a winner has used all ten; a winner is
        the player whose turn it still is. */
    ghost predicate Valid()
      reads this
    {
      && |currentGuess| <= CodeLength
      && (forall k :: 0 <= k < |currentGuess| ==> currentGuess[k] in Palette)
      && (!isInitialized ==> secretCode == [] && guessHistory == [] && !gameOver)
      && (isInitialized ==>
            |secretCode| == CodeLength && forall k :: 0 <= k < |secretCode| ==> secretCode[k] in Palette)
      && |guessHistory| <= MaxAttempts
      && (!gameOver ==> |guessHistory| < MaxAttempts && winner == None)
      && (gameOver ==> 0 < |guessHistory|)
      && (gameOver && winner == None ==> |guessHistory| == MaxAttempts)
      && (winner.Some? ==> winner == Some(NameOf(currentPlayer)))
    }

    /** The state before the mount effect runs. */
    constructor (name1: string, name2: string)
      ensures Valid()
      ensures llm1 == name1 && llm2 == name2
      ensures secretCode == [] && currentGuess == [] && guessHistory == []
      ensures currentPlayer == Player1 && !gameOver && winner == None && !isInitialized
    {
      llm1, llm2 := name1, name2;
      secretCode, currentGuess, guessHistory := [], [], [];
      currentPlayer, gameOver, winner, isInitialized := Player1, false, None, false;
    }

    /** `initializeGame`, with the four draws of `Math.random()` supplied:
        a fresh secret code of palette colours, no guesses, player 1 to
        move. */
    method InitializeGame(draws: seq<real>)
      requires |draws| == CodeLength && forall k :: 0 <= k < |draws| ==> 0.0 <= draws[k] < 1.0
      modifies this
      ensures Valid()
      ensures secretCode == seq(CodeLength, k requires 0 <= k < CodeLength => PickColor(draws[k]))
      ensures currentGuess == [] && guessHistory == []
      ensures currentPlayer == Player1 && !gameOver && winner == None && isInitialized
    {
      var code := seq(CodeLength, k requires 0 <= k < CodeLength => PickColor(draws[k]));
      secretCode := code;
      currentGuess := [];
      guessHistory := [];
      currentPlayer := Player1;
      gameOver := false;
      winner := None;
      isInitialized := true;
    }

    /** `handleColorSelection`: on a human turn, a colour is added to a
        guess of fewer than four colours. Nothing else is checked: the
        colour picker is also disabled once the game is over, but that is
        the view's doing. */
    method HandleColorSelection(color: string)
      requires Valid() && color in Palette
      modifies this
      ensures Valid()
      ensures currentGuess == if old(IsHumanTurn()) && |old(currentGuess)| < CodeLength
                              then old(currentGuess) + [color] else old(currentGuess)
      ensures secretCode == old(secretCode) && guessHistory == old(guessHistory)
      ensures currentPlayer == old(currentPlayer) && gameOver == old(gameOver)
      ensures winner == old(winner) && isInitialized == old(isInitialized)
    {
      if IsHumanTurn() && |currentGuess| < CodeLength {
        currentGuess := currentGuess + [color];
      }
    }

    /** `handleRemoveColor`: on a human turn, the last colour of a
        non-empty guess is dropped. */
    method HandleRemoveColor()
      requires Valid()
      modifies this
      ensures Valid()
      ensures currentGuess == if old(IsHumanTurn()) && |old(currentGuess)| > 0
                              then old(currentGuess)[..|old(currentGuess)| - 1] else old(currentGuess)
      ensures secretCode == old(secretCode) && guessHistory == old(guessHistory)
      ensures currentPlayer == old(currentPlayer) && gameOver == old(gameOver)
      ensures winner == old(winner) && isInitialized == old(isInitialized)
    {
      if IsHumanTurn() && |currentGuess| > 0 {
        currentGuess := currentGuess[..|currentGuess| - 1];
      }
    }

    /** `makeGuess` for the player whose turn it is, given the reply of the
        move route. Nothing happens when the game is over or not started,
        when a human has not composed four colours, or when the reply
        carries no valid answer. Otherwise the answer's guess and feedback
        are recorded, a human's composed guess is cleared, and a correct
        guess wins; failing that the tenth guess ends the game without a
        winner, and any other guess passes the turn. */
    method MakeGuess(reply: Reply<GuessCheck>)
      requires Valid()
      modifies this
      ensures Valid()
      ensures var g := AcceptedGuess(reply);
        var human := NameOf(old(currentPlayer)) == Human;
        if old(gameOver) || !old(isInitialized) || (human && |old(currentGuess)| != CodeLength) || g.None?
        then unchanged(this)
        else
          && guessHistory == old(guessHistory) + [Guess(g.value.guess, g.value.feedback)]
          && currentGuess == (if human then [] else old(currentGuess))
          && secretCode == old(secretCode) && isInitialized
          && gameOver == (g.value.isCorrect || |old(guessHistory)| + 1 >= MaxAttempts)
          && winner == (if g.value.isCorrect then Some(NameOf(old(currentPlayer))) else None)
          && currentPlayer == (if gameOver then old(currentPlayer) else old(currentPlayer).Other())
    {
      if gameOver || !isInitialized {
        return;
      }
      var name := NameOf(currentPlayer);
      if name == Human && |currentGuess| != CodeLength {
        return;
      }
      var g := AcceptedGuess(reply);
      if g.None? {
        return;
      }
      var attempts := |guessHistory|;
      guessHistory := guessHistory + [Guess(g.value.guess, g.value.feedback)];
      if name == Human {
        currentGuess := [];
      }
      if g.value.isCorrect {
        gameOver := true;
        winner := Some(name);
      } else if attempts + 1 >= MaxAttempts {
        gameOver := true;
      } else {
        currentPlayer := currentPlayer.Other();
      }
    }
  }
}
