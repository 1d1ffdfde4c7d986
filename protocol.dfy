/** The "validated move" protocol shared by the three games: a game page
    asks a move proposer (an LLM backend or a human) for a move, the
    proposer calls the game's tool, and the page reads back the recorded
    tool results. The network call itself is not modelled: what it returns
    is a parameter of the page's move handler. */
module Protocol {

  datatype Option<T> = None | Some(value: T)

  /** The two seats of every game. */
  datatype Player = Player1 | Player2 {
    /** The turn toggle `playerType === "player1" ? "player2" : "player1"`. */
    function Other(): (q: Player)
      ensures q != this
      ensures (q == Player1) == (this == Player2)
    {
      if Player1? then Player2 else Player1
    }
  }

  /** What the tool runner records for one tool call: the tool's return
      value, or the text of an exception it raised. Only the first is ever
      read as a valid move by the pages. */
  datatype Executed<R> = Returned(value: R) | Raised

  datatype ToolResult<R> = ToolResult(toolName: string, output: Executed<R>)

  /** The JSON body a page receives from its move route: an `error` field,
      or the list of tool results. */
  datatype Reply<R> = ApiError | Replied(toolResults: seq<ToolResult<R>>)

  /** `toolResults.find(r => r.toolName === name)`: the output of the first
      result recorded under that tool name. */
  function FindOutput<R>(results: seq<ToolResult<R>>, name: string): (o: Option<Executed<R>>)
    ensures o.None? <==> forall k :: 0 <= k < |results| ==> results[k].toolName != name
    ensures o.Some? ==> exists k :: 0 <= k < |results| && results[k].toolName == name &&
                          results[k].output == o.value &&
                          forall j :: 0 <= j < k ==> results[j].toolName != name
  {
    if results == [] then None
    else if results[0].toolName == name then Some(results[0].output)
    else
      var o := FindOutput(results[1..], name);
      assert forall k :: 1 <= k < |results| ==> results[k] == results[1..][k - 1];
      o
  }

  /** The return value of the Battleship and Tic-Tac-Toe tools:
      `{valid: true, x, y}` or `{valid: false, reason}`. */
  datatype MoveCheck = Valid(x: real, y: real) | Invalid(reason: string)

  /** What a page's move handler does with the coordinates it read back:
      nothing (an API error, no tool result, an invalid one, coordinates
      out of the grid, or a non-integer row index, whose `board[x]` is
      `undefined` so that the next index throws before any state is set);
      a move on a cell; or, for an integer row and a non-integer column, a
      write to a non-index property of the copied row, which changes no
      cell. */
  datatype Target = NoMove | AtCell(x: nat, y: nat) | StrayColumn(x: nat)

  function TargetOf(reply: Reply<MoveCheck>, toolName: string, size: nat): (t: Target)
    ensures t.AtCell? ==>
              && t.x < size && t.y < size
              && reply.Replied?
              && FindOutput(reply.toolResults, toolName) == Some(Returned(Valid(t.x as real, t.y as real)))
    ensures t.AtCell? <==>
              && reply.Replied?
              && var o := FindOutput(reply.toolResults, toolName);
              && o.Some? && o.value.Returned? && o.value.value.Valid?
              && IsIndex(o.value.value.x, size) && IsIndex(o.value.value.y, size)
    ensures t.StrayColumn? ==> t.x < size
    ensures t.StrayColumn? <==>
              && reply.Replied?
              && var o := FindOutput(reply.toolResults, toolName);
              && o.Some? && o.value.Returned? && o.value.value.Valid?
              && IsIndex(o.value.value.x, size)
              && !IsInteger(o.value.value.y) && 0.0 <= o.value.value.y < size as real
    ensures t.StrayColumn? ==> t.x as real == FindOutput(reply.toolResults, toolName).value.value.x
    ensures reply.ApiError? ==> t == NoMove
    ensures reply.Replied? &&
            (var o := FindOutput(reply.toolResults, toolName); o.None? || o.value.Raised? || o.value.value.Invalid?)
            ==> t == NoMove
  {
    match reply
    case ApiError => NoMove
    case Replied(results) =>
      var o := FindOutput(results, toolName);
      if o.None? || o.value.Raised? || o.value.value.Invalid? then NoMove
      else
        var x, y := o.value.value.x, o.value.value.y;
        if x < 0.0 || x >= size as real || y < 0.0 || y >= size as real then NoMove
        else if !IsInteger(x) then NoMove
        else if !IsInteger(y) then StrayColumn(x.Floor)
        else AtCell(x.Floor, y.Floor)
  }

  /** A JavaScript number that `Number.isInteger` accepts. */
  predicate IsInteger(x: real) {
    x.Floor as real == x
  }

  /** `a[x]` for a JavaScript array `a` of length `n` and number `x` is an
      element exactly when `x` is an integer in [0, n); otherwise it is
      `undefined`. */
  predicate IsIndex(x: real, n: nat) {
    IsInteger(x) && 0.0 <= x && x.Floor < n
  }
}
