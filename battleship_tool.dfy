/** The Battleship `makeMove` tool: it checks a proposed shot against the
    view of the opponent's board that the proposer passed in. The view is
    whatever the proposer sent, so it may have missing rows or cells. */
module BattleshipTool {
  import opened Protocol
  import opened BattleshipBoard

  const OutOfBounds: string := "Coordinates out of bounds"
  const AlreadyTargeted: string := "Spot already targeted"

  /** The range check the tool applies, with no integer check. */
  predicate InBounds(x: real, y: real) {
    0.0 <= x < GridSize as real && 0.0 <= y < GridSize as real
  }

  /** The tool's body. After the range check it reads `view[x][y]`: a row
      index that is not an integer or has no row gives `undefined`, and
      indexing that throws; a column index that is not an integer or has no
      cell gives `undefined`, which is not "empty". */
  function ValidateAttack(view: Board, x: real, y: real): (r: Executed<MoveCheck>)
    ensures r == Returned(Invalid(OutOfBounds)) <==> !InBounds(x, y)
    ensures r == Raised <==> InBounds(x, y) && !IsIndex(x, |view|)
    ensures r.Returned? && r.value.Valid? <==>
              && InBounds(x, y) && IsIndex(x, |view|) && IsIndex(y, |view[x.Floor]|)
              && view[x.Floor][y.Floor] == Empty
    ensures r.Returned? && r.value.Valid? ==> r.value == Valid(x, y)
    ensures r.Returned? && r.value.Invalid? ==> r.value.reason in {OutOfBounds, AlreadyTargeted}
  {
    if !InBounds(x, y) then Returned(Invalid(OutOfBounds))
    else if !IsIndex(x, |view|) then Raised
    else if !IsIndex(y, |view[x.Floor]|) || view[x.Floor][y.Floor] != Empty then
      Returned(Invalid(AlreadyTargeted))
    else Returned(Valid(x, y))
  }

  /** On a well-formed 10x10 view with whole-number coordinates the tool
      never throws, and it accepts exactly the in-range cells not yet shot
      at. */
  lemma ValidateOnGrid(view: Board, x: int, y: int)
    requires IsGrid(view)
    ensures var r := ValidateAttack(view, x as real, y as real);
      && r.Returned?
      && (r.value.Valid? <==> 0 <= x < GridSize && 0 <= y < GridSize && view[x][y] == Empty)
  {
    assert (x as real).Floor == x && (y as real).Floor == y;
  }

  /** A shot the tool accepted against the attacker's real view reaches the
      page as a shot at that cell, and the cell has not been shot at
      before: the attack marks one more cell of the view. */
  lemma AcceptedShotIsFresh(view: Board, fleet: Board, x: real, y: real)
    requires IsGrid(view) && IsGrid(fleet)
    requires ValidateAttack(view, x, y).Returned? && ValidateAttack(view, x, y).value.Valid?
    ensures var reply := Replied([ToolResult("makeMove", ValidateAttack(view, x, y))]);
      var t := TargetOf(reply, "makeMove", GridSize);
      && t == AtCell(x.Floor, y.Floor)
      && view[t.x][t.y] == Empty
      && Count(ApplyAttack(view, fleet, t.x, t.y).view, Empty) + 1 == Count(view, Empty)
  {
    var t := AtCell(x.Floor, y.Floor);
    CountSetCell(view, t.x, t.y, if fleet[t.x][t.y] == Ship then Hit else Miss, Empty);
  }

  /** The tool's edge cases on a fresh view: an in-range cell is accepted, a
      row index with a fraction makes it throw, a column index with a
      fraction is reported as already targeted, and the far edge is out
      of bounds. */
  lemma ValidateEdgeCases()
    ensures ValidateAttack(CreateEmptyBoard(), 3.0, 4.0) == Returned(Valid(3.0, 4.0))
    ensures ValidateAttack(CreateEmptyBoard(), 2.5, 4.0) == Raised
    ensures ValidateAttack(CreateEmptyBoard(), 2.0, 4.5) == Returned(Invalid(AlreadyTargeted))
    ensures ValidateAttack(CreateEmptyBoard(), 10.0, 0.0) == Returned(Invalid(OutOfBounds))
    ensures ValidateAttack(CreateEmptyBoard(), 9.5, 9.5) == Raised
    ensures ValidateAttack(SetCell(CreateEmptyBoard(), 3, 4, Miss), 3.0, 4.0) == Returned(Invalid(AlreadyTargeted))
  {
    assert (2.5).Floor == 2;
    assert (4.5).Floor == 4;
    assert (9.5).Floor == 9;
  }
}
