/** The Battleship rule engine of the game page: the 10x10 board, the
    random placement of the five-ship fleet, and the application of one
    attack to the attacker's view and the defender's fleet board. Boards
    are values: the page copies a board row by row before every change and
    hands the copy to React, so no two boards ever share a row. */
module BattleshipBoard {
  import opened Protocol

  const GridSize: nat := 10

  /** Ship sizes, in placement order: carrier, battleship, destroyer,
      submarine, patrol boat. */
  const Fleet: seq<nat> := [5, 4, 3, 3, 2]

  /** The number of cells the fleet occupies. */
  const FleetCells: nat := 17

  datatype Cell = Empty | Ship | Hit | Miss

  /** `board[x][y]`: `x` selects the row, `y` the column. */
  type Board = seq<seq<Cell>>

  predicate IsGrid(b: Board) {
    |b| == GridSize && forall x :: 0 <= x < |b| ==> |b[x]| == GridSize
  }

  function CreateEmptyBoard(): (b: Board)
    ensures IsGrid(b)
    ensures forall x, y :: 0 <= x < GridSize && 0 <= y < GridSize ==> b[x][y] == Empty
  {
    seq(GridSize, _ => seq(GridSize, _ => Empty))
  }

  /** The board with one cell replaced (what `newBoard[x][y] = v` does to
      a row-by-row copy). */
  function SetCell(b: Board, x: nat, y: nat, v: Cell): (nb: Board)
    requires x < |b| && y < |b[x]|
    ensures |nb| == |b| && forall r :: 0 <= r < |b| ==> |nb[r]| == |b[r]|
    ensures IsGrid(b) ==> IsGrid(nb)
    ensures nb[x][y] == v
    ensures forall r, c :: 0 <= r < |b| && 0 <= c < |b[r]| && (r != x || c != y) ==> nb[r][c] == b[r][c]
  {
    b[x := b[x][y := v]]
  }

  // ---------------------------------------------------------------------
  // Counting cells

  function CountRow(row: seq<Cell>, v: Cell): nat {
    if row == [] then 0 else (if row[0] == v then 1 else 0) + CountRow(row[1..], v)
  }

  /** Number of cells of the board holding `v`. */
  function Count(b: Board, v: Cell): nat {
    if b == [] then 0 else CountRow(b[0], v) + Count(b[1..], v)
  }

  /** `board.some(row => row.includes("ship"))`. */
  predicate HasShip(b: Board) {
    exists x :: 0 <= x < |b| && Ship in b[x]
  }

  /** The sum of a list of ship sizes. */
  function Sum(sizes: seq<nat>): nat {
    if sizes == [] then 0 else sizes[0] + Sum(sizes[1..])
  }

  lemma {:induction false} CountRowUpdate(row: seq<Cell>, y: nat, w: Cell, v: Cell)
    requires y < |row|
    ensures CountRow(row[y := w], v) + (if row[y] == v then 1 else 0)
         == CountRow(row, v) + (if w == v then 1 else 0)
    decreases y
  {
    if y > 0 {
      CountRowUpdate(row[1..], y - 1, w, v);
      assert row[y := w][1..] == row[1..][y - 1 := w];
    }
  }

  /** Changing one cell moves it from the count of its old value to the
      count of its new one. */
  lemma {:induction false} CountSetCell(b: Board, x: nat, y: nat, w: Cell, v: Cell)
    requires x < |b| && y < |b[x]|
    ensures Count(SetCell(b, x, y, w), v) + (if b[x][y] == v then 1 else 0)
         == Count(b, v) + (if w == v then 1 else 0)
    decreases x
  {
    if x == 0 {
      CountRowUpdate(b[0], y, w, v);
      assert SetCell(b, x, y, w)[1..] == b[1..];
    } else {
      CountSetCell(b[1..], x - 1, y, w, v);
      assert SetCell(b, x, y, w)[1..] == SetCell(b[1..], x - 1, y, w);
    }
  }

  lemma {:induction false} CountRowPositive(row: seq<Cell>, v: Cell)
    ensures v in row <==> CountRow(row, v) > 0
  {
    if row != [] {
      CountRowPositive(row[1..], v);
      assert row == [row[0]] + row[1..];
    }
  }

  /** Some row still holds a ship cell exactly when the ship count is
      positive. */
  lemma {:induction false} HasShipIffCount(b: Board)
    ensures HasShip(b) <==> Count(b, Ship) > 0
  {
    if b != [] {
      HasShipIffCount(b[1..]);
      CountRowPositive(b[0], Ship);
      if HasShip(b) && Ship !in b[0] {
        var x :| 0 <= x < |b| && Ship in b[x];
        assert b[1..][x - 1] == b[x];
      }
      if HasShip(b[1..]) {
        var x :| 0 <= x < |b[1..]| && Ship in b[1..][x];
        assert b[x + 1] == b[1..][x];
      }
    }
  }

  lemma {:induction false} CountRowUniform(n: nat, w: Cell, v: Cell)
    ensures CountRow(seq(n, _ => w), v) == if w == v then n else 0
  {
    if n > 0 {
      CountRowUniform(n - 1, w, v);
      assert seq(n, _ => w)[1..] == seq(n - 1, _ => w);
    }
  }

  lemma {:induction false} CountUniform(rows: nat, w: Cell, v: Cell)
    ensures Count(seq(rows, _ => seq(GridSize, _ => w)), v) == if w == v then rows * GridSize else 0
  {
    CountRowUniform(GridSize, w, v);
    if rows > 0 {
      CountUniform(rows - 1, w, v);
      assert seq(rows, _ => seq(GridSize, _ => w))[1..] == seq(rows - 1, _ => seq(GridSize, _ => w));
    }
  }

  /** A fresh board holds one hundred empty cells and nothing else. */
  lemma EmptyBoardCounts(v: Cell)
    ensures Count(CreateEmptyBoard(), v) == if v == Empty then GridSize * GridSize else 0
  {
    CountUniform(GridSize, Empty, v);
  }

  // ---------------------------------------------------------------------
  // Placing ships

  /** One round of `placeShips`' rejection sampling: `Math.random() < 0.5`
      and two `Math.floor(Math.random() * GRID_SIZE)` draws. */
  datatype Draw = Draw(horizontal: bool, x: nat, y: nat)

  /** Every draw that `Math.floor(Math.random() * GRID_SIZE)` can produce. */
  predicate DrawsInRange(draws: seq<Draw>) {
    forall k :: 0 <= k < |draws| ==> draws[k].x < GridSize && draws[k].y < GridSize
  }

  /** Row and column of the `i`-th cell of a ship anchored at `d`. */
  function SpanRow(d: Draw, i: nat): nat {
    if d.horizontal then d.x else d.x + i
  }

  function SpanCol(d: Draw, i: nat): nat {
    if d.horizontal then d.y + i else d.y
  }

  /** Cell `(r, c)` belongs to the ship of the given size anchored at `d`. */
  predicate InSpan(d: Draw, size: nat, r: int, c: int) {
    if d.horizontal then r == d.x && d.y <= c < d.y + size
    else c == d.y && d.x <= r < d.x + size
  }

  /** The ship does not run off the board. */
  predicate Fits(d: Draw, size: nat) {
    if d.horizontal then d.y + size <= GridSize else d.x + size <= GridSize
  }

  /** The condition `canPlaceShip` computes: the ship fits and each of its
      cells is still empty. */
  predicate CanPlace(b: Board, d: Draw, size: nat)
    requires IsGrid(b) && d.x < GridSize && d.y < GridSize
  {
    Fits(d, size) && forall i :: 0 <= i < size ==> b[SpanRow(d, i)][SpanCol(d, i)] == Empty
  }

  method CanPlaceShip(board: Board, x: nat, y: nat, size: nat, isHorizontal: bool) returns (ok: bool)
    requires IsGrid(board) && x < GridSize && y < GridSize
    ensures ok == CanPlace(board, Draw(isHorizontal, x, y), size)
  {
    ghost var d := Draw(isHorizontal, x, y);
    if isHorizontal {
      if y + size > GridSize {
        return false;
      }
      for i := 0 to size
        invariant forall j :: 0 <= j < i ==> board[SpanRow(d, j)][SpanCol(d, j)] == Empty
      {
        if board[x][y + i] != Empty {
          assert board[SpanRow(d, i)][SpanCol(d, i)] != Empty;
          return false;
        }
      }
    } else {
      if x + size > GridSize {
        return false;
      }
      for i := 0 to size
        invariant forall j :: 0 <= j < i ==> board[SpanRow(d, j)][SpanCol(d, j)] == Empty
      {
        if board[x + i][y] != Empty {
          assert board[SpanRow(d, i)][SpanCol(d, i)] != Empty;
          return false;
        }
      }
    }
    return true;
  }

  /** The board after the first `size` cells of the ship at `d` were
      marked "ship". */
  function Stamp(b: Board, d: Draw, size: nat): (nb: Board)
    ensures |nb| == |b| && forall r :: 0 <= r < |b| ==> |nb[r]| == |b[r]|
  {
    seq(|b|, r requires 0 <= r < |b| =>
      seq(|b[r]|, c requires 0 <= c < |b[r]| => if InSpan(d, size, r, c) then Ship else b[r][c]))
  }

  lemma StampNothing(b: Board, d: Draw)
    ensures Stamp(b, d, 0) == b
  {
    forall r | 0 <= r < |b|
      ensures Stamp(b, d, 0)[r] == b[r]
    {
    }
  }

  /** Marking one more ship cell is one more cell update. */
  lemma StampStep(b: Board, d: Draw, i: nat)
    requires IsGrid(b) && Fits(d, i + 1) && d.x < GridSize && d.y < GridSize
    ensures SpanRow(d, i) < GridSize && SpanCol(d, i) < GridSize
    ensures Stamp(b, d, i + 1) == SetCell(Stamp(b, d, i), SpanRow(d, i), SpanCol(d, i), Ship)
  {
    var prev := Stamp(b, d, i);
    var next := SetCell(prev, SpanRow(d, i), SpanCol(d, i), Ship);
    forall r | 0 <= r < |b|
      ensures Stamp(b, d, i + 1)[r] == next[r]
    {
      forall c | 0 <= c < |b[r]|
        ensures Stamp(b, d, i + 1)[r][c] == next[r][c]
      {
        assert InSpan(d, i + 1, r, c) <==> InSpan(d, i, r, c) || (r == SpanRow(d, i) && c == SpanCol(d, i));
      }
    }
  }

  /** Stamping a placeable ship turns `size` empty cells into ship cells
      and leaves every other count alone. */
  lemma {:induction false} StampCount(b: Board, d: Draw, size: nat, v: Cell)
    requires IsGrid(b) && d.x < GridSize && d.y < GridSize && CanPlace(b, d, size)
    ensures Count(Stamp(b, d, size), v) + (if v == Empty then size else 0)
         == Count(b, v) + (if v == Ship then size else 0)
  {
    if size == 0 {
      StampNothing(b, d);
    } else {
      var i := size - 1;
      assert CanPlace(b, d, i);
      StampCount(b, d, i, v);
      StampStep(b, d, i);
      StampNextEmpty(b, d, i);
      CountSetCell(Stamp(b, d, i), SpanRow(d, i), SpanCol(d, i), Ship, v);
    }
  }

  /** While a placeable ship is being stamped, its next cell is still
      water. */
  lemma StampNextEmpty(b: Board, d: Draw, i: nat)
    requires IsGrid(b) && d.x < GridSize && d.y < GridSize && CanPlace(b, d, i + 1)
    ensures SpanRow(d, i) < GridSize && SpanCol(d, i) < GridSize
    ensures Stamp(b, d, i)[SpanRow(d, i)][SpanCol(d, i)] == Empty
  {
    var r, c := SpanRow(d, i), SpanCol(d, i);
    assert b[r][c] == Empty;
    assert !InSpan(d, i, r, c);
  }

  /** `placeShips`, with the random draws supplied up front: each ship in
      turn takes draws until one is placeable; `None` when the draws run
      out before the fleet is placed (the page itself would keep drawing). */
  function PlaceAll(b: Board, sizes: seq<nat>, draws: seq<Draw>): Option<Board>
    requires IsGrid(b) && DrawsInRange(draws)
    decreases |draws|
  {
    if sizes == [] then Some(b)
    else if draws == [] then None
    else if CanPlace(b, draws[0], sizes[0]) then
      PlaceAll(Stamp(b, draws[0], sizes[0]), sizes[1..], draws[1..])
    else PlaceAll(b, sizes, draws[1..])
  }

  /** The draws `PlaceAll` accepted, one per ship. */
  ghost function Accepted(b: Board, sizes: seq<nat>, draws: seq<Draw>): seq<Draw>
    requires IsGrid(b) && DrawsInRange(draws)
    decreases |draws|
  {
    if sizes == [] || draws == [] then []
    else if CanPlace(b, draws[0], sizes[0]) then
      [draws[0]] + Accepted(Stamp(b, draws[0], sizes[0]), sizes[1..], draws[1..])
    else Accepted(b, sizes, draws[1..])
  }

  /** Cell `(r, c)` belongs to one of the placed ships. */
  ghost predicate Covered(ships: seq<Draw>, sizes: seq<nat>, r: int, c: int)
    requires |ships| == |sizes|
  {
    exists k :: 0 <= k < |ships| && InSpan(ships[k], sizes[k], r, c)
  }

  lemma CoveredCons(ships: seq<Draw>, sizes: seq<nat>, r: int, c: int)
    requires |ships| == |sizes| > 0
    ensures Covered(ships, sizes, r, c)
        <==> InSpan(ships[0], sizes[0], r, c) || Covered(ships[1..], sizes[1..], r, c)
  {
    if Covered(ships, sizes, r, c) && !InSpan(ships[0], sizes[0], r, c) {
      var k :| 0 <= k < |ships| && InSpan(ships[k], sizes[k], r, c);
      assert ships[1..][k - 1] == ships[k] && sizes[1..][k - 1] == sizes[k];
    }
    if Covered(ships[1..], sizes[1..], r, c) {
      var k :| 0 <= k < |ships| - 1 && InSpan(ships[1..][k], sizes[1..][k], r, c);
      assert ships[k + 1] == ships[1..][k] && sizes[k + 1] == sizes[1..][k];
    }
  }

  /** A successful placement yields a grid and moves `Sum(sizes)` cells
      from "empty" to "ship"; the other counts do not change. */
  lemma {:induction false} PlaceAllCounts(b: Board, sizes: seq<nat>, draws: seq<Draw>, v: Cell)
    requires IsGrid(b) && DrawsInRange(draws) && PlaceAll(b, sizes, draws).Some?
    ensures IsGrid(PlaceAll(b, sizes, draws).value)
    ensures Count(PlaceAll(b, sizes, draws).value, v) + (if v == Empty then Sum(sizes) else 0)
         == Count(b, v) + (if v == Ship then Sum(sizes) else 0)
    decreases |draws|
  {
    if sizes == [] {
    } else if CanPlace(b, draws[0], sizes[0]) {
      assert DrawsInRange(draws[1..]);
      PlaceAllCounts(Stamp(b, draws[0], sizes[0]), sizes[1..], draws[1..], v);
      StampCount(b, draws[0], sizes[0], v);
    } else {
      assert DrawsInRange(draws[1..]);
      PlaceAllCounts(b, sizes, draws[1..], v);
    }
  }

  /** One accepted draw per ship, each taken from the draws and fitting
      the grid. */
  lemma {:induction false} PlaceAllShips(b: Board, sizes: seq<nat>, draws: seq<Draw>)
    requires IsGrid(b) && DrawsInRange(draws) && PlaceAll(b, sizes, draws).Some?
    ensures var ships := Accepted(b, sizes, draws);
      && |ships| == |sizes|
      && forall k :: 0 <= k < |ships| ==> Fits(ships[k], sizes[k]) && ships[k] in draws
    decreases |draws|
  {
    var ships := Accepted(b, sizes, draws);
    if sizes == [] {
    } else if CanPlace(b, draws[0], sizes[0]) {
      assert DrawsInRange(draws[1..]);
      var rest := Accepted(Stamp(b, draws[0], sizes[0]), sizes[1..], draws[1..]);
      PlaceAllShips(Stamp(b, draws[0], sizes[0]), sizes[1..], draws[1..]);
      assert ships == [draws[0]] + rest;
      forall k | 0 <= k < |ships|
        ensures Fits(ships[k], sizes[k]) && ships[k] in draws
      {
        if k > 0 {
          assert ships[k] == rest[k - 1] && sizes[k] == sizes[1..][k - 1];
          assert rest[k - 1] in draws[1..];
        }
      }
    } else {
      assert DrawsInRange(draws[1..]);
      PlaceAllShips(b, sizes, draws[1..]);
      forall k | 0 <= k < |ships|
        ensures ships[k] in draws
      {
        assert ships[k] in draws[1..];
      }
    }
  }

  /** The cells of two ships are pairwise distinct. */
  predicate Apart(d1: Draw, s1: nat, d2: Draw, s2: nat) {
    forall i, j :: 0 <= i < s1 && 0 <= j < s2 ==>
      SpanRow(d1, i) != SpanRow(d2, j) || SpanCol(d1, i) != SpanCol(d2, j)
  }

  /** A ship placeable after another was stamped was placeable before,
      and shares no cell with it. */
  lemma StampedPlace(b: Board, d0: Draw, s0: nat, d: Draw, s: nat)
    requires IsGrid(b) && d0.x < GridSize && d0.y < GridSize && d.x < GridSize && d.y < GridSize
    requires CanPlace(b, d0, s0) && CanPlace(Stamp(b, d0, s0), d, s)
    ensures CanPlace(b, d, s) && Apart(d0, s0, d, s)
  {
    var mid := Stamp(b, d0, s0);
    forall j | 0 <= j < s
      ensures b[SpanRow(d, j)][SpanCol(d, j)] == Empty
      ensures !InSpan(d0, s0, SpanRow(d, j), SpanCol(d, j))
    {
      assert mid[SpanRow(d, j)][SpanCol(d, j)] == Empty;
    }
    forall i, j | 0 <= i < s0 && 0 <= j < s
      ensures SpanRow(d0, i) != SpanRow(d, j) || SpanCol(d0, i) != SpanCol(d, j)
    {
      assert InSpan(d0, s0, SpanRow(d0, i), SpanCol(d0, i));
      assert !InSpan(d0, s0, SpanRow(d, j), SpanCol(d, j));
    }
  }

  /** Every placed ship was placeable on the board it started from: it lies
      inside the grid, on cells that were empty. */
  lemma {:induction false} PlaceAllOnWater(b: Board, sizes: seq<nat>, draws: seq<Draw>)
    requires IsGrid(b) && DrawsInRange(draws) && PlaceAll(b, sizes, draws).Some?
    ensures var ships := Accepted(b, sizes, draws);
      && |ships| == |sizes|
      && forall k :: 0 <= k < |ships| ==>
           ships[k].x < GridSize && ships[k].y < GridSize && CanPlace(b, ships[k], sizes[k])
    decreases |draws|
  {
    PlaceAllShips(b, sizes, draws);
    var ships := Accepted(b, sizes, draws);
    if sizes == [] {
    } else if CanPlace(b, draws[0], sizes[0]) {
      assert DrawsInRange(draws[1..]);
      var mid := Stamp(b, draws[0], sizes[0]);
      var rest := Accepted(mid, sizes[1..], draws[1..]);
      PlaceAllOnWater(mid, sizes[1..], draws[1..]);
      assert ships == [draws[0]] + rest;
      forall k | 0 <= k < |ships|
        ensures ships[k].x < GridSize && ships[k].y < GridSize && CanPlace(b, ships[k], sizes[k])
      {
        if k > 0 {
          assert ships[k] == rest[k - 1] && sizes[k] == sizes[1..][k - 1];
          StampedPlace(b, draws[0], sizes[0], ships[k], sizes[k]);
        }
      }
    } else {
      assert DrawsInRange(draws[1..]);
      PlaceAllOnWater(b, sizes, draws[1..]);
    }
  }

  /** No two placed ships share a cell. */
  lemma {:induction false} PlaceAllDisjoint(b: Board, sizes: seq<nat>, draws: seq<Draw>)
    requires IsGrid(b) && DrawsInRange(draws) && PlaceAll(b, sizes, draws).Some?
    ensures var ships := Accepted(b, sizes, draws);
      && |ships| == |sizes|
      && forall j, k :: 0 <= j < k < |ships| ==> Apart(ships[j], sizes[j], ships[k], sizes[k])
    decreases |draws|
  {
    PlaceAllShips(b, sizes, draws);
    var ships := Accepted(b, sizes, draws);
    if sizes == [] {
    } else if CanPlace(b, draws[0], sizes[0]) {
      assert DrawsInRange(draws[1..]);
      var mid := Stamp(b, draws[0], sizes[0]);
      var rest := Accepted(mid, sizes[1..], draws[1..]);
      PlaceAllDisjoint(mid, sizes[1..], draws[1..]);
      PlaceAllOnWater(mid, sizes[1..], draws[1..]);
      assert ships == [draws[0]] + rest;
      forall j, k | 0 <= j < k < |ships|
        ensures Apart(ships[j], sizes[j], ships[k], sizes[k])
      {
        assert ships[k] == rest[k - 1] && sizes[k] == sizes[1..][k - 1];
        if j > 0 {
          assert ships[j] == rest[j - 1] && sizes[j] == sizes[1..][j - 1];
        } else {
          StampedPlace(b, draws[0], sizes[0], ships[k], sizes[k]);
        }
      }
    } else {
      assert DrawsInRange(draws[1..]);
      PlaceAllDisjoint(b, sizes, draws[1..]);
    }
  }

  /** Every cell a placed ship covers is a ship cell afterwards, and every
      other cell is as it was. */
  lemma {:induction false} PlaceAllCells(b: Board, sizes: seq<nat>, draws: seq<Draw>)
    requires IsGrid(b) && DrawsInRange(draws) && PlaceAll(b, sizes, draws).Some?
    ensures var nb, ships := PlaceAll(b, sizes, draws).value, Accepted(b, sizes, draws);
      && IsGrid(nb)
      && |ships| == |sizes|
      && forall r, c :: 0 <= r < GridSize && 0 <= c < GridSize ==>
           nb[r][c] == if Covered(ships, sizes, r, c) then Ship else b[r][c]
    decreases |draws|
  {
    PlaceAllShips(b, sizes, draws);
    PlaceAllCounts(b, sizes, draws, Ship);
    var nb, ships := PlaceAll(b, sizes, draws).value, Accepted(b, sizes, draws);
    if sizes == [] {
    } else if CanPlace(b, draws[0], sizes[0]) {
      assert DrawsInRange(draws[1..]);
      var mid := Stamp(b, draws[0], sizes[0]);
      var rest := Accepted(mid, sizes[1..], draws[1..]);
      PlaceAllCells(mid, sizes[1..], draws[1..]);
      assert ships == [draws[0]] + rest;
      forall r, c | 0 <= r < GridSize && 0 <= c < GridSize
        ensures nb[r][c] == if Covered(ships, sizes, r, c) then Ship else b[r][c]
      {
        CoveredCons(ships, sizes, r, c);
        assert ships[1..] == rest;
      }
    } else {
      assert DrawsInRange(draws[1..]);
      PlaceAllCells(b, sizes, draws[1..]);
    }
  }

  lemma FleetSize()
    ensures Sum(Fleet) == FleetCells
  {
    assert Fleet[1..] == [4, 3, 3, 2];
    assert Fleet[1..][1..] == [3, 3, 2];
    assert Fleet[1..][1..][1..] == [3, 2];
    assert Fleet[1..][1..][1..][1..] == [2];
  }

  /** The fleet placed on a fresh board: seventeen ship cells, the other
      eighty-three empty, no hit or miss, and some ship to sink. */
  lemma FleetOnEmptyBoard(draws: seq<Draw>)
    requires DrawsInRange(draws) && PlaceAll(CreateEmptyBoard(), Fleet, draws).Some?
    ensures var nb := PlaceAll(CreateEmptyBoard(), Fleet, draws).value;
      && IsGrid(nb)
      && Count(nb, Ship) == Sum(Fleet) == FleetCells
      && Count(nb, Empty) == GridSize * GridSize - FleetCells
      && Count(nb, Hit) == 0 && Count(nb, Miss) == 0
      && HasShip(nb)
  {
    var nb := PlaceAll(CreateEmptyBoard(), Fleet, draws).value;
    var e := CreateEmptyBoard();
    PlaceAllCounts(e, Fleet, draws, Ship);
    PlaceAllCounts(e, Fleet, draws, Empty);
    PlaceAllCounts(e, Fleet, draws, Hit);
    PlaceAllCounts(e, Fleet, draws, Miss);
    FleetSize();
    EmptyBoardCounts(Ship);
    EmptyBoardCounts(Empty);
    EmptyBoardCounts(Hit);
    EmptyBoardCounts(Miss);
    HasShipIffCount(nb);
  }

  /** The marking loop of `placeShips` for an accepted draw. */
  method MarkShip(board: Board, d: Draw, size: nat) returns (nb: Board)
    requires IsGrid(board) && d.x < GridSize && d.y < GridSize && Fits(d, size)
    ensures nb == Stamp(board, d, size)
  {
    nb := board;
    StampNothing(board, d);
    for i := 0 to size
      invariant nb == Stamp(board, d, i)
    {
      StampStep(board, d, i);
      if d.horizontal {
        nb := SetCell(nb, d.x, d.y + i, Ship);
      } else {
        nb := SetCell(nb, d.x + i, d.y, Ship);
      }
    }
  }

  /** `placeShips` as the page runs it, drawing from `draws` in order. */
  method PlaceShips(board: Board, draws: seq<Draw>) returns (r: Option<Board>)
    requires IsGrid(board) && DrawsInRange(draws)
    ensures r == PlaceAll(board, Fleet, draws)
  {
    var newBoard := board;
    var d := 0;
    for s := 0 to |Fleet|
      invariant 0 <= d <= |draws| && IsGrid(newBoard)
      invariant PlaceAll(newBoard, Fleet[s..], draws[d..]) == PlaceAll(board, Fleet, draws)
    {
      var size := Fleet[s];
      var placed := false;
      while !placed
        invariant 0 <= d <= |draws| && IsGrid(newBoard)
        invariant PlaceAll(newBoard, Fleet[s + (if placed then 1 else 0)..], draws[d..])
               == PlaceAll(board, Fleet, draws)
        decreases |draws| - d + (if placed then 0 else 1)
      {
        if d == |draws| {
          return None;
        }
        var dr := draws[d];
        assert draws[d..][0] == dr && draws[d..][1..] == draws[d + 1..];
        assert Fleet[s..][0] == size && Fleet[s..][1..] == Fleet[s + 1..];
        d := d + 1;
        var ok := CanPlaceShip(newBoard, dr.x, dr.y, size, dr.horizontal);
        if ok {
          newBoard := MarkShip(newBoard, dr, size);
          placed := true;
        }
      }
    }
    assert Fleet[|Fleet|..] == [];
    return Some(newBoard);
  }

  // ---------------------------------------------------------------------
  // Attacks

  /** The attacker's new view and the defender's new fleet board after a
      shot at `(x, y)`, and whether it was a hit. */
  datatype Strike = Strike(view: Board, fleet: Board, hit: bool)

  /** The page's "apply the move": a shot on a ship cell marks "hit" in both
      boards; any other shot marks "miss" in the view and leaves the fleet
      board as it was. Nothing checks that the cell was not shot before: a
      second shot at a sunk cell reads "hit" in the fleet and so becomes a
      "miss" in the view. */
  function ApplyAttack(view: Board, fleet: Board, x: nat, y: nat): (s: Strike)
    requires IsGrid(view) && IsGrid(fleet) && x < GridSize && y < GridSize
    ensures IsGrid(s.view) && IsGrid(s.fleet)
    ensures s.hit <==> fleet[x][y] == Ship
    ensures s.view[x][y] == (if s.hit then Hit else Miss)
    ensures s.fleet[x][y] == (if s.hit then Hit else fleet[x][y])
    ensures forall r, c :: 0 <= r < GridSize && 0 <= c < GridSize && (r != x || c != y) ==>
              s.view[r][c] == view[r][c] && s.fleet[r][c] == fleet[r][c]
  {
    if fleet[x][y] == Ship then Strike(SetCell(view, x, y, Hit), SetCell(fleet, x, y, Hit), true)
    else Strike(SetCell(view, x, y, Miss), fleet, false)
  }

  /** A shot sinks at most one ship cell: a hit moves one cell from "ship"
      to "hit", a miss leaves the fleet board untouched, and the number of
      cells that are or were ship cells never changes. */
  lemma AttackCounts(view: Board, fleet: Board, x: nat, y: nat)
    requires IsGrid(view) && IsGrid(fleet) && x < GridSize && y < GridSize
    ensures var s := ApplyAttack(view, fleet, x, y);
      && Count(s.fleet, Ship) == Count(fleet, Ship) - (if s.hit then 1 else 0)
      && Count(s.fleet, Hit) == Count(fleet, Hit) + (if s.hit then 1 else 0)
      && Count(s.fleet, Ship) + Count(s.fleet, Hit) == Count(fleet, Ship) + Count(fleet, Hit)
      && (!s.hit ==> s.fleet == fleet)
  {
    if fleet[x][y] == Ship {
      CountSetCell(fleet, x, y, Hit, Ship);
      CountSetCell(fleet, x, y, Hit, Hit);
    }
  }

  /** The shot ends the game exactly when it hits the defender's last ship
      cell. */
  lemma AttackSinksLast(view: Board, fleet: Board, x: nat, y: nat)
    requires IsGrid(view) && IsGrid(fleet) && x < GridSize && y < GridSize && HasShip(fleet)
    ensures var s := ApplyAttack(view, fleet, x, y);
      !HasShip(s.fleet) <==> s.hit && Count(fleet, Ship) == 1
  {
    AttackCounts(view, fleet, x, y);
    HasShipIffCount(fleet);
    HasShipIffCount(ApplyAttack(view, fleet, x, y).fleet);
  }

  /** What the attacker knows. A view never shows a ship, and a "hit" in it
      is a "hit" on the fleet board. */
  ghost predicate ViewConsistent(view: Board, fleet: Board)
    requires IsGrid(view) && IsGrid(fleet)
  {
    forall r, c :: 0 <= r < GridSize && 0 <= c < GridSize ==>
      view[r][c] != Ship && (view[r][c] == Hit ==> fleet[r][c] == Hit)
  }

  /** Attacks keep the view consistent with the fleet board. */
  lemma AttackKeepsView(view: Board, fleet: Board, x: nat, y: nat)
    requires IsGrid(view) && IsGrid(fleet) && x < GridSize && y < GridSize
    requires ViewConsistent(view, fleet)
    ensures var s := ApplyAttack(view, fleet, x, y);
      ViewConsistent(s.view, s.fleet)
  {
  }

  /** A repeated shot at a sunk cell is recorded as a miss and changes
      nothing on the fleet board. */
  lemma ReshotSunkCell(view: Board, fleet: Board, x: nat, y: nat)
    requires IsGrid(view) && IsGrid(fleet) && x < GridSize && y < GridSize
    requires fleet[x][y] == Hit
    ensures var s := ApplyAttack(view, fleet, x, y);
      !s.hit && s.view[x][y] == Miss && s.fleet == fleet
  {
  }

  /** A fresh view is consistent with any fleet board. */
  lemma EmptyViewConsistent(fleet: Board)
    requires IsGrid(fleet)
    ensures ViewConsistent(CreateEmptyBoard(), fleet)
  {
  }

  // ---------------------------------------------------------------------
  // One side of a game in progress

  /** A fleet board and the opponent's view of it during a game: both are
      10x10 and the view is consistent with the fleet. */
  ghost predicate Side(fleet: Board, view: Board) {
    IsGrid(fleet) && IsGrid(view) && ViewConsistent(view, fleet)
  }

  /** A freshly placed fleet and an empty view make a side with ships to
      sink. */
  lemma FreshSide(draws: seq<Draw>)
    requires DrawsInRange(draws) && PlaceAll(CreateEmptyBoard(), Fleet, draws).Some?
    ensures var fleet := PlaceAll(CreateEmptyBoard(), Fleet, draws).value;
      Side(fleet, CreateEmptyBoard()) && HasShip(fleet)
  {
    FleetOnEmptyBoard(draws);
    EmptyViewConsistent(PlaceAll(CreateEmptyBoard(), Fleet, draws).value);
  }

  /** A shot keeps a side a side, and ends it exactly when it hits the
      last ship cell. */
  lemma AttackKeepsSide(fleet: Board, view: Board, x: nat, y: nat)
    requires Side(fleet, view) && x < GridSize && y < GridSize && HasShip(fleet)
    ensures var s := ApplyAttack(view, fleet, x, y);
      && Side(s.fleet, s.view)
      && (!HasShip(s.fleet) <==> s.hit && Count(fleet, Ship) == 1)
      && (!s.hit ==> s.fleet == fleet)
  {
    AttackCounts(view, fleet, x, y);
    AttackKeepsView(view, fleet, x, y);
    AttackSinksLast(view, fleet, x, y);
  }
}
