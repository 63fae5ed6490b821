/** The Hashtag board: sixteen letters on a five-by-five grid, rearranged by
    dragging one letter onto another, which exchanges their squares. */
module HashtagGame {
  import opened Common

  datatype LetterState = Unused | Selected | Correct

  /** A tile: its letter, its colour state and its square (column `x`, row `y`). */
  datatype Letter = Letter(ch: char, state: LetterState, x: int, y: int)

  /** The square a drag started from. */
  datatype Square = Square(x: int, y: int)

  const GRID_SIZE: nat := 5
  const INITIAL_MOVES: int := 12

  /** The starting layout, row by row. */
  const INITIAL_LETTERS: seq<Letter> := [
    Letter('S', Unused, 1, 0), Letter('C', Unused, 3, 0),
    Letter('N', Unused, 0, 1), Letter('L', Selected, 1, 1), Letter('A', Selected, 2, 1),
    Letter('O', Correct, 3, 1), Letter('B', Unused, 4, 1),
    Letter('L', Selected, 1, 2), Letter('V', Unused, 3, 2),
    Letter('S', Unused, 0, 3), Letter('T', Correct, 1, 3), Letter('S', Selected, 2, 3),
    Letter('E', Selected, 3, 3), Letter('P', Selected, 4, 3),
    Letter('A', Selected, 1, 4), Letter('O', Selected, 3, 4)
  ]

  predicate At(l: Letter, x: int, y: int)
  {
    l.x == x && l.y == y
  }

  function CellOf(l: Letter): (int, int)
  {
    (l.x, l.y)
  }

  predicate OnGrid(l: Letter)
  {
    0 <= l.x < GRID_SIZE && 0 <= l.y < GRID_SIZE
  }

  /** Every tile is on the grid and no two tiles share a square. */
  predicate WellPlaced(ls: seq<Letter>)
  {
    && (forall i :: 0 <= i < |ls| ==> OnGrid(ls[i]))
    && (forall i, j :: 0 <= i < j < |ls| ==> CellOf(ls[i]) != CellOf(ls[j]))
  }

  /** The squares of the tiles, in list order. */
  function Cells(ls: seq<Letter>): (r: seq<(int, int)>)
    ensures |r| == |ls| && forall i :: 0 <= i < |ls| ==> r[i] == CellOf(ls[i])
  {
    seq(|ls|, i requires 0 <= i < |ls| => CellOf(ls[i]))
  }

  /** What a tile shows, ignoring where it is. */
  function Faces(ls: seq<Letter>): (r: seq<(char, LetterState)>)
    ensures |r| == |ls| && forall i :: 0 <= i < |ls| ==> r[i] == (ls[i].ch, ls[i].state)
  {
    seq(|ls|, i requires 0 <= i < |ls| => (ls[i].ch, ls[i].state))
  }

  /** The starting layout is listed row by row, left to right. */
  function RowMajor(l: Letter): int
  {
    l.y * GRID_SIZE + l.x
  }

  lemma {:induction false} IncreasingIsDistinct(ls: seq<Letter>)
    requires forall i :: 0 <= i < |ls| ==> OnGrid(ls[i])
    requires forall i :: 0 <= i < |ls| - 1 ==> RowMajor(ls[i]) < RowMajor(ls[i + 1])
    ensures forall i, j :: 0 <= i < j < |ls| ==> RowMajor(ls[i]) < RowMajor(ls[j])
    decreases |ls|
  {
    if |ls| > 1 {
      var init := ls[..|ls| - 1];
      IncreasingIsDistinct(init);
      forall i, j | 0 <= i < j < |ls| ensures RowMajor(ls[i]) < RowMajor(ls[j]) {
        if j < |ls| - 1 {
          assert RowMajor(init[i]) < RowMajor(init[j]);
        } else if i < j - 1 {
          assert RowMajor(init[i]) < RowMajor(init[j - 1]);
        }
      }
    }
  }

  lemma InitialLayout()
    ensures |INITIAL_LETTERS| == 16
    ensures WellPlaced(INITIAL_LETTERS)
  {
    var ls := INITIAL_LETTERS;
    var keys := seq(|ls|, i requires 0 <= i < |ls| => RowMajor(ls[i]));
    assert keys == [1, 3, 5, 6, 7, 8, 9, 11, 13, 15, 16, 17, 18, 19, 21, 23];
    IncreasingIsDistinct(ls);
    forall i, j | 0 <= i < j < |ls| ensures CellOf(ls[i]) != CellOf(ls[j]) {
      assert RowMajor(ls[i]) < RowMajor(ls[j]);
    }
  }

  /** `letters.find(l => l.x === x && l.y === y)`, as the index of the tile found:
      the first tile on square (x, y), if any. */
  function Find(ls: seq<Letter>, x: int, y: int): (r: Option<nat>)
    ensures r.Some? ==> r.value < |ls| && At(ls[r.value], x, y)
                        && forall j :: 0 <= j < r.value ==> !At(ls[j], x, y)
    ensures r.None? ==> forall j :: 0 <= j < |ls| ==> !At(ls[j], x, y)
  {
    if ls == [] then None
    else if At(ls[0], x, y) then Some(0)
    else
      match Find(ls[1..], x, y)
      case None => None
      case Some(i) => Some(i + 1)
  }

  /** The drop's `map`: tile `si` takes the square of tile `ti` and tile `ti` the
      square of tile `si`; the tiles are told apart by their position in the list,
      since every element of the list is a distinct object. */
  function Exchange(ls: seq<Letter>, si: nat, ti: nat): (r: seq<Letter>)
    requires si < |ls| && ti < |ls|
    ensures |r| == |ls|
  {
    seq(|ls|, i requires 0 <= i < |ls| =>
      if i == si then ls[i].(x := ls[ti].x, y := ls[ti].y)
      else if i == ti then ls[i].(x := ls[si].x, y := ls[si].y)
      else ls[i])
  }

  /** Exchanging the same two tiles again restores the board. */
  lemma ExchangeInvolution(ls: seq<Letter>, si: nat, ti: nat)
    requires si < |ls| && ti < |ls| && si != ti
    ensures Exchange(Exchange(ls, si, ti), si, ti) == ls
  {
    var r := Exchange(Exchange(ls, si, ti), si, ti);
    forall i | 0 <= i < |ls| ensures r[i] == ls[i] {
    }
  }

  /** An exchange moves no letter and no colour: the tiles' faces stay in place. */
  lemma ExchangeKeepsFaces(ls: seq<Letter>, si: nat, ti: nat)
    requires si < |ls| && ti < |ls|
    ensures Faces(Exchange(ls, si, ti)) == Faces(ls)
    ensures multiset(Faces(Exchange(ls, si, ti))) == multiset(Faces(ls))
  {
    var a, b := Faces(Exchange(ls, si, ti)), Faces(ls);
    forall i | 0 <= i < |ls| ensures a[i] == b[i] {
    }
  }

  /** An exchange permutes the occupied squares: the square list is the old one
      with entries `si` and `ti` exchanged. */
  lemma ExchangeCells(ls: seq<Letter>, si: nat, ti: nat)
    requires si < |ls| && ti < |ls| && si != ti
    ensures Cells(Exchange(ls, si, ti)) == Cells(ls)[si := CellOf(ls[ti])][ti := CellOf(ls[si])]
  {
    var a, b := Cells(Exchange(ls, si, ti)), Cells(ls)[si := CellOf(ls[ti])][ti := CellOf(ls[si])];
    forall i | 0 <= i < |ls| ensures a[i] == b[i] {
    }
  }

  /** The occupied squares. */
  function Occupied(ls: seq<Letter>): set<(int, int)>
  {
    set l | l in ls :: CellOf(l)
  }

  /** The set and the multiset of occupied squares are preserved. */
  lemma ExchangeKeepsOccupied(ls: seq<Letter>, si: nat, ti: nat)
    requires si < |ls| && ti < |ls|
    ensures multiset(Cells(Exchange(ls, si, ti))) == multiset(Cells(ls))
    ensures Occupied(Exchange(ls, si, ti)) == Occupied(ls)
  {
    var r := Exchange(ls, si, ti);
    if si == ti {
      assert r == ls;
    } else {
      ExchangeCells(ls, si, ti);
      var c := Cells(ls);
      assert Cells(r) == c[si := c[ti]][ti := c[si]];
    }
    SetOfCells(r);
    SetOfCells(ls);
  }

  lemma SetOfCells(ls: seq<Letter>)
    ensures Occupied(ls) == set p | p in multiset(Cells(ls))
  {
    forall p | p in multiset(Cells(ls)) ensures p in Occupied(ls) {
      var i :| 0 <= i < |ls| && Cells(ls)[i] == p;
      assert ls[i] in ls;
    }
    forall l | l in ls ensures CellOf(l) in multiset(Cells(ls)) {
      var i :| 0 <= i < |ls| && ls[i] == l;
      assert Cells(ls)[i] == CellOf(l);
    }
  }

  /** A board where tiles sit on distinct grid squares stays so after an exchange. */
  lemma ExchangeKeepsPlacement(ls: seq<Letter>, si: nat, ti: nat)
    requires si < |ls| && ti < |ls| && WellPlaced(ls)
    ensures WellPlaced(Exchange(ls, si, ti))
  {
    var r := Exchange(ls, si, ti);
    // tile i of the result sits on the old square of tile Other(i)
    var other := (i: nat) => if i == si then ti else if i == ti then si else i;
    forall i | 0 <= i < |r| ensures CellOf(r[i]) == CellOf(ls[other(i)]) && other(i) < |ls| {
    }
    forall i, j | 0 <= i < j < |r| ensures CellOf(r[i]) != CellOf(r[j]) {
      assert other(i) != other(j);
      assert CellOf(r[i]) == CellOf(ls[other(i)]) && CellOf(r[j]) == CellOf(ls[other(j)]);
      if other(i) < other(j) {
        assert CellOf(ls[other(i)]) != CellOf(ls[other(j)]);
      } else {
        assert CellOf(ls[other(j)]) != CellOf(ls[other(i)]);
      }
    }
  }

  /** What `forEach` leaves in grid cell (x, y): the last tile on that square. */
  function LastAt(ls: seq<Letter>, x: int, y: int): (r: Option<Letter>)
    ensures r.Some? ==> exists i :: 0 <= i < |ls| && ls[i] == r.value && At(ls[i], x, y)
    ensures r.None? <==> forall i :: 0 <= i < |ls| ==> !At(ls[i], x, y)
  {
    if ls == [] then None
    else if At(ls[|ls| - 1], x, y) then Some(ls[|ls| - 1])
    else
      var r := LastAt(ls[..|ls| - 1], x, y);
      assert forall i :: 0 <= i < |ls| - 1 ==> ls[..|ls| - 1][i] == ls[i];
      r
  }

  /** On a well-placed board the tile drawn in a cell is the one `Find` finds there. */
  lemma {:induction false} LastAtIsFound(ls: seq<Letter>, x: int, y: int)
    requires WellPlaced(ls)
    ensures LastAt(ls, x, y) == (match Find(ls, x, y) case None => None case Some(i) => Some(ls[i]))
  {
    match Find(ls, x, y)
    case None =>
    case Some(i) =>
      var l := LastAt(ls, x, y).value;
      var j :| 0 <= j < |ls| && ls[j] == l && At(ls[j], x, y);
      SameSquareSameTile(ls, i, j);
  }

  lemma SameSquareSameTile(ls: seq<Letter>, i: nat, j: nat)
    requires WellPlaced(ls) && i < |ls| && j < |ls| && CellOf(ls[i]) == CellOf(ls[j])
    ensures i == j
  {
  }

  class Board {
    var letters: seq<Letter>
    var movesLeft: int
    var dragged: Option<Square>

    ghost predicate Valid()
      reads this
    {
      WellPlaced(letters) && multiset(Faces(letters)) == multiset(Faces(INITIAL_LETTERS))
    }

    constructor ()
      ensures letters == INITIAL_LETTERS && movesLeft == INITIAL_MOVES && dragged == None
      ensures Valid()
    {
      letters := INITIAL_LETTERS;
      movesLeft := INITIAL_MOVES;
      dragged := None;
      InitialLayout();
    }

    method HandleDragStart(x: int, y: int)
      modifies this
      ensures dragged == Some(Square(x, y))
      ensures letters == old(letters) && movesLeft == old(movesLeft)
    {
      dragged := Some(Square(x, y));
    }

    /** Dropping the dragged tile on square (targetX, targetY).  Nothing here
        depends on `movesLeft`: a drop goes through even when no moves are left. */
    method HandleDrop(targetX: int, targetY: int)
      requires Valid()
      modifies this
      ensures Valid()
      ensures dragged == None
      // no drag in progress, a drop on the starting square, or an empty square:
      // the board and the move count stay as they were
      ensures old(dragged).None? ==> letters == old(letters) && movesLeft == old(movesLeft)
      ensures old(dragged).Some? && old(dragged).value == Square(targetX, targetY) ==>
                letters == old(letters) && movesLeft == old(movesLeft)
      ensures old(dragged).Some? && old(dragged).value != Square(targetX, targetY) ==>
                var s := old(dragged).value;
                var si := Find(old(letters), s.x, s.y);
                var ti := Find(old(letters), targetX, targetY);
                if si.None? || ti.None? then
                  letters == old(letters) && movesLeft == old(movesLeft)
                else
                  && letters == Exchange(old(letters), si.value, ti.value)
                  && movesLeft == old(movesLeft) - 1
                  && At(letters[si.value], targetX, targetY)
                  && At(letters[ti.value], s.x, s.y)
                  && (forall i :: 0 <= i < |letters| && i != si.value && i != ti.value ==>
                        letters[i] == old(letters)[i])
    {
      if dragged.None? {
        return;
      }
      var source := dragged.value;
      if source.x == targetX && source.y == targetY {
        dragged := None;
        return;
      }
      var si := Find(letters, source.x, source.y);
      var ti := Find(letters, targetX, targetY);
      if si.Some? && ti.Some? {
        ExchangeKeepsPlacement(letters, si.value, ti.value);
        ExchangeKeepsFaces(letters, si.value, ti.value);
        letters := Exchange(letters, si.value, ti.value);
        movesLeft := movesLeft - 1;
      }
      dragged := None;
    }

    /** The 5x5 grid: cell [y, x] holds the tile on square (x, y), or nothing. */
    method RenderGrid() returns (grid: array2<Option<Letter>>)
      requires Valid()
      ensures fresh(grid) && grid.Length0 == GRID_SIZE && grid.Length1 == GRID_SIZE
      ensures forall y, x :: 0 <= y < GRID_SIZE && 0 <= x < GRID_SIZE ==>
                grid[y, x] == LastAt(letters, x, y)
    {
      grid := new Option<Letter>[GRID_SIZE, GRID_SIZE]((y, x) => None);
      for i := 0 to |letters|
        invariant forall y, x :: 0 <= y < GRID_SIZE && 0 <= x < GRID_SIZE ==>
                    grid[y, x] == LastAt(letters[..i], x, y)
      {
        var l := letters[i];
        assert OnGrid(l);
        grid[l.y, l.x] := Some(l);
        assert letters[..i + 1][..i] == letters[..i];
      }
      assert letters[..|letters|] == letters;
    }
  }

  /** Every cell of the rendered grid shows the tile standing on it: `Some` exactly
      on the occupied squares, `None` elsewhere. */
  lemma RenderedCell(ls: seq<Letter>, x: int, y: int)
    requires WellPlaced(ls)
    ensures LastAt(ls, x, y).Some? <==> exists i :: 0 <= i < |ls| && At(ls[i], x, y)
    ensures LastAt(ls, x, y).Some? ==> At(LastAt(ls, x, y).value, x, y)
                                       && Find(ls, x, y).Some?
                                       && LastAt(ls, x, y).value == ls[Find(ls, x, y).value]
  {
    LastAtIsFound(ls, x, y);
  }
}
