/**
 The board of the 3x3 sliding puzzle: nine cells, each a numbered tile or the
 blank, laid out row by row. This module holds the queries that do not change
 the board: the neighbour list of a cell, the adjacency test, the win test and
 the search for the blank.
 */
module Board {

  /** A cell holds a tile number or, for the one empty cell, nothing. */
  datatype Cell = Blank | Tile(id: int)

  /** Number of cells on the board. */
  const Cells := 9
  /** Number of tiles; tile k belongs at position k. */
  const Tiles := 8

  /** The solved board, which is also the board every deal starts from. */
  function Solved(): (b: seq<Cell>)
    ensures |b| == Cells && b[Cells - 1] == Blank
    ensures forall k :: 0 <= k < Tiles ==> b[k] == Tile(k)
  {
    [Tile(0), Tile(1), Tile(2), Tile(3), Tile(4), Tile(5), Tile(6), Tile(7), Blank]
  }

  /**
   A board holds the eight tiles and the blank, each exactly once: nine
   cells, each the blank or a tile 0 to 7, no two alike.
   */
  ghost predicate IsPermutation(b: seq<Cell>)
  {
    |b| == Cells &&
    (forall k :: 0 <= k < |b| ==> b[k] == Blank || (b[k].Tile? && 0 <= b[k].id < Tiles)) &&
    (forall i, j :: 0 <= i < j < |b| ==> b[i] != b[j])
  }

  /** JavaScript's `%`, which truncates toward zero, for a positive divisor. */
  function JsRem(a: int, d: int): (r: int)
    requires d > 0
    ensures -d < r < d
    ensures a >= 0 ==> r >= 0
    ensures a <= 0 ==> r <= 0
    ensures (a - r) % d == 0
  {
    if a >= 0 then
      MultipleRem(a / d, d);
      assert a - a % d == (a / d) * d;
      a % d
    else
      MultipleRem(-((-a) / d), d);
      assert a + (-a) % d == (-((-a) / d)) * d;
      -((-a) % d)
  }

  /** A multiple of `d` leaves no remainder. */
  lemma MultipleRem(k: int, d: int)
    requires d > 0
    ensures (k * d) % d == 0
  {
    var x := k * d;
    var m := k - x / d;
    assert x == d * (x / d) + x % d;
    assert x % d == m * d;
    if m >= 1 {
      MulAtLeast(m, d);
    } else if m <= -1 {
      MulAtLeast(-m, d);
    }
  }

  lemma MulAtLeast(m: int, d: int)
    requires m >= 1 && d > 0
    ensures m * d >= d
  {
    assert m * d == (m - 1) * d + d;
    assert (m - 1) * d >= 0;
  }

  /** Grid row of a position: Math.floor(p / 3) (floor and Dafny's `/` agree for 3). */
  function Row(p: int): int { p / 3 }

  /** Grid column of a position: p % 3 with JavaScript's remainder. */
  function Col(p: int): int { JsRem(p, 3) }

  function Abs(x: int): nat { if x < 0 then -x else x }

  /** The cells one step up, down, left or right of `p` on the grid. */
  ghost predicate Neighbour(q: int, p: int)
  {
    0 <= q < Cells && 0 <= p < Cells &&
    ((q / 3 == p / 3 && (q % 3 == p % 3 + 1 || q % 3 + 1 == p % 3)) ||
     (q % 3 == p % 3 && (q / 3 == p / 3 + 1 || q / 3 + 1 == p / 3)))
  }

  /**
   The positions from which a tile may slide into the blank at `e`, in the
   order up, down, left, right. The list has no repeats, never leaves the
   grid and never wraps from one row to the next; its length is 2 at a
   corner, 3 on an edge and 4 at the centre.
   */
  function ValidMoves(e: int): (r: seq<int>)
    requires 0 <= e < Cells
    ensures e in {0, 2, 6, 8} ==> |r| == 2
    ensures e in {1, 3, 5, 7} ==> |r| == 3
    ensures e == 4 ==> |r| == 4
  {
    var row := e / 3;
    var col := e % 3;
    (if row > 0 then [e - 3] else []) +
    (if row < 2 then [e + 3] else []) +
    (if col > 0 then [e - 1] else []) +
    (if col < 2 then [e + 1] else [])
  }

  /** Every entry of the neighbour list is a grid neighbour of `e`, and no entry repeats. */
  lemma ValidMovesAreNeighbours(e: int)
    requires 0 <= e < Cells
    ensures forall k :: 0 <= k < |ValidMoves(e)| ==> Neighbour(ValidMoves(e)[k], e)
    ensures forall k, l :: 0 <= k < l < |ValidMoves(e)| ==> ValidMoves(e)[k] != ValidMoves(e)[l]
  {
    ValidMovesOnGrid(e);
    ValidMovesDistinct(e);
  }

  lemma ValidMovesOnGrid(e: int)
    requires 0 <= e < Cells
    ensures forall k :: 0 <= k < |ValidMoves(e)| ==> Neighbour(ValidMoves(e)[k], e)
  {
  }

  lemma ValidMovesDistinct(e: int)
    requires 0 <= e < Cells
    ensures forall k, l :: 0 <= k < l < |ValidMoves(e)| ==> ValidMoves(e)[k] != ValidMoves(e)[l]
  {
  }

  /**
   isAdjacent: Manhattan distance one, with the source's row and column
   arithmetic. It never holds of a cell and itself, and on the grid it holds
   exactly of the cells one step up, down, left or right.
   */
  function Adjacent(p: int, q: int): (r: bool)
    ensures r ==> p != q
    ensures 0 <= p < Cells && 0 <= q < Cells ==> (r <==> Neighbour(p, q))
  {
    assert 0 <= p ==> Col(p) == p % 3;
    assert 0 <= q ==> Col(q) == q % 3;
    Abs(Row(p) - Row(q)) + Abs(Col(p) - Col(q)) == 1
  }

  /**
   On the grid the neighbour list and the adjacency test agree, in both
   directions, so the two checks that guard a move never disagree for a
   position the board can report.
   */
  lemma ValidMovesIffAdjacent(p: int, e: int)
    requires 0 <= p < Cells && 0 <= e < Cells
    ensures p in ValidMoves(e) <==> Adjacent(p, e)
    ensures Adjacent(p, e) <==> Neighbour(p, e)
  {
    NeighbourIsListed(p, e);
    ValidMovesOnGrid(e);
  }

  lemma NeighbourIsListed(p: int, e: int)
    requires 0 <= e < Cells
    ensures Neighbour(p, e) ==> p in ValidMoves(e)
  {
    var r := ValidMoves(e);
    if Neighbour(p, e) {
      if p == e - 3 {
        assert r[0] == p;
      } else if p == e + 3 {
        assert r[if e / 3 > 0 then 1 else 0] == p;
      } else if p == e - 1 {
        assert r[|r| - (if e % 3 < 2 then 2 else 1)] == p;
      } else {
        assert r[|r| - 1] == p;
      }
    }
  }

  /** Off the grid the adjacency test alone would accept a cell that does not exist. */
  lemma AdjacentOffGrid()
    ensures Adjacent(-3, 0) && -3 !in ValidMoves(0)
    ensures Adjacent(11, 8) && 11 !in ValidMoves(8)
  {
  }

  /** The blank's own cell is never in its neighbour list: clicking it is rejected. */
  lemma BlankNotListed(e: int)
    requires 0 <= e < Cells
    ensures e !in ValidMoves(e)
  {
    ValidMovesOnGrid(e);
  }

  /** Sliding is symmetric: the blank can always slide straight back. */
  lemma ValidMovesSymmetric(p: int, e: int)
    requires 0 <= e < Cells && p in ValidMoves(e)
    ensures 0 <= p < Cells && e in ValidMoves(p)
  {
    ValidMovesAreNeighbours(e);
    assert Neighbour(p, e);
    assert Neighbour(e, p);
    ValidMovesIffAdjacent(e, p);
    ValidMovesIffAdjacent(p, e);
  }

  /** The board with the cells at `i` and `j` exchanged. */
  function Swap(b: seq<Cell>, i: int, j: int): (r: seq<Cell>)
    requires 0 <= i < |b| && 0 <= j < |b|
    ensures |r| == |b| && r[i] == b[j] && r[j] == b[i]
    ensures forall k :: 0 <= k < |b| && k != i && k != j ==> r[k] == b[k]
  {
    b[i := b[j]][j := b[i]]
  }

  /** The exchange written as two updates. */
  lemma SwapIsUpdate(b: seq<Cell>, i: int, j: int)
    requires 0 <= i < |b| && 0 <= j < |b|
    ensures Swap(b, i, j) == b[i := b[j]][j := b[i]]
  {
  }

  /** Exchanging `i` with `j` is exchanging `j` with `i`. */
  lemma SwapSymmetric(b: seq<Cell>, i: int, j: int)
    requires 0 <= i < |b| && 0 <= j < |b|
    ensures Swap(b, i, j) == Swap(b, j, i)
  {
    assert forall k :: 0 <= k < |b| ==> Swap(b, i, j)[k] == Swap(b, j, i)[k];
  }

  /** Every tile is in its home cell (checkWin looks at positions 0 to 7 only). */
  ghost predicate TilesInPlace(b: seq<Cell>)
    requires |b| == Cells
  {
    forall k :: 0 <= k < Tiles ==> b[k] == Tile(k)
  }

  /** Array.prototype.indexOf: the first index of `x`, or -1 when `x` is absent. */
  function IndexOf(s: seq<Cell>, x: Cell): (r: int)
    ensures -1 <= r < |s|
    ensures r == -1 <==> x !in s
    ensures 0 <= r ==> s[r] == x && x !in s[..r]
  {
    if s == [] then -1
    else if s[0] == x then 0
    else
      var k := IndexOf(s[1..], x);
      if k == -1 then -1
      else
        assert s[..k + 1] == [s[0]] + s[1..][..k];
        k + 1
  }

  /** The solved board holds each tile and the blank once. */
  lemma SolvedIsPermutation()
    ensures IsPermutation(Solved())
  {
    var b := Solved();
    forall i, j | 0 <= i < j < |b| ensures b[i] != b[j] {
      assert b[i] == Tile(i);
    }
  }

  /** Exchanging two cells keeps each tile and the blank once. */
  lemma SwapKeepsPermutation(b: seq<Cell>, i: int, j: int)
    requires IsPermutation(b) && 0 <= i < |b| && 0 <= j < |b|
    ensures IsPermutation(Swap(b, i, j))
  {
    var r := Swap(b, i, j);
    forall k, l | 0 <= k < l < |r| ensures r[k] != r[l] {
      var k' := if k == i then j else if k == j then i else k;
      var l' := if l == i then j else if l == j then i else l;
      assert r[k] == b[k'] && r[l] == b[l'] && k' != l';
      if k' > l' {
        assert b[l'] != b[k'];
      }
    }
  }

  /** The blank on such a board is where indexOf finds it, and nowhere else. */
  lemma BlankIsIndexOf(b: seq<Cell>, e: int)
    requires IsPermutation(b)
    requires 0 <= e < |b| && b[e] == Blank
    ensures IndexOf(b, Blank) == e
  {
    var r := IndexOf(b, Blank);
    assert b[r] == b[e];
  }

  /**
   checkWin only looks at positions 0 to 7, but on a board holding each
   tile and the blank once, all eight tiles at home leaves the blank at 8:
   the win test holds exactly of the solved board.
   */
  lemma WinMeansSolved(b: seq<Cell>)
    requires IsPermutation(b)
    ensures TilesInPlace(b) <==> b == Solved()
  {
    if TilesInPlace(b) {
      assert forall k :: 0 <= k < Tiles ==> b[k] != b[Tiles];
      assert b == Solved();
    }
  }

  /** Exchanging any two cells of the solved board gives a board that is not won. */
  lemma OneSwapNotWon(i: int, j: int)
    requires 0 <= i < j < Cells
    ensures !TilesInPlace(Swap(Solved(), i, j))
  {
    var b := Swap(Solved(), i, j);
    assert b[i] == Solved()[j];
    assert Solved()[i] != Solved()[j];
  }
}
