/**
 The game engine: the globals `board`, `emptyIndex`, `moves` and
 `isPlaying` become the fields of one object, and the handlers that update
 them become its methods. Rendering, the timer and the decorations are not
 part of this model. Each call of Math.random() inside a shuffle is
 replaced by the next entry of a supplied list of picks.
 */
module Puzzle {
  import opened Board
  import opened Shuffle
  import opened Solvability

  class Engine {
    /** The nine cells, row by row; empty until the first deal. */
    var board: array<Cell>
    /** Where the engine believes the blank is. */
    var emptyIndex: int
    /** Slides accepted since the last deal. */
    var moves: nat
    /** Whether slides are accepted. */
    var isPlaying: bool
    /** A sequence of slides that solves the board on display, when one is known. */
    ghost var solution: seq<int>

    /**
     The invariant every handler keeps: no slide is accepted before the
     first deal, and once a board is dealt it holds each tile and the blank
     once, with `emptyIndex` on the blank.
     */
    ghost predicate Valid()
      reads this, board
    {
      0 <= emptyIndex < Cells &&
      (board.Length == 0 ==> !isPlaying) &&
      (board.Length != 0 ==> Dealt(board[..], emptyIndex))
    }

    /**
     `solution` is a sequence of legal slides from the board on display to
     the solved board. The corrected deal establishes it and every slide
     keeps it; the deal as written need not.
     */
    ghost predicate Winnable()
      reads this`board, this`emptyIndex, this`solution, board
    {
      Solves(board[..], emptyIndex, solution)
    }

    /** The state when the page loads: no board, the pointer at 8, no game. */
    constructor ()
      ensures Valid()
      ensures board.Length == 0 && emptyIndex == Cells - 1 && moves == 0 && !isPlaying
    {
      board := new Cell[0];
      emptyIndex := Cells - 1;
      moves := 0;
      isPlaying := false;
    }

    /**
     shuffleBoard: 200 times, pick one entry of the neighbour list of the
     pointer, exchange the two cells and move the pointer there. The result
     is the walk over the board and pointer the method starts from, whether
     or not the pointer is on the blank.
     */
    method ShuffleBoard(picks: seq<nat>)
      requires board.Length == Cells && |picks| == ShuffleSteps && PicksFit(emptyIndex, picks)
      modifies this`emptyIndex, board
      ensures Layout(board[..], emptyIndex) == Walk(old(board[..]), old(emptyIndex), picks)
      ensures board == old(board) && moves == old(moves) && isPlaying == old(isPlaying)
      ensures solution == old(solution)
    {
      var i := 0;
      while i < ShuffleSteps
        invariant 0 <= i <= ShuffleSteps
        invariant PicksFit(emptyIndex, picks[i..])
        invariant Walk(board[..], emptyIndex, picks[i..]) == Walk(old(board[..]), old(emptyIndex), picks)
      {
        var validMoves := ValidMoves(emptyIndex);
        var randomMove := validMoves[picks[i]];
        ShuffleStep(board[..], emptyIndex, picks, i);
        board[randomMove], board[emptyIndex] := board[emptyIndex], board[randomMove];
        emptyIndex := randomMove;
        i := i + 1;
      }
      assert picks[i..] == [];
    }

    /** A fresh board holding the tiles 0 to 7 in order and the blank last. */
    method NewBoard()
      modifies this`board
      ensures fresh(board) && board[..] == Solved()
      ensures emptyIndex == old(emptyIndex) && moves == old(moves) && isPlaying == old(isPlaying)
      ensures solution == old(solution)
    {
      board := new Cell[] [Tile(0), Tile(1), Tile(2), Tile(3), Tile(4), Tile(5), Tile(6), Tile(7), Blank];
    }

    /**
     The deal of startNewGame and of the shuffle button as written: a fresh
     solved board, the walk from whatever cell the pointer held, then the
     pointer set to where indexOf finds the blank. What the dealt board
     holds is stated by DealtIsPermutation; it need not be solvable.
     */
    method DealAsWritten(picks: seq<nat>)
      requires 0 <= emptyIndex < Cells && |picks| == ShuffleSteps && PicksFit(emptyIndex, picks)
      modifies this
      ensures fresh(board)
      ensures board[..] == Walk(Solved(), old(emptyIndex), picks).board
      ensures emptyIndex == IndexOf(board[..], Blank)
      ensures moves == old(moves) && isPlaying == old(isPlaying) && solution == old(solution)
      ensures Valid()
    {
      ghost var e := emptyIndex;
      ghost var w := Walk(Solved(), e, picks).board;
      DealtIsPermutation(e, picks);
      NewBoard();
      ShuffleBoard(picks);
      assert board[..] == w;
      emptyIndex := IndexOf(board[..], Blank);
      assert Dealt(w, emptyIndex);
    }

    /**
     The deal with the pointer reset to 8, the blank of the fresh board,
     before the walk: the walk then moves the blank, and the dealt board
     can be solved.
     */
    method Deal(picks: seq<nat>)
      requires |picks| == ShuffleSteps && PicksFit(Cells - 1, picks)
      modifies this
      ensures fresh(board)
      ensures Layout(board[..], emptyIndex) == Walk(Solved(), Cells - 1, picks)
      ensures Valid() && Winnable()
      ensures moves == old(moves) && isPlaying == old(isPlaying)
    {
      emptyIndex := Cells - 1;
      DealAsWritten(picks);
      DealtFacts(picks);
      solution := DealSolution(picks);
    }

    /**
     startNewGame as written: deal from whatever cell `emptyIndex` held,
     clear the move count and accept slides. The board need not be solvable.
     */
    method StartNewGameAsWritten(picks: seq<nat>)
      requires Valid()
      requires |picks| == ShuffleSteps && PicksFit(emptyIndex, picks)
      modifies this
      ensures Valid()
      ensures fresh(board)
      ensures board[..] == Walk(Solved(), old(emptyIndex), picks).board
      ensures emptyIndex == IndexOf(board[..], Blank)
      ensures moves == 0 && isPlaying
    {
      DealAsWritten(picks);
      moves := 0;
      isPlaying := true;
    }

    /** startNewGame with the corrected deal: deal, clear the move count and accept slides. */
    method StartNewGame(picks: seq<nat>)
      requires |picks| == ShuffleSteps && PicksFit(Cells - 1, picks)
      modifies this
      ensures Valid() && Winnable()
      ensures fresh(board)
      ensures Layout(board[..], emptyIndex) == Walk(Solved(), Cells - 1, picks)
      ensures moves == 0 && isPlaying
    {
      Deal(picks);
      moves := 0;
      isPlaying := true;
    }

    /**
     The shuffle button as written: during a game, deal again from the cell
     `emptyIndex` held and clear the move count; otherwise nothing.
     */
    method ShuffleClickedAsWritten(picks: seq<nat>)
      requires Valid()
      requires |picks| == ShuffleSteps && PicksFit(emptyIndex, picks)
      modifies this
      ensures Valid()
      ensures old(isPlaying) ==>
                fresh(board) && board[..] == Walk(Solved(), old(emptyIndex), picks).board &&
                emptyIndex == IndexOf(board[..], Blank) && moves == 0 && isPlaying
      ensures !old(isPlaying) ==> unchanged(this) && board[..] == old(board[..])
    {
      if isPlaying {
        DealAsWritten(picks);
        moves := 0;
      }
    }

    /** The shuffle button with the corrected deal. */
    method ShuffleClicked(picks: seq<nat>)
      requires Valid()
      requires |picks| == ShuffleSteps && PicksFit(Cells - 1, picks)
      modifies this
      ensures Valid()
      ensures old(isPlaying) ==>
                fresh(board) && Layout(board[..], emptyIndex) == Walk(Solved(), Cells - 1, picks) &&
                moves == 0 && isPlaying && Winnable()
      ensures !old(isPlaying) ==> unchanged(this) && board[..] == old(board[..])
    {
      if isPlaying {
        Deal(picks);
        moves := 0;
      }
    }

    /**
     checkWin: true exactly when the cells 0 to 7 hold the tiles 0 to 7.
     A cell past the end of the board reads as undefined, which is no tile.
     */
    method CheckWin() returns (won: bool)
      ensures won <==> board.Length >= Tiles && forall k :: 0 <= k < Tiles ==> board[k] == Tile(k)
    {
      for i := 0 to Tiles
        invariant i <= board.Length
        invariant forall k :: 0 <= k < i ==> board[k] == Tile(k)
      {
        if i >= board.Length || board[i] != Tile(i) {
          return false;
        }
      }
      return true;
    }

    /** endGame: stop accepting slides. */
    method EndGame()
      requires Valid()
      modifies this`isPlaying
      ensures Valid() && !isPlaying
    {
      isPlaying := false;
    }

    /**
     moveTile: during a game, a cell from the neighbour list of the blank
     that is also adjacent to it slides into the blank and counts as a
     move; the game ends when that leaves the solved board. Every other
     click changes nothing.
     */
    method MoveTile(position: int)
      requires Valid()
      modifies this, board
      ensures Valid()
      ensures board == old(board)
      ensures old(isPlaying) && position in ValidMoves(old(emptyIndex)) ==>
                0 <= position < Cells &&
                board[..] == Swap(old(board[..]), position, old(emptyIndex)) &&
                emptyIndex == position && moves == old(moves) + 1 &&
                isPlaying == (board[..] != Solved())
      ensures !(old(isPlaying) && position in ValidMoves(old(emptyIndex))) ==>
                unchanged(this) && board[..] == old(board[..])
      ensures old(Winnable()) ==> Winnable()
    {
      if !isPlaying {
        return;
      }
      var validMoves := ValidMoves(emptyIndex);
      AdjacencyIsRedundant(position, emptyIndex);
      if position in validMoves && Adjacent(position, emptyIndex) {
        AcceptSlide(position);
      }
    }

    /** The accepted click of moveTile: the slide, then the win test. */
    method AcceptSlide(position: int)
      requires Valid() && isPlaying && position in ValidMoves(emptyIndex)
      modifies this, board
      ensures Valid() && board == old(board)
      ensures 0 <= position < Cells && board[..] == Swap(old(board[..]), position, old(emptyIndex))
      ensures emptyIndex == position && moves == old(moves) + 1
      ensures isPlaying == (board[..] != Solved())
      ensures old(Winnable()) ==> Winnable()
    {
      Slide(position);
      EndIfWon();
    }

    /** The last step of an accepted slide: the game ends when the board is solved. */
    method EndIfWon()
      requires Valid() && isPlaying
      modifies this`isPlaying
      ensures Valid()
      ensures isPlaying == (board[..] != Solved())
      ensures Winnable() == old(Winnable())
    {
      var won := CheckWin();
      assert won <==> TilesInPlace(board[..]);
      WinMeansSolved(board[..]);
      if won {
        EndGame();
      }
    }

    /** The accepted slide of moveTile: exchange the two cells, move the pointer, count the move. */
    method Slide(position: int)
      requires Valid() && isPlaying && position in ValidMoves(emptyIndex)
      modifies this, board
      ensures Valid() && board == old(board) && isPlaying
      ensures 0 <= position < Cells && board[..] == Swap(old(board[..]), position, old(emptyIndex))
      ensures emptyIndex == position && moves == old(moves) + 1
      ensures old(Winnable()) ==> Winnable()
    {
      var e := emptyIndex;
      ghost var b := board[..];
      SlideFacts(b, e, position);
      if Solves(b, e, solution) {
        SlideKeepsSolvable(b, e, position, solution);
      }
      board[position], board[e] := board[e], board[position];
      assert board[..] == Swap(b, position, e);
      emptyIndex := position;
      moves := moves + 1;
      solution := [e] + solution;
    }

    /** backToMenu: stop accepting slides; the board stays as it is. */
    method BackToMenu()
      requires Valid()
      modifies this`isPlaying
      ensures Valid() && !isPlaying
    {
      isPlaying := false;
    }
  }

  /** A dealt board holds each tile and the blank once, and the blank is at `e`. */
  ghost predicate Dealt(b: seq<Cell>, e: int)
  {
    IsPermutation(b) && 0 <= e < Cells && b[e] == Blank
  }

  /** A board whose known solution the engine has kept can be solved. */
  lemma WinnableIsSolvable(g: Engine)
    requires g.Winnable()
    ensures Solvable(g.board[..], g.emptyIndex)
  {
    assert Solves(g.board[..], g.emptyIndex, g.solution);
  }

  /** Within the neighbour list, the adjacency test of moveTile always holds. */
  lemma AdjacencyIsRedundant(p: int, e: int)
    requires 0 <= e < Cells
    ensures p in ValidMoves(e) && Adjacent(p, e) <==> p in ValidMoves(e)
  {
    if p in ValidMoves(e) {
      ValidMovesSymmetric(p, e);
      ValidMovesIffAdjacent(p, e);
    }
  }

  /**
   One accepted slide, on any dealt board, keeps each tile and the blank
   once and leaves the blank where the tile was.
   */
  lemma SlideFacts(b: seq<Cell>, e: int, p: int)
    requires Dealt(b, e) && p in ValidMoves(e)
    ensures 0 <= p < Cells && p != e
    ensures Dealt(Swap(b, p, e), p)
  {
    ValidMovesAreNeighbours(e);
    SwapKeepsPermutation(b, p, e);
  }

  /**
   Any walk over the solved board deals each tile and the blank once, so
   indexOf finds the blank, even when the walk started off the blank.
   */
  lemma DealtIsPermutation(e: int, picks: seq<nat>)
    requires PicksFit(e, picks)
    ensures var w := Walk(Solved(), e, picks);
      Dealt(w.board, IndexOf(w.board, Blank))
  {
    SolvedIsPermutation();
    WalkKeepsPermutation(Solved(), e, picks);
    WalkPermutes(Solved(), e, picks);
    assert Blank in multiset(Solved());
    var w := Walk(Solved(), e, picks).board;
    assert Blank in multiset(w);
    BlankFound(w);
  }

  /** On a board holding each tile and the blank once, indexOf finds the blank. */
  lemma BlankFound(b: seq<Cell>)
    requires IsPermutation(b) && Blank in b
    ensures Dealt(b, IndexOf(b, Blank))
  {
  }

  /** The corrected deal leaves the blank where the pointer is, and the walk taken back solves it. */
  lemma DealtFacts(picks: seq<nat>)
    requires PicksFit(Cells - 1, picks)
    ensures var w := Walk(Solved(), Cells - 1, picks);
      IndexOf(w.board, Blank) == w.emptyIndex && Dealt(w.board, w.emptyIndex) &&
      Solves(w.board, w.emptyIndex, DealSolution(picks))
  {
    DealtIsPermutation(Cells - 1, picks);
    DealIsSolvable(picks);
    var w := Walk(Solved(), Cells - 1, picks);
    BlankIsIndexOf(w.board, w.emptyIndex);
  }

  /** One pass of the shuffle loop, with the exchange written as the two array updates. */
  lemma ShuffleStep(b: seq<Cell>, e: int, picks: seq<nat>, i: int)
    requires |b| == Cells && 0 <= i < |picks| && PicksFit(e, picks[i..])
    ensures 0 <= e < Cells && picks[i] < |ValidMoves(e)|
    ensures var m := ValidMoves(e)[picks[i]];
      0 <= m < Cells && PicksFit(m, picks[i + 1..]) &&
      Walk(b, e, picks[i..]) == Walk(b[m := b[e]][e := b[m]], m, picks[i + 1..])
  {
    assert picks[i..][1..] == picks[i + 1..];
    WalkStep(b, e, picks[i..]);
  }
}
