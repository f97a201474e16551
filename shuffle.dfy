/**
 The shuffle: a random walk of the pointer `emptyIndex` over the grid. At
 each step one entry of the neighbour list of the pointer is picked and the
 two cells are exchanged. The random source is replaced by a supplied list
 of picks, each an index into the neighbour list of that step.
 */
module Shuffle {
  import opened Board

  /** Number of steps of one shuffle. */
  const ShuffleSteps := 200

  /** The two globals the walk updates: the board and the pointer `emptyIndex`. */
  datatype Layout = Layout(board: seq<Cell>, emptyIndex: int)

  /**
   Each pick is an index into the neighbour list of the pointer at that step,
   as Math.floor(Math.random() * length) always is.
   */
  ghost predicate PicksFit(e: int, picks: seq<nat>)
    decreases |picks|
  {
    0 <= e < Cells &&
    (picks == [] ||
     (picks[0] < |ValidMoves(e)| && PicksFit(ValidMoves(e)[picks[0]], picks[1..])))
  }

  /** The walk of shuffleBoard over the board and the pointer. */
  function Walk(b: seq<Cell>, e: int, picks: seq<nat>): (r: Layout)
    requires |b| == Cells && PicksFit(e, picks)
    ensures |r.board| == Cells && 0 <= r.emptyIndex < Cells
    decreases |picks|
  {
    if picks == [] then Layout(b, e)
    else
      var m := ValidMoves(e)[picks[0]];
      Walk(Swap(b, m, e), m, picks[1..])
  }

  /** Whatever cell the pointer starts on, every step exchanges two cells: the walk only rearranges the board. */
  lemma {:induction false} WalkPermutes(b: seq<Cell>, e: int, picks: seq<nat>)
    requires |b| == Cells && PicksFit(e, picks)
    ensures multiset(Walk(b, e, picks).board) == multiset(b)
    decreases |picks|
  {
    if picks != [] {
      var m := ValidMoves(e)[picks[0]];
      WalkPermutes(Swap(b, m, e), m, picks[1..]);
    }
  }

  /** A walk over a board holding each tile and the blank once gives such a board again. */
  lemma {:induction false} WalkKeepsPermutation(b: seq<Cell>, e: int, picks: seq<nat>)
    requires IsPermutation(b) && PicksFit(e, picks)
    ensures IsPermutation(Walk(b, e, picks).board)
    decreases |picks|
  {
    if picks != [] {
      var m := ValidMoves(e)[picks[0]];
      ValidMovesAreNeighbours(e);
      SwapKeepsPermutation(b, m, e);
      WalkKeepsPermutation(Swap(b, m, e), m, picks[1..]);
    }
  }

  /** The first step of a walk, taken on its own. */
  lemma WalkStep(b: seq<Cell>, e: int, picks: seq<nat>)
    requires |b| == Cells && PicksFit(e, picks) && picks != []
    ensures 0 <= ValidMoves(e)[picks[0]] < Cells && PicksFit(ValidMoves(e)[picks[0]], picks[1..])
    ensures Walk(b, e, picks) == Walk(Swap(b, ValidMoves(e)[picks[0]], e), ValidMoves(e)[picks[0]], picks[1..])
  {
    ValidMovesAreNeighbours(e);
  }

  /** The first step of a walk that moves the pointer to `m`. */
  lemma WalkStepTo(b: seq<Cell>, e: int, picks: seq<nat>, m: int)
    requires |b| == Cells && PicksFit(e, picks) && picks != []
    requires picks[0] < |ValidMoves(e)| && ValidMoves(e)[picks[0]] == m
    ensures 0 <= m < Cells && PicksFit(m, picks[1..])
    ensures Walk(b, e, picks) == Walk(Swap(b, m, e), m, picks[1..])
  {
    WalkStep(b, e, picks);
  }

  /** The cells the pointer visits after its start, one per pick. */
  function WalkPath(e: int, picks: seq<nat>): (path: seq<int>)
    requires PicksFit(e, picks)
    ensures |path| == |picks|
    ensures forall k :: 0 <= k < |path| ==> 0 <= path[k] < Cells
    decreases |picks|
  {
    if picks == [] then []
    else
      var m := ValidMoves(e)[picks[0]];
      [m] + WalkPath(m, picks[1..])
  }

  /** A walk that starts on the blank keeps the pointer on the blank. */
  lemma {:induction false} WalkFollowsBlank(b: seq<Cell>, e: int, picks: seq<nat>)
    requires |b| == Cells && PicksFit(e, picks) && b[e] == Blank
    ensures Walk(b, e, picks).board[Walk(b, e, picks).emptyIndex] == Blank
    decreases |picks|
  {
    if picks != [] {
      var m := ValidMoves(e)[picks[0]];
      WalkFollowsBlank(Swap(b, m, e), m, picks[1..]);
    }
  }

  /** The picks start with n rounds of [0, 1]: from cell 8 to cell 5 and back. */
  ghost predicate BackAndForth(picks: seq<nat>, n: nat)
  {
    2 * n <= |picks| && forall k :: 0 <= k < 2 * n ==> picks[k] == k % 2
  }

  /** Dropping the first round leaves n - 1 rounds before the same rest. */
  lemma BackAndForthTail(picks: seq<nat>, n: nat)
    requires BackAndForth(picks, n) && n > 0
    ensures picks[0] == 0 && picks[1] == 1
    ensures BackAndForth(picks[2..], n - 1)
    ensures picks[2..][2 * (n - 1)..] == picks[2 * n..]
  {
    var later := picks[2..];
    forall k | 0 <= k < 2 * (n - 1) ensures later[k] == k % 2 {
      assert later[k] == picks[k + 2];
    }
  }

  /** One round [0, 1] from cell 8 is a valid pair of picks ... */
  lemma OneRoundFits(picks: seq<nat>)
    requires |picks| >= 2 && picks[0] == 0 && picks[1] == 1
    requires PicksFit(Cells - 1, picks[2..])
    ensures PicksFit(Cells - 1, picks)
  {
    assert ValidMoves(8) == [5, 7];
    assert ValidMoves(5) == [2, 8, 4];
    assert picks[1..][1..] == picks[2..];
  }

  /** ... that exchanges cells 5 and 8 twice, which undoes itself. */
  lemma OneRoundUndoes(b: seq<Cell>, picks: seq<nat>)
    requires |b| == Cells && |picks| >= 2 && picks[0] == 0 && picks[1] == 1
    requires PicksFit(Cells - 1, picks) && PicksFit(Cells - 1, picks[2..])
    ensures Walk(b, Cells - 1, picks) == Walk(b, Cells - 1, picks[2..])
  {
    assert ValidMoves(8)[0] == 5 && ValidMoves(5)[1] == 8;
    StepAndBack(b, 8, picks, 5);
  }

  /** A step to `m` followed by a step straight back leaves the board as it was. */
  lemma StepAndBack(b: seq<Cell>, e: int, picks: seq<nat>, m: int)
    requires |b| == Cells && |picks| >= 2 && PicksFit(e, picks)
    requires picks[0] < |ValidMoves(e)| && ValidMoves(e)[picks[0]] == m
    requires 0 <= m < Cells && picks[1] < |ValidMoves(m)| && ValidMoves(m)[picks[1]] == e
    ensures PicksFit(e, picks[2..])
    ensures Walk(b, e, picks) == Walk(b, e, picks[2..])
  {
    WalkStepTo(b, e, picks, m);
    var rest := picks[1..];
    WalkStepTo(Swap(b, m, e), m, rest, e);
    assert rest[1..] == picks[2..];
    SwapTwice(b, m, e);
  }

  /** n rounds of [0, 1] from cell 8 are valid picks. */
  lemma {:induction false} BackAndForthFits(picks: seq<nat>, n: nat)
    requires BackAndForth(picks, n) && PicksFit(Cells - 1, picks[2 * n..])
    ensures PicksFit(Cells - 1, picks)
  {
    if n > 0 {
      BackAndForthTail(picks, n);
      BackAndForthFits(picks[2..], n - 1);
      OneRoundFits(picks);
    }
  }

  /**
   From cell 8 the picks [0, 1] move the pointer to 5 and back, exchanging the
   same two cells twice: n such rounds leave any board as it was.
   */
  lemma {:induction false} BackAndForthIsIdentity(b: seq<Cell>, picks: seq<nat>, n: nat)
    requires |b| == Cells && BackAndForth(picks, n) && PicksFit(Cells - 1, picks[2 * n..])
    ensures PicksFit(Cells - 1, picks)
    ensures Walk(b, Cells - 1, picks) == Walk(b, Cells - 1, picks[2 * n..])
  {
    BackAndForthFits(picks, n);
    if n > 0 {
      BackAndForthTail(picks, n);
      BackAndForthFits(picks[2..], n - 1);
      BackAndForthIsIdentity(b, picks[2..], n - 1);
      OneRoundUndoes(b, picks);
    }
  }

  /** The same exchange done twice restores the board. */
  lemma SwapTwice(b: seq<Cell>, i: int, j: int)
    requires 0 <= i < |b| && 0 <= j < |b|
    ensures Swap(Swap(b, i, j), j, i) == b
  {
  }

  /**
   Nothing in the shuffle rules out dealing the solved board: 100 rounds of
   [0, 1] from the blank at 8 is a valid 200-step walk that ends where it began.
   */
  lemma ShuffleCanDealSolved(picks: seq<nat>)
    requires |picks| == ShuffleSteps && forall k :: 0 <= k < |picks| ==> picks[k] == k % 2
    ensures PicksFit(Cells - 1, picks)
    ensures Walk(Solved(), Cells - 1, picks) == Layout(Solved(), Cells - 1)
  {
    BackAndForthIsIdentity(Solved(), picks, 100);
  }
}
