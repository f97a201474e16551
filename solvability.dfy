/**
 What a player can reach by sliding tiles. A legal path is a list of cells,
 each a neighbour of the blank at that moment, into which the blank moves.
 Every board reached from the solved board can be led back to it; every
 legal slide keeps the parity of the number of inversions among the tiles
 read row by row, so a board with an odd count cannot be solved.
 */
module Solvability {
  import opened Board
  import opened Shuffle

  /** `path` is a sequence of legal slides starting with the blank at `e`. */
  ghost predicate LegalPath(b: seq<Cell>, e: int, path: seq<int>)
    decreases |path|
  {
    |b| == Cells && 0 <= e < Cells && b[e] == Blank &&
    (path == [] ||
     (0 <= path[0] < Cells && path[0] in ValidMoves(e) &&
      LegalPath(Swap(b, path[0], e), path[0], path[1..])))
  }

  /** The board and blank position after the slides of a legal path. */
  function Follow(b: seq<Cell>, e: int, path: seq<int>): (r: Layout)
    requires LegalPath(b, e, path)
    ensures |r.board| == Cells && 0 <= r.emptyIndex < Cells && r.board[r.emptyIndex] == Blank
    decreases |path|
  {
    if path == [] then Layout(b, e)
    else Follow(Swap(b, path[0], e), path[0], path[1..])
  }

  /** `path` is a sequence of legal slides from this board to the solved one. */
  ghost predicate Solves(b: seq<Cell>, e: int, path: seq<int>)
    decreases |path|
  {
    |b| == Cells && 0 <= e < Cells && b[e] == Blank &&
    if path == [] then b == Solved()
    else 0 <= path[0] < Cells && path[0] in ValidMoves(e) && Solves(Swap(b, path[0], e), path[0], path[1..])
  }

  /** Some legal path leads from this board to the solved one. */
  ghost predicate Solvable(b: seq<Cell>, e: int)
  {
    exists path :: Solves(b, e, path)
  }

  /** A path solves a board exactly when it is legal and ends on the solved board. */
  lemma {:induction false} SolvesIsFollow(b: seq<Cell>, e: int, path: seq<int>)
    ensures Solves(b, e, path) <==> LegalPath(b, e, path) && Follow(b, e, path).board == Solved()
    decreases |path|
  {
    if path != [] && |b| == Cells && 0 <= e < Cells && b[e] == Blank &&
       0 <= path[0] < Cells && path[0] in ValidMoves(e) {
      SolvesIsFollow(Swap(b, path[0], e), path[0], path[1..]);
    }
  }

  /**
   A shuffle whose pointer starts on the blank is a legal path: its result
   is reachable from the board it started from by sliding tiles.
   */
  lemma {:induction false} WalkIsLegal(b: seq<Cell>, e: int, picks: seq<nat>)
    requires |b| == Cells && PicksFit(e, picks) && b[e] == Blank
    ensures LegalPath(b, e, WalkPath(e, picks))
    ensures Follow(b, e, WalkPath(e, picks)) == Walk(b, e, picks)
    decreases |picks|
  {
    if picks != [] {
      var m := ValidMoves(e)[picks[0]];
      ValidMovesAreNeighbours(e);
      WalkIsLegal(Swap(b, m, e), m, picks[1..]);
      assert WalkPath(e, picks)[1..] == WalkPath(m, picks[1..]);
    }
  }

  /** A single legal slide is a legal path. */
  lemma OneSlide(b: seq<Cell>, e: int, p: int)
    requires |b| == Cells && 0 <= e < Cells && b[e] == Blank && p in ValidMoves(e)
    ensures 0 <= p < Cells
    ensures LegalPath(b, e, [p])
    ensures Follow(b, e, [p]) == Layout(Swap(b, p, e), p)
  {
    ValidMovesAreNeighbours(e);
    assert [p][1..] == [];
    assert LegalPath(Swap(b, p, e), p, []);
  }

  /** A legal slide followed by a legal path from the new blank is a legal path. */
  lemma LegalPathCons(b: seq<Cell>, e: int, q: int, rest: seq<int>)
    requires |b| == Cells && 0 <= e < Cells && b[e] == Blank
    requires 0 <= q < Cells && q in ValidMoves(e)
    requires LegalPath(Swap(b, q, e), q, rest)
    ensures LegalPath(b, e, [q] + rest)
    ensures Follow(b, e, [q] + rest) == Follow(Swap(b, q, e), q, rest)
  {
    assert ([q] + rest)[0] == q && ([q] + rest)[1..] == rest;
  }

  lemma SnocSplits(path: seq<int>, p: int)
    ensures path != [] ==> path + [p] == [path[0]] + (path[1..] + [p])
  {
    if path != [] {
      assert path + [p] == [path[0]] + (path[1..] + [p]);
    }
  }

  /** A legal path followed by one more legal slide is a legal path. */
  lemma {:induction false} LegalPathSnoc(b: seq<Cell>, e: int, path: seq<int>, p: int)
    requires LegalPath(b, e, path)
    requires p in ValidMoves(Follow(b, e, path).emptyIndex)
    ensures LegalPath(b, e, path + [p])
    ensures Follow(b, e, path + [p]) ==
            Layout(Swap(Follow(b, e, path).board, p, Follow(b, e, path).emptyIndex), p)
    decreases |path|
  {
    if path == [] {
      assert path + [p] == [p];
      OneSlide(b, e, p);
    } else {
      var q := path[0];
      var b1 := Swap(b, q, e);
      LegalPathSnoc(b1, q, path[1..], p);
      SnocSplits(path, p);
      LegalPathCons(b, e, q, path[1..] + [p]);
    }
  }

  /** The slides of a path, undone in reverse order. */
  function Back(e: int, path: seq<int>): (r: seq<int>)
    ensures |r| == |path|
    decreases |path|
  {
    if path == [] then [] else Back(path[0], path[1..]) + [e]
  }

  /** Every legal path can be walked back: its reverse leads to the start again. */
  lemma {:induction false} ReturnPath(b: seq<Cell>, e: int, path: seq<int>)
    requires LegalPath(b, e, path)
    ensures LegalPath(Follow(b, e, path).board, Follow(b, e, path).emptyIndex, Back(e, path))
    ensures Follow(Follow(b, e, path).board, Follow(b, e, path).emptyIndex, Back(e, path)) == Layout(b, e)
    decreases |path|
  {
    if path != [] {
      var p := path[0];
      var b1 := Swap(b, p, e);
      ReturnPath(b1, p, path[1..]);
      var end := Follow(b, e, path);
      assert end == Follow(b1, p, path[1..]);
      ValidMovesSymmetric(p, e);
      LegalPathSnoc(end.board, end.emptyIndex, Back(p, path[1..]), e);
      assert Swap(b1, e, p) == b;
    }
  }

  /** Every board reached from the solved board by slides is solved by walking the slides back. */
  lemma ReachableIsSolvable(path: seq<int>)
    requires LegalPath(Solved(), Cells - 1, path)
    ensures Solves(Follow(Solved(), Cells - 1, path).board, Follow(Solved(), Cells - 1, path).emptyIndex,
                   Back(Cells - 1, path))
  {
    ReturnPath(Solved(), Cells - 1, path);
    var end := Follow(Solved(), Cells - 1, path);
    SolvesIsFollow(end.board, end.emptyIndex, Back(Cells - 1, path));
  }

  /** A slide keeps a board solvable: slide back, then follow the old solution. */
  lemma SlideKeepsSolvable(b: seq<Cell>, e: int, p: int, path: seq<int>)
    requires |b| == Cells && 0 <= e < Cells && b[e] == Blank && p in ValidMoves(e)
    requires Solves(b, e, path)
    ensures 0 <= p < Cells
    ensures Solves(Swap(b, p, e), p, [e] + path)
  {
    ValidMovesSymmetric(p, e);
    ValidMovesAreNeighbours(e);
    SwapTwice(b, p, e);
    assert ([e] + path)[1..] == path;
  }

  /** The solution of a deal whose walk starts on the blank: the walk, taken back. */
  function DealSolution(picks: seq<nat>): (path: seq<int>)
    requires PicksFit(Cells - 1, picks)
    ensures |path| == |picks|
  {
    Back(Cells - 1, WalkPath(Cells - 1, picks))
  }

  /** A deal whose walk starts on the blank of the solved board is always solvable. */
  lemma DealIsSolvable(picks: seq<nat>)
    requires PicksFit(Cells - 1, picks)
    ensures Walk(Solved(), Cells - 1, picks).board[Walk(Solved(), Cells - 1, picks).emptyIndex] == Blank
    ensures Solves(Walk(Solved(), Cells - 1, picks).board, Walk(Solved(), Cells - 1, picks).emptyIndex,
                   DealSolution(picks))
  {
    WalkIsLegal(Solved(), Cells - 1, picks);
    ReachableIsSolvable(WalkPath(Cells - 1, picks));
  }

  // ---------------------------------------------------------------------------
  // The parity invariant

  /** The tile numbers read row by row, the blank skipped. */
  function TilesOf(b: seq<Cell>): (r: seq<int>)
    ensures |r| <= |b|
  {
    if b == [] then []
    else if b[0] == Blank then TilesOf(b[1..])
    else [b[0].id] + TilesOf(b[1..])
  }

  lemma {:induction false} TilesOfConcat(a: seq<Cell>, c: seq<Cell>)
    ensures TilesOf(a + c) == TilesOf(a) + TilesOf(c)
    decreases |a|
  {
    if a != [] {
      TilesOfConcat(a[1..], c);
      assert (a + c)[1..] == a[1..] + c;
    } else {
      assert a + c == c;
    }
  }

  /** How many entries of `t` are smaller than `x`. */
  function Below(x: int, t: seq<int>): (r: nat)
    ensures r <= |t|
  {
    if t == [] then 0 else (if t[0] < x then 1 else 0) + Below(x, t[1..])
  }

  /** The number of pairs out of order. */
  function Inversions(s: seq<int>): nat
  {
    if s == [] then 0 else Below(s[0], s[1..]) + Inversions(s[1..])
  }

  lemma {:induction false} BelowConcat(x: int, t: seq<int>, u: seq<int>)
    ensures Below(x, t + u) == Below(x, t) + Below(x, u)
    decreases |t|
  {
    if t != [] {
      BelowConcat(x, t[1..], u);
      assert (t + u)[1..] == t[1..] + u;
    } else {
      assert t + u == u;
    }
  }

  /** Below counts entries, so it does not depend on their order. */
  lemma BelowRotate(x: int, a: int, b: int, c: int)
    ensures Below(x, [a, b, c]) == Below(x, [b, c, a])
  {
    BelowConcat(x, [a], [b, c]);
    BelowConcat(x, [b], [c]);
    BelowConcat(x, [b, c], [a]);
    assert [a] + [b, c] == [a, b, c] && [b] + [c] == [b, c] && [b, c] + [a] == [b, c, a];
    assert [a][1..] == [] && [b][1..] == [] && [c][1..] == [];
  }

  lemma InversionsCons(x: int, t: seq<int>)
    ensures Inversions([x] + t) == Below(x, t) + Inversions(t)
  {
    assert ([x] + t)[0] == x && ([x] + t)[1..] == t;
  }

  lemma BelowOne(x: int, y: int)
    ensures Below(x, [y]) == if y < x then 1 else 0
  {
    assert [y][1..] == [];
  }

  /** The inversions of a sequence that starts with three given entries. */
  lemma InversionsThree(a: int, b: int, c: int, post: seq<int>)
    ensures Inversions([a, b, c] + post) ==
            Below(a, [b]) + Below(a, [c]) + Below(b, [c]) +
            Below(a, post) + Below(b, post) + Below(c, post) + Inversions(post)
  {
    assert [a, b, c] + post == [a] + ([b] + ([c] + post));
    InversionsCons(c, post);
    InversionsCons(b, [c] + post);
    InversionsCons(a, [b] + ([c] + post));
    BelowConcat(a, [b], [c] + post);
    BelowConcat(a, [c], post);
    BelowConcat(b, [c], post);
  }

  /** Rotating three leading entries keeps the parity when the first differs from the others. */
  lemma RotateFront(a: int, b: int, c: int, post: seq<int>)
    requires a != b && a != c
    ensures Inversions([a, b, c] + post) % 2 == Inversions([b, c, a] + post) % 2
  {
    InversionsThree(a, b, c, post);
    InversionsThree(b, c, a, post);
    BelowOne(a, b);
    BelowOne(a, c);
    BelowOne(b, a);
    BelowOne(c, a);
  }

  /**
   Moving one entry two places to the right changes the inversion count by
   -2, 0 or 2 when it differs from the two entries it passes.
   */
  lemma {:induction false} RotateKeepsParity(pre: seq<int>, a: int, b: int, c: int, post: seq<int>)
    requires a != b && a != c
    ensures Inversions(pre + [a, b, c] + post) % 2 == Inversions(pre + [b, c, a] + post) % 2
    decreases |pre|
  {
    if pre == [] {
      assert pre + [a, b, c] + post == [a, b, c] + post;
      assert pre + [b, c, a] + post == [b, c, a] + post;
      RotateFront(a, b, c, post);
    } else {
      RotateKeepsParity(pre[1..], a, b, c, post);
      RotateBehind(pre, a, b, c, post);
    }
  }

  /** An entry in front of the rotated three sees the same entries below it. */
  lemma RotateBehind(pre: seq<int>, a: int, b: int, c: int, post: seq<int>)
    requires pre != []
    ensures Inversions(pre + [a, b, c] + post) - Inversions(pre[1..] + [a, b, c] + post) ==
            Inversions(pre + [b, c, a] + post) - Inversions(pre[1..] + [b, c, a] + post)
  {
    var x := pre[0];
    var s, s' := pre + [a, b, c] + post, pre + [b, c, a] + post;
    assert s[0] == x && s[1..] == pre[1..] + [a, b, c] + post;
    assert s'[0] == x && s'[1..] == pre[1..] + [b, c, a] + post;
    BelowConcat(x, pre[1..] + [a, b, c], post);
    BelowConcat(x, pre[1..], [a, b, c]);
    BelowConcat(x, pre[1..] + [b, c, a], post);
    BelowConcat(x, pre[1..], [b, c, a]);
    BelowRotate(x, a, b, c);
  }

  /** A board split around the four cells from `lo` to `lo + 3`. */
  lemma Window4(b: seq<Cell>, lo: int)
    requires 0 <= lo && lo + 4 <= |b|
    ensures b == b[..lo] + [b[lo], b[lo + 1], b[lo + 2], b[lo + 3]] + b[lo + 4..]
  {
    assert b[lo..lo + 4] == [b[lo], b[lo + 1], b[lo + 2], b[lo + 3]];
    assert b == b[..lo] + b[lo..lo + 4] + b[lo + 4..];
  }

  /** Exchanging the ends of the four cells from `lo` leaves the rest of the board in place. */
  lemma SwapWindow4(b: seq<Cell>, lo: int)
    requires 0 <= lo && lo + 4 <= |b|
    ensures Swap(b, lo, lo + 3) == b[..lo] + [b[lo + 3], b[lo + 1], b[lo + 2], b[lo]] + b[lo + 4..]
  {
    var s := Swap(b, lo, lo + 3);
    Window4(s, lo);
    assert s[..lo] == b[..lo];
    assert s[lo + 4..] == b[lo + 4..];
  }

  /** A board split around the two cells `lo` and `lo + 1`. */
  lemma Window2(b: seq<Cell>, lo: int)
    requires 0 <= lo && lo + 2 <= |b|
    ensures b == b[..lo] + [b[lo], b[lo + 1]] + b[lo + 2..]
  {
    assert b[lo..lo + 2] == [b[lo], b[lo + 1]];
    assert b == b[..lo] + b[lo..lo + 2] + b[lo + 2..];
  }

  /** Exchanging two neighbouring cells leaves the rest of the board in place. */
  lemma SwapWindow2(b: seq<Cell>, lo: int)
    requires 0 <= lo && lo + 2 <= |b|
    ensures Swap(b, lo, lo + 1) == b[..lo] + [b[lo + 1], b[lo]] + b[lo + 2..]
  {
    var s := Swap(b, lo, lo + 1);
    Window2(s, lo);
    assert s[..lo] == b[..lo];
    assert s[lo + 2..] == b[lo + 2..];
  }

  /** The tiles of four cells with the blank at one end. */
  lemma TilesOfFour(x: Cell, y: Cell, t: Cell)
    requires x != Blank && y != Blank && t != Blank
    ensures TilesOf([Blank, x, y, t]) == [x.id, y.id, t.id]
    ensures TilesOf([t, x, y, Blank]) == [t.id, x.id, y.id]
  {
    assert [t][1..] == [] && [Blank][1..] == [];
    assert TilesOf([t]) == [t.id];
    assert [y, t][1..] == [t];
    assert TilesOf([y, t]) == [y.id, t.id];
    assert [x, y, t][1..] == [y, t];
    assert TilesOf([x, y, t]) == [x.id, y.id, t.id];
    assert [Blank, x, y, t][1..] == [x, y, t];
    assert TilesOf([Blank]) == [];
    assert [y, Blank][1..] == [Blank];
    assert TilesOf([y, Blank]) == [y.id];
    assert [x, y, Blank][1..] == [y, Blank];
    assert TilesOf([x, y, Blank]) == [x.id, y.id];
    assert [t, x, y, Blank][1..] == [x, y, Blank];
  }

  /** The tiles of two cells, one of them blank. */
  lemma TilesOfTwo(t: Cell)
    ensures TilesOf([Blank, t]) == TilesOf([t, Blank])
  {
    assert [Blank, t][1..] == [t] && [t, Blank][1..] == [Blank];
    assert [t][1..] == [] && [Blank][1..] == [];
  }

  /** The tiles of a board cut in three pieces. */
  lemma TilesOfThree(pre: seq<Cell>, mid: seq<Cell>, post: seq<Cell>)
    ensures TilesOf(pre + mid + post) == TilesOf(pre) + TilesOf(mid) + TilesOf(post)
  {
    TilesOfConcat(pre + mid, post);
    TilesOfConcat(pre, mid);
  }

  /** One vertical slide keeps the parity of the tile inversions. */
  lemma VerticalSlideKeepsParity(b: seq<Cell>, lo: int)
    requires IsPermutation(b) && 0 <= lo && lo + 3 < Cells
    requires b[lo] == Blank || b[lo + 3] == Blank
    ensures Swap(b, lo + 3, lo) == Swap(b, lo, lo + 3)
    ensures Inversions(TilesOf(Swap(b, lo, lo + 3))) % 2 == Inversions(TilesOf(b)) % 2
  {
    var hi := lo + 3;
    assert b[lo] != b[lo + 1] && b[lo] != b[lo + 2] && b[lo + 1] != b[hi] && b[lo + 2] != b[hi];
    Window4(b, lo);
    SwapWindow4(b, lo);
    SwapSymmetric(b, lo, hi);
    var pre, x, y, post := b[..lo], b[lo + 1], b[lo + 2], b[lo + 4..];
    var t := if b[lo] == Blank then b[hi] else b[lo];
    TilesOfFour(x, y, t);
    TilesOfThree(pre, [Blank, x, y, t], post);
    TilesOfThree(pre, [t, x, y, Blank], post);
    RotateKeepsParity(TilesOf(pre), t.id, x.id, y.id, TilesOf(post));
  }

  /** One horizontal slide does not change the tiles read in order. */
  lemma HorizontalSlideKeepsTiles(b: seq<Cell>, lo: int)
    requires |b| == Cells && 0 <= lo && lo + 1 < Cells
    requires b[lo] == Blank || b[lo + 1] == Blank
    ensures Swap(b, lo + 1, lo) == Swap(b, lo, lo + 1)
    ensures TilesOf(Swap(b, lo, lo + 1)) == TilesOf(b)
  {
    Window2(b, lo);
    SwapWindow2(b, lo);
    SwapSymmetric(b, lo, lo + 1);
    var t := if b[lo] == Blank then b[lo + 1] else b[lo];
    TilesOfTwo(t);
    TilesOfThree(b[..lo], [Blank, t], b[lo + 2..]);
    TilesOfThree(b[..lo], [t, Blank], b[lo + 2..]);
  }

  /** A slide moves the blank one cell sideways or one row up or down. */
  lemma SlideOffsets(e: int, p: int)
    requires 0 <= e < Cells && p in ValidMoves(e)
    ensures p == e - 1 || p == e + 1 || p == e - 3 || p == e + 3
  {
  }

  /** One legal slide keeps the parity of the tile inversions. */
  lemma SlideKeepsParity(b: seq<Cell>, e: int, p: int)
    requires IsPermutation(b) && 0 <= e < Cells && b[e] == Blank
    requires p in ValidMoves(e)
    ensures 0 <= p < Cells
    ensures Inversions(TilesOf(Swap(b, p, e))) % 2 == Inversions(TilesOf(b)) % 2
  {
    ValidMovesSymmetric(p, e);
    SlideOffsets(e, p);
    OffsetKeepsParity(b, e, p);
  }

  lemma OffsetKeepsParity(b: seq<Cell>, e: int, p: int)
    requires IsPermutation(b) && 0 <= e < Cells && 0 <= p < Cells && b[e] == Blank
    requires p == e - 1 || p == e + 1 || p == e - 3 || p == e + 3
    ensures Inversions(TilesOf(Swap(b, p, e))) % 2 == Inversions(TilesOf(b)) % 2
  {
    if p == e - 1 {
      HorizontalSlideKeepsTiles(b, p);
    } else if p == e + 1 {
      HorizontalSlideKeepsTiles(b, e);
    } else if p == e - 3 {
      VerticalSlideKeepsParity(b, p);
    } else {
      VerticalSlideKeepsParity(b, e);
    }
  }

  /** A legal path keeps the parity of the tile inversions. */
  lemma {:induction false} PathKeepsParity(b: seq<Cell>, e: int, path: seq<int>)
    requires IsPermutation(b) && LegalPath(b, e, path)
    ensures Inversions(TilesOf(Follow(b, e, path).board)) % 2 == Inversions(TilesOf(b)) % 2
    decreases |path|
  {
    if path != [] {
      SlideKeepsParity(b, e, path[0]);
      PathKeepsParity(Swap(b, path[0], e), path[0], path[1..]);
    }
  }

  /** No entry of `t` is smaller than `x`. */
  lemma {:induction false} BelowNone(x: int, t: seq<int>)
    requires forall k :: 0 <= k < |t| ==> x < t[k]
    ensures Below(x, t) == 0
  {
    if t != [] {
      BelowNone(x, t[1..]);
    }
  }

  /** A strictly increasing sequence has no inversions. */
  lemma {:induction false} IncreasingNoInversions(s: seq<int>)
    requires forall i, j :: 0 <= i < j < |s| ==> s[i] < s[j]
    ensures Inversions(s) == 0
  {
    if s != [] {
      BelowNone(s[0], s[1..]);
      IncreasingNoInversions(s[1..]);
    }
  }

  /** On a board without a blank, the tiles are read off one per cell. */
  lemma {:induction false} TilesOfNoBlank(b: seq<Cell>)
    requires forall k :: 0 <= k < |b| ==> b[k] != Blank
    ensures |TilesOf(b)| == |b|
    ensures forall k :: 0 <= k < |b| ==> TilesOf(b)[k] == b[k].id
  {
    if b != [] {
      TilesOfNoBlank(b[1..]);
    }
  }

  /** The solved board has no inversions. */
  lemma SolvedHasNoInversions()
    ensures Inversions(TilesOf(Solved())) == 0
  {
    var b := Solved();
    assert b == b[..Tiles] + [Blank];
    TilesOfConcat(b[..Tiles], [Blank]);
    assert TilesOf([Blank]) == [];
    TilesOfNoBlank(b[..Tiles]);
    IncreasingNoInversions(TilesOf(b));
  }

  /** A board with an odd number of tile inversions can never be solved. */
  lemma SolvableNeedsEvenInversions(b: seq<Cell>, e: int)
    requires IsPermutation(b)
    ensures Solvable(b, e) ==> Inversions(TilesOf(b)) % 2 == 0
  {
    if Solvable(b, e) {
      var path :| Solves(b, e, path);
      SolvesIsFollow(b, e, path);
      PathKeepsParity(b, e, path);
      SolvedHasNoInversions();
    }
  }

  // ---------------------------------------------------------------------------
  // A deal whose walk starts on a stale pointer

  /** Entries in increasing order, all below what follows, add no inversions. */
  lemma {:induction false} IncreasingPrefix(pre: seq<int>, post: seq<int>)
    requires forall i, j :: 0 <= i < j < |pre| ==> pre[i] < pre[j]
    requires forall i, j :: 0 <= i < |pre| && 0 <= j < |post| ==> pre[i] < post[j]
    ensures Inversions(pre + post) == Inversions(post)
  {
    if pre != [] {
      IncreasingPrefix(pre[1..], post);
      assert pre + post == [pre[0]] + (pre[1..] + post);
      InversionsCons(pre[0], pre[1..] + post);
      BelowNone(pre[0], pre[1..] + post);
    } else {
      assert pre + post == post;
    }
  }

  /** The board left by the stale-pointer walk below: tiles 7 and 5 exchanged, the blank at 7. */
  function StaleBoard(): (b: seq<Cell>)
    ensures |b| == Cells && b[7] == Blank
  {
    [Tile(0), Tile(1), Tile(2), Tile(3), Tile(4), Tile(7), Tile(6), Blank, Tile(5)]
  }

  lemma StaleBoardTiles()
    ensures TilesOf(StaleBoard()) == [0, 1, 2, 3, 4] + ([7, 6, 5] + [])
  {
    var front := [Tile(0), Tile(1), Tile(2), Tile(3), Tile(4), Tile(7), Tile(6)];
    assert StaleBoard() == front + [Blank] + [Tile(5)];
    TilesOfThree(front, [Blank], [Tile(5)]);
    assert TilesOf([Blank]) == [];
    StaleFrontTiles();
    TilesOfNoBlank([Tile(5)]);
  }

  lemma StaleFrontTiles()
    ensures TilesOf([Tile(0), Tile(1), Tile(2), Tile(3), Tile(4), Tile(7), Tile(6)]) == [0, 1, 2, 3, 4, 7, 6]
  {
    var front := [Tile(0), Tile(1), Tile(2), Tile(3), Tile(4), Tile(7), Tile(6)];
    TilesOfNoBlank(front);
    var t := TilesOf(front);
    assert t[0] == 0 && t[1] == 1 && t[2] == 2 && t[3] == 3 && t[4] == 4 && t[5] == 7 && t[6] == 6;
  }

  /** Read row by row, that board has three tile inversions: 7 > 6, 7 > 5 and 6 > 5. */
  lemma StaleBoardIsOdd()
    ensures Inversions(TilesOf(StaleBoard())) == 3
  {
    StaleBoardTiles();
    IncreasingPrefix([0, 1, 2, 3, 4], [7, 6, 5] + []);
    InversionsThree(7, 6, 5, []);
    BelowOne(7, 6);
    BelowOne(7, 5);
    BelowOne(6, 5);
  }

  /** From the pointer at 8, 99 rounds of [0, 1] and one more 0 exchange cells 5 and 8 once. */
  lemma StaleTail(b: seq<Cell>, rest: seq<nat>)
    requires |b| == Cells && |rest| == 2 * 99 + 1
    requires forall k :: 0 <= k < |rest| ==> rest[k] == k % 2
    ensures PicksFit(Cells - 1, rest)
    ensures Walk(b, Cells - 1, rest) == Layout(Swap(b, 5, 8), 5)
  {
    assert rest[2 * 99..] == [0];
    assert ValidMoves(Cells - 1) == [5, 7];
    assert [0][1..] == [];
    assert PicksFit(5, []);
    assert PicksFit(Cells - 1, [0]);
    BackAndForthIsIdentity(b, rest, 99);
  }

  /**
   When the pointer still holds 7 from the last game while the board is
   rebuilt solved, the walk moves tile 7 instead of the blank: the picks 2,
   then 99 rounds of [0, 1], then 0 are a valid 200-step walk that leaves
   the stale board.
   */
  lemma StaleWalk(picks: seq<nat>)
    requires |picks| == ShuffleSteps && picks[0] == 2
    requires forall k :: 1 <= k < |picks| ==> picks[k] == (k - 1) % 2
    ensures PicksFit(7, picks)
    ensures Walk(Solved(), 7, picks).board == StaleBoard()
  {
    var rest := picks[1..];
    forall k | 0 <= k < |rest| ensures rest[k] == k % 2 {
      assert rest[k] == picks[k + 1];
    }
    var b1 := Swap(Solved(), 8, 7);
    StaleTail(b1, rest);
    StaleFirstStep(picks);
    StaleSwaps();
  }

  /** The first pick, 2, moves the pointer from 7 to 8 and exchanges those cells. */
  lemma StaleFirstStep(picks: seq<nat>)
    requires picks != [] && picks[0] == 2 && PicksFit(Cells - 1, picks[1..])
    ensures PicksFit(7, picks)
    ensures Walk(Solved(), 7, picks) == Walk(Swap(Solved(), 8, 7), Cells - 1, picks[1..])
  {
    assert ValidMoves(7) == [4, 6, 8];
  }


  /** The stale board is the solved board with cells 7 and 8, then 5 and 8, exchanged. */
  lemma StaleSwaps()
    ensures Swap(Swap(Solved(), 8, 7), 5, 8) == StaleBoard()
  {
    StaleFirstSwap();
    StaleSecondSwap();
  }

  lemma StaleFirstSwap()
    ensures Swap(Solved(), 8, 7) == [Tile(0), Tile(1), Tile(2), Tile(3), Tile(4), Tile(5), Tile(6), Blank, Tile(7)]
  {
    SwapIsUpdate(Solved(), 8, 7);
    StaleFirstUpdate();
  }

  lemma StaleFirstUpdate()
    ensures Solved()[8 := Tile(7)][7 := Blank] ==
            [Tile(0), Tile(1), Tile(2), Tile(3), Tile(4), Tile(5), Tile(6), Blank, Tile(7)]
  {
  }

  lemma StaleSecondSwap()
    ensures Swap([Tile(0), Tile(1), Tile(2), Tile(3), Tile(4), Tile(5), Tile(6), Blank, Tile(7)], 5, 8) == StaleBoard()
  {
    SwapIsUpdate([Tile(0), Tile(1), Tile(2), Tile(3), Tile(4), Tile(5), Tile(6), Blank, Tile(7)], 5, 8);
    StaleSecondUpdate();
  }

  lemma StaleSecondUpdate()
    ensures [Tile(0), Tile(1), Tile(2), Tile(3), Tile(4), Tile(5), Tile(6), Blank, Tile(7)][5 := Tile(7)][8 := Tile(5)] ==
            StaleBoard()
  {
  }

  /** The stale board, with the blank at 7 where indexOf finds it, cannot be solved. */
  lemma StaleBoardUnsolvable()
    ensures IsPermutation(StaleBoard())
    ensures IndexOf(StaleBoard(), Blank) == 7
    ensures !Solvable(StaleBoard(), 7)
  {
    StaleSwaps();
    BlankIsIndexOf(StaleBoard(), 7);
    StaleBoardIsOdd();
    SolvableNeedsEvenInversions(StaleBoard(), 7);
  }
}
