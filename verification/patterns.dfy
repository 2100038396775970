/**
 The 1-vs-n line pattern (`basic_patterns` and `one_by_n`): a reduced 1
 next to a reduced n along a row or column. If the three squares beyond
 the n hold exactly n - 1 unknown cells, those are all mines, and the
 unknown squares behind the 1 are safe.
 */
module Patterns {
  import opened Grid
  import opened Primitives

  /** The three squares two steps from `p` along `d`, straight and to either side. */
  function FarSquares(p: Pos, d: (int, int)): seq<Pos> {
    [Pos(p.x + 2 * d.0, p.y + 2 * d.1),
     Pos(p.x + 2 * d.0 + d.1, p.y + 2 * d.1 + d.0),
     Pos(p.x + 2 * d.0 - d.1, p.y + 2 * d.1 - d.0)]
  }

  /** The three squares one step behind `p`, straight and to either side. */
  function NearSquares(p: Pos, d: (int, int)): seq<Pos> {
    [Pos(p.x - d.0, p.y - d.1),
     Pos(p.x - d.0 + d.1, p.y - d.1 + d.0),
     Pos(p.x - d.0 - d.1, p.y - d.1 - d.0)]
  }

  /** The squares of `sq` that are on the board and unknown in the reduced grid, in order. */
  function UnknownOnBoard(b: Board, sq: seq<Pos>): (r: seq<Pos>)
    requires WellFormed(b)
    ensures forall q :: q in r <==> q in sq && OnBoard(b, q) && b.reduced[q] == Unknown
    ensures |r| <= |sq|
  {
    if sq == [] then []
    else
      (if OnBoard(b, sq[0]) && b.reduced[sq[0]] == Unknown then [sq[0]] else [])
      + UnknownOnBoard(b, sq[1..])
  }

  lemma {:induction false} UnknownOnBoardDistinct(b: Board, sq: seq<Pos>)
    requires WellFormed(b) && Distinct(sq)
    ensures |Elems(UnknownOnBoard(b, sq))| == |UnknownOnBoard(b, sq)|
  {
    if sq != [] {
      DistinctTail(sq);
      UnknownOnBoardDistinct(b, sq[1..]);
      var rest := UnknownOnBoard(b, sq[1..]);
      if OnBoard(b, sq[0]) && b.reduced[sq[0]] == Unknown {
        assert Elems(UnknownOnBoard(b, sq)) == {sq[0]} + Elems(rest);
        assert sq[0] !in Elems(rest);
      } else {
        assert UnknownOnBoard(b, sq) == rest;
      }
    }
  }

  lemma FarSquaresDistinct(p: Pos, d: (int, int))
    requires d in CardinalDirections
    ensures Distinct(FarSquares(p, d))
  {
  }

  /**
   `one_by_n`: with a reduced number n at `p + d`, if exactly n - 1 of the far
   squares are on-board unknowns, they are returned as mines and the
   on-board unknown near squares as safes; otherwise nothing is returned.
   */
  function OneByN(b: Board, p: Pos, d: (int, int)): (r: (seq<Pos>, seq<Pos>))
    requires WellFormed(b) && OnBoard(b, Shift(p, d)) && b.reduced[Shift(p, d)].Num?
    ensures forall q :: q in r.0 + r.1 ==> OnBoard(b, q) && b.reduced[q] == Unknown
    ensures r.0 + r.1 != [] ==> |r.1| == b.reduced[Shift(p, d)].v - 1
  {
    var n := b.reduced[Shift(p, d)].v;
    var free := UnknownOnBoard(b, FarSquares(p, d));
    if |free| == n - 1 then (UnknownOnBoard(b, NearSquares(p, d)), free)
    else ([], [])
  }

  /** The result of `one_by_n`, square by square. */
  lemma OneByNExact(b: Board, p: Pos, d: (int, int))
    requires WellFormed(b) && OnBoard(b, Shift(p, d)) && b.reduced[Shift(p, d)].Num?
    ensures var n := b.reduced[Shift(p, d)].v;
      var farCount := |set q | q in FarSquares(p, d) && OnBoard(b, q) && b.reduced[q] == Unknown|;
      var r := OneByN(b, p, d);
      && (d in CardinalDirections && farCount == n - 1 ==>
            && (forall q :: q in r.1 <==> q in FarSquares(p, d) && OnBoard(b, q) && b.reduced[q] == Unknown)
            && (forall q :: q in r.0 <==> q in NearSquares(p, d) && OnBoard(b, q) && b.reduced[q] == Unknown))
      && (d in CardinalDirections && farCount != n - 1 ==> r.0 == [] && r.1 == [])
  {
    if d in CardinalDirections {
      var free := UnknownOnBoard(b, FarSquares(p, d));
      FarSquaresDistinct(p, d);
      UnknownOnBoardDistinct(b, FarSquares(p, d));
      assert Elems(free) == set q | q in FarSquares(p, d) && OnBoard(b, q) && b.reduced[q] == Unknown;
    }
  }

  /** Stepping along a cardinal `d`: the window of `p + d` is the shared part plus the far squares. */
  lemma WindowGeometry(p: Pos, d: (int, int), c: Pos)
    requires d in CardinalDirections
    ensures Near(Shift(p, d), c) && !Near(p, c) <==> c in FarSquares(p, d)
    ensures Near(p, c) && !Near(Shift(p, d), c) <==> c in NearSquares(p, d)
  {
  }

  /** The two unknown windows split into their shared part, the far part and the near part. */
  lemma WindowSplit(b: Board, p: Pos, d: (int, int))
    requires WellFormed(b) && d in CardinalDirections
    ensures var shared := UnknownWindow(b, p) * UnknownWindow(b, Shift(p, d));
      && UnknownWindow(b, Shift(p, d)) == shared + Elems(UnknownOnBoard(b, FarSquares(p, d)))
      && shared !! Elems(UnknownOnBoard(b, FarSquares(p, d)))
      && UnknownWindow(b, p) == shared + Elems(UnknownOnBoard(b, NearSquares(p, d)))
      && shared !! Elems(UnknownOnBoard(b, NearSquares(p, d)))
  {
    forall c ensures Near(Shift(p, d), c) && !Near(p, c) <==> c in FarSquares(p, d)
      ensures Near(p, c) && !Near(Shift(p, d), c) <==> c in NearSquares(p, d)
    {
      WindowGeometry(p, d, c);
    }
  }

  /**
   The counting at the heart of the pattern: a window holding one mine and
   a window holding n mines share a part; if the second window's own part
   has only n - 1 cells, they are all mines, and the first window's own
   part holds none.
   */
  lemma OneAgainstN<T>(wp: set<T>, wq: set<T>, shared: set<T>, far: set<T>, near: set<T>, m: set<T>, n: int)
    requires wq == shared + far && shared !! far
    requires wp == shared + near && shared !! near
    requires |wq * m| == n && |wp * m| == 1 && |far| == n - 1
    ensures far <= m && near !! m
  {
    assert wq * m == shared * m + far * m;
    assert |wq * m| == |shared * m| + |far * m|;
    SubsetCardinality(shared * m, wp * m);
    SubsetCardinality(far * m, far);
    FullSubset(far * m, far);
    assert wp * m == shared * m + near * m;
    assert |wp * m| == |shared * m| + |near * m|;
    assert near * m == {};
  }

  /**
   The 1-vs-n deduction is sound: under any placement of mines the board
   admits, the squares `one_by_n` calls mines are mines and the squares it
   calls safe are not.
   */
  lemma OneByNSound(b: Board, p: Pos, d: (int, int), m: set<Pos>)
    requires WellFormed(b) && Explains(b, m) && d in CardinalDirections
    requires OnBoard(b, p) && b.reduced[p] == Num(1)
    requires OnBoard(b, Shift(p, d)) && b.reduced[Shift(p, d)].Num?
    ensures forall q :: q in OneByN(b, p, d).1 ==> q in m
    ensures forall q :: q in OneByN(b, p, d).0 ==> q !in m
  {
    var n := b.reduced[Shift(p, d)].v;
    var free := UnknownOnBoard(b, FarSquares(p, d));
    if |free| == n - 1 {
      var wp, wq := UnknownWindow(b, p), UnknownWindow(b, Shift(p, d));
      var near := UnknownOnBoard(b, NearSquares(p, d));
      WindowSplit(b, p, d);
      FarSquaresDistinct(p, d);
      UnknownOnBoardDistinct(b, FarSquares(p, d));
      assert |wq * m| == n && |wp * m| == 1;
      OneAgainstN(wp, wq, wp * wq, Elems(free), Elems(near), m, n);
      assert OneByN(b, p, d) == (near, free);
    }
  }

  /**
   The scan condition of `basic_patterns`: `p` shows a reduced 1 and its
   on-board neighbour along `d` shows a non-zero reduced number.
   */
  predicate Fires(b: Board, p: Pos, d: (int, int))
    requires WellFormed(b)
  {
    && OnBoard(b, p) && b.reduced[p] == Num(1)
    && OnBoard(b, Shift(p, d)) && b.reduced[Shift(p, d)].Num? && b.reduced[Shift(p, d)].v != 0
  }

  /** Every square some firing pattern calls safe. */
  function PatternSafes(b: Board): (r: set<Pos>)
    requires WellFormed(b)
    ensures r <= ReducedUnknowns(b)
  {
    set p, d, c | p in b.reduced && d in CardinalDirections && Fires(b, p, d) && c in OneByN(b, p, d).0 :: c
  }

  /** Every square some firing pattern calls a mine. */
  function PatternMines(b: Board): (r: set<Pos>)
    requires WellFormed(b)
    ensures r <= ReducedUnknowns(b)
  {
    set p, d, c | p in b.reduced && d in CardinalDirections && Fires(b, p, d) && c in OneByN(b, p, d).1 :: c
  }

  /**
   `basic_patterns`: if any pattern fires, set the progress flag, open every
   square called safe and then mark every square called a mine.
   */
  function BasicPatterns(b: Board, oracle: Pos -> int): (r: Board)
    requires WellFormed(b) && GridsAgree(b)
    ensures WellFormed(r)
  {
    var safes, mines := PatternSafes(b), PatternMines(b);
    if safes == {} && mines == {} then b
    else
      var afterOpen := OpenAll(b.(updated := true), safes, oracle);
      MarkAll(afterOpen, mines)
  }

  /**
   The progress flag is raised exactly when some pattern produced a square;
   the named squares are resolved and no other cell changes.
   */
  lemma BasicPatternsEffect(b: Board, oracle: Pos -> int)
    requires WellFormed(b) && GridsAgree(b)
    ensures var r := BasicPatterns(b, oracle);
      var safes, mines := PatternSafes(b), PatternMines(b);
      && safes + mines <= UnknownCells(b)
      && (r.updated <==> b.updated || safes + mines != {})
      && (forall q :: q in mines ==> r.board[q] == Mine)
      && (forall q :: q in safes - mines ==> r.board[q] == Num(oracle(q)))
      && (forall q :: q in b.board && q !in safes + mines ==> r.board[q] == b.board[q])
  {
    ReducedUnknownsAreUnknown(b);
    var safes, mines := PatternSafes(b), PatternMines(b);
    if safes != {} || mines != {} {
      var afterOpen := OpenAll(b.(updated := true), safes, oracle);
      var r := MarkAll(afterOpen, mines);
      assert r == BasicPatterns(b, oracle);
      assert r.updated;
    } else {
      assert BasicPatterns(b, oracle) == b;
    }
  }

  /** Under any placement the board admits, the squares the scan produces are classified correctly. */
  lemma PatternsSound(b: Board, m: set<Pos>)
    requires WellFormed(b) && Explains(b, m)
    ensures PatternSafes(b) !! m
    ensures PatternMines(b) <= m
  {
    forall p, d | p in b.reduced && d in CardinalDirections && Fires(b, p, d)
      ensures forall q :: q in OneByN(b, p, d).1 ==> q in m
      ensures forall q :: q in OneByN(b, p, d).0 ==> q !in m
    {
      OneByNSound(b, p, d, m);
    }
  }

  /** `basic_patterns` resolves cells only in agreement with every placement the board admits. */
  lemma BasicPatternsSound(b: Board, oracle: Pos -> int, m: set<Pos>)
    requires WellFormed(b) && GridsAgree(b) && Explains(b, m)
    ensures AgreesWith(b, BasicPatterns(b, oracle), m)
  {
    PatternsSound(b, m);
    BasicPatternsEffect(b, oracle);
  }

  /** On a board some placement explains, `basic_patterns` keeps the board consistent. */
  lemma BasicPatternsKeepsConsistent(b: Board, oracle: Pos -> int, m: set<Pos>)
    requires Consistent(b) && Explains(b, m)
    ensures Consistent(BasicPatterns(b, oracle))
  {
    var safes, mines := PatternSafes(b), PatternMines(b);
    if safes != {} || mines != {} {
      ReducedUnknownsAreUnknown(b);
      PatternsSound(b, m);
      var b1 := b.(updated := true);
      FlagsKeepConsistent(b, b.finished, true);
      assert UnknownCells(b1) == UnknownCells(b);
      OpenAllKeepsConsistent(b1, safes, oracle);
      var afterOpen := OpenAll(b1, safes, oracle);
      MarkAllKeepsConsistent(afterOpen, mines);
    }
  }
}
