/**
 Local propagation: opening around cells whose reduced value is 0, marking
 around cells whose reduced value equals their count of unknown neighbours,
 the two global short-cuts on the remaining mine count, and the 1-vs-n line
 pattern.
 */
module Propagate {
  import opened Grid
  import opened Primitives

  /** The unknown cells in the 3x3 windows of the cells of `centres`. */
  function UnknownAround(b: Board, centres: set<Pos>): (r: set<Pos>)
    ensures r <= UnknownCells(b)
    ensures forall c, q :: c in centres && q in b.board && Near(c, q) && b.board[q] == Unknown ==> q in r
  {
    set c, q | c in centres && q in b.board && Near(c, q) && b.board[q] == Unknown :: q
  }

  /**
   `open_surroundings`: every centre leaves `unexhausted` (a centre missing
   from it raises KeyError), then every unknown cell in their windows is opened.
   */
  function OpenSurroundings(b: Board, clear: set<Pos>, oracle: Pos -> int): (r: Result<Board>)
    requires WellFormed(b)
    ensures r.Ok? <==> clear <= b.unexhausted
    ensures r.Ok? ==> WellFormed(r.value)
  {
    if !(clear <= b.unexhausted) then Err(KeyError)
    else Ok(OpenAll(b.(unexhausted := b.unexhausted - clear), UnknownAround(b, clear), oracle))
  }

  lemma OpenSurroundingsEffect(b: Board, clear: set<Pos>, oracle: Pos -> int)
    requires WellFormed(b) && clear <= b.unexhausted
    ensures var r := OpenSurroundings(b, clear, oracle).value;
      && r.unexhausted == b.unexhausted - clear
      && r.openedCells == b.openedCells + UnknownAround(b, clear)
      && r.minesFound == b.minesFound && r.minesRemaining == b.minesRemaining && r.mines == b.mines
      && (forall q :: q in b.board && q !in UnknownAround(b, clear) ==> r.board[q] == b.board[q])
      && (forall q :: q in UnknownAround(b, clear) ==> r.board[q] == Num(oracle(q)))
      && (forall c, q :: c in clear && q in r.board && Near(c, q) ==> r.board[q] != Unknown)
  {
    var r := OpenSurroundings(b, clear, oracle).value;
    forall c, q | c in clear && q in r.board && Near(c, q) ensures r.board[q] != Unknown {
      if b.board[q] == Unknown {
        assert q in UnknownAround(b, clear);
      }
    }
  }

  lemma OpenSurroundingsKeepsConsistent(b: Board, clear: set<Pos>, oracle: Pos -> int)
    requires Consistent(b) && clear <= b.unexhausted
    ensures Consistent(OpenSurroundings(b, clear, oracle).value)
  {
    var b1 := b.(unexhausted := b.unexhausted - clear);
    assert Consistent(b1);
    OpenAllKeepsConsistent(b1, UnknownAround(b, clear), oracle);
  }

  /**
   `mark_surroundings`: every centre leaves `unexhausted` (a centre missing
   from it raises KeyError), then every unknown cell in their windows is marked.
   */
  function MarkSurroundings(b: Board, bad: set<Pos>): (r: Result<Board>)
    requires WellFormed(b)
    ensures r.Ok? <==> bad <= b.unexhausted
    ensures r.Ok? ==> WellFormed(r.value)
  {
    if !(bad <= b.unexhausted) then Err(KeyError)
    else Ok(MarkAll(b.(unexhausted := b.unexhausted - bad), UnknownAround(b, bad)))
  }

  lemma MarkSurroundingsEffect(b: Board, bad: set<Pos>)
    requires WellFormed(b) && bad <= b.unexhausted
    ensures var r := MarkSurroundings(b, bad).value;
      && r.unexhausted == b.unexhausted - bad
      && MineCells(r) == MineCells(b) + UnknownAround(b, bad)
      && r.minesFound == b.minesFound + |UnknownAround(b, bad)|
      && r.minesRemaining == b.minesRemaining - |UnknownAround(b, bad)|
      && (forall q :: q in b.board && q !in UnknownAround(b, bad) ==> r.board[q] == b.board[q])
      && (forall c, q :: c in bad && q in r.board && Near(c, q) ==> r.board[q] != Unknown)
  {
    var r := MarkSurroundings(b, bad).value;
    forall c, q | c in bad && q in r.board && Near(c, q) ensures r.board[q] != Unknown {
      if b.board[q] == Unknown {
        assert q in UnknownAround(b, bad);
      }
    }
  }

  lemma MarkSurroundingsKeepsConsistent(b: Board, bad: set<Pos>)
    requires Consistent(b) && bad <= b.unexhausted
    ensures Consistent(MarkSurroundings(b, bad).value)
  {
    var b1 := b.(unexhausted := b.unexhausted - bad);
    assert Consistent(b1);
    MarkAllKeepsConsistent(b1, UnknownAround(b, bad));
  }
  // ---------------------------------------------------------------------
  // check_neighbours
  // ---------------------------------------------------------------------

  /** The cells whose reduced value is 0: everything around them is safe. */
  function CanOpenAround(b: Board, cells: set<Pos>): set<Pos>
    requires cells <= b.reduced.Keys
  {
    set c | c in cells && b.reduced[c] == Num(0)
  }

  /** The cells whose non-zero reduced value equals their count of unknown neighbours. */
  function CanMarkAround(b: Board, cells: set<Pos>): set<Pos>
    requires WellFormed(b) && cells <= b.reduced.Keys
  {
    set c | c in cells && b.reduced[c].Num? && b.reduced[c].v == CountFrees(b, c) && CountFrees(b, c) != 0
  }

  /**
   `check_neighbours`: open around every zero cell, then mark around every
   saturated cell; `updated` is set when either kind was found.
   */
  function CheckNeighbours(b: Board, cells: set<Pos>, oracle: Pos -> int): (r: Result<Board>)
    requires WellFormed(b) && cells <= b.board.Keys
    ensures r.Ok? <==> CanOpenAround(b, cells) + CanMarkAround(b, cells) <= b.unexhausted
    ensures r.Ok? ==> WellFormed(r.value)
  {
    var canOpen := CanOpenAround(b, cells);
    var canMark := CanMarkAround(b, cells);
    if canOpen == {} && canMark == {} then Ok(b)
    else OpenThenMark(b.(updated := true), canOpen, canMark, oracle)
  }

  /** The two batches of `check_neighbours`, opening first. */
  function OpenThenMark(b: Board, clear: set<Pos>, bad: set<Pos>, oracle: Pos -> int): (r: Result<Board>)
    requires WellFormed(b)
    ensures clear !! bad ==> (r.Ok? <==> clear + bad <= b.unexhausted)
    ensures r.Ok? ==> WellFormed(r.value)
  {
    var r1 :- OpenSurroundings(b, clear, oracle);
    MarkSurroundings(r1, bad)
  }

  lemma OpenThenMarkEffect(b: Board, clear: set<Pos>, bad: set<Pos>, oracle: Pos -> int)
    requires WellFormed(b) && OpenThenMark(b, clear, bad, oracle).Ok?
    ensures var r := OpenThenMark(b, clear, bad, oracle).value;
      && r.updated == b.updated
      && r.unexhausted == b.unexhausted - clear - bad
      && r.minesFound + r.minesRemaining == b.minesFound + b.minesRemaining
      && (forall c, q :: c in clear + bad && q in r.board && Near(c, q) ==> r.board[q] != Unknown)
      && (forall q :: q in b.board && q !in UnknownAround(b, clear + bad) ==> r.board[q] == b.board[q])
  {
    OpenSurroundingsEffect(b, clear, oracle);
    var r1 := OpenSurroundings(b, clear, oracle).value;
    MarkSurroundingsEffect(r1, bad);
    var r := MarkSurroundings(r1, bad).value;
    forall q | q in b.board && q !in UnknownAround(b, clear + bad) ensures r.board[q] == b.board[q] {
      assert q !in UnknownAround(b, clear);
      if r1.board[q] == Unknown {
        assert q !in UnknownAround(r1, bad);
      }
    }
    forall c, q | c in clear + bad && q in r.board && Near(c, q) ensures r.board[q] != Unknown {
      if c in clear {
        assert r1.board[q] != Unknown;
      }
    }
  }

  lemma OpenThenMarkKeepsConsistent(b: Board, clear: set<Pos>, bad: set<Pos>, oracle: Pos -> int)
    requires Consistent(b) && OpenThenMark(b, clear, bad, oracle).Ok?
    ensures Consistent(OpenThenMark(b, clear, bad, oracle).value)
  {
    OpenSurroundingsKeepsConsistent(b, clear, oracle);
    MarkSurroundingsKeepsConsistent(OpenSurroundings(b, clear, oracle).value, bad);
  }

  lemma CheckNeighboursUnfold(b: Board, cells: set<Pos>, oracle: Pos -> int)
    requires WellFormed(b) && cells <= b.board.Keys
    requires CanOpenAround(b, cells) != {} || CanMarkAround(b, cells) != {}
    ensures CheckNeighbours(b, cells, oracle) ==
      OpenThenMark(b.(updated := true), CanOpenAround(b, cells), CanMarkAround(b, cells), oracle)
  {
  }

  /** The flag is raised exactly when some centre was found. */
  lemma CheckNeighboursFlag(b: Board, cells: set<Pos>, oracle: Pos -> int)
    requires WellFormed(b) && cells <= b.board.Keys
    requires CheckNeighbours(b, cells, oracle).Ok?
    ensures CheckNeighbours(b, cells, oracle).value.updated ==
      (b.updated || CanOpenAround(b, cells) + CanMarkAround(b, cells) != {})
  {
    var canOpen := CanOpenAround(b, cells);
    var canMark := CanMarkAround(b, cells);
    if canOpen != {} || canMark != {} {
      var b1 := b.(updated := true);
      CheckNeighboursUnfold(b, cells, oracle);
      assert OpenThenMark(b1, canOpen, canMark, oracle).Ok?;
      OpenThenMarkEffect(b1, canOpen, canMark, oracle);
    } else {
      assert CheckNeighbours(b, cells, oracle) == Ok(b);
    }
  }

  /** Each centre leaves the unexhausted set, and the mine counters keep their sum. */
  lemma CheckNeighboursEffect(b: Board, cells: set<Pos>, oracle: Pos -> int)
    requires WellFormed(b) && cells <= b.board.Keys
    requires CheckNeighbours(b, cells, oracle).Ok?
    ensures var r := CheckNeighbours(b, cells, oracle).value;
      && r.unexhausted == b.unexhausted - (CanOpenAround(b, cells) + CanMarkAround(b, cells))
      && r.minesFound + r.minesRemaining == b.minesFound + b.minesRemaining
  {
    var canOpen := CanOpenAround(b, cells);
    var canMark := CanMarkAround(b, cells);
    if canOpen != {} || canMark != {} {
      var b1 := b.(updated := true);
      CheckNeighboursUnfold(b, cells, oracle);
      assert OpenThenMark(b1, canOpen, canMark, oracle).Ok?;
      OpenThenMarkEffect(b1, canOpen, canMark, oracle);
      var r := OpenThenMark(b1, canOpen, canMark, oracle).value;
      assert r.unexhausted == b.unexhausted - canOpen - canMark;
      assert b.unexhausted - canOpen - canMark == b.unexhausted - (canOpen + canMark);
    } else {
      assert CheckNeighbours(b, cells, oracle) == Ok(b);
    }
  }

  /** No unknown cell is left around any centre, and no cell away from the centres changes. */
  lemma CheckNeighboursResolves(b: Board, cells: set<Pos>, oracle: Pos -> int)
    requires WellFormed(b) && cells <= b.board.Keys
    requires CheckNeighbours(b, cells, oracle).Ok?
    ensures var r := CheckNeighbours(b, cells, oracle).value;
      var centres := CanOpenAround(b, cells) + CanMarkAround(b, cells);
      && (forall c, q :: c in centres && q in r.board && Near(c, q) ==> r.board[q] != Unknown)
      && (forall q :: q in b.board && q !in UnknownAround(b, centres) ==> r.board[q] == b.board[q])
  {
    var canOpen := CanOpenAround(b, cells);
    var canMark := CanMarkAround(b, cells);
    if canOpen != {} || canMark != {} {
      var b1 := b.(updated := true);
      CheckNeighboursUnfold(b, cells, oracle);
      assert OpenThenMark(b1, canOpen, canMark, oracle).Ok?;
      OpenThenMarkEffect(b1, canOpen, canMark, oracle);
      assert UnknownAround(b1, canOpen + canMark) == UnknownAround(b, canOpen + canMark);
    }
  }

  lemma CheckNeighboursKeepsConsistent(b: Board, cells: set<Pos>, oracle: Pos -> int)
    requires Consistent(b) && cells <= b.board.Keys
    requires CheckNeighbours(b, cells, oracle).Ok?
    ensures Consistent(CheckNeighbours(b, cells, oracle).value)
  {
    var canOpen := CanOpenAround(b, cells);
    var canMark := CanMarkAround(b, cells);
    if canOpen != {} || canMark != {} {
      var b1 := b.(updated := true);
      CheckNeighboursUnfold(b, cells, oracle);
      FlagsKeepConsistent(b, b.finished, true);
      assert OpenThenMark(b1, canOpen, canMark, oracle).Ok?;
      OpenThenMarkKeepsConsistent(b1, canOpen, canMark, oracle);
    }
  }

  /** Around a cell whose reduced value is 0 no unknown cell holds a mine. */
  lemma ZeroWindowIsSafe(b: Board, m: set<Pos>, c: Pos)
    requires Explains(b, m)
    requires c in b.reduced && b.reduced[c] == Num(0)
    ensures UnknownWindow(b, c) !! m
  {
    var both := UnknownWindow(b, c) * m;
    assert |both| == 0;
    forall q | q in UnknownWindow(b, c) ensures q !in m {
      if q in m {
        SubsetCardinality({q}, both);
      }
    }
  }

  /** Around a cell whose reduced value equals its unknown neighbours, all of them are mines. */
  lemma SaturatedWindowIsMined(b: Board, m: set<Pos>, c: Pos)
    requires WellFormed(b) && GridsAgree(b) && Explains(b, m)
    requires c in b.reduced && b.reduced[c] == Num(CountFrees(b, c))
    ensures UnknownWindow(b, c) <= m
  {
    CountFreesIsUnknownWindow(b, c);
    var w := UnknownWindow(b, c);
    FullSubset(w * m, w);
  }

  /** The unknown cells around the centres, seen from the reduced grid. */
  lemma UnknownAroundIsWindows(b: Board, centres: set<Pos>, q: Pos)
    requires GridsAgree(b)
    requires q in UnknownAround(b, centres)
    ensures exists c :: c in centres && q in UnknownWindow(b, c)
  {
    var c :| c in centres && q in b.board && Near(c, q) && b.board[q] == Unknown;
    assert q in UnknownWindow(b, c);
  }

  /**
   Opening around centres whose windows hold no mine of `m`, then marking
   around centres whose unknown neighbours all lie in `m`, agrees with `m`.
   */
  lemma OpenThenMarkSound(b: Board, clear: set<Pos>, bad: set<Pos>, oracle: Pos -> int, m: set<Pos>)
    requires WellFormed(b) && GridsAgree(b) && OpenThenMark(b, clear, bad, oracle).Ok?
    requires forall c :: c in clear ==> UnknownWindow(b, c) !! m
    requires forall c :: c in bad ==> UnknownWindow(b, c) <= m
    ensures AgreesWith(b, OpenThenMark(b, clear, bad, oracle).value, m)
  {
    var safe := UnknownAround(b, clear);
    assert safe !! m by {
      forall q | q in safe ensures q !in m {
        UnknownAroundIsWindows(b, clear, q);
      }
    }
    var r1 := OpenSurroundings(b, clear, oracle).value;
    var b2 := b.(unexhausted := b.unexhausted - clear);
    OpenAllAgrees(b2, safe, oracle, m);
    OpenAllExtends(b2, safe, oracle);
    var marked := UnknownAround(r1, bad);
    assert marked <= m by {
      forall q | q in marked ensures q in m {
        var c :| c in bad && q in r1.board && Near(c, q) && r1.board[q] == Unknown;
        assert q in UnknownWindow(b, c);
      }
    }
    var r3 := r1.(unexhausted := r1.unexhausted - bad);
    MarkAllAgrees(r3, marked, m);
    MarkAllExtends(r3, marked);
    AgreesTransitive(b, r1, MarkAll(r3, marked), m);
  }

  /** `check_neighbours` opens only cells outside, and marks only cells inside, any placement the board admits. */
  lemma CheckNeighboursSound(b: Board, cells: set<Pos>, oracle: Pos -> int, m: set<Pos>)
    requires Consistent(b) && cells <= b.board.Keys && Explains(b, m)
    requires CheckNeighbours(b, cells, oracle).Ok?
    ensures AgreesWith(b, CheckNeighbours(b, cells, oracle).value, m)
  {
    var canOpen := CanOpenAround(b, cells);
    var canMark := CanMarkAround(b, cells);
    if canOpen != {} || canMark != {} {
      var b1 := b.(updated := true);
      forall c | c in canOpen ensures UnknownWindow(b1, c) !! m {
        ZeroWindowIsSafe(b, m, c);
      }
      forall c | c in canMark ensures UnknownWindow(b1, c) <= m {
        SaturatedWindowIsMined(b, m, c);
      }
      OpenThenMarkSound(b1, canOpen, canMark, oracle, m);
    }
  }
  // ---------------------------------------------------------------------
  // grid_finished_check
  // ---------------------------------------------------------------------

  /**
   `grid_finished_check`: with no mines left every unknown cell is opened;
   with as many mines left as unknown cells every unknown cell is marked.
   Either way the board is finished.
   */
  function GridFinishedCheck(b: Board, oracle: Pos -> int): (r: Board)
    requires WellFormed(b) && GridsAgree(b)
    ensures WellFormed(r)
  {
    var unknown := ReducedUnknowns(b);
    if b.minesRemaining == 0 then
      OpenAll(b, unknown, oracle).(finished := true, updated := true)
    else if b.minesRemaining == b.freeRemaining then
      MarkAll(b, unknown).(finished := true, updated := true)
    else
      b
  }

  /** With no mines left, every unknown cell is opened and no mine is added. */
  lemma GridFinishedOpensAll(b: Board, oracle: Pos -> int)
    requires Consistent(b) && b.minesRemaining == 0
    ensures var r := GridFinishedCheck(b, oracle);
      && r.finished && r.updated && UnknownCells(r) == {} && MineCells(r) == MineCells(b)
      && Consistent(r)
  {
    ReducedUnknownsAreUnknown(b);
    var r1 := OpenAll(b, UnknownCells(b), oracle);
    OpenAllKeepsConsistent(b, UnknownCells(b), oracle);
    FlagsKeepConsistent(r1, true, true);
  }

  /**
   With as many mines left as unknown cells, every unknown cell is marked;
   afterwards no mine is left to find.
   */
  lemma GridFinishedMarksAll(b: Board, oracle: Pos -> int)
    requires Consistent(b) && b.minesRemaining != 0 && b.minesRemaining == b.freeRemaining
    ensures var r := GridFinishedCheck(b, oracle);
      && r.finished && r.updated && UnknownCells(r) == {}
      && MineCells(r) == MineCells(b) + UnknownCells(b)
      && r.minesRemaining == 0
      && Consistent(r)
  {
    ReducedUnknownsAreUnknown(b);
    var r1 := MarkAll(b, UnknownCells(b));
    MarkAllKeepsConsistent(b, UnknownCells(b));
    FlagsKeepConsistent(r1, true, true);
  }

  /** Otherwise the board is returned unchanged. */
  lemma GridFinishedOtherwise(b: Board, oracle: Pos -> int)
    requires WellFormed(b) && GridsAgree(b) && b.minesRemaining != 0 && b.minesRemaining != b.freeRemaining
    ensures GridFinishedCheck(b, oracle) == b
  {
  }

  lemma GridFinishedKeepsConsistent(b: Board, oracle: Pos -> int)
    requires Consistent(b)
    ensures Consistent(GridFinishedCheck(b, oracle))
  {
    if b.minesRemaining == 0 {
      GridFinishedOpensAll(b, oracle);
    } else if b.minesRemaining == b.freeRemaining {
      GridFinishedMarksAll(b, oracle);
    }
  }

  /** Both short-cuts agree with every placement the board admits. */
  lemma GridFinishedSound(b: Board, oracle: Pos -> int, m: set<Pos>)
    requires Consistent(b) && Explains(b, m)
    ensures AgreesWith(b, GridFinishedCheck(b, oracle), m)
  {
    ReducedUnknownsAreUnknown(b);
    var unknown := UnknownCells(b);
    if b.minesRemaining == 0 {
      assert m == {};
      OpenAllAgrees(b, unknown, oracle, m);
    } else if b.minesRemaining == b.freeRemaining {
      FullSubset(m, unknown);
      MarkAllAgrees(b, unknown, m);
    }
  }
}
