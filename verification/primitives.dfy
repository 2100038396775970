/**
 The only two operations that change a cell: `open_cell` and `mark_cell`, and
 their batch forms. Every deduction stage ends by opening a set of cells it has
 proved safe and marking a set it has proved mined; the source walks such a set
 in whatever order the set iterates. `OpenAll` and `MarkAll` state the effect of
 a whole batch at once, and `OpenCells` / `MarkCells` show that walking the set
 one cell at a time, in any order, has exactly that effect.
 */
module Primitives {
  import opened Grid

  /** `k` fewer mines still to find, if the cell holds a number; otherwise unchanged. */
  function Dec(c: Cell, k: int): Cell {
    if c.Num? then Num(c.v - k) else c
  }

  /**
   `open_cell`: the primary grid takes the revealed value `oracle(p)`, the
   reduced grid that value less the mines already marked around `p`.
   */
  function OpenCell(b: Board, p: Pos, oracle: Pos -> int): (r: Board)
    requires WellFormed(b) && OnBoard(b, p)
    ensures WellFormed(r)
    ensures r.board == b.board[p := Num(oracle(p))]
    ensures b.board[p] != Mine ==> r.reduced == b.reduced[p := Num(oracle(p) - CountMines(b, p))]
    ensures r.freeRemaining == b.freeRemaining - 1 && r.openedCells == b.openedCells + {p}
    ensures r.minesFound == b.minesFound && r.minesRemaining == b.minesRemaining
    ensures r.mines == b.mines && r.unexhausted == b.unexhausted
    ensures r.rows == b.rows && r.cols == b.cols && r.updated == b.updated && r.finished == b.finished
  {
    var b1 := b.(board := b.board[p := Num(oracle(p))]);
    assert b.board[p] != Mine ==> CountMines(b1, p) == CountMines(b, p) by {
      if b.board[p] != Mine {
        CountInFrame(b.board, b1.board, b.rows, b.cols, p, Directions, Mine);
      }
    }
    b1.(reduced := b.reduced[p := Num(oracle(p) - CountMines(b1, p))],
        freeRemaining := b.freeRemaining - 1,
        openedCells := b.openedCells + {p})
  }

  /**
   The loop of `mark_cell` over the window: every on-board neighbour (the
   centre included) whose reduced value is a number loses one.
   */
  function DecrementAround(b: Board, red: map<Pos, Cell>, p: Pos, dirs: seq<(int, int)>): map<Pos, Cell>
    requires WellFormed(b) && red.Keys == b.board.Keys
  {
    if dirs == [] then red
    else
      var q := Shift(p, dirs[0]);
      var red' := if OnBoard(b, q) && red[q].Num? then red[q := Num(red[q].v - 1)] else red;
      DecrementAround(b, red', p, dirs[1..])
  }

  lemma {:induction false} DecrementAroundEffect(b: Board, red: map<Pos, Cell>, p: Pos, dirs: seq<(int, int)>)
    requires WellFormed(b) && red.Keys == b.board.Keys
    requires Distinct(dirs)
    ensures DecrementAround(b, red, p, dirs).Keys == red.Keys
    ensures forall q :: q in red ==>
      DecrementAround(b, red, p, dirs)[q] == (if Offset(p, q) in dirs then Dec(red[q], 1) else red[q])
  {
    if dirs != [] {
      DistinctTail(dirs);
      var q0 := Shift(p, dirs[0]);
      var red' := if OnBoard(b, q0) && red[q0].Num? then red[q0 := Num(red[q0].v - 1)] else red;
      DecrementAroundEffect(b, red', p, dirs[1..]);
      forall q | q in red
        ensures DecrementAround(b, red, p, dirs)[q] == (if Offset(p, q) in dirs then Dec(red[q], 1) else red[q])
      {
        assert dirs == [dirs[0]] + dirs[1..];
        if q == q0 {
          assert Offset(p, q) == dirs[0];
        }
        if Offset(p, q) == dirs[0] {
          assert q == q0;
        }
      }
    }
  }

  /**
   The reduced grid after marking `p`: `p` shows a mine and every other numeric
   value in its 3x3 window is one less.
   */
  function MarkedAround(red: map<Pos, Cell>, p: Pos): map<Pos, Cell> {
    map q | q in red :: if q == p then Mine else if Near(p, q) then Dec(red[q], 1) else red[q]
  }

  /**
   The reduced grid after marking every cell of `s`: those cells show mines and
   every other numeric value is less by the number of them in its window.
   */
  function MarkedAll(red: map<Pos, Cell>, s: set<Pos>): map<Pos, Cell> {
    map q | q in red :: if q in s then Mine else Dec(red[q], |NearIn(q, s)|)
  }

  /** Walking the direction table decrements exactly the window. */
  lemma MarkWindow(b: Board, red: map<Pos, Cell>, p: Pos)
    requires WellFormed(b) && red.Keys == b.board.Keys && p in red
    ensures DecrementAround(b, red[p := Mine], p, Directions) == MarkedAround(red, p)
  {
    DirectionsDistinct();
    DecrementAroundEffect(b, red[p := Mine], p, Directions);
    forall q ensures Offset(p, q) in Directions <==> Near(p, q) {
      DirectionsAreTheWindow(p, q);
    }
  }

  /**
   `mark_cell`: both grids show a mine at `p`, one more mine is found, and
   every numeric reduced value in the 3x3 window around `p` drops by exactly one.
   */
  function MarkCell(b: Board, p: Pos): (r: Board)
    requires WellFormed(b) && OnBoard(b, p)
    ensures WellFormed(r)
    ensures r.board == b.board[p := Mine]
    ensures r.reduced == MarkedAround(b.reduced, p)
    ensures r.minesFound == b.minesFound + 1 && r.minesRemaining == b.minesRemaining - 1
    ensures r.freeRemaining == b.freeRemaining - 1
    ensures r.mines == b.mines && r.openedCells == b.openedCells && r.unexhausted == b.unexhausted
    ensures r.rows == b.rows && r.cols == b.cols && r.updated == b.updated && r.finished == b.finished
  {
    var b1 := b.(minesFound := b.minesFound + 1,
                 minesRemaining := b.minesRemaining - 1,
                 board := b.board[p := Mine],
                 reduced := b.reduced[p := Mine],
                 freeRemaining := b.freeRemaining - 1);
    MarkWindow(b1, b.reduced, p);
    b1.(reduced := DecrementAround(b1, b1.reduced, p, Directions))
  }

  /** Opening every cell of `s` at once. */
  function OpenAll(b: Board, s: set<Pos>, oracle: Pos -> int): (r: Board)
    requires WellFormed(b) && s <= b.board.Keys
    ensures WellFormed(r)
  {
    b.(board := map q | q in b.board :: if q in s then Num(oracle(q)) else b.board[q],
       reduced := map q | q in b.reduced :: if q in s then Num(oracle(q) - CountMines(b, q)) else b.reduced[q],
       freeRemaining := b.freeRemaining - |s|,
       openedCells := b.openedCells + s)
  }

  /** Marking every cell of `s` at once. */
  function MarkAll(b: Board, s: set<Pos>): (r: Board)
    requires WellFormed(b) && s <= b.board.Keys
    ensures WellFormed(r)
  {
    b.(board := map q | q in b.board :: if q in s then Mine else b.board[q],
       reduced := MarkedAll(b.reduced, s),
       minesFound := b.minesFound + |s|,
       minesRemaining := b.minesRemaining - |s|,
       freeRemaining := b.freeRemaining - |s|)
  }

  lemma OpenAllNone(b: Board, oracle: Pos -> int)
    requires WellFormed(b)
    ensures OpenAll(b, {}, oracle) == b
  {
    var r := OpenAll(b, {}, oracle);
    assert r.board == b.board;
    assert r.reduced == b.reduced;
  }

  lemma MarkAllNone(b: Board)
    requires WellFormed(b)
    ensures MarkAll(b, {}) == b
  {
    var r := MarkAll(b, {});
    assert r.board == b.board;
    forall q | q in b.reduced ensures r.reduced[q] == b.reduced[q] {
      assert NearIn(q, {}) == {};
    }
    assert r.reduced == b.reduced;
  }

  /** Opening never changes which cells are mines, so no window tally of mines moves. */
  lemma OpenAllKeepsMineCounts(b: Board, s: set<Pos>, oracle: Pos -> int, p: Pos)
    requires WellFormed(b) && s <= b.board.Keys
    requires forall q :: q in s ==> b.board[q] != Mine
    ensures CountMines(OpenAll(b, s, oracle), p) == CountMines(b, p)
  {
    CountInFrame(b.board, OpenAll(b, s, oracle).board, b.rows, b.cols, p, Directions, Mine);
  }

  lemma OpenStepReduced(b: Board, done: set<Pos>, c: Pos, oracle: Pos -> int)
    requires WellFormed(b) && done <= b.board.Keys && c in b.board && c !in done
    requires forall q :: q in done + {c} ==> b.board[q] != Mine
    ensures OpenCell(OpenAll(b, done, oracle), c, oracle).reduced == OpenAll(b, done + {c}, oracle).reduced
  {
    var b1 := OpenAll(b, done, oracle);
    var lhs := OpenCell(b1, c, oracle).reduced;
    var rhs := OpenAll(b, done + {c}, oracle).reduced;
    OpenAllKeepsMineCounts(b, done, oracle, c);
    assert b1.board[c] != Mine;
    forall q | q in b.reduced ensures lhs[q] == rhs[q] {
      if q == c {
        assert lhs[q] == Num(oracle(c) - CountMines(b1, c));
      } else {
        assert lhs[q] == b1.reduced[q];
      }
    }
  }

  lemma OpenStepBoard(b: Board, done: set<Pos>, c: Pos, oracle: Pos -> int)
    requires WellFormed(b) && done <= b.board.Keys && c in b.board
    ensures OpenCell(OpenAll(b, done, oracle), c, oracle).board == OpenAll(b, done + {c}, oracle).board
  {
  }

  lemma OpenStep(b: Board, s: set<Pos>, todo: set<Pos>, c: Pos, oracle: Pos -> int)
    requires WellFormed(b) && s <= b.board.Keys && todo <= s && c in todo
    requires forall q :: q in s ==> b.board[q] != Mine
    ensures OpenCell(OpenAll(b, s - todo, oracle), c, oracle) == OpenAll(b, s - (todo - {c}), oracle)
  {
    var done := s - todo;
    assert s - (todo - {c}) == done + {c};
    OpenStepReduced(b, done, c, oracle);
    OpenStepBoard(b, done, c, oracle);
    assert |done + {c}| == |done| + 1;
  }

  /** `open_cell` applied to the cells of `s` one at a time, in any order. */
  method OpenCells(b: Board, s: set<Pos>, oracle: Pos -> int) returns (r: Board)
    requires WellFormed(b) && s <= b.board.Keys
    requires forall q :: q in s ==> b.board[q] != Mine
    ensures r == OpenAll(b, s, oracle)
  {
    OpenAllNone(b, oracle);
    r := b;
    var todo := s;
    while todo != {}
      invariant todo <= s
      invariant r == OpenAll(b, s - todo, oracle)
      decreases todo
    {
      var c :| c in todo;
      OpenStep(b, s, todo, c, oracle);
      r := OpenCell(r, c, oracle);
      todo := todo - {c};
    }
    assert s - todo == s;
  }

  lemma NearInAdd(q: Pos, done: set<Pos>, c: Pos)
    requires c !in done
    ensures |NearIn(q, done + {c})| == |NearIn(q, done)| + (if Near(q, c) then 1 else 0)
  {
    if Near(q, c) {
      assert NearIn(q, done + {c}) == NearIn(q, done) + {c};
    } else {
      assert NearIn(q, done + {c}) == NearIn(q, done);
    }
  }

  lemma MarkStepReduced(red: map<Pos, Cell>, done: set<Pos>, c: Pos)
    requires c !in done
    ensures MarkedAround(MarkedAll(red, done), c) == MarkedAll(red, done + {c})
  {
    var lhs := MarkedAround(MarkedAll(red, done), c);
    var rhs := MarkedAll(red, done + {c});
    forall q | q in red ensures lhs[q] == rhs[q] {
      NearInAdd(q, done, c);
      NearSymmetric(c, q);
    }
  }

  lemma MarkStepBoard(b: Board, done: set<Pos>, c: Pos)
    requires WellFormed(b) && done <= b.board.Keys && c in b.board
    ensures MarkCell(MarkAll(b, done), c).board == MarkAll(b, done + {c}).board
  {
  }

  lemma MarkStep(b: Board, s: set<Pos>, todo: set<Pos>, c: Pos)
    requires WellFormed(b) && s <= b.board.Keys && todo <= s && c in todo
    ensures MarkCell(MarkAll(b, s - todo), c) == MarkAll(b, s - (todo - {c}))
  {
    var done := s - todo;
    assert s - (todo - {c}) == done + {c};
    MarkStepReduced(b.reduced, done, c);
    MarkStepBoard(b, done, c);
    assert |done + {c}| == |done| + 1;
  }

  /** `mark_cell` applied to the cells of `s` one at a time, in any order. */
  method MarkCells(b: Board, s: set<Pos>) returns (r: Board)
    requires WellFormed(b) && s <= b.board.Keys
    ensures r == MarkAll(b, s)
  {
    MarkAllNone(b);
    r := b;
    var todo := s;
    while todo != {}
      invariant todo <= s
      invariant r == MarkAll(b, s - todo)
      decreases todo
    {
      var c :| c in todo;
      MarkStep(b, s, todo, c);
      r := MarkCell(r, c);
      todo := todo - {c};
    }
    assert s - todo == s;
  }

  // ---------------------------------------------------------------------
  // The board invariants survive both batch operations
  // ---------------------------------------------------------------------

  lemma OpenAllUnknownCells(b: Board, s: set<Pos>, oracle: Pos -> int)
    requires WellFormed(b) && s <= UnknownCells(b)
    ensures UnknownCells(OpenAll(b, s, oracle)) == UnknownCells(b) - s
    ensures |UnknownCells(b) - s| == |UnknownCells(b)| - |s|
  {
  }

  lemma OpenAllKeepsConsistent(b: Board, s: set<Pos>, oracle: Pos -> int)
    requires Consistent(b) && s <= UnknownCells(b)
    ensures Consistent(OpenAll(b, s, oracle))
    ensures UnknownCells(OpenAll(b, s, oracle)) == UnknownCells(b) - s
  {
    OpenAllUnknownCells(b, s, oracle);
    OpenAllKeepsReducedExact(b, s, oracle);
    var r := OpenAll(b, s, oracle);
    assert GridsAgree(r);
    assert CountersAgree(r);
  }

  lemma OpenAllKeepsReducedExact(b: Board, s: set<Pos>, oracle: Pos -> int)
    requires WellFormed(b) && ReducedExact(b) && s <= UnknownCells(b)
    ensures ReducedExact(OpenAll(b, s, oracle))
  {
    var r := OpenAll(b, s, oracle);
    forall q | q in r.board && r.board[q].Num?
      ensures r.reduced[q] == Num(r.board[q].v - CountMines(r, q))
    {
      OpenAllKeepsMineCounts(b, s, oracle, q);
    }
  }

  lemma MarkAllUnknownCells(b: Board, s: set<Pos>)
    requires WellFormed(b) && s <= UnknownCells(b)
    ensures UnknownCells(MarkAll(b, s)) == UnknownCells(b) - s
    ensures |UnknownCells(b) - s| == |UnknownCells(b)| - |s|
  {
  }

  lemma MarkAllKeepsConsistent(b: Board, s: set<Pos>)
    requires Consistent(b) && s <= UnknownCells(b)
    ensures Consistent(MarkAll(b, s))
    ensures UnknownCells(MarkAll(b, s)) == UnknownCells(b) - s
    ensures MineCells(MarkAll(b, s)) == MineCells(b) + s
  {
    MarkAllUnknownCells(b, s);
    MarkAllKeepsReducedExact(b, s);
    var r := MarkAll(b, s);
    assert GridsAgree(r);
    assert CountersAgree(r);
  }

  lemma MarkAllMineCells(b: Board, s: set<Pos>)
    requires WellFormed(b) && s <= UnknownCells(b)
    ensures MineCells(MarkAll(b, s)) == MineCells(b) + s
  {
  }

  /** The mines marked around a numeric cell grow by exactly the marked cells in its window. */
  lemma MarkAllMineCount(b: Board, s: set<Pos>, q: Pos)
    requires WellFormed(b) && s <= UnknownCells(b)
    ensures CountMines(MarkAll(b, s), q) == CountMines(b, q) + |NearIn(q, s)|
  {
    var r := MarkAll(b, s);
    MarkAllMineCells(b, s);
    CountMinesIsWindowMines(b, q);
    CountMinesIsWindowMines(r, q);
    assert NearIn(q, MineCells(r)) == NearIn(q, MineCells(b)) + NearIn(q, s);
    assert NearIn(q, MineCells(b)) !! NearIn(q, s);
  }

  /** One numeric cell of the reduced grid stays exact after marking `s`. */
  lemma MarkAllReducedAt(b: Board, s: set<Pos>, q: Pos)
    requires WellFormed(b) && GridsAgree(b) && ReducedExact(b) && s <= UnknownCells(b)
    requires q in b.board && MarkAll(b, s).board[q].Num?
    ensures MarkAll(b, s).reduced[q] == Num(MarkAll(b, s).board[q].v - CountMines(MarkAll(b, s), q))
  {
    var r := MarkAll(b, s);
    assert q !in s && r.board[q] == b.board[q];
    assert b.reduced[q] == Num(b.board[q].v - CountMines(b, q));
    assert r.reduced[q] == Dec(b.reduced[q], |NearIn(q, s)|);
    MarkAllMineCount(b, s, q);
  }

  lemma MarkAllKeepsReducedExact(b: Board, s: set<Pos>)
    requires WellFormed(b) && GridsAgree(b) && ReducedExact(b) && s <= UnknownCells(b)
    ensures ReducedExact(MarkAll(b, s))
    ensures MineCells(MarkAll(b, s)) == MineCells(b) + s
  {
    var r := MarkAll(b, s);
    MarkAllMineCells(b, s);
    forall q | q in r.board && r.board[q].Num?
      ensures r.reduced[q] == Num(r.board[q].v - CountMines(r, q))
    {
      MarkAllReducedAt(b, s, q);
    }
  }

  // ---------------------------------------------------------------------
  // Agreement with a mine placement
  // ---------------------------------------------------------------------

  /** Opening cells outside the placement agrees with it. */
  lemma OpenAllAgrees(b: Board, s: set<Pos>, oracle: Pos -> int, m: set<Pos>)
    requires WellFormed(b) && s <= b.board.Keys && s !! m
    ensures AgreesWith(b, OpenAll(b, s, oracle), m)
  {
  }

  /** Marking cells inside the placement agrees with it. */
  lemma MarkAllAgrees(b: Board, s: set<Pos>, m: set<Pos>)
    requires WellFormed(b) && s <= b.board.Keys && s <= m
    ensures AgreesWith(b, MarkAll(b, s), m)
  {
  }

  /** Setting the flags leaves every grid, count and counter alone. */
  lemma FlagsKeepConsistent(b: Board, finished: bool, updated: bool)
    requires Consistent(b)
    ensures Consistent(b.(finished := finished, updated := updated))
  {
    var r := b.(finished := finished, updated := updated);
    forall p | p in r.board
      ensures CountMines(r, p) == CountMines(b, p) && CountFrees(r, p) == CountFrees(b, p)
    {
    }
  }

  /** `r` only resolves cells `b` left unknown, and never changes a resolved cell. */
  ghost predicate Extends(b: Board, r: Board) {
    && r.board.Keys == b.board.Keys
    && forall q :: q in b.board && b.board[q] != Unknown ==> r.board[q] == b.board[q]
  }

  lemma OpenAllExtends(b: Board, s: set<Pos>, oracle: Pos -> int)
    requires WellFormed(b) && s <= UnknownCells(b)
    ensures Extends(b, OpenAll(b, s, oracle))
  {
  }

  lemma MarkAllExtends(b: Board, s: set<Pos>)
    requires WellFormed(b) && s <= UnknownCells(b)
    ensures Extends(b, MarkAll(b, s))
  {
  }

  /** Two steps that each agree with a placement, the first extended by the second, agree with it. */
  lemma AgreesTransitive(b: Board, r1: Board, r2: Board, m: set<Pos>)
    requires r1.board.Keys == b.board.Keys
    requires AgreesWith(b, r1, m) && AgreesWith(r1, r2, m) && Extends(r1, r2)
    ensures AgreesWith(b, r2, m)
  {
  }
}
