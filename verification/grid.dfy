/**
 The board of the Minesweeper deduction engine: positions, cell states, the
 primary grid and the "reduced" grid, the bookkeeping counters, the 3x3
 neighbourhood and the two neighbour tallies `count_mines` / `count_frees`.

 Both grids are maps from on-board positions to cell states. A cell is either
 still unknown (`?` in `minesweeper.py`), a marked mine (`x`) or a number. In the
 primary grid a number is the revealed count; in the reduced grid it is the
 count of mines still to be found among the cell's unknown neighbours.
 */
module Grid {

  datatype Pos = Pos(x: int, y: int)

  datatype Cell = Unknown | Mine | Num(v: int)

  /** The exception raised by `set.remove` on a missing element. */
  datatype Error = KeyError

  datatype Result<T> = Ok(value: T) | Err(error: Error) {
    predicate IsFailure() { Err? }

    function PropagateFailure<U>(): Result<U>
      requires Err?
    {
      Err(error)
    }

    function Extract(): T
      requires Ok?
    {
      value
    }
  }

  datatype Board = Board(
    rows: nat,                 // len_x
    cols: nat,                 // len_y
    board: map<Pos, Cell>,     // primary grid
    reduced: map<Pos, Cell>,   // reduced grid
    mines: int,
    minesFound: int,
    minesRemaining: int,
    freeRemaining: int,
    openedCells: set<Pos>,
    unexhausted: set<Pos>,
    updated: bool,
    finished: bool)

  /** The nine offsets of the 3x3 window; the centre (0, 0) is included. */
  const Directions: seq<(int, int)> :=
    [(-1, -1), (-1, 0), (-1, 1),
     ( 0, -1), ( 0, 0), ( 0, 1),
     ( 1, -1), ( 1, 0), ( 1, 1)]

  const CardinalDirections: seq<(int, int)> := [(-1, 0), (1, 0), (0, -1), (0, 1)]

  function Shift(p: Pos, d: (int, int)): Pos {
    Pos(p.x + d.0, p.y + d.1)
  }

  function Offset(p: Pos, q: Pos): (int, int) {
    (q.x - p.x, q.y - p.y)
  }

  /** `q` lies in the 3x3 window centred on `p` (this includes `p` itself). */
  predicate Near(p: Pos, q: Pos) {
    -1 <= q.x - p.x <= 1 && -1 <= q.y - p.y <= 1
  }

  predicate InBounds(rows: int, cols: int, p: Pos) {
    0 <= p.x <= rows - 1 && 0 <= p.y <= cols - 1
  }

  /** `on_board`. */
  predicate OnBoard(b: Board, p: Pos) {
    InBounds(b.rows, b.cols, p)
  }

  /** The grid has a cell at every in-bounds position. */
  ghost predicate Covers(g: map<Pos, Cell>, rows: int, cols: int) {
    forall q :: InBounds(rows, cols, q) ==> q in g
  }

  /** Both grids hold exactly the on-board positions. */
  ghost predicate WellFormed(b: Board) {
    && (forall p :: p in b.board <==> OnBoard(b, p))
    && b.reduced.Keys == b.board.Keys
  }

  predicate Distinct<T(==)>(s: seq<T>) {
    forall i, j :: 0 <= i < j < |s| ==> s[i] != s[j]
  }

  /** The elements of a list, as a set. */
  function Elems<T>(s: seq<T>): set<T> {
    set x | x in s
  }

  /** The positions the primary grid shows as unknown. */
  function UnknownCells(b: Board): set<Pos> {
    set q | q in b.board && b.board[q] == Unknown
  }

  /** The positions the reduced grid shows as unknown. */
  function ReducedUnknowns(b: Board): set<Pos> {
    set q | q in b.reduced && b.reduced[q] == Unknown
  }

  /** The positions the primary grid shows as marked mines. */
  function MineCells(b: Board): set<Pos> {
    set q | q in b.board && b.board[q] == Mine
  }

  /** The unknown cells (as the reduced grid shows them) in the window of `p`. */
  function UnknownWindow(b: Board, p: Pos): set<Pos> {
    set q | q in b.reduced && Near(p, q) && b.reduced[q] == Unknown
  }

  /** The cells of `s` that lie in the window of `q`. */
  function NearIn(q: Pos, s: set<Pos>): set<Pos> {
    set c | c in s && Near(q, c)
  }

  /** Tally of the cells `Shift(p, d)`, `d` in `dirs`, that are in bounds and show `c` in `g`. */
  function CountIn(g: map<Pos, Cell>, rows: int, cols: int, p: Pos, dirs: seq<(int, int)>, c: Cell): nat
    requires Covers(g, rows, cols)
  {
    if dirs == [] then 0
    else
      var q := Shift(p, dirs[0]);
      (if InBounds(rows, cols, q) && g[q] == c then 1 else 0) + CountIn(g, rows, cols, p, dirs[1..], c)
  }

  /** `count_mines`: marked mines in the 3x3 window, centre included. */
  function CountMines(b: Board, p: Pos): nat
    requires WellFormed(b)
  {
    CountIn(b.board, b.rows, b.cols, p, Directions, Mine)
  }

  /** `count_frees`: unknown cells in the 3x3 window, centre included. */
  function CountFrees(b: Board, p: Pos): nat
    requires WellFormed(b)
  {
    CountIn(b.board, b.rows, b.cols, p, Directions, Unknown)
  }

  /** The two grids agree on which cells are unknown and which are mines. */
  predicate GridsAgree(b: Board) {
    forall q :: q in b.board ==>
      && q in b.reduced
      && (b.board[q] == Unknown <==> b.reduced[q] == Unknown)
      && (b.board[q] == Mine <==> b.reduced[q] == Mine)
  }

  /** The counters agree with each other and with the primary grid. */
  predicate CountersAgree(b: Board) {
    && b.minesFound + b.minesRemaining == b.mines
    && b.freeRemaining == |UnknownCells(b)|
  }

  /** Every reduced number is its revealed number less the marked mines around it. */
  predicate ReducedExact(b: Board)
    requires WellFormed(b)
  {
    forall q :: q in b.board && b.board[q].Num? ==>
      b.reduced[q] == Num(b.board[q].v - CountMines(b, q))
  }

  ghost predicate Consistent(b: Board) {
    WellFormed(b) && GridsAgree(b) && CountersAgree(b) && ReducedExact(b)
  }

  lemma ReducedUnknownsAreUnknown(b: Board)
    requires WellFormed(b) && GridsAgree(b)
    ensures ReducedUnknowns(b) == UnknownCells(b)
  {
  }

  // ---------------------------------------------------------------------
  // The direction table and the window
  // ---------------------------------------------------------------------

  lemma DirectionsAreTheWindow(p: Pos, q: Pos)
    ensures Offset(p, q) in Directions <==> Near(p, q)
  {
    if Near(p, q) {
      var dx, dy := q.x - p.x, q.y - p.y;
      assert dx == -1 || dx == 0 || dx == 1;
      assert dy == -1 || dy == 0 || dy == 1;
      assert Directions[3 * (dx + 1) + (dy + 1)] == (dx, dy);
    }
  }

  lemma DirectionsDistinct()
    ensures Distinct(Directions)
  {
  }

  /** The cells at offsets `dirs` from `p` that show `c`. */
  function Matching(b: Board, p: Pos, dirs: seq<(int, int)>, c: Cell): set<Pos> {
    set q | q in b.board && Offset(p, q) in dirs && b.board[q] == c
  }

  lemma DistinctTail<T>(s: seq<T>)
    requires s != [] && Distinct(s)
    ensures Distinct(s[1..]) && s[0] !in s[1..]
  {
    var rest := s[1..];
    forall i, j | 0 <= i < j < |rest| ensures rest[i] != rest[j] {
      assert rest[i] == s[i + 1] && rest[j] == s[j + 1];
    }
    forall i | 0 <= i < |rest| ensures rest[i] != s[0] {
      assert rest[i] == s[i + 1];
    }
  }

  lemma MatchingStep(b: Board, p: Pos, dirs: seq<(int, int)>, c: Cell)
    requires WellFormed(b)
    requires dirs != [] && dirs[0] !in dirs[1..]
    ensures var q0 := Shift(p, dirs[0]);
      && q0 !in Matching(b, p, dirs[1..], c)
      && Matching(b, p, dirs, c) ==
           Matching(b, p, dirs[1..], c) + (if OnBoard(b, q0) && b.board[q0] == c then {q0} else {})
  {
    var q0 := Shift(p, dirs[0]);
    assert Offset(p, q0) == dirs[0];
    forall q | q in b.board
      ensures Offset(p, q) in dirs <==> Offset(p, q) in dirs[1..] || q == q0
    {
      assert dirs == [dirs[0]] + dirs[1..];
    }
  }

  /** A tally over distinct offsets is the size of the set of matching cells. */
  lemma {:induction false} CountInIsCardinality(b: Board, p: Pos, dirs: seq<(int, int)>, c: Cell)
    requires WellFormed(b)
    requires Distinct(dirs)
    ensures CountIn(b.board, b.rows, b.cols, p, dirs, c) == |Matching(b, p, dirs, c)|
  {
    if dirs != [] {
      DistinctTail(dirs);
      CountInIsCardinality(b, p, dirs[1..], c);
      MatchingStep(b, p, dirs, c);
    }
  }

  /** A window tally is the number of cells in the window showing that state. */
  lemma CountWindowIsCardinality(b: Board, p: Pos, c: Cell)
    requires WellFormed(b)
    ensures CountIn(b.board, b.rows, b.cols, p, Directions, c) == |set q | q in b.board && Near(p, q) && b.board[q] == c|
  {
    CountInIsCardinality(b, p, Directions, c);
    var byDirs := Matching(b, p, Directions, c);
    var byNear := set q | q in b.board && Near(p, q) && b.board[q] == c;
    forall q ensures q in byDirs <==> q in byNear {
      DirectionsAreTheWindow(p, q);
    }
    assert byDirs == byNear;
  }

  /** `count_mines` counts the marked mines of the window. */
  lemma CountMinesIsWindowMines(b: Board, p: Pos)
    requires WellFormed(b)
    ensures CountMines(b, p) == |NearIn(p, MineCells(b))|
    ensures CountMines(b, p) <= 9
  {
    CountWindowIsCardinality(b, p, Mine);
    assert (set q | q in b.board && Near(p, q) && b.board[q] == Mine) == NearIn(p, MineCells(b));
    CountInBound(b, p, Directions, Mine);
  }

  /** `count_frees` counts the unknown cells of the window. */
  lemma CountFreesIsUnknownWindow(b: Board, p: Pos)
    requires WellFormed(b) && GridsAgree(b)
    ensures CountFrees(b, p) == |UnknownWindow(b, p)|
  {
    CountWindowIsCardinality(b, p, Unknown);
    assert (set q | q in b.board && Near(p, q) && b.board[q] == Unknown) == UnknownWindow(b, p);
  }

  lemma {:induction false} CountInBound(b: Board, p: Pos, dirs: seq<(int, int)>, c: Cell)
    requires WellFormed(b)
    ensures CountIn(b.board, b.rows, b.cols, p, dirs, c) <= |dirs|
  {
    if dirs != [] {
      CountInBound(b, p, dirs[1..], c);
    }
  }

  /** Tallies depend only on which on-board cells show the counted state. */
  lemma {:induction false} CountInFrame(g1: map<Pos, Cell>, g2: map<Pos, Cell>, rows: int, cols: int,
                                       p: Pos, dirs: seq<(int, int)>, c: Cell)
    requires Covers(g1, rows, cols) && Covers(g2, rows, cols)
    requires forall q :: InBounds(rows, cols, q) ==> (g1[q] == c <==> g2[q] == c)
    ensures CountIn(g1, rows, cols, p, dirs, c) == CountIn(g2, rows, cols, p, dirs, c)
  {
    if dirs != [] {
      CountInFrame(g1, g2, rows, cols, p, dirs[1..], c);
    }
  }

  lemma NearSymmetric(p: Pos, q: Pos)
    ensures Near(p, q) <==> Near(q, p)
  {
  }
  // ---------------------------------------------------------------------
  // Mine placements the board admits
  // ---------------------------------------------------------------------

  /**
   The set `m` of unknown cells could be where the remaining mines are: it has
   `mines_remaining` cells and every numeric reduced value counts exactly the
   cells of `m` among that cell's unknown neighbours.
   */
  ghost predicate Explains(b: Board, m: set<Pos>) {
    && m <= UnknownCells(b)
    && |m| == b.minesRemaining
    && forall p :: p in b.reduced && b.reduced[p].Num? ==> |UnknownWindow(b, p) * m| == b.reduced[p].v
  }

  /**
   Going from `b` to `r` resolved cells only in agreement with the placement
   `m`: a cell that was unknown and is now a mine lies in `m`, and a cell that
   was unknown and is now open does not.
   */
  ghost predicate AgreesWith(b: Board, r: Board, m: set<Pos>) {
    forall q :: q in b.board && b.board[q] == Unknown && q in r.board ==>
      && (r.board[q] == Mine ==> q in m)
      && (r.board[q].Num? ==> q !in m)
  }

  lemma SubsetCardinality<T>(a: set<T>, b: set<T>)
    requires a <= b
    ensures |a| <= |b|
  {
    assert b == a + (b - a);
  }

  /** A subset as large as its superset is the whole superset. */
  lemma FullSubset<T>(a: set<T>, b: set<T>)
    requires a <= b && |a| == |b|
    ensures a == b
  {
    assert |b - a| == |b| - |a|;
  }
}
