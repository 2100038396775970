/**
 The rule engine. A rule says that exactly `mines` of the cells in its
 scope are mines. Rules are read off the reduced grid, combined pairwise
 into new rules, and rules whose scope must be all safe or all mines are
 applied to the board.
 */
module Rules {
  import opened Grid
  import opened Primitives

  datatype Option<T> = None | Some(value: T)

  /**
   `Rule`. The source also keeps `len`, the length of the list the scope
   was built from; those lists never repeat a cell, so `len` is always
   `|possibles|` and is not stored.
   */
  datatype Rule = Rule(mines: int, possibles: set<Pos>)

  /** `equals`: rules are compared by scope alone. */
  predicate Equals(a: Rule, b: Rule) {
    a.possibles == b.possibles
  }

  /** The placement `m` puts exactly `r.mines` mines in the scope of `r`. */
  predicate Satisfies(m: set<Pos>, r: Rule) {
    |r.possibles * m| == r.mines
  }

  /** Two rules with one scope that both hold under one placement have one count. */
  lemma EqualsSameMines(a: Rule, b: Rule, m: set<Pos>)
    requires Equals(a, b) && Satisfies(m, a) && Satisfies(m, b)
    ensures a.mines == b.mines
  {
  }

  // ---------------------------------------------------------------------
  // combine
  // ---------------------------------------------------------------------

  /**
   `combine`: disjoint scopes add up; a scope inside another leaves the
   difference with the difference of the counts; overlapping scopes give
   nothing. The cases are tried in that order.
   */
  function Combine(a: Rule, b: Rule): (r: Option<Rule>)
    ensures r.None? <==>
      !(a.possibles !! b.possibles) && !(a.possibles <= b.possibles) && !(b.possibles <= a.possibles)
    ensures r.Some? ==> r.value.possibles <= a.possibles + b.possibles
  {
    if a.possibles !! b.possibles then
      Some(Rule(a.mines + b.mines, a.possibles + b.possibles))
    else if a.possibles <= b.possibles then
      Some(Rule(b.mines - a.mines, b.possibles - a.possibles))
    else if b.possibles <= a.possibles then
      Some(Rule(a.mines - b.mines, a.possibles - b.possibles))
    else
      None
  }

  /**
   The combined rule splits its scope and its count against the inputs: in
   the disjoint case it is the union of both scopes with the sum of both
   counts; otherwise it and the smaller scope partition the larger one, and
   its count is the larger rule's less the smaller rule's.
   */
  lemma CombineScope(a: Rule, b: Rule)
    requires Combine(a, b).Some?
    ensures var c := Combine(a, b).value;
      || (a.possibles !! b.possibles && c.possibles == a.possibles + b.possibles
          && c.mines == a.mines + b.mines)
      || (c.possibles !! a.possibles && c.possibles + a.possibles == b.possibles
          && c.mines == b.mines - a.mines)
      || (c.possibles !! b.possibles && c.possibles + b.possibles == a.possibles
          && c.mines == a.mines - b.mines)
  {
  }

  /** Splitting a scope into a part and the rest splits its mine count. */
  lemma SplitCount(whole: set<Pos>, part: set<Pos>, m: set<Pos>)
    requires part <= whole
    ensures |whole * m| == |part * m| + |(whole - part) * m|
  {
    assert whole * m == part * m + (whole - part) * m;
    assert part * m !! (whole - part) * m;
  }

  /** A combined rule holds under every placement both its inputs hold under. */
  lemma CombineSound(a: Rule, b: Rule, m: set<Pos>)
    requires Satisfies(m, a) && Satisfies(m, b) && Combine(a, b).Some?
    ensures Satisfies(m, Combine(a, b).value)
  {
    if a.possibles !! b.possibles {
      SplitCount(a.possibles + b.possibles, a.possibles, m);
      assert a.possibles + b.possibles - a.possibles == b.possibles;
    } else if a.possibles <= b.possibles {
      SplitCount(b.possibles, a.possibles, m);
    } else {
      SplitCount(a.possibles, b.possibles, m);
    }
  }

  /** Under a placement satisfying the contained rule, the combination recovers the containing one. */
  lemma CombineInverse(a: Rule, b: Rule, m: set<Pos>)
    requires a.possibles <= b.possibles && Combine(a, b).Some?
    requires Satisfies(m, a) && Satisfies(m, Combine(a, b).value)
    ensures Satisfies(m, b)
  {
    SplitCount(b.possibles, a.possibles, m);
  }

  // ---------------------------------------------------------------------
  // create_rules
  // ---------------------------------------------------------------------

  /** The cells of row `x` from column `y` on, left to right. */
  function RowCells(x: int, y: int, cols: int): seq<Pos>
    decreases cols - y
  {
    if y >= cols then [] else [Pos(x, y)] + RowCells(x, y + 1, cols)
  }

  /** The cells of rows `x` onwards, in the order the nested `range` loops visit them. */
  function RowMajor(x: int, rows: int, cols: int): seq<Pos>
    decreases rows - x
  {
    if x >= rows then [] else RowCells(x, 0, cols) + RowMajor(x + 1, rows, cols)
  }

  lemma {:induction false} RowCellsExact(x: int, y: int, cols: int)
    ensures forall q :: q in RowCells(x, y, cols) <==> q.x == x && y <= q.y < cols
    ensures Distinct(RowCells(x, y, cols))
    decreases cols - y
  {
    if y < cols {
      RowCellsExact(x, y + 1, cols);
      var rest := RowCells(x, y + 1, cols);
      DistinctCons(Pos(x, y), rest);
    }
  }

  lemma DistinctCons<T>(a: T, s: seq<T>)
    requires Distinct(s) && a !in s
    ensures Distinct([a] + s)
  {
    var t := [a] + s;
    forall i, j | 0 <= i < j < |t| ensures t[i] != t[j] {
      assert t[j] == s[j - 1];
      if i > 0 {
        assert t[i] == s[i - 1];
      }
    }
  }

  lemma DistinctAppend<T>(s: seq<T>, t: seq<T>)
    requires Distinct(s) && Distinct(t) && Elems(s) !! Elems(t)
    ensures Distinct(s + t)
  {
    var u := s + t;
    forall i, j | 0 <= i < j < |u| ensures u[i] != u[j] {
      if j < |s| {
        assert u[i] == s[i] && u[j] == s[j];
      } else if i >= |s| {
        assert u[i] == t[i - |s|] && u[j] == t[j - |s|];
      } else {
        assert u[i] in Elems(s) && u[j] in Elems(t);
      }
    }
  }

  /** The row-major scan visits every in-bounds cell exactly once. */
  lemma {:induction false} RowMajorExact(x: int, rows: int, cols: int)
    ensures forall q :: q in RowMajor(x, rows, cols) <==> x <= q.x < rows && 0 <= q.y < cols
    ensures Distinct(RowMajor(x, rows, cols))
    decreases rows - x
  {
    if x < rows {
      RowCellsExact(x, 0, cols);
      RowMajorExact(x + 1, rows, cols);
      DistinctAppend(RowCells(x, 0, cols), RowMajor(x + 1, rows, cols));
    }
  }

  /** Some rule in `rules` has the scope of `r`. */
  predicate Known(rules: seq<Rule>, r: Rule) {
    exists k | 0 <= k < |rules| :: Equals(rules[k], r)
  }

  /** No two rules in the list share a scope. */
  predicate NoEquals(rules: seq<Rule>) {
    forall i, j :: 0 <= i < j < |rules| ==> !Equals(rules[i], rules[j])
  }

  /** Append `r` unless a rule with its scope is already present. */
  function AddIfNew(rules: seq<Rule>, r: Rule): (res: seq<Rule>)
    ensures Known(res, r)
    ensures forall x :: x in res <==> x in rules || (x == r && !Known(rules, r))
    ensures NoEquals(rules) ==> NoEquals(res)
  {
    if Known(rules, r) then rules
    else
      var res := rules + [r];
      assert res[|rules|] == r;
      res
  }

  /**
   The rule the source builds for an opened cell `c` with a non-zero reduced
   number: that many mines among the unknown cells of its window.
   */
  function WindowRule(b: Board, c: Pos): Rule
    requires c in b.reduced && b.reduced[c].Num?
  {
    Rule(b.reduced[c].v, UnknownWindow(b, c))
  }

  /** `c` is an opened cell whose reduced number is not zero. */
  predicate NonZeroNumber(b: Board, c: Pos) {
    c in b.reduced && b.reduced[c].Num? && b.reduced[c].v != 0
  }

  /**
   The scan of `create_rules` over `cells`: unknown cells are collected in
   order, and each cell with a non-zero reduced number contributes its
   window rule unless a rule with that scope was already found.
   */
  function ScanRules(b: Board, cells: seq<Pos>): (r: (seq<Rule>, seq<Pos>))
    requires forall q :: q in cells ==> q in b.reduced
    decreases |cells|
  {
    if cells == [] then ([], [])
    else
      var prev := ScanRules(b, cells[..|cells| - 1]);
      var c := cells[|cells| - 1];
      if b.reduced[c] == Unknown then (prev.0, prev.1 + [c])
      else if NonZeroNumber(b, c) then (AddIfNew(prev.0, WindowRule(b, c)), prev.1)
      else prev
  }

  /**
   `create_rules`: the scan over the whole board in row-major order, then
   the rule that the unknown cells hold all the remaining mines. Returns the
   rules and the unknown cells.
   */
  function CreateRules(b: Board): (r: (seq<Rule>, seq<Pos>))
    requires WellFormed(b)
  {
    RowMajorExact(0, b.rows, b.cols);
    var scan := ScanRules(b, RowMajor(0, b.rows, b.cols));
    (AddIfNew(scan.0, Rule(b.minesRemaining, Elems(scan.1))), scan.1)
  }

  lemma {:induction false} ScanRulesUnknowns(b: Board, cells: seq<Pos>)
    requires forall q :: q in cells ==> q in b.reduced
    requires Distinct(cells)
    ensures Elems(ScanRules(b, cells).1) == set q | q in cells && b.reduced[q] == Unknown
    ensures Distinct(ScanRules(b, cells).1)
    decreases |cells|
  {
    if cells != [] {
      var init := cells[..|cells| - 1];
      var c := cells[|cells| - 1];
      assert cells == init + [c];
      assert Distinct(init) by {
        forall i, j | 0 <= i < j < |init| ensures init[i] != init[j] {
          assert init[i] == cells[i] && init[j] == cells[j];
        }
      }
      assert c !in init by {
        forall i | 0 <= i < |init| ensures init[i] != c {
          assert init[i] == cells[i];
        }
      }
      ScanRulesUnknowns(b, init);
      var prev := ScanRules(b, init);
      if b.reduced[c] == Unknown {
        assert Elems(prev.1 + [c]) == Elems(prev.1) + {c};
        DistinctAppend(prev.1, [c]);
      }
    }
  }

  lemma {:induction false} ScanRulesRules(b: Board, cells: seq<Pos>)
    requires forall q :: q in cells ==> q in b.reduced
    ensures var rules := ScanRules(b, cells).0;
      && NoEquals(rules)
      && (forall x :: x in rules ==> exists c :: c in cells && NonZeroNumber(b, c) && x == WindowRule(b, c))
      && (forall c :: c in cells && NonZeroNumber(b, c) ==> Known(rules, WindowRule(b, c)))
    decreases |cells|
  {
    if cells != [] {
      var init := cells[..|cells| - 1];
      var c := cells[|cells| - 1];
      assert cells == init + [c];
      ScanRulesRules(b, init);
      var prev := ScanRules(b, init).0;
      if NonZeroNumber(b, c) {
        var res := AddIfNew(prev, WindowRule(b, c));
        forall c' | c' in cells && NonZeroNumber(b, c') ensures Known(res, WindowRule(b, c')) {
          if c' != c {
            assert c' in init;
            var k :| 0 <= k < |prev| && Equals(prev[k], WindowRule(b, c'));
            assert prev[k] in res;
            var k' :| 0 <= k' < |res| && res[k'] == prev[k];
          }
        }
      }
    }
  }

  /** The global rule: the unknown cells hold every remaining mine. */
  function RemainingRule(b: Board): Rule {
    Rule(b.minesRemaining, ReducedUnknowns(b))
  }

  /** The unknown cells `create_rules` returns are the reduced grid's unknown cells, each once. */
  lemma CreateRulesUnknowns(b: Board)
    requires WellFormed(b)
    ensures Elems(CreateRules(b).1) == ReducedUnknowns(b)
    ensures Distinct(CreateRules(b).1)
  {
    RowMajorExact(0, b.rows, b.cols);
    ScanRulesUnknowns(b, RowMajor(0, b.rows, b.cols));
  }

  /**
   Every rule `create_rules` returns is the window rule of a cell with a
   non-zero reduced number or the global rule, and no two share a scope.
   */
  lemma CreateRulesShape(b: Board)
    requires WellFormed(b)
    ensures var rules := CreateRules(b).0;
      && NoEquals(rules)
      && forall x :: x in rules ==>
           x == RemainingRule(b) || exists c :: NonZeroNumber(b, c) && x == WindowRule(b, c)
  {
    CreateRulesUnknowns(b);
    RowMajorExact(0, b.rows, b.cols);
    var scan := ScanRules(b, RowMajor(0, b.rows, b.cols));
    ScanRulesRules(b, RowMajor(0, b.rows, b.cols));
    assert Rule(b.minesRemaining, Elems(scan.1)) == RemainingRule(b);
  }

  /**
   Every cell with a non-zero reduced number has its window rule among the
   results, up to scope, and so has the global rule.
   */
  lemma CreateRulesComplete(b: Board)
    requires WellFormed(b)
    ensures var rules := CreateRules(b).0;
      && Known(rules, RemainingRule(b))
      && forall c :: NonZeroNumber(b, c) ==> Known(rules, WindowRule(b, c))
  {
    RowMajorExact(0, b.rows, b.cols);
    CreateRulesUnknowns(b);
    var scan := ScanRules(b, RowMajor(0, b.rows, b.cols));
    ScanRulesRules(b, RowMajor(0, b.rows, b.cols));
    var rules := CreateRules(b).0;
    forall c | NonZeroNumber(b, c) ensures Known(rules, WindowRule(b, c)) {
      assert c in RowMajor(0, b.rows, b.cols);
      var k :| 0 <= k < |scan.0| && Equals(scan.0[k], WindowRule(b, c));
      assert scan.0[k] in rules;
      var k' :| 0 <= k' < |rules| && rules[k'] == scan.0[k];
    }
  }

  /** Every rule `create_rules` returns holds under every placement the board admits. */
  lemma CreateRulesSound(b: Board, m: set<Pos>)
    requires WellFormed(b) && GridsAgree(b) && Explains(b, m)
    ensures forall x :: x in CreateRules(b).0 ==> Satisfies(m, x) && x.possibles <= UnknownCells(b)
  {
    CreateRulesShape(b);
    ReducedUnknownsAreUnknown(b);
    assert UnknownCells(b) * m == m;
  }

  // ---------------------------------------------------------------------
  // combine_rules
  // ---------------------------------------------------------------------

  /** `a.combine(r)` for each `r` of `rs` in order, keeping the rules produced. */
  function CombineWith(a: Rule, rs: seq<Rule>): seq<Rule> {
    if rs == [] then []
    else
      (match Combine(a, rs[0]) case Some(c) => [c] case None => [])
      + CombineWith(a, rs[1..])
  }

  /** `r.combine(o)` for each `r` of `rs` in order, keeping the rules produced. */
  function CombineAgainst(rs: seq<Rule>, o: Rule): seq<Rule> {
    if rs == [] then []
    else
      (match Combine(rs[0], o) case Some(c) => [c] case None => [])
      + CombineAgainst(rs[1..], o)
  }

  /** The first loop of `combine_rules`: every pair `i < j` of `rules`, in order. */
  function WithinPairs(rules: seq<Rule>): seq<Rule> {
    if rules == [] then [] else CombineWith(rules[0], rules[1..]) + WithinPairs(rules[1..])
  }

  /** The second loop: each old rule against each current rule. */
  function CrossPairs(olds: seq<Rule>, rules: seq<Rule>): seq<Rule> {
    if olds == [] then [] else CombineAgainst(rules, olds[0]) + CrossPairs(olds[1..], rules)
  }

  /**
   The candidates in order, each kept unless a rule with its scope is in
   `known` or was kept before it.
   */
  function Dedup(known: seq<Rule>, cands: seq<Rule>): seq<Rule>
    decreases |cands|
  {
    if cands == [] then []
    else
      var prev := Dedup(known, cands[..|cands| - 1]);
      var c := cands[|cands| - 1];
      if Known(known, c) then prev else AddIfNew(prev, c)
  }

  /**
   `combine_rules`: the new rules found by combining pairs, and the olds
   rules followed by the current ones.
   */
  function CombineRules(rules: seq<Rule>, olds: seq<Rule>): (r: (seq<Rule>, seq<Rule>))
    ensures r.1 == olds + rules
  {
    (Dedup(olds + rules, WithinPairs(rules) + CrossPairs(olds, rules)), olds + rules)
  }

  lemma {:induction false} CombineWithMembers(a: Rule, rs: seq<Rule>)
    ensures forall x :: x in CombineWith(a, rs) <==> exists r :: r in rs && Combine(a, r) == Some(x)
  {
    if rs != [] {
      CombineWithMembers(a, rs[1..]);
      assert forall r :: r in rs <==> r == rs[0] || r in rs[1..];
    }
  }

  lemma {:induction false} CombineAgainstMembers(rs: seq<Rule>, o: Rule)
    ensures forall x :: x in CombineAgainst(rs, o) <==> exists r :: r in rs && Combine(r, o) == Some(x)
  {
    if rs != [] {
      CombineAgainstMembers(rs[1..], o);
      assert forall r :: r in rs <==> r == rs[0] || r in rs[1..];
    }
  }

  /** A pair of positions `i < j` in `rules` whose combination is `x`. */
  ghost predicate PairMakes(rules: seq<Rule>, x: Rule) {
    exists i, j :: 0 <= i < j < |rules| && Combine(rules[i], rules[j]) == Some(x)
  }

  lemma {:induction false} WithinPairsMembers(rules: seq<Rule>)
    ensures forall x :: x in WithinPairs(rules) <==> PairMakes(rules, x)
  {
    if rules != [] {
      var tail := rules[1..];
      WithinPairsMembers(tail);
      CombineWithMembers(rules[0], tail);
      forall x ensures x in WithinPairs(rules) <==> PairMakes(rules, x) {
        if x in WithinPairs(rules) {
          if x in CombineWith(rules[0], tail) {
            var r :| r in tail && Combine(rules[0], r) == Some(x);
            var j :| 0 <= j < |tail| && tail[j] == r;
            assert Combine(rules[0], rules[j + 1]) == Some(x);
          } else {
            assert x in WithinPairs(tail);
            var i, j :| 0 <= i < j < |tail| && Combine(tail[i], tail[j]) == Some(x);
            assert Combine(rules[i + 1], rules[j + 1]) == Some(x);
          }
        }
        if PairMakes(rules, x) {
          var i, j :| 0 <= i < j < |rules| && Combine(rules[i], rules[j]) == Some(x);
          if i == 0 {
            assert rules[j] in tail;
          } else {
            assert Combine(tail[i - 1], tail[j - 1]) == Some(x);
          }
        }
      }
    }
  }

  lemma {:induction false} CrossPairsMembers(olds: seq<Rule>, rules: seq<Rule>)
    ensures forall x :: x in CrossPairs(olds, rules) <==>
      exists o, r :: o in olds && r in rules && Combine(r, o) == Some(x)
  {
    if olds != [] {
      CrossPairsMembers(olds[1..], rules);
      CombineAgainstMembers(rules, olds[0]);
      assert forall o :: o in olds <==> o == olds[0] || o in olds[1..];
    }
  }

  lemma {:induction false} DedupExact(known: seq<Rule>, cands: seq<Rule>)
    ensures var res := Dedup(known, cands);
      && NoEquals(res)
      && (forall x :: x in res ==> x in cands && !Known(known, x))
      && (forall c :: c in cands ==> Known(known, c) || Known(res, c))
    decreases |cands|
  {
    if cands != [] {
      var init := cands[..|cands| - 1];
      var c := cands[|cands| - 1];
      assert cands == init + [c];
      DedupExact(known, init);
      var prev := Dedup(known, init);
      var res := Dedup(known, cands);
      forall c' | c' in cands ensures Known(known, c') || Known(res, c') {
        if c' != c && !Known(known, c') {
          assert c' in init;
          var k :| 0 <= k < |prev| && Equals(prev[k], c');
          assert prev[k] in res;
          var k' :| 0 <= k' < |res| && res[k'] == prev[k];
        }
      }
    }
  }

  /**
   Every new rule from `combine_rules` is the combination of two current
   rules or of a current rule with an old one; no two new rules share a
   scope, and none shares a scope with an old or current rule.
   */
  lemma CombineRulesFresh(rules: seq<Rule>, olds: seq<Rule>)
    ensures var res := CombineRules(rules, olds).0;
      && NoEquals(res)
      && forall x :: x in res ==>
           && !Known(olds + rules, x)
           && (PairMakes(rules, x) || exists o, r :: o in olds && r in rules && Combine(r, o) == Some(x))
  {
    DedupExact(olds + rules, WithinPairs(rules) + CrossPairs(olds, rules));
    WithinPairsMembers(rules);
    CrossPairsMembers(olds, rules);
  }

  /**
   Nothing a pair combines to is lost: every combination of two current
   rules, or of a current rule with an old one, has its scope among the
   old, current or new rules.
   */
  lemma CombineRulesComplete(rules: seq<Rule>, olds: seq<Rule>)
    ensures var r := CombineRules(rules, olds);
      && (forall x :: PairMakes(rules, x) ==> Known(r.1, x) || Known(r.0, x))
      && (forall o, a, x :: o in olds && a in rules && Combine(a, o) == Some(x) ==>
            Known(r.1, x) || Known(r.0, x))
  {
    var cands := WithinPairs(rules) + CrossPairs(olds, rules);
    DedupExact(olds + rules, cands);
    WithinPairsMembers(rules);
    CrossPairsMembers(olds, rules);
    forall o, a, x | o in olds && a in rules && Combine(a, o) == Some(x)
      ensures x in cands
    {
      assert x in CrossPairs(olds, rules);
    }
  }

  /** If every old and current rule holds under a placement, so does every new rule. */
  lemma CombineRulesSound(rules: seq<Rule>, olds: seq<Rule>, m: set<Pos>, scope: set<Pos>)
    requires forall x :: x in olds + rules ==> Satisfies(m, x) && x.possibles <= scope
    ensures forall x :: x in CombineRules(rules, olds).0 ==> Satisfies(m, x) && x.possibles <= scope
  {
    CombineRulesFresh(rules, olds);
    forall x | x in CombineRules(rules, olds).0 ensures Satisfies(m, x) && x.possibles <= scope {
      if PairMakes(rules, x) {
        var i, j :| 0 <= i < j < |rules| && Combine(rules[i], rules[j]) == Some(x);
        assert rules[i] in olds + rules && rules[j] in olds + rules;
        CombineSound(rules[i], rules[j], m);
      } else {
        var o, r :| o in olds && r in rules && Combine(r, o) == Some(x);
        assert o in olds + rules && r in olds + rules;
        CombineSound(r, o, m);
      }
    }
  }

  // ---------------------------------------------------------------------
  // check_rules
  // ---------------------------------------------------------------------

  /** The cells in the scope of some rule that holds no mine. */
  function RulesToOpen(rules: seq<Rule>): set<Pos> {
    set x, q | x in rules && x.mines == 0 && q in x.possibles :: q
  }

  /** The cells in the scope of some rule whose every cell is a mine. */
  function RulesToMark(rules: seq<Rule>): set<Pos> {
    set x, q | x in rules && x.mines != 0 && x.mines == |x.possibles| && q in x.possibles :: q
  }

  /** A rule that settles its whole scope, one way or the other. */
  predicate Trivial(x: Rule) {
    x.mines == 0 || x.mines == |x.possibles|
  }

  /**
   `check_rules`: the progress flag is raised by any rule with no mines or
   with as many mines as cells; the union of the first kind's scopes is
   opened and then the union of the second kind's is marked.
   */
  function CheckRules(b: Board, rules: seq<Rule>, oracle: Pos -> int): (r: Board)
    requires WellFormed(b)
    requires forall x :: x in rules ==> x.possibles <= UnknownCells(b)
    ensures WellFormed(r)
  {
    assert UnknownCells(b) <= b.board.Keys;
    var toOpen, toMark := RulesToOpen(rules), RulesToMark(rules);
    MarkAll(OpenAll(b.(updated := RulesProgress(b, rules)), toOpen, oracle), toMark)
  }

  /** The progress flag after `check_rules`. */
  predicate RulesProgress(b: Board, rules: seq<Rule>) {
    b.updated || exists x | x in rules :: Trivial(x)
  }

  /**
   The flag is raised exactly when some rule is trivial; every cell of a
   marked scope becomes a mine, every other cell of an opened scope is
   revealed, and nothing else changes.
   */
  lemma CheckRulesEffect(b: Board, rules: seq<Rule>, oracle: Pos -> int)
    requires WellFormed(b)
    requires forall x :: x in rules ==> x.possibles <= UnknownCells(b)
    ensures var r := CheckRules(b, rules, oracle);
      var toOpen, toMark := RulesToOpen(rules), RulesToMark(rules);
      && (r.updated <==> b.updated || exists x :: x in rules && Trivial(x))
      && (forall q :: q in toMark ==> r.board[q] == Mine)
      && (forall q :: q in toOpen - toMark ==> r.board[q] == Num(oracle(q)))
      && (forall q :: q in b.board && q !in toOpen + toMark ==> r.board[q] == b.board[q])
  {
  }

  /** Under a placement satisfying every rule, the opened cells are safe and the marked ones are mines. */
  lemma TrivialRulesSound(rules: seq<Rule>, m: set<Pos>)
    requires forall x :: x in rules ==> Satisfies(m, x)
    ensures RulesToOpen(rules) !! m
    ensures RulesToMark(rules) <= m
  {
    forall x | x in rules && x.mines != 0 && x.mines == |x.possibles|
      ensures x.possibles <= m
    {
      SubsetCardinality(x.possibles * m, x.possibles);
      FullSubset(x.possibles * m, x.possibles);
    }
    forall x, q | x in rules && x.mines == 0 && q in x.possibles
      ensures q !in m
    {
      var hit := x.possibles * m;
      assert |hit| == 0;
      assert q !in hit;
    }
  }

  /** `check_rules` resolves cells only in agreement with a placement satisfying every rule. */
  lemma CheckRulesSound(b: Board, rules: seq<Rule>, oracle: Pos -> int, m: set<Pos>)
    requires WellFormed(b)
    requires forall x :: x in rules ==> x.possibles <= UnknownCells(b) && Satisfies(m, x)
    ensures AgreesWith(b, CheckRules(b, rules, oracle), m)
  {
    TrivialRulesSound(rules, m);
    CheckRulesEffect(b, rules, oracle);
  }

  /**
   On a consistent board, with every scope unknown and a placement that
   satisfies every rule, `check_rules` keeps the board consistent.
   */
  lemma CheckRulesKeepsConsistent(b: Board, rules: seq<Rule>, oracle: Pos -> int, m: set<Pos>)
    requires Consistent(b)
    requires forall x :: x in rules ==> x.possibles <= UnknownCells(b) && Satisfies(m, x)
    ensures Consistent(CheckRules(b, rules, oracle))
  {
    TrivialRulesSound(rules, m);
    var toOpen, toMark := RulesToOpen(rules), RulesToMark(rules);
    var b1 := b.(updated := RulesProgress(b, rules));
    FlagsKeepConsistent(b, b.finished, RulesProgress(b, rules));
    assert UnknownCells(b1) == UnknownCells(b);
    assert toOpen <= UnknownCells(b1);
    OpenAllKeepsConsistent(b1, toOpen, oracle);
    var b2 := OpenAll(b1, toOpen, oracle);
    assert toMark <= UnknownCells(b2);
    MarkAllKeepsConsistent(b2, toMark);
  }
}
