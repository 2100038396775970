/**
 The block search. Unknown cells that lie in exactly the same rules are
 grouped into blocks; every assignment of mine counts to blocks within
 their bounds is tried against the rules, and blocks that hold no mine in
 any solution are opened.
 */
module Blocks {
  import opened Grid
  import opened Primitives
  import opened Rules

  // ---------------------------------------------------------------------
  // create_blocks
  // ---------------------------------------------------------------------

  /** The flags the source joins into a key: whether `c` lies in the scope of each rule. */
  function Sig(rules: seq<Rule>, c: Pos): seq<bool>
  {
    seq(|rules|, i requires 0 <= i < |rules| => c in rules[i].possibles)
  }

  /** Two cells get the same key exactly when they lie in the same rules. */
  lemma SigEqual(rules: seq<Rule>, c: Pos, d: Pos)
    ensures Sig(rules, c) == Sig(rules, d)
      <==> forall i :: 0 <= i < |rules| ==> (c in rules[i].possibles <==> d in rules[i].possibles)
  {
    if forall i :: 0 <= i < |rules| ==> (c in rules[i].possibles <==> d in rules[i].possibles) {
      assert forall i :: 0 <= i < |rules| ==> Sig(rules, c)[i] == Sig(rules, d)[i];
    }
    if Sig(rules, c) == Sig(rules, d) {
      forall i | 0 <= i < |rules| ensures c in rules[i].possibles <==> d in rules[i].possibles {
        assert Sig(rules, c)[i] == Sig(rules, d)[i];
      }
    }
  }

  /** One entry of the source's key-to-cells dictionary. */
  datatype Group = Group(key: seq<bool>, cells: seq<Pos>)

  /** The position of the entry with `key`, or `|groups|` if there is none. */
  function FindKey(groups: seq<Group>, key: seq<bool>): (r: nat)
    ensures r <= |groups|
    ensures r < |groups| ==> groups[r].key == key
    ensures r == |groups| <==> forall k :: 0 <= k < |groups| ==> groups[k].key != key
  {
    if groups == [] then 0
    else if groups[0].key == key then 0
    else
      var r := FindKey(groups[1..], key);
      assert forall k :: 1 <= k < |groups| ==> groups[k] == groups[1..][k - 1];
      1 + r
  }

  /** `blocks[key].append(cell)` on a dictionary that keeps insertion order. */
  function AddToGroup(groups: seq<Group>, key: seq<bool>, c: Pos): seq<Group> {
    var k := FindKey(groups, key);
    if k < |groups| then groups[k := Group(key, groups[k].cells + [c])]
    else groups + [Group(key, [c])]
  }

  /** The dictionary after visiting `cells` in order. */
  function GroupCells(rules: seq<Rule>, cells: seq<Pos>): seq<Group>
    decreases |cells|
  {
    if cells == [] then []
    else
      var c := cells[|cells| - 1];
      AddToGroup(GroupCells(rules, cells[..|cells| - 1]), Sig(rules, c), c)
  }

  /** The entries of `groups` are non-empty, keyed by their cells' flags, with distinct keys. */
  ghost predicate GroupedBy(rules: seq<Rule>, groups: seq<Group>) {
    && (forall k :: 0 <= k < |groups| ==> groups[k].cells != [])
    && (forall k, c :: 0 <= k < |groups| && c in groups[k].cells ==> Sig(rules, c) == groups[k].key)
    && (forall k, l :: 0 <= k < l < |groups| ==> groups[k].key != groups[l].key)
  }

  /** `c` lies in one of the entries. */
  ghost predicate Grouped(groups: seq<Group>, c: Pos) {
    exists k :: 0 <= k < |groups| && c in groups[k].cells
  }

  lemma AddToGroupKeeps(rules: seq<Rule>, groups: seq<Group>, c: Pos)
    requires GroupedBy(rules, groups)
    ensures var g := AddToGroup(groups, Sig(rules, c), c);
      && GroupedBy(rules, g)
      && (forall q :: Grouped(g, q) <==> Grouped(groups, q) || q == c)
  {
    var key := Sig(rules, c);
    var k := FindKey(groups, key);
    var g := AddToGroup(groups, key, c);
    if k < |groups| {
      forall q ensures Grouped(g, q) <==> Grouped(groups, q) || q == c {
        if Grouped(groups, q) {
          var l :| 0 <= l < |groups| && q in groups[l].cells;
          assert q in g[l].cells;
        }
        if q == c {
          assert q in g[k].cells;
        }
        if Grouped(g, q) {
          var l :| 0 <= l < |g| && q in g[l].cells;
          if l != k {
            assert q in groups[l].cells;
          }
        }
      }
    } else {
      assert g[|groups|] == Group(key, [c]);
      forall q ensures Grouped(g, q) <==> Grouped(groups, q) || q == c {
        if Grouped(groups, q) {
          var l :| 0 <= l < |groups| && q in groups[l].cells;
          assert g[l] == groups[l];
        }
        if Grouped(g, q) {
          var l :| 0 <= l < |g| && q in g[l].cells;
          if l < |groups| {
            assert g[l] == groups[l];
          }
        }
      }
    }
  }

  /** Grouping keeps every visited cell, and only those, under a key of its own flags. */
  lemma {:induction false} GroupCellsPartition(rules: seq<Rule>, cells: seq<Pos>)
    ensures GroupedBy(rules, GroupCells(rules, cells))
    ensures forall q :: Grouped(GroupCells(rules, cells), q) <==> q in cells
    decreases |cells|
  {
    if cells != [] {
      var init := cells[..|cells| - 1];
      var c := cells[|cells| - 1];
      assert cells == init + [c];
      GroupCellsPartition(rules, init);
      AddToGroupKeeps(rules, GroupCells(rules, init), c);
    }
  }

  /** Every entry of `groups` lists its cells without repetition. */
  ghost predicate GroupsDistinct(groups: seq<Group>) {
    forall k :: 0 <= k < |groups| ==> Distinct(groups[k].cells)
  }

  lemma AddToGroupDistinct(rules: seq<Rule>, groups: seq<Group>, c: Pos)
    requires GroupsDistinct(groups) && !Grouped(groups, c)
    ensures GroupsDistinct(AddToGroup(groups, Sig(rules, c), c))
  {
    var k := FindKey(groups, Sig(rules, c));
    if k < |groups| {
      assert c !in groups[k].cells;
      DistinctAppend(groups[k].cells, [c]);
    }
  }

  lemma {:induction false} GroupCellsDistinct(rules: seq<Rule>, cells: seq<Pos>)
    requires Distinct(cells)
    ensures GroupsDistinct(GroupCells(rules, cells))
    decreases |cells|
  {
    if cells != [] {
      var init := cells[..|cells| - 1];
      var c := cells[|cells| - 1];
      assert cells == init + [c];
      assert Distinct(init) by {
        forall i, j | 0 <= i < j < |init| ensures init[i] != init[j] {
          assert init[i] == cells[i] && init[j] == cells[j];
        }
      }
      assert c !in init by {
        forall i | 0 <= i < |init| ensures init[i] != c {
          assert init[i] == cells[i];
        }
      }
      GroupCellsDistinct(rules, init);
      GroupCellsPartition(rules, init);
      AddToGroupDistinct(rules, GroupCells(rules, init), c);
    }
  }

  /** `Block`: cells that always occur in rules together, and the most mines they can hold. */
  datatype Block = Block(cells: seq<Pos>, maxMines: int)

  /** A rule after `block_it`: its count, and the positions of the blocks its scope covers. */
  datatype BlockRule = BlockRule(mines: int, blocks: seq<nat>)

  function Min(a: int, b: int): int {
    if a <= b then a else b
  }

  /** One block per dictionary entry, bounded by the mines left and by its size. */
  function MakeBlocks(b: Board, groups: seq<Group>): seq<Block>
  {
    seq(|groups|, k requires 0 <= k < |groups| =>
      Block(groups[k].cells, Min(b.minesRemaining, |groups[k].cells|)))
  }

  /** The positions from `k` on of the blocks whose first cell lies in `scope`, in order. */
  function BlocksIn(scope: set<Pos>, blocks: seq<Block>, k: nat): (r: seq<nat>)
    requires forall l :: 0 <= l < |blocks| ==> blocks[l].cells != []
    ensures forall l :: l in r <==> k <= l < |blocks| && blocks[l].cells[0] in scope
    ensures forall i :: 0 <= i < |r| ==> r[i] < |blocks|
    ensures Distinct(r)
    decreases |blocks| - k
  {
    if k >= |blocks| then []
    else if blocks[k].cells[0] in scope then
      var rest := BlocksIn(scope, blocks, k + 1);
      DistinctCons(k, rest);
      [k] + rest
    else
      BlocksIn(scope, blocks, k + 1)
  }

  /** `block_it`: the rule's scope replaced by the blocks whose first cell it contains. */
  function BlockIt(r: Rule, blocks: seq<Block>): (res: BlockRule)
    requires forall l :: 0 <= l < |blocks| ==> blocks[l].cells != []
    ensures res.mines == r.mines
  {
    BlockRule(r.mines, BlocksIn(r.possibles, blocks, 0))
  }

  /**
   `create_blocks`: group the unknown cells by the rules they lie in, in
   order of first appearance; make one block per group; convert every rule
   to blocks.
   */
  function CreateBlocks(b: Board, unknowns: seq<Pos>, rules: seq<Rule>): (r: (seq<BlockRule>, seq<Block>))
    ensures |r.0| == |rules|
  {
    GroupCellsPartition(rules, unknowns);
    var blocks := MakeBlocks(b, GroupCells(rules, unknowns));
    (seq(|rules|, i requires 0 <= i < |rules| => BlockIt(rules[i], blocks)), blocks)
  }

  /**
   The blocks partition the unknown cells: none is empty, each lists its
   cells once, no two share a cell, and together they hold exactly the
   unknown cells.
   */
  ghost predicate Partitions(blocks: seq<Block>, unknowns: seq<Pos>) {
    && (forall k :: 0 <= k < |blocks| ==> blocks[k].cells != [] && Distinct(blocks[k].cells))
    && (forall k, l :: 0 <= k < l < |blocks| ==> Elems(blocks[k].cells) !! Elems(blocks[l].cells))
    && (forall q :: q in unknowns <==> exists k :: 0 <= k < |blocks| && q in blocks[k].cells)
  }

  /**
   Each rule's scope is a union of whole blocks: a block lies inside the
   scope when its position is listed, and outside it otherwise.
   */
  ghost predicate ExactFor(rules: seq<Rule>, blockRules: seq<BlockRule>, blocks: seq<Block>) {
    && |blockRules| == |rules|
    && forall i :: 0 <= i < |rules| ==>
         && blockRules[i].mines == rules[i].mines
         && Distinct(blockRules[i].blocks)
         && (forall j :: 0 <= j < |blockRules[i].blocks| ==> blockRules[i].blocks[j] < |blocks|)
         && (forall k :: 0 <= k < |blocks| ==>
               (k in blockRules[i].blocks ==> Elems(blocks[k].cells) <= rules[i].possibles)
               && (k !in blockRules[i].blocks ==> Elems(blocks[k].cells) !! rules[i].possibles))
  }

  /** The blocks `create_blocks` builds from a list of distinct unknown cells partition them. */
  lemma CreateBlocksPartition(b: Board, unknowns: seq<Pos>, rules: seq<Rule>)
    requires Distinct(unknowns)
    ensures var blocks := CreateBlocks(b, unknowns, rules).1;
      && Partitions(blocks, unknowns)
      && forall k :: 0 <= k < |blocks| ==> blocks[k].maxMines == Min(b.minesRemaining, |blocks[k].cells|)
  {
    var groups := GroupCells(rules, unknowns);
    GroupCellsPartition(rules, unknowns);
    GroupCellsDistinct(rules, unknowns);
    var blocks := CreateBlocks(b, unknowns, rules).1;
    assert |blocks| == |groups|;
    assert forall k :: 0 <= k < |blocks| ==> blocks[k].cells == groups[k].cells;
    forall k, l | 0 <= k < l < |blocks| ensures Elems(blocks[k].cells) !! Elems(blocks[l].cells) {
      forall q | q in blocks[k].cells ensures q !in blocks[l].cells {
        assert Sig(rules, q) == groups[k].key;
      }
    }
    forall q ensures q in unknowns <==> exists k :: 0 <= k < |blocks| && q in blocks[k].cells {
      assert Grouped(groups, q) <==> q in unknowns;
    }
  }

  /**
   Two cells share a block exactly when they lie in the same rules: cells
   of blocks `k` and `l` that no rule tells apart have `k == l`, and the
   cells of one block are in the same rules.
   */
  lemma SameRulesSameBlock(b: Board, unknowns: seq<Pos>, rules: seq<Rule>, k: nat, l: nat, c: Pos, d: Pos)
    requires var blocks := CreateBlocks(b, unknowns, rules).1;
      k < |blocks| && l < |blocks| && c in blocks[k].cells && d in blocks[l].cells
    ensures k == l <==> forall i :: 0 <= i < |rules| ==> (c in rules[i].possibles <==> d in rules[i].possibles)
  {
    var groups := GroupCells(rules, unknowns);
    GroupCellsPartition(rules, unknowns);
    assert Sig(rules, c) == groups[k].key && Sig(rules, d) == groups[l].key;
    SigEqual(rules, c, d);
  }

  /** Every rule `create_blocks` converts covers whole blocks, exactly its own scope. */
  lemma CreateBlocksExact(b: Board, unknowns: seq<Pos>, rules: seq<Rule>)
    ensures var r := CreateBlocks(b, unknowns, rules);
      ExactFor(rules, r.0, r.1)
  {
    var groups := GroupCells(rules, unknowns);
    GroupCellsPartition(rules, unknowns);
    var r := CreateBlocks(b, unknowns, rules);
    var blocks := r.1;
    forall i, k | 0 <= i < |rules| && 0 <= k < |blocks|
      ensures k in r.0[i].blocks ==> Elems(blocks[k].cells) <= rules[i].possibles
      ensures k !in r.0[i].blocks ==> Elems(blocks[k].cells) !! rules[i].possibles
    {
      var first := blocks[k].cells[0];
      assert Sig(rules, first) == groups[k].key;
      forall q | q in blocks[k].cells ensures q in rules[i].possibles <==> first in rules[i].possibles {
        assert Sig(rules, q) == groups[k].key;
        SigEqual(rules, q, first);
      }
    }
  }

  // ---------------------------------------------------------------------
  // solve_rules
  // ---------------------------------------------------------------------

  /** The bound of each block, in block order. */
  function Maxes(blocks: seq<Block>): seq<int>
  {
    seq(|blocks|, k requires 0 <= k < |blocks| => blocks[k].maxMines)
  }

  /** `vals` gives every block a count from zero up to its bound. */
  predicate InBox(vals: seq<int>, maxes: seq<int>) {
    |vals| == |maxes| && forall i :: 0 <= i < |vals| ==> 0 <= vals[i] <= maxes[i]
  }

  /** Each tail with `v` put in front. */
  function Cons(v: int, tails: seq<seq<int>>): seq<seq<int>> {
    seq(|tails|, i requires 0 <= i < |tails| => [v] + tails[i])
  }

  /** Each tail with each of `v`, ..., `hi` put in front, the front value varying slowest. */
  function Prefixed(v: int, hi: int, tails: seq<seq<int>>): seq<seq<int>>
    decreases hi - v
  {
    if v > hi then [] else Cons(v, tails) + Prefixed(v + 1, hi, tails)
  }

  /** `product(range(maxes[0] + 1), ...)`, in the same order. */
  function Product(maxes: seq<int>): seq<seq<int>> {
    if maxes == [] then [[]] else Prefixed(0, maxes[0], Product(maxes[1..]))
  }

  lemma ConsMembers(v: int, tails: seq<seq<int>>)
    ensures forall x :: x in Cons(v, tails) <==> |x| > 0 && x[0] == v && x[1..] in tails
  {
    forall x | |x| > 0 && x[0] == v && x[1..] in tails ensures x in Cons(v, tails) {
      var i :| 0 <= i < |tails| && tails[i] == x[1..];
      assert Cons(v, tails)[i] == x;
    }
  }

  lemma {:induction false} PrefixedMembers(v: int, hi: int, tails: seq<seq<int>>)
    ensures forall x :: x in Prefixed(v, hi, tails) <==> |x| > 0 && v <= x[0] <= hi && x[1..] in tails
    decreases hi - v
  {
    if v <= hi {
      ConsMembers(v, tails);
      PrefixedMembers(v + 1, hi, tails);
    }
  }

  /** The enumeration yields exactly the assignments within the bounds. */
  lemma {:induction false} ProductExact(maxes: seq<int>)
    ensures forall vals :: vals in Product(maxes) <==> InBox(vals, maxes)
  {
    if maxes == [] {
      forall vals | InBox(vals, maxes) ensures vals in Product(maxes) {
        assert vals == [];
      }
    } else {
      var tails := Product(maxes[1..]);
      ProductExact(maxes[1..]);
      PrefixedMembers(0, maxes[0], tails);
      forall vals ensures vals in Product(maxes) <==> InBox(vals, maxes) {
        if |vals| > 0 {
          assert InBox(vals, maxes) <==> 0 <= vals[0] <= maxes[0] && InBox(vals[1..], maxes[1..]) by {
            if InBox(vals[1..], maxes[1..]) && 0 <= vals[0] <= maxes[0] {
              forall i | 0 <= i < |vals| ensures 0 <= vals[i] <= maxes[i] {
                if i > 0 {
                  assert vals[i] == vals[1..][i - 1];
                }
              }
            }
            if InBox(vals, maxes) {
              forall i | 0 <= i < |vals| - 1 ensures 0 <= vals[1..][i] <= maxes[1..][i] {
                assert vals[1..][i] == vals[i + 1];
              }
            }
          }
        }
      }
    }
  }

  function Sum(vals: seq<int>): int {
    if vals == [] then 0 else vals[0] + Sum(vals[1..])
  }

  /** Every block position a converted rule lists is below `n`. */
  predicate IndicesBelow(blockRules: seq<BlockRule>, n: nat) {
    forall i, j :: 0 <= i < |blockRules| && 0 <= j < |blockRules[i].blocks| ==> blockRules[i].blocks[j] < n
  }

  /** The values of the listed blocks, added up. */
  function SumAt(vals: seq<int>, ks: seq<nat>): int
    requires forall j :: 0 <= j < |ks| ==> ks[j] < |vals|
  {
    if ks == [] then 0 else vals[ks[0]] + SumAt(vals, ks[1..])
  }

  /** `test_rules`: every converted rule sees its own count on its blocks. */
  predicate TestRules(blockRules: seq<BlockRule>, vals: seq<int>)
    requires IndicesBelow(blockRules, |vals|)
  {
    forall i :: 0 <= i < |blockRules| ==> SumAt(vals, blockRules[i].blocks) == blockRules[i].mines
  }

  /** The test `solve_rules` applies to each assignment: the remaining mines, and every rule. */
  predicate IsSolution(b: Board, blockRules: seq<BlockRule>, vals: seq<int>)
    requires IndicesBelow(blockRules, |vals|)
  {
    Sum(vals) == b.minesRemaining && TestRules(blockRules, vals)
  }

  /** The candidates that pass, in order. */
  function KeepSolutions(b: Board, blockRules: seq<BlockRule>, cands: seq<seq<int>>, n: nat): (r: seq<seq<int>>)
    requires IndicesBelow(blockRules, n)
    requires forall i :: 0 <= i < |cands| ==> |cands[i]| == n
    ensures forall x :: x in r <==> x in cands && IsSolution(b, blockRules, x)
  {
    if cands == [] then []
    else
      (if IsSolution(b, blockRules, cands[0]) then [cands[0]] else [])
      + KeepSolutions(b, blockRules, cands[1..], n)
  }

  /** The assignments within the block bounds that pass the test, in enumeration order. */
  function Solutions(b: Board, blockRules: seq<BlockRule>, blocks: seq<Block>): (r: seq<seq<int>>)
    requires IndicesBelow(blockRules, |blocks|)
    ensures forall i :: 0 <= i < |r| ==> |r[i]| == |blocks|
  {
    var cands := Product(Maxes(blocks));
    assert forall i :: 0 <= i < |cands| ==> |cands[i]| == |blocks| by {
      ProductExact(Maxes(blocks));
      forall i | 0 <= i < |cands| ensures |cands[i]| == |blocks| {
        assert cands[i] in cands;
      }
    }
    var r := KeepSolutions(b, blockRules, cands, |blocks|);
    assert forall i :: 0 <= i < |r| ==> r[i] in cands;
    r
  }

  /** The solutions are exactly the in-bounds assignments that pass the test. */
  lemma SolutionsExact(b: Board, blockRules: seq<BlockRule>, blocks: seq<Block>)
    requires IndicesBelow(blockRules, |blocks|)
    ensures forall vals :: vals in Solutions(b, blockRules, blocks) <==>
      InBox(vals, Maxes(blocks)) && IsSolution(b, blockRules, vals)
  {
    ProductExact(Maxes(blocks));
  }

  /** `max(column)`: the largest value block `k` takes in `sols`. */
  function ColumnMax(sols: seq<seq<int>>, k: nat): (r: int)
    requires sols != [] && forall i :: 0 <= i < |sols| ==> k < |sols[i]|
    ensures forall i :: 0 <= i < |sols| ==> sols[i][k] <= r
    ensures exists i :: 0 <= i < |sols| && sols[i][k] == r
  {
    if |sols| == 1 then sols[0][k]
    else
      var rest := ColumnMax(sols[1..], k);
      assert forall i :: 1 <= i < |sols| ==> sols[i] == sols[1..][i - 1];
      if sols[0][k] >= rest then sols[0][k] else rest
  }

  /** The positions from `k` on whose column maximum is zero. */
  function ZeroColumns(sols: seq<seq<int>>, n: nat, k: nat): (r: seq<nat>)
    requires sols != [] && forall i :: 0 <= i < |sols| ==> |sols[i]| == n
    ensures forall l :: l in r <==> k <= l < n && ColumnMax(sols, l) == 0
    decreases n - k
  {
    if k >= n then []
    else (if ColumnMax(sols, k) == 0 then [k] else []) + ZeroColumns(sols, n, k + 1)
  }

  /** `empty_blocks`: none without solutions, otherwise the blocks whose column maximum is zero. */
  function EmptyBlocks(sols: seq<seq<int>>, n: nat): seq<nat>
    requires forall i :: 0 <= i < |sols| ==> |sols[i]| == n
  {
    if sols == [] then [] else ZeroColumns(sols, n, 0)
  }

  /** The cells of the listed blocks. */
  function CellsOf(blocks: seq<Block>, ks: seq<nat>): set<Pos> {
    set k, q | k in ks && 0 <= k < |blocks| && q in blocks[k].cells :: q
  }

  /**
   `solve_rules`: if some block holds no mine in any solution, raise the
   progress flag and open every cell of every such block.
   */
  function SolveRules(b: Board, blockRules: seq<BlockRule>, blocks: seq<Block>, oracle: Pos -> int): (r: Board)
    requires WellFormed(b) && IndicesBelow(blockRules, |blocks|)
    requires forall k :: 0 <= k < |blocks| ==> Elems(blocks[k].cells) <= UnknownCells(b)
    ensures WellFormed(r)
  {
    var empty := EmptyBlocks(Solutions(b, blockRules, blocks), |blocks|);
    if empty == [] then b
    else
      assert CellsOf(blocks, empty) <= b.board.Keys by {
        forall q | q in CellsOf(blocks, empty) ensures q in b.board {
          var k :| k in empty && 0 <= k < |blocks| && q in blocks[k].cells;
          assert q in Elems(blocks[k].cells);
          assert q in UnknownCells(b);
        }
      }
      OpenAll(b.(updated := true), CellsOf(blocks, empty), oracle)
  }

  /** Block `k` holds no mine in any of `sols`. */
  ghost predicate AlwaysEmpty(sols: seq<seq<int>>, k: nat) {
    forall s :: s in sols ==> k < |s| && s[k] == 0
  }

  /** Every solution gives every block a count of at least zero. */
  lemma SolutionsNonNegative(b: Board, blockRules: seq<BlockRule>, blocks: seq<Block>)
    requires IndicesBelow(blockRules, |blocks|)
    ensures var sols := Solutions(b, blockRules, blocks);
      forall i, k :: 0 <= i < |sols| && 0 <= k < |blocks| ==> sols[i][k] >= 0
  {
    var sols := Solutions(b, blockRules, blocks);
    SolutionsExact(b, blockRules, blocks);
    forall i, k | 0 <= i < |sols| && 0 <= k < |blocks| ensures sols[i][k] >= 0 {
      assert sols[i] in sols;
    }
  }

  /** Over non-negative columns, the maximum is zero exactly when every entry is. */
  lemma ColumnMaxZero(sols: seq<seq<int>>, k: nat)
    requires sols != [] && forall i :: 0 <= i < |sols| ==> k < |sols[i]| && sols[i][k] >= 0
    ensures ColumnMax(sols, k) == 0 <==> AlwaysEmpty(sols, k)
  {
    var i :| 0 <= i < |sols| && sols[i][k] == ColumnMax(sols, k);
    if AlwaysEmpty(sols, k) {
      assert sols[i] in sols;
    }
  }

  /** The blocks opened are exactly those that hold no mine in any solution, when there is one. */
  lemma EmptyBlocksExact(b: Board, blockRules: seq<BlockRule>, blocks: seq<Block>)
    requires IndicesBelow(blockRules, |blocks|)
    ensures var sols := Solutions(b, blockRules, blocks);
      forall k: nat :: k in EmptyBlocks(sols, |blocks|) <==> sols != [] && k < |blocks| && AlwaysEmpty(sols, k)
  {
    var sols := Solutions(b, blockRules, blocks);
    SolutionsNonNegative(b, blockRules, blocks);
    if sols != [] {
      forall k: nat | k < |blocks| ensures ColumnMax(sols, k) == 0 <==> AlwaysEmpty(sols, k) {
        ColumnMaxZero(sols, k);
      }
    }
  }

  /** The cells of the blocks that hold no mine in any solution (none if nothing solves). */
  ghost function NeverMined(b: Board, blockRules: seq<BlockRule>, blocks: seq<Block>): set<Pos>
    requires IndicesBelow(blockRules, |blocks|)
  {
    var sols := Solutions(b, blockRules, blocks);
    set k: nat, q | k < |blocks| && sols != [] && AlwaysEmpty(sols, k) && q in blocks[k].cells :: q
  }

  /**
   `solve_rules` opens exactly the cells of blocks that hold no mine in any
   solution and raises the flag exactly when there is such a block; with
   no solution it changes nothing. The order of the blocks plays no part.
   */
  lemma SolveRulesEffect(b: Board, blockRules: seq<BlockRule>, blocks: seq<Block>, oracle: Pos -> int)
    requires WellFormed(b) && IndicesBelow(blockRules, |blocks|)
    requires forall k :: 0 <= k < |blocks| ==> Elems(blocks[k].cells) <= UnknownCells(b)
    ensures var r := SolveRules(b, blockRules, blocks, oracle);
      var sols := Solutions(b, blockRules, blocks);
      && (sols == [] ==> r == b)
      && (r.updated <==> b.updated || (sols != [] && exists k: nat :: k < |blocks| && AlwaysEmpty(sols, k)))
      && (forall q :: q in b.board ==>
            r.board[q] == if q in NeverMined(b, blockRules, blocks) then Num(oracle(q)) else b.board[q])
  {
    var sols := Solutions(b, blockRules, blocks);
    var empty := EmptyBlocks(sols, |blocks|);
    EmptyBlocksExact(b, blockRules, blocks);
    assert CellsOf(blocks, empty) == NeverMined(b, blockRules, blocks);
    if empty == [] {
      forall k: nat | k < |blocks| && sols != [] ensures !AlwaysEmpty(sols, k) {
        assert k !in empty;
      }
    } else {
      var k := empty[0];
      assert k in empty;
    }
  }

  // ---------------------------------------------------------------------
  // Soundness of the block search
  // ---------------------------------------------------------------------

  /** The assignment a placement `m` induces: how many of its mines fall in each block. */
  function Induced(blocks: seq<Block>, m: set<Pos>): seq<int>
  {
    seq(|blocks|, k requires 0 <= k < |blocks| => |Elems(blocks[k].cells) * m|)
  }

  function Range(i: nat, n: nat): (r: seq<nat>)
    ensures forall k :: k in r <==> i <= k < n
    ensures forall j :: 0 <= j < |r| ==> r[j] < n
    ensures Distinct(r)
    decreases n - i
  {
    if i >= n then []
    else
      var rest := Range(i + 1, n);
      DistinctCons(i, rest);
      [i] + rest
  }

  lemma {:induction false} SumIsSumAtRange(vals: seq<int>, i: nat)
    requires i <= |vals|
    ensures Sum(vals[i..]) == SumAt(vals, Range(i, |vals|))
    decreases |vals| - i
  {
    if i < |vals| {
      SumIsSumAtRange(vals, i + 1);
      assert vals[i..][1..] == vals[i + 1..];
    }
  }

  lemma {:induction false} ElemsBound<T>(s: seq<T>)
    ensures |Elems(s)| <= |s|
  {
    if s != [] {
      ElemsBound(s[1..]);
      assert Elems(s) == {s[0]} + Elems(s[1..]);
    }
  }

  lemma DisjointPair(blocks: seq<Block>, k: nat, l: nat)
    requires k < |blocks| && l < |blocks| && k != l
    requires forall k, l :: 0 <= k < l < |blocks| ==> Elems(blocks[k].cells) !! Elems(blocks[l].cells)
    ensures Elems(blocks[k].cells) !! Elems(blocks[l].cells)
  {
    if l < k {
      assert Elems(blocks[l].cells) !! Elems(blocks[k].cells);
    }
  }

  /** The cells of a list of distinct, pairwise disjoint blocks split into the first block and the rest. */
  lemma CellsOfCons(blocks: seq<Block>, ks: seq<nat>)
    requires ks != [] && forall j :: 0 <= j < |ks| ==> ks[j] < |blocks|
    requires Distinct(ks)
    requires forall k, l :: 0 <= k < l < |blocks| ==> Elems(blocks[k].cells) !! Elems(blocks[l].cells)
    ensures CellsOf(blocks, ks) == Elems(blocks[ks[0]].cells) + CellsOf(blocks, ks[1..])
    ensures Elems(blocks[ks[0]].cells) !! CellsOf(blocks, ks[1..])
  {
    DistinctTail(ks);
    var first := Elems(blocks[ks[0]].cells);
    forall q | q in CellsOf(blocks, ks[1..]) ensures q !in first {
      var l :| l in ks[1..] && 0 <= l < |blocks| && q in blocks[l].cells;
      assert q in Elems(blocks[l].cells);
      DisjointPair(blocks, ks[0], l);
    }
  }

  /** Adding up the induced counts of distinct, pairwise disjoint blocks counts the mines in their union. */
  lemma {:induction false} SumAtInduced(blocks: seq<Block>, m: set<Pos>, ks: seq<nat>)
    requires forall j :: 0 <= j < |ks| ==> ks[j] < |blocks|
    requires Distinct(ks)
    requires forall k, l :: 0 <= k < l < |blocks| ==> Elems(blocks[k].cells) !! Elems(blocks[l].cells)
    ensures SumAt(Induced(blocks, m), ks) == |CellsOf(blocks, ks) * m|
  {
    if ks != [] {
      DistinctTail(ks);
      SumAtInduced(blocks, m, ks[1..]);
      CellsOfCons(blocks, ks);
      CountSplit(Elems(blocks[ks[0]].cells), CellsOf(blocks, ks[1..]), m);
    }
  }

  lemma CountSplit(first: set<Pos>, rest: set<Pos>, m: set<Pos>)
    requires first !! rest
    ensures |(first + rest) * m| == |first * m| + |rest * m|
  {
    assert (first + rest) * m == first * m + rest * m;
    assert first * m !! rest * m;
  }

  /** A converted rule's blocks hold exactly the rule's scope, when the scope is all unknown. */
  lemma RuleCells(rules: seq<Rule>, blockRules: seq<BlockRule>, blocks: seq<Block>, unknowns: seq<Pos>, i: nat)
    requires Partitions(blocks, unknowns) && ExactFor(rules, blockRules, blocks)
    requires i < |rules| && rules[i].possibles <= Elems(unknowns)
    ensures CellsOf(blocks, blockRules[i].blocks) == rules[i].possibles
  {
    forall q | q in rules[i].possibles ensures q in CellsOf(blocks, blockRules[i].blocks) {
      assert q in unknowns;
      var k :| 0 <= k < |blocks| && q in blocks[k].cells;
      assert q in Elems(blocks[k].cells);
    }
    forall q | q in CellsOf(blocks, blockRules[i].blocks) ensures q in rules[i].possibles {
      var k :| k in blockRules[i].blocks && 0 <= k < |blocks| && q in blocks[k].cells;
      assert q in Elems(blocks[k].cells);
    }
  }

  /** The induced assignment stays within every block's bound. */
  lemma InducedInBox(b: Board, blocks: seq<Block>, unknowns: seq<Pos>, m: set<Pos>)
    requires Partitions(blocks, unknowns)
    requires forall k :: 0 <= k < |blocks| ==> blocks[k].maxMines == Min(b.minesRemaining, |blocks[k].cells|)
    requires |m| == b.minesRemaining
    ensures InBox(Induced(blocks, m), Maxes(blocks))
  {
    var w := Induced(blocks, m);
    forall k | 0 <= k < |blocks| ensures 0 <= w[k] <= blocks[k].maxMines {
      var e := Elems(blocks[k].cells);
      ElemsBound(blocks[k].cells);
      SubsetCardinality(e * m, e);
      SubsetCardinality(e * m, m);
    }
  }

  /** The induced counts add up to the mines of a placement among the unknown cells. */
  lemma InducedSum(blocks: seq<Block>, unknowns: seq<Pos>, m: set<Pos>)
    requires Partitions(blocks, unknowns) && m <= Elems(unknowns)
    ensures Sum(Induced(blocks, m)) == |m|
  {
    var w := Induced(blocks, m);
    SumIsSumAtRange(w, 0);
    assert w[0..] == w;
    SumAtInduced(blocks, m, Range(0, |blocks|));
    assert CellsOf(blocks, Range(0, |blocks|)) == Elems(unknowns) by {
      forall q | q in Elems(unknowns) ensures q in CellsOf(blocks, Range(0, |blocks|)) {
        var k :| 0 <= k < |blocks| && q in blocks[k].cells;
      }
    }
    assert Elems(unknowns) * m == m;
  }

  /** The induced counts meet every converted rule whose rule the placement satisfies. */
  lemma InducedTest(rules: seq<Rule>, blockRules: seq<BlockRule>, blocks: seq<Block>, unknowns: seq<Pos>, m: set<Pos>)
    requires Partitions(blocks, unknowns) && ExactFor(rules, blockRules, blocks)
    requires forall x :: x in rules ==> Satisfies(m, x) && x.possibles <= Elems(unknowns)
    ensures IndicesBelow(blockRules, |blocks|)
    ensures TestRules(blockRules, Induced(blocks, m))
  {
    var w := Induced(blocks, m);
    forall i | 0 <= i < |blockRules| ensures SumAt(w, blockRules[i].blocks) == blockRules[i].mines {
      assert rules[i] in rules;
      RuleCells(rules, blockRules, blocks, unknowns, i);
      SumAtInduced(blocks, m, blockRules[i].blocks);
    }
  }

  /**
   Every placement that satisfies the rules induces a solution: its counts
   are in bounds, add up to the remaining mines, and meet every rule.
   */
  lemma InducedIsSolution(b: Board, unknowns: seq<Pos>, rules: seq<Rule>, m: set<Pos>)
    requires Distinct(unknowns)
    requires m <= Elems(unknowns) && |m| == b.minesRemaining
    requires forall x :: x in rules ==> Satisfies(m, x) && x.possibles <= Elems(unknowns)
    ensures var r := CreateBlocks(b, unknowns, rules);
      IndicesBelow(r.0, |r.1|) && Induced(r.1, m) in Solutions(b, r.0, r.1)
  {
    var r := CreateBlocks(b, unknowns, rules);
    CreateBlocksPartition(b, unknowns, rules);
    CreateBlocksExact(b, unknowns, rules);
    InducedInBox(b, r.1, unknowns, m);
    InducedSum(r.1, unknowns, m);
    InducedTest(rules, r.0, r.1, unknowns, m);
    SolutionsExact(b, r.0, r.1);
  }

  /** A block that every solution leaves empty holds none of the placement's mines, once the placement's own counts are a solution. */
  lemma NeverMinedAvoids(b: Board, blockRules: seq<BlockRule>, blocks: seq<Block>, m: set<Pos>)
    requires IndicesBelow(blockRules, |blocks|)
    requires Induced(blocks, m) in Solutions(b, blockRules, blocks)
    ensures NeverMined(b, blockRules, blocks) !! m
  {
    var w := Induced(blocks, m);
    forall q | q in NeverMined(b, blockRules, blocks) ensures q !in m {
      var sols := Solutions(b, blockRules, blocks);
      var k: nat :| k < |blocks| && AlwaysEmpty(sols, k) && q in blocks[k].cells;
      assert w[k] == 0;
      var hit := Elems(blocks[k].cells) * m;
      assert |hit| == 0;
      assert q in Elems(blocks[k].cells);
      assert q !in hit;
    }
  }

  /** The blocks built from cells of `s` hold only cells of `s`. */
  lemma CreateBlocksWithin(b: Board, unknowns: seq<Pos>, rules: seq<Rule>, s: set<Pos>)
    requires Distinct(unknowns) && Elems(unknowns) <= s
    ensures var r := CreateBlocks(b, unknowns, rules);
      forall k :: 0 <= k < |r.1| ==> Elems(r.1[k].cells) <= s
  {
    var blocks := CreateBlocks(b, unknowns, rules).1;
    CreateBlocksPartition(b, unknowns, rules);
    forall k | 0 <= k < |blocks| ensures Elems(blocks[k].cells) <= s {
      forall q | q in blocks[k].cells ensures q in Elems(unknowns) {
      }
    }
  }

  /**
   Soundness of `solve_rules` after `create_blocks`: under any placement
   that satisfies every rule and puts the remaining mines among the unknown
   cells, no opened cell is a mine.
   */
  lemma SolveRulesSound(b: Board, unknowns: seq<Pos>, rules: seq<Rule>, oracle: Pos -> int, m: set<Pos>)
    requires WellFormed(b) && Distinct(unknowns) && Elems(unknowns) <= UnknownCells(b)
    requires m <= Elems(unknowns) && |m| == b.minesRemaining
    requires forall x :: x in rules ==> Satisfies(m, x) && x.possibles <= Elems(unknowns)
    ensures var r := CreateBlocks(b, unknowns, rules);
      && IndicesBelow(r.0, |r.1|)
      && (forall k :: 0 <= k < |r.1| ==> Elems(r.1[k].cells) <= UnknownCells(b))
      && NeverMined(b, r.0, r.1) !! m
      && AgreesWith(b, SolveRules(b, r.0, r.1, oracle), m)
  {
    var r := CreateBlocks(b, unknowns, rules);
    InducedIsSolution(b, unknowns, rules, m);
    CreateBlocksWithin(b, unknowns, rules, UnknownCells(b));
    NeverMinedAvoids(b, r.0, r.1, m);
    SolveRulesEffect(b, r.0, r.1, oracle);
  }

  /** On a consistent board whose listed unknown cells are unknown, `solve_rules` keeps it consistent. */
  lemma SolveRulesKeepsConsistent(b: Board, unknowns: seq<Pos>, rules: seq<Rule>, oracle: Pos -> int)
    requires Consistent(b) && Distinct(unknowns) && Elems(unknowns) <= UnknownCells(b)
    ensures var r := CreateBlocks(b, unknowns, rules);
      && IndicesBelow(r.0, |r.1|)
      && (forall k :: 0 <= k < |r.1| ==> Elems(r.1[k].cells) <= UnknownCells(b))
      && Consistent(SolveRules(b, r.0, r.1, oracle))
  {
    var r := CreateBlocks(b, unknowns, rules);
    var blockRules, blocks := r.0, r.1;
    CreateBlocksPartition(b, unknowns, rules);
    CreateBlocksExact(b, unknowns, rules);
    forall k | 0 <= k < |blocks| ensures Elems(blocks[k].cells) <= UnknownCells(b) {
      forall q | q in blocks[k].cells ensures q in Elems(unknowns) {
      }
    }
    var empty := EmptyBlocks(Solutions(b, blockRules, blocks), |blocks|);
    if empty != [] {
      var cells := CellsOf(blocks, empty);
      assert cells <= UnknownCells(b) by {
        forall q | q in cells ensures q in UnknownCells(b) {
          var k :| k in empty && 0 <= k < |blocks| && q in blocks[k].cells;
          assert q in Elems(blocks[k].cells);
        }
      }
      var b1 := b.(updated := true);
      FlagsKeepConsistent(b, b.finished, true);
      assert UnknownCells(b1) == UnknownCells(b);
      OpenAllKeepsConsistent(b1, cells, oracle);
    }
  }
}
