/**
 * The Hoppers puzzle configuration: a rows x cols board of tokens ("." for an
 * empty lily pad, "G" and "R" for green and red frogs, "*" for water), with a
 * running count of green frogs. Any letter token can jump, as "R" and "G" do:
 * over a green frog onto an empty pad, where it lands as "R" if it was "R" and
 * as "G" otherwise, and the jumped frog is removed. Any other token never
 * moves. The puzzle is solved when no green frog is left.
 */
module HoppersConfig {
  import opened Grids
  import JavaHash

  const Pad: string := "."
  const Green: string := "G"
  const Red: string := "R"

  /**
   * A board. `rows` and `cols` are the dimensions every configuration of one
   * puzzle shares; `green` is the running count of green frogs, set by the
   * loader and decremented by each jump.
   */
  datatype Config = Config(rows: nat, cols: nat, grid: Grid<string>, green: int)

  /** One jump: the frog at (fr, fc) passes over (pr, pc) and lands on (tr, tc). */
  datatype Hop = Hop(fr: int, fc: int, pr: int, pc: int, tr: int, tc: int)

  predicate Valid(c: Config) {
    Shaped(c.grid, c.rows, c.cols)
  }

  predicate InBoard(c: Config, r: int, col: int) {
    InBounds(c.rows, c.cols, r, col)
  }

  predicate IsLetter(ch: char) {
    'a' <= ch <= 'z' || 'A' <= ch <= 'Z'
  }

  /** The token matches `[a-zA-Z]+`: the cells the successor scan treats as frogs. */
  predicate IsFrogToken(s: string) {
    |s| > 0 && forall i :: 0 <= i < |s| ==> IsLetter(s[i])
  }

  predicate IsGreen(s: string) {
    s == Green
  }

  /** Number of green frogs on a board. */
  function GreenCount(g: Grid<string>): nat {
    Count(g, IsGreen)
  }

  /** The running count agrees with the board. */
  predicate Counted(c: Config) {
    c.green == GreenCount(c.grid)
  }

  /** Goal test: no green frog is left, by the running count; with the count in step, none on the board. */
  function IsSolution(c: Config): (b: bool)
    ensures Counted(c) ==> (b <==> GreenCount(c.grid) == 0)
  {
    c.green == 0
  }

  /** Every frog-like token is a red or a green frog, as on the puzzle's boards. */
  predicate FrogsAreRedOrGreen(c: Config)
    requires Valid(c)
  {
    forall r, col :: 0 <= r < c.rows && 0 <= col < c.cols && IsFrogToken(c.grid[r][col]) ==> c.grid[r][col] in {Red, Green}
  }

  // ---------------------------------------------------------------------------
  // The jump copy-constructor

  /**
   * The successor in which the frog at the cursor (fr, fc) jumps to (tr, tc)
   * over (pr, pc): the landing cell gets a red frog if the cursor holds one and
   * a green frog otherwise, then the cursor and the passed cell are emptied, in
   * that order, and the green count drops by one.
   */
  function Jump(c: Config, fr: int, fc: int, tr: int, tc: int, pr: int, pc: int): (d: Config)
    requires Valid(c) && InBoard(c, fr, fc) && InBoard(c, tr, tc) && InBoard(c, pr, pc)
    ensures Valid(d) && d.rows == c.rows && d.cols == c.cols
    ensures d.green == c.green - 1
    ensures d.grid[fr][fc] == Pad && d.grid[pr][pc] == Pad
    ensures (tr != fr || tc != fc) && (tr != pr || tc != pc) ==>
              d.grid[tr][tc] == (if c.grid[fr][fc] == Red then Red else Green)
    ensures forall i, j :: InBoard(c, i, j) && (i != fr || j != fc) && (i != pr || j != pc) && (i != tr || j != tc) ==>
                             d.grid[i][j] == c.grid[i][j]
  {
    var frog := if c.grid[fr][fc] == Red then Red else Green;
    Config(c.rows, c.cols, Set(Set(Set(c.grid, tr, tc, frog), fr, fc, Pad), pr, pc, Pad), c.green - 1)
  }

  function Apply(c: Config, h: Hop): Config
    requires Valid(c) && InBoard(c, h.fr, h.fc) && InBoard(c, h.tr, h.tc) && InBoard(c, h.pr, h.pc)
  {
    Jump(c, h.fr, h.fc, h.tr, h.tc, h.pr, h.pc)
  }

  // ---------------------------------------------------------------------------
  // Successor generation

  /** Landing and passed offsets (dr, dc, pr, pc) of the long jumps: right, left, up, down. */
  const AxisHops: seq<(int, int, int, int)> := [(0, 4, 0, 2), (0, -4, 0, -2), (-4, 0, -2, 0), (4, 0, 2, 0)]

  /** Landing and passed offsets of the short jumps: up-right, up-left, down-right, down-left. */
  const DiagonalHops: seq<(int, int, int, int)> := [(-2, 2, -1, 1), (-2, -2, -1, -1), (2, 2, 1, 1), (2, -2, 1, -1)]

  /** Each offset passes over the midpoint of its jump. */
  predicate Halved(offsets: seq<(int, int, int, int)>) {
    forall i :: 0 <= i < |offsets| ==> offsets[i].0 == 2 * offsets[i].2 && offsets[i].1 == 2 * offsets[i].3
  }

  /** `checkLanding` and `checkPass`: the jump lands on an empty pad on the board and passes a green frog. */
  predicate Lands(c: Config, h: Hop) {
    && Valid(c) && InBoard(c, h.tr, h.tc) && InBoard(c, h.pr, h.pc)
    && c.grid[h.tr][h.tc] == Pad && c.grid[h.pr][h.pc] == Green
  }

  /** The jump from (r, col) by offset `o`. */
  function Target(r: int, col: int, o: (int, int, int, int)): Hop {
    Hop(r, col, r + o.2, col + o.3, r + o.0, col + o.1)
  }

  /** The jumps from (r, col) by each offset, in offset order, kept when the landing is on the board and open. */
  function StepHops(c: Config, r: int, col: int, offsets: seq<(int, int, int, int)>): (hs: seq<Hop>)
    requires Valid(c) && InBoard(c, r, col) && Halved(offsets)
    ensures |hs| <= |offsets|
    ensures forall h :: h in hs ==> h.fr == r && h.fc == col && Lands(c, h)
  {
    if |offsets| == 0 then []
    else
      var h := Target(r, col, offsets[0]);
      (if Lands(c, h) then [h] else []) + StepHops(c, r, col, offsets[1..])
  }

  /** The jumps by fixed offsets are exactly the open landings at one of the offsets. */
  lemma {:induction false} StepHopsMembers(c: Config, r: int, col: int, offsets: seq<(int, int, int, int)>, h: Hop)
    requires Valid(c) && InBoard(c, r, col) && Halved(offsets)
    ensures h in StepHops(c, r, col, offsets) <==>
              h.fr == r && h.fc == col && (h.tr - r, h.tc - col, h.pr - r, h.pc - col) in offsets && Lands(c, h)
    decreases |offsets|
  {
    if |offsets| > 0 {
      var o := offsets[0];
      var target := Target(r, col, o);
      var head := if Lands(c, target) then [target] else [];
      var tail := StepHops(c, r, col, offsets[1..]);
      assert StepHops(c, r, col, offsets) == head + tail;
      assert h in head + tail <==> h in head || h in tail;
      StepHopsMembers(c, r, col, offsets[1..], h);
      var d := (h.tr - r, h.tc - col, h.pr - r, h.pc - col);
      assert d in offsets <==> d == o || d in offsets[1..] by {
        assert offsets == [o] + offsets[1..];
      }
      assert h.fr == r && h.fc == col && d == o <==> h == target;
    }
  }

  /** The jumps of the frog at (r, col): the long jumps from even-even cells first, then the short ones. */
  function CellHops(c: Config, r: int, col: int): (hs: seq<Hop>)
    requires Valid(c) && InBoard(c, r, col)
    ensures forall h :: h in hs ==> h.fr == r && h.fc == col && IsFrogToken(c.grid[r][col]) && Lands(c, h)
    ensures |hs| <= 8
  {
    if !IsFrogToken(c.grid[r][col]) then []
    else
      var axis := if r % 2 == 0 && col % 2 == 0 then StepHops(c, r, col, AxisHops) else [];
      axis + StepHops(c, r, col, DiagonalHops)
  }

  /** The jumps each board cell contributes; nothing for a cell off the board. */
  function HopGenerator(c: Config): (int, int) -> seq<Hop> {
    (r: int, col: int) => if Valid(c) && InBoard(c, r, col) then CellHops(c, r, col) else []
  }

  lemma Generated(c: Config, i: int, k: int, h: Hop)
    requires Valid(c) && h in HopGenerator(c)(i, k)
    ensures InBoard(c, i, k) && h in CellHops(c, i, k)
  {
  }

  /** Every jump of the configuration, frogs in row-major order, each frog's jumps in direction order. */
  function Hops(c: Config): (hs: seq<Hop>)
    requires Valid(c)
    ensures forall h :: h in hs ==> InBoard(c, h.fr, h.fc) && Lands(c, h)
  {
    var hs := Scan(0, c.rows, c.cols, HopGenerator(c));
    assert forall h :: h in hs ==> InBoard(c, h.fr, h.fc) && Lands(c, h) by {
      forall h | h in hs ensures InBoard(c, h.fr, h.fc) && Lands(c, h) {
        ScanMembers(0, c.rows, c.cols, HopGenerator(c), h);
        var i, k :| 0 <= i < c.rows && 0 <= k < c.cols && h in HopGenerator(c)(i, k);
        Generated(c, i, k, h);
      }
    }
    hs
  }

  /** The jumps of `Hops` are exactly those generated for the cells of the board. */
  lemma HopsMembers(c: Config, h: Hop)
    requires Valid(c)
    ensures h in Hops(c) <==> InBoard(c, h.fr, h.fc) && h in CellHops(c, h.fr, h.fc)
  {
    ScanMembers(0, c.rows, c.cols, HopGenerator(c), h);
    if h in Hops(c) {
      var i, k :| 0 <= i < c.rows && 0 <= k < c.cols && h in HopGenerator(c)(i, k);
      Generated(c, i, k, h);
    }
    if InBoard(c, h.fr, h.fc) && h in CellHops(c, h.fr, h.fc) {
      assert h in HopGenerator(c)(h.fr, h.fc);
    }
  }

  /** `getNeighbors` scans the board row by row, left to right. */
  lemma HopsRowMajor(c: Config)
    requires Valid(c)
    ensures forall i, j :: 0 <= i < j < |Hops(c)| ==> RowMajor((Hops(c)[i].fr, Hops(c)[i].fc), (Hops(c)[j].fr, Hops(c)[j].fc))
  {
    var pos := (h: Hop) => (h.fr, h.fc);
    assert Located(HopGenerator(c), pos) by {
      forall i, k, h | h in HopGenerator(c)(i, k) ensures pos(h) == (i, k) {
        Generated(c, i, k, h);
      }
    }
    ScanOrdered(0, c.rows, c.cols, HopGenerator(c), pos);
  }

  // ---------------------------------------------------------------------------
  // Order of one frog's jumps

  /** The landing and passed offsets of a jump from its origin, in the layout of the offset tables. */
  function HopOffset(h: Hop): (int, int, int, int) {
    (h.tr - h.fr, h.tc - h.fc, h.pr - h.fr, h.pc - h.fc)
  }

  /** All jump directions in generation order: right, left, up, down, up-right, up-left, down-right, down-left. */
  const HopOrder: seq<(int, int, int, int)> := AxisHops + DiagonalHops

  /** Where a jump's direction stands in `HopOrder`. */
  function Rank(h: Hop): int {
    IndexOf(HopOrder, HopOffset(h))
  }

  /** No jump direction is listed twice. */
  lemma HopOrderDistinct()
    ensures Distinct(HopOrder) && Distinct(AxisHops) && Distinct(DiagonalHops)
  {
  }

  /** The jumps by one offset table come in the order of the table. */
  lemma {:induction false} StepHopsInOrder(c: Config, r: int, col: int, offsets: seq<(int, int, int, int)>)
    requires Valid(c) && InBoard(c, r, col) && Halved(offsets) && Distinct(offsets)
    ensures KeyedIn(StepHops(c, r, col, offsets), offsets, HopOffset)
    ensures InTableOrder(StepHops(c, r, col, offsets), offsets, HopOffset)
    decreases |offsets|
  {
    if |offsets| > 0 {
      var h := Target(r, col, offsets[0]);
      var head := if Lands(c, h) then [h] else [];
      var tail := StepHops(c, r, col, offsets[1..]);
      assert StepHops(c, r, col, offsets) == head + tail;
      DistinctRest(offsets);
      StepHopsInOrder(c, r, col, offsets[1..]);
      assert HopOffset(h) == offsets[0];
      ConsInTableOrder(offsets, head, tail, HopOffset);
    }
  }

  /** One frog's jumps come in generation order: the long jumps first, then the short ones, each in table order. */
  lemma CellHopsInOrder(c: Config, r: int, col: int)
    requires Valid(c) && InBoard(c, r, col)
    ensures var hs := CellHops(c, r, col);
            forall a, b :: 0 <= a < b < |hs| ==> Rank(hs[a]) < Rank(hs[b])
  {
    var hs := CellHops(c, r, col);
    if IsFrogToken(c.grid[r][col]) {
      HopOrderDistinct();
      var axis := if r % 2 == 0 && col % 2 == 0 then StepHops(c, r, col, AxisHops) else [];
      var diagonal := StepHops(c, r, col, DiagonalHops);
      assert hs == axis + diagonal;
      if r % 2 == 0 && col % 2 == 0 {
        StepHopsInOrder(c, r, col, AxisHops);
      }
      StepHopsInOrder(c, r, col, DiagonalHops);
      AppendInTableOrder(axis, diagonal, AxisHops, DiagonalHops, HopOffset);
      RankFollowsTable(hs, HopOrder, HopOffset, Rank);
    }
  }

  /** `getNeighbors` lists the jumps of one frog in generation order. */
  lemma HopsInOrder(c: Config)
    requires Valid(c)
    ensures forall i, j :: 0 <= i < j < |Hops(c)| && Hops(c)[i].fr == Hops(c)[j].fr && Hops(c)[i].fc == Hops(c)[j].fc ==>
                             Rank(Hops(c)[i]) < Rank(Hops(c)[j])
  {
    var pos := (h: Hop) => (h.fr, h.fc);
    var f := HopGenerator(c);
    assert Located(f, pos) by {
      forall i, k, h | h in f(i, k) ensures pos(h) == (i, k) {
        Generated(c, i, k, h);
      }
    }
    assert Ranked(f, Rank) by {
      forall i, k | InBoard(c, i, k) {
        CellHopsInOrder(c, i, k);
      }
    }
    ScanRanked(0, c.rows, c.cols, f, pos, Rank);
  }

  /** `getNeighbors`: one successor per jump, in generation order, each with the cursor at the jumping frog. */
  function Neighbors(c: Config): (ns: seq<Config>)
    requires Valid(c)
    ensures |ns| == |Hops(c)|
    ensures forall i :: 0 <= i < |ns| ==>
                          var h := Hops(c)[i];
                          && InBoard(c, h.fr, h.fc) && InBoard(c, h.tr, h.tc) && InBoard(c, h.pr, h.pc)
                          && ns[i] == Apply(c, h)
  {
    var hs := Hops(c);
    assert forall i :: 0 <= i < |hs| ==> InBoard(c, hs[i].fr, hs[i].fc) && InBoard(c, hs[i].tr, hs[i].tc) && InBoard(c, hs[i].pr, hs[i].pc) by {
      forall i | 0 <= i < |hs|
        ensures InBoard(c, hs[i].fr, hs[i].fc) && InBoard(c, hs[i].tr, hs[i].tc) && InBoard(c, hs[i].pr, hs[i].pc)
      {
        assert hs[i] in hs;
      }
    }
    seq(|hs|, i requires 0 <= i < |hs| => Apply(c, hs[i]))
  }

  // ---------------------------------------------------------------------------
  // Reference definition of a legal jump, stated by geometry alone

  /**
   * The shape of a jump by (dr, dc) from (fr, fc): a short diagonal jump from
   * any cell, or a long jump along a row or column from a cell whose row and
   * column are both even.
   */
  predicate HopShape(fr: int, fc: int, dr: int, dc: int) {
    || (Abs(dr) == 2 && Abs(dc) == 2)
    || (fr % 2 == 0 && fc % 2 == 0 && ((dr == 0 && Abs(dc) == 4) || (Abs(dr) == 4 && dc == 0)))
  }

  /** A legal jump: a frog jumps by a legal shape over the green frog at the midpoint onto an empty pad. */
  predicate LegalHop(c: Config, h: Hop) {
    && Valid(c) && InBoard(c, h.fr, h.fc) && InBoard(c, h.tr, h.tc)
    && 2 * h.pr == h.fr + h.tr && 2 * h.pc == h.fc + h.tc
    && IsFrogToken(c.grid[h.fr][h.fc])
    && HopShape(h.fr, h.fc, h.tr - h.fr, h.tc - h.fc)
    && c.grid[h.tr][h.tc] == Pad && c.grid[h.pr][h.pc] == Green
  }

  lemma OffsetsMatchShape(dr: int, dc: int, pr: int, pc: int)
    ensures (dr, dc, pr, pc) in AxisHops <==>
              dr == 2 * pr && dc == 2 * pc && ((dr == 0 && Abs(dc) == 4) || (Abs(dr) == 4 && dc == 0))
    ensures (dr, dc, pr, pc) in DiagonalHops <==> dr == 2 * pr && dc == 2 * pc && Abs(dr) == 2 && Abs(dc) == 2
  {
  }

  /** The short jumps generated for a frog are exactly its legal diagonal jumps. */
  lemma DiagonalHopsLegal(c: Config, r: int, col: int, h: Hop)
    requires Valid(c) && InBoard(c, r, col) && IsFrogToken(c.grid[r][col])
    ensures h in StepHops(c, r, col, DiagonalHops) <==>
              h.fr == r && h.fc == col && LegalHop(c, h) && Abs(h.tr - r) == 2 && Abs(h.tc - col) == 2
  {
    OffsetsMatchShape(h.tr - r, h.tc - col, h.pr - r, h.pc - col);
    StepHopsMembers(c, r, col, DiagonalHops, h);
  }

  /** The long jumps generated for a frog on an even-even cell are exactly its legal straight jumps. */
  lemma AxisHopsLegal(c: Config, r: int, col: int, h: Hop)
    requires Valid(c) && InBoard(c, r, col) && IsFrogToken(c.grid[r][col]) && r % 2 == 0 && col % 2 == 0
    ensures h in StepHops(c, r, col, AxisHops) <==>
              h.fr == r && h.fc == col && LegalHop(c, h) && !(Abs(h.tr - r) == 2 && Abs(h.tc - col) == 2)
  {
    OffsetsMatchShape(h.tr - r, h.tc - col, h.pr - r, h.pc - col);
    StepHopsMembers(c, r, col, AxisHops, h);
  }

  /** The jumps generated for a cell are exactly the legal jumps from it. */
  lemma CellHopsAreLegal(c: Config, r: int, col: int, h: Hop)
    requires Valid(c) && InBoard(c, r, col)
    ensures h in CellHops(c, r, col) <==> h.fr == r && h.fc == col && LegalHop(c, h)
  {
    if IsFrogToken(c.grid[r][col]) {
      var even := r % 2 == 0 && col % 2 == 0;
      var axis := if even then StepHops(c, r, col, AxisHops) else [];
      var diagonal := StepHops(c, r, col, DiagonalHops);
      assert CellHops(c, r, col) == axis + diagonal;
      assert h in axis + diagonal <==> h in axis || h in diagonal;
      DiagonalHopsLegal(c, r, col, h);
      if even {
        AxisHopsLegal(c, r, col, h);
      }
    }
  }

  /** Successor generation is sound and complete: its jumps are exactly the legal ones. */
  lemma HopsAreLegal(c: Config, h: Hop)
    requires Valid(c)
    ensures h in Hops(c) <==> LegalHop(c, h)
  {
    HopsMembers(c, h);
    if InBoard(c, h.fr, h.fc) {
      CellHopsAreLegal(c, h.fr, h.fc, h);
    }
  }

  // ---------------------------------------------------------------------------
  // Properties of the successors

  /** The three cells of a legal jump are distinct and hold a frog, a green frog and an empty pad. */
  lemma LegalHopCells(c: Config, h: Hop)
    requires LegalHop(c, h)
    ensures InBoard(c, h.pr, h.pc)
    ensures (h.fr, h.fc) != (h.pr, h.pc) && (h.fr, h.fc) != (h.tr, h.tc) && (h.pr, h.pc) != (h.tr, h.tc)
    ensures c.grid[h.fr][h.fc] != Pad && c.grid[h.pr][h.pc] == Green && c.grid[h.tr][h.tc] == Pad
  {
    assert c.grid[h.fr][h.fc][0] != '.';
  }

  /** A jump by a red or green frog removes exactly one green frog from the board. */
  lemma JumpRemovesOneGreen(c: Config, h: Hop)
    requires LegalHop(c, h) && c.grid[h.fr][h.fc] in {Red, Green}
    ensures GreenCount(Apply(c, h).grid) == GreenCount(c.grid) - 1
    ensures Counted(c) ==> Counted(Apply(c, h))
  {
    LegalHopCells(c, h);
    var frog := if c.grid[h.fr][h.fc] == Red then Red else Green;
    var g1 := Set(c.grid, h.tr, h.tc, frog);
    var g2 := Set(g1, h.fr, h.fc, Pad);
    CountSet(c.grid, h.tr, h.tc, frog, IsGreen);
    CountSet(g1, h.fr, h.fc, Pad, IsGreen);
    CountSet(g2, h.pr, h.pc, Pad, IsGreen);
  }

  /**
   * Each successor is the parent after one legal jump: only the three cells of
   * the jump change, one green frog fewer, and the running count stays in step
   * with the board when the frogs are red or green.
   */
  lemma NeighborIsLegalJump(c: Config, i: int)
    requires Valid(c) && 0 <= i < |Neighbors(c)|
    ensures var h, n := Hops(c)[i], Neighbors(c)[i];
              && LegalHop(c, h)
              && Valid(n) && n.rows == c.rows && n.cols == c.cols
              && n.green == c.green - 1
              && n.grid[h.fr][h.fc] == Pad && n.grid[h.pr][h.pc] == Pad
              && n.grid[h.tr][h.tc] == (if c.grid[h.fr][h.fc] == Red then Red else Green)
              && (forall r, col :: InBoard(c, r, col) && (r, col) != (h.fr, h.fc) && (r, col) != (h.pr, h.pc) && (r, col) != (h.tr, h.tc) ==>
                                     n.grid[r][col] == c.grid[r][col])
              && (FrogsAreRedOrGreen(c) && Counted(c) ==> Counted(n))
  {
    var h := Hops(c)[i];
    assert h in Hops(c);
    HopsAreLegal(c, h);
    LegalHopCells(c, h);
    if FrogsAreRedOrGreen(c) {
      JumpRemovesOneGreen(c, h);
    }
  }

  /** The successors are exactly the boards reached by the legal jumps. */
  lemma NeighborsAreLegalJumps(c: Config, d: Config)
    requires Valid(c)
    ensures d in Neighbors(c) <==> exists h :: LegalHop(c, h) && d == Apply(c, h)
  {
    if d in Neighbors(c) {
      var i :| 0 <= i < |Neighbors(c)| && Neighbors(c)[i] == d;
      var h := Hops(c)[i];
      HopsAreLegal(c, h);
      assert LegalHop(c, h) && d == Apply(c, h);
    }
    if exists h :: LegalHop(c, h) && d == Apply(c, h) {
      var h :| LegalHop(c, h) && d == Apply(c, h);
      HopsAreLegal(c, h);
      var i :| 0 <= i < |Hops(c)| && Hops(c)[i] == h;
      assert Neighbors(c)[i] == d;
    }
  }

  /** A solved board has no jumps left: every jump passes over a green frog. */
  lemma SolvedHasNoNeighbors(c: Config)
    requires Valid(c) && Counted(c) && IsSolution(c)
    ensures Neighbors(c) == []
  {
    if |Neighbors(c)| > 0 {
      var h := Hops(c)[0];
      NeighborIsLegalJump(c, 0);
      LegalHopCells(c, h);
      CountPositive(c.grid, h.pr, h.pc, IsGreen);
    }
  }

  // ---------------------------------------------------------------------------
  // equals and hashCode

  /** `equals`: token-by-token comparison of the boards (`Arrays.deepEquals`); the count and cursor are ignored. */
  function Equals(a: Config, b: Config): (r: bool)
    ensures r <==> a.grid == b.grid
    ensures r ==> Hash(a) == Hash(b)
  {
    if |a.grid| == |b.grid| && forall i :: 0 <= i < |a.grid| ==> a.grid[i] == b.grid[i] then
      assert a.grid == b.grid;
      true
    else
      false
  }

  /** `Arrays.deepEquals` compares row lengths and then the boards cell by cell. */
  lemma EqualsIsCellwise(a: Config, b: Config)
    ensures Equals(a, b) <==> (&& |a.grid| == |b.grid|
                              && forall i :: 0 <= i < |a.grid| ==>
                                   |a.grid[i]| == |b.grid[i]| && forall j :: 0 <= j < |a.grid[i]| ==> a.grid[i][j] == b.grid[i][j])
  {
  }

  /** `hashCode`: `Arrays.deepHashCode` of the board, read as an unsigned 32-bit value. */
  function Hash(c: Config): (h: nat)
    ensures h < JavaHash.Modulus
  {
    JavaHash.StringGridHash(c.grid)
  }
}
