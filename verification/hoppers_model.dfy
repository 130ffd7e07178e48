/**
 * The interactive Hoppers model: the player picks a frog and a destination,
 * and the model performs the jump when it is one of the board's successors.
 * Observers and messages are reduced to the game state the operation reports.
 */
module HoppersModel {
  import opened Options
  import opened HoppersConfig

  /** The outcomes `validjump` and `hint` report (the load and reset states belong to file handling). */
  datatype GameState = Next | CantJump | Solved

  /** The model: the current board, and whether the last attempted jump went through. */
  datatype Model = Model(current: Config, canJump: bool)

  /** `checkMoveFrom`: the selected start cell holds a green or a red frog, so it is a frog the scan moves. */
  function CheckMoveFrom(c: Config, r: int, col: int): (b: bool)
    requires Valid(c) && InBoard(c, r, col)
    ensures b <==> c.grid[r][col] in {Green, Red}
    ensures b ==> IsFrogToken(c.grid[r][col])
  {
    c.grid[r][col] == Green || c.grid[r][col] == Red
  }

  /** `coordexists`: the cell can be indexed on this board. */
  function CoordExists(c: Config, r: int, col: int): (b: bool)
    requires Valid(c)
    ensures b <==> 0 <= r < |c.grid| && 0 <= col < |c.grid[r]|
  {
    0 <= r < c.rows && 0 <= col < c.cols
  }

  /** The jump `validjump` tries: from the start over the midpoint (integer division) to the destination. */
  function Trial(sr: int, sc: int, tr: int, tc: int): (h: Hop)
    requires sr >= 0 && sc >= 0 && tr >= 0 && tc >= 0
    ensures h.fr == sr && h.fc == sc && h.tr == tr && h.tc == tc
    ensures 2 * h.pr <= sr + tr <= 2 * h.pr + 1 && 2 * h.pc <= sc + tc <= 2 * h.pc + 1
  {
    Hop(sr, sc, (sr + tr) / 2, (sc + tc) / 2, tr, tc)
  }

  /**
   * The trial copy has the same board as the successor of a legal jump only if
   * the trial is that very jump: the landing is the one cell that gains a frog,
   * and the origin and the passed cell are the two that empty. The passed cell
   * cannot be the start, since the midpoint of it and the landing is never the
   * origin.
   */
  lemma TrialMatchesOnlyItsHop(c: Config, h: Hop, sr: int, sc: int, tr: int, tc: int)
    requires LegalHop(c, h) && InBoard(c, sr, sc) && InBoard(c, tr, tc)
    requires Apply(c, Trial(sr, sc, tr, tc)).grid == Apply(c, h).grid
    ensures h == Trial(sr, sc, tr, tc)
  {
    var t := Trial(sr, sc, tr, tc);
    var n := Apply(c, h);
    LegalHopCells(c, h);
    assert n.grid[h.tr][h.tc] != Pad;
    assert (h.tr, h.tc) == (tr, tc);
    assert n.grid[h.fr][h.fc] == Pad && n.grid[h.pr][h.pc] == Pad;
    assert (h.fr, h.fc) == (sr, sc) || (h.fr, h.fc) == (t.pr, t.pc);
    assert (h.pr, h.pc) == (sr, sc) || (h.pr, h.pc) == (t.pr, t.pc);
    if (h.fr, h.fc) != (sr, sc) {
      assert false;
    }
  }

  /** A successor with the trial's board is the trial itself, and the trial is legal. */
  lemma MatchIsLegal(c: Config, i: int, sr: int, sc: int, tr: int, tc: int)
    requires Valid(c) && InBoard(c, sr, sc) && InBoard(c, tr, tc) && 0 <= i < |Neighbors(c)|
    requires Neighbors(c)[i].grid == Apply(c, Trial(sr, sc, tr, tc)).grid
    ensures LegalHop(c, Trial(sr, sc, tr, tc)) && Neighbors(c)[i] == Apply(c, Trial(sr, sc, tr, tc))
  {
    NeighborIsLegalJump(c, i);
    TrialMatchesOnlyItsHop(c, Hops(c)[i], sr, sc, tr, tc);
  }

  /** When no successor has the trial's board, the trial is not a legal jump. */
  lemma NoMatchIsIllegal(c: Config, sr: int, sc: int, tr: int, tc: int)
    requires Valid(c) && InBoard(c, sr, sc) && InBoard(c, tr, tc)
    requires forall k :: 0 <= k < |Neighbors(c)| ==> Neighbors(c)[k] != Apply(c, Trial(sr, sc, tr, tc))
    ensures !LegalHop(c, Trial(sr, sc, tr, tc))
  {
    var h := Trial(sr, sc, tr, tc);
    forall k | 0 <= k < |Hops(c)| ensures Hops(c)[k] != h {
      assert Neighbors(c)[k] == Apply(c, Hops(c)[k]);
    }
    HopsAreLegal(c, h);
  }

  /** The loop of `validjump`: the first successor whose board equals the trial copy's, if any; counts are not compared. */
  method FindBoard(ns: seq<Config>, trial: Config) returns (found: bool, i: int)
    ensures found ==> 0 <= i < |ns| && ns[i].grid == trial.grid
    ensures found ==> forall k :: 0 <= k < i ==> ns[k].grid != trial.grid
    ensures !found ==> forall k :: 0 <= k < |ns| ==> ns[k].grid != trial.grid
  {
    i := 0;
    while i < |ns|
      invariant 0 <= i <= |ns|
      invariant forall k :: 0 <= k < i ==> ns[k].grid != trial.grid
    {
      if Equals(trial, ns[i]) {
        return true, i;
      }
      i := i + 1;
    }
    return false, i;
  }

  /**
   * `validjump`: a destination off the board is refused and nothing changes;
   * otherwise the trial copy is compared with every successor, and the jump
   * goes through exactly when the trial is a legal jump, giving one of the
   * board's successors.
   */
  method ValidJump(m: Model, sr: int, sc: int, tr: int, tc: int) returns (m': Model, state: GameState)
    requires Valid(m.current) && InBoard(m.current, sr, sc)
    ensures !InBoard(m.current, tr, tc) ==> m' == m && state == CantJump
    ensures InBoard(m.current, tr, tc) ==> (state == Next <==> LegalHop(m.current, Trial(sr, sc, tr, tc)))
    ensures state == Next ==> && m'.canJump && m'.current in Neighbors(m.current)
                              && m'.current == Apply(m.current, Trial(sr, sc, tr, tc))
                              && m'.current.green == m.current.green - 1
    ensures InBoard(m.current, tr, tc) && state != Next ==> m' == Model(m.current, false) && state == CantJump
  {
    var c := m.current;
    if !CoordExists(c, tr, tc) {
      return m, CantJump;
    }
    var trial := Apply(c, Trial(sr, sc, tr, tc));
    var found, i := FindBoard(Neighbors(c), trial);
    if found {
      MatchIsLegal(c, i, sr, sc, tr, tc);
      return Model(trial, true), Next;
    }
    NoMatchIsIllegal(c, sr, sc, tr, tc);
    return Model(c, false), CantJump;
  }

  /**
   * `hint` when the board is already solved: the board comes back unchanged
   * with the solved state. Otherwise the answer comes from the solver, which is
   * outside this model (`None`).
   */
  function Hint(c: Config): (r: Option<(Config, GameState)>)
    requires Valid(c)
    ensures r.Some? <==> IsSolution(c)
    ensures r.Some? ==> r.value.0 == c && r.value.1 == Solved
    ensures r.Some? && Counted(c) ==> Neighbors(c) == []
  {
    if IsSolution(c) then
      if Counted(c) then SolvedHasNoNeighbors(c); Some((c, Solved))
      else Some((c, Solved))
    else None
  }
}
