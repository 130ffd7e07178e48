/**
 * The interactive chess-capture model: the player picks a start cell and a
 * destination cell, and the model either performs the capture or reports that
 * it cannot. The board is the configuration the model holds; observers and
 * messages are reduced to the game state the operation reports.
 */
module ChessModel {
  import opened Grids
  import opened Options
  import opened ChessConfig

  /** The outcomes `select` and `hint` report (the load and reset states belong to file handling). */
  datatype GameState = Captured | CantCapture | Solution

  /** No capture starts from an empty cell. */
  lemma EmptyCellHasNoCaptures(c: Config, r: int, col: int)
    requires Valid(c) && InBoard(c, r, col) && c.grid[r][col] == Empty
    ensures forall m :: m in Moves(c) ==> m.fr != r || m.fc != col
  {
    assert CellMoves(c, r, col) == [];
    forall m | m in Moves(c) ensures m.fr != r || m.fc != col {
      MovesMembers(c, m);
    }
  }

  /** `startCoordNoPiece`: the selected start cell holds no piece, so nothing can capture from it. */
  function StartCoordNoPiece(c: Config, r: int, col: int): (b: bool)
    requires Valid(c) && InBoard(c, r, col)
    ensures b <==> !IsPiece(c.grid[r][col])
    ensures b ==> forall m :: m in Moves(c) ==> m.fr != r || m.fc != col
  {
    if c.grid[r][col] == Empty then EmptyCellHasNoCaptures(c, r, col); true else false
  }

  /** `isWithinBounds`: the cell can be indexed on this board. */
  function IsWithinBounds(c: Config, r: int, col: int): (b: bool)
    requires Valid(c)
    ensures b <==> 0 <= r < |c.grid| && 0 <= col < |c.grid[r]|
  {
    0 <= r < c.rows && 0 <= col < c.cols
  }

  /** After capture `m`, cell (r, col) holds `t`: the mover lands on the target and leaves its origin empty. */
  predicate Leaves(c: Config, m: Move, r: int, col: int, t: char)
    requires Valid(c) && InBoard(c, r, col)
  {
    if r == m.tr && col == m.tc then m.piece == t
    else if r == m.fr && col == m.fc then t == Empty
    else c.grid[r][col] == t
  }

  /**
   * What `validCaptureModel` accepts: the destination is on the board and some
   * successor holds a piece of kind `t` there. Nothing ties that successor's
   * capture to the selected start cell.
   */
  ghost predicate AcceptsAsWritten(c: Config, tr: int, tc: int, t: char)
    requires Valid(c)
  {
    InBoard(c, tr, tc) && exists m :: m in Moves(c) && Leaves(c, m, tr, tc, t)
  }

  /** Successor `i` holds `t` at (r, col) exactly when its capture leaves `t` there. */
  lemma NeighborCell(c: Config, i: int, r: int, col: int, t: char)
    requires Valid(c) && 0 <= i < |Neighbors(c)| && InBoard(c, r, col)
    ensures Valid(Neighbors(c)[i]) && InBoard(Neighbors(c)[i], r, col)
    ensures Neighbors(c)[i].grid[r][col] == t <==> Leaves(c, Moves(c)[i], r, col, t)
  {
  }

  /** A successor found holding `t` at the destination witnesses acceptance. */
  lemma FoundAccepts(c: Config, k: int, tr: int, tc: int, t: char)
    requires Valid(c) && InBoard(c, tr, tc) && 0 <= k < |Moves(c)| && Leaves(c, Moves(c)[k], tr, tc, t)
    ensures AcceptsAsWritten(c, tr, tc, t)
  {
  }

  /** When no successor holds `t` at the destination, nothing is accepted. */
  lemma NoneAccepts(c: Config, tr: int, tc: int, t: char)
    requires Valid(c) && InBoard(c, tr, tc)
    requires forall k :: 0 <= k < |Moves(c)| ==> !Leaves(c, Moves(c)[k], tr, tc, t)
    ensures !AcceptsAsWritten(c, tr, tc, t)
  {
  }

  /** `validCaptureModel`: scans the successors for one holding `t` at the destination. */
  method ValidCaptureModel(c: Config, tr: int, tc: int, t: char) returns (ok: bool)
    requires Valid(c)
    ensures ok <==> AcceptsAsWritten(c, tr, tc, t)
  {
    if !IsWithinBounds(c, tr, tc) {
      return false;
    }
    var ns := Neighbors(c);
    var i := 0;
    while i < |ns|
      invariant 0 <= i <= |ns| == |Moves(c)|
      invariant forall k :: 0 <= k < i ==> !Leaves(c, Moves(c)[k], tr, tc, t)
    {
      NeighborCell(c, i, tr, tc, t);
      if ns[i].grid[tr][tc] == t {
        FoundAccepts(c, i, tr, tc, t);
        return true;
      }
      i := i + 1;
    }
    NoneAccepts(c, tr, tc, t);
    return false;
  }

  /**
   * `select` as written: the piece at the start cell moves to the destination
   * whenever `validCaptureModel` accepts, and the running count drops by one.
   */
  method Select(c: Config, fr: int, fc: int, tr: int, tc: int) returns (d: Config, state: GameState)
    requires Valid(c) && InBoard(c, fr, fc)
    ensures state == CantCapture <==> !AcceptsAsWritten(c, tr, tc, c.grid[fr][fc])
    ensures state == CantCapture ==> d == c
    ensures state != CantCapture ==>
              && InBoard(c, tr, tc) && Valid(d) && d.rows == c.rows && d.cols == c.cols
              && d.pieces == c.pieces - 1
              && d.grid[tr][tc] == c.grid[fr][fc]
              && (fr != tr || fc != tc ==> d.grid[fr][fc] == Empty)
              && (forall i, j :: InBoard(c, i, j) && (i != fr || j != fc) && (i != tr || j != tc) ==>
                                   d.grid[i][j] == c.grid[i][j])
    ensures state != CantCapture ==> (state == Solution <==> IsSolution(d))
  {
    var t := c.grid[fr][fc];
    var ok := ValidCaptureModel(c, tr, tc, t);
    if !ok {
      return c, CantCapture;
    }
    d := Capture(c, t, fr, fc, tr, tc);
    state := if d.pieces == 1 then Solution else Captured;
  }

  /** A legal capture is always accepted as written: `validCaptureModel` never refuses one. */
  lemma LegalIsAccepted(c: Config, m: Move)
    requires Valid(c) && Legal(c, m)
    ensures AcceptsAsWritten(c, m.tr, m.tc, m.piece)
  {
    MovesAreLegal(c, m);
    assert Leaves(c, m, m.tr, m.tc, m.piece);
  }

  /** A 2x2 board: an empty cell above a pawn, and two pawns on the bottom row. */
  const Example: Config := Config(2, 2, [[Empty, Pawn], [Pawn, Pawn]], 3)

  /** The pawn at (1, 0) may take (0, 1), so the board has a capture landing a pawn on (0, 1). */
  lemma ExampleCapture()
    ensures Valid(Example) && Move(1, 0, 0, 1, Pawn) in Moves(Example)
  {
    MovesAreLegal(Example, Move(1, 0, 0, 1, Pawn));
  }

  /** As written, the pawn at (1, 1) may "capture" straight up to (0, 1), which no pawn can. */
  lemma AsWrittenAcceptsIllegalCapture()
    ensures Valid(Example) && InBoard(Example, 1, 1) && Example.grid[1][1] == Pawn
    ensures AcceptsAsWritten(Example, 0, 1, Pawn)
    ensures !Legal(Example, Move(1, 1, 0, 1, Pawn))
  {
    ExampleCapture();
    assert Leaves(Example, Move(1, 0, 0, 1, Pawn), 0, 1, Pawn);
  }

  /** As written, selecting (1, 1) onto itself is accepted: the board is unchanged but the count drops. */
  lemma AsWrittenMiscounts()
    ensures Valid(Example) && Counted(Example)
    ensures AcceptsAsWritten(Example, 1, 1, Pawn)
    ensures Capture(Example, Pawn, 1, 1, 1, 1).grid == Example.grid
    ensures !Counted(Capture(Example, Pawn, 1, 1, 1, 1))
  {
    ExampleCapture();
    assert Leaves(Example, Move(1, 0, 0, 1, Pawn), 1, 1, Pawn);
    var g := Example.grid;
    var h := Set(Set(g, 1, 1, Empty), 1, 1, Pawn);
    assert h[1][0] == g[1][0] && h[1][1] == g[1][1] && h[0][0] == g[0][0] && h[0][1] == g[0][1];
    assert h[0] == g[0] && h[1] == g[1];
    assert h == g;
    assert g[0][1..][1..] == [] && g[1][1..][1..] == [];
    assert RowCount(g[0][1..][1..], IsPiece) == 0 && RowCount(g[1][1..][1..], IsPiece) == 0;
    assert RowCount(g[0][1..], IsPiece) == 1 && RowCount(g[1][1..], IsPiece) == 1;
    assert RowCount(g[0], IsPiece) == 1 && RowCount(g[1], IsPiece) == 2;
    assert g[1..] == [g[1]] && g[1..][1..] == [];
    assert Count(g[1..][1..], IsPiece) == 0;
    assert Count(g[1..], IsPiece) == 2;
    assert PieceCount(g) == 3;
  }

  /** Linear search for a capture in a list of captures. */
  method Find(ms: seq<Move>, m: Move) returns (found: bool, i: int)
    ensures found <==> m in ms
    ensures found ==> 0 <= i < |ms| && ms[i] == m
  {
    i := 0;
    while i < |ms|
      invariant 0 <= i <= |ms|
      invariant forall k :: 0 <= k < i ==> ms[k] != m
    {
      if ms[i] == m {
        return true, i;
      }
      i := i + 1;
    }
    return false, 0;
  }

  /** The corrected check: the start cell's piece has the capture onto the destination among its successors. */
  method ValidCapture(c: Config, fr: int, fc: int, tr: int, tc: int) returns (ok: bool, i: int)
    requires Valid(c) && InBoard(c, fr, fc)
    ensures ok <==> Legal(c, Move(fr, fc, tr, tc, c.grid[fr][fc]))
    ensures ok ==> 0 <= i < |Moves(c)| && Moves(c)[i] == Move(fr, fc, tr, tc, c.grid[fr][fc])
  {
    var m := Move(fr, fc, tr, tc, c.grid[fr][fc]);
    ok, i := Find(Moves(c), m);
    MovesAreLegal(c, m);
  }

  /**
   * `select` with the corrected check: it accepts exactly the legal captures,
   * and an accepted capture yields one of the board's successors, keeping the
   * running count in step with the board.
   */
  method SelectChecked(c: Config, fr: int, fc: int, tr: int, tc: int) returns (d: Config, state: GameState)
    requires Valid(c) && InBoard(c, fr, fc)
    ensures state == CantCapture <==> !Legal(c, Move(fr, fc, tr, tc, c.grid[fr][fc]))
    ensures state == CantCapture ==> d == c
    ensures state != CantCapture ==>
              && InBoard(c, tr, tc) && d == Capture(c, c.grid[fr][fc], fr, fc, tr, tc)
              && d in Neighbors(c)
              && PieceCount(d.grid) == PieceCount(c.grid) - 1
              && (Counted(c) ==> Counted(d))
              && (state == Solution <==> IsSolution(d))
  {
    var ok, i := ValidCapture(c, fr, fc, tr, tc);
    if !ok {
      return c, CantCapture;
    }
    NeighborIsLegalCapture(c, i);
    d := Capture(c, c.grid[fr][fc], fr, fc, tr, tc);
    assert d == Neighbors(c)[i];
    state := if d.pieces == 1 then Solution else Captured;
  }

  /**
   * `hint` when the board is already solved: the board comes back unchanged
   * with the solution state. Otherwise the answer comes from the solver, which
   * is outside this model (`None`).
   */
  function Hint(c: Config): (r: Option<(Config, GameState)>)
    requires Valid(c)
    ensures r.Some? <==> IsSolution(c)
    ensures r.Some? ==> r.value.0 == c && r.value.1 == Solution
    ensures r.Some? && Counted(c) ==> Neighbors(c) == []
  {
    if IsSolution(c) then
      if Counted(c) then SolvedHasNoNeighbors(c); Some((c, Solution))
      else Some((c, Solution))
    else None
  }
}
