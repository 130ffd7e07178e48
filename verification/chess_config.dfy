/**
 * The chess-capture puzzle configuration: a rows x cols board of piece letters
 * (K N P B R Q) and empty cells '.', with a running piece count. Every move is a
 * capture, and the puzzle is solved when a single piece is left.
 */
module ChessConfig {
  import opened Grids
  import opened Options
  import JavaHash

  const Empty: char := '.'
  const King: char := 'K'
  const Knight: char := 'N'
  const Pawn: char := 'P'
  const Bishop: char := 'B'
  const Rook: char := 'R'
  const Queen: char := 'Q'

  /**
   * A board. `rows` and `cols` are the dimensions every configuration of one
   * puzzle shares; `pieces` is the running count, set by the loader and
   * decremented by each capture.
   */
  datatype Config = Config(rows: nat, cols: nat, grid: Grid<char>, pieces: int)

  /** One capture: the piece of kind `piece` at (fr, fc) takes the piece at (tr, tc). */
  datatype Move = Move(fr: int, fc: int, tr: int, tc: int, piece: char)

  predicate Valid(c: Config) {
    Shaped(c.grid, c.rows, c.cols)
  }

  predicate InBoard(c: Config, r: int, col: int) {
    InBounds(c.rows, c.cols, r, col)
  }

  predicate Fits(c: Config, m: Move) {
    InBoard(c, m.fr, m.fc) && InBoard(c, m.tr, m.tc)
  }

  predicate IsPiece(ch: char) {
    ch != Empty
  }

  /** Number of occupied cells on a board. */
  function PieceCount(g: Grid<char>): nat {
    Count(g, IsPiece)
  }

  /** The running count agrees with the board. */
  predicate Counted(c: Config) {
    c.pieces == PieceCount(c.grid)
  }

  /** Goal test: exactly one piece is left, by the running count; with the count in step, one occupied cell. */
  function IsSolution(c: Config): (b: bool)
    ensures Counted(c) ==> (b <==> PieceCount(c.grid) == 1)
  {
    c.pieces == 1
  }

  // ---------------------------------------------------------------------------
  // The capture copy-constructor

  /** The successor in which the piece at (fr, fc) captures the one at (tr, tc). */
  function Capture(c: Config, piece: char, fr: int, fc: int, tr: int, tc: int): (d: Config)
    requires Valid(c) && InBoard(c, fr, fc) && InBoard(c, tr, tc)
    ensures Valid(d) && d.rows == c.rows && d.cols == c.cols
    ensures d.pieces == c.pieces - 1
    ensures d.grid[tr][tc] == piece
    ensures fr != tr || fc != tc ==> d.grid[fr][fc] == Empty
    ensures forall i, j :: InBoard(c, i, j) && (i != fr || j != fc) && (i != tr || j != tc) ==>
                             d.grid[i][j] == c.grid[i][j]
  {
    Config(c.rows, c.cols, Set(Set(c.grid, fr, fc, Empty), tr, tc, piece), c.pieces - 1)
  }

  function Apply(c: Config, m: Move): Config
    requires Valid(c) && Fits(c, m)
  {
    Capture(c, m.piece, m.fr, m.fc, m.tr, m.tc)
  }

  /** A capture between two distinct occupied cells removes exactly one piece from the board. */
  lemma CaptureRemovesOnePiece(c: Config, piece: char, fr: int, fc: int, tr: int, tc: int)
    requires Valid(c) && InBoard(c, fr, fc) && InBoard(c, tr, tc) && (fr != tr || fc != tc)
    requires IsPiece(c.grid[fr][fc]) && IsPiece(c.grid[tr][tc]) && IsPiece(piece)
    ensures PieceCount(Capture(c, piece, fr, fc, tr, tc).grid) == PieceCount(c.grid) - 1
    ensures Counted(c) ==> Counted(Capture(c, piece, fr, fc, tr, tc))
  {
    var g1 := Set(c.grid, fr, fc, Empty);
    CountSet(c.grid, fr, fc, Empty, IsPiece);
    CountSet(g1, tr, tc, piece, IsPiece);
  }

  // ---------------------------------------------------------------------------
  // Fixed-offset pieces: pawn, king, knight

  const PawnOffsets: seq<(int, int)> := [(-1, -1), (-1, 1)]
  const KingOffsets: seq<(int, int)> := [(1, 0), (-1, 0), (0, 1), (0, -1), (1, 1), (-1, 1), (1, -1), (-1, -1)]
  const KnightOffsets: seq<(int, int)> := [(1, 2), (2, 1), (-2, 1), (2, -1), (-2, -1), (-1, 2), (1, -2), (-1, -2)]

  /** Captures by the piece at (r, col) to origin + each offset, in offset order, kept when on the board and occupied. */
  function StepMoves(c: Config, piece: char, r: int, col: int, offsets: seq<(int, int)>): (ms: seq<Move>)
    requires Valid(c) && InBoard(c, r, col)
    ensures |ms| <= |offsets|
    ensures forall m :: m in ms ==>
                          && m.fr == r && m.fc == col && m.piece == piece
                          && InBoard(c, m.tr, m.tc) && IsPiece(c.grid[m.tr][m.tc])
  {
    if |offsets| == 0 then []
    else
      var (dr, dc) := offsets[0];
      var head := if InBoard(c, r + dr, col + dc) && IsPiece(c.grid[r + dr][col + dc])
                  then [Move(r, col, r + dr, col + dc, piece)] else [];
      head + StepMoves(c, piece, r, col, offsets[1..])
  }

  /** The fixed-offset captures are exactly the occupied on-board cells at one of the offsets. */
  lemma {:induction false} StepMovesMembers(c: Config, piece: char, r: int, col: int, offsets: seq<(int, int)>, m: Move)
    requires Valid(c) && InBoard(c, r, col)
    ensures m in StepMoves(c, piece, r, col, offsets) <==>
              && m.fr == r && m.fc == col && m.piece == piece
              && (m.tr - r, m.tc - col) in offsets
              && InBoard(c, m.tr, m.tc) && IsPiece(c.grid[m.tr][m.tc])
    decreases |offsets|
  {
    if |offsets| > 0 {
      var (dr, dc) := offsets[0];
      var head := if InBoard(c, r + dr, col + dc) && IsPiece(c.grid[r + dr][col + dc])
                  then [Move(r, col, r + dr, col + dc, piece)] else [];
      var tail := StepMoves(c, piece, r, col, offsets[1..]);
      assert StepMoves(c, piece, r, col, offsets) == head + tail;
      StepMovesMembers(c, piece, r, col, offsets[1..], m);
      assert offsets == [offsets[0]] + offsets[1..];
      assert m in head + tail <==> m in head || m in tail;
    }
  }

  // ---------------------------------------------------------------------------
  // Sliding pieces: rook, bishop, queen

  const RookRays: seq<(int, int)> := [(1, 0), (-1, 0), (0, 1), (0, -1)]
  const BishopRays: seq<(int, int)> := [(1, 1), (-1, 1), (1, -1), (-1, -1)]
  const QueenRays: seq<(int, int)> := [(0, 1), (-1, 0), (1, 0), (0, -1), (1, 1), (-1, 1), (1, -1), (-1, -1)]

  /** A unit step along an axis or a diagonal. */
  predicate IsDir(dr: int, dc: int) {
    -1 <= dr <= 1 && -1 <= dc <= 1 && (dr != 0 || dc != 0)
  }

  /** The coordinate `k` unit steps from `x` in direction `d` (one of -1, 0, 1). */
  function Along(x: int, d: int, k: int): int {
    if d > 0 then x + k else if d < 0 then x - k else x
  }

  /** Steps left before leaving [0, n) from `x` in direction `d`. */
  function Room(x: int, d: int, n: int): int {
    if d > 0 then n - x else if d < 0 then x + 1 else 0
  }

  /**
   * The cell `k` steps from (r, col) along (dr, dc) is on the board and occupied,
   * and every cell before it on the ray is on the board and empty.
   */
  predicate FirstHit(c: Config, r: int, col: int, dr: int, dc: int, k: int)
    requires Valid(c)
  {
    && k >= 1
    && InBoard(c, Along(r, dr, k), Along(col, dc, k))
    && IsPiece(c.grid[Along(r, dr, k)][Along(col, dc, k)])
    && forall j :: 1 <= j < k ==>
         InBoard(c, Along(r, dr, j), Along(col, dc, j)) && c.grid[Along(r, dr, j)][Along(col, dc, j)] == Empty
  }

  /** Distance along the ray from (r, col) to the first occupied cell, if the ray meets one before the edge. */
  function Slide(c: Config, r: int, col: int, dr: int, dc: int): (k: Option<nat>)
    requires Valid(c) && InBoard(c, r, col) && IsDir(dr, dc)
    ensures k.Some? ==> FirstHit(c, r, col, dr, dc, k.value)
    ensures k.None? ==> forall j :: j >= 1 && InBoard(c, Along(r, dr, j), Along(col, dc, j)) ==>
                                      c.grid[Along(r, dr, j)][Along(col, dc, j)] == Empty
    decreases Room(r, dr, c.rows) + Room(col, dc, c.cols)
  {
    var nr, nc := r + dr, col + dc;
    if !InBoard(c, nr, nc) then
      LeavesBoard(c, r, col, dr, dc);
      None
    else if IsPiece(c.grid[nr][nc]) then Some(1)
    else
      var rest := Slide(c, nr, nc, dr, dc);
      SlideStep(c, r, col, dr, dc, nr, nc, rest);
      match rest
      case None => None
      case Some(k) => Some(k + 1)
  }

  /** Once a ray leaves the board it never comes back. */
  lemma LeavesBoard(c: Config, r: int, col: int, dr: int, dc: int)
    requires InBoard(c, r, col) && IsDir(dr, dc) && !InBoard(c, r + dr, col + dc)
    ensures forall j :: j >= 1 ==> !InBoard(c, Along(r, dr, j), Along(col, dc, j))
  {
  }

  /** One step of the scan: an empty next cell shifts every fact about the rest of the ray by one. */
  lemma SlideStep(c: Config, r: int, col: int, dr: int, dc: int, nr: int, nc: int, rest: Option<nat>)
    requires Valid(c) && InBoard(c, r, col) && IsDir(dr, dc) && nr == r + dr && nc == col + dc
    requires InBoard(c, nr, nc) && c.grid[nr][nc] == Empty
    requires rest.Some? ==> FirstHit(c, nr, nc, dr, dc, rest.value)
    requires rest.None? ==> forall j :: j >= 1 && InBoard(c, Along(nr, dr, j), Along(nc, dc, j)) ==>
                                          c.grid[Along(nr, dr, j)][Along(nc, dc, j)] == Empty
    ensures rest.Some? ==> FirstHit(c, r, col, dr, dc, rest.value + 1)
    ensures rest.None? ==> forall j :: j >= 1 && InBoard(c, Along(r, dr, j), Along(col, dc, j)) ==>
                                         c.grid[Along(r, dr, j)][Along(col, dc, j)] == Empty
  {
    if rest.Some? {
      var k := rest.value;
      forall j | 1 <= j < k + 1
        ensures InBoard(c, Along(r, dr, j), Along(col, dc, j)) && c.grid[Along(r, dr, j)][Along(col, dc, j)] == Empty
      {
        if j > 1 {
          assert Along(r, dr, j) == Along(nr, dr, j - 1) && Along(col, dc, j) == Along(nc, dc, j - 1);
        }
      }
      assert Along(r, dr, k + 1) == Along(nr, dr, k) && Along(col, dc, k + 1) == Along(nc, dc, k);
    } else {
      forall j | j >= 1 && InBoard(c, Along(r, dr, j), Along(col, dc, j))
        ensures c.grid[Along(r, dr, j)][Along(col, dc, j)] == Empty
      {
        if j > 1 {
          assert Along(r, dr, j) == Along(nr, dr, j - 1) && Along(col, dc, j) == Along(nc, dc, j - 1);
        }
      }
    }
  }

  /** Number of unit steps along (dr, dc) from (r, col) to (tr, tc), read off the moving coordinate. */
  function Steps(r: int, col: int, dr: int, dc: int, tr: int, tc: int): nat {
    if dr != 0 then Abs(tr - r) else Abs(tc - col)
  }

  /** (tr, tc) is the first occupied cell on the ray from (r, col) along (dr, dc). */
  predicate Hits(c: Config, r: int, col: int, dr: int, dc: int, tr: int, tc: int)
    requires Valid(c)
  {
    var k := Steps(r, col, dr, dc, tr, tc);
    FirstHit(c, r, col, dr, dc, k) && tr == Along(r, dr, k) && tc == Along(col, dc, k)
  }

  /** A ray has at most one first occupied cell. */
  lemma FirstHitUnique(c: Config, r: int, col: int, dr: int, dc: int, k1: int, k2: int)
    requires Valid(c) && FirstHit(c, r, col, dr, dc, k1) && FirstHit(c, r, col, dr, dc, k2)
    ensures k1 == k2
  {
  }

  /** The scan finds exactly the first occupied cell of the ray. */
  lemma SlideFindsHit(c: Config, r: int, col: int, dr: int, dc: int, tr: int, tc: int)
    requires Valid(c) && InBoard(c, r, col) && IsDir(dr, dc)
    ensures Hits(c, r, col, dr, dc, tr, tc) <==>
              var k := Slide(c, r, col, dr, dc);
              k.Some? && tr == Along(r, dr, k.value) && tc == Along(col, dc, k.value)
  {
  }

  /** Captures by the slider at (r, col): at most one per ray, in ray order, at the ray's first occupied cell. */
  function RayMoves(c: Config, piece: char, r: int, col: int, rays: seq<(int, int)>): (ms: seq<Move>)
    requires Valid(c) && InBoard(c, r, col)
    requires forall d :: d in rays ==> IsDir(d.0, d.1)
    ensures |ms| <= |rays|
    ensures forall m :: m in ms ==>
                          && m.fr == r && m.fc == col && m.piece == piece
                          && InBoard(c, m.tr, m.tc) && IsPiece(c.grid[m.tr][m.tc])
  {
    if |rays| == 0 then []
    else
      var (dr, dc) := rays[0];
      var k := Slide(c, r, col, dr, dc);
      var head := if k.Some? then [Move(r, col, Along(r, dr, k.value), Along(col, dc, k.value), piece)] else [];
      head + RayMoves(c, piece, r, col, rays[1..])
  }

  /** The slider's captures are exactly the first occupied cells of its rays. */
  lemma {:induction false} RayMovesMembers(c: Config, piece: char, r: int, col: int, rays: seq<(int, int)>, m: Move)
    requires Valid(c) && InBoard(c, r, col)
    requires forall d :: d in rays ==> IsDir(d.0, d.1)
    ensures m in RayMoves(c, piece, r, col, rays) <==>
              && m.fr == r && m.fc == col && m.piece == piece
              && exists d :: d in rays && Hits(c, r, col, d.0, d.1, m.tr, m.tc)
    decreases |rays|
  {
    if |rays| > 0 {
      var (dr, dc) := rays[0];
      var k := Slide(c, r, col, dr, dc);
      var head := if k.Some? then [Move(r, col, Along(r, dr, k.value), Along(col, dc, k.value), piece)] else [];
      var tail := RayMoves(c, piece, r, col, rays[1..]);
      assert RayMoves(c, piece, r, col, rays) == head + tail;
      RayMovesMembers(c, piece, r, col, rays[1..], m);
      SlideFindsHit(c, r, col, dr, dc, m.tr, m.tc);
      assert rays == [rays[0]] + rays[1..];
      assert m in head + tail <==> m in head || m in tail;
      if m in head {
        assert rays[0] in rays && Hits(c, r, col, rays[0].0, rays[0].1, m.tr, m.tc);
      }
    }
  }

  // ---------------------------------------------------------------------------
  // Successor generation

  /** The captures available to whatever stands at (r, col), in that piece's fixed direction order. */
  function CellMoves(c: Config, r: int, col: int): (ms: seq<Move>)
    requires Valid(c) && InBoard(c, r, col)
    ensures forall m :: m in ms ==> m.fr == r && m.fc == col && m.piece == c.grid[r][col] && Fits(c, m)
    ensures forall m :: m in ms ==> Fits(c, m) && IsPiece(c.grid[m.tr][m.tc])
    ensures |ms| <= MaxCaptures(c.grid[r][col])
  {
    var p := c.grid[r][col];
    if p == Knight then StepMoves(c, Knight, r, col, KnightOffsets)
    else if p == Pawn then StepMoves(c, Pawn, r, col, PawnOffsets)
    else if p == Queen then RayMoves(c, Queen, r, col, QueenRays)
    else if p == King then StepMoves(c, King, r, col, KingOffsets)
    else if p == Bishop then RayMoves(c, Bishop, r, col, BishopRays)
    else if p == Rook then RayMoves(c, Rook, r, col, RookRays)
    else []
  }

  /** The most captures one piece of each kind can have: one per offset or per ray. */
  function MaxCaptures(p: char): nat {
    if p == Pawn then 2
    else if p == King || p == Knight || p == Queen then 8
    else if p == Rook || p == Bishop then 4
    else 0
  }

  /** The captures each board cell contributes; nothing for a cell off the board. */
  function CellGenerator(c: Config): (int, int) -> seq<Move> {
    (r: int, col: int) => if Valid(c) && InBoard(c, r, col) then CellMoves(c, r, col) else []
  }

  /** What a board cell contributes to the scan is that cell's captures. */
  lemma Generated(c: Config, i: int, k: int, m: Move)
    requires Valid(c) && m in CellGenerator(c)(i, k)
    ensures InBoard(c, i, k) && m in CellMoves(c, i, k)
  {
  }

  /** Every capture of the configuration, pieces in row-major order, each piece in its direction order. */
  function Moves(c: Config): (ms: seq<Move>)
    requires Valid(c)
    ensures forall m :: m in ms ==> Fits(c, m) && m.piece == c.grid[m.fr][m.fc] && IsPiece(c.grid[m.tr][m.tc])
  {
    var ms := Scan(0, c.rows, c.cols, CellGenerator(c));
    assert forall m :: m in ms ==> Fits(c, m) && m.piece == c.grid[m.fr][m.fc] && IsPiece(c.grid[m.tr][m.tc]) by {
      forall m | m in ms ensures Fits(c, m) && m.piece == c.grid[m.fr][m.fc] && IsPiece(c.grid[m.tr][m.tc]) {
        ScanMembers(0, c.rows, c.cols, CellGenerator(c), m);
        var i, k :| 0 <= i < c.rows && 0 <= k < c.cols && m in CellGenerator(c)(i, k);
        Generated(c, i, k, m);
      }
    }
    ms
  }

  /** The captures of `Moves` are exactly those generated for the cells of the board. */
  lemma MovesMembers(c: Config, m: Move)
    requires Valid(c)
    ensures m in Moves(c) <==> InBoard(c, m.fr, m.fc) && m in CellMoves(c, m.fr, m.fc)
  {
    ScanMembers(0, c.rows, c.cols, CellGenerator(c), m);
    if m in Moves(c) {
      var i, k :| 0 <= i < c.rows && 0 <= k < c.cols && m in CellGenerator(c)(i, k);
      Generated(c, i, k, m);
    }
    if InBoard(c, m.fr, m.fc) && m in CellMoves(c, m.fr, m.fc) {
      assert m in CellGenerator(c)(m.fr, m.fc);
    }
  }

  /** `getNeighbors` scans the board row by row, left to right. */
  lemma MovesRowMajor(c: Config)
    requires Valid(c)
    ensures forall i, j :: 0 <= i < j < |Moves(c)| ==> RowMajor((Moves(c)[i].fr, Moves(c)[i].fc), (Moves(c)[j].fr, Moves(c)[j].fc))
  {
    var pos := (m: Move) => (m.fr, m.fc);
    assert Located(CellGenerator(c), pos) by {
      forall i, k, m | m in CellGenerator(c)(i, k) ensures pos(m) == (i, k) {
        assert m in CellMoves(c, i, k);
      }
    }
    ScanOrdered(0, c.rows, c.cols, CellGenerator(c), pos);
  }

  // ---------------------------------------------------------------------------
  // Order of one piece's captures

  /** The displacement of a capture from its origin. */
  function Offset(m: Move): (int, int) {
    (m.tr - m.fr, m.tc - m.fc)
  }

  /** The unit direction of a capture from its origin. */
  function Direction(m: Move): (int, int) {
    (Sign(m.tr - m.fr), Sign(m.tc - m.fc))
  }

  /** The offset table of a pawn or king; the knight's for any other kind. */
  function OffsetsOf(piece: char): seq<(int, int)> {
    if piece == Pawn then PawnOffsets else if piece == King then KingOffsets else KnightOffsets
  }

  predicate IsSlider(piece: char) {
    piece == Rook || piece == Bishop || piece == Queen
  }

  /**
   * Where a capture stands in its piece's direction table: the place of its
   * ray for a rook, bishop or queen, of its offset for any other piece.
   */
  function Rank(m: Move): int {
    if IsSlider(m.piece) then IndexOf(RaysOf(m.piece), Direction(m)) else IndexOf(OffsetsOf(m.piece), Offset(m))
  }

  /** No direction table lists an entry twice. */
  lemma TablesDistinct()
    ensures Distinct(PawnOffsets) && Distinct(KingOffsets) && Distinct(KnightOffsets)
    ensures Distinct(RookRays) && Distinct(BishopRays) && Distinct(QueenRays)
  {
  }

  /** The fixed-offset captures come in the order of the offset table. */
  lemma {:induction false} StepMovesInOrder(c: Config, piece: char, r: int, col: int, offsets: seq<(int, int)>)
    requires Valid(c) && InBoard(c, r, col) && Distinct(offsets)
    ensures KeyedIn(StepMoves(c, piece, r, col, offsets), offsets, Offset)
    ensures InTableOrder(StepMoves(c, piece, r, col, offsets), offsets, Offset)
    decreases |offsets|
  {
    if |offsets| > 0 {
      var (dr, dc) := offsets[0];
      var head := if InBoard(c, r + dr, col + dc) && IsPiece(c.grid[r + dr][col + dc])
                  then [Move(r, col, r + dr, col + dc, piece)] else [];
      var tail := StepMoves(c, piece, r, col, offsets[1..]);
      assert StepMoves(c, piece, r, col, offsets) == head + tail;
      DistinctRest(offsets);
      StepMovesInOrder(c, piece, r, col, offsets[1..]);
      ConsInTableOrder(offsets, head, tail, Offset);
    }
  }

  /** A slider's capture lies in the direction of the ray that found it. */
  lemma RayCaptureDirection(r: int, col: int, dr: int, dc: int, k: int, piece: char)
    requires IsDir(dr, dc) && k >= 1
    ensures Direction(Move(r, col, Along(r, dr, k), Along(col, dc, k), piece)) == (dr, dc)
  {
  }

  /** The slider's captures come in the order of its ray table, each in the direction of its ray. */
  lemma {:induction false} RayMovesInOrder(c: Config, piece: char, r: int, col: int, rays: seq<(int, int)>)
    requires Valid(c) && InBoard(c, r, col) && Distinct(rays)
    requires forall d :: d in rays ==> IsDir(d.0, d.1)
    ensures KeyedIn(RayMoves(c, piece, r, col, rays), rays, Direction)
    ensures InTableOrder(RayMoves(c, piece, r, col, rays), rays, Direction)
    decreases |rays|
  {
    if |rays| > 0 {
      var (dr, dc) := rays[0];
      var k := Slide(c, r, col, dr, dc);
      var head := if k.Some? then [Move(r, col, Along(r, dr, k.value), Along(col, dc, k.value), piece)] else [];
      var tail := RayMoves(c, piece, r, col, rays[1..]);
      assert RayMoves(c, piece, r, col, rays) == head + tail;
      DistinctRest(rays);
      RayMovesInOrder(c, piece, r, col, rays[1..]);
      if k.Some? {
        RayCaptureDirection(r, col, dr, dc, k.value, piece);
      }
      ConsInTableOrder(rays, head, tail, Direction);
    }
  }

  /** A pawn, king or knight has its captures in increasing rank. */
  lemma StepCellInOrder(c: Config, r: int, col: int)
    requires Valid(c) && InBoard(c, r, col)
    requires c.grid[r][col] == Knight || c.grid[r][col] == Pawn || c.grid[r][col] == King
    ensures var ms := CellMoves(c, r, col);
            forall a, b :: 0 <= a < b < |ms| ==> Rank(ms[a]) < Rank(ms[b])
  {
    var p := c.grid[r][col];
    var ms := CellMoves(c, r, col);
    var table := OffsetsOf(p);
    assert ms == StepMoves(c, p, r, col, table);
    assert Distinct(table) by {
      TablesDistinct();
    }
    StepMovesInOrder(c, p, r, col, table);
    assert forall a :: 0 <= a < |ms| ==> Rank(ms[a]) == IndexOf(table, Offset(ms[a])) by {
      forall a | 0 <= a < |ms| ensures Rank(ms[a]) == IndexOf(table, Offset(ms[a])) {
        assert ms[a] in ms;
      }
    }
    RankFollowsTable(ms, table, Offset, Rank);
  }

  /** A rook, bishop or queen has its captures in increasing rank. */
  lemma RayCellInOrder(c: Config, r: int, col: int)
    requires Valid(c) && InBoard(c, r, col) && IsSlider(c.grid[r][col])
    ensures var ms := CellMoves(c, r, col);
            forall a, b :: 0 <= a < b < |ms| ==> Rank(ms[a]) < Rank(ms[b])
  {
    var p := c.grid[r][col];
    var ms := CellMoves(c, r, col);
    var table := RaysOf(p);
    RaysAreDirections(p);
    assert ms == RayMoves(c, p, r, col, table);
    assert Distinct(table) by {
      TablesDistinct();
    }
    RayMovesInOrder(c, p, r, col, table);
    assert forall a :: 0 <= a < |ms| ==> Rank(ms[a]) == IndexOf(table, Direction(ms[a])) by {
      forall a | 0 <= a < |ms| ensures Rank(ms[a]) == IndexOf(table, Direction(ms[a])) {
        assert ms[a] in ms;
      }
    }
    RankFollowsTable(ms, table, Direction, Rank);
  }

  /** One piece's captures come in its direction table's order. */
  lemma CellMovesInOrder(c: Config, r: int, col: int)
    requires Valid(c) && InBoard(c, r, col)
    ensures var ms := CellMoves(c, r, col);
            forall a, b :: 0 <= a < b < |ms| ==> Rank(ms[a]) < Rank(ms[b])
  {
    var p := c.grid[r][col];
    if IsSlider(p) {
      RayCellInOrder(c, r, col);
    } else if p == Knight || p == Pawn || p == King {
      StepCellInOrder(c, r, col);
    }
  }

  /** `getNeighbors` lists the captures of one piece in that piece's direction order. */
  lemma MovesInOrder(c: Config)
    requires Valid(c)
    ensures forall i, j :: 0 <= i < j < |Moves(c)| && Moves(c)[i].fr == Moves(c)[j].fr && Moves(c)[i].fc == Moves(c)[j].fc ==>
                             Rank(Moves(c)[i]) < Rank(Moves(c)[j])
  {
    var pos := (m: Move) => (m.fr, m.fc);
    var f := CellGenerator(c);
    assert Located(f, pos) by {
      forall i, k, m | m in f(i, k) ensures pos(m) == (i, k) {
        assert m in CellMoves(c, i, k);
      }
    }
    assert Ranked(f, Rank) by {
      forall i, k | Valid(c) && InBoard(c, i, k) {
        CellMovesInOrder(c, i, k);
      }
    }
    ScanRanked(0, c.rows, c.cols, f, pos, Rank);
  }

  /** `getNeighbors`: one successor per capture, in generation order. */
  function Neighbors(c: Config): (ns: seq<Config>)
    requires Valid(c)
    ensures |ns| == |Moves(c)|
    ensures forall i :: 0 <= i < |ns| ==> Fits(c, Moves(c)[i]) && ns[i] == Apply(c, Moves(c)[i])
  {
    var ms := Moves(c);
    assert forall i :: 0 <= i < |ms| ==> Fits(c, ms[i]) by {
      forall i | 0 <= i < |ms| ensures Fits(c, ms[i]) {
        assert ms[i] in ms;
      }
    }
    seq(|ms|, i requires 0 <= i < |ms| => Apply(c, ms[i]))
  }

  // ---------------------------------------------------------------------------
  // Reference definition of a legal capture, stated by geometry alone

  function Sign(x: int): int {
    if x > 0 then 1 else if x < 0 then -1 else 0
  }

  function Max(a: int, b: int): int {
    if a >= b then a else b
  }

  /** Every cell strictly between (fr, fc) and (tr, tc), walking the straight line joining them, is empty. */
  predicate ClearBetween(c: Config, fr: int, fc: int, tr: int, tc: int)
    requires Valid(c)
  {
    var dr, dc := Sign(tr - fr), Sign(tc - fc);
    forall j :: 1 <= j < Max(Abs(tr - fr), Abs(tc - fc)) ==>
      InBoard(c, Along(fr, dr, j), Along(fc, dc, j)) && c.grid[Along(fr, dr, j)][Along(fc, dc, j)] == Empty
  }

  predicate Orthogonal(dr: int, dc: int) {
    (dr == 0) != (dc == 0)
  }

  predicate Diagonal(dr: int, dc: int) {
    dr != 0 && Abs(dr) == Abs(dc)
  }

  /** Whether a piece of kind `piece` at (fr, fc) attacks (tr, tc) on this board. */
  predicate Reaches(c: Config, piece: char, fr: int, fc: int, tr: int, tc: int)
    requires Valid(c)
  {
    var dr, dc := tr - fr, tc - fc;
    if piece == Pawn then dr == -1 && Abs(dc) == 1
    else if piece == King then Abs(dr) <= 1 && Abs(dc) <= 1 && (dr != 0 || dc != 0)
    else if piece == Knight then (Abs(dr) == 1 && Abs(dc) == 2) || (Abs(dr) == 2 && Abs(dc) == 1)
    else if piece == Rook then Orthogonal(dr, dc) && ClearBetween(c, fr, fc, tr, tc)
    else if piece == Bishop then Diagonal(dr, dc) && ClearBetween(c, fr, fc, tr, tc)
    else if piece == Queen then (Orthogonal(dr, dc) || Diagonal(dr, dc)) && ClearBetween(c, fr, fc, tr, tc)
    else false
  }

  /** A legal capture: the mover is the piece at the origin and it attacks another occupied cell. */
  predicate Legal(c: Config, m: Move) {
    && Valid(c) && Fits(c, m)
    && m.piece == c.grid[m.fr][m.fc]
    && IsPiece(c.grid[m.tr][m.tc])
    && Reaches(c, m.piece, m.fr, m.fc, m.tr, m.tc)
  }

  /** A ray's first occupied cell is exactly an occupied cell on that ray's line with a clear path. */
  lemma HitsIffClearLine(c: Config, r: int, col: int, dr: int, dc: int, tr: int, tc: int)
    requires Valid(c) && InBoard(c, r, col) && IsDir(dr, dc)
    ensures Hits(c, r, col, dr, dc, tr, tc) <==>
              && InBoard(c, tr, tc) && IsPiece(c.grid[tr][tc])
              && Sign(tr - r) == dr && Sign(tc - col) == dc
              && (dr == 0 || dc == 0 || Abs(tr - r) == Abs(tc - col))
              && ClearBetween(c, r, col, tr, tc)
  {
  }

  /** The rays of a sliding piece, in the order the source scans them. */
  function RaysOf(piece: char): seq<(int, int)> {
    if piece == Rook then RookRays else if piece == Bishop then BishopRays else QueenRays
  }

  /** A ray's hit lies on a line the slider may use; the hit cell is on the board and occupied. */
  lemma RayHitReaches(c: Config, piece: char, r: int, col: int, d: (int, int), tr: int, tc: int)
    requires Valid(c) && InBoard(c, r, col) && (piece == Rook || piece == Bishop || piece == Queen)
    requires d in RaysOf(piece) && Hits(c, r, col, d.0, d.1, tr, tc)
    ensures InBoard(c, tr, tc) && IsPiece(c.grid[tr][tc]) && Reaches(c, piece, r, col, tr, tc)
  {
  }

  /** A cell a slider legally attacks is the hit of the ray pointing at it. */
  lemma ReachedByRay(c: Config, piece: char, r: int, col: int, tr: int, tc: int)
    requires Valid(c) && InBoard(c, r, col) && (piece == Rook || piece == Bishop || piece == Queen)
    requires InBoard(c, tr, tc) && IsPiece(c.grid[tr][tc]) && Reaches(c, piece, r, col, tr, tc)
    ensures var d := (Sign(tr - r), Sign(tc - col)); d in RaysOf(piece) && Hits(c, r, col, d.0, d.1, tr, tc)
  {
  }

  /** Some ray of a slider hits (tr, tc) exactly when the slider legally attacks it. */
  lemma RaysReach(c: Config, piece: char, r: int, col: int, tr: int, tc: int)
    requires Valid(c) && InBoard(c, r, col) && (piece == Rook || piece == Bishop || piece == Queen)
    ensures (exists d :: d in RaysOf(piece) && Hits(c, r, col, d.0, d.1, tr, tc)) <==>
              InBoard(c, tr, tc) && IsPiece(c.grid[tr][tc]) && Reaches(c, piece, r, col, tr, tc)
  {
    if exists d :: d in RaysOf(piece) && Hits(c, r, col, d.0, d.1, tr, tc) {
      var d :| d in RaysOf(piece) && Hits(c, r, col, d.0, d.1, tr, tc);
      RayHitReaches(c, piece, r, col, d, tr, tc);
    }
    if InBoard(c, tr, tc) && IsPiece(c.grid[tr][tc]) && Reaches(c, piece, r, col, tr, tc) {
      ReachedByRay(c, piece, r, col, tr, tc);
    }
  }

  /** The offset tables list exactly the displacements the fixed-offset pieces attack. */
  lemma OffsetsMatchGeometry(dr: int, dc: int)
    ensures (dr, dc) in PawnOffsets <==> dr == -1 && Abs(dc) == 1
    ensures (dr, dc) in KingOffsets <==> Abs(dr) <= 1 && Abs(dc) <= 1 && (dr != 0 || dc != 0)
    ensures (dr, dc) in KnightOffsets <==> (Abs(dr) == 1 && Abs(dc) == 2) || (Abs(dr) == 2 && Abs(dc) == 1)
  {
  }

  lemma StepCellLegal(c: Config, r: int, col: int, m: Move)
    requires Valid(c) && InBoard(c, r, col)
    requires var p := c.grid[r][col]; p == Knight || p == Pawn || p == King
    ensures m in CellMoves(c, r, col) <==> m.fr == r && m.fc == col && Legal(c, m)
  {
    var p := c.grid[r][col];
    OffsetsMatchGeometry(m.tr - r, m.tc - col);
    var offsets := if p == Knight then KnightOffsets else if p == Pawn then PawnOffsets else KingOffsets;
    assert CellMoves(c, r, col) == StepMoves(c, p, r, col, offsets);
    StepMovesMembers(c, p, r, col, offsets, m);
  }

  lemma RaysAreDirections(p: char)
    ensures forall d :: d in RaysOf(p) ==> IsDir(d.0, d.1)
  {
  }

  lemma RayCellLegal(c: Config, r: int, col: int, m: Move)
    requires Valid(c) && InBoard(c, r, col)
    requires var p := c.grid[r][col]; p == Rook || p == Bishop || p == Queen
    ensures m in CellMoves(c, r, col) <==> m.fr == r && m.fc == col && Legal(c, m)
  {
    var p := c.grid[r][col];
    RaysAreDirections(p);
    CellMovesOfSlider(c, r, col);
    RayMovesMembers(c, p, r, col, RaysOf(p), m);
    RaysReach(c, p, r, col, m.tr, m.tc);
  }

  lemma CellMovesOfSlider(c: Config, r: int, col: int)
    requires Valid(c) && InBoard(c, r, col)
    requires var p := c.grid[r][col]; p == Rook || p == Bishop || p == Queen
    ensures CellMoves(c, r, col) == RayMoves(c, c.grid[r][col], r, col, RaysOf(c.grid[r][col]))
  {
  }

  /** The captures generated for a cell are exactly the legal captures from it. */
  lemma CellMovesAreLegal(c: Config, r: int, col: int, m: Move)
    requires Valid(c) && InBoard(c, r, col)
    ensures m in CellMoves(c, r, col) <==> m.fr == r && m.fc == col && Legal(c, m)
  {
    var p := c.grid[r][col];
    if p == Knight || p == Pawn || p == King {
      StepCellLegal(c, r, col, m);
    } else if p == Rook || p == Bishop || p == Queen {
      RayCellLegal(c, r, col, m);
    } else {
      assert CellMoves(c, r, col) == [];
    }
  }

  /** Successor generation is sound and complete: its captures are exactly the legal ones. */
  lemma MovesAreLegal(c: Config, m: Move)
    requires Valid(c)
    ensures m in Moves(c) <==> Legal(c, m)
  {
    MovesMembers(c, m);
    if InBoard(c, m.fr, m.fc) {
      CellMovesAreLegal(c, m.fr, m.fc, m);
    }
  }

  // ---------------------------------------------------------------------------
  // Properties of the successors

  /** Each successor is the parent after one legal capture: only origin and target change, one piece fewer. */
  lemma NeighborIsLegalCapture(c: Config, i: int)
    requires Valid(c) && 0 <= i < |Neighbors(c)|
    ensures var m, n := Moves(c)[i], Neighbors(c)[i];
              && Legal(c, m) && (m.fr != m.tr || m.fc != m.tc)
              && Valid(n) && n.rows == c.rows && n.cols == c.cols
              && n.pieces == c.pieces - 1
              && n.grid[m.fr][m.fc] == Empty && n.grid[m.tr][m.tc] == m.piece
              && (forall r, col :: InBoard(c, r, col) && (r != m.fr || col != m.fc) && (r != m.tr || col != m.tc) ==>
                                     n.grid[r][col] == c.grid[r][col])
              && PieceCount(n.grid) == PieceCount(c.grid) - 1
              && (Counted(c) ==> Counted(n))
  {
    var m := Moves(c)[i];
    assert m in Moves(c);
    MovesAreLegal(c, m);
    CaptureRemovesOnePiece(c, m.piece, m.fr, m.fc, m.tr, m.tc);
  }

  /** The successors are exactly the boards reached by the legal captures. */
  lemma NeighborsAreLegalCaptures(c: Config, d: Config)
    requires Valid(c)
    ensures d in Neighbors(c) <==> exists m :: Legal(c, m) && d == Apply(c, m)
  {
    if d in Neighbors(c) {
      var i :| 0 <= i < |Neighbors(c)| && Neighbors(c)[i] == d;
      MovesAreLegal(c, Moves(c)[i]);
    }
    if exists m :: Legal(c, m) && d == Apply(c, m) {
      var m :| Legal(c, m) && d == Apply(c, m);
      MovesAreLegal(c, m);
      var i :| 0 <= i < |Moves(c)| && Moves(c)[i] == m;
      assert Neighbors(c)[i] == d;
    }
  }

  /** A solved board has no captures left: a capture needs two occupied cells. */
  lemma SolvedHasNoNeighbors(c: Config)
    requires Valid(c) && Counted(c) && IsSolution(c)
    ensures Neighbors(c) == []
  {
    if |Neighbors(c)| > 0 {
      var m := Moves(c)[0];
      NeighborIsLegalCapture(c, 0);
      CountAtLeastTwo(c.grid, m.fr, m.fc, m.tr, m.tc, IsPiece, Empty);
    }
  }

  // ---------------------------------------------------------------------------
  // equals, hashCode, toString

  /** `equals`: cell-by-cell comparison of the boards (`Arrays.deepEquals`); the running count is ignored. */
  function Equals(a: Config, b: Config): (r: bool)
    ensures r <==> a.grid == b.grid
    ensures r ==> Hash(a) == Hash(b)
  {
    if |a.grid| == |b.grid| && forall i :: 0 <= i < |a.grid| ==> a.grid[i] == b.grid[i] then
      assert a.grid == b.grid;
      true
    else
      false
  }

  /** `Arrays.deepEquals` compares row lengths and then the boards cell by cell. */
  lemma EqualsIsCellwise(a: Config, b: Config)
    ensures Equals(a, b) <==> (&& |a.grid| == |b.grid|
                              && forall i :: 0 <= i < |a.grid| ==>
                                   |a.grid[i]| == |b.grid[i]| && forall j :: 0 <= j < |a.grid[i]| ==> a.grid[i][j] == b.grid[i][j])
  {
  }

  /** `hashCode`: `Arrays.deepHashCode` of the board, read as an unsigned 32-bit value. */
  function Hash(c: Config): (h: nat)
    ensures h < JavaHash.Modulus
  {
    JavaHash.CharGridHash(c.grid)
  }

  /** One row as `toString` lays it out: cells separated by single spaces, then a newline. */
  function RenderRow(row: seq<char>): string {
    if |row| == 0 then "\n"
    else if |row| == 1 then [row[0], '\n']
    else [row[0], ' '] + RenderRow(row[1..])
  }

  /** `toString`: the rows one after another. */
  function Render(c: Config): string {
    RenderRows(c.grid)
  }

  function RenderRows(g: Grid<char>): string {
    if |g| == 0 then "" else RenderRow(g[0]) + RenderRows(g[1..])
  }

  /** Width of one rendered row of `cols` cells, newline included. */
  function RowWidth(cols: nat): nat {
    if cols == 0 then 1 else 2 * cols
  }

  /** Reads the cells back from one rendered row: every other character. */
  function ReadRow(s: string): seq<char>
    decreases |s|
  {
    if |s| <= 1 then [] else [s[0]] + ReadRow(s[2..])
  }

  /** Reads a rendered board back, one row of `RowWidth(cols)` characters at a time. */
  function ReadRows(s: string, cols: nat): Grid<char>
    decreases |s|
  {
    if |s| < RowWidth(cols) || |s| == 0 then [] else [ReadRow(s[..RowWidth(cols)])] + ReadRows(s[RowWidth(cols)..], cols)
  }

  lemma {:induction false} RenderRowRoundTrip(row: seq<char>)
    ensures |RenderRow(row)| == RowWidth(|row|)
    ensures RenderRow(row)[|RenderRow(row)| - 1] == '\n'
    ensures ReadRow(RenderRow(row)) == row
    decreases |row|
  {
    if |row| >= 2 {
      RenderRowRoundTrip(row[1..]);
      assert RenderRow(row)[2..] == RenderRow(row[1..]);
      assert row == [row[0]] + row[1..];
    }
  }

  /** A rendered row holds cell `k` at place `2k`, a single space after every cell but the last, and a newline at the end. */
  lemma {:induction false} RenderRowLayout(row: seq<char>)
    ensures |RenderRow(row)| == RowWidth(|row|)
    ensures forall k :: 0 <= k < |row| ==>
                          && RenderRow(row)[2 * k] == row[k]
                          && (k < |row| - 1 ==> RenderRow(row)[2 * k + 1] == ' ')
    ensures RenderRow(row)[|RenderRow(row)| - 1] == '\n'
    decreases |row|
  {
    if |row| >= 2 {
      RenderRowLayout(row[1..]);
      var s, t := RenderRow(row), RenderRow(row[1..]);
      forall k | 1 <= k < |row|
        ensures s[2 * k] == row[k] && (k < |row| - 1 ==> s[2 * k + 1] == ' ')
      {
        assert s[2 * k] == t[2 * (k - 1)] && row[k] == row[1..][k - 1];
        if k < |row| - 1 {
          assert s[2 * k + 1] == t[2 * (k - 1) + 1];
        }
      }
    }
  }

  /** The board text determines the board: reading it back row by row gives the grid. */
  lemma RenderRoundTrip(c: Config)
    requires Valid(c)
    ensures |Render(c)| == c.rows * RowWidth(c.cols)
    ensures ReadRows(Render(c), c.cols) == c.grid
  {
    RenderRowsLength(c.grid, c.rows, c.cols);
    RenderRowsRoundTrip(c.grid, c.rows, c.cols);
  }

  lemma {:induction false} RenderRowsLength(g: Grid<char>, rows: nat, cols: nat)
    requires Shaped(g, rows, cols)
    ensures |RenderRows(g)| == rows * RowWidth(cols)
    decreases rows
  {
    if rows > 0 {
      var w := RowWidth(cols);
      RenderRowRoundTrip(g[0]);
      RenderRowsLength(g[1..], rows - 1, cols);
      assert rows * w == w + (rows - 1) * w;
    }
  }

  lemma {:induction false} RenderRowsRoundTrip(g: Grid<char>, rows: nat, cols: nat)
    requires Shaped(g, rows, cols)
    ensures ReadRows(RenderRows(g), cols) == g
    decreases rows
  {
    if rows > 0 {
      var w := RowWidth(cols);
      var s := RenderRows(g);
      var first, rest := RenderRow(g[0]), RenderRows(g[1..]);
      RenderRowRoundTrip(g[0]);
      RenderRowsRoundTrip(g[1..], rows - 1, cols);
      assert s == first + rest;
      assert |first| == w;
      assert s[..w] == first;
      assert s[w..] == rest;
      assert ReadRows(s, cols) == [ReadRow(first)] + ReadRows(rest, cols);
      assert g == [g[0]] + g[1..];
    }
  }
}
