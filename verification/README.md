# Chess, Hoppers and Strings puzzles in Dafny

This project models the puzzle core of the `chess-hoppers-` repository: three
puzzle configurations with their successor functions ("neighbours"), goal
tests, equality and hashing, and the two interactive models' single-move
routines. Everything is pure: a configuration is an immutable datatype, a
successor list is a `seq` in the order the Java code generates it, and the
in-place updates of the models become functions or methods that return the
new configuration and the reported game state.

- `Grids` (grids.dfy): rectangular `seq<seq<T>>` boards, single-cell update,
  cell counting and a generic row-major scan with membership and ordering
  lemmas.
- `JavaHash` (javahash.dfy): the 31-polynomial hash fold of `String.hashCode`
  and `Arrays.deepHashCode`, taken modulo 2^32.
- `ChessConfig` (chess_config.dfy): the Chess Solitaire board, the capture
  successor, the move generators of the six piece kinds, `getNeighbors`,
  `isSolution`, `equals`, `hashCode` and `toString`. An independent
  definition of a legal capture (`Legal`, written from the geometry of the
  pieces: offsets for pawn, king and knight; clear straight or diagonal lines
  for rook, bishop and queen) is proved to generate exactly the same captures.
- `ChessModel` (chess_model.dfy): `startCoordNoPiece`, `isWithinBounds`,
  `validCaptureModel`, `select` and the solved branch of `hint`.
- `HoppersConfig` (hoppers_config.dfy): the Hoppers board, the jump successor,
  `getNeighbors`, `checkPass`/`checkLanding`, `isSolution`, `equals` and
  `hashCode`, with an independent jump geometry (`LegalHop`) proved to
  generate exactly the same jumps.
- `HoppersModel` (hoppers_model.dfy): `checkMoveFrom`, `coordexists`,
  `validjump` and the solved branch of `hint`.
- `StringsConfig` (strings_config.dfy): the Strings puzzle, its successor
  list, `isSolution`, `equals` and `hashCode`, with an alphabet-circle
  reference relation (`OneStep`) that matches the successors of uppercase
  strings.

Static state of the Java classes becomes explicit: board dimensions are
fields of the configuration, the Strings target is a parameter of
`IsSolution`, and the scanning cursor of `HoppersConfig.getNeighbors` is the
origin passed to each generator.

The Hoppers code lets a frog jump only over a green frog: `checkPass` accepts
`"G"` alone, as its documentation says, so a red frog can never be jumped.

## Model

| member | source | states |
|---|---|---|
| ChessConfig.Capture | chess-hoppers-/src/puzzles/chess/model/ChessConfig.java:66-86 | the successor keeps the dimensions, has a count one lower, holds the mover's kind at the destination and `.` at a distinct origin, and every other cell is unchanged |
| ChessConfig.CaptureRemovesOnePiece | chess-hoppers-/src/puzzles/chess/model/ChessConfig.java:72-85 | a capture between two distinct occupied cells leaves exactly one occupied cell fewer, so a count that agreed with the board still agrees |
| ChessConfig.StepMoves | chess-hoppers-/src/puzzles/chess/model/ChessConfig.java:105-119 | a fixed-offset piece has at most one capture per offset, each from its own cell with its own kind onto an occupied cell on the board |
| ChessConfig.StepMovesMembers | chess-hoppers-/src/puzzles/chess/model/ChessConfig.java:105-119 | a capture is generated from a fixed-offset piece exactly when the target lies at one of its offsets, on the board, and is occupied |
| ChessConfig.OffsetsMatchGeometry | chess-hoppers-/src/puzzles/chess/model/ChessConfig.java:105-378 | the pawn, king and knight offset tables list exactly the displacements those pieces attack: diagonally forward for a pawn, the eight surrounding cells for a king, the eight L-shapes for a knight |
| ChessConfig.Slide | chess-hoppers-/src/puzzles/chess/model/ChessConfig.java:126-173 | walking a ray yields the distance of the first occupied cell, or none, and then every cell of the ray on the board is empty |
| ChessConfig.FirstHitUnique | chess-hoppers-/src/puzzles/chess/model/ChessConfig.java:154-167 | a ray has at most one first occupied cell, so the walk can stop at the first one it meets |
| ChessConfig.SlideFindsHit | chess-hoppers-/src/puzzles/chess/model/ChessConfig.java:126-284 | a cell is the first occupied cell of a ray exactly when the ray walk stops there |
| ChessConfig.RayMoves | chess-hoppers-/src/puzzles/chess/model/ChessConfig.java:126-284 | a sliding piece has at most one capture per ray, each from its own cell with its own kind onto an occupied cell on the board |
| ChessConfig.RayMovesMembers | chess-hoppers-/src/puzzles/chess/model/ChessConfig.java:126-284 | a slider's captures are exactly the first occupied cells of its rays |
| ChessConfig.HitsIffClearLine | chess-hoppers-/src/puzzles/chess/model/ChessConfig.java:126-284 | the first occupied cell of a ray is exactly an occupied cell in that direction, on a straight or diagonal line, with every cell strictly between empty |
| ChessConfig.RaysReach | chess-hoppers-/src/puzzles/chess/model/ChessConfig.java:126-284 | some ray of a rook, bishop or queen hits a cell exactly when that piece attacks it through a clear orthogonal or diagonal line allowed to its kind |
| ChessConfig.CellMoves | chess-hoppers-/src/puzzles/chess/model/ChessConfig.java:391-412 | the captures of one cell start there with the cell's kind, land on occupied cells, and number at most 2 for a pawn, 4 for a rook or bishop, 8 for a king, knight or queen |
| ChessConfig.CellMovesAreLegal | chess-hoppers-/src/puzzles/chess/model/ChessConfig.java:386-417 | the captures generated for a cell are exactly the legal captures from that cell |
| ChessConfig.Moves | chess-hoppers-/src/puzzles/chess/model/ChessConfig.java:386-417 | every generated capture is by the piece standing on its origin and lands on an occupied cell of the board |
| ChessConfig.MovesMembers | chess-hoppers-/src/puzzles/chess/model/ChessConfig.java:386-417 | a capture is in the board's list exactly when it is generated for its origin cell |
| ChessConfig.MovesRowMajor | chess-hoppers-/src/puzzles/chess/model/ChessConfig.java:389-390 | the captures appear with their origins in row-major order |
| ChessConfig.StepMovesInOrder | chess-hoppers-/src/puzzles/chess/model/ChessConfig.java:105-378 | a pawn, king or knight tries its offsets in table order: the captures of one cell follow the order of their offsets in the table, each offset used at most once |
| ChessConfig.RayMovesInOrder | chess-hoppers-/src/puzzles/chess/model/ChessConfig.java:126-284 | a rook, bishop or queen walks its directions in table order: the captures of one cell follow the order of their directions in the table, at most one per direction |
| ChessConfig.CellMovesInOrder | chess-hoppers-/src/puzzles/chess/model/ChessConfig.java:105-378 | the captures from one cell come in the piece's fixed order: pawn up-left, up-right; rook down, up, right, left; bishop down-right, up-right, down-left, up-left; queen right, up, down, left, down-right, up-right, down-left, up-left; king down, up, right, left, down-right, up-right, down-left, up-left; knight (1,2), (2,1), (-2,1), (2,-1), (-2,-1), (-1,2), (1,-2), (-1,-2) |
| ChessConfig.MovesInOrder | chess-hoppers-/src/puzzles/chess/model/ChessConfig.java:386-417 | among the board's captures, two with the same origin appear in the piece's direction order |
| ChessConfig.MovesAreLegal | chess-hoppers-/src/puzzles/chess/model/ChessConfig.java:386-417 | successor generation is sound and complete: a capture is generated exactly when it is legal |
| ChessConfig.NeighborsAreLegalCaptures | chess-hoppers-/src/puzzles/chess/model/ChessConfig.java:386-417 | a board is a successor exactly when some legal capture, as defined by the pieces' geometry, leads to it |
| ChessConfig.NeighborIsLegalCapture | chess-hoppers-/src/puzzles/chess/model/ChessConfig.java:66-86 | each successor comes from a legal capture between two distinct cells: origin `.`, destination the mover's kind, all else unchanged, one occupied cell and one counted piece fewer |
| ChessConfig.IsSolution | chess-hoppers-/src/puzzles/chess/model/ChessConfig.java:93-98 | the goal test reads the running count; when the count agrees with the board, solved means exactly one occupied cell |
| ChessConfig.SolvedHasNoNeighbors | chess-hoppers-/src/puzzles/chess/model/ChessConfig.java:93-98 | a board whose count is correct and equal to 1 has no successors |
| ChessConfig.Equals | chess-hoppers-/src/puzzles/chess/model/ChessConfig.java:425-431 | two configurations are equal exactly when their boards are, whatever their counts, and equal configurations hash alike |
| ChessConfig.EqualsIsCellwise | chess-hoppers-/src/puzzles/chess/model/ChessConfig.java:425-431 | equality compares the number of rows, each row's length and then every cell |
| ChessConfig.Hash | chess-hoppers-/src/puzzles/chess/model/ChessConfig.java:437-440 | the hash is a 32-bit value computed from the board alone |
| ChessConfig.RenderRowLayout | chess-hoppers-/src/puzzles/chess/model/ChessConfig.java:452-460 | a rendered row of `n` cells has `2n` characters (one for an empty row): cell `k` at place `2k`, a single space after every cell but the last, and a newline at the end |
| ChessConfig.RenderRowRoundTrip | chess-hoppers-/src/puzzles/chess/model/ChessConfig.java:452-460 | the cells can be read back from a rendered row, which ends with a newline |
| ChessConfig.RenderRoundTrip | chess-hoppers-/src/puzzles/chess/model/ChessConfig.java:450-462 | `toString` (`Render`) gives one line per row, and reading it back gives the board |
| ChessModel.StartCoordNoPiece | chess-hoppers-/src/puzzles/chess/model/ChessModel.java:160-164 | true exactly when the selected cell is `.`, and then no capture starts there |
| ChessModel.IsWithinBounds | chess-hoppers-/src/puzzles/chess/model/ChessModel.java:222-226 | true exactly when the cell can be indexed on the board |
| ChessModel.ValidCaptureModel | chess-hoppers-/src/puzzles/chess/model/ChessModel.java:201-215 | true exactly when the destination is on the board and some successor holds the given kind there |
| ChessModel.LegalIsAccepted | chess-hoppers-/src/puzzles/chess/model/ChessModel.java:201-215 | every legal capture passes `validCaptureModel` |
| ChessModel.Select | chess-hoppers-/src/puzzles/chess/model/ChessModel.java:172-192 | a refused selection changes nothing; an accepted one empties the start, puts the mover's kind on the destination, lowers the count by one and changes nothing else; solution is reported exactly when the new count is 1 |
| ChessModel.ExampleCapture | chess-hoppers-/src/puzzles/chess/model/ChessConfig.java:105-119 | on the board `. P / P P` the lower-left pawn captures the upper-right one |
| ChessModel.AsWrittenAcceptsIllegalCapture | chess-hoppers-/src/puzzles/chess/model/ChessModel.java:201-215 | on that board `validCaptureModel` accepts a straight pawn move from (1,1) to (0,1), which is not a legal capture |
| ChessModel.AsWrittenMiscounts | chess-hoppers-/src/puzzles/chess/model/ChessModel.java:172-192 | on that board `validCaptureModel` accepts (1,1) to (1,1), which leaves the board as it was but lowers the count, so the count no longer agrees with the board |
| ChessModel.ValidCapture | chess-hoppers-/src/puzzles/chess/model/ChessModel.java:201-215 | corrected check: true exactly when the capture from the selected start to the destination is legal, with its place in the successor list |
| ChessModel.SelectChecked | chess-hoppers-/src/puzzles/chess/model/ChessModel.java:172-192 | corrected selection: refused exactly when the capture is illegal, and then nothing changes; otherwise the result is the capture of the selected piece from the start to the destination, a successor with one occupied cell fewer, a correct count stays correct, and solution is reported exactly when the count is 1 |
| ChessModel.Hint | chess-hoppers-/src/puzzles/chess/model/ChessModel.java:112-117 | a solved board is returned unchanged with the solution state, and with a correct count it has no successors |
| HoppersConfig.Jump | chess-hoppers-/src/puzzles/hoppers/model/HoppersConfig.java:75-92 | the successor empties the origin and the passed cell, puts `R` on the landing when the origin held `R` and `G` otherwise, changes no other cell, and lowers the green count by one |
| HoppersConfig.JumpRemovesOneGreen | chess-hoppers-/src/puzzles/hoppers/model/HoppersConfig.java:75-92 | a jump by a red or green frog over a green frog onto a pad leaves exactly one `G` cell fewer, so a green count that agreed with the board still agrees |
| HoppersConfig.StepHops | chess-hoppers-/src/puzzles/hoppers/model/HoppersConfig.java:115-229 | at most one jump per offset, each from the given cell, with its landing on the board and `.` (`checkLanding`) and its passed cell on the board and `G` (`checkPass`, as predicate `Lands`) |
| HoppersConfig.StepHopsMembers | chess-hoppers-/src/puzzles/hoppers/model/HoppersConfig.java:115-229 | a jump in one offset table is generated exactly when its landing is a pad and its passed cell holds `G`, both on the board (`Lands`, from `checkLanding` and `checkPass`) |
| HoppersConfig.CellHops | chess-hoppers-/src/puzzles/hoppers/model/HoppersConfig.java:112-205 | only a cell holding a letter token produces jumps, at most eight, each landing on a pad over a green frog |
| HoppersConfig.Hops | chess-hoppers-/src/puzzles/hoppers/model/HoppersConfig.java:108-210 | every generated jump starts on the board, lands on a pad and passes a green frog |
| HoppersConfig.HopsMembers | chess-hoppers-/src/puzzles/hoppers/model/HoppersConfig.java:108-210 | a jump is in the board's list exactly when it is generated for its origin cell |
| HoppersConfig.HopsRowMajor | chess-hoppers-/src/puzzles/hoppers/model/HoppersConfig.java:110-111 | the jumps appear with their origins in row-major order |
| HoppersConfig.StepHopsInOrder | chess-hoppers-/src/puzzles/hoppers/model/HoppersConfig.java:115-205 | the jumps of one cell from an offset table follow the order of their offsets in that table, each offset used at most once |
| HoppersConfig.CellHopsInOrder | chess-hoppers-/src/puzzles/hoppers/model/HoppersConfig.java:115-205 | the jumps from one cell come in the order right, left, up, down, up-right, up-left, down-right, down-left |
| HoppersConfig.HopsInOrder | chess-hoppers-/src/puzzles/hoppers/model/HoppersConfig.java:108-210 | among the board's jumps, two with the same origin appear in that direction order |
| HoppersConfig.OffsetsMatchShape | chess-hoppers-/src/puzzles/hoppers/model/HoppersConfig.java:115-205 | the offset tables list exactly the allowed shapes: four cells along an axis from an even cell, or two cells diagonally, passing the midpoint |
| HoppersConfig.AxisHopsLegal | chess-hoppers-/src/puzzles/hoppers/model/HoppersConfig.java:115-161 | an axis jump is generated exactly when it is a legal jump along an axis from an even cell |
| HoppersConfig.DiagonalHopsLegal | chess-hoppers-/src/puzzles/hoppers/model/HoppersConfig.java:163-205 | a diagonal jump is generated exactly when it is a legal diagonal jump |
| HoppersConfig.CellHopsAreLegal | chess-hoppers-/src/puzzles/hoppers/model/HoppersConfig.java:112-205 | the jumps generated for a cell are exactly the legal jumps from it |
| HoppersConfig.HopsAreLegal | chess-hoppers-/src/puzzles/hoppers/model/HoppersConfig.java:108-229 | successor generation is sound and complete: a jump is generated exactly when it is legal |
| HoppersConfig.NeighborsAreLegalJumps | chess-hoppers-/src/puzzles/hoppers/model/HoppersConfig.java:108-229 | a board is a successor exactly when some legal jump, as defined by the jump geometry, leads to it |
| HoppersConfig.LegalHopCells | chess-hoppers-/src/puzzles/hoppers/model/HoppersConfig.java:217-229 | the origin, passed cell and landing of a legal jump are three distinct cells, and the origin is not a pad |
| HoppersConfig.NeighborIsLegalJump | chess-hoppers-/src/puzzles/hoppers/model/HoppersConfig.java:75-92 | each successor comes from a legal jump: origin and passed cell empty, landing holds the frog's colour, all else unchanged, green count one lower and still correct when every frog is red or green |
| HoppersConfig.IsSolution | chess-hoppers-/src/puzzles/hoppers/model/HoppersConfig.java:99-101 | the goal test reads the green count; when the count agrees with the board, solved means no `G` cell is counted |
| HoppersConfig.SolvedHasNoNeighbors | chess-hoppers-/src/puzzles/hoppers/model/HoppersConfig.java:99-101 | a board with a correct green count of 0 has no successors |
| HoppersConfig.Equals | chess-hoppers-/src/puzzles/hoppers/model/HoppersConfig.java:259-267 | two configurations are equal exactly when their boards are, and equal configurations hash alike |
| HoppersConfig.EqualsIsCellwise | chess-hoppers-/src/puzzles/hoppers/model/HoppersConfig.java:259-267 | equality compares the number of rows, each row's length and then every cell |
| HoppersConfig.Hash | chess-hoppers-/src/puzzles/hoppers/model/HoppersConfig.java:235-238 | the hash is a 32-bit value computed from the board alone |
| HoppersModel.CheckMoveFrom | chess-hoppers-/src/puzzles/hoppers/model/HoppersModel.java:161-163 | true exactly when the start cell holds `G` or `R`, and such a cell is a jump origin |
| HoppersModel.CoordExists | chess-hoppers-/src/puzzles/hoppers/model/HoppersModel.java:218-221 | true exactly when the cell can be indexed on the board |
| HoppersModel.Trial | chess-hoppers-/src/puzzles/hoppers/model/HoppersModel.java:186-188 | the trial jump keeps the start and destination and passes the cell halfway between them, rounded down |
| HoppersModel.TrialMatchesOnlyItsHop | chess-hoppers-/src/puzzles/hoppers/model/HoppersModel.java:186-194 | the trial copy built from the start, the integer midpoint and the destination has the board of a legal jump's successor only when it is that jump |
| HoppersModel.MatchIsLegal | chess-hoppers-/src/puzzles/hoppers/model/HoppersModel.java:190-202 | a successor whose board equals the trial copy's is the trial copy, and the trial is a legal jump |
| HoppersModel.NoMatchIsIllegal | chess-hoppers-/src/puzzles/hoppers/model/HoppersModel.java:190-208 | when no successor equals the trial copy, the trial is not a legal jump |
| HoppersModel.FindBoard | chess-hoppers-/src/puzzles/hoppers/model/HoppersModel.java:191-203 | boards are compared, not counts: the search stops at the first successor whose board is the trial's, and reports none only when no successor has the trial's board |
| HoppersModel.ValidJump | chess-hoppers-/src/puzzles/hoppers/model/HoppersModel.java:174-210 | an off-board destination is refused with nothing changed; otherwise the jump goes through exactly when the trial is a legal jump, and the new board is the trial, a successor with one green fewer; a refused jump keeps the board and clears the jump flag |
| HoppersModel.Hint | chess-hoppers-/src/puzzles/hoppers/model/HoppersModel.java:115-139 | a solved board is returned unchanged with the solved state, and with a correct green count it has no successors |
| StringsConfig.Down | chess-hoppers-/src/puzzles/strings/StringsConfig.java:66-103 | the left candidate is always an uppercase letter different from the character |
| StringsConfig.Up | chess-hoppers-/src/puzzles/strings/StringsConfig.java:66-103 | the right candidate is always an uppercase letter different from the character and from the left candidate |
| StringsConfig.StepsOnCircle | chess-hoppers-/src/puzzles/strings/StringsConfig.java:66-103 | on uppercase letters the left candidate is one back and the right one forward on the 26-letter circle |
| StringsConfig.StepsAreInverse | chess-hoppers-/src/puzzles/strings/StringsConfig.java:66-103 | on uppercase letters a step right undoes a step left and the other way round |
| StringsConfig.AdjacentIsStep | chess-hoppers-/src/puzzles/strings/StringsConfig.java:66-103 | the letters adjacent to an uppercase letter on the circle are exactly its two candidates |
| StringsConfig.NeighborsFrom | chess-hoppers-/src/puzzles/strings/StringsConfig.java:59-104 | the positions from `i` on contribute two successors each, left before right, each the string with that one position replaced |
| StringsConfig.Neighbors | chess-hoppers-/src/puzzles/strings/StringsConfig.java:57-106 | twice as many successors as (Dafny) characters, candidate `a` changing position `a / 2` to the left candidate when `a` is even and the right one when odd |
| StringsConfig.NeighborChangesOnePosition | chess-hoppers-/src/puzzles/strings/StringsConfig.java:57-106 | each successor has the string's length and differs from it at exactly one position, where it holds an uppercase letter |
| StringsConfig.NeighborsDiffer | chess-hoppers-/src/puzzles/strings/StringsConfig.java:58-106 | two different places of the successor list hold different strings |
| StringsConfig.NeighborsDistinct | chess-hoppers-/src/puzzles/strings/StringsConfig.java:58-106 | all successors are distinct, so the insertion-ordered set keeps all of them, in generation order |
| StringsConfig.NotOwnNeighbor | chess-hoppers-/src/puzzles/strings/StringsConfig.java:57-106 | a string is never its own successor |
| StringsConfig.NeighborsStayUppercase | chess-hoppers-/src/puzzles/strings/StringsConfig.java:57-106 | the successors of an uppercase string are uppercase |
| StringsConfig.NeighborIsOneStep | chess-hoppers-/src/puzzles/strings/StringsConfig.java:57-106 | a successor of an uppercase string is one alphabet-circle step away at one position |
| StringsConfig.OneStepIsNeighbor | chess-hoppers-/src/puzzles/strings/StringsConfig.java:57-106 | a string one alphabet-circle step away at one position is a successor |
| StringsConfig.NeighborsMembers | chess-hoppers-/src/puzzles/strings/StringsConfig.java:57-106 | for an uppercase string the successors are exactly the strings one circle step away at one position |
| StringsConfig.NeighborsSymmetric | chess-hoppers-/src/puzzles/strings/StringsConfig.java:66-103 | between uppercase strings the successor relation is symmetric |
| StringsConfig.ExampleNeighbors | chess-hoppers-/src/puzzles/strings/StringsConfig.java:51-57 | `AB` gives `ZB`, `BB`, `AA`, `AC`, in that order |
| StringsConfig.IsSolution | chess-hoppers-/src/puzzles/strings/StringsConfig.java:47-49 | solved exactly when the current string equals the target character by character |
| StringsConfig.Equals | chess-hoppers-/src/puzzles/strings/StringsConfig.java:114-122 | equal exactly when the strings agree character by character, and equal configurations hash alike |
| StringsConfig.Hash | chess-hoppers-/src/puzzles/strings/StringsConfig.java:128-130 | the hash is a 32-bit value computed from the string alone |

## Left out

- File-reading constructors, `load`, `loadFile` and `reset`: file I/O. Boards and strings are given values.
- Observers, state messages and console output (`modelGrid`, `PTUIGRID`, `printPTUIGrid`, `displayGridWNumbers`): side effects only. The operations return the game state instead.
- The Hoppers `toString`: it returns the board as text and has no side effect, but it is outside the modelled core; only the chess board's rendering is modelled.
- The GUIs, the text UIs and the `main` wrappers: user interface and input loops.
- The breadth-first solver, and with it the unsolved branch of both `hint` methods: the solver is not part of this model. `Hint` returns `None` there.
- In-place mutation of the models' current configuration: `Select`, `SelectChecked` and `ValidJump` return the new configuration instead.
- ChessConfig.Hash: states only the range and agreement with equality. `Arrays.deepHashCode` is modelled as an unsigned value modulo 2^32, not as Java's signed `int`.
- HoppersConfig.Hash: as for the chess board, an unsigned value modulo 2^32 that agrees with equality.
- StringsConfig.Hash: as above, for `String.hashCode`.
- ChessModel.Select: requires the start cell on the board. The source indexes the grid with it and throws otherwise.
- ChessModel.StartCoordNoPiece: requires the start cell on the board, for the same reason.
- HoppersModel.CheckMoveFrom: requires the start cell on the board, for the same reason.
- HoppersModel.ValidJump: requires the start cell on the board. The trial copy indexes the grid with it and throws otherwise.
- HoppersConfig.NeighborIsLegalJump: the green count is shown to stay correct only when every frog is `R` or `G`. Any other letter token is also a jump origin and lands as `G`, which would add a green frog.
- StringsConfig.NeighborsMembers: the match with the alphabet circle is stated for uppercase strings. A character outside A to Z is sent to `Z`/`B` (at or below `A`) or `Y`/`A` (at or above `Z`), and it cannot be reached back.
- StringsConfig.NeighborsSymmetric: stated for uppercase strings only, for the same reason.
- Java `char` is a UTF-16 code unit, while Dafny's `char` is a Unicode scalar value. Strings holding a lone surrogate are not modelled. A character outside the Basic Multilingual Plane is one Dafny `char` but two Java `char`s, so for strings holding one, StringsConfig.Neighbors, StringsConfig.NeighborsFrom and StringsConfig.Hash count and hash Dafny characters and do not match Java's successor count or hash; only strings within the Basic Multilingual Plane are modelled faithfully.

## Findings

| source | as written | input that shows it | evidently intended | confidence | as-written member | corrected member |
|---|---|---|---|---|---|---|
| chess-hoppers-/src/puzzles/chess/model/ChessModel.java:201-215 | `validCaptureModel` accepts when any successor holds the mover's kind at the destination, whatever cell that capture started from, and `select` then moves the selected piece | board `. P / P P` with count 3: (1,1) to (0,1) is accepted because the pawn at (1,0) may capture there, though a pawn cannot move straight; (1,1) to (1,1) is accepted, leaves the board unchanged and lowers the count to 2 | accept only a capture that starts at the selected cell, that is, a successor of the board | high, not executed | ChessModel.Select, ChessModel.AsWrittenAcceptsIllegalCapture, ChessModel.AsWrittenMiscounts | ChessModel.SelectChecked |
