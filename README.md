# Chess rules engine of ChessboardSwiftUI, modelled in Dafny

This project models the engine behind the ChessboardSwiftUI app. The app is a drag-and-drop chessboard. Its engine has three parts.

- **The `Game` object.** It owns:
  - the 8×8 matrix of optional pieces;
  - the two lists of captured pieces;
  - the pending-castle flag `didCastle`;
  - the turn.

  It can reset the board to the starting position, move a piece (and a rook when a castle is pending), and record a capture.
- **The rules extension.** It covers:
  - the row, column and diagonal path scans;
  - the legality verdict for each kind of piece;
  - brute-force check detection.
- **The value types.** These are:
  - squares and their flat indices, with Swift's truncating `/` and `%`;
  - the turn enumeration;
  - piece kinds with their raw values;
  - piece names and image names.

It also models the sequence the board view runs when a piece is dropped: check legality, record any capture, then move. This is `Game.AttemptMove`.

## Layout

| File | Module | What it holds |
|---|---|---|
| `wrappers.dfy` | `Wrappers` | `Option` |
| `board_and_pieces.dfy` | `BoardAndPieces` | `Square` and its index conversions, `EnableColor`, `PieceType`, `ChessPiece`, names |
| `chessboard.dfy` | `Chessboard` | board values, the starting position, the effect of a move on the board, conservation of pieces, the turn flip |
| `rules.dfy` | `Rules` | line geometry, the specification of a clear path, the verdict `Evaluate`, the king search, `InCheck` |
| `game.dfy` | `ChessGame` | class `Game`, whose methods update its fields in place as the Swift methods do; each method is proved against the functions above |
| `rules_properties.dfy` | `RuleProperties` | the rule for each piece kind restated on an independent geometric notion of "strictly between" |
| `scenarios.dfy` | `Scenarios` | the starting position and a few opening and castling positions worked through the rules |

### How it is modelled

- **The board.** It is a `seq<seq<Option<ChessPiece>>>` field of `Game`, which the methods reassign.
- **The path scans.** `IsRowOrColumnEmpty` and the diagonal scan keep the Swift loops, including the early `return false`. The diagonal scan is `IsDiagonalEmpty`: it orients the two squares and then runs one of its two loops, `DiagonalDownRightEmpty` or `DiagonalDownLeftEmpty`. They are proved equal to `Rules.PathClear`: every square reached by walking k steps from `from` toward `to`, for 0 < k < distance, is empty. `RuleProperties.PathClearIffNoBlocker` then proves `PathClear` equal to a separate, walk-free characterisation: every square inside the bounding box, on the line, and different from both ends, is empty.
- **The verdict.** `Rules.Evaluate` returns `Blocked` when the destination holds a piece of the mover's colour; the Swift code returns there before touching `didCastle`. Otherwise it returns `Decided(legal, castle)`. `IsLegalMoveFor` is proved to return `legal`, to leave `didCastle` alone on `Blocked`, and to set it to `castle` otherwise.
- **Check detection.** `FindKingsSquare` keeps the Swift search, whose `break` leaves only the row loop. The search therefore ends on the first king of the colour in the *last* column that holds one. `Rules.KingScan` states this.

### The model follows the code, not textbook chess

- **Pawns.** A pawn moving straight onto an opposing piece is accepted. A two-row pawn move only needs the square it passes over, in its own column, to be empty (`PawnRule`). A two-row pawn move may also change column onto an opposing piece, and the check still looks only at the square it passes over in its from-column: black may move from (1,3) to (3,4) when (2,3) is empty, whatever stands on (2,4).
- **Castling.** A castle is any king move of more than one column, along row 0 or row 7, from column 4. Nothing between the king and the rook is checked (`CastlingPastBishop`). The rook's squares depend only on whether the king lands on column 1: a king landing on column 2 takes the rook from column 7 to column 5 (`LongCastleMovesKingsRook`). A king moved from column 4 onto column 7 is also a castle: the rook step then takes the king itself from column 7 to column 5, leaves column 7 empty, and so removes any opposing piece the king landed on (`CastleOntoRookSquare`).
- **The turn flip.** It sends `forNone` to `forWhite`.
- **Dropping from an empty square.** A drop from an empty square traps on the force unwrap at ContentView.swift:22, so `AttemptMove` requires a piece there.
- **A rejected move can still change state.** Every evaluation that gets past the same-colour test resets `didCastle`, and check detection evaluates moves too (Game+Rules.swift:108, 184). The contracts of `AttemptMove` and `IsKingInCheckForColor` state this.

## Model

| member | source | states |
|---|---|---|
| BoardAndPieces.SwiftDiv | ChessboardSwiftUI/BoardAndPieces.swift:21 | Swift's integer quotient: floor division for a non-negative dividend, never positive for a negative one |
| BoardAndPieces.SwiftRem | ChessboardSwiftUI/BoardAndPieces.swift:22 | Swift's remainder takes the dividend's sign: in 0..n-1 and equal to the modulus for a non-negative dividend, in -(n-1)..0 for a negative one |
| BoardAndPieces.SquareFromIndex | ChessboardSwiftUI/BoardAndPieces.swift:20-23 | a matrix index in 0..63 gives a square with row and column in 0..7 |
| BoardAndPieces.SquareToIndex | ChessboardSwiftUI/Game.swift:135-137 | a square on the board has a flat index in 0..63 |
| BoardAndPieces.IndexRoundTrip | ChessboardSwiftUI/BoardAndPieces.swift:20-23 | row * 8 + column of the square built from any index (negative ones included) gives that index back |
| BoardAndPieces.SquareRoundTrip | ChessboardSwiftUI/BoardAndPieces.swift:15-23 | a square on the board survives the trip through its flat index |
| BoardAndPieces.RawValue | ChessboardSwiftUI/BoardAndPieces.swift:41-48 | every piece kind has a raw value in 0..5, the key the captured-piece rows sort by (ContentView.swift:150) |
| BoardAndPieces.RawValueOrder | ChessboardSwiftUI/BoardAndPieces.swift:41-48 | raw values rise pawn < knight < bishop < rook < queen < king, and distinct kinds have distinct values |
| BoardAndPieces.Name | ChessboardSwiftUI/BoardAndPieces.swift:63-87 | the six names of lines 66-84, each at least four letters long; `NameInjective` proves them distinct |
| BoardAndPieces.NameInjective | ChessboardSwiftUI/BoardAndPieces.swift:63-87 | two kinds have the same name exactly when they are the same kind |
| BoardAndPieces.ImageName | ChessboardSwiftUI/BoardAndPieces.swift:56 | the image name starts with the kind's name |
| BoardAndPieces.ImageNameMarksBlack | ChessboardSwiftUI/BoardAndPieces.swift:54-61 | the image name ends in "-black" exactly when the piece is black; without that suffix a black piece's image name is the kind's name, and a white piece's image name is exactly the kind's name |
| Chessboard.Put | ChessboardSwiftUI/Game.swift:74 | assigning one square leaves an 8×8 board where that square holds the new value and every other square is unchanged |
| Chessboard.EmptyBoard | ChessboardSwiftUI/Game.swift:29-31 | eight rows of eight empty squares |
| Chessboard.InitialBoard | ChessboardSwiftUI/Game.swift:33-75 | an 8×8 board holding, on each square, the piece of the standard arrangement (black R N B Q K B N R and pawns on rows 0-1, white pawns and back rank on rows 6-7, rows 2-5 empty) |
| Chessboard.StartingPieces | ChessboardSwiftUI/Game.swift:33-69 | the program's table of 32 entries in its own order, all on the board, black exactly on rows 0 and 1; `StartingPiecesLayout` ties it to the standard arrangement |
| Chessboard.StartingPiecesLayout | ChessboardSwiftUI/Game.swift:33-69 | the 32 entries of the starting table are on the board, on 32 distinct squares, each with the piece the standard arrangement puts there |
| Chessboard.PlaceNext | ChessboardSwiftUI/Game.swift:71-75 | placing the next table entry on a board that holds the earlier entries (and nothing else) extends it by that entry |
| Chessboard.InitialKings | ChessboardSwiftUI/Game.swift:33-69 | at the start a square holds a king of a colour exactly when it is column 4 of that colour's back rank |
| Chessboard.CurrentRookSquare | ChessboardSwiftUI/Game.swift:79-84 | the rook to move is on the king's destination row, on column 0 or 7, and on column 0 exactly when the king lands on column 1 |
| Chessboard.NewRookSquare | ChessboardSwiftUI/Game.swift:87-92 | the rook's new square is on the king's destination row, on column 2 or 5, and on column 2 exactly when the king lands on column 1 |
| Chessboard.Relocate | ChessboardSwiftUI/Game.swift:98-99 | moving one square's contents onto another keeps the board 8×8 |
| Chessboard.MoveOnBoard | ChessboardSwiftUI/Game.swift:94-111 | the board after a move, with or without the rook's castling move, is still 8×8 |
| Chessboard.PlainMove | ChessboardSwiftUI/Game.swift:94-99 | without a pending castle the mover lands on the destination, its source empties, and every other square is unchanged |
| Chessboard.CastlingMove | ChessboardSwiftUI/Game.swift:100-111 | with a pending castle the king lands on its destination unless that is the rook's square (column 7), when the rook step carries it on to column 5; whatever stands on the rook's square after the king's move is copied to the rook's new square, the rook's old square and the king's source empty, and nothing else changes |
| Chessboard.PutPieces | ChessboardSwiftUI/Game.swift:74 | assigning a square trades its old occupant for the new one in the multiset of pieces on the board |
| Chessboard.RelocatePieces | ChessboardSwiftUI/Game.swift:98-99 | a plain move loses exactly the destination's former occupant from the pieces on the board |
| Chessboard.NextTurn | ChessboardSwiftUI/Game.swift:112 | the next turn is never forNone, differs from a colour's turn, and is black exactly after white (so forNone goes to forWhite) |
| Chessboard.TurnRoundTrip | ChessboardSwiftUI/Game.swift:112 | two moves from forWhite or forBlack restore the turn |
| Rules.MoveIsRowOrColumn | ChessboardSwiftUI/Game+Rules.swift:12-15 | the two squares share a row or a column, that is, no rows or no columns are crossed; `RookRule`, `QueenRule` and `IsLegalMoveFor` build on it |
| Rules.MoveIsDiagonal | ChessboardSwiftUI/Game+Rules.swift:41-44 | as many rows as columns are crossed, so the squares lie on one of the two diagonals through the start; a move both diagonal and along a row or column is the null move; `BishopRule`, `QueenRule`, `IsDiagonalEmpty` and `IsLegalMoveFor` build on it |
| Rules.Walk | ChessboardSwiftUI/Game+Rules.swift:17-39 | every step of a walk along a rook or bishop line between squares on the board stays on the board |
| Rules.WalkReverse | ChessboardSwiftUI/Game+Rules.swift:52-63 | stepping k from one end reaches the square distance − k steps from the other end |
| Rules.PathClearSymmetric | ChessboardSwiftUI/Game+Rules.swift:52-63 | the path between two squares is clear from one end exactly when it is clear from the other, which justifies the diagonal scan's reorientation |
| Rules.Evaluate | ChessboardSwiftUI/Game+Rules.swift:100-152 | the verdict is Blocked exactly when the destination holds a piece of the mover's colour, and a raised castle flag comes only with a legal king move of the castle shape |
| Rules.FirstKingRow | ChessboardSwiftUI/Game+Rules.swift:171-175 | the row loop stops at the first king of the colour in the column, or runs off the end when there is none |
| Rules.KingScan | ChessboardSwiftUI/Game+Rules.swift:167-177 | after scanning some columns the search holds the first king of the last column with one, or (-1, -1) when no scanned column has one |
| Rules.KingSquare | ChessboardSwiftUI/Game+Rules.swift:167-177 | when the colour has a king, the search ends on a square holding one |
| RuleProperties.WalkIsBetween | ChessboardSwiftUI/Game+Rules.swift:17-87 | every square the scans visit lies strictly between the two ends |
| RuleProperties.BetweenIsWalk | ChessboardSwiftUI/Game+Rules.swift:17-87 | every square strictly between the ends of a line is visited by the scans |
| RuleProperties.PathClearIffNoBlocker | ChessboardSwiftUI/Game+Rules.swift:17-87 | the scans' notion of a clear path is exactly "no piece strictly between the two squares" |
| RuleProperties.NullMoveBlocked | ChessboardSwiftUI/Game+Rules.swift:102-106 | a piece moved onto its own square is rejected by the same-colour test |
| RuleProperties.PawnRule | ChessboardSwiftUI/Game+Rules.swift:114-130 | past the same-colour test a pawn move is legal exactly when it goes forward one row, or two from its pawn row over an empty square, changes column by at most one and only onto an opposing piece; it never raises the castle flag |
| RuleProperties.KnightRule | ChessboardSwiftUI/Game+Rules.swift:132-133 | a knight move is legal exactly when the destination has no piece of its colour and (columns, rows) moved is (2, 1) or (1, 2) |
| RuleProperties.KnightIgnoresOtherSquares | ChessboardSwiftUI/Game+Rules.swift:132-133 | a knight's verdict depends on no square but the destination |
| RuleProperties.RookRule | ChessboardSwiftUI/Game+Rules.swift:138-139 | a rook move is legal exactly when the destination has no piece of its colour, it keeps the row or the column, and nothing stands strictly between |
| RuleProperties.BishopRule | ChessboardSwiftUI/Game+Rules.swift:135-136 | a bishop move is legal exactly when the destination has no piece of its colour, rows moved equal columns moved, and nothing stands strictly between |
| RuleProperties.QueenRule | ChessboardSwiftUI/Game+Rules.swift:141-143 | a queen move is legal exactly when the rook rule or the bishop rule accepts it |
| RuleProperties.BlockerMakesIllegal | ChessboardSwiftUI/Game+Rules.swift:135-143 | any piece placed strictly between the ends makes a rook, bishop or queen move illegal |
| RuleProperties.SlidingDependsOnlyOnPath | ChessboardSwiftUI/Game+Rules.swift:135-143 | a rook, bishop or queen verdict depends only on the destination and the squares strictly between |
| RuleProperties.KingRule | ChessboardSwiftUI/Game+Rules.swift:145-151 | past the same-colour test a king move is legal exactly when it moves at most one row and one column, or has the castle shape; the castle flag is raised exactly in the second case |
| RuleProperties.KingSquareOfOnlyKing | ChessboardSwiftUI/Game+Rules.swift:167-177 | with a single king of the colour on the board, the search finds its square |
| Scenarios.FarPieceCannotReach | ChessboardSwiftUI/Game+Rules.swift:113-152 | a piece six or more rows away reaches a square only as a rook or queen on its column, or as a bishop or queen moving six or more columns |
| Scenarios.StartKingSquare | ChessboardSwiftUI/Game+Rules.swift:167-177 | on the starting board each colour's king search ends on column 4 of its back rank |
| Scenarios.StartNoAttacker | ChessboardSwiftUI/Game+Rules.swift:179-189 | no piece of the starting position may move onto the other colour's king |
| Scenarios.StartNotInCheck | ChessboardSwiftUI/Game+Rules.swift:165-192 | in the starting position neither king is in check |
| Scenarios.KingsPawnOpens | ChessboardSwiftUI/Game+Rules.swift:114-130 | at the start the king's pawn may advance two rows but not three |
| Scenarios.StartingMinorPieces | ChessboardSwiftUI/Game+Rules.swift:132-136 | at the start a knight may jump out while the bishop is blocked by its own pawn |
| Scenarios.AfterKingsPawn | ChessboardSwiftUI/Game+Rules.swift:114-136 | after the king's pawn advances, the bishop behind it may leave and black may advance its queen's pawn two rows |
| Scenarios.CastlingPastBishop | ChessboardSwiftUI/Game+Rules.swift:148 | with only the knight gone, a short castle is legal past the bishop and puts the rook on the bishop's square |
| Scenarios.LongCastleMovesKingsRook | ChessboardSwiftUI/Game.swift:79-92 | a king landing on column 2 takes the column-7 rook to column 5, over the bishop, and leaves the column-0 rook in place |
| Scenarios.CastleOntoRookSquare | ChessboardSwiftUI/Game.swift:94-111 | a white king moved onto an opposing piece in its rook's corner is a legal castle, ends on column 5, and leaves the corner and its source empty |
| ChessGame.CaptureOf | ChessboardSwiftUI/ContentView.swift:24-26 | a drop adds at most one piece to a capture list, and adds one exactly when the destination held a piece of that list's colour |
| ChessGame.CaptureConserves | ChessboardSwiftUI/ContentView.swift:24-27 | the board's pieces plus both capture lists form the same multiset before and after a recorded capture and a plain move |
| ChessGame.Game.constructor | ChessboardSwiftUI/Game.swift:18-20 | a new game holds the starting position, empty capture lists, no pending castle, and white to play |
| ChessGame.Game.NewGame | ChessboardSwiftUI/Game.swift:22-76 | after a reset the board is the starting position, both capture lists are empty, no castle is pending, and white is to play, whatever the state before |
| ChessGame.Game.MovePiece | ChessboardSwiftUI/Game.swift:94-113 | the board becomes the plain or castling move of the old board as the old flag says, the flag is cleared, and the turn flips |
| ChessGame.Game.AddCapturedPiece | ChessboardSwiftUI/Game.swift:115-121 | the piece is appended to the list of its colour; the other list and the board are unchanged |
| ChessGame.Game.PieceForIndex | ChessboardSwiftUI/Game.swift:131-133 | the piece at a flat index is the occupant of the square that index names |
| ChessGame.Game.PieceForSquareIndex | ChessboardSwiftUI/Game.swift:131-137 | looking a square up through its flat index gives its occupant |
| ChessGame.Game.IsRowOrColumnEmpty | ChessboardSwiftUI/Game+Rules.swift:17-39 | the row scan answers whether the row path is clear; otherwise the column scan answers whether the from-column is clear up to the destination row |
| ChessGame.Game.IsDiagonalEmpty | ChessboardSwiftUI/Game+Rules.swift:46-87 | on a diagonal the scan answers exactly whether the path is clear |
| ChessGame.Game.DiagonalDownRightEmpty | ChessboardSwiftUI/Game+Rules.swift:65-73 | the down-and-right scan answers exactly whether the diagonal path is clear |
| ChessGame.Game.DiagonalDownLeftEmpty | ChessboardSwiftUI/Game+Rules.swift:74-84 | the down-and-left scan answers exactly whether the diagonal path is clear, including one-step and null diagonals |
| ChessGame.Game.IsLegalMoveFor | ChessboardSwiftUI/Game+Rules.swift:100-162 | the answer is the verdict's legality; the castle flag is left alone on Blocked and set to the verdict's castle bit otherwise |
| ChessGame.Game.IsLegalMoveForIndices | ChessboardSwiftUI/Game+Rules.swift:93-98 | the same, with the squares given as flat indices |
| ChessGame.Game.FindKingsSquare | ChessboardSwiftUI/Game+Rules.swift:167-177 | the nested search with its `break` returns the king square the scan semantics define |
| ChessGame.Game.OpponentVerdict | ChessboardSwiftUI/Game+Rules.swift:182-186 | a piece of the other colour always passes the same-colour test on the king's square, attacks exactly when that move is legal, and raises the castle flag only then |
| ChessGame.Game.IsKingInCheckForColor | ChessboardSwiftUI/Game+Rules.swift:165-192 | the answer is whether some opposing piece may legally move onto the king; the board is unchanged; when the answer is no, the castle flag survives only if it was set and the other colour has no piece |
| ChessGame.Game.AttemptMove | ChessboardSwiftUI/ContentView.swift:22-27 | a drop moves exactly when the verdict is legal; then the destination's occupant is appended to its colour's capture list, the board becomes the move, the flag clears and the turn flips; otherwise only the castle flag may change; a plain move keeps the multiset of board pieces plus captured pieces |

## Left out

- The `UUID` identity of each piece is left out. No rule uses it; pieces are compared by colour and kind.
- SwiftUI `Image` values, `getImage` (Game.swift:123-129) and the `image` property's `Image` wrapper are left out. Only the image-name string is modelled.
- `ObservableObject` and `@Published` change notification are left out: they are framework plumbing with no effect on state.
- The rest of ContentView.swift is left out: the views, drag gestures and floating-point hit-testing of the drop location. The drop target arrives as an index parameter. ChessboardSwiftUIApp.swift is not part of this model.
- The commented-out self-check rejection (Game+Rules.swift:154-159) is not live code and is not modelled. En passant, promotion, checkmate and full castling rules are absent from the code and are not specified.
- Whose turn it is is enforced only by the view: `allowsHitTesting` with `pieceIsActiveColor` (ContentView.swift:110-116, 128) lets only the side to move be dragged. That view check is not modelled, so `AttemptMove` accepts a drop of either colour and never reads `colorToPlay`.
- The raw value of `EnableColor` and the failable initialiser `PieceType(rawValue:)` are left out: no code reads or calls them. Only `PieceType.rawValue` is read, as a sort key.
- Swift's 64-bit `Int` overflow is not modelled: every index and coordinate in the engine lies within 0..63.
- ChessGame.Game.IsLegalMoveFor: requires that a rook is not asked to move onto its own square unless a piece of its colour stands there. In that case the Swift range `c+1 ..< c` traps at run time.
- ChessGame.Game.AttemptMove: requires a piece at the source index, because the Swift code force-unwraps it. Its conservation clause covers plain moves only: a castle copies whatever stands on the rook's square and can overwrite a piece (see `Scenarios.LongCastleMovesKingsRook`).
- ChessGame.Game.IsKingInCheckForColor: requires the colour to have a king. Without one, the search returns (-1, -1) and the Swift code traps on `pieces[-1]` as soon as it meets an opposing piece (Game+Rules.swift:167, 184); only on a board with neither king nor opposing piece would it return false, and the model excludes that case too.
- ChessGame.Game.IsKingInCheckForColor: when the answer is yes, the contract does not state the castle flag. The flag then depends on which opposing piece the scan met first.
