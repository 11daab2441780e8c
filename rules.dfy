/** The move-legality rules as functions of the board: the geometry of rook and
    bishop lines, the squares strictly between two squares, the verdict for one
    piece moving between two squares, and check detection. */
module Rules {

  import opened Wrappers
  import opened BoardAndPieces
  import opened Chessboard

  function Abs(x: int): nat {
    if x < 0 then -x else x
  }

  /** |to.row - from.row| */
  function RowsMoved(from: Square, to: Square): nat {
    Abs(to.row - from.row)
  }

  /** |to.column - from.column| */
  function ColumnsMoved(from: Square, to: Square): nat {
    Abs(to.column - from.column)
  }

  /** The two squares share a row or a column. */
  function MoveIsRowOrColumn(from: Square, to: Square): (b: bool)
    ensures b <==> RowsMoved(from, to) == 0 || ColumnsMoved(from, to) == 0
  {
    to.row == from.row || to.column == from.column
  }

  /** As many rows as columns are crossed: the squares lie on one of the two diagonals
      through from, and a move both diagonal and along a row or column is the null move. */
  function MoveIsDiagonal(from: Square, to: Square): (b: bool)
    ensures b <==> to.row - from.row == to.column - from.column || to.row - from.row == from.column - to.column
    ensures b && MoveIsRowOrColumn(from, to) ==> from == to
  {
    RowsMoved(from, to) == ColumnsMoved(from, to)
  }

  /** A rook line or a bishop line. */
  predicate IsLine(from: Square, to: Square) {
    MoveIsRowOrColumn(from, to) || MoveIsDiagonal(from, to)
  }

  /** The number of single steps from one square to the other along a line. */
  function Distance(from: Square, to: Square): nat {
    if RowsMoved(from, to) < ColumnsMoved(from, to) then ColumnsMoved(from, to) else RowsMoved(from, to)
  }

  /** x moved k steps toward y (x itself when they are equal). */
  function Towards(x: int, y: int, k: int): int {
    if x < y then x + k else if y < x then x - k else x
  }

  /** The square k steps from `from` toward `to`. */
  function Walk(from: Square, to: Square, k: int): (s: Square)
    ensures OnBoard(from) && OnBoard(to) && IsLine(from, to) && 0 <= k <= Distance(from, to) ==> OnBoard(s)
  {
    Square(Towards(from.row, to.row, k), Towards(from.column, to.column, k))
  }

  /** The squares strictly between from and to that lie fewer than m steps from `from` are empty. */
  ghost predicate ClearBefore(b: Board, from: Square, to: Square, m: int)
    requires WellFormed(b) && OnBoard(from) && OnBoard(to) && IsLine(from, to)
  {
    forall k :: 0 < k < m && k < Distance(from, to) ==> At(b, Walk(from, to, k)) == None
  }

  /** Every square strictly between from and to on their line is empty. */
  ghost predicate PathClear(b: Board, from: Square, to: Square)
    requires WellFormed(b) && OnBoard(from) && OnBoard(to) && IsLine(from, to)
  {
    ClearBefore(b, from, to, Distance(from, to))
  }

  /** One more empty square along the walk extends the clear stretch by one step. */
  lemma ClearBeforeStep(b: Board, from: Square, to: Square, m: int)
    requires WellFormed(b) && OnBoard(from) && OnBoard(to) && IsLine(from, to)
    requires ClearBefore(b, from, to, m)
    requires 0 < m < Distance(from, to) ==> At(b, Walk(from, to, m)) == None
    ensures ClearBefore(b, from, to, m + 1)
  {
  }

  /** Walking down a diagonal: k steps add k to the row and move the column k toward the end. */
  lemma DiagonalWalk(top: Square, bottom: Square, k: int)
    requires MoveIsDiagonal(top, bottom) && top.row < bottom.row
    ensures Distance(top, bottom) == bottom.row - top.row
    ensures bottom.column > top.column ==> Walk(top, bottom, k) == Square(top.row + k, top.column + k)
    ensures bottom.column < top.column ==> Walk(top, bottom, k) == Square(top.row + k, top.column - k)
  {
  }

  /** Walking k steps from one end of a line reaches the square Distance - k steps from the other end. */
  lemma WalkReverse(x: Square, y: Square, k: int)
    requires IsLine(x, y) && 0 <= k <= Distance(x, y)
    ensures Distance(y, x) == Distance(x, y)
    ensures Walk(x, y, k) == Walk(y, x, Distance(x, y) - k)
  {
  }

  /** The squares strictly between two squares are the same whichever end one starts from. */
  lemma PathClearSymmetric(b: Board, x: Square, y: Square)
    requires WellFormed(b) && OnBoard(x) && OnBoard(y) && IsLine(x, y)
    ensures PathClear(b, x, y) <==> PathClear(b, y, x)
  {
    var n := Distance(x, y);
    WalkReverse(x, y, 0);
    if PathClear(b, x, y) {
      forall k | 0 < k < n ensures At(b, Walk(y, x, k)) == None {
        WalkReverse(y, x, k);
      }
    }
    if PathClear(b, y, x) {
      forall k | 0 < k < n ensures At(b, Walk(x, y, k)) == None {
        WalkReverse(x, y, k);
      }
    }
  }

  /** The destination holds a piece of the mover's colour. */
  predicate SameColourAt(b: Board, to: Square, piece: ChessPiece)
    requires WellFormed(b) && OnBoard(to)
  {
    At(b, to).Some? && At(b, to).value.isBlack == piece.isBlack
  }

  /** Forward for its colour (black down the rows, white up), by one row, or by
      at most two rows from the colour's pawn row. */
  predicate PawnAdvances(isBlack: bool, from: Square, to: Square) {
    || (isBlack && to.row > from.row && (if from.row == 1 then RowsMoved(from, to) < 3 else RowsMoved(from, to) == 1))
    || (!isBlack && to.row < from.row && (if from.row == 6 then RowsMoved(from, to) < 3 else RowsMoved(from, to) == 1))
  }

  /** The pawn rule as the program states it: an advance; no column change onto an
      empty square and never more than one column; a two-row advance needs the
      from-column clear up to the destination row. */
  ghost predicate PawnLegal(b: Board, piece: ChessPiece, from: Square, to: Square)
    requires WellFormed(b) && OnBoard(from) && OnBoard(to)
  {
    && PawnAdvances(piece.isBlack, from, to)
    && !((At(b, to).None? && to.column != from.column) || ColumnsMoved(from, to) > 1)
    && (RowsMoved(from, to) == 2 ==> PathClear(b, from, Square(to.row, from.column)))
  }

  predicate KnightJump(from: Square, to: Square) {
    (ColumnsMoved(from, to) == 2 && RowsMoved(from, to) == 1) || (RowsMoved(from, to) == 2 && ColumnsMoved(from, to) == 1)
  }

  /** The program's castling test: a sideways king move of more than one column
      from column 4, staying on row 0 or on row 7. */
  predicate CastleShape(from: Square, to: Square) {
    && from.column == 4
    && ColumnsMoved(from, to) > 1
    && RowsMoved(from, to) == 0
    && ((to.row == 0 && from.row == 0) || (to.row == 7 && from.row == 7))
  }

  /** The outcome of one legality evaluation. Blocked: the destination holds a piece of the
      mover's colour, and the evaluation stops before touching the pending-castle flag.
      Decided: the flag is reset to `castle` and the move is legal or not. */
  datatype Verdict = Blocked | Decided(legal: bool, castle: bool)

  predicate IsLegal(v: Verdict) {
    v.Decided? && v.legal
  }

  /** The verdict of the legality rules for `piece` moving from `from` to `to`. */
  ghost function Evaluate(b: Board, piece: ChessPiece, from: Square, to: Square): (v: Verdict)
    requires WellFormed(b) && OnBoard(from) && OnBoard(to)
    ensures v == Blocked <==> SameColourAt(b, to, piece)
    ensures v.Decided? && v.castle ==> v.legal && piece.pieceType == King && CastleShape(from, to)
  {
    if SameColourAt(b, to, piece) then Blocked
    else
      match piece.pieceType
      case Pawn => Decided(PawnLegal(b, piece, from, to), false)
      case Knight => Decided(KnightJump(from, to), false)
      case Bishop => Decided(MoveIsDiagonal(from, to) && PathClear(b, from, to), false)
      case Rook => Decided(MoveIsRowOrColumn(from, to) && PathClear(b, from, to), false)
      case Queen =>
        Decided((MoveIsDiagonal(from, to) && PathClear(b, from, to))
                || (MoveIsRowOrColumn(from, to) && PathClear(b, from, to)), false)
      case King =>
        if ColumnsMoved(from, to) < 2 && RowsMoved(from, to) < 2 then Decided(true, false)
        else Decided(CastleShape(from, to), CastleShape(from, to))
  }

  // ---------------------------------------------------------------------------
  // Check detection

  predicate IsKingOf(b: Board, isBlack: bool, r: int, c: int)
    requires WellFormed(b) && 0 <= r < 8 && 0 <= c < 8
  {
    b[r][c].Some? && b[r][c].value.pieceType == King && b[r][c].value.isBlack == isBlack
  }

  predicate HasKing(b: Board, isBlack: bool)
    requires WellFormed(b)
  {
    exists r, c :: 0 <= r < 8 && 0 <= c < 8 && IsKingOf(b, isBlack, r, c)
  }

  /** The first row at or after r in column c holding a king of the colour, or 8. */
  function FirstKingRow(b: Board, isBlack: bool, c: int, r: int): (first: int)
    requires WellFormed(b) && 0 <= c < 8 && 0 <= r <= 8
    ensures r <= first <= 8
    ensures first < 8 ==> IsKingOf(b, isBlack, first, c)
    ensures forall r' :: r <= r' < first ==> !IsKingOf(b, isBlack, r', c)
    decreases 8 - r
  {
    if r == 8 then 8
    else if IsKingOf(b, isBlack, r, c) then r
    else FirstKingRow(b, isBlack, c, r + 1)
  }

  /** Where the program's king search stands after scanning the first `columns` columns:
      it scans column by column and, in each column, stops at the first king of the
      colour, so it ends at the first such king of the last column that has one;
      (-1, -1) when none has. */
  function KingScan(b: Board, isBlack: bool, columns: int): (s: Square)
    requires WellFormed(b) && 0 <= columns <= 8
    ensures s == Square(-1, -1) ==> forall r, c :: 0 <= r < 8 && 0 <= c < columns ==> !IsKingOf(b, isBlack, r, c)
    ensures s != Square(-1, -1) ==>
              && OnBoard(s) && s.column < columns
              && IsKingOf(b, isBlack, s.row, s.column)
              && (forall r :: 0 <= r < s.row ==> !IsKingOf(b, isBlack, r, s.column))
              && (forall r, c :: 0 <= r < 8 && s.column < c < columns ==> !IsKingOf(b, isBlack, r, c))
  {
    if columns == 0 then Square(-1, -1)
    else
      var first := FirstKingRow(b, isBlack, columns - 1, 0);
      if first < 8 then Square(first, columns - 1) else KingScan(b, isBlack, columns - 1)
  }

  function KingSquare(b: Board, isBlack: bool): (s: Square)
    requires WellFormed(b)
    ensures HasKing(b, isBlack) ==> OnBoard(s) && IsKingOf(b, isBlack, s.row, s.column)
  {
    KingScan(b, isBlack, 8)
  }

  /** The piece on (r, c) is of the other colour and may legally move onto the king's square. */
  ghost predicate Attacks(b: Board, isBlack: bool, r: int, c: int)
    requires WellFormed(b) && HasKing(b, isBlack) && 0 <= r < 8 && 0 <= c < 8
  {
    && b[r][c].Some?
    && b[r][c].value.isBlack != isBlack
    && IsLegal(Evaluate(b, b[r][c].value, Square(r, c), KingSquare(b, isBlack)))
  }

  /** The king of the colour is in check: some piece of the other colour attacks its square. */
  ghost predicate InCheck(b: Board, isBlack: bool)
    requires WellFormed(b) && HasKing(b, isBlack)
  {
    exists r, c :: 0 <= r < 8 && 0 <= c < 8 && Attacks(b, isBlack, r, c)
  }

  predicate HasPieceOfColour(b: Board, isBlack: bool)
    requires WellFormed(b)
  {
    exists r, c :: 0 <= r < 8 && 0 <= c < 8 && b[r][c].Some? && b[r][c].value.isBlack == isBlack
  }
}
