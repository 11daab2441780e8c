/** Positions from the start of a game, worked through the rules. */
module Scenarios {

  import opened Wrappers
  import opened BoardAndPieces
  import opened Chessboard
  import opened Rules
  import opened RuleProperties

  /** A piece six or more rows from its destination cannot reach it unless it is a rook
      or queen on the same column, or a bishop or queen that also changes six columns. */
  lemma FarPieceCannotReach(b: Board, piece: ChessPiece, from: Square, to: Square)
    requires WellFormed(b) && OnBoard(from) && OnBoard(to) && RowsMoved(from, to) >= 6
    requires piece.pieceType == Rook || piece.pieceType == Queen ==> from.column != to.column
    requires piece.pieceType == Bishop || piece.pieceType == Queen ==> ColumnsMoved(from, to) < 6
    ensures !IsLegal(Evaluate(b, piece, from, to))
  {
  }

  /** Each colour's king search on the starting board ends on column 4 of its back rank. */
  lemma StartKingSquare(isBlack: bool)
    ensures HasKing(InitialBoard(), isBlack)
    ensures KingSquare(InitialBoard(), isBlack) == Square(if isBlack then 0 else 7, 4)
  {
    var b := InitialBoard();
    var k := Square(if isBlack then 0 else 7, 4);
    forall r, c | 0 <= r < 8 && 0 <= c < 8 && IsKingOf(b, isBlack, r, c) ensures Square(r, c) == k {
      InitialKings(Square(r, c), isBlack);
    }
    assert IsKingOf(b, isBlack, k.row, k.column) by {
      InitialKings(k, isBlack);
    }
    KingSquareOfOnlyKing(b, isBlack, k);
  }

  /** No piece of the starting position can move onto the square of the other colour's king. */
  lemma StartNoAttacker(isBlack: bool, r: int, c: int)
    requires 0 <= r < 8 && 0 <= c < 8
    ensures var b := InitialBoard();
            var x := At(b, Square(r, c));
            x.Some? && x.value.isBlack != isBlack ==>
              !IsLegal(Evaluate(b, x.value, Square(r, c), Square(if isBlack then 0 else 7, 4)))
  {
    var x := InitialAt(Square(r, c));
    if x.Some? && x.value.isBlack != isBlack {
      FarPieceCannotReach(InitialBoard(), x.value, Square(r, c), Square(if isBlack then 0 else 7, 4));
    }
  }

  /** In the starting position neither king is attacked. */
  lemma StartNotInCheck(isBlack: bool)
    ensures HasKing(InitialBoard(), isBlack)
    ensures !InCheck(InitialBoard(), isBlack)
  {
    var b := InitialBoard();
    StartKingSquare(isBlack);
    forall r, c | 0 <= r < 8 && 0 <= c < 8 ensures !Attacks(b, isBlack, r, c) {
      StartNoAttacker(isBlack, r, c);
    }
  }

  /** At the start the king's pawn may advance two rows but not three. */
  lemma KingsPawnOpens()
    ensures IsLegal(Evaluate(InitialBoard(), ChessPiece(false, Pawn), Square(6, 4), Square(4, 4)))
    ensures !IsLegal(Evaluate(InitialBoard(), ChessPiece(false, Pawn), Square(6, 4), Square(3, 4)))
  {
    PawnRule(InitialBoard(), ChessPiece(false, Pawn), Square(6, 4), Square(4, 4));
  }

  /** At the start a knight may jump over the pawns, while the bishop is shut in by its own pawn. */
  lemma StartingMinorPieces()
    ensures IsLegal(Evaluate(InitialBoard(), ChessPiece(false, Knight), Square(7, 6), Square(5, 5)))
    ensures !IsLegal(Evaluate(InitialBoard(), ChessPiece(false, Bishop), Square(7, 5), Square(5, 3)))
  {
    var b := InitialBoard();
    BishopRule(b, ChessPiece(false, Bishop), Square(7, 5), Square(5, 3));
    assert Between(Square(7, 5), Square(5, 3), Square(6, 4)) && At(b, Square(6, 4)).Some?;
  }

  /** Once the king's pawn has advanced the bishop behind it may leave, and black may
      answer with its queen's pawn. */
  lemma AfterKingsPawn()
    ensures var b := MoveOnBoard(InitialBoard(), Square(6, 4), Square(4, 4), false);
            && IsLegal(Evaluate(b, ChessPiece(false, Bishop), Square(7, 5), Square(5, 3)))
            && IsLegal(Evaluate(b, ChessPiece(true, Pawn), Square(1, 3), Square(3, 3)))
  {
    var b0 := InitialBoard();
    var b := MoveOnBoard(b0, Square(6, 4), Square(4, 4), false);
    PlainMove(b0, Square(6, 4), Square(4, 4));
    BishopRule(b, ChessPiece(false, Bishop), Square(7, 5), Square(5, 3));
    forall s | OnBoard(s) && Between(Square(7, 5), Square(5, 3), s) ensures At(b, s) == None {
      assert s == Square(6, 4);
    }
    PawnRule(b, ChessPiece(true, Pawn), Square(1, 3), Square(3, 3));
  }

  /** Castling is judged by the king's squares alone: with the knight gone from its
      starting square the white king may castle short although its bishop still stands
      in between, and the move carries the rook over the king to the bishop's square. */
  lemma CastlingPastBishop()
    ensures var b := Put(InitialBoard(), Square(7, 6), None);
            && Evaluate(b, ChessPiece(false, King), Square(7, 4), Square(7, 6)) == Decided(true, true)
            && var b' := MoveOnBoard(b, Square(7, 4), Square(7, 6), true);
               && At(b', Square(7, 6)) == Some(ChessPiece(false, King))
               && At(b', Square(7, 5)) == Some(ChessPiece(false, Rook))
               && At(b', Square(7, 4)) == None
               && At(b', Square(7, 7)) == None
  {
    var b := Put(InitialBoard(), Square(7, 6), None);
    CastlingMove(b, Square(7, 4), Square(7, 6));
  }

  /** A long castle onto column 2 takes the rook from column 7, not column 0: the rook
      lands on column 5 over the bishop, which leaves the board, and the rook on
      column 0 stays where it was. */
  lemma LongCastleMovesKingsRook()
    ensures var b := Put(InitialBoard(), Square(7, 2), None);
            && Evaluate(b, ChessPiece(false, King), Square(7, 4), Square(7, 2)) == Decided(true, true)
            && var b' := MoveOnBoard(b, Square(7, 4), Square(7, 2), true);
               && At(b', Square(7, 2)) == Some(ChessPiece(false, King))
               && At(b', Square(7, 5)) == Some(ChessPiece(false, Rook))
               && At(b', Square(7, 7)) == None
               && At(b', Square(7, 0)) == Some(ChessPiece(false, Rook))
  {
    var b := Put(InitialBoard(), Square(7, 2), None);
    CastlingMove(b, Square(7, 4), Square(7, 2));
  }

  /** A king moved onto its own rook's corner is a castle, and the rook step then carries
      the king on to column 5: the corner ends empty, so a black piece standing there
      leaves the board. */
  lemma CastleOntoRookSquare()
    ensures var b := Put(InitialBoard(), Square(7, 7), Some(ChessPiece(true, Rook)));
            && Evaluate(b, ChessPiece(false, King), Square(7, 4), Square(7, 7)) == Decided(true, true)
            && var b' := MoveOnBoard(b, Square(7, 4), Square(7, 7), true);
               && At(b', Square(7, 5)) == Some(ChessPiece(false, King))
               && At(b', Square(7, 7)) == None
               && At(b', Square(7, 4)) == None
  {
    var b := Put(InitialBoard(), Square(7, 7), Some(ChessPiece(true, Rook)));
    CastlingMove(b, Square(7, 4), Square(7, 7));
  }
}
