/** Properties of the legality rules: a geometric description of the squares
    between two squares, the rule of each kind restated on that description,
    what the verdict does and does not depend on, and check detection. */
module RuleProperties {

  import opened Wrappers
  import opened BoardAndPieces
  import opened Chessboard
  import opened Rules

  function Min(x: int, y: int): int { if x < y then x else y }
  function Max(x: int, y: int): int { if x < y then y else x }

  /** s lies strictly between from and to: inside their bounding box, on the straight
      line through both (equal cross products), and equal to neither. */
  predicate Between(from: Square, to: Square, s: Square) {
    && s != from && s != to
    && Min(from.row, to.row) <= s.row <= Max(from.row, to.row)
    && Min(from.column, to.column) <= s.column <= Max(from.column, to.column)
    && (s.row - from.row) * (to.column - from.column) == (s.column - from.column) * (to.row - from.row)
  }

  /** No square strictly between from and to holds a piece. */
  ghost predicate NoBlocker(b: Board, from: Square, to: Square)
    requires WellFormed(b)
  {
    forall s :: OnBoard(s) && Between(from, to, s) ==> At(b, s) == None
  }

  lemma MulCancel(x: int, y: int, n: int)
    requires n > 0 && x * n == y * n
    ensures x == y
  {
  }

  /** Each step of a walk along a line lands strictly between its ends. */
  lemma WalkIsBetween(from: Square, to: Square, k: int)
    requires IsLine(from, to) && 0 < k < Distance(from, to)
    ensures Between(from, to, Walk(from, to, k))
  {
    var s := Walk(from, to, k);
    var dr, dc := to.row - from.row, to.column - from.column;
    if dr != 0 && dc != 0 {
      assert (s.row - from.row) * dc == (s.column - from.column) * dr by {
        if dr > 0 && dc > 0 {
          assert s.row - from.row == k && s.column - from.column == k && dr == dc;
        } else if dr > 0 && dc < 0 {
          assert s.row - from.row == k && s.column - from.column == -k && dr == -dc;
        } else if dr < 0 && dc > 0 {
          assert s.row - from.row == -k && s.column - from.column == k && dr == -dc;
        } else {
          assert s.row - from.row == -k && s.column - from.column == -k && dr == dc;
        }
      }
    }
  }

  /** Every square strictly between the ends of a line is reached by some step of the walk. */
  lemma BetweenIsWalk(from: Square, to: Square, s: Square) returns (k: int)
    requires IsLine(from, to) && Between(from, to, s)
    ensures 0 < k < Distance(from, to) && Walk(from, to, k) == s
  {
    var dr, dc := to.row - from.row, to.column - from.column;
    var sr, sc := s.row - from.row, s.column - from.column;
    if dr == 0 {
      k := Abs(sc);
    } else if dc == 0 {
      k := Abs(sr);
    } else {
      assert Abs(dr) == Abs(dc);
      var n := Abs(dr);
      var signR := if dr > 0 then 1 else -1;
      var signC := if dc > 0 then 1 else -1;
      assert dr == signR * n && dc == signC * n;
      assert (sr * signC) * n == (sc * signR) * n by {
        assert sr * dc == sc * dr;
        assert sr * (signC * n) == sc * (signR * n);
      }
      MulCancel(sr * signC, sc * signR, n);
      k := Abs(sr);
    }
  }

  /** The walk-based statement of a clear path agrees with the geometric one. */
  lemma PathClearIffNoBlocker(b: Board, from: Square, to: Square)
    requires WellFormed(b) && OnBoard(from) && OnBoard(to) && IsLine(from, to)
    ensures PathClear(b, from, to) <==> NoBlocker(b, from, to)
  {
    if PathClear(b, from, to) {
      forall s | OnBoard(s) && Between(from, to, s) ensures At(b, s) == None {
        var k := BetweenIsWalk(from, to, s);
      }
    }
    if NoBlocker(b, from, to) {
      forall k | 0 < k < Distance(from, to) ensures At(b, Walk(from, to, k)) == None {
        WalkIsBetween(from, to, k);
      }
    }
  }

  // ---------------------------------------------------------------------------
  // The rule of each kind

  /** A piece dropped back on its own square meets itself there, so the move is rejected. */
  lemma NullMoveBlocked(b: Board, piece: ChessPiece, s: Square)
    requires WellFormed(b) && OnBoard(s) && At(b, s) == Some(piece)
    ensures Evaluate(b, piece, s, s) == Blocked
    ensures !IsLegal(Evaluate(b, piece, s, s))
  {
  }

  /** A pawn moves forward (black to higher rows, white to lower), one row or two
      rows from its pawn row; it changes column by at most one and only onto an occupied
      square (which then holds an opposing piece); a straight move onto an opposing
      piece is accepted; a two-row move needs the square it passes over to be empty. */
  lemma PawnRule(b: Board, piece: ChessPiece, from: Square, to: Square)
    requires WellFormed(b) && OnBoard(from) && OnBoard(to) && piece.pieceType == Pawn
    requires !SameColourAt(b, to, piece)
    ensures Evaluate(b, piece, from, to).Decided? && !Evaluate(b, piece, from, to).castle
    ensures IsLegal(Evaluate(b, piece, from, to)) <==>
              var forward := if piece.isBlack then to.row - from.row else from.row - to.row;
              var home := if piece.isBlack then 1 else 6;
              && (forward == 1 || (forward == 2 && from.row == home))
              && ColumnsMoved(from, to) <= 1
              && (to.column != from.column ==> At(b, to).Some? && At(b, to).value.isBlack != piece.isBlack)
              && (forward == 2 ==> At(b, Square(from.row + (if piece.isBlack then 1 else -1), from.column)) == None)
  {
    var end := Square(to.row, from.column);
    if RowsMoved(from, to) == 2 {
      assert Distance(from, end) == 2;
      assert Walk(from, end, 1) == Square(from.row + (if to.row > from.row then 1 else -1), from.column);
    }
  }

  /** A knight move is legal exactly when it jumps two columns and one row or two rows and one column. */
  lemma KnightRule(b: Board, piece: ChessPiece, from: Square, to: Square)
    requires WellFormed(b) && OnBoard(from) && OnBoard(to) && piece.pieceType == Knight
    ensures IsLegal(Evaluate(b, piece, from, to)) <==>
              !SameColourAt(b, to, piece)
              && ((ColumnsMoved(from, to), RowsMoved(from, to)) == (2, 1)
                  || (ColumnsMoved(from, to), RowsMoved(from, to)) == (1, 2))
  {
  }

  /** A knight's verdict depends on no square but its destination. */
  lemma KnightIgnoresOtherSquares(b1: Board, b2: Board, piece: ChessPiece, from: Square, to: Square)
    requires WellFormed(b1) && WellFormed(b2) && OnBoard(from) && OnBoard(to) && piece.pieceType == Knight
    requires At(b1, to) == At(b2, to)
    ensures Evaluate(b1, piece, from, to) == Evaluate(b2, piece, from, to)
  {
  }

  /** A rook move is legal exactly when it stays on a row or a column, no square
      strictly between holds a piece, and the destination has no piece of the rook's colour. */
  lemma RookRule(b: Board, piece: ChessPiece, from: Square, to: Square)
    requires WellFormed(b) && OnBoard(from) && OnBoard(to) && piece.pieceType == Rook
    ensures IsLegal(Evaluate(b, piece, from, to)) <==>
              !SameColourAt(b, to, piece) && MoveIsRowOrColumn(from, to) && NoBlocker(b, from, to)
  {
    if MoveIsRowOrColumn(from, to) {
      PathClearIffNoBlocker(b, from, to);
    }
  }

  /** A bishop move is legal exactly when it changes as many rows as columns, no square
      strictly between holds a piece, and the destination has no piece of its colour. */
  lemma BishopRule(b: Board, piece: ChessPiece, from: Square, to: Square)
    requires WellFormed(b) && OnBoard(from) && OnBoard(to) && piece.pieceType == Bishop
    ensures IsLegal(Evaluate(b, piece, from, to)) <==>
              !SameColourAt(b, to, piece) && RowsMoved(from, to) == ColumnsMoved(from, to) && NoBlocker(b, from, to)
  {
    if MoveIsDiagonal(from, to) {
      PathClearIffNoBlocker(b, from, to);
    }
  }

  /** A queen move is legal exactly when the rook rule or the bishop rule accepts it. */
  lemma QueenRule(b: Board, piece: ChessPiece, from: Square, to: Square)
    requires WellFormed(b) && OnBoard(from) && OnBoard(to) && piece.pieceType == Queen
    ensures IsLegal(Evaluate(b, piece, from, to)) <==>
              IsLegal(Evaluate(b, piece.(pieceType := Rook), from, to))
              || IsLegal(Evaluate(b, piece.(pieceType := Bishop), from, to))
  {
  }

  predicate Slides(t: PieceType) {
    t == Rook || t == Bishop || t == Queen
  }

  /** Putting any piece on a square strictly between the ends makes a rook, bishop or
      queen move illegal. */
  lemma BlockerMakesIllegal(b: Board, piece: ChessPiece, from: Square, to: Square, s: Square, p: ChessPiece)
    requires WellFormed(b) && OnBoard(from) && OnBoard(to) && OnBoard(s) && Slides(piece.pieceType)
    requires Between(from, to, s)
    ensures !IsLegal(Evaluate(Put(b, s, Some(p)), piece, from, to))
  {
    var b' := Put(b, s, Some(p));
    if IsLine(from, to) {
      PathClearIffNoBlocker(b', from, to);
    }
  }

  /** The verdict on a rook, bishop or queen move depends only on the destination and
      the squares strictly between, so a blocker elsewhere changes nothing. */
  lemma SlidingDependsOnlyOnPath(b1: Board, b2: Board, piece: ChessPiece, from: Square, to: Square)
    requires WellFormed(b1) && WellFormed(b2) && OnBoard(from) && OnBoard(to) && Slides(piece.pieceType)
    requires At(b1, to) == At(b2, to)
    requires forall s :: OnBoard(s) && Between(from, to, s) ==> At(b1, s) == At(b2, s)
    ensures Evaluate(b1, piece, from, to) == Evaluate(b2, piece, from, to)
  {
    if IsLine(from, to) {
      PathClearIffNoBlocker(b1, from, to);
      PathClearIffNoBlocker(b2, from, to);
    }
  }

  /** A king move is legal when it changes at most one row and one column; beyond that
      it is legal, and raises the castle flag, exactly for the program's castle shape. */
  lemma KingRule(b: Board, piece: ChessPiece, from: Square, to: Square)
    requires WellFormed(b) && OnBoard(from) && OnBoard(to) && piece.pieceType == King
    requires !SameColourAt(b, to, piece)
    ensures var step := RowsMoved(from, to) <= 1 && ColumnsMoved(from, to) <= 1;
            && (IsLegal(Evaluate(b, piece, from, to)) <==> step || CastleShape(from, to))
            && (Evaluate(b, piece, from, to).castle <==> !step && CastleShape(from, to))
  {
  }

  // ---------------------------------------------------------------------------
  // Check detection

  /** With one king of the colour on the board, the search finds that king's square. */
  lemma KingSquareOfOnlyKing(b: Board, isBlack: bool, s: Square)
    requires WellFormed(b) && OnBoard(s) && IsKingOf(b, isBlack, s.row, s.column)
    requires forall r, c :: 0 <= r < 8 && 0 <= c < 8 && IsKingOf(b, isBlack, r, c) ==> Square(r, c) == s
    ensures KingSquare(b, isBlack) == s
  {
    var k := KingSquare(b, isBlack);
    assert HasKing(b, isBlack);
    assert IsKingOf(b, isBlack, k.row, k.column);
  }
}
