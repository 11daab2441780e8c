/** The game object: the board matrix, the two capture lists, the pending-castle
    flag and whose turn it is, with the operations that update them in place
    and the legality checks that read them. */
module ChessGame {

  import opened Wrappers
  import opened BoardAndPieces
  import opened Chessboard
  import opened Rules

  /** The capture list entry a destination occupant adds for one colour. */
  function CaptureOf(dest: Option<ChessPiece>, black: bool): (added: seq<ChessPiece>)
    ensures |added| <= 1
    ensures added != [] <==> dest.Some? && dest.value.isBlack == black
  {
    if dest.Some? && dest.value.isBlack == black then [dest.value] else []
  }

  /** Every piece of the game, on the board or captured, with multiplicity. */
  function Material(b: Board, black: seq<ChessPiece>, white: seq<ChessPiece>): multiset<ChessPiece> {
    BoardPieces(b) + multiset(black) + multiset(white)
  }

  /** Recording the destination's occupant and then relocating the mover keeps every
      piece either on the board or in a capture list. */
  lemma CaptureConserves(b: Board, from: Square, to: Square, black: seq<ChessPiece>, white: seq<ChessPiece>)
    requires WellFormed(b) && OnBoard(from) && OnBoard(to) && from != to
    ensures Material(Relocate(b, from, to), black + CaptureOf(At(b, to), true), white + CaptureOf(At(b, to), false))
            == Material(b, black, white)
  {
    RelocatePieces(b, from, to);
    var dest := At(b, to);
    MultisetShuffle(BoardPieces(Relocate(b, from, to)), BoardPieces(b), black, white,
                    CaptureOf(dest, true), CaptureOf(dest, false), Occupant(dest));
  }

  lemma MultisetShuffle(p: multiset<ChessPiece>, q: multiset<ChessPiece>,
                        black: seq<ChessPiece>, white: seq<ChessPiece>,
                        cb: seq<ChessPiece>, cw: seq<ChessPiece>, o: multiset<ChessPiece>)
    requires p + o == q && multiset(cb) + multiset(cw) == o
    ensures p + multiset(black + cb) + multiset(white + cw) == q + multiset(black) + multiset(white)
  {
    assert multiset(black + cb) == multiset(black) + multiset(cb);
    assert multiset(white + cw) == multiset(white) + multiset(cw);
    forall z ensures (p + multiset(black + cb) + multiset(white + cw))[z] == (q + multiset(black) + multiset(white))[z] {
      assert (p + o)[z] == q[z];
      assert (multiset(cb) + multiset(cw))[z] == o[z];
    }
  }

  class Game {
    /** The matrix of squares, indexed [row][column]. */
    var pieces: Board
    var capturedBlackPieces: seq<ChessPiece>
    var capturedWhitePieces: seq<ChessPiece>
    /** Set by a legality check that accepted a castle, consumed by the next move. */
    var didCastle: bool
    /** Whose turn it is. */
    var colorToPlay: EnableColor

    ghost predicate Valid()
      reads this
    {
      WellFormed(pieces)
    }

    /** A new object starts a new game. */
    constructor ()
      ensures Valid()
      ensures pieces == InitialBoard()
      ensures capturedBlackPieces == [] && capturedWhitePieces == []
      ensures !didCastle && colorToPlay == ForWhite
    {
      pieces := [];
      capturedBlackPieces := [];
      capturedWhitePieces := [];
      didCastle := false;
      colorToPlay := ForWhite;
      new;
      NewGame();
    }

    /** Clears the board and both capture lists, resets the flag and the turn, then lays
        out the 32 starting pieces. The result does not depend on the previous state, so
        calling it twice leaves the same state as calling it once. */
    method NewGame()
      modifies this
      ensures Valid()
      ensures pieces == InitialBoard()
      ensures capturedBlackPieces == [] && capturedWhitePieces == []
      ensures !didCastle && colorToPlay == ForWhite
    {
      pieces := [];
      capturedWhitePieces := [];
      capturedBlackPieces := [];
      didCastle := false;
      colorToPlay := ForWhite;

      var i := 0;
      while i < 8
        invariant 0 <= i <= 8 && |pieces| == i
        invariant capturedBlackPieces == [] && capturedWhitePieces == []
        invariant !didCastle && colorToPlay == ForWhite
        invariant forall r :: 0 <= r < i ==> |pieces[r]| == 8
        invariant forall r, c :: 0 <= r < i && 0 <= c < 8 ==> pieces[r][c] == None
      {
        pieces := pieces + [seq(8, _ => None)];
        i := i + 1;
      }
      forall s | OnBoard(s) ensures At(pieces, s) == At(EmptyBoard(), s) {
        assert pieces[s.row][s.column] == None;
      }
      BoardsEqual(pieces, EmptyBoard());
      assert PlacedUpTo(pieces, 0);

      var pi := StartingPieces();
      var j := 0;
      while j < |pi|
        invariant 0 <= j <= |pi| == 32
        invariant capturedBlackPieces == [] && capturedWhitePieces == []
        invariant !didCastle && colorToPlay == ForWhite
        invariant WellFormed(pieces) && PlacedUpTo(pieces, j)
      {
        var p := pi[j];
        PlaceNext(pieces, j);
        var piece := ChessPiece(p.isBlack, p.pieceType);
        ghost var before := pieces;
        pieces := pieces[p.square.row := pieces[p.square.row][p.square.column := Some(piece)]];
        assert pieces == Put(before, p.square, Some(piece));
        j := j + 1;
      }
      BoardsEqual(pieces, InitialBoard());
    }

    /** Moves the occupant of the from-square onto the to-square and empties the
        from-square; with the castle flag set it also relocates the rook chosen by the
        king's landing column and clears the flag. The turn passes to the other side. */
    method MovePiece(fromIndex: int, toIndex: int)
      requires Valid() && 0 <= fromIndex < 64 && 0 <= toIndex < 64
      modifies this`pieces, this`didCastle, this`colorToPlay
      ensures Valid()
      ensures pieces == MoveOnBoard(old(pieces), SquareFromIndex(fromIndex), SquareFromIndex(toIndex), old(didCastle))
      ensures !didCastle
      ensures colorToPlay == NextTurn(old(colorToPlay))
    {
      var fromSquare := SquareFromIndex(fromIndex);
      var toSquare := SquareFromIndex(toIndex);

      pieces := pieces[toSquare.row := pieces[toSquare.row][toSquare.column := pieces[fromSquare.row][fromSquare.column]]];
      pieces := pieces[fromSquare.row := pieces[fromSquare.row][fromSquare.column := None]];
      if didCastle {
        var toSquarePosition := SquareFromIndex(toIndex);
        var rookSquare := CurrentRookSquare(toSquarePosition);
        var castleSquare := NewRookSquare(toSquarePosition);

        var rook := pieces[rookSquare.row][rookSquare.column];
        pieces := pieces[castleSquare.row := pieces[castleSquare.row][castleSquare.column := rook]];
        pieces := pieces[rookSquare.row := pieces[rookSquare.row][rookSquare.column := None]];
        didCastle := false;
      }
      colorToPlay := if colorToPlay == ForWhite then ForBlack else ForWhite;
    }

    /** Appends a captured piece to the list for its colour. */
    method AddCapturedPiece(piece: ChessPiece)
      modifies this`capturedBlackPieces, this`capturedWhitePieces
      ensures piece.isBlack ==> capturedBlackPieces == old(capturedBlackPieces) + [piece]
                                && capturedWhitePieces == old(capturedWhitePieces)
      ensures !piece.isBlack ==> capturedWhitePieces == old(capturedWhitePieces) + [piece]
                                 && capturedBlackPieces == old(capturedBlackPieces)
    {
      if piece.isBlack {
        capturedBlackPieces := capturedBlackPieces + [piece];
      } else {
        capturedWhitePieces := capturedWhitePieces + [piece];
      }
    }

    /** The occupant of the square with the given flat index. */
    function PieceForIndex(index: int): (p: Option<ChessPiece>)
      reads this
      requires Valid() && 0 <= index < 64
      ensures p == At(pieces, SquareFromIndex(index))
    {
      pieces[index / 8][index % 8]
    }

    /** Looking a square up by its flat index finds that square's occupant. */
    lemma PieceForSquareIndex(s: Square)
      requires Valid() && OnBoard(s)
      ensures PieceForIndex(SquareToIndex(s)) == At(pieces, s)
    {
      SquareRoundTrip(s);
    }

    /** Scans the squares strictly between from and to along their row when they share
        one, and otherwise along the from-column down (or up) to the destination row. */
    method IsRowOrColumnEmpty(from: Square, to: Square) returns (empty: bool)
      requires Valid() && OnBoard(from) && OnBoard(to) && from != to
      ensures from.row == to.row ==> (empty <==> PathClear(pieces, from, to))
      ensures from.row != to.row ==> (empty <==> PathClear(pieces, from, Square(to.row, from.column)))
    {
      if from.row == to.row {
        var fromColumn := (if to.column < from.column then to.column else from.column) + 1;
        var toColumn := if to.column < from.column then from.column else to.column;
        var c := fromColumn;
        while c < toColumn
          invariant fromColumn <= c <= toColumn
          invariant forall c' :: fromColumn <= c' < c ==> pieces[to.row][c'] == None
        {
          if pieces[to.row][c] != None {
            assert Walk(from, to, Abs(c - from.column)) == Square(to.row, c);
            return false;
          }
          c := c + 1;
        }
        forall k | 0 < k < Distance(from, to) ensures At(pieces, Walk(from, to, k)) == None {
          assert fromColumn <= Walk(from, to, k).column < toColumn;
        }
      } else {
        ghost var end := Square(to.row, from.column);
        var fromRow := (if to.row < from.row then to.row else from.row) + 1;
        var toRow := if to.row < from.row then from.row else to.row;
        var r := fromRow;
        while r < toRow
          invariant fromRow <= r <= toRow
          invariant forall r' :: fromRow <= r' < r ==> pieces[r'][from.column] == None
        {
          if pieces[r][from.column] != None {
            assert Walk(from, end, Abs(r - from.row)) == Square(r, from.column);
            return false;
          }
          r := r + 1;
        }
        forall k | 0 < k < Distance(from, end) ensures At(pieces, Walk(from, end, k)) == None {
          assert fromRow <= Walk(from, end, k).row < toRow;
        }
      }
      return true;
    }

    /** Scans the squares strictly between two squares on a diagonal, always walking
        from the endpoint with the smaller row toward the other. */
    method IsDiagonalEmpty(from: Square, to: Square) returns (empty: bool)
      requires Valid() && OnBoard(from) && OnBoard(to) && MoveIsDiagonal(from, to)
      ensures empty <==> PathClear(pieces, from, to)
    {
      var top, bottom;
      if from.row < to.row {
        top, bottom := from, to;
      } else {
        top, bottom := to, from;
      }
      PathClearSymmetric(pieces, from, to);
      if bottom.column > top.column + 1 {
        empty := DiagonalDownRightEmpty(top, bottom);
      } else {
        empty := DiagonalDownLeftEmpty(top, bottom);
      }
    }

    /** The down-to-the-right half of the diagonal scan: row and column both grow. */
    method DiagonalDownRightEmpty(top: Square, bottom: Square) returns (empty: bool)
      requires Valid() && OnBoard(top) && OnBoard(bottom) && MoveIsDiagonal(top, bottom)
      requires top.row < bottom.row && bottom.column > top.column + 1
      ensures empty <==> PathClear(pieces, top, bottom)
    {
      DiagonalWalk(top, bottom, 0);
      var r := top.row + 1;
      var c := top.column + 1;
      while c <= bottom.column - 1
        invariant top.column + 1 <= c <= bottom.column
        invariant r == top.row + (c - top.column)
        invariant ClearBefore(pieces, top, bottom, c - top.column)
      {
        DiagonalWalk(top, bottom, c - top.column);
        if pieces[r][c] != None {
          return false;
        }
        ClearBeforeStep(pieces, top, bottom, c - top.column);
        r := r + 1;
        c := c + 1;
      }
      return true;
    }

    /** The down-to-the-left half of the diagonal scan: the row grows while the column
        shrinks; it also answers for a one-step diagonal and for a null move. */
    method DiagonalDownLeftEmpty(top: Square, bottom: Square) returns (empty: bool)
      requires Valid() && OnBoard(top) && OnBoard(bottom) && MoveIsDiagonal(top, bottom)
      requires top.row <= bottom.row && bottom.column <= top.column + 1
      ensures empty <==> PathClear(pieces, top, bottom)
    {
      if top != bottom {
        DiagonalWalk(top, bottom, 0);
      }
      var r := top.row + 1;
      var c := top.column - 1;
      while c >= bottom.column + 1
        invariant c <= top.column - 1
        invariant bottom.column < top.column ==> bottom.column <= c
        invariant r == top.row + (top.column - c)
        invariant ClearBefore(pieces, top, bottom, top.column - c)
        decreases c
      {
        DiagonalWalk(top, bottom, top.column - c);
        if pieces[r][c] != None {
          return false;
        }
        ClearBeforeStep(pieces, top, bottom, top.column - c);
        c := c - 1;
        r := r + 1;
      }
      return true;
    }

    /** The legality check for `piece` moving between two squares. A destination holding
        a piece of the mover's colour rejects the move before the castle flag is touched;
        otherwise the flag is reset and set again only for an accepted castle. */
    method IsLegalMoveFor(piece: ChessPiece, from: Square, to: Square) returns (isLegal: bool)
      requires Valid() && OnBoard(from) && OnBoard(to)
      requires piece.pieceType == Rook && from == to ==> SameColourAt(pieces, to, piece)
      modifies this`didCastle
      ensures isLegal == IsLegal(Evaluate(pieces, piece, from, to))
      ensures Evaluate(pieces, piece, from, to).Blocked? ==> didCastle == old(didCastle)
      ensures Evaluate(pieces, piece, from, to).Decided? ==> didCastle == Evaluate(pieces, piece, from, to).castle
    {
      var destinationPiece := pieces[to.row][to.column];
      if destinationPiece != None && destinationPiece.value.isBlack == piece.isBlack {
        return false;
      }

      didCastle := false;
      isLegal := false;
      var numRowsMoved := Abs(to.row - from.row);
      var numColumnsMoved := Abs(to.column - from.column);

      match piece.pieceType {
        case Pawn =>
          if || (piece.isBlack && to.row > from.row && (if from.row == 1 then numRowsMoved < 3 else numRowsMoved == 1))
             || (!piece.isBlack && to.row < from.row && (if from.row == 6 then numRowsMoved < 3 else numRowsMoved == 1))
          {
            if (destinationPiece == None && to.column != from.column) || numColumnsMoved > 1 {
              return isLegal;
            }
            if numRowsMoved == 2 {
              var clear := IsRowOrColumnEmpty(from, to);
              if !clear {
                return isLegal;
              }
            }
            isLegal := true;
          }
        case Knight =>
          isLegal := (numColumnsMoved == 2 && numRowsMoved == 1) || (numRowsMoved == 2 && numColumnsMoved == 1);
        case Bishop =>
          if MoveIsDiagonal(from, to) {
            isLegal := IsDiagonalEmpty(from, to);
          }
        case Rook =>
          if MoveIsRowOrColumn(from, to) {
            isLegal := IsRowOrColumnEmpty(from, to);
          }
        case Queen =>
          if MoveIsDiagonal(from, to) {
            isLegal := IsDiagonalEmpty(from, to);
          }
          if !isLegal && MoveIsRowOrColumn(from, to) {
            isLegal := IsRowOrColumnEmpty(from, to);
          }
        case King =>
          isLegal := numColumnsMoved < 2 && numRowsMoved < 2;
          if !isLegal && from.column == 4 && numColumnsMoved > 1 && numRowsMoved == 0
             && ((to.row == 0 && from.row == 0) || (to.row == 7 && from.row == 7))
          {
            isLegal := true;
            didCastle := true;
          }
      }
    }

    /** The legality check with the squares given as flat indices. */
    method IsLegalMoveForIndices(piece: ChessPiece, fromIndex: int, toIndex: int) returns (isLegal: bool)
      requires Valid() && 0 <= fromIndex < 64 && 0 <= toIndex < 64
      requires piece.pieceType == Rook && fromIndex == toIndex ==> SameColourAt(pieces, SquareFromIndex(toIndex), piece)
      modifies this`didCastle
      ensures var v := Evaluate(pieces, piece, SquareFromIndex(fromIndex), SquareFromIndex(toIndex));
              && isLegal == IsLegal(v)
              && (v.Blocked? ==> didCastle == old(didCastle))
              && (v.Decided? ==> didCastle == v.castle)
    {
      var fromSquarePosition := SquareFromIndex(fromIndex);
      var toSquarePosition := SquareFromIndex(toIndex);
      isLegal := IsLegalMoveFor(piece, fromSquarePosition, toSquarePosition);
    }

    /** No piece of the given colour stands on the squares scanned so far: every square
        of the columns before c, and the rows before r of column c. */
    ghost predicate NoneScanned(isBlack: bool, c: int, r: int)
      reads this
      requires Valid()
    {
      forall r', c' :: 0 <= r' < 8 && 0 <= c' < 8 && (c' < c || (c' == c && r' < r)) ==>
        !(pieces[r'][c'].Some? && pieces[r'][c'].value.isBlack == isBlack)
    }

    /** No piece on the squares scanned so far attacks the king of the colour. */
    ghost predicate NoAttackScanned(isBlack: bool, c: int, r: int)
      reads this
      requires Valid() && HasKing(pieces, isBlack)
    {
      forall r', c' :: 0 <= r' < 8 && 0 <= c' < 8 && (c' < c || (c' == c && r' < r)) ==>
        !Attacks(pieces, isBlack, r', c')
    }

    /** A piece of the other colour always gets past the same-colour test on the king's
        square, attacks exactly when its move there is legal, and raises the castle flag
        only when it is. */
    lemma OpponentVerdict(isBlack: bool, r: int, c: int)
      requires Valid() && HasKing(pieces, isBlack) && 0 <= r < 8 && 0 <= c < 8
      requires pieces[r][c].Some? && pieces[r][c].value.isBlack != isBlack
      ensures var v := Evaluate(pieces, pieces[r][c].value, Square(r, c), KingSquare(pieces, isBlack));
              && v.Decided?
              && (Attacks(pieces, isBlack, r, c) <==> v.legal)
              && (v.castle ==> v.legal)
    {
    }

    /** Scanning one more square keeps "no attacker so far" exactly when that square holds no attacker. */
    lemma NoAttackStep(isBlack: bool, c: int, r: int)
      requires Valid() && HasKing(pieces, isBlack) && 0 <= c < 8 && 0 <= r < 8
      ensures NoAttackScanned(isBlack, c, r + 1) <==> NoAttackScanned(isBlack, c, r) && !Attacks(pieces, isBlack, r, c)
      ensures NoAttackScanned(isBlack, c, 8) <==> NoAttackScanned(isBlack, c + 1, 0)
    {
    }

    /** Scanning one more square keeps "no piece of the colour so far" exactly when that square holds none. */
    lemma NoneStep(isBlack: bool, c: int, r: int)
      requires Valid() && 0 <= c < 8 && 0 <= r < 8
      ensures NoneScanned(isBlack, c, r + 1)
              <==> NoneScanned(isBlack, c, r) && !(pieces[r][c].Some? && pieces[r][c].value.isBlack == isBlack)
      ensures NoneScanned(isBlack, c, 8) <==> NoneScanned(isBlack, c + 1, 0)
    {
    }

    /** The first half of the check test: scans column by column for the king of the
        colour; the `break` leaves only the row loop, so the search ends on the last
        column that holds such a king, or on (-1, -1) when there is none. */
    method FindKingsSquare(isBlack: bool) returns (kingsSquare: Square)
      requires Valid()
      ensures kingsSquare == KingSquare(pieces, isBlack)
    {
      kingsSquare := Square(-1, -1);

      var c := 0;
      while c < 8
        invariant 0 <= c <= 8
        invariant kingsSquare == KingScan(pieces, isBlack, c)
      {
        var r := 0;
        while r < 8
          invariant 0 <= r <= 8
          invariant kingsSquare == KingScan(pieces, isBlack, c)
          invariant FirstKingRow(pieces, isBlack, c, 0) == FirstKingRow(pieces, isBlack, c, r)
        {
          if pieces[r][c] != None && pieces[r][c].value.pieceType == King && pieces[r][c].value.isBlack == isBlack {
            kingsSquare := Square(r, c);
            assert kingsSquare == KingScan(pieces, isBlack, c + 1);
            break;
          }
          r := r + 1;
        }
        assert kingsSquare == KingScan(pieces, isBlack, c + 1);
        c := c + 1;
      }
    }

    /** Finds the king of the colour, then asks of every piece of the other colour
        whether it may move onto the king's square. */
    method IsKingInCheckForColor(isBlack: bool) returns (inCheck: bool)
      requires Valid() && HasKing(pieces, isBlack)
      modifies this`didCastle
      ensures inCheck == InCheck(pieces, isBlack)
      ensures !inCheck ==> didCastle == (old(didCastle) && !HasPieceOfColour(pieces, !isBlack))
    {
      var kingsSquare := FindKingsSquare(isBlack);

      var c := 0;

      while c < 8
        invariant 0 <= c <= 8
        invariant NoAttackScanned(isBlack, c, 0)
        invariant didCastle == (old(didCastle) && NoneScanned(!isBlack, c, 0))
      {
        var r := 0;
        while r < 8
          invariant 0 <= r <= 8
          invariant NoAttackScanned(isBlack, c, r)
          invariant didCastle == (old(didCastle) && NoneScanned(!isBlack, c, r))
        {
          NoAttackStep(isBlack, c, r);
          NoneStep(!isBlack, c, r);
          if pieces[r][c] != None && pieces[r][c].value.isBlack != isBlack {
            OpponentVerdict(isBlack, r, c);
            var pieceSquare := Square(r, c);
            var legal := IsLegalMoveFor(pieces[r][c].value, pieceSquare, kingsSquare);
            if legal {
              return true;
            }
          }
          r := r + 1;
        }
        NoAttackStep(isBlack, c, 0);
        NoneStep(!isBlack, c, 0);
        c := c + 1;
      }
      return false;
    }

    /** What happens when a piece is dropped on a square: if the move is legal, the
        destination's occupant (if any) is recorded as captured and the move is made;
        otherwise nothing but the castle flag changes. */
    method AttemptMove(fromIndex: int, toIndex: int) returns (moved: bool)
      requires Valid() && 0 <= fromIndex < 64 && 0 <= toIndex < 64
      requires PieceForIndex(fromIndex).Some?
      modifies this
      ensures Valid()
      ensures var from := SquareFromIndex(fromIndex);
              var to := SquareFromIndex(toIndex);
              var v := Evaluate(old(pieces), old(At(pieces, from)).value, from, to);
              var dest := old(At(pieces, to));
              && moved == IsLegal(v)
              && (moved ==>
                    && pieces == MoveOnBoard(old(pieces), from, to, v.castle)
                    && capturedBlackPieces == old(capturedBlackPieces) + CaptureOf(dest, true)
                    && capturedWhitePieces == old(capturedWhitePieces) + CaptureOf(dest, false)
                    && !didCastle
                    && colorToPlay == NextTurn(old(colorToPlay)))
              && (!moved ==>
                    && pieces == old(pieces)
                    && capturedBlackPieces == old(capturedBlackPieces)
                    && capturedWhitePieces == old(capturedWhitePieces)
                    && didCastle == (v.Blocked? && old(didCastle))
                    && colorToPlay == old(colorToPlay))
      ensures var from := SquareFromIndex(fromIndex);
              var to := SquareFromIndex(toIndex);
              var v := Evaluate(old(pieces), old(At(pieces, from)).value, from, to);
              moved && !v.castle ==>
                Material(pieces, capturedBlackPieces, capturedWhitePieces)
                == old(Material(pieces, capturedBlackPieces, capturedWhitePieces))
    {
      ghost var from := SquareFromIndex(fromIndex);
      ghost var to := SquareFromIndex(toIndex);
      ghost var board := pieces;
      ghost var black, white := capturedBlackPieces, capturedWhitePieces;
      ghost var dest := At(pieces, to);

      var fromPiece := PieceForIndex(fromIndex).value;
      ghost var v := Evaluate(board, fromPiece, from, to);
      var legal := IsLegalMoveForIndices(fromPiece, fromIndex, toIndex);
      if legal {
        var toPiece := PieceForIndex(toIndex);
        if toPiece != None {
          AddCapturedPiece(toPiece.value);
        }
        assert capturedBlackPieces == black + CaptureOf(dest, true);
        assert capturedWhitePieces == white + CaptureOf(dest, false);
        assert didCastle == v.castle;
        MovePiece(fromIndex, toIndex);
        assert pieces == MoveOnBoard(board, from, to, v.castle);
        if !v.castle {
          assert pieces == Relocate(board, from, to);
          CaptureConserves(board, from, to, black, white);
        }
      } else {
        assert pieces == board && didCastle == (v.Blocked? && old(didCastle));
      }
      moved := legal;
    }
  }
}
