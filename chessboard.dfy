/** The board model: an 8 x 8 matrix of optional pieces indexed [row][column],
    the standard starting position, the relocation a move performs and the
    turn flip that follows it. */
module Chessboard {

  import opened Wrappers
  import opened BoardAndPieces

  type Board = seq<seq<Option<ChessPiece>>>

  /** Eight rows of eight squares. */
  predicate WellFormed(b: Board) {
    |b| == 8 && forall r :: 0 <= r < 8 ==> |b[r]| == 8
  }

  function At(b: Board, s: Square): Option<ChessPiece>
    requires WellFormed(b) && OnBoard(s)
  {
    b[s.row][s.column]
  }

  /** The board with square s set to x; every other square keeps its occupant. */
  function Put(b: Board, s: Square, x: Option<ChessPiece>): (b': Board)
    requires WellFormed(b) && OnBoard(s)
    ensures WellFormed(b')
    ensures At(b', s) == x
    ensures forall t :: OnBoard(t) && t != s ==> At(b', t) == At(b, t)
  {
    b[s.row := b[s.row][s.column := x]]
  }

  function EmptyBoard(): (b: Board)
    ensures WellFormed(b)
    ensures forall s :: OnBoard(s) ==> At(b, s) == None
  {
    seq(8, _ => seq(8, _ => None))
  }

  /** Two boards with the same occupant on every square are the same board. */
  lemma BoardsEqual(b1: Board, b2: Board)
    requires WellFormed(b1) && WellFormed(b2)
    requires forall s :: OnBoard(s) ==> At(b1, s) == At(b2, s)
    ensures b1 == b2
  {
    forall r | 0 <= r < 8 ensures b1[r] == b2[r] {
      forall c | 0 <= c < 8 ensures b1[r][c] == b2[r][c] {
        assert At(b1, Square(r, c)) == At(b2, Square(r, c));
      }
    }
  }

  // ---------------------------------------------------------------------------
  // Starting position

  /** One entry of the table of starting pieces that a new game lays out. */
  datatype PieceInfo = PieceInfo(square: Square, isBlack: bool, pieceType: PieceType)

  /** The 32 starting pieces in the order the program lists them. */
  function StartingPieces(): (pi: seq<PieceInfo>)
    ensures |pi| == 32
    ensures forall j :: 0 <= j < |pi| ==> OnBoard(pi[j].square)
    ensures forall j :: 0 <= j < |pi| ==> (pi[j].isBlack <==> pi[j].square.row < 2)
  {
    [
      PieceInfo(Square(0, 0), true, Rook),
      PieceInfo(Square(0, 1), true, Knight),
      PieceInfo(Square(0, 2), true, Bishop),
      PieceInfo(Square(0, 3), true, Queen),
      PieceInfo(Square(0, 4), true, King),
      PieceInfo(Square(0, 5), true, Bishop),
      PieceInfo(Square(0, 6), true, Knight),
      PieceInfo(Square(0, 7), true, Rook),

      PieceInfo(Square(1, 0), true, Pawn),
      PieceInfo(Square(1, 1), true, Pawn),
      PieceInfo(Square(1, 2), true, Pawn),
      PieceInfo(Square(1, 3), true, Pawn),
      PieceInfo(Square(1, 4), true, Pawn),
      PieceInfo(Square(1, 5), true, Pawn),
      PieceInfo(Square(1, 6), true, Pawn),
      PieceInfo(Square(1, 7), true, Pawn),

      PieceInfo(Square(6, 0), false, Pawn),
      PieceInfo(Square(6, 1), false, Pawn),
      PieceInfo(Square(6, 2), false, Pawn),
      PieceInfo(Square(6, 3), false, Pawn),
      PieceInfo(Square(6, 4), false, Pawn),
      PieceInfo(Square(6, 5), false, Pawn),
      PieceInfo(Square(6, 6), false, Pawn),
      PieceInfo(Square(6, 7), false, Pawn),

      PieceInfo(Square(7, 0), false, Rook),
      PieceInfo(Square(7, 1), false, Knight),
      PieceInfo(Square(7, 2), false, Bishop),
      PieceInfo(Square(7, 3), false, Queen),
      PieceInfo(Square(7, 4), false, King),
      PieceInfo(Square(7, 5), false, Bishop),
      PieceInfo(Square(7, 6), false, Knight),
      PieceInfo(Square(7, 7), false, Rook)
    ]
  }

  /** The back rank, read from column 0: R N B Q K B N R. */
  function BackRank(column: int): PieceType {
    if column == 0 || column == 7 then Rook
    else if column == 1 || column == 6 then Knight
    else if column == 2 || column == 5 then Bishop
    else if column == 3 then Queen
    else King
  }

  /** The standard arrangement: black on rows 0 and 1, white on rows 6 and 7, rows 2 to 5 empty. */
  function InitialAt(s: Square): Option<ChessPiece> {
    if s.row == 0 then Some(ChessPiece(true, BackRank(s.column)))
    else if s.row == 1 then Some(ChessPiece(true, Pawn))
    else if s.row == 6 then Some(ChessPiece(false, Pawn))
    else if s.row == 7 then Some(ChessPiece(false, BackRank(s.column)))
    else None
  }

  function InitialBoard(): (b: Board)
    ensures WellFormed(b)
    ensures forall s :: OnBoard(s) ==> At(b, s) == InitialAt(s)
  {
    seq(8, r => seq(8, c => InitialAt(Square(r, c))))
  }

  /** The position of a square in the table of starting pieces, or 32 for rows 2 to 5. */
  function SlotOf(s: Square): nat
    requires OnBoard(s)
  {
    if s.row == 0 then s.column
    else if s.row == 1 then 8 + s.column
    else if s.row == 6 then 16 + s.column
    else if s.row == 7 then 24 + s.column
    else 32
  }

  /** Entry j of the table of starting pieces puts on its square exactly the piece
      the standard arrangement has there, and the table visits the 32 occupied
      squares of that arrangement in row order, each once. */
  lemma StartingPiecesLayout(j: int)
    requires 0 <= j < 32
    ensures |StartingPieces()| == 32
    ensures OnBoard(StartingPieces()[j].square)
    ensures SlotOf(StartingPieces()[j].square) == j
    ensures InitialAt(StartingPieces()[j].square)
            == Some(ChessPiece(StartingPieces()[j].isBlack, StartingPieces()[j].pieceType))
  {
    var pi := StartingPieces();
    if j < 8 {
      assert pi[j].square == Square(0, j) && pi[j].isBlack && pi[j].pieceType == BackRank(j);
    } else if j < 16 {
      assert pi[j] == PieceInfo(Square(1, j - 8), true, Pawn);
    } else if j < 24 {
      assert pi[j] == PieceInfo(Square(6, j - 16), false, Pawn);
    } else {
      assert pi[j].square == Square(7, j - 24) && !pi[j].isBlack && pi[j].pieceType == BackRank(j - 24);
    }
  }

  /** The squares of the first j table entries hold their starting pieces; every other square is empty. */
  ghost predicate PlacedUpTo(b: Board, j: int)
    requires WellFormed(b)
  {
    forall s :: OnBoard(s) ==> At(b, s) == if SlotOf(s) < j then InitialAt(s) else None
  }

  /** Placing table entry j on a board holding the first j entries gives the first j + 1. */
  lemma PlaceNext(b: Board, j: int)
    requires WellFormed(b) && 0 <= j < 32 && PlacedUpTo(b, j)
    ensures |StartingPieces()| == 32 && OnBoard(StartingPieces()[j].square)
    ensures var p := StartingPieces()[j];
            PlacedUpTo(Put(b, p.square, Some(ChessPiece(p.isBlack, p.pieceType))), j + 1)
  {
    StartingPiecesLayout(j);
  }

  /** Each colour has exactly one king at the start, on column 4 of its back rank. */
  lemma InitialKings(s: Square, isBlack: bool)
    requires OnBoard(s)
    ensures At(InitialBoard(), s) == Some(ChessPiece(isBlack, King))
            <==> s == Square(if isBlack then 0 else 7, 4)
  {
  }

  // ---------------------------------------------------------------------------
  // Moving pieces

  /** Where the rook stands before castling: column 0 when the king lands on column 1, else column 7. */
  function CurrentRookSquare(kingTo: Square): (s: Square)
    ensures s.row == kingTo.row
    ensures OnBoard(kingTo) ==> OnBoard(s)
    ensures s.column == 0 || s.column == 7
    ensures s.column == 0 <==> kingTo.column == 1
  {
    Square(kingTo.row, if kingTo.column == 1 then 0 else 7)
  }

  /** Where the rook goes when castling: column 2 when the king lands on column 1, else column 5. */
  function NewRookSquare(kingTo: Square): (s: Square)
    ensures s.row == kingTo.row
    ensures OnBoard(kingTo) ==> OnBoard(s)
    ensures s.column == 2 || s.column == 5
    ensures s.column == 2 <==> kingTo.column == 1
  {
    Square(kingTo.row, if kingTo.column == 1 then 2 else 5)
  }

  /** Copy the occupant of from onto to, then empty from. */
  function Relocate(b: Board, from: Square, to: Square): (b': Board)
    requires WellFormed(b) && OnBoard(from) && OnBoard(to)
    ensures WellFormed(b')
  {
    Put(Put(b, to, At(b, from)), from, None)
  }

  /** The board after a move from `from` to `to`; when the pending-castle flag is set
      the rook square chosen by the king's landing column is relocated as well. */
  function MoveOnBoard(b: Board, from: Square, to: Square, castling: bool): (b': Board)
    requires WellFormed(b) && OnBoard(from) && OnBoard(to)
    ensures WellFormed(b')
  {
    var moved := Relocate(b, from, to);
    if castling then Relocate(moved, CurrentRookSquare(to), NewRookSquare(to)) else moved
  }

  /** A move without the castle flag lands the mover on `to`, empties `from`
      and leaves every other square as it was. */
  lemma PlainMove(b: Board, from: Square, to: Square)
    requires WellFormed(b) && OnBoard(from) && OnBoard(to) && from != to
    ensures At(MoveOnBoard(b, from, to, false), to) == At(b, from)
    ensures At(MoveOnBoard(b, from, to, false), from) == None
    ensures forall s :: OnBoard(s) && s != from && s != to ==>
              At(MoveOnBoard(b, from, to, false), s) == At(b, s)
  {
  }

  /** A castling move: after the king's relocation, whatever then stands on the rook's
      current square is copied to the rook's new square and the current square is
      emptied. The squares involved in neither step keep their occupants. */
  lemma CastlingMove(b: Board, from: Square, to: Square)
    requires WellFormed(b) && OnBoard(from) && OnBoard(to) && from != to
    requires from.column == 4 && to.row == from.row && (to.column < 3 || to.column > 5)
    ensures var b' := MoveOnBoard(b, from, to, true);
            var rook := CurrentRookSquare(to);
            var castle := NewRookSquare(to);
            && At(b', from) == None
            && At(b', castle) == (if rook == to then At(b, from) else At(b, rook))
            && At(b', rook) == None
            && (rook != to ==> At(b', to) == At(b, from))
            && forall s :: OnBoard(s) && s !in {from, to, rook, castle} ==> At(b', s) == At(b, s)
  {
    var moved := Relocate(b, from, to);
    PlainMove(b, from, to);
    assert At(moved, CurrentRookSquare(to)) == (if CurrentRookSquare(to) == to then At(b, from) else At(b, CurrentRookSquare(to)));
  }

  // ---------------------------------------------------------------------------
  // Conservation of pieces

  function Occupant(x: Option<ChessPiece>): multiset<ChessPiece> {
    if x.Some? then multiset{x.value} else multiset{}
  }

  function RowPieces(row: seq<Option<ChessPiece>>): multiset<ChessPiece> {
    if row == [] then multiset{} else Occupant(row[0]) + RowPieces(row[1..])
  }

  /** The pieces standing on a board, with multiplicity. */
  function BoardPieces(b: Board): multiset<ChessPiece> {
    if b == [] then multiset{} else RowPieces(b[0]) + BoardPieces(b[1..])
  }

  /** Adding a common part on the left keeps a trade of multisets balanced. */
  lemma UnionShift(p: multiset<ChessPiece>, q': multiset<ChessPiece>, q: multiset<ChessPiece>,
                   o: multiset<ChessPiece>, n: multiset<ChessPiece>)
    requires q' + o == q + n
    ensures (p + q') + o == (p + q) + n
  {
    forall z ensures ((p + q') + o)[z] == ((p + q) + n)[z] {
      assert (q' + o)[z] == (q + n)[z];
    }
  }

  lemma RowPiecesUpdateHead(row: seq<Option<ChessPiece>>, x: Option<ChessPiece>)
    requires 0 < |row|
    ensures RowPieces(row[0 := x]) + Occupant(row[0]) == RowPieces(row) + Occupant(x)
  {
    var row' := row[0 := x];
    assert RowPieces(row) == Occupant(row[0]) + RowPieces(row[1..]);
    assert RowPieces(row') == Occupant(x) + RowPieces(row[1..]) by {
      assert row'[0] == x && row'[1..] == row[1..];
    }
    forall z ensures (RowPieces(row') + Occupant(row[0]))[z] == (RowPieces(row) + Occupant(x))[z] {
    }
  }

  lemma {:induction false} RowPiecesUpdate(row: seq<Option<ChessPiece>>, c: int, x: Option<ChessPiece>)
    requires 0 <= c < |row|
    ensures RowPieces(row[c := x]) + Occupant(row[c]) == RowPieces(row) + Occupant(x)
  {
    if c == 0 {
      RowPiecesUpdateHead(row, x);
    } else {
      var row' := row[c := x];
      var tail' := row[1..][c - 1 := x];
      assert RowPieces(row) == Occupant(row[0]) + RowPieces(row[1..]);
      assert RowPieces(row') == Occupant(row[0]) + RowPieces(tail') by {
        assert row'[0] == row[0] && row'[1..] == tail';
      }
      assert RowPieces(tail') + Occupant(row[c]) == RowPieces(row[1..]) + Occupant(x) by {
        assert row[1..][c - 1] == row[c];
        RowPiecesUpdate(row[1..], c - 1, x);
      }
      UnionShift(Occupant(row[0]), RowPieces(tail'), RowPieces(row[1..]), Occupant(row[c]), Occupant(x));
    }
  }

  lemma BoardPiecesUpdateHead(b: Board, row: seq<Option<ChessPiece>>)
    requires 0 < |b|
    ensures BoardPieces(b[0 := row]) + RowPieces(b[0]) == BoardPieces(b) + RowPieces(row)
  {
    var b' := b[0 := row];
    assert BoardPieces(b) == RowPieces(b[0]) + BoardPieces(b[1..]);
    assert BoardPieces(b') == RowPieces(row) + BoardPieces(b[1..]) by {
      assert b'[0] == row && b'[1..] == b[1..];
    }
    forall z ensures (BoardPieces(b') + RowPieces(b[0]))[z] == (BoardPieces(b) + RowPieces(row))[z] {
    }
  }

  lemma {:induction false} BoardPiecesUpdate(b: Board, r: int, row: seq<Option<ChessPiece>>)
    requires 0 <= r < |b|
    ensures BoardPieces(b[r := row]) + RowPieces(b[r]) == BoardPieces(b) + RowPieces(row)
  {
    if r == 0 {
      BoardPiecesUpdateHead(b, row);
    } else {
      var b' := b[r := row];
      var tail' := b[1..][r - 1 := row];
      assert BoardPieces(b) == RowPieces(b[0]) + BoardPieces(b[1..]);
      assert BoardPieces(b') == RowPieces(b[0]) + BoardPieces(tail') by {
        assert b'[0] == b[0] && b'[1..] == tail';
      }
      assert BoardPieces(tail') + RowPieces(b[r]) == BoardPieces(b[1..]) + RowPieces(row) by {
        assert b[1..][r - 1] == b[r];
        BoardPiecesUpdate(b[1..], r - 1, row);
      }
      UnionShift(RowPieces(b[0]), BoardPieces(tail'), BoardPieces(b[1..]), RowPieces(b[r]), RowPieces(row));
    }
  }

  /** Overwriting one square trades its old occupant for the new one in the board's pieces. */
  lemma PutPieces(b: Board, s: Square, x: Option<ChessPiece>)
    requires WellFormed(b) && OnBoard(s)
    ensures BoardPieces(Put(b, s, x)) + Occupant(At(b, s)) == BoardPieces(b) + Occupant(x)
  {
    var row := b[s.row];
    var row' := row[s.column := x];
    assert Put(b, s, x) == b[s.row := row'];
    RowPiecesUpdate(row, s.column, x);
    BoardPiecesUpdate(b, s.row, row');
    var b' := b[s.row := row'];
    forall z ensures (BoardPieces(b') + Occupant(row[s.column]))[z] == (BoardPieces(b) + Occupant(x))[z] {
      assert (BoardPieces(b') + RowPieces(row))[z] == (BoardPieces(b) + RowPieces(row'))[z];
      assert (RowPieces(row') + Occupant(row[s.column]))[z] == (RowPieces(row) + Occupant(x))[z];
    }
  }

  /** A plain move loses exactly the piece that stood on the destination, and nothing else. */
  lemma RelocatePieces(b: Board, from: Square, to: Square)
    requires WellFormed(b) && OnBoard(from) && OnBoard(to) && from != to
    ensures BoardPieces(Relocate(b, from, to)) + Occupant(At(b, to)) == BoardPieces(b)
  {
    var b1 := Put(b, to, At(b, from));
    PutPieces(b, to, At(b, from));
    PutPieces(b1, from, None);
    var b2 := Put(b1, from, None);
    assert At(b1, from) == At(b, from);
    forall z ensures (BoardPieces(b2) + Occupant(At(b, to)))[z] == BoardPieces(b)[z] {
      assert (BoardPieces(b1) + Occupant(At(b, to)))[z] == (BoardPieces(b) + Occupant(At(b, from)))[z];
      assert (BoardPieces(b2) + Occupant(At(b, from)))[z] == BoardPieces(b1)[z];
    }
  }

  // ---------------------------------------------------------------------------
  // Turns

  /** The turn after a move: black after white, white after anything else (forNone included). */
  function NextTurn(c: EnableColor): (next: EnableColor)
    ensures next != ForNone
    ensures c != ForNone ==> next != c
    ensures next == ForBlack <==> c == ForWhite
  {
    if c == ForWhite then ForBlack else ForWhite
  }

  /** Two moves give the turn back to the side that had it. */
  lemma TurnRoundTrip(c: EnableColor)
    requires c != ForNone
    ensures NextTurn(NextTurn(c)) == c
  {
  }
}
