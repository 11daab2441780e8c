/** Value types of the chess engine: squares, the turn enumeration, piece kinds and pieces. */
module BoardAndPieces {

  import opened Wrappers

  /** A board square as (row, column); row 0 is black's back rank, row 7 white's. */
  datatype Square = Square(row: int, column: int)

  predicate OnBoard(s: Square) {
    0 <= s.row < 8 && 0 <= s.column < 8
  }

  /** Integer division as Swift computes it: the quotient is truncated toward zero. */
  function SwiftDiv(a: int, n: int): (q: int)
    requires n > 0
    ensures a >= 0 ==> q == a / n
    ensures a < 0 ==> q <= 0
  {
    if a >= 0 then a / n else -((-a) / n)
  }

  /** Swift's remainder: it takes the sign of the dividend. */
  function SwiftRem(a: int, n: int): (r: int)
    requires n > 0
    ensures a >= 0 ==> 0 <= r < n && r == a % n
    ensures a < 0 ==> -n < r <= 0
  {
    if a >= 0 then a % n else -((-a) % n)
  }

  /** The initialiser from a flat matrix index: row is index / 8, column index % 8. */
  function SquareFromIndex(index: int): (s: Square)
    ensures 0 <= index < 64 ==> OnBoard(s)
  {
    Square(SwiftDiv(index, 8), SwiftRem(index, 8))
  }

  /** The flat index of a square, row * 8 + column. */
  function SquareToIndex(s: Square): (index: int)
    ensures OnBoard(s) ==> 0 <= index < 64
  {
    s.row * 8 + s.column
  }

  /** Turning a flat index into a square and back gives the index again, for every index
      (Swift's truncating division and remainder still satisfy q * 8 + r == a). */
  lemma IndexRoundTrip(index: int)
    ensures SquareToIndex(SquareFromIndex(index)) == index
  {
    if index < 0 {
      var m := -index;
      assert (m / 8) * 8 + m % 8 == m;
    }
  }

  /** A square on the board survives the trip through its flat index. */
  lemma SquareRoundTrip(s: Square)
    requires OnBoard(s)
    ensures SquareFromIndex(SquareToIndex(s)) == s
  {
    var i := s.row * 8 + s.column;
    assert i / 8 == s.row && i % 8 == s.column by {
      DivModUnique(i, s.row, s.column);
    }
  }

  lemma DivModUnique(i: int, q: int, r: int)
    requires 0 <= r < 8 && i == q * 8 + r
    ensures i / 8 == q && i % 8 == r
  {
  }

  /** Whose pieces may be dragged; forNone disables both colours. */
  datatype EnableColor = ForBlack | ForWhite | ForNone

  datatype PieceType = Pawn | Knight | Bishop | Rook | Queen | King

  /** The integer raw value of a piece kind, counted from 0 in declaration order. */
  function RawValue(t: PieceType): (raw: int)
    ensures 0 <= raw < 6
  {
    match t
    case Pawn => 0
    case Knight => 1
    case Bishop => 2
    case Rook => 3
    case Queen => 4
    case King => 5
  }

  /** The raw values follow the order pawn < knight < bishop < rook < queen < king. */
  lemma RawValueOrder()
    ensures RawValue(Pawn) < RawValue(Knight) < RawValue(Bishop) < RawValue(Rook)
            < RawValue(Queen) < RawValue(King)
    ensures forall a: PieceType, b: PieceType :: RawValue(a) == RawValue(b) ==> a == b
  {
  }

  /** A piece; the opaque per-instance identifier of the program is not part of the model. */
  datatype ChessPiece = ChessPiece(isBlack: bool, pieceType: PieceType)

  /** The display name of a kind. */
  function Name(t: PieceType): (name: string)
    ensures |name| >= 4
  {
    match t
    case Rook => "Rook"
    case Bishop => "Bishop"
    case Knight => "Knight"
    case Queen => "Queen"
    case King => "King"
    case Pawn => "Pawn"
  }

  /** Different kinds have different names, so the name identifies the kind. */
  lemma NameInjective(a: PieceType, b: PieceType)
    ensures Name(a) == Name(b) <==> a == b
  {
  }

  const BlackSuffix: string := "-black"

  /** The image asset name of a piece: its kind's name, with "-black" appended for black. */
  function ImageName(p: ChessPiece): (name: string)
    ensures |Name(p.pieceType)| <= |name| && name[..|Name(p.pieceType)|] == Name(p.pieceType)
  {
    Name(p.pieceType) + (if p.isBlack then BlackSuffix else "")
  }

  predicate EndsWith(s: string, suffix: string) {
    |suffix| <= |s| && s[|s| - |suffix|..] == suffix
  }

  /** The image name ends in "-black" exactly when the piece is black, and dropping
      that suffix from a black piece's image name gives back the kind's name. */
  lemma ImageNameMarksBlack(p: ChessPiece)
    ensures EndsWith(ImageName(p), BlackSuffix) <==> p.isBlack
    ensures p.isBlack ==> ImageName(p)[..|ImageName(p)| - |BlackSuffix|] == Name(p.pieceType)
    ensures !p.isBlack ==> ImageName(p) == Name(p.pieceType)
  {
    if !p.isBlack {
      assert ImageName(p) == Name(p.pieceType);
      match p.pieceType
      case Knight => assert Name(Knight)[0] != BlackSuffix[0];
      case Bishop => assert Name(Bishop)[0] != BlackSuffix[0];
      case _ =>
    } else {
      assert ImageName(p)[|ImageName(p)| - |BlackSuffix|..] == BlackSuffix;
    }
  }
}
