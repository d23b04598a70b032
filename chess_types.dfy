/** Values shared by the board and the search: sides, piece kinds and the
    move record that the move generator hands to both. */
module ChessTypes {

  datatype Option<T> = None | Some(value: T)

  datatype Side = White | Black

  /** The other side; the search asks whether this side is in check after a move. */
  function Opponent(s: Side): (o: Side)
    ensures o != s
  {
    if s == White then Black else White
  }

  datatype Kind = Pawn | Knight | Bishop | Rook | Queen | King

  /** The move flags the board dispatches on; every other flag of the move
      generator behaves like Quiet or Capture here. */
  datatype Flag = Quiet | Capture | EnPassant | PawnPromotion | PawnPromotionCapture
                | KingsideCastle | QueensideCastle

  /** A generated move. Squares are packed 0x88 indices (see Squares.Locate). */
  datatype GameMove = GameMove(
    fromIndex: int,
    toIndex: int,
    side: Side,
    flag: Flag,
    promotionPiece: Option<Kind>,
    epSquare: Option<int>)

  predicate IsPromotion(f: Flag)
  {
    f == PawnPromotion || f == PawnPromotionCapture
  }

  predicate IsCastle(f: Flag)
  {
    f == KingsideCastle || f == QueensideCastle
  }
}
