/** Pieces of a chess set as plain values: a type tag and a colour tag.
    Rank reads a piece only through getType() and getColor(), so the model
    describes a piece by that pair. Color and Type are assumed to be enums
    with the values below. */
module Pieces {

  /** The two sides. */
  datatype Color = Black | White

  /** The piece types; None marks an empty square. */
  datatype Type = Pawn | Knight | Bishop | Rook | Queen | King | None

  /** A piece; `kind` is what the source reads with getType(). */
  datatype Piece = Piece(kind: Type, color: Color)

  /** The test that both filters of Rank.countPieces apply to one piece:
      same type and same colour. */
  predicate Matches(p: Piece, t: Type, c: Color) {
    p.kind == t && p.color == c
  }
}
