/** Callers of Rank, written against its contracts alone: what a fresh row
    reports, the place-then-find round trip on one row, and the copy that
    init makes of the caller's list. */
module RankScenarios {
  import opened Pieces
  import opened ChessBoard

  /** A row that was never initialised holds nothing of any type and colour. */
  method FreshRankCountsNothing(t: Type, c: Color) returns (n: int)
    ensures n == 0
  {
    var row := new Rank();
    n := row.CountPieces(t, c);
  }

  /** Placing a black pawn on column 0 (file a) of an eight-column row and
      reading the same column back yields a black pawn, whatever the row held
      before; the row still has eight columns and counts at least one black
      pawn. */
  method PlaceThenFind(before: seq<Piece>) returns (found: Piece, blackPawns: int)
    requires |before| == 8
    ensures found.kind == Pawn && found.color == Black
    ensures 1 <= blackPawns <= 8
  {
    var row := new Rank();
    row.Init(before);
    row.PlacePiece(Piece(Pawn, Black), 0);
    found := row.GetPiece(0);
    blackPawns := row.CountPieces(Pawn, Black);
  }

  /** init keeps its own copy: once the row is initialised from the caller's
      list, overwriting that list leaves the row as it was. */
  method InitThenChangeCallerList(list: array<Piece>, x: Piece) returns (row: Rank)
    requires list.Length > 0
    modifies list
    ensures fresh(row)
    ensures row.rank == old(list[..])
    ensures list[0] == x
  {
    row := new Rank();
    row.Init(list[..]);
    list[0] := x;
  }
}
