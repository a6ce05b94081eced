# Chess board row (Rank) in Dafny

This project models `Rank`, one row of the chess board in the
`chess.board` package: a list of pieces indexed by column. A row can be
replaced wholesale (`init`), asked how many of its slots hold a piece of a
given type and colour (`countPieces`), read at a column (`getPiece`) and
overwritten at a column (`placePiece`).

- `pieces.dfy`, module `Pieces`: `Color`, `Type` (with `None` for an empty
  square) and `Piece` as values; a piece is its (type, colour) pair.
- `rank.dfy`, module `ChessBoard` (named after the `chess.board`
  package): the specification of the count (`Filtered`, the pieces that
  pass both stream filters, and `CountOf`, how many there are), two independent characterisations of it (the number of matching
  slots, and the multiplicity of the piece in the row), how an overwrite
  moves it, and the class `Rank` whose field `rank: seq<Piece>` stands for
  the source's `ArrayList`. `Init` reassigns the field, `PlacePiece` updates
  one slot, `CountPieces` scans the row with a loop proved against
  `CountOf`, and `GetPiece` is a read.
- `scenarios.dfy`, module `RankScenarios`: callers that use only the
  contracts — a fresh row counts nothing, place-then-find on one row, and
  `init` keeping its own copy of the caller's list.

Index bounds are preconditions of `GetPiece` and `PlacePiece`: the source
fails with `IndexOutOfBoundsException` from `List.get` and `List.set` there,
which is a programming error of the caller rather than a handled case.

A chess row holds eight squares, and the board is expected to keep every
row at eight pieces. The code of `Rank` does not enforce this (a new row
is empty and `init` accepts a list of any length), so the model follows
the code: a row may have any length, and every operation keeps the length
it has, except `Init`, which takes the length of its argument.

## Model

| member | source | states |
|---|---|---|
| `ChessBoard.Filtered` | src/main/java/chess/board/Rank.java:20-22 | every piece kept has the queried type and colour, and no more pieces are kept than the row holds |
| `ChessBoard.CountOf` | src/main/java/chess/board/Rank.java:19-24 | the count lies between 0 and the row's length |
| `ChessBoard.CountIsMatchingSlots` | src/main/java/chess/board/Rank.java:19-24 | the count equals the number of column indices whose piece has the queried type and colour |
| `ChessBoard.CountIsMultiplicity` | src/main/java/chess/board/Rank.java:19-24 | the count equals how many times the piece (type, colour) occurs in the row |
| `ChessBoard.CountZeroIffAbsent` | src/main/java/chess/board/Rank.java:19-24 | the count is zero if and only if no slot holds the piece (type, colour) |
| `ChessBoard.CountAfterOverwrite` | src/main/java/chess/board/Rank.java:37-39 | after overwriting one slot, each count is the old count, minus one if the departing piece matched, plus one if the arriving piece matches |
| `ChessBoard.Rank.constructor` | src/main/java/chess/board/Rank.java:13 | a new row is empty and every count on it is zero |
| `ChessBoard.Rank.Init` | src/main/java/chess/board/Rank.java:15-17 | the row becomes the given list, with its length, and every column then reads back through `GetPiece` the piece the list holds there; being a value, it shares nothing with the caller's list |
| `ChessBoard.Rank.CountPieces` | src/main/java/chess/board/Rank.java:19-24 | returns the specified count of the current row, between 0 and the row's length, and changes nothing |
| `ChessBoard.Rank.GetPiece` | src/main/java/chess/board/Rank.java:26-28 | for a column inside the row, the piece read is one of the row's pieces and is seen by the count for its own type and colour; reads only |
| `ChessBoard.Rank.PlacePiece` | src/main/java/chess/board/Rank.java:37-39 | for a column inside the row: the slot is replaced, the length is unchanged, the column reads back the placed piece, every other column reads as before, and every count moves as `CountAfterOverwrite` says |
| `RankScenarios.FreshRankCountsNothing` | src/main/java/chess/board/Rank.java:13-24 | counting on a row that was never initialised yields 0 for every type and colour |
| `RankScenarios.PlaceThenFind` | src/test/java/chess/board/BoardTest.java:97-104 | placing a black pawn on column 0 of an eight-column row and reading that column back yields a black pawn, and the row then counts between one and eight black pawns |
| `RankScenarios.InitThenChangeCallerList` | src/main/java/chess/board/Rank.java:15-17 | after `init` from a list, overwriting the caller's list leaves the row equal to the list as it was |

## Left out

- `Rank.toString` (src/main/java/chess/board/Rank.java:30-35): diagnostic text built from `Piece.toString`, which is not part of this model.
- Board-level behaviour is outside this model of `Rank`: the `Board` class that `BoardTest` exercises, `Position`, the piece factories (`Pawn.of` and the others) and `BusinessException`/`ErrorCode` are not part of this model, so coordinate parsing, whole-board counting, `checkTurn`, the standard starting layout and the floating-point scoring in `calculatePoint` are not modelled. The one board test that reduces to a single row, place then find, is `RankScenarios.PlaceThenFind`.
- `Color`, `Type` and `Piece` are not part of this model as source. `Color` and `Type` are assumed to be enums with two colours and six piece types plus `None` for an empty square. A piece is modelled by its type and colour only, the two things `Rank` reads from it. Point values per type are not modelled.
- Null lists and null pieces are not modelled: `init(null)` throws a `NullPointerException` when it copies the list, and `placePiece(null, col)` is accepted, after which `getPiece` returns null and `countPieces` throws a `NullPointerException` when it reads the piece's type. Neither `seq<Piece>` nor `Piece` has a null value; an empty square is the piece of type `None`.
- The `(int)` cast of the stream's `long` count is not modelled as a truncation: a Java list never holds more than `Integer.MAX_VALUE` elements, so the cast cannot change the value.
- Out-of-range columns in `getPiece` and `placePiece` are preconditions instead of an `IndexOutOfBoundsException` result.
- ChessBoard.Rank.GetPiece: its own contract states that the piece read belongs to the row and is counted. That it is the piece at exactly that column is stated by `Init` for every column and by `PlacePiece` for the column just written; for the other columns `PlacePiece` states only that they read as before. Beyond these, it follows from the function's body.
