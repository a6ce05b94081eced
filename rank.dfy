/** One row of the chess board: a list of pieces indexed by column, with
    wholesale replacement, counting by type and colour, indexed read and
    indexed overwrite. */
module ChessBoard {
  import opened Pieces

  // ---------------------------------------------------------------------
  // Specification of countPieces: the pieces that pass both stream
  // filters, and how many there are.
  // ---------------------------------------------------------------------

  /** The pieces of `s` that have type `t` and colour `c`, in row order. */
  function Filtered(s: seq<Piece>, t: Type, c: Color): (r: seq<Piece>)
    ensures |r| <= |s|
    ensures forall p :: p in r ==> Matches(p, t, c)
  {
    if s == [] then []
    else
      var last := s[|s| - 1];
      Filtered(s[..|s| - 1], t, c) + (if Matches(last, t, c) then [last] else [])
  }

  /** The number of pieces of `s` with type `t` and colour `c`. */
  function CountOf(s: seq<Piece>, t: Type, c: Color): (n: nat)
    ensures n <= |s|
  {
    |Filtered(s, t, c)|
  }

  /** The slots of `s` that hold a piece of type `t` and colour `c`. */
  ghost function MatchingSlots(s: seq<Piece>, t: Type, c: Color): set<int> {
    set i | 0 <= i < |s| && Matches(s[i], t, c)
  }

  /** Splitting off the last slot. */
  lemma CountSnoc(s: seq<Piece>, x: Piece, t: Type, c: Color)
    ensures CountOf(s + [x], t, c) == CountOf(s, t, c) + (if Matches(x, t, c) then 1 else 0)
  {
  }

  /** The count is the number of slots whose piece has the given type and
      colour. */
  lemma {:induction false} CountIsMatchingSlots(s: seq<Piece>, t: Type, c: Color)
    ensures CountOf(s, t, c) == |MatchingSlots(s, t, c)|
  {
    if s == [] {
      assert MatchingSlots(s, t, c) == {};
    } else {
      var n := |s| - 1;
      var init := s[..n];
      CountIsMatchingSlots(init, t, c);
      assert s == init + [s[n]];
      CountSnoc(init, s[n], t, c);
      var tail: set<int> := if Matches(s[n], t, c) then {n} else {};
      forall i
        ensures i in MatchingSlots(s, t, c) <==> i in MatchingSlots(init, t, c) + tail
      {
        if 0 <= i < n { assert s[i] == init[i]; }
      }
      assert MatchingSlots(s, t, c) == MatchingSlots(init, t, c) + tail;
      assert n !in MatchingSlots(init, t, c);
    }
  }

  /** The count is the multiplicity of the piece (t, c) in the row: a piece
      matches exactly when it equals that pair. */
  lemma {:induction false} CountIsMultiplicity(s: seq<Piece>, t: Type, c: Color)
    ensures CountOf(s, t, c) == multiset(s)[Piece(t, c)]
  {
    if s != [] {
      var n := |s| - 1;
      CountIsMultiplicity(s[..n], t, c);
      assert s == s[..n] + [s[n]];
      CountSnoc(s[..n], s[n], t, c);
    }
  }

  /** The count is zero exactly when no slot holds the piece (t, c). */
  lemma CountZeroIffAbsent(s: seq<Piece>, t: Type, c: Color)
    ensures CountOf(s, t, c) == 0 <==> Piece(t, c) !in s
  {
    CountIsMultiplicity(s, t, c);
  }

  /** Overwriting one slot changes each count by the departing piece and the
      arriving one, and nothing else. */
  lemma CountAfterOverwrite(s: seq<Piece>, col: int, p: Piece, t: Type, c: Color)
    requires 0 <= col < |s|
    ensures CountOf(s[col := p], t, c)
         == CountOf(s, t, c) - (if Matches(s[col], t, c) then 1 else 0)
                             + (if Matches(p, t, c) then 1 else 0)
  {
    CountIsMultiplicity(s, t, c);
    CountIsMultiplicity(s[col := p], t, c);
    assert multiset(s[col := p]) == multiset(s) - multiset{s[col]} + multiset{p};
  }

  // ---------------------------------------------------------------------
  // The row itself.
  // ---------------------------------------------------------------------

  class Rank {
    /** The pieces of the row, column 0 first. The source keeps an ArrayList
        that init replaces and placePiece updates in place. */
    var rank: seq<Piece>

    /** A new row is empty, so every count on it is zero. */
    constructor ()
      ensures rank == []
      ensures forall t, c :: CountOf(rank, t, c) == 0
    {
      rank := [];
    }

    /** Replaces the row with a copy of `pieces`. A sequence is a value, so
        the row shares nothing with the caller's list. Each column then reads
        back the piece the list holds there. */
    method Init(pieces: seq<Piece>)
      modifies this
      ensures rank == pieces
      ensures |rank| == |pieces| && forall i :: 0 <= i < |pieces| ==> GetPiece(i) == pieces[i]
    {
      rank := pieces;
    }

    /** Counts the pieces of type `t` and colour `c` in the row, scanning it
        once; the row is not changed. */
    method CountPieces(t: Type, c: Color) returns (n: int)
      ensures n == CountOf(rank, t, c)
      ensures 0 <= n <= |rank|
    {
      n := 0;
      var i := 0;
      while i < |rank|
        invariant 0 <= i <= |rank|
        invariant n == CountOf(rank[..i], t, c)
      {
        assert rank[..i + 1] == rank[..i] + [rank[i]];
        CountSnoc(rank[..i], rank[i], t, c);
        if rank[i].kind == t && rank[i].color == c {
          n := n + 1;
        }
        i := i + 1;
      }
      assert rank[..i] == rank;
    }

    /** The piece at column `col`; the column must lie inside the row. The
        piece read is one the row's count for its own type and colour sees. */
    function GetPiece(col: int): (p: Piece)
      reads this
      requires 0 <= col < |rank|
      ensures p in rank
      ensures CountOf(rank, p.kind, p.color) >= 1
    {
      CountZeroIffAbsent(rank, rank[col].kind, rank[col].color);
      rank[col]
    }

    /** Overwrites column `col` with `piece`; the column must lie inside the
        row. The row keeps its length, the column now reads back `piece`,
        every other column is as it was, and each count moves by the
        departing and the arriving piece. */
    method PlacePiece(piece: Piece, col: int)
      requires 0 <= col < |rank|
      modifies this
      ensures rank == old(rank)[col := piece]
      ensures |rank| == old(|rank|)
      ensures GetPiece(col) == piece
      ensures forall j :: 0 <= j < |rank| && j != col ==> GetPiece(j) == old(GetPiece(j))
      ensures forall t, c :: CountOf(rank, t, c)
                == old(CountOf(rank, t, c)) - (if Matches(old(rank)[col], t, c) then 1 else 0)
                                           + (if Matches(piece, t, c) then 1 else 0)
    {
      ghost var before := rank;
      rank := rank[col := piece];
      forall t, c
        ensures CountOf(rank, t, c)
             == CountOf(before, t, c) - (if Matches(before[col], t, c) then 1 else 0)
                                      + (if Matches(piece, t, c) then 1 else 0)
      {
        CountAfterOverwrite(before, col, piece, t, c);
      }
    }
  }
}
