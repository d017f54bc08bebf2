/**
 * How `Parchis.movePiece` (src/ts/Parchis.ts) lays out the pieces that share
 * the destination square: the other pieces already there get render slots
 * 0..k-1 in `allPieces` order, the mover gets slot k, and every slot call
 * says there are k+1 pieces on the square.  Everything here is a pure
 * function of the game's piece table; the class in `Game` is proved to
 * follow it.
 */
module Occupancy {
  import opened Wrappers
  import opened JsCollections

  /** A piece as `allPieces` yields it: its owner, its id and its square. */
  datatype PieceRef = PieceRef(playerId: int, pieceId: int, position: int)

  /** A call `staticMove(position, memberCount, nthMember)` on the piece (playerId, pieceId). */
  datatype SlotCall = StaticMove(playerId: int, pieceId: int, position: int, memberCount: int, nthMember: int)

  /** The game's players: player id -> (piece id -> square), both maps in insertion order. */
  type Table = Entries<int, Entries<int, int>>

  ghost predicate WellFormed(t: Table) {
    DistinctKeys(t) && forall i :: 0 <= i < |t| ==> DistinctKeys(t[i].1)
  }

  function PlayerPieces(playerId: int, pieces: Entries<int, int>): seq<PieceRef> {
    seq(|pieces|, i requires 0 <= i < |pieces| => PieceRef(playerId, pieces[i].0, pieces[i].1))
  }

  /** `allPieces`: players in insertion order, each player's pieces in insertion order. */
  function AllPieces(t: Table): seq<PieceRef> {
    if t == [] then [] else PlayerPieces(t[0].0, t[0].1) + AllPieces(t[1..])
  }

  predicate IsPiece(p: PieceRef, playerId: int, pieceId: int) {
    p.playerId == playerId && p.pieceId == pieceId
  }

  /** `a` is `b` with some elements left out, the rest kept in order. */
  ghost predicate SubsequenceOf<T>(a: seq<T>, b: seq<T>) {
    if a == [] then true
    else if b == [] then false
    else if a[0] == b[0] then SubsequenceOf(a[1..], b[1..])
    else SubsequenceOf(a, b[1..])
  }

  /**
   * `piecesAtPosition`: the pieces standing on `square`, leaving out the mover
   * (playerId, pieceId) even when it already stands there.
   */
  function Occupants(all: seq<PieceRef>, playerId: int, pieceId: int, square: int): (occ: seq<PieceRef>)
    ensures forall p :: p in occ <==> p in all && !IsPiece(p, playerId, pieceId) && p.position == square
    ensures SubsequenceOf(occ, all)
  {
    if all == [] then []
    else
      var rest := Occupants(all[1..], playerId, pieceId, square);
      if !IsPiece(all[0], playerId, pieceId) && all[0].position == square then [all[0]] + rest else rest
  }

  /** The render calls `movePiece` issues: one per occupant in order, then the mover's. */
  function SlotCalls(all: seq<PieceRef>, playerId: int, pieceId: int, square: int): seq<SlotCall> {
    var occ := Occupants(all, playerId, pieceId, square);
    OccupantCalls(occ, square) + [StaticMove(playerId, pieceId, square, |occ| + 1, |occ|)]
  }

  /** `piecesAtPosition.forEach((piece, index) => piece.staticMove(square, count, index))`. */
  function OccupantCalls(occ: seq<PieceRef>, square: int): seq<SlotCall> {
    seq(|occ|, i requires 0 <= i < |occ| => StaticMove(occ[i].playerId, occ[i].pieceId, square, |occ| + 1, i))
  }

  /**
   * The layout of the destination square: k+1 calls, all on that square and
   * all with count k+1; call i has index i, so the indices are 0..k without
   * gap or repetition; the first k go to the occupants in `allPieces` order,
   * the last to the mover.
   */
  lemma SlotCallsLayout(all: seq<PieceRef>, playerId: int, pieceId: int, square: int)
    ensures var calls := SlotCalls(all, playerId, pieceId, square);
            var occ := Occupants(all, playerId, pieceId, square);
            && |calls| == |occ| + 1
            && (forall i :: 0 <= i < |calls| ==>
                 calls[i].position == square && calls[i].memberCount == |calls| && calls[i].nthMember == i)
            && (forall i :: 0 <= i < |occ| ==>
                 calls[i].playerId == occ[i].playerId && calls[i].pieceId == occ[i].pieceId)
            && calls[|occ|].playerId == playerId && calls[|occ|].pieceId == pieceId
  {
  }

  /**
   * Only the destination square is laid out: every call goes to the mover or
   * to a piece that already stands on that square.  Pieces left behind on the
   * source square receive nothing.
   */
  lemma SlotCallsOnlyAtDestination(all: seq<PieceRef>, playerId: int, pieceId: int, square: int, c: SlotCall)
    requires c in SlotCalls(all, playerId, pieceId, square)
    ensures c.position == square
    ensures (c.playerId == playerId && c.pieceId == pieceId) ||
            PieceRef(c.playerId, c.pieceId, square) in all
  {
    var occ := Occupants(all, playerId, pieceId, square);
    var calls := SlotCalls(all, playerId, pieceId, square);
    var i :| 0 <= i < |calls| && calls[i] == c;
    if i < |occ| {
      assert occ[i] in occ;
      assert occ[i] == PieceRef(c.playerId, c.pieceId, square);
    }
  }

  /**
   * Two pieces sharing a square: with (1, 1) on square 5, piece (2, 1)
   * arriving there takes index 1 of 2 and (1, 1) is re-laid as index 0 of 2.
   * When (1, 1) then leaves for square 9 only the mover is laid out: the
   * piece left behind on square 5 keeps index 1 of 2.
   */
  lemma SharedSquareExample()
    ensures var all := [PieceRef(1, 1, 5), PieceRef(2, 1, 2001)];
            var after := MovedPieces(all, 2, 1, 5);
            && SlotCalls(all, 2, 1, 5) == [StaticMove(1, 1, 5, 2, 0), StaticMove(2, 1, 5, 2, 1)]
            && after == [PieceRef(1, 1, 5), PieceRef(2, 1, 5)]
            && SlotCalls(after, 1, 1, 9) == [StaticMove(1, 1, 9, 1, 0)]
  {
    var all := [PieceRef(1, 1, 5), PieceRef(2, 1, 2001)];
    assert Occupants(all, 2, 1, 5) == [PieceRef(1, 1, 5)] by {
      assert all[1..][1..] == [];
    }
    var after := [PieceRef(1, 1, 5), PieceRef(2, 1, 5)];
    assert Occupants(after, 1, 1, 9) == [] by {
      assert after[1..][1..] == [];
    }
  }

  /** Every piece identified by (playerId, pieceId) moves to `square`; no other piece moves. */
  function MovedPieces(all: seq<PieceRef>, playerId: int, pieceId: int, square: int): seq<PieceRef> {
    seq(|all|, i requires 0 <= i < |all| =>
      if IsPiece(all[i], playerId, pieceId) then all[i].(position := square) else all[i])
  }

  lemma MovedPiecesTail(all: seq<PieceRef>, playerId: int, pieceId: int, square: int)
    requires all != []
    ensures MovedPieces(all, playerId, pieceId, square)[1..] == MovedPieces(all[1..], playerId, pieceId, square)
  {
  }

  /** Moving a piece does not change who occupies its destination, apart from itself. */
  lemma {:induction false} OccupantsIgnoreMover(all: seq<PieceRef>, playerId: int, pieceId: int, square: int)
    ensures Occupants(MovedPieces(all, playerId, pieceId, square), playerId, pieceId, square)
         == Occupants(all, playerId, pieceId, square)
  {
    if all != [] {
      MovedPiecesTail(all, playerId, pieceId, square);
      OccupantsIgnoreMover(all[1..], playerId, pieceId, square);
    }
  }

  /**
   * Repeating a move changes nothing more: the positions are those after the
   * first move and the slot calls are the same as the first move's.
   */
  lemma MoveIsIdempotent(all: seq<PieceRef>, playerId: int, pieceId: int, square: int)
    ensures var once := MovedPieces(all, playerId, pieceId, square);
            && MovedPieces(once, playerId, pieceId, square) == once
            && SlotCalls(once, playerId, pieceId, square) == SlotCalls(all, playerId, pieceId, square)
  {
    OccupantsIgnoreMover(all, playerId, pieceId, square);
  }

  // ------------------------------------------------------------ the table

  /** The table after the piece's position is set: `player.pieces.get(pieceId).position = square`. */
  function MoveInTable(t: Table, playerId: int, pieceId: int, square: int): Table
    requires Has(t, playerId)
  {
    Set(t, playerId, Set(Get(t, playerId).value, pieceId, square))
  }

  /** The square of piece `pieceId` of player `playerId` in the table, if both exist. */
  function PieceSquare(t: Table, playerId: int, pieceId: int): Option<int> {
    match Get(t, playerId)
    case None => None
    case Some(pieces) => Get(pieces, pieceId)
  }

  /**
   * After the update the moved piece stands on `square`, and every other
   * piece of every player reads the same square as before.
   */
  lemma MoveInTableSetsOneSquare(t: Table, playerId: int, pieceId: int, square: int, p: int, k: int)
    requires Has(t, playerId)
    ensures PieceSquare(MoveInTable(t, playerId, pieceId, square), p, k)
         == if p == playerId && k == pieceId then Some(square) else PieceSquare(t, p, k)
  {
    var pieces := Get(t, playerId).value;
    SetGet(t, playerId, Set(pieces, pieceId, square), p);
    if p == playerId {
      SetGet(pieces, pieceId, square, k);
    }
  }

  lemma MovedPiecesConcat(a: seq<PieceRef>, b: seq<PieceRef>, playerId: int, pieceId: int, square: int)
    ensures MovedPieces(a + b, playerId, pieceId, square)
         == MovedPieces(a, playerId, pieceId, square) + MovedPieces(b, playerId, pieceId, square)
  {
  }

  /** Every piece `allPieces` yields belongs to a player of the table. */
  lemma {:induction false} AllPiecesOwners(t: Table, r: PieceRef)
    requires r in AllPieces(t)
    ensures r.playerId in Keys(t)
  {
    if t != [] {
      var own := PlayerPieces(t[0].0, t[0].1);
      if r in own {
        var i :| 0 <= i < |own| && own[i] == r;
        assert Keys(t)[0] == t[0].0;
      } else {
        AllPiecesOwners(t[1..], r);
        assert Keys(t[1..]) == Keys(t)[1..];
      }
    }
  }

  lemma MovedPiecesOfOthers(all: seq<PieceRef>, playerId: int, pieceId: int, square: int)
    requires forall r :: r in all ==> r.playerId != playerId
    ensures MovedPieces(all, playerId, pieceId, square) == all
  {
  }

  /** Setting a present piece's square in one player's map moves exactly that piece. */
  lemma MovedPlayerPieces(playerId: int, pieces: Entries<int, int>, pieceId: int, square: int)
    requires DistinctKeys(pieces) && Has(pieces, pieceId)
    ensures PlayerPieces(playerId, Set(pieces, pieceId, square))
         == MovedPieces(PlayerPieces(playerId, pieces), playerId, pieceId, square)
  {
    var j := FirstIndex(Keys(pieces), pieceId);
    assert pieces[j].0 == pieceId;
    SetExisting(pieces, j, square);
    forall i | 0 <= i < |pieces| && i != j
      ensures pieces[i].0 != pieceId
    {
      assert Keys(pieces)[i] == pieces[i].0;
    }
  }

  /**
   * The table update and the piece-level move agree: after the update,
   * `allPieces` is the old `allPieces` with exactly the moved piece at `square`.
   */
  lemma {:induction false} MoveInTableMovesOnePiece(t: Table, playerId: int, pieceId: int, square: int)
    requires WellFormed(t) && Has(t, playerId) && Has(Get(t, playerId).value, pieceId)
    ensures AllPieces(MoveInTable(t, playerId, pieceId, square))
         == MovedPieces(AllPieces(t), playerId, pieceId, square)
  {
    var j := FirstIndex(Keys(t), playerId);
    assert t[j].0 == playerId;
    SetExisting(t, j, Set(t[j].1, pieceId, square));
    MoveAtIndex(t, j, playerId, pieceId, square);
  }

  lemma {:induction false} MoveAtIndex(t: Table, j: int, playerId: int, pieceId: int, square: int)
    requires WellFormed(t) && 0 <= j < |t| && t[j].0 == playerId && Has(t[j].1, pieceId)
    ensures AllPieces(t[j := (playerId, Set(t[j].1, pieceId, square))])
         == MovedPieces(AllPieces(t), playerId, pieceId, square)
  {
    var t' := t[j := (playerId, Set(t[j].1, pieceId, square))];
    assert t'[1..] == if j == 0 then t[1..] else t[1..][j - 1 := (playerId, Set(t[j].1, pieceId, square))];
    MovedPiecesConcat(PlayerPieces(t[0].0, t[0].1), AllPieces(t[1..]), playerId, pieceId, square);
    assert WellFormed(t[1..]) by {
      forall a, b | 0 <= a < b < |t[1..]| ensures Keys(t[1..])[a] != Keys(t[1..])[b] {
        assert Keys(t)[a + 1] == Keys(t[1..])[a] && Keys(t)[b + 1] == Keys(t[1..])[b];
      }
    }
    if j == 0 {
      MovedPlayerPieces(playerId, t[0].1, pieceId, square);
      forall r | r in AllPieces(t[1..]) ensures r.playerId != playerId {
        AllPiecesOwners(t[1..], r);
        var a :| 0 <= a < |t[1..]| && Keys(t[1..])[a] == r.playerId;
        assert Keys(t)[a + 1] == r.playerId && Keys(t)[0] == playerId;
      }
      MovedPiecesOfOthers(AllPieces(t[1..]), playerId, pieceId, square);
    } else {
      assert Keys(t)[0] == t[0].0 && Keys(t)[j] == playerId;
      MovedPiecesOfOthers(PlayerPieces(t[0].0, t[0].1), playerId, pieceId, square);
      MoveAtIndex(t[1..], j - 1, playerId, pieceId, square);
    }
  }
}
