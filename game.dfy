/**
 * The game state and the players that act on it: `Parchis` (src/ts/Parchis.ts)
 * holds the players in a `Map` from player id to player; each `Player`
 * (src/ts/Player.ts) holds its pieces in a `Map` from piece id to piece, and
 * a piece is reduced to its square.  The two classes refer to each other, so
 * they share this module.
 *
 * The effects the source has on other components are recorded here: the
 * render calls `staticMove` go to `Parchis.slotLog`, the messages handed to
 * `notifyRemotes` to `Parchis.outbox`, and the values passed to a player's
 * `onRollDices` callback to `Player.rollReports`.
 */
module Game {
  import opened Wrappers
  import opened JsCollections
  import opened Occupancy
  import opened Dice
  import Protocol

  /** The errors `movePiece`, `addPlayer` and `removePlayer` throw. */
  datatype GameError =
    | UnknownPlayer(playerId: int)
    | UnknownPiece(playerId: int, pieceId: int)
    | PlayerExists(playerId: int)
    | PlayerDoesNotExist(playerId: int)

  /** `PlayerInterface.type`, one value per concrete player class. */
  datatype PlayerType = Local | Robot | RemotePlayer | RemoteRobot

  /** A value passed to `onRollDices`: `[null, null]` while rolling, then the two dice. */
  datatype DiceReport = Rolling | Rolled(first: DiceValue, second: DiceValue)

  /** The players whose own moves are sent to the other peers. */
  predicate Broadcasts(kind: PlayerType) {
    kind == Local || kind == Robot
  }

  /** The exception `movePiece` throws on table `t`, if any. */
  function MoveError(t: Table, playerId: int, pieceId: int): Option<GameError> {
    if !Has(t, playerId) then Some(UnknownPlayer(playerId))
    else if !Has(Get(t, playerId).value, pieceId) then Some(UnknownPiece(playerId, pieceId))
    else None
  }

  /** `RollDice`: `Math.floor(random * 6) + 1`, for `random` drawn from [0, 1). */
  function RollDice(random: real): (v: int)
    requires 0.0 <= random < 1.0
    ensures 1 <= v <= 6
  {
    (random * 6.0).Floor + 1
  }

  /** Every face can come up: some draw from [0, 1) yields each value. */
  lemma RollDiceCoversAllFaces(v: DiceValue)
    ensures 0.0 <= (v - 1) as real / 6.0 < 1.0 && RollDice((v - 1) as real / 6.0) == v
  {
    var random := (v - 1) as real / 6.0;
    assert random * 6.0 == (v - 1) as real;
  }

  class Parchis {
    var players: Entries<int, Player>
    var slotLog: seq<SlotCall>
    var outbox: seq<Protocol.RemoteMessage>

    ghost function Repr(): set<Player>
      reads this`players
    {
      Owners(players)
    }

    ghost predicate Valid()
      reads this`players, Repr()`pieces
    {
      && DistinctKeys(players)
      && (forall i :: 0 <= i < |players| ==> players[i].1.playerId == players[i].0)
      && (forall i :: 0 <= i < |players| ==> DistinctKeys(players[i].1.pieces))
    }

    /** The player ids with each player's piece map, in insertion order. */
    function PieceTable(): (t: Table)
      reads this`players, Repr()`pieces
      ensures |t| == |players| && Keys(t) == Keys(players)
      ensures Valid() ==> WellFormed(t)
    {
      TableOf(players)
    }

    /** The `allPlayers` getter: the players in insertion order. */
    function AllPlayers(): (all: seq<Player>)
      reads this`players
      ensures |all| == |players| && forall i :: 0 <= i < |all| ==> all[i] == players[i].1
    {
      Values(players)
    }

    /** The `allPieces` getter: every piece of every player, each tagged with its owner. */
    function AllPieces(): (all: seq<PieceRef>)
      reads this`players, Repr()`pieces
      ensures forall r :: r in all ==> Has(players, r.playerId)
    {
      var t := PieceTable();
      assert forall r :: r in Occupancy.AllPieces(t) ==> Has(players, r.playerId) by {
        forall r | r in Occupancy.AllPieces(t) ensures Has(players, r.playerId) {
          AllPiecesOwners(t, r);
        }
      }
      Occupancy.AllPieces(t)
    }

    constructor ()
      ensures Valid()
      ensures players == [] && slotLog == [] && outbox == []
    {
      players, slotLog, outbox := [], [], [];
    }

    /**
     * `movePiece`: throws when the player or its piece is missing and then
     * changes nothing; otherwise lays out the destination square (occupants
     * first, the mover last), sets the piece's square and returns no extra moves.
     */
    method MovePiece(playerId: int, pieceId: int, newPosition: int, animate: bool)
      returns (r: Result<seq<int>, GameError>)
      requires Valid()
      modifies this`slotLog, Repr()`pieces
      ensures Valid() && players == old(players) && outbox == old(outbox)
      ensures r.Failure? <==> MoveError(old(PieceTable()), playerId, pieceId).Some?
      ensures r.Failure? ==> r.error == MoveError(old(PieceTable()), playerId, pieceId).value
      ensures r.Failure? ==> PieceTable() == old(PieceTable()) && slotLog == old(slotLog)
      ensures r.Success? ==>
        && r.value == []
        && PieceTable() == MoveInTable(old(PieceTable()), playerId, pieceId, newPosition)
        && AllPieces() == MovedPieces(old(AllPieces()), playerId, pieceId, newPosition)
        && slotLog == old(slotLog) + SlotCalls(old(AllPieces()), playerId, pieceId, newPosition)
    {
      ghost var table, all := PieceTable(), AllPieces();
      var pi := FirstIndex(Keys(players), playerId);
      if pi < 0 {
        return Failure(UnknownPlayer(playerId));
      }
      var player := players[pi].1;
      assert Get(PieceTable(), playerId).value == player.pieces;
      if !Has(player.pieces, pieceId) {
        return Failure(UnknownPiece(playerId, pieceId));
      }

      var piecesAtPosition := Occupants(AllPieces(), playerId, pieceId, newPosition);
      var piecesCount := |piecesAtPosition| + 1;
      LayOutOccupants(piecesAtPosition, newPosition);
      slotLog := slotLog + [StaticMove(playerId, pieceId, newPosition, piecesCount, |piecesAtPosition|)];

      assert players[pi].0 == Keys(players)[pi] == playerId;
      assert PieceTable() == table && AllPieces() == all;
      SetSquare(player, pi, pieceId, newPosition);
      r := Success([]);
    }

    /** `piece.position = newPosition` on piece `pieceId` of the player at index `pi` of the map. */
    method SetSquare(player: Player, pi: int, pieceId: int, newPosition: int)
      requires Valid() && 0 <= pi < |players| && players[pi].1 == player && Has(player.pieces, pieceId)
      modifies player`pieces
      ensures Valid() && players == old(players)
      ensures Has(old(PieceTable()), players[pi].0)
      ensures PieceTable() == MoveInTable(old(PieceTable()), players[pi].0, pieceId, newPosition)
      ensures AllPieces() == MovedPieces(old(AllPieces()), players[pi].0, pieceId, newPosition)
    {
      var playerId := players[pi].0;
      ghost var before := PieceTable();
      assert before[pi] == (playerId, player.pieces);
      assert forall i :: 0 <= i < |players| && i != pi ==> players[i].1 != player by {
        forall i | 0 <= i < |players| && i != pi
          ensures players[i].1 != player
        {
          assert Keys(players)[i] == players[i].0 && Keys(players)[pi] == players[pi].0;
        }
      }
      ghost var oldPieces := player.pieces;
      player.pieces := Set(player.pieces, pieceId, newPosition);

      assert PieceTable() == before[pi := (playerId, player.pieces)];
      assert PieceTable() == MoveInTable(before, playerId, pieceId, newPosition) by {
        assert Keys(before)[pi] == playerId;
        FirstIndexOfDistinct(Keys(before), pi);
        SetExisting(before, pi, player.pieces);
      }
      assert AllPieces() == MovedPieces(Occupancy.AllPieces(before), playerId, pieceId, newPosition) by {
        MoveInTableMovesOnePiece(before, playerId, pieceId, newPosition);
      }
      assert Valid() by {
        SetKeys(oldPieces, pieceId, newPosition);
      }
    }

    /**
     * The `forEach` over `piecesAtPosition`: occupant number `index` of `k`
     * gets `staticMove(square, k + 1, index)`, in order.
     */
    method LayOutOccupants(piecesAtPosition: seq<PieceRef>, newPosition: int)
      modifies this`slotLog
      ensures slotLog == old(slotLog) + OccupantCalls(piecesAtPosition, newPosition)
    {
      var piecesCount := |piecesAtPosition| + 1;
      var index := 0;
      while index < |piecesAtPosition|
        invariant 0 <= index <= |piecesAtPosition|
        invariant slotLog == old(slotLog) + OccupantCalls(piecesAtPosition, newPosition)[..index]
      {
        var piece := piecesAtPosition[index];
        slotLog := slotLog + [StaticMove(piece.playerId, piece.pieceId, newPosition, piecesCount, index)];
        index := index + 1;
      }
      assert OccupantCalls(piecesAtPosition, newPosition)[..index] == OccupantCalls(piecesAtPosition, newPosition);
    }

    /** `addPlayer`: throws on a player id already present, otherwise adds that one entry last. */
    method AddPlayer(player: Player) returns (r: Result<(), GameError>)
      requires Valid() && DistinctKeys(player.pieces)
      modifies this`players
      ensures Valid()
      ensures Has(old(players), player.playerId) ==>
                r == Failure(PlayerExists(player.playerId)) && players == old(players)
      ensures !Has(old(players), player.playerId) ==>
                r == Success(()) && players == old(players) + [(player.playerId, player)]
                && PieceTable() == old(PieceTable()) + [(player.playerId, player.pieces)]
    {
      if Has(players, player.playerId) {
        return Failure(PlayerExists(player.playerId));
      }
      SetKeys(players, player.playerId, player);
      players := Set(players, player.playerId, player);
      r := Success(());
    }

    /** `removePlayer`: throws on a missing player id, otherwise deletes exactly that entry. */
    method RemovePlayer(playerId: int) returns (r: Result<(), GameError>)
      requires Valid()
      modifies this`players
      ensures Valid()
      ensures !Has(old(players), playerId) ==>
                r == Failure(PlayerDoesNotExist(playerId)) && players == old(players)
      ensures Has(old(players), playerId) ==>
                r == Success(()) && players == Delete(old(players), playerId)
                && Keys(players) == SetDelete(Keys(old(players)), playerId)
    {
      if !Has(players, playerId) {
        return Failure(PlayerDoesNotExist(playerId));
      }
      DeleteKeys(players, playerId);
      var i := FirstIndex(Keys(players), playerId);
      players := Delete(players, playerId);
      assert forall j :: 0 <= j < |players| ==> players[j] == old(players)[if j < i then j else j + 1];
      r := Success(());
    }

    /** `notifyRemotes`, called by the players; its delivery is not part of this model. */
    method NotifyRemotes(message: Protocol.RemoteMessage)
      modifies this`outbox
      ensures outbox == old(outbox) + [message]
    {
      outbox := outbox + [message];
    }
  }

  class Player {
    const kind: PlayerType
    const playerId: int
    const hostId: string
    const game: Parchis
    var pieces: Entries<int, int>
    /** Whether an `onRollDices` callback is set. */
    var onRollDices: bool
    var rollReports: seq<DiceReport>

    constructor (kind: PlayerType, playerId: int, hostId: string, game: Parchis, pieces: Entries<int, int>)
      requires DistinctKeys(pieces)
      ensures this.kind == kind && this.playerId == playerId && this.hostId == hostId
      ensures this.game == game && this.pieces == pieces
      ensures !onRollDices && rollReports == []
    {
      this.kind := kind;
      this.playerId := playerId;
      this.hostId := hostId;
      this.game := game;
      this.pieces := pieces;
      onRollDices := false;
      rollReports := [];
    }

    /** `canDiceRoll`: every player may roll at any time. */
    function CanDiceRoll(): (can: bool)
      ensures can
    {
      true
    }

    /**
     * `triggerDiceRoll`: nothing without a callback; otherwise reports
     * "rolling" and then two dice drawn from the two random numbers.
     */
    method TriggerDiceRoll(random1: real, random2: real)
      requires 0.0 <= random1 < 1.0 && 0.0 <= random2 < 1.0
      modifies this`rollReports
      ensures rollReports == old(rollReports) +
        if onRollDices then [Rolling, Rolled(RollDice(random1), RollDice(random2))] else []
    {
      if !onRollDices {
        return;
      }
      rollReports := rollReports + [Rolling];
      rollReports := rollReports + [Rolled(RollDice(random1), RollDice(random2))];
    }

    /**
     * `movePiece`: every kind of player applies the move to the game; local and
     * robot players then send one `move` message, remote players send nothing,
     * so a move received from a peer is never sent back out.  When the game
     * throws, nothing is sent.
     */
    method MovePiece(pieceId: int, newPosition: int, animate: bool) returns (r: Result<(), GameError>)
      requires game.Valid()
      modifies game`slotLog, game`outbox, game.Repr()`pieces
      ensures game.Valid() && game.players == old(game.players)
      ensures r.Failure? <==> MoveError(old(game.PieceTable()), playerId, pieceId).Some?
      ensures r.Failure? ==>
                && r.error == MoveError(old(game.PieceTable()), playerId, pieceId).value
                && game.PieceTable() == old(game.PieceTable()) && game.slotLog == old(game.slotLog)
      ensures r.Success? ==>
                && game.PieceTable() == MoveInTable(old(game.PieceTable()), playerId, pieceId, newPosition)
                && game.slotLog == old(game.slotLog) + SlotCalls(old(game.AllPieces()), playerId, pieceId, newPosition)
      ensures game.outbox == old(game.outbox) +
        if r.Success? && Broadcasts(kind) then [Protocol.Move(playerId, pieceId, newPosition, animate)] else []
    {
      var moved := game.MovePiece(playerId, pieceId, newPosition, animate);
      if moved.Failure? {
        return Failure(moved.error);
      }
      if Broadcasts(kind) {
        game.NotifyRemotes(Protocol.Move(playerId, pieceId, newPosition, animate));
      }
      r := Success(());
    }
  }

  /** The player objects of a players map. */
  ghost function Owners(players: Entries<int, Player>): set<Player> {
    set i | 0 <= i < |players| :: players[i].1
  }

  /** Each player's id with its piece map, in the order of `players`. */
  function TableOf(players: Entries<int, Player>): (t: Table)
    reads Owners(players)`pieces
    ensures |t| == |players|
    ensures forall i :: 0 <= i < |players| ==> t[i] == (players[i].0, players[i].1.pieces)
  {
    if players == [] then []
    else
      assert Owners(players[1..]) <= Owners(players) by {
        forall p | p in Owners(players[1..]) ensures p in Owners(players) {
          var i :| 0 <= i < |players[1..]| && players[1..][i].1 == p;
          assert players[i + 1].1 == p;
        }
      }
      [(players[0].0, players[0].1.pieces)] + TableOf(players[1..])
  }

  /** The starting square of a piece: `playerId * 1000 + pieceId`. */
  function HomeSquare(playerId: int, pieceId: int): int {
    playerId * 1000 + pieceId
  }

  /** The four pieces a new seat starts with, each on its home square. */
  function HomePieces(playerId: int): (pieces: Entries<int, int>)
    ensures DistinctKeys(pieces) && Keys(pieces) == [1, 2, 3, 4]
    ensures forall i :: 0 <= i < |pieces| ==> pieces[i].1 == HomeSquare(playerId, pieces[i].0)
  {
    [(1, HomeSquare(playerId, 1)), (2, HomeSquare(playerId, 2)),
     (3, HomeSquare(playerId, 3)), (4, HomeSquare(playerId, 4))]
  }

  /** No two pieces start on the same square, whichever seats they belong to. */
  lemma HomeSquaresDistinct(p1: int, k1: int, p2: int, k2: int)
    requires 1 <= k1 <= 4 && 1 <= k2 <= 4
    ensures HomeSquare(p1, k1) == HomeSquare(p2, k2) ==> p1 == p2 && k1 == k2
  {
  }
}
