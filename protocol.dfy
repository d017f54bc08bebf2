/**
 * The messages peers exchange over a connection (src/ts/remote/Connection.ts):
 * a tagged union of four variants and the full-state snapshot the `state`
 * variant carries.
 */
module Protocol {
  import opened Dice

  datatype PieceState = PieceState(pieceId: int, position: int)

  /** `PlayerState.type`: `"robot" | "player"`. */
  datatype SeatKind = Robot | Human

  datatype PlayerState = PlayerState(playerId: int, hostId: string, kind: SeatKind, pieces: seq<PieceState>)

  /** The snapshot of the whole game: the players in order. */
  datatype ParchisState = ParchisState(players: seq<PlayerState>)

  /** `RemoteMessage = MoveMessage | DiceRequestMessage | DiceResultMessage | StateMessage`. */
  datatype RemoteMessage =
    | Move(playerId: int, pieceId: int, newPosition: int, animate: bool)
    | DiceRequest(playerId: int, requesteeId: int)
    | DiceResult(playerId: int, result: (DiceValue, DiceValue))
    | State(state: ParchisState)

  /** The `type` discriminator each variant carries on the wire. */
  function TypeTag(m: RemoteMessage): (tag: string)
    ensures tag in {"move", "diceRequest", "diceResult", "state"}
  {
    match m
    case Move(_, _, _, _) => "move"
    case DiceRequest(_, _) => "diceRequest"
    case DiceResult(_, _) => "diceResult"
    case State(_) => "state"
  }

  /** The tag tells the variants apart: two messages share a tag exactly when they are the same variant. */
  lemma TypeTagIdentifiesVariant(a: RemoteMessage, b: RemoteMessage)
    ensures TypeTag(a) == TypeTag(b) <==>
      (a.Move? && b.Move?) || (a.DiceRequest? && b.DiceRequest?) ||
      (a.DiceResult? && b.DiceResult?) || (a.State? && b.State?)
  {
  }

  /** Both dice in a `diceResult` are in 1..6. */
  lemma DiceResultInRange(m: RemoteMessage)
    requires m.DiceResult?
    ensures 1 <= m.result.0 <= 6 && 1 <= m.result.1 <= 6
  {
  }
}
