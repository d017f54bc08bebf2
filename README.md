# Parchis core, modelled in Dafny

This project models the game logic of a browser Parchis (ludo) game, in which
players on different machines connect to each other by copying and pasting
connection strings. It covers:

- the game state `Parchis`. It is a map from player id to player, and each
  player holds a map from piece id to the square the piece stands on.
- `movePiece`, which lays out every piece on the destination square.
  Occupants get render slots 0..k-1, the mover gets slot k, and every slot
  call carries the count k+1.
- how local, robot and remote players dispatch a move. Local and robot players
  send one `move` message to the peers; remote players send nothing back.
- the dice roll.
- the subscribable stores, both the plain one and the copy-on-write map store
  that caches its keys and values.
- the wire messages exchanged between peers.
- the cyclic walk a piece sprite takes round the track.
- the dice face tables.
- the text framing of the connection strings. That is UTF-8 (section 3 of RFC
  3629), then base 64 (section 4 of RFC 4648), between triple-backtick fences.

Module layout:

| module | file | models |
|---|---|---|
| `Wrappers` | wrappers.dfy | `Option` and `Result` |
| `JsCollections` | js_collections.dfy | JavaScript `Map` and `Set`, in insertion order |
| `Occupancy` | occupancy.dfy | the pure specification of `movePiece` over the piece table |
| `Game` | game.dfy | classes `Parchis` and `Player`, the dice roll, home squares |
| `Protocol` | protocol.dfy | `RemoteMessage` and the `ParchisState` snapshot |
| `Store` | store.dfy | `getStore` and `getMapStore` |
| `PieceWalk` | piece_walk.dfy | `Piece.animateMove` |
| `Dice` | dice.dfy | `DiceValue`, the pip grids, `SideValues`, `faceRotations`, `nextClosest` |
| `Utf8` | utf8.dfy | the platform's `TextEncoder` and `TextDecoder` |
| `Base64` | base64.dfy | the platform's `btoa` and `atob` |
| `Signalling` | signalling.dfy | `toBase64`, `fromBase64`, and the fence wrap and strip |

Effects on other components are recorded as state:

- The render call `staticMove(square, count, index)` appends a `SlotCall` to
  `Parchis.slotLog`.
- `notifyRemotes` appends the message to `Parchis.outbox`.
- Values passed to a player's `onRollDices` callback are appended to
  `Player.rollReports`.
- Each callback call made by `notify` is appended to `Store.calls`.
- The gsap animation timeline of `animateMove` becomes the list of track
  indices it visits.

The identity of the map object in `getMapStore`, which the source compares
with `Object.is`, is a version number that grows with every new map.

## Model

| member | source | states |
|---|---|---|
| Game.Parchis.constructor | src/ts/Parchis.ts:7-17 | a new game has no players, no slot calls and no outgoing messages |
| Game.Parchis.PieceTable | src/ts/Parchis.ts:7-13 | the per-player piece table has the same player ids in the same order as the players map, and has no repeated keys |
| Game.Parchis.AllPlayers | src/ts/Parchis.ts:8-10 | `allPlayers` yields the players in the map's insertion order, one per entry |
| Game.Parchis.AllPieces | src/ts/Parchis.ts:11-13 | every piece `allPieces` yields belongs to a player present in the map |
| Game.Parchis.MovePiece | src/ts/Parchis.ts:19-49 | throws exactly when the player, or that player's piece, is missing, with the matching error, and then changes nothing; otherwise the table is the old one with only that piece moved; the slot calls are those of `Occupancy.SlotCalls`; the players, the outbox and the invariant are kept; returns an empty list |
| Game.Parchis.LayOutOccupants | src/ts/Parchis.ts:38-42 | the loop gives occupant number i of k the call `staticMove(square, k+1, i)`, in order, and nothing else |
| Game.Parchis.SetSquare | src/ts/Parchis.ts:46 | the piece update keeps the players and the invariant, moves exactly that piece in the table and in `allPieces` |
| Game.Parchis.AddPlayer | src/ts/Parchis.ts:51-56 | on an existing id: fails with `PlayerExists` and changes nothing; otherwise appends exactly that entry, and its pieces, at the end |
| Game.Parchis.RemovePlayer | src/ts/Parchis.ts:57-62 | on a missing id: fails with `PlayerDoesNotExist` and changes nothing; otherwise removes exactly that entry and keeps the other ids in order |
| Game.Parchis.NotifyRemotes | src/ts/Player.ts:55-61 | the message is appended to the outbox, once |
| Game.Player.constructor | src/ts/Player.ts:14-19 | type, player id, host id, game and pieces are set from the arguments; no callback and no reports yet |
| Game.Player.CanDiceRoll | src/ts/Player.ts:38-41 | every player may always roll |
| Game.Player.TriggerDiceRoll | src/ts/Player.ts:22-36 | with no callback nothing is reported; otherwise exactly "rolling" is reported, then the two dice drawn from the two random numbers |
| Game.Player.MovePiece | src/ts/Player.ts:53-98 | the move is applied to the game with the same outcome as `Parchis.movePiece`; on success local and robot players append exactly one `move` message with the same four fields; remote players append none; a rejected move sends nothing |
| Game.RollDice | src/ts/Player.ts:101-103 | a draw from [0, 1) gives a value in 1..6 |
| Game.RollDiceCoversAllFaces | src/ts/Player.ts:101-103 | each value 1..6 is produced by some draw from [0, 1) |
| Game.HomePieces | src/components/Player/AddPlayerDialog.tsx:23-28 | a new seat has pieces 1..4, with no repeated id, and each piece stands on its own home square `playerId*1000 + pieceId` |
| Game.HomeSquaresDistinct | src/components/Player/AddPlayerDialog.tsx:23-28 | no two pieces of any seats start on the same square `playerId*1000 + pieceId` |
| Occupancy.Occupants | src/ts/Parchis.ts:32-35 | `piecesAtPosition` holds exactly the pieces on the square other than the mover, in `allPieces` order |
| Occupancy.SlotCallsLayout | src/ts/Parchis.ts:32-45 | k+1 calls, all for the destination and all with count k+1; call i has index i, so indices are 0..k without gaps; the first k go to the occupants in order, the last to the mover |
| Occupancy.SlotCallsOnlyAtDestination | src/ts/Parchis.ts:32-45 | every call goes to the mover or to a piece already on the destination; pieces left on the source square get no call |
| Occupancy.SharedSquareExample | src/ts/Parchis.ts:32-46 | two pieces share square 5; when one leaves, only the mover is laid out and the piece left behind keeps its old slot |
| Occupancy.OccupantsIgnoreMover | src/ts/Parchis.ts:33 | moving the piece does not change the occupants of its destination |
| Occupancy.MoveIsIdempotent | src/ts/Parchis.ts:32-46 | repeating a move yields the same positions and the same slot calls |
| Occupancy.MoveInTableSetsOneSquare | src/ts/Parchis.ts:40-46 | after the update the moved piece is on the new square and every other piece of every player reads as before |
| Occupancy.MoveInTableMovesOnePiece | src/ts/Parchis.ts:11-13 | updating the table agrees with moving that one piece in the `allPieces` list |
| Occupancy.AllPiecesOwners | src/ts/Parchis.ts:11-13 | every piece in `allPieces` belongs to a player of the table |
| JsCollections.FirstIndex | src/ts/Parchis.ts:20 | the first position of a key, or -1 exactly when it is absent |
| JsCollections.SetGet | src/ts/Store.ts:53-57 | after `set(k, v)`, `get(k)` is v and every other key reads as before |
| JsCollections.SetKeys | src/ts/Parchis.ts:55 | `set` keeps the key order, appends a new key last, and never repeats a key |
| JsCollections.DeleteGet | src/ts/Store.ts:58-62 | after `delete(k)`, `get(k)` is undefined and every other key reads as before |
| JsCollections.DeleteKeys | src/ts/Parchis.ts:61 | `delete` removes exactly that key; the other keys stay, in order |
| JsCollections.KeysValuesAgree | src/ts/Store.ts:43-49 | keys and values have the length of the map and pair up entry by entry |
| JsCollections.SetAddMembers | src/ts/Store.ts:6 | `Set.add` adds the member once and keeps the set free of repeats |
| JsCollections.SetDeleteMembers | src/ts/Store.ts:8 | `Set.delete` removes that member only, keeps every other member, and keeps the set free of repeats |
| JsCollections.SetDeleteOrder | src/ts/Store.ts:8 | `Set.delete` of an absent member changes nothing; of a present one, it shortens the set by one, and putting the member back at its old position gives the old set, so the others keep their order |
| JsCollections.CountDistinct | src/ts/Store.ts:2 | in a set, a member occurs once and a non-member never |
| Store.Store.constructor | src/ts/Store.ts:1-2 | a new store has no subscribers and has made no calls |
| Store.Store.Subscribe | src/ts/Store.ts:5-10 | the callback joins the set, which has no repeats; the returned remover is for that callback |
| Store.Store.Unsubscribe | src/ts/Store.ts:7-9 | the remover deletes exactly its callback from the set |
| Store.Store.Notify | src/ts/Store.ts:12-14 | calls every subscriber, in the set's order, and nothing else |
| Store.NotifyCallsEachOnce | src/ts/Store.ts:12-14 | one `notify` calls a subscribed callback exactly once and any other callback never |
| Store.UnsubscribeStopsCalls | src/ts/Store.ts:5-10 | after subscribing and then calling the remover, `notify` no longer calls that callback, and the other subscribers are kept |
| Store.MapStore.constructor | src/ts/Store.ts:35-42 | the store holds the initial map, has a valid cache and no subscribers |
| Store.MapStore.Get | src/ts/Store.ts:64-66 | a value exactly when the key is present, and that value is the one stored under it |
| Store.MapStore.Set | src/ts/Store.ts:53-57 | installs a new map (a new version) with the key set, and notifies exactly once |
| Store.MapStore.Delete | src/ts/Store.ts:58-62 | installs a new map (a new version) without the key, and notifies exactly once |
| Store.MapStore.SetMap | src/ts/Store.ts:80-83 | the caller's map replaces the whole map, with a new version; notifies exactly once |
| Store.MapStore.RefreshCache | src/ts/Store.ts:43-49 | afterwards the cache belongs to the current map; with no change since the last refresh, nothing is touched |
| Store.MapStore.Keys | src/ts/Store.ts:74-78 | the current keys in insertion order, from the cache; nothing changes when the map has not changed |
| Store.MapStore.Values | src/ts/Store.ts:68-72 | the current values in insertion order, from the cache; nothing changes when the map has not changed |
| Protocol.TypeTag | src/ts/remote/Connection.ts:13-39 | every message carries one of the four `type` tags |
| Protocol.TypeTagIdentifiesVariant | src/ts/remote/Connection.ts:13-39 | two messages share a tag exactly when they are the same variant |
| Protocol.DiceResultInRange | src/ts/remote/Connection.ts:27-32 | both dice in a `diceResult` are in 1..6 |
| PieceWalk.Clamp | src/components/Piece.ts:99 | the target is a track index; a request in 1..L becomes its 0-based index, and requests below or above are clamped to the ends |
| PieceWalk.Step | src/components/Piece.ts:104-105 | a step goes to the next index, or back to 0 from the last one |
| PieceWalk.Distance | src/components/Piece.ts:103-105 | the forward distance between two indices is `(target - i) mod L` |
| PieceWalk.Walk | src/components/Piece.ts:103-113 | every visited index is on the track; nothing is visited exactly when the piece is already there; the last index visited is the target |
| PieceWalk.WalkLength | src/components/Piece.ts:100-113 | from a track index, the walk takes `(target - start) mod L` steps |
| PieceWalk.WalkSteps | src/components/Piece.ts:103-106 | the first index is one past the start, and each further one is one past the previous, modulo L |
| PieceWalk.Piece.constructor | src/components/Piece.ts:42-43 | the piece starts on the given position |
| PieceWalk.Piece.AnimateMove | src/components/Piece.ts:98-117 | the loop queues exactly the walk from the old position to the clamped target, and leaves the piece on that target |
| PieceWalk.ClampReal | src/components/Piece.ts:99 | the clamp as written on a non-integer request stays within [0, L) |
| PieceWalk.NonIntegerTargetIsNeverReached | src/components/Piece.ts:85-105 | with the request 2.5 the target is 1.5, which no integer loop index equals |
| PieceWalk.Truncate | src/components/PixiPiece.ts:83 | on a plain decimal numeral, `parseInt` keeps the integer part, rounding toward zero |
| PieceWalk.ClampParsed | src/components/PixiPiece.ts:81-88 | a parsed request gives a track index that agrees with the clamp as written on that integer |
| Dice.Opposite | src/components/Dice/Dice.tsx:93-100 | no face is its own opposite |
| Dice.OppositeSidesSumToSeven | src/components/Dice/Dice.tsx:93-100 | front/back, right/left and top/bottom pair up, and each pair adds up to 7 |
| Dice.SideValuesInjective | src/components/Dice/Dice.tsx:93-100 | no value is on two faces |
| Dice.FaceShowing | src/components/Dice/Dice.tsx:93-100 | every value 1..6 is on some face |
| Dice.GridAreas | src/components/Dice/Dice.tsx:58-65 | each value's grid has 9 cells, of which exactly that value are dots |
| Dice.CountTrueIsDotCount | src/components/Dice/Dice.tsx:69-71 | the rendered cells count exactly the grid's dots |
| Dice.Side | src/components/Dice/Dice.tsx:56-74 | `Side` renders 9 cells, with exactly that value of them dotted |
| Dice.FaceRotation | src/components/Dice/Dice.tsx:77-84 | each value has an x and a y rotation drawn from {0, 90, 180, 270} |
| Dice.FaceRotationsDistinct | src/components/Dice/Dice.tsx:77-84 | no two values share a rotation |
| Dice.Target | src/components/Dice/Dice.tsx:86 | the target angle is in [0, 360) |
| Dice.NextClosest | src/components/Dice/Dice.tsx:85-89 | for any current angle, fractional ones included, the result is the target or the target plus 360 and is congruent to the target mod 360; for a current angle in (-360, 360) it is ahead of it, and for one in [0, 360) less than a full turn ahead |
| Utf8.EncodeChar | src/components/Player/RPCDialogs.tsx:212 | one to four bytes per character, and one byte exactly for ASCII |
| Utf8.Encode | src/components/Player/RPCDialogs.tsx:212 | between 1 and 4 bytes per character |
| Utf8.ContinuationRun | src/components/Player/RPCDialogs.tsx:219 | the run of in-range continuation bytes never exceeds what the lead byte announces, nor the input |
| Utf8.CodePoint2 | src/components/Player/RPCDialogs.tsx:219 | a two-byte sequence decodes to U+0080..U+07FF |
| Utf8.CodePoint3 | src/components/Player/RPCDialogs.tsx:219 | a three-byte sequence decodes to U+0800..U+FFFF |
| Utf8.CodePoint4 | src/components/Player/RPCDialogs.tsx:219 | a four-byte sequence decodes to U+10000..U+10FFFF |
| Utf8.DecodeOne | src/components/Player/RPCDialogs.tsx:219 | each decoder step consumes between 1 and 4 bytes, so decoding always progresses |
| Utf8.DecodeStream | src/components/Player/RPCDialogs.tsx:219 | at most one character per byte |
| Utf8.Decode | src/components/Player/RPCDialogs.tsx:219 | never fails, and yields at most one character per byte |
| Utf8.DecodeEncodedChar | src/components/Player/RPCDialogs.tsx:212-219 | decoding one character's encoding gives back that character and consumes exactly its bytes |
| Utf8.DecodeTwoByteChar | src/components/Player/RPCDialogs.tsx:212-219 | a character in U+0080..U+07FF is decoded back from its two bytes |
| Utf8.DecodeThreeByteChar | src/components/Player/RPCDialogs.tsx:212-219 | a character in U+0800..U+FFFF is decoded back from its three bytes |
| Utf8.DecodeFourByteChar | src/components/Player/RPCDialogs.tsx:212-219 | a character from U+10000 on is decoded back from its four bytes |
| Utf8.DecodeStreamEncode | src/components/Player/RPCDialogs.tsx:212-219 | the decoder stream undoes the encoder on every string |
| Utf8.DecodeEncode | src/components/Player/RPCDialogs.tsx:212-219 | `TextDecoder` undoes `TextEncoder` on every string that does not start with U+FEFF |
| Utf8.DecodeEncodeDropsByteOrderMark | src/components/Player/RPCDialogs.tsx:212-219 | a leading U+FEFF does not survive the round trip |
| Utf8.StrayByteIsReplaced | src/components/Player/RPCDialogs.tsx:219 | a byte that can neither start nor continue a sequence decodes to one U+FFFD |
| Base64.CharOf | src/components/Player/RPCDialogs.tsx:214 | every 6-bit value has a character of the alphabet |
| Base64.ValueOf | src/components/Player/RPCDialogs.tsx:217 | every alphabet character has a 6-bit value, which maps back to it |
| Base64.ValueOfCharOf | src/components/Player/RPCDialogs.tsx:214-217 | the character of a value maps back to that value |
| Base64.Sextets | src/components/Player/RPCDialogs.tsx:214 | 4 values per full 3-byte group, 2 or 3 for a final short group; all are 6-bit |
| Base64.Encode | src/components/Player/RPCDialogs.tsx:214 | the output has length `4*ceil(n/3)` and uses only the alphabet and `=` |
| Base64.RemoveAsciiWhitespace | src/components/Player/RPCDialogs.tsx:217 | no ASCII white space is left |
| Base64.BinaryString | src/components/Player/RPCDialogs.tsx:213 | one character per byte, each with a code in 0..255 |
| Base64.CharCodesBinaryString | src/components/Player/RPCDialogs.tsx:213-218 | reading back the character codes gives the bytes, byte for byte |
| Base64.Btoa | src/components/Player/RPCDialogs.tsx:214 | succeeds exactly on strings whose characters are all in 0..255 |
| Base64.Atob | src/components/Player/RPCDialogs.tsx:217 | on success, yields characters in 0..255 |
| Base64.Group3 | src/components/Player/RPCDialogs.tsx:214-217 | a full 3-byte group decodes back to its bytes |
| Base64.SplitGroup3 | src/components/Player/RPCDialogs.tsx:214 | three bytes are sent as their 24 bits cut into four 6-bit values, most significant first |
| Base64.JoinGroup3 | src/components/Player/RPCDialogs.tsx:217 | four such 6-bit values are read back as the three bytes |
| Base64.Group2 | src/components/Player/RPCDialogs.tsx:214-217 | a final 2-byte group decodes back to its bytes |
| Base64.Group1 | src/components/Player/RPCDialogs.tsx:214-217 | a final 1-byte group decodes back to its byte |
| Base64.BytesSextets | src/components/Player/RPCDialogs.tsx:214-217 | the 6-bit values of any bytes decode back to those bytes |
| Base64.RemovePaddingOfEncode | src/components/Player/RPCDialogs.tsx:214-217 | decoding strips exactly the padding that encoding added |
| Base64.DecodeEncode | src/components/Player/RPCDialogs.tsx:214-217 | base 64 decoding undoes encoding on every byte string |
| Base64.AtobBtoa | src/components/Player/RPCDialogs.tsx:213-217 | `atob(btoa(s)) = s` for every string of codes 0..255 |
| Base64.DecodeIgnoresWhitespace | src/components/Player/RPCDialogs.tsx:217 | an ASCII white-space character inserted at any position of the input does not change the result |
| Base64.DecodeRejectsForeignCharacter | src/components/Player/RPCDialogs.tsx:217 | a character that is neither in the alphabet, nor `=`, nor white space makes decoding fail wherever it stands, whatever else the input holds (white space, padding, any length) |
| Base64.AtobRejectsLoneCharacter | src/components/Player/RPCDialogs.tsx:217 | data that leaves one character over in its last group makes `atob` fail |
| Signalling.ToBase64 | src/components/Player/RPCDialogs.tsx:211-215 | the connection string has length `4*ceil(n/3)` for n UTF-8 bytes, and uses only the alphabet and `=` |
| Signalling.ToUint8Array | src/components/Player/RPCDialogs.tsx:218 | on the binary string `atob` returns, one byte per character, equal to its code |
| Signalling.FromBase64 | src/components/Player/RPCDialogs.tsx:216-220 | throws exactly when `atob` throws |
| Signalling.FromBase64ToBase64 | src/components/Player/RPCDialogs.tsx:211-220 | `fromBase64(toBase64(s)) = s` for every string not starting with U+FEFF |
| Signalling.TrimStart | src/components/Player/RPCDialogs.tsx:46 | removes exactly the leading white space |
| Signalling.TrimEnd | src/components/Player/RPCDialogs.tsx:46 | removes exactly the trailing white space |
| Signalling.TrimSurrounded | src/components/Player/RPCDialogs.tsx:46 | trimming returns the text between surrounding white space |
| Signalling.RemoveFences | src/components/Player/RPCDialogs.tsx:46 | the result is the text with one leading fence cut off exactly when it starts with one, and then one trailing fence cut off exactly when the rest ends with one; nothing else changes, so a text with no fence at either end is kept |
| Signalling.RemoveFencesWrapFence | src/components/Player/RPCDialogs.tsx:30-46 | removing the fences undoes wrapping in them |
| Signalling.StripFence | src/components/Player/RPCDialogs.tsx:122 | the trimmed text with one leading fence cut off exactly when it starts with one, then one trailing fence cut off exactly when the rest ends with one |
| Signalling.WrapFence | src/components/Player/RPCDialogs.tsx:30 | the copied text is the connection string plus two fences |
| Signalling.StripWrapFence | src/components/Player/RPCDialogs.tsx:46 | stripping undoes wrapping, whatever white space surrounds the pasted text |
| Signalling.ParsePasted | src/components/Player/RPCDialogs.tsx:46-55 | in the host's answer dialog, text that `fromBase64` rejects is reported, and nothing is parsed; otherwise the decoded text goes to `JSON.parse`, and its result is the outcome, so valid base 64 that is not JSON is reported too |
| Signalling.ClientPasteAsWritten | src/components/Player/RPCDialogs.tsx:121-133 | the client's offer dialog as written: a parse on success; the alert exactly for valid base 64 that is not JSON; no report at all exactly when `fromBase64` throws, because the `catch` block calls it again |
| Signalling.ClientPaste | src/components/Player/RPCDialogs.tsx:121-133 | the client's offer dialog as intended: never silent; the alert exactly when the paste does not parse, and otherwise the parsed value |
| Signalling.TruncatedClientPasteIsNotReported | src/components/Player/RPCDialogs.tsx:128-131 | a fenced paste with a lone trailing base 64 character gets no report from the client as written, and the alert from the corrected handler |
| Signalling.CopyPasteRoundTrip | src/components/Player/RPCDialogs.tsx:27-50 | the peer that pastes the copied text parses exactly the JSON text that was copied |
| Signalling.TruncatedPasteIsRejected | src/components/Player/RPCDialogs.tsx:48-55 | a pasted string with a lone trailing base 64 character is reported, not parsed |

## Left out

- `Connection_Instance` (src/ts/remote/Connection.ts:3-11) declares only
  signatures. Sending and receiving are not part of this model. The message
  datatypes are.
- `notifyRemotes` is called by the players but is not defined in
  src/ts/Parchis.ts. It is modelled only as an append to `outbox`; delivery
  to the peers is not part of this model.
- Piece objects (`PixiPiece`) are reduced to their square, inside their
  owner's piece map. The `playerId` of a piece is taken to be its owner's key,
  and its `pieceId` to be its own key in that piece map. The filter in
  `movePiece` (src/ts/Parchis.ts:33) compares the fields, and the model
  compares the keys, so the model assumes the two agree. The descriptors at
  src/components/Player/AddPlayerDialog.tsx:23-28 give each piece its id.
  `Parchis.setPlayer`, which would store them, is not part of this model.
- `Player.pieces` is `readonly` as a reference only. Positions inside it
  change, so the model's `pieces` is a `var`; the other readonly fields are
  `const`.
- `Math.random()` is a `real` parameter in [0, 1) of `RollDice` and
  `TriggerDiceRoll`. The one-second `setTimeout` between the two reports is
  dropped, and the reports are recorded in order.
- The `window.parchis` debug registration of robot players (src/ts/Player.ts:82-86)
  is left out, and so is the console logging.
- `Parchis.setApp`, rendering, sprites, gsap tweening, sound and the React
  components are left out. The animation timeline of `animateMove` is its
  list of visited track indices.
- `Parchis.movePiece` does not re-lay-out the square the piece leaves. The
  model follows the code, so the pieces left behind keep their old slots
  (`Occupancy.SharedSquareExample`).
- `JSON.parse` and `JSON.stringify` are not modelled. The parser is a
  parameter of `Signalling.ParsePasted`, and the round trip starts from the
  JSON text.
- `TextEncoder` replaces a lone surrogate with U+FFFD. Dafny strings hold
  Unicode scalar values and cannot contain lone surrogates, so that case is
  not modelled.
- Signalling.FromBase64ToBase64: requires that the text does not start with
  U+FEFF, because `TextDecoder` drops a leading byte order mark. JSON text
  from `JSON.stringify` of an object starts with `{`.
- `String.fromCharCode(...utf8Bytes)` has an engine limit on the number of
  spread arguments. The model has no such limit.
- A `NaN` request to `animateMove` (for example the prompt answer "abc") is
  not modelled: requests are integers, and non-integers are covered by the
  finding below.
- The piece's home position from its constructor is taken as a plain index.
  The sprite coordinates it is drawn at are left out.
- Store.MapStore.SetMap: always installs a new version, even when the
  caller passes the current map object itself. The source then keeps the
  cache, so the model refreshes the cache where the source would not. The
  result is the same.
- Aliasing is not modelled: maps are values, so the caller's map cannot be
  mutated after `setMap`. For the same reason a snapshot taken before `set`
  or `delete` is unchanged by them, as it is in the source, where they build
  a fresh map.
- Callbacks are identities, and calling one is recorded, not run. A callback
  that subscribes or unsubscribes while `notify` is iterating is not modelled.
- `getSnapshot` returns the map itself (the field `entries`) and needs no
  member of its own.
- The error paths of `keys()` and `values()` that throw when the cache is
  undefined cannot be reached: the cache is set from the start, and the
  model's invariant says so.

## Findings

| source | as written | input that shows it | evidently intended | confidence | as-written member | corrected member |
|---|---|---|---|---|---|---|
| src/components/Piece.ts:85-105 | the prompt answer is passed to `animateMove` through `Number`, and the clamp keeps its fraction; the loop index is always an integer, so `i != newPos` never becomes false and the loop does not end | the answer "2.5" on a track of length at least 3: the target is 1.5 (a non-numeric answer such as "abc" hangs the loop too, since `Number` gives NaN, which the clamp keeps and no index equals; NaN is outside the model) | parse the answer to an integer first, as src/components/PixiPiece.ts:83 does with `parseInt` | not executed | PieceWalk.NonIntegerTargetIsNeverReached | PieceWalk.ClampParsed |
| src/components/Player/RPCDialogs.tsx:128-131 | when parsing the pasted offer fails, the `catch` block calls `fromBase64(offer)` again for its log line; on text that is not valid base 64 that call throws too, so the alert at :131 is never shown and the async handler rejects silently (the `RTC_Client` of :124 has already been created) | the fenced paste of any alphabet string of length 1 mod 4, such as a copied offer cut short by one character | report every failed parse with the alert, as the host dialog does at :48-55 | not executed | Signalling.TruncatedClientPasteIsNotReported | Signalling.ClientPaste |
