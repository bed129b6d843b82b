# A2S query responder: verified model

This project models a small stand-in for a Source-engine game server that answers two
Steam server queries over UDP, A2S_INFO ("who are you") and A2S_PLAYER ("who is playing").
Both queries go through a challenge handshake:

1. A client's first request gets no data. Instead the server draws a random `i32`,
   stores it against the client's socket address, and sends back the nine-byte
   challenge reply `FF FF FF FF 41` followed by the number in little-endian order.
2. The client repeats the request with that number. The server checks it against the
   stored entry and removes the entry whether or not it matched.
3. Only when the number matched does the server send the real reply. For A2S_INFO that
   is a fixed server identity ("Gmod Server", map "gm_construct", 32 of 128 players,
   and so on). For A2S_PLAYER it is a list of 32 synthetic players, "Player1" through
   "Player32".

The model is split into modules:

- `Bytes` (`bytes.dfy`): the wire primitives.
  - The byte and integer types.
  - Little-endian encoding of `i16`, `i32` and `u64`, with two's complement written out.
  - NUL-terminated strings, together with the first-NUL search the info handler uses.
  - The decimal spelling of `format!("{}", n)`.
- `Challenge` (`challenge.dfy`): the challenge store.
  - The process-wide `HashMap` is modelled as class `ChallengeStore`, with a `map` field
    that its methods `GenerateChallenge` and `IsChallengeValid` update in place.
  - Each method is specified by a pure function, `Issue` or `Consume`.
  - The single-use handshake is proved about those functions over whole sequences of
    store operations.
- `Server` (`server.dfy`): what both handlers share.
  - The constants `SERVER_CURRENT_PLAYERS = 32` and `SERVER_MAX_PLAYERS = 128`.
  - The observable outcome of one datagram: nothing, one reply, or a panic.
- `Info` (`info.dfy`): A2S_INFO.
  - The payload parser.
  - The reply's fields, encoder and decoder, with a proved round trip.
  - The step-by-step builder `CreateInfoResponse`, proved equal to the encoder applied to
    this server's constants.
  - The handler `HandleInfo`, proved equal to the step function `InfoStep`, and the
    handshake properties of that function.
- `Players` (`players.dfy`): A2S_PLAYER.
  - The record encoder and decoder, with a proved round trip.
  - The loop `BuildPlayersResponse`, proved equal to the encoder applied to the
    synthetic player list.
  - The handler `HandlePlayers`, proved equal to `PlayersStep`, and its properties.

Each handler takes the store and the random number the generator would draw. It returns
the outcome and updates the store. Its contract ties both the outcome and the new store
to a pure step function.

With an A2S_INFO payload that contains no NUL byte at all, the code's `expect`
(src/info.rs:53) panics. In that case the model's outcome is `Panicked`, and the store
is left unchanged (`Info.InfoNoNulPanics`).

## Model

| member | source | states |
|---|---|---|
| Bytes.ToLeFromLe | src/challenge.rs:16 | Little-endian encoding of a byte string's value gives the byte string back. |
| Bytes.FromLeInjective | src/challenge.rs:16 | Two byte strings of the same length with the same little-endian value are equal. |
| Bytes.Unwrap | src/players.rs:21 | Reading an unsigned value back as two's complement lands in range, and wrapping it again gives the same unsigned value. |
| Bytes.WrapInjective | src/players.rs:21 | Two's-complement wrapping is injective on the signed range. |
| Bytes.I16RoundTrip | src/info.rs:139 | `i16` `to_le_bytes` and `from_le_bytes` are inverses in both directions. |
| Bytes.I32RoundTrip | src/challenge.rs:16 | `i32` `to_le_bytes` and `from_le_bytes` are inverses in both directions. |
| Bytes.U64RoundTrip | src/info.rs:150-152 | `u64` little-endian encoding and decoding are inverses in both directions. |
| Bytes.CStr | src/info.rs:135 | `to_bytes_with_nul` is the string's bytes followed by exactly one NUL. |
| Bytes.FindNul | src/info.rs:53 | The first-NUL search returns None exactly when there is no NUL. Otherwise it returns the position of a NUL with none before it. |
| Bytes.FindNulOfCStr | src/info.rs:53 | In a C string followed by anything, the first NUL is the string's terminator. |
| Bytes.ReadCStr | src/info.rs:53-55 | Splitting at the first NUL gives a NUL-free string and a rest that rebuild the input. It fails exactly when there is no NUL. |
| Bytes.ReadCStrOfCStr | src/info.rs:135-138 | A C string followed by anything reads back as that string and that rest. |
| Bytes.ReadN | src/info.rs:57 | Taking n bytes succeeds exactly when there are at least n. The piece and the rest rebuild the input. |
| Bytes.DecimalRoundTrip | src/players.rs:45 | The decimal digits of n read back as n. |
| Bytes.DecimalInjective | src/players.rs:45 | Different numbers have different decimal spellings. |
| Bytes.DecimalLength | src/players.rs:45 | Numbers below 10 take one digit, and numbers from 10 to 99 take two. |
| Bytes.DecimalNoNul | src/players.rs:45 | A decimal spelling has no NUL byte, so `CString::new` cannot fail on a player name. |
| Challenge.ChallengePacketLayout | src/challenge.rs:13-17 | The challenge reply is 9 bytes: `FF FF FF FF 41` followed by the number's 4 little-endian bytes. |
| Challenge.ChallengePacketRoundTrip | src/challenge.rs:13-17 | A client recovers the number from the reply, and only the reply for v decodes to v. |
| Challenge.Issue | src/challenge.rs:11 | After `insert`, src maps to the new number, and every other entry is unchanged. |
| Challenge.Consume | src/challenge.rs:30 | After `remove`, src has no entry, and every other entry is unchanged. |
| Challenge.MatchesIff | src/challenge.rs:25-28 | A candidate is valid exactly when src has an entry equal to it. A missing entry is never valid. |
| Challenge.IssueIsolation | src/challenge.rs:11 | Issuing to one address neither changes another address's entry nor its verdict. |
| Challenge.ConsumeIsolation | src/challenge.rs:30 | Validating one address neither changes another address's entry nor its verdict. |
| Challenge.AcceptedAtMostIssued | src/challenge.rs:20-33 | Over any run of operations, the accepted validations of an address number at most the challenges issued to it, plus one for an entry held at the start. |
| Challenge.NoAcceptWithoutIssue | src/challenge.rs:25-30 | With no entry and no new issue, no validation of that address succeeds. |
| Challenge.SingleUse | src/challenge.rs:5-33 | After v is issued to a, and after any operations on other addresses, validating v succeeds once. After that, nothing succeeds for a until a new issue. |
| Challenge.RunIsolation | src/challenge.rs:5-33 | Operations on other addresses never change an address's entry. |
| Challenge.ChallengeStore.constructor | src/main.rs:23 | The store starts empty. |
| Challenge.ChallengeStore.GenerateChallenge | src/challenge.rs:5-18 | The map becomes `Issue(old map, src, random)`, and the returned packet is the challenge reply carrying `random`. |
| Challenge.ChallengeStore.IsChallengeValid | src/challenge.rs:20-33 | The verdict is whether the old entry matched. The map becomes `Consume(old map, src)` either way. |
| Info.CodesRoundTrip | src/info.rs:20-45 | The server type codes 'd', 'l' and 'p' and the environment codes 'l', 'w' and 'm' decode back to their variants, and only their own code does. |
| Info.CodesInjective | src/info.rs:20-45 | Distinct variants have distinct codes. |
| Info.RequestPayloadSpelled | src/info.rs:67 | The expected payload is "Source Engine Query" followed by one NUL. |
| Info.ParseInfoRequest | src/info.rs:53-65 | The parse fails exactly when there is no NUL. Otherwise the payload is the prefix up to and including the first NUL, and a challenge is present exactly when 4 more bytes follow. When present, the challenge is those 4 bytes read as little-endian. |
| Info.ExtraDataFlagsExact | src/info.rs:114 | The flags byte has bit 0x80, 0x10, 0x40, 0x20 or 0x01 set exactly when the matching tail field is present, and no other bit. |
| Info.InfoFrontLength | src/info.rs:130-147 | Everything before the flags byte takes 20 bytes plus the five strings. |
| Info.ReadPortOf | src/info.rs:149 | When the flag announces a port, the port reads back. |
| Info.ReadSteamIdOf | src/info.rs:150 | When the flag announces a SteamID, the SteamID reads back. |
| Info.ReadSpectatorOf | src/info.rs:114 | When the flag announces a spectator port and name, they read back. |
| Info.ReadKeywordsOf | src/info.rs:151 | When the flag announces a tags string, the tags read back. |
| Info.ReadGameIdOf | src/info.rs:152 | When the flag announces a GameID, the GameID reads back. |
| Info.ExtraDataRoundTrip | src/info.rs:148-152 | The tail after the flags byte decodes, under that flags byte, to exactly the fields present. |
| Info.ReadIdentityOf | src/info.rs:135-138 | Name, map, folder and game read back in order. |
| Info.ReadDetailsOf | src/info.rs:139-146 | The app id, the three counts, both codes and both booleans read back in order. |
| Info.InfoResponseNested | src/info.rs:130-152 | The reply equals its pieces nested in reading order. |
| Info.InfoNestedDecodes | src/info.rs:130-152 | The nested pieces decode to the original fields. |
| Info.InfoResponseRoundTrip | src/info.rs:130-152 | A client decoding any well-formed A2S_INFO reply recovers every field exactly. |
| Info.ServerNamesSpelled | src/info.rs:99-102 | The byte constants spell "Gmod Server", "gm_construct", "garrysmod" and "Sandbox". |
| Info.ServerVersionSpelled | src/info.rs:113 | The version constant spells "2024.10.29". |
| Info.ServerTagsSpelled | src/info.rs:126 | The tags constant spells " gm:sandbox gmc:other ver:241029". |
| Info.ServerInfo | src/info.rs:95-126 | The server's identity is a well-formed set of fields: no NUL inside any string. |
| Info.ExtraDataFlagsAgree | src/info.rs:114 | The hard-coded 0xB1 is 0x80, 0x10, 0x20 and 0x01 combined, and it names exactly the tail fields the builder writes. |
| Info.EncodeWithoutSpectator | src/info.rs:148-152 | Without spectator fields, the reply is the front, then the flags, the port, the SteamID, the tags and the GameID. |
| Info.ServerInfoFront | src/info.rs:130-147 | This server's bytes before the flags are its constants, in the builder's order. |
| Info.ServerInfoPieces | src/info.rs:130-152 | This server's reply is its constants, in the builder's order. |
| Info.InfoLayout | src/info.rs:130-152 | A reply without spectator fields has the marker, 'I' and the protocol byte first, and the flags byte right after the version string. It ends with exactly the four tail fields. |
| Info.ServerInfoLayout | src/info.rs:130-152 | This server's reply is 121 bytes. It starts `FF FF FF FF 49 11`, has 0xB1 at offset 69, and continues with exactly the port, the SteamID, the tags and the GameID. |
| Info.CreateInfoResponse | src/info.rs:93-155 | Appending the fields one by one gives the encoder's reply for this server's identity. |
| Info.HandleInfo | src/info.rs:47-91 | The outcome and the new store are those of `InfoStep`: panic without a NUL, silence on a wrong payload, a challenge issued when there is no challenge, and a consume with a conditional reply otherwise. |
| Info.InfoNoNulPanics | src/info.rs:53 | A payload without any NUL panics the process and leaves the store alone. |
| Info.InfoMagicGate | src/info.rs:67-71 | Unless the payload starts with the exact query string and its NUL, the store is unchanged and nothing is sent. |
| Info.InfoProbe | src/info.rs:73-80 | The query with fewer than 4 bytes after it issues a challenge to src and sends the challenge reply. |
| Info.InfoChallenged | src/info.rs:57-65 | The query followed by a challenge c (any bytes after the 4 are ignored) consumes src's entry. It sends the info reply exactly when c equals the entry. This includes c = 0. |
| Info.InfoTwoStep | src/info.rs:73-90 | A bare query yields a 9-byte reply carrying V. Sending V back yields the info reply, and any other value yields nothing. |
| Info.InfoNoAmplification | src/info.rs:73-90 | To an address with no outstanding challenge, the handler sends at most the 9-byte challenge reply. |
| Players.PlayerPrefixSpelled | src/players.rs:45 | The name prefix is the bytes of "Player". |
| Players.EncodePlayersLength | src/players.rs:44-53 | The records take the sum of their lengths. |
| Players.EncodePlayersAppend | src/players.rs:44-53 | The encoding of a concatenated list is the concatenation of the encodings. |
| Players.EncodePlayersCons | src/players.rs:44-53 | The first record's bytes come first, followed by the encoding of the rest of the list. |
| Players.EncodePlayersSplit | src/players.rs:44-53 | The records are those before k, then record k, then those after it. |
| Players.RecordAt | src/players.rs:44-53 | In a reply, record k sits right after the 6 header bytes and the records before it, and starts with its ordinal. |
| Players.ReadPlayerOf | src/players.rs:49-52 | A well-formed record reads back from its bytes, leaving the rest. |
| Players.ReadPlayersOf | src/players.rs:44-53 | n well-formed records read back as exactly those records. |
| Players.PlayersResponseRoundTrip | src/players.rs:38-53 | A client decoding a players reply recovers the record list. |
| Players.PlayerName | src/players.rs:45 | "Player" followed by the decimal of k + 1 has no NUL byte. |
| Players.PlayerNameReads | src/players.rs:45 | A player name starts with "Player" and has at least one digit after it. Those digits read as k + 1. |
| Players.SyntheticPlayer | src/players.rs:45-47 | Player k is a well-formed record. |
| Players.SyntheticPlayers | src/players.rs:44-47 | The list for n players has n well-formed records, and entry k is player k. |
| Players.AppendRecord | src/players.rs:49-52 | One iteration's four appends extend the reply by exactly one record. |
| Players.PlayersResponseHeader | src/players.rs:38-42 | The reply starts `FF FF FF FF 44` followed by the player count. |
| Players.BuildPlayersResponse | src/players.rs:38-53 | The loop builds exactly the encoder's reply for players 0 to 31. |
| Players.SyntheticRecord | src/players.rs:45-52 | Player k's record is k, then "Player<k+1>" and its NUL, then `00 00 00 00` for score 0, then `00 00 00 42` for 32.0 as an `f32`. |
| Players.SyntheticRecordsLength | src/players.rs:44-53 | Players 0 to n-1 take 17 bytes each, plus one more byte for each player from the tenth on. |
| Players.ServerPlayersLength | src/players.rs:38-53 | The server's players reply is 573 bytes. |
| Players.ServerPlayersDecode | src/players.rs:38-53 | The server's reply decodes to 32 records. Record k has ordinal k and name "Player<k+1>". |
| Players.PayloadChallengeCases | src/players.rs:20-23 | A payload of any length other than 4 reads as challenge 0. A 4-byte payload is exactly the encoding of its challenge. |
| Players.HandlePlayers | src/players.rs:14-57 | The outcome and the new store are those of `PlayersStep`: a challenge issued when the challenge is 0, and a consume with a conditional reply otherwise. |
| Players.PlayersNeverPanics | src/players.rs:20-45 | No payload makes the players handler panic. The `expect` on `CString::new` at line 45 cannot fire, because no player name contains a NUL byte. |
| Players.PlayersProbe | src/players.rs:25-32 | A payload that is not 4 bytes, or is four zero bytes, issues a challenge and sends the 9-byte challenge reply. |
| Players.PlayersChallenged | src/players.rs:34-36 | A nonzero challenge consumes src's entry. It sends the player list exactly when the challenge equals the entry. |
| Players.PlayersZeroNotRedeemable | src/players.rs:25-32 | An entry of 0 cannot be redeemed. Echoing it back issues a fresh challenge over it. |
| Players.PlayersTwoStep | src/players.rs:25-53 | An empty request yields a challenge V. If V is nonzero, sending V back yields the player list, and sending it a second time yields nothing. |
| Players.PlayersNoAmplification | src/players.rs:25-36 | To an address with no outstanding challenge, the handler sends at most the 9-byte challenge reply. |

## Left out

- The dispatcher in src/main.rs is not part of this model: binding the socket, the receive loop, `buf.get(4)` and the header switch.
  - The handlers take the payload after the 5-byte prefix.
  - The slice `&buf[5..amt]` panics when a datagram is shorter than 5 bytes. That is not modelled.
- Sending over the socket is left out. A reply is the `Sent` outcome.
  - Failure of `send_to`, and the `expect` on it, is not modelled.
- The random number generator is left out. The number it would draw is a parameter of each handler.
- Concurrency is left out. The server handles one datagram at a time, and so does the model.
  - Entries never expire in the source, so no clock is modelled.
- Floating point is left out. The duration 32.0 appears only as its four little-endian `f32` bytes, `00 00 00 42`.
- `Info.ReadSpectatorOf`: the spectator port and name (flag 0x40) are part of the reply format the encoder and decoder cover. This server never sends them, so no source line writes them.
- `Players.PlayersTwoStep` requires a nonzero challenge. The source turns a stored challenge of 0 into a fresh challenge instead of accepting it (`Players.PlayersZeroNotRedeemable`).
- `Players.SyntheticRecordsLength` is stated for at most 99 players. The source uses 32.
- `Bytes.DecimalLength` covers only one- and two-digit numbers, which is all the 32 player names need.
