/**
  A2S_INFO: the "who are you" query. `HandleInfo` parses the payload after
  the 5-byte request prefix (a C string, then an optional 4-byte challenge),
  gates on the literal "Source Engine Query", runs the challenge handshake
  against the store, and on success replies with the server's identity in
  the fixed A2S_INFO layout built by `CreateInfoResponse`.
 */
module Info {
  import opened Wrappers
  import opened Bytes
  import opened Challenge
  import opened Server

  // ---------------------------------------------------------------------
  // Single-byte enumerations
  // ---------------------------------------------------------------------

  datatype ServerType = Dedicated | NonDedicated | SourceTV

  /** Wire code of the server type: 'd', 'l' or 'p'. */
  function ServerTypeCode(t: ServerType): (b: byte)
  {
    match t
    case Dedicated => 0x64     // 'd'
    case NonDedicated => 0x6C  // 'l'
    case SourceTV => 0x70      // 'p'
  }

  function ServerTypeOfCode(b: byte): Option<ServerType>
  {
    if b == 0x64 then Some(Dedicated)
    else if b == 0x6C then Some(NonDedicated)
    else if b == 0x70 then Some(SourceTV)
    else None
  }

  datatype Environment = Linux | Windows | Mac

  /** Wire code of the server's operating system: 'l', 'w' or 'm'. */
  function EnvironmentCode(e: Environment): (b: byte)
  {
    match e
    case Linux => 0x6C    // 'l'
    case Windows => 0x77  // 'w'
    case Mac => 0x6D      // 'm'
  }

  function EnvironmentOfCode(b: byte): Option<Environment>
  {
    if b == 0x6C then Some(Linux)
    else if b == 0x77 then Some(Windows)
    else if b == 0x6D then Some(Mac)
    else None
  }

  /** Each code names exactly one variant: decoding a code gives it back. */
  lemma CodesRoundTrip(t: ServerType, e: Environment, b: byte)
    ensures ServerTypeOfCode(ServerTypeCode(t)) == Some(t)
    ensures EnvironmentOfCode(EnvironmentCode(e)) == Some(e)
    ensures ServerTypeOfCode(b) == Some(t) ==> ServerTypeCode(t) == b
    ensures EnvironmentOfCode(b) == Some(e) ==> EnvironmentCode(e) == b
  {
  }

  /** The mappings are injective. */
  lemma CodesInjective(t1: ServerType, t2: ServerType, e1: Environment, e2: Environment)
    ensures ServerTypeCode(t1) == ServerTypeCode(t2) ==> t1 == t2
    ensures EnvironmentCode(e1) == EnvironmentCode(e2) ==> e1 == e2
  {
    CodesRoundTrip(t1, e1, ServerTypeCode(t2));
    CodesRoundTrip(t2, e2, ServerTypeCode(t1));
    CodesRoundTrip(t1, e1, EnvironmentCode(e2));
    CodesRoundTrip(t2, e2, EnvironmentCode(e1));
  }

  /** A boolean as one byte: 0 or 1. */
  function BoolByte(b: bool): byte {
    if b then 1 else 0
  }

  function BoolOfByte(b: byte): Option<bool> {
    if b == 0 then Some(false) else if b == 1 then Some(true) else None
  }

  // ---------------------------------------------------------------------
  // The request
  // ---------------------------------------------------------------------

  /** The identification string every info query must carry: "Source Engine Query" and its NUL. */
  const A2SInfoRequestPayload: seq<byte> :=
    [0x53, 0x6F, 0x75, 0x72, 0x63, 0x65, 0x20, 0x45, 0x6E, 0x67,
     0x69, 0x6E, 0x65, 0x20, 0x51, 0x75, 0x65, 0x72, 0x79, 0x00]

  lemma RequestPayloadSpelled()
    ensures A2SInfoRequestPayload == CStr(Ascii("Source Engine Query"))
  {
  }

  lemma RequestPayloadShape()
    ensures |A2SInfoRequestPayload| == 20
    ensures NoNul(A2SInfoRequestPayload[..19])
    ensures A2SInfoRequestPayload == CStr(A2SInfoRequestPayload[..19])
  {
  }

  /** The parsed request: the C string up to its NUL, and the challenge if present. */
  datatype InfoRequest = InfoRequest(payload: seq<byte>, challenge: Option<int32>)

  /**
    Splits the payload at its first NUL. None stands for a payload without
    any NUL, on which the source's `expect` panics.
   */
  function ParseInfoRequest(buf: seq<byte>): (r: Option<InfoRequest>)
    ensures r.None? <==> NoNul(buf)
    ensures r.Some? ==>
      var n := |r.value.payload|;
      && 0 < n <= |buf|
      && r.value.payload == buf[..n]
      && buf[n - 1] == 0 && NoNul(buf[..n - 1])
      && (r.value.challenge.Some? <==> n + 4 <= |buf|)
      && (r.value.challenge.Some? ==> EncodeI32(r.value.challenge.value) == buf[n..n + 4])
  {
    match FindNul(buf)
    case None => None
    case Some(nullPos) =>
      assert buf[..nullPos + 1][..nullPos] == buf[..nullPos];
      var challenge :=
        if nullPos + 5 <= |buf| then
          I32RoundTrip(0, buf[nullPos + 1..nullPos + 5]);
          Some(DecodeI32(buf[nullPos + 1..nullPos + 5]))
        else None;
      Some(InfoRequest(buf[..nullPos + 1], challenge))
  }

  // ---------------------------------------------------------------------
  // The reply: fields, encoder and decoder
  // ---------------------------------------------------------------------

  /** Spectator (SourceTV) port and name, present when flag 0x40 is set. */
  datatype Spectator = Spectator(port: int16, name: seq<byte>)

  /** The optional tail after the extra-data-flags byte. */
  datatype ExtraData = ExtraData(
    port: Option<int16>,          // flag 0x80
    steamId: Option<uint64>,      // flag 0x10
    spectator: Option<Spectator>, // flag 0x40
    keywords: Option<seq<byte>>,  // flag 0x20
    gameId: Option<uint64>)       // flag 0x01

  /** Every field of an A2S_INFO reply, in wire order. */
  datatype InfoFields = InfoFields(
    protocol: byte,
    name: seq<byte>,
    mapName: seq<byte>,
    folder: seq<byte>,
    game: seq<byte>,
    appId: int16,
    players: byte,
    maxPlayers: byte,
    bots: byte,
    serverType: ServerType,
    environment: Environment,
    passworded: bool,
    vac: bool,
    version: seq<byte>,
    extra: ExtraData)

  const InfoResponseHeader: byte := 0x49

  /** All strings of the reply are valid C string bodies. */
  predicate WellFormed(f: InfoFields) {
    && NoNul(f.name) && NoNul(f.mapName) && NoNul(f.folder) && NoNul(f.game) && NoNul(f.version)
    && (f.extra.spectator.Some? ==> NoNul(f.extra.spectator.value.name))
    && (f.extra.keywords.Some? ==> NoNul(f.extra.keywords.value))
  }

  /** The flag bit that announces each optional tail field. */
  function ExtraDataFlags(e: ExtraData): (flags: byte)
  {
    (if e.port.Some? then 0x80 else 0)
    + (if e.steamId.Some? then 0x10 else 0)
    + (if e.spectator.Some? then 0x40 else 0)
    + (if e.keywords.Some? then 0x20 else 0)
    + (if e.gameId.Some? then 0x01 else 0)
  }

  predicate HasFlag(flags: byte, bit: byte)
    requires bit > 0
  {
    (flags / bit) % 2 == 1
  }

  /** The flags byte names exactly the fields present, and no other bit. */
  lemma ExtraDataFlagsExact(e: ExtraData)
    ensures HasFlag(ExtraDataFlags(e), 0x80) <==> e.port.Some?
    ensures HasFlag(ExtraDataFlags(e), 0x10) <==> e.steamId.Some?
    ensures HasFlag(ExtraDataFlags(e), 0x40) <==> e.spectator.Some?
    ensures HasFlag(ExtraDataFlags(e), 0x20) <==> e.keywords.Some?
    ensures HasFlag(ExtraDataFlags(e), 0x01) <==> e.gameId.Some?
    ensures !HasFlag(ExtraDataFlags(e), 0x02) && !HasFlag(ExtraDataFlags(e), 0x04)
    ensures !HasFlag(ExtraDataFlags(e), 0x08)
  {
  }

  function PortBytes(e: ExtraData): seq<byte> {
    match e.port
    case None => []
    case Some(p) => EncodeI16(p)
  }

  function SteamIdBytes(e: ExtraData): seq<byte> {
    match e.steamId
    case None => []
    case Some(id) => EncodeU64(id)
  }

  function SpectatorBytes(e: ExtraData): seq<byte>
    requires e.spectator.Some? ==> NoNul(e.spectator.value.name)
  {
    match e.spectator
    case None => []
    case Some(sp) => EncodeI16(sp.port) + CStr(sp.name)
  }

  function KeywordsBytes(e: ExtraData): seq<byte>
    requires e.keywords.Some? ==> NoNul(e.keywords.value)
  {
    match e.keywords
    case None => []
    case Some(k) => CStr(k)
  }

  function GameIdBytes(e: ExtraData): seq<byte> {
    match e.gameId
    case None => []
    case Some(id) => EncodeU64(id)
  }

  /** The tail fields in protocol order: port, SteamID, spectator, keywords, GameID. */
  function EncodeExtraData(e: ExtraData): seq<byte>
    requires e.spectator.Some? ==> NoNul(e.spectator.value.name)
    requires e.keywords.Some? ==> NoNul(e.keywords.value)
  {
    PortBytes(e) + (SteamIdBytes(e) + (SpectatorBytes(e) + (KeywordsBytes(e) + GameIdBytes(e))))
  }

  /** The A2S_INFO reply: marker, 'I', then every field in order. */
  function EncodeInfoResponse(f: InfoFields): seq<byte>
    requires WellFormed(f)
  {
    InfoFront(f)
    + [ExtraDataFlags(f.extra)]
    + PortBytes(f.extra) + SteamIdBytes(f.extra) + SpectatorBytes(f.extra)
    + KeywordsBytes(f.extra) + GameIdBytes(f.extra)
  }

  /** Everything before the flags byte: marker, 'I', protocol, then the fixed fields. */
  function InfoFront(f: InfoFields): seq<byte>
    requires WellFormed(f)
  {
    SimpleResponseMarker + [InfoResponseHeader, f.protocol]
    + CStr(f.name) + CStr(f.mapName) + CStr(f.folder) + CStr(f.game)
    + EncodeI16(f.appId)
    + [f.players] + [f.maxPlayers] + [f.bots]
    + [ServerTypeCode(f.serverType)] + [EnvironmentCode(f.environment)]
    + [BoolByte(f.passworded)] + [BoolByte(f.vac)]
    + CStr(f.version)
  }

  /** The front is 20 bytes plus the five strings. */
  lemma InfoFrontLength(f: InfoFields)
    requires WellFormed(f)
    ensures |InfoFront(f)| == 20 + |f.name| + |f.mapName| + |f.folder| + |f.game| + |f.version|
  {
  }

  /** Reads a little-endian i16. */
  function ReadI16(bs: seq<byte>): Option<(int16, seq<byte>)> {
    var p :- ReadN(bs, 2);
    Some((DecodeI16(p.0), p.1))
  }

  /** Reads a little-endian u64. */
  function ReadU64(bs: seq<byte>): Option<(uint64, seq<byte>)> {
    var p :- ReadN(bs, 8);
    Some((DecodeU64(p.0), p.1))
  }

  /** Reads the port if flag 0x80 announces it. */
  function ReadPort(flags: byte, bs: seq<byte>): Option<(Option<int16>, seq<byte>)> {
    if HasFlag(flags, 0x80) then
      var q :- ReadI16(bs); Some((Some(q.0), q.1))
    else Some((None, bs))
  }

  /** Reads the SteamID if flag 0x10 announces it. */
  function ReadSteamId(flags: byte, bs: seq<byte>): Option<(Option<uint64>, seq<byte>)> {
    if HasFlag(flags, 0x10) then
      var q :- ReadU64(bs); Some((Some(q.0), q.1))
    else Some((None, bs))
  }

  /** Reads the spectator port and name if flag 0x40 announces them. */
  function ReadSpectator(flags: byte, bs: seq<byte>): Option<(Option<Spectator>, seq<byte>)> {
    if HasFlag(flags, 0x40) then
      var q :- ReadI16(bs);
      var sp :- ReadCStr(q.1);
      Some((Some(Spectator(q.0, sp.0)), sp.1))
    else Some((None, bs))
  }

  /** Reads the keywords (tags) string if flag 0x20 announces it. */
  function ReadKeywords(flags: byte, bs: seq<byte>): Option<(Option<seq<byte>>, seq<byte>)> {
    if HasFlag(flags, 0x20) then
      var k :- ReadCStr(bs); Some((Some(k.0), k.1))
    else Some((None, bs))
  }

  /** Reads the GameID if flag 0x01 announces it. */
  function ReadGameId(flags: byte, bs: seq<byte>): Option<(Option<uint64>, seq<byte>)> {
    if HasFlag(flags, 0x01) then
      var q :- ReadU64(bs); Some((Some(q.0), q.1))
    else Some((None, bs))
  }

  /** Reads the tail announced by flags, to the end; no bit outside the five may be set. */
  function DecodeExtraData(flags: byte, bs: seq<byte>): Option<ExtraData>
  {
    if HasFlag(flags, 0x02) || HasFlag(flags, 0x04) || HasFlag(flags, 0x08) then None
    else
      var port :- ReadPort(flags, bs);
      var steamId :- ReadSteamId(flags, port.1);
      var spectator :- ReadSpectator(flags, steamId.1);
      var keywords :- ReadKeywords(flags, spectator.1);
      var gameId :- ReadGameId(flags, keywords.1);
      if gameId.1 == [] then Some(ExtraData(port.0, steamId.0, spectator.0, keywords.0, gameId.0))
      else None
  }

  /** Name, map, game directory and game mode strings. */
  datatype Identity = Identity(name: seq<byte>, mapName: seq<byte>, folder: seq<byte>, game: seq<byte>)

  function ReadIdentity(bs: seq<byte>): Option<(Identity, seq<byte>)> {
    var name :- ReadCStr(bs);
    var mapName :- ReadCStr(name.1);
    var folder :- ReadCStr(mapName.1);
    var game :- ReadCStr(folder.1);
    Some((Identity(name.0, mapName.0, folder.0, game.0), game.1))
  }

  /** Application id, the three counts, the two codes and the two flags. */
  datatype Details = Details(
    appId: int16, players: byte, maxPlayers: byte, bots: byte,
    serverType: ServerType, environment: Environment, passworded: bool, vac: bool)

  function ReadDetails(bs: seq<byte>): Option<(Details, seq<byte>)> {
    var appId :- ReadI16(bs);
    var b :- ReadN(appId.1, 7);
    var serverType :- ServerTypeOfCode(b.0[3]);
    var environment :- EnvironmentOfCode(b.0[4]);
    var passworded :- BoolOfByte(b.0[5]);
    var vac :- BoolOfByte(b.0[6]);
    Some((Details(appId.0, b.0[0], b.0[1], b.0[2], serverType, environment, passworded, vac), b.1))
  }

  /** What a client does with the reply: recover every field, or fail. */
  function DecodeInfoResponse(bs: seq<byte>): Option<InfoFields>
  {
    var h :- ReadN(bs, 6);
    if h.0[..5] != SimpleResponseMarker + [InfoResponseHeader] then None
    else
      var id :- ReadIdentity(h.1);
      var d :- ReadDetails(id.1);
      var version :- ReadCStr(d.1);
      var flags :- ReadN(version.1, 1);
      var extra :- DecodeExtraData(flags.0[0], flags.1);
      Some(InfoFields(h.0[5], id.0.name, id.0.mapName, id.0.folder, id.0.game,
                      d.0.appId, d.0.players, d.0.maxPlayers, d.0.bots,
                      d.0.serverType, d.0.environment, d.0.passworded, d.0.vac,
                      version.0, extra))
  }

  lemma ReadI16Of(x: int16, rest: seq<byte>)
    ensures ReadI16(EncodeI16(x) + rest) == Some((x, rest))
  {
    ReadNOf(EncodeI16(x), rest);
    I16RoundTrip(x, EncodeI16(x));
  }

  lemma ReadU64Of(x: uint64, rest: seq<byte>)
    ensures ReadU64(EncodeU64(x) + rest) == Some((x, rest))
  {
    ReadNOf(EncodeU64(x), rest);
    U64RoundTrip(x, EncodeU64(x));
  }

  lemma ReadPortOf(e: ExtraData, rest: seq<byte>)
    ensures ReadPort(ExtraDataFlags(e), PortBytes(e) + rest) == Some((e.port, rest))
  {
    ExtraDataFlagsExact(e);
    if e.port.Some? { ReadI16Of(e.port.value, rest); } else { assert [] + rest == rest; }
  }

  lemma ReadSteamIdOf(e: ExtraData, rest: seq<byte>)
    ensures ReadSteamId(ExtraDataFlags(e), SteamIdBytes(e) + rest) == Some((e.steamId, rest))
  {
    ExtraDataFlagsExact(e);
    if e.steamId.Some? { ReadU64Of(e.steamId.value, rest); } else { assert [] + rest == rest; }
  }

  lemma ReadSpectatorOf(e: ExtraData, rest: seq<byte>)
    requires e.spectator.Some? ==> NoNul(e.spectator.value.name)
    ensures ReadSpectator(ExtraDataFlags(e), SpectatorBytes(e) + rest) == Some((e.spectator, rest))
  {
    ExtraDataFlagsExact(e);
    if e.spectator.Some? {
      var sp := e.spectator.value;
      assert SpectatorBytes(e) + rest == EncodeI16(sp.port) + (CStr(sp.name) + rest);
      ReadI16Of(sp.port, CStr(sp.name) + rest);
      ReadCStrOfCStr(sp.name, rest);
    } else {
      assert [] + rest == rest;
    }
  }

  lemma ReadKeywordsOf(e: ExtraData, rest: seq<byte>)
    requires e.keywords.Some? ==> NoNul(e.keywords.value)
    ensures ReadKeywords(ExtraDataFlags(e), KeywordsBytes(e) + rest) == Some((e.keywords, rest))
  {
    ExtraDataFlagsExact(e);
    if e.keywords.Some? { ReadCStrOfCStr(e.keywords.value, rest); } else { assert [] + rest == rest; }
  }

  lemma ReadGameIdOf(e: ExtraData)
    ensures ReadGameId(ExtraDataFlags(e), GameIdBytes(e)) == Some((e.gameId, []))
  {
    ExtraDataFlagsExact(e);
    if e.gameId.Some? {
      ReadU64Of(e.gameId.value, []);
      assert EncodeU64(e.gameId.value) + [] == EncodeU64(e.gameId.value);
    }
  }

  /** The tail decodes, under its own flags byte, to exactly the fields encoded. */
  lemma ExtraDataRoundTrip(e: ExtraData)
    requires e.spectator.Some? ==> NoNul(e.spectator.value.name)
    requires e.keywords.Some? ==> NoNul(e.keywords.value)
    ensures DecodeExtraData(ExtraDataFlags(e), EncodeExtraData(e)) == Some(e)
  {
    ExtraDataFlagsExact(e);
    var r4 := GameIdBytes(e);
    var r3 := KeywordsBytes(e) + r4;
    var r2 := SpectatorBytes(e) + r3;
    var r1 := SteamIdBytes(e) + r2;
    ReadPortOf(e, r1);
    ReadSteamIdOf(e, r2);
    ReadSpectatorOf(e, r3);
    ReadKeywordsOf(e, r4);
    ReadGameIdOf(e);
  }

  lemma ReadIdentityOf(f: InfoFields, rest: seq<byte>)
    requires WellFormed(f)
    ensures ReadIdentity(CStr(f.name) + (CStr(f.mapName) + (CStr(f.folder) + (CStr(f.game) + rest))))
         == Some((Identity(f.name, f.mapName, f.folder, f.game), rest))
  {
    ReadCStrOfCStr(f.name, CStr(f.mapName) + (CStr(f.folder) + (CStr(f.game) + rest)));
    ReadCStrOfCStr(f.mapName, CStr(f.folder) + (CStr(f.game) + rest));
    ReadCStrOfCStr(f.folder, CStr(f.game) + rest);
    ReadCStrOfCStr(f.game, rest);
  }

  lemma ReadDetailsOf(f: InfoFields, rest: seq<byte>)
    ensures ReadDetails(EncodeI16(f.appId) + ([f.players] + ([f.maxPlayers] + ([f.bots]
              + ([ServerTypeCode(f.serverType)] + ([EnvironmentCode(f.environment)]
              + ([BoolByte(f.passworded)] + ([BoolByte(f.vac)] + rest))))))))
         == Some((Details(f.appId, f.players, f.maxPlayers, f.bots, f.serverType, f.environment,
                          f.passworded, f.vac), rest))
  {
    var seven := [f.players, f.maxPlayers, f.bots, ServerTypeCode(f.serverType),
                  EnvironmentCode(f.environment), BoolByte(f.passworded), BoolByte(f.vac)];
    var r := [f.players] + ([f.maxPlayers] + ([f.bots]
              + ([ServerTypeCode(f.serverType)] + ([EnvironmentCode(f.environment)]
              + ([BoolByte(f.passworded)] + ([BoolByte(f.vac)] + rest))))));
    assert r == seven + rest;
    ReadI16Of(f.appId, r);
    ReadNOf(seven, rest);
    CodesRoundTrip(f.serverType, f.environment, 0);
  }

  /** The reply written out as nested pieces, in the order a decoder reads them. */
  function InfoNested(f: InfoFields): seq<byte>
    requires WellFormed(f)
  {
    (SimpleResponseMarker + [InfoResponseHeader, f.protocol])
    + (CStr(f.name) + (CStr(f.mapName) + (CStr(f.folder) + (CStr(f.game)
    + (EncodeI16(f.appId) + ([f.players] + ([f.maxPlayers] + ([f.bots]
    + ([ServerTypeCode(f.serverType)] + ([EnvironmentCode(f.environment)]
    + ([BoolByte(f.passworded)] + ([BoolByte(f.vac)]
    + (CStr(f.version) + ([ExtraDataFlags(f.extra)] + EncodeExtraData(f.extra)))))))))))))))
  }

  lemma InfoResponseNested(f: InfoFields)
    requires WellFormed(f)
    ensures EncodeInfoResponse(f) == InfoNested(f)
  {
    var e := f.extra;
    Reassociate20(SimpleResponseMarker + [InfoResponseHeader, f.protocol],
      CStr(f.name), CStr(f.mapName), CStr(f.folder), CStr(f.game), EncodeI16(f.appId),
      [f.players], [f.maxPlayers], [f.bots], [ServerTypeCode(f.serverType)],
      [EnvironmentCode(f.environment)], [BoolByte(f.passworded)], [BoolByte(f.vac)],
      CStr(f.version), [ExtraDataFlags(e)],
      PortBytes(e), SteamIdBytes(e), SpectatorBytes(e), KeywordsBytes(e), GameIdBytes(e));
  }

  /** The decoder's stages chained: each stage's success hands its rest to the next. */
  lemma DecodeFromStages(f: InfoFields, bs: seq<byte>, head: seq<byte>, r1: seq<byte>, r5: seq<byte>,
                         r13: seq<byte>, r14: seq<byte>, tail: seq<byte>)
    requires ReadN(bs, 6) == Some((head, r1))
    requires head[..5] == SimpleResponseMarker + [InfoResponseHeader] && head[5] == f.protocol
    requires ReadIdentity(r1) == Some((Identity(f.name, f.mapName, f.folder, f.game), r5))
    requires ReadDetails(r5)
          == Some((Details(f.appId, f.players, f.maxPlayers, f.bots, f.serverType, f.environment,
                           f.passworded, f.vac), r13))
    requires ReadCStr(r13) == Some((f.version, r14))
    requires ReadN(r14, 1) == Some(([ExtraDataFlags(f.extra)], tail))
    requires DecodeExtraData(ExtraDataFlags(f.extra), tail) == Some(f.extra)
    ensures DecodeInfoResponse(bs) == Some(f)
  {
  }

  /** The version string, the flags byte and the tail read back in turn. */
  lemma InfoTailStages(f: InfoFields)
    requires WellFormed(f)
    ensures var tail := EncodeExtraData(f.extra);
      var r14 := [ExtraDataFlags(f.extra)] + tail;
      && ReadCStr(CStr(f.version) + r14) == Some((f.version, r14))
      && ReadN(r14, 1) == Some(([ExtraDataFlags(f.extra)], tail))
      && DecodeExtraData(ExtraDataFlags(f.extra), tail) == Some(f.extra)
  {
    var tail := EncodeExtraData(f.extra);
    ReadCStrOfCStr(f.version, [ExtraDataFlags(f.extra)] + tail);
    ReadNOf([ExtraDataFlags(f.extra)], tail);
    ExtraDataRoundTrip(f.extra);
  }

  lemma InfoNestedDecodes(f: InfoFields)
    requires WellFormed(f)
    ensures DecodeInfoResponse(InfoNested(f)) == Some(f)
  {
    var tail := EncodeExtraData(f.extra);
    var r14 := [ExtraDataFlags(f.extra)] + tail;
    var r13 := CStr(f.version) + r14;
    var r5 := EncodeI16(f.appId) + ([f.players] + ([f.maxPlayers] + ([f.bots]
              + ([ServerTypeCode(f.serverType)] + ([EnvironmentCode(f.environment)]
              + ([BoolByte(f.passworded)] + ([BoolByte(f.vac)] + r13)))))));
    var r1 := CStr(f.name) + (CStr(f.mapName) + (CStr(f.folder) + (CStr(f.game) + r5)));
    var head := SimpleResponseMarker + [InfoResponseHeader, f.protocol];
    assert InfoNested(f) == head + r1;
    ReadNOf(head, r1);
    ReadIdentityOf(f, r5);
    ReadDetailsOf(f, r13);
    InfoTailStages(f);
    assert head[..5] == SimpleResponseMarker + [InfoResponseHeader];
    DecodeFromStages(f, InfoNested(f), head, r1, r5, r13, r14, tail);
  }

  /** Round trip: a client decoding the reply recovers every field exactly. */
  lemma InfoResponseRoundTrip(f: InfoFields)
    requires WellFormed(f)
    ensures DecodeInfoResponse(EncodeInfoResponse(f)) == Some(f)
  {
    InfoResponseNested(f);
    InfoNestedDecodes(f);
  }

  // ---------------------------------------------------------------------
  // This server's identity
  // ---------------------------------------------------------------------

  const ProtocolVersion: byte := 0x11
  /** "Gmod Server" */
  const ServerName: seq<byte> := [0x47, 0x6D, 0x6F, 0x64, 0x20, 0x53, 0x65, 0x72, 0x76, 0x65, 0x72]
  /** "gm_construct" */
  const ServerLoadedMap: seq<byte> := [0x67, 0x6D, 0x5F, 0x63, 0x6F, 0x6E, 0x73, 0x74, 0x72, 0x75, 0x63, 0x74]
  /** "garrysmod" */
  const ServerGameDir: seq<byte> := [0x67, 0x61, 0x72, 0x72, 0x79, 0x73, 0x6D, 0x6F, 0x64]
  /** "Sandbox" */
  const ServerGamemode: seq<byte> := [0x53, 0x61, 0x6E, 0x64, 0x62, 0x6F, 0x78]
  const GameSteamAppId: int16 := 4000
  const ServerNumBots: byte := 0
  const ServerKind: ServerType := Dedicated
  const ServerEnvironment: Environment := Windows
  const ServerRequiresPassword: bool := false
  const ServerUsesVac: bool := true
  /** "2024.10.29" */
  const ServerLastUpdateVersion: seq<byte> := [0x32, 0x30, 0x32, 0x34, 0x2E, 0x31, 0x30, 0x2E, 0x32, 0x39]
  /** Port number, SteamID, keywords and GameID follow: 0x80 | 0x10 | 0x20 | 0x01. */
  const ExtraDataFlagsByte: byte := 0xB1
  const ServerPort: int16 := 27015
  const ServerSteamId: uint64 := 1_000_000_000_000_000_000
  const ServerGameId: uint64 := 10_000_000_000_000_000_000
  /** " gm:sandbox gmc:other ver:241029" */
  const ServerTags: seq<byte> :=
    [0x20, 0x67, 0x6D, 0x3A, 0x73, 0x61, 0x6E, 0x64, 0x62, 0x6F, 0x78, 0x20, 0x67, 0x6D, 0x63, 0x3A,
     0x6F, 0x74, 0x68, 0x65, 0x72, 0x20, 0x76, 0x65, 0x72, 0x3A, 0x32, 0x34, 0x31, 0x30, 0x32, 0x39]

  /** The byte constants spell the server's identity strings. */
  lemma ServerNamesSpelled()
    ensures ServerName == Ascii("Gmod Server")
    ensures ServerLoadedMap == Ascii("gm_construct")
    ensures ServerGameDir == Ascii("garrysmod")
    ensures ServerGamemode == Ascii("Sandbox")
  {
  }

  lemma ServerVersionSpelled()
    ensures ServerLastUpdateVersion == Ascii("2024.10.29")
  {
  }

  lemma ServerTagsSpelled()
    ensures ServerTags == Ascii(" gm:sandbox gmc:other ver:241029")
  {
  }

  /** The identity this server reports, as one value. */
  function ServerInfo(): (f: InfoFields)
    ensures WellFormed(f)
  {
    InfoFields(ProtocolVersion, ServerName, ServerLoadedMap, ServerGameDir, ServerGamemode,
               GameSteamAppId, ServerCurrentPlayers, ServerMaxPlayers, ServerNumBots,
               ServerKind, ServerEnvironment, ServerRequiresPassword, ServerUsesVac,
               ServerLastUpdateVersion,
               ExtraData(Some(ServerPort), Some(ServerSteamId), None, Some(ServerTags), Some(ServerGameId)))
  }

  /** The hard-coded flags byte agrees with the tail fields actually emitted. */
  lemma ExtraDataFlagsAgree()
    ensures ExtraDataFlags(ServerInfo().extra) == ExtraDataFlagsByte
    ensures ExtraDataFlagsByte == 0x80 + 0x10 + 0x20 + 0x01
  {
  }

  /** With no spectator fields, the reply is the other four tail fields appended in order. */
  lemma EncodeWithoutSpectator(f: InfoFields, port: int16, steamId: uint64, keywords: seq<byte>, gameId: uint64)
    requires WellFormed(f)
    requires f.extra == ExtraData(Some(port), Some(steamId), None, Some(keywords), Some(gameId))
    ensures EncodeInfoResponse(f)
         == InfoFront(f) + [ExtraDataFlags(f.extra)]
            + EncodeI16(port) + EncodeU64(steamId) + CStr(keywords) + EncodeU64(gameId)
  {
    var upToSteamId := InfoFront(f) + [ExtraDataFlags(f.extra)] + EncodeI16(port) + EncodeU64(steamId);
    assert upToSteamId + SpectatorBytes(f.extra) == upToSteamId;
  }

  /** This server's fields before the flags byte, piece by piece. */
  lemma ServerInfoFront()
    ensures InfoFront(ServerInfo())
         == [0xFF, 0xFF, 0xFF, 0xFF, InfoResponseHeader, ProtocolVersion]
            + CStr(ServerName) + CStr(ServerLoadedMap) + CStr(ServerGameDir) + CStr(ServerGamemode)
            + EncodeI16(GameSteamAppId)
            + [ServerCurrentPlayers] + [ServerMaxPlayers] + [ServerNumBots]
            + [ServerTypeCode(ServerKind)] + [EnvironmentCode(ServerEnvironment)]
            + [BoolByte(ServerRequiresPassword)] + [BoolByte(ServerUsesVac)]
            + CStr(ServerLastUpdateVersion)
  {
    assert SimpleResponseMarker + [InfoResponseHeader, ProtocolVersion] == [0xFF, 0xFF, 0xFF, 0xFF, InfoResponseHeader, ProtocolVersion];
  }

  /** This server's reply, piece by piece, in the order the fields are written. */
  lemma ServerInfoPieces()
    ensures EncodeInfoResponse(ServerInfo())
         == [0xFF, 0xFF, 0xFF, 0xFF, InfoResponseHeader, ProtocolVersion]
            + CStr(ServerName) + CStr(ServerLoadedMap) + CStr(ServerGameDir) + CStr(ServerGamemode)
            + EncodeI16(GameSteamAppId)
            + [ServerCurrentPlayers] + [ServerMaxPlayers] + [ServerNumBots]
            + [ServerTypeCode(ServerKind)] + [EnvironmentCode(ServerEnvironment)]
            + [BoolByte(ServerRequiresPassword)] + [BoolByte(ServerUsesVac)]
            + CStr(ServerLastUpdateVersion) + [ExtraDataFlagsByte]
            + EncodeI16(ServerPort) + EncodeU64(ServerSteamId) + CStr(ServerTags) + EncodeU64(ServerGameId)
  {
    ExtraDataFlagsAgree();
    ServerInfoFront();
    EncodeWithoutSpectator(ServerInfo(), ServerPort, ServerSteamId, ServerTags, ServerGameId);
  }

  /**
    With no spectator fields, the reply starts with `FF FF FF FF 49` and the
    protocol byte, carries the flags byte right after the version string,
    and ends with exactly the port, the SteamID, the keywords and the GameID.
   */
  lemma InfoLayout(f: InfoFields, port: int16, steamId: uint64, keywords: seq<byte>, gameId: uint64)
    requires WellFormed(f)
    requires f.extra == ExtraData(Some(port), Some(steamId), None, Some(keywords), Some(gameId))
    ensures var n := 20 + |f.name| + |f.mapName| + |f.folder| + |f.game| + |f.version|;
      && |EncodeInfoResponse(f)| == n + 1 + 2 + 8 + |keywords| + 1 + 8
      && EncodeInfoResponse(f)[..6] == [0xFF, 0xFF, 0xFF, 0xFF, 0x49, f.protocol]
      && EncodeInfoResponse(f)[n] == ExtraDataFlags(f.extra)
      && EncodeInfoResponse(f)[n + 1..] == EncodeI16(port) + EncodeU64(steamId) + CStr(keywords) + EncodeU64(gameId)
  {
    EncodeWithoutSpectator(f, port, steamId, keywords, gameId);
    InfoFrontLength(f);
    SplitAtByte(InfoFront(f), ExtraDataFlags(f.extra), EncodeI16(port), EncodeU64(steamId), CStr(keywords), EncodeU64(gameId));
    InfoResponseNested(f);
    var head := SimpleResponseMarker + [InfoResponseHeader, f.protocol];
    assert InfoNested(f)[..|head|] == head;
  }

  /** Where the pieces of `front + [x] + t1 + t2 + t3 + t4` sit. */
  lemma SplitAtByte(front: seq<byte>, x: byte, t1: seq<byte>, t2: seq<byte>, t3: seq<byte>, t4: seq<byte>)
    ensures var r := front + [x] + t1 + t2 + t3 + t4;
      && |r| == |front| + 1 + |t1| + |t2| + |t3| + |t4|
      && r[..|front|] == front
      && r[|front|] == x
      && r[|front| + 1..] == t1 + t2 + t3 + t4
  {
    var r := front + [x] + t1 + t2 + t3 + t4;
    assert r == front + ([x] + (t1 + t2 + t3 + t4));
  }

  /**
    This server's reply is 121 bytes: `FF FF FF FF 49 11`, the fields, the
    flags byte 0xB1 at offset 69, then exactly the port, the SteamID, the
    tags string and the GameID.
   */
  lemma ServerInfoLayout()
    ensures |EncodeInfoResponse(ServerInfo())| == 121
    ensures EncodeInfoResponse(ServerInfo())[..6] == [0xFF, 0xFF, 0xFF, 0xFF, 0x49, 0x11]
    ensures EncodeInfoResponse(ServerInfo())[69] == 0xB1
    ensures EncodeInfoResponse(ServerInfo())[70..]
         == EncodeI16(ServerPort) + EncodeU64(ServerSteamId) + CStr(ServerTags) + EncodeU64(ServerGameId)
  {
    ExtraDataFlagsAgree();
    InfoLayout(ServerInfo(), ServerPort, ServerSteamId, ServerTags, ServerGameId);
  }

  /** Builds the reply step by step, in the source's field order. */
  method CreateInfoResponse() returns (response: seq<byte>)
    ensures response == EncodeInfoResponse(ServerInfo())
  {
    response := [0xFF, 0xFF, 0xFF, 0xFF, InfoResponseHeader, ProtocolVersion];
    response := response + CStr(ServerName);
    response := response + CStr(ServerLoadedMap);
    response := response + CStr(ServerGameDir);
    response := response + CStr(ServerGamemode);
    response := response + EncodeI16(GameSteamAppId);
    response := response + [ServerCurrentPlayers];
    response := response + [ServerMaxPlayers];
    response := response + [ServerNumBots];
    response := response + [ServerTypeCode(ServerKind)];
    response := response + [EnvironmentCode(ServerEnvironment)];
    response := response + [BoolByte(ServerRequiresPassword)];
    response := response + [BoolByte(ServerUsesVac)];
    response := response + CStr(ServerLastUpdateVersion);
    response := response + [ExtraDataFlagsByte];
    response := response + EncodeI16(ServerPort);
    response := response + EncodeU64(ServerSteamId);
    response := response + CStr(ServerTags);
    response := response + EncodeU64(ServerGameId);
    ServerInfoPieces();
  }

  // ---------------------------------------------------------------------
  // The handler
  // ---------------------------------------------------------------------

  /**
    What handling one info payload from src does: the outcome and the
    challenge map afterwards. `random` is the number the generator would
    draw if a challenge is issued.
   */
  function InfoStep(buf: seq<byte>, src: SocketAddr, m: map<SocketAddr, int32>, random: int32)
    : (Outcome, map<SocketAddr, int32>)
  {
    match ParseInfoRequest(buf)
    case None => (Panicked("No null byte found in the buffer"), m)
    case Some(req) =>
      if req.payload != A2SInfoRequestPayload then (Silent, m)
      else
        match req.challenge
        case None => (Sent(ChallengePacket(random)), Issue(m, src, random))
        case Some(c) =>
          (if Matches(m, src, c) then Sent(EncodeInfoResponse(ServerInfo())) else Silent,
           Consume(m, src))
  }

  /** Handles the payload of an info request (the bytes after `FF FF FF FF 54`). */
  method HandleInfo(buf: seq<byte>, src: SocketAddr, store: ChallengeStore, random: int32)
    returns (outcome: Outcome)
    modifies store
    ensures (outcome, store.numbers) == InfoStep(buf, src, old(store.numbers), random)
  {
    var found := FindNul(buf);
    if found.None? {
      return Panicked("No null byte found in the buffer");
    }
    var nullPos := found.value;
    var payload := buf[..nullPos + 1];
    var challenge: Option<int32> := None;
    if nullPos + 5 <= |buf| {
      challenge := Some(DecodeI32(buf[nullPos + 1..nullPos + 5]));
    }
    if payload != A2SInfoRequestPayload {
      return Silent;
    }
    if challenge.None? {
      var response := store.GenerateChallenge(src, random);
      return Sent(response);
    }
    var valid := store.IsChallengeValid(src, challenge.value);
    if !valid {
      return Silent;
    }
    var response := CreateInfoResponse();
    return Sent(response);
  }

  // ---------------------------------------------------------------------
  // Properties of the handler
  // ---------------------------------------------------------------------

  /** A payload without any NUL byte makes the server panic; nothing is stored. */
  lemma InfoNoNulPanics(buf: seq<byte>, src: SocketAddr, m: map<SocketAddr, int32>, random: int32)
    requires NoNul(buf)
    ensures InfoStep(buf, src, m, random).0.Panicked?
    ensures InfoStep(buf, src, m, random).1 == m
  {
  }

  /**
    Magic gate: unless the payload starts with "Source Engine Query" and its
    NUL, there is no reply and the map is unchanged (or, with no NUL at all,
    the process panics).
   */
  lemma InfoMagicGate(buf: seq<byte>, src: SocketAddr, m: map<SocketAddr, int32>, random: int32)
    requires |buf| < 20 || buf[..20] != A2SInfoRequestPayload
    ensures InfoStep(buf, src, m, random).1 == m
    ensures !NoNul(buf) ==> InfoStep(buf, src, m, random).0 == Silent
  {
  }

  /** The query itself, followed by fewer than 4 bytes, is a probe: issue and reply. */
  lemma InfoProbe(rest: seq<byte>, src: SocketAddr, m: map<SocketAddr, int32>, random: int32)
    requires |rest| < 4
    ensures InfoStep(A2SInfoRequestPayload + rest, src, m, random)
         == (Sent(ChallengePacket(random)), Issue(m, src, random))
  {
    RequestPayloadShape();
    var q := A2SInfoRequestPayload[..19];
    FindNulOfCStr(q, rest);
    assert (A2SInfoRequestPayload + rest)[..20] == A2SInfoRequestPayload;
  }

  /**
    The query followed by a challenge c (the next 4 bytes, LE; any further
    bytes are ignored) consumes src's entry and replies with the info
    response exactly when c matched it. This includes c == 0.
   */
  lemma InfoChallenged(c: int32, extra: seq<byte>, src: SocketAddr, m: map<SocketAddr, int32>, random: int32)
    ensures InfoStep(A2SInfoRequestPayload + EncodeI32(c) + extra, src, m, random)
         == (if src in m && m[src] == c then Sent(EncodeInfoResponse(ServerInfo())) else Silent,
             Consume(m, src))
  {
    RequestPayloadShape();
    var buf := A2SInfoRequestPayload + EncodeI32(c) + extra;
    var q := A2SInfoRequestPayload[..19];
    assert buf == CStr(q) + (EncodeI32(c) + extra);
    FindNulOfCStr(q, EncodeI32(c) + extra);
    assert buf[..20] == A2SInfoRequestPayload;
    assert buf[20..24] == EncodeI32(c);
    I32RoundTrip(c, EncodeI32(c));
  }

  /**
    The two-step exchange: a bare query from src yields a 9-byte challenge
    reply carrying V; repeating the query with V yields the info response;
    repeating it with any other value yields nothing. Either way the entry
    is used up.
   */
  lemma InfoTwoStep(src: SocketAddr, m: map<SocketAddr, int32>, random: int32, random2: int32, c: int32)
    ensures var (first, m1) := InfoStep(A2SInfoRequestPayload, src, m, random);
      && first.Sent? && |first.packet| == 9
      && DecodeChallengePacket(first.packet).Some?
      && var v := DecodeChallengePacket(first.packet).value;
      && InfoStep(A2SInfoRequestPayload + EncodeI32(v), src, m1, random2)
         == (Sent(EncodeInfoResponse(ServerInfo())), Consume(m1, src))
      && (c != v ==> InfoStep(A2SInfoRequestPayload + EncodeI32(c), src, m1, random2)
                     == (Silent, Consume(m1, src)))
  {
    InfoProbe([], src, m, random);
    assert A2SInfoRequestPayload + [] == A2SInfoRequestPayload;
    ChallengePacketLayout(random);
    ChallengePacketRoundTrip(random, []);
    var m1 := Issue(m, src, random);
    InfoChallenged(random, [], src, m1, random2);
    InfoChallenged(c, [], src, m1, random2);
    assert A2SInfoRequestPayload + EncodeI32(random) + [] == A2SInfoRequestPayload + EncodeI32(random);
    assert A2SInfoRequestPayload + EncodeI32(c) + [] == A2SInfoRequestPayload + EncodeI32(c);
  }

  /**
    No amplification: toward an address holding no outstanding challenge,
    the handler never sends more than the 9-byte challenge reply.
   */
  lemma InfoNoAmplification(buf: seq<byte>, src: SocketAddr, m: map<SocketAddr, int32>, random: int32)
    requires src !in m
    ensures var out := InfoStep(buf, src, m, random).0;
      out.Sent? ==> out.packet == ChallengePacket(random) && |out.packet| == 9
  {
    ChallengePacketLayout(random);
  }
}
