/**
  The A2S_PLAYER handler. The payload is the 4-byte challenge (any other
  length counts as 0, and 0 means "no challenge yet"); with a matching
  challenge the reply lists `ServerCurrentPlayers` synthetic players, each
  record built in a loop: ordinal, "Player<k+1>", score 0, duration 32.0.
 */
module Players {
  import opened Wrappers
  import opened Bytes
  import opened Challenge
  import opened Server

  /** Reply type selector of the player reply ('D'). */
  const PlayerResponseHeader: byte := 0x44

  /** "Player", the prefix of every synthetic player name. */
  const PlayerPrefix: seq<byte> := [0x50, 0x6C, 0x61, 0x79, 0x65, 0x72]

  /** The little-endian bytes of the 32-bit float 32.0 (sign 0, exponent 132, mantissa 0). */
  const PlayerDuration: seq<byte> := [0x00, 0x00, 0x00, 0x42]

  lemma PlayerPrefixSpelled()
    ensures PlayerPrefix == Ascii("Player")
  {
  }

  // ---------------------------------------------------------------------
  // Player records and the reply
  // ---------------------------------------------------------------------

  /** One record of the reply: ordinal, name, score, duration (raw f32 bytes). */
  datatype PlayerRecord = PlayerRecord(index: byte, name: seq<byte>, score: int32, duration: seq<byte>)

  /** A record can be written: its name has no NUL and its duration is 4 bytes. */
  predicate RecordWellFormed(p: PlayerRecord) {
    NoNul(p.name) && |p.duration| == 4
  }

  predicate AllWellFormed(ps: seq<PlayerRecord>) {
    forall i :: 0 <= i < |ps| ==> RecordWellFormed(ps[i])
  }

  /** Ordinal, name and a terminating NUL, LE score, duration. */
  function EncodePlayer(p: PlayerRecord): seq<byte>
  {
    [p.index] + (p.name + [0]) + EncodeI32(p.score) + p.duration
  }

  /** The records in order, each appended after the ones before it. */
  function EncodePlayers(ps: seq<PlayerRecord>): seq<byte>
  {
    if ps == [] then [] else EncodePlayers(ps[..|ps| - 1]) + EncodePlayer(ps[|ps| - 1])
  }

  /** `FF FF FF FF 44`, the record count, then the records. */
  function PlayersResponse(ps: seq<PlayerRecord>): seq<byte>
    requires |ps| < 0x100
  {
    SimpleResponseMarker + [PlayerResponseHeader, |ps|] + EncodePlayers(ps)
  }

  /** Bytes a record takes: ordinal, name and its NUL, score, duration. */
  function RecordLength(p: PlayerRecord): nat {
    1 + |p.name| + 1 + 4 + |p.duration|
  }

  function RecordsLength(ps: seq<PlayerRecord>): nat {
    if ps == [] then 0 else RecordsLength(ps[..|ps| - 1]) + RecordLength(ps[|ps| - 1])
  }

  /** The reply is 6 bytes of header plus the sum of the record lengths. */
  lemma {:induction false} EncodePlayersLength(ps: seq<PlayerRecord>)
    ensures |EncodePlayers(ps)| == RecordsLength(ps)
    decreases |ps|
  {
    if ps != [] {
      EncodePlayersLength(ps[..|ps| - 1]);
    }
  }

  /** Writing a + b writes a's records, then b's. */
  lemma {:induction false} EncodePlayersAppend(a: seq<PlayerRecord>, b: seq<PlayerRecord>)
    ensures EncodePlayers(a + b) == EncodePlayers(a) + EncodePlayers(b)
    decreases |b|
  {
    if b != [] {
      var b' := b[..|b| - 1];
      assert (a + b)[..|a + b| - 1] == a + b';
      assert (a + b)[|a + b| - 1] == b[|b| - 1];
      EncodePlayersAppend(a, b');
    } else {
      assert a + b == a;
    }
  }

  /** Writing p then ps: p's record comes first. */
  lemma EncodePlayersCons(p: PlayerRecord, ps: seq<PlayerRecord>)
    ensures EncodePlayers([p] + ps) == EncodePlayer(p) + EncodePlayers(ps)
  {
    EncodePlayersAppend([p], ps);
    assert [p][..0] == [];
  }

  /**
    Record k of a reply sits right after the records before it:
    at offset 6 + |EncodePlayers(ps[..k])|, and starts with its ordinal.
   */
  lemma RecordAt(ps: seq<PlayerRecord>, k: nat)
    requires |ps| < 0x100 && k < |ps|
    ensures var o := 6 + |EncodePlayers(ps[..k])|;
      && o + |EncodePlayer(ps[k])| <= |PlayersResponse(ps)|
      && PlayersResponse(ps)[o..o + |EncodePlayer(ps[k])|] == EncodePlayer(ps[k])
      && PlayersResponse(ps)[o] == ps[k].index
  {
    EncodePlayersSplit(ps, k);
    RecordInReply(PlayersResponse(ps), SimpleResponseMarker + [PlayerResponseHeader, |ps|],
      EncodePlayers(ps[..k]), EncodePlayer(ps[k]), EncodePlayers(ps[k + 1..]));
  }

  /** In head + (before + (rec + rest)), rec starts right after head and before. */
  lemma RecordInReply(x: seq<byte>, head: seq<byte>, before: seq<byte>, rec: seq<byte>, rest: seq<byte>)
    requires x == head + (before + (rec + rest))
    ensures |head| + |before| + |rec| <= |x|
    ensures x[|head| + |before|..|head| + |before| + |rec|] == rec
  {
    assert x == (head + before) + (rec + rest);
    SliceMiddle(x, head + before, rec, rest);
  }

  /** The records are those before k, record k, then those after it. */
  lemma EncodePlayersSplit(ps: seq<PlayerRecord>, k: nat)
    requires k < |ps|
    ensures EncodePlayers(ps) == EncodePlayers(ps[..k]) + (EncodePlayer(ps[k]) + EncodePlayers(ps[k + 1..]))
  {
    SliceAround(ps, k);
    EncodePlayersOfAppend(ps, ps[..k], ps[k..]);
    EncodePlayersOfCons(ps[k..], ps[k], ps[k + 1..]);
  }

  lemma SliceAround<T>(s: seq<T>, k: nat)
    requires k < |s|
    ensures s == s[..k] + s[k..] && s[k..] == [s[k]] + s[k + 1..]
  {
  }

  /** EncodePlayersCons for a list already known to be [p] + rest. */
  lemma EncodePlayersOfCons(ps: seq<PlayerRecord>, p: PlayerRecord, rest: seq<PlayerRecord>)
    requires ps == [p] + rest
    ensures EncodePlayers(ps) == EncodePlayer(p) + EncodePlayers(rest)
  {
    EncodePlayersCons(p, rest);
  }

  /** EncodePlayersAppend for a list already known to be a + b. */
  lemma EncodePlayersOfAppend(ps: seq<PlayerRecord>, a: seq<PlayerRecord>, b: seq<PlayerRecord>)
    requires ps == a + b
    ensures EncodePlayers(ps) == EncodePlayers(a) + EncodePlayers(b)
  {
    EncodePlayersAppend(a, b);
  }

  /** In a + b + c, the bytes after a are b. */
  lemma SliceMiddle(x: seq<byte>, a: seq<byte>, b: seq<byte>, c: seq<byte>)
    requires x == a + (b + c)
    ensures |a| + |b| <= |x| && x[|a|..|a| + |b|] == b
  {
    assert x[|a|..][..|b|] == b;
  }

  // ---------------------------------------------------------------------
  // Reading a reply back
  // ---------------------------------------------------------------------

  /** Reads one record, or fails. */
  function ReadPlayer(bs: seq<byte>): Option<(PlayerRecord, seq<byte>)> {
    var index :- ReadN(bs, 1);
    var name :- ReadCStr(index.1);
    var score :- ReadN(name.1, 4);
    var duration :- ReadN(score.1, 4);
    Some((PlayerRecord(index.0[0], name.0, DecodeI32(score.0), duration.0), duration.1))
  }

  /** Reads exactly n records that use up all of bs, or fails. */
  function ReadPlayers(bs: seq<byte>, n: nat): Option<seq<PlayerRecord>>
    decreases n
  {
    if n == 0 then (if bs == [] then Some([]) else None)
    else
      var first :- ReadPlayer(bs);
      var others :- ReadPlayers(first.1, n - 1);
      Some([first.0] + others)
  }

  /** What a client does with the reply: recover the records, or fail. */
  function DecodePlayersResponse(bs: seq<byte>): Option<seq<PlayerRecord>> {
    var h :- ReadN(bs, 6);
    if h.0[..5] != SimpleResponseMarker + [PlayerResponseHeader] then None
    else ReadPlayers(h.1, h.0[5])
  }

  lemma ReadPlayerOf(p: PlayerRecord, rest: seq<byte>)
    requires RecordWellFormed(p)
    ensures ReadPlayer(EncodePlayer(p) + rest) == Some((p, rest))
  {
    var score := EncodeI32(p.score);
    assert EncodePlayer(p) + rest == [p.index] + (CStr(p.name) + (score + (p.duration + rest)));
    ReadNOf([p.index], CStr(p.name) + (score + (p.duration + rest)));
    ReadCStrOfCStr(p.name, score + (p.duration + rest));
    ReadNOf(score, p.duration + rest);
    ReadNOf(p.duration, rest);
    I32RoundTrip(p.score, score);
  }

  lemma {:induction false} ReadPlayersOf(ps: seq<PlayerRecord>)
    requires AllWellFormed(ps)
    ensures ReadPlayers(EncodePlayers(ps), |ps|) == Some(ps)
    decreases |ps|
  {
    if ps != [] {
      var others := ps[1..];
      assert ps == [ps[0]] + others;
      EncodePlayersCons(ps[0], others);
      ReadPlayerOf(ps[0], EncodePlayers(others));
      ReadPlayersOf(others);
    }
  }

  /** Round trip: a client decoding the reply recovers every record, in order. */
  lemma PlayersResponseRoundTrip(ps: seq<PlayerRecord>)
    requires |ps| < 0x100 && AllWellFormed(ps)
    ensures DecodePlayersResponse(PlayersResponse(ps)) == Some(ps)
  {
    var head := SimpleResponseMarker + [PlayerResponseHeader, |ps|];
    ReadNOf(head, EncodePlayers(ps));
    ReadPlayersOf(ps);
  }

  // ---------------------------------------------------------------------
  // The synthetic player list
  // ---------------------------------------------------------------------

  /** "Player" followed by k + 1 in decimal. */
  function PlayerName(k: nat): (name: seq<byte>)
    ensures NoNul(name)
  {
    DecimalNoNul(k + 1);
    PlayerPrefix + Decimal(k + 1)
  }

  /** The name is the prefix and then digits that read back as k + 1. */
  lemma PlayerNameReads(k: nat)
    ensures |PlayerName(k)| >= 7 && PlayerName(k)[..6] == PlayerPrefix
    ensures DecimalValue(PlayerName(k)[6..]) == k + 1
  {
    assert PlayerName(k)[6..] == Decimal(k + 1);
    DecimalRoundTrip(k + 1);
  }

  /** Player k: ordinal k, name "Player<k+1>", score 0, connected for 32.0 seconds. */
  function SyntheticPlayer(k: byte): (p: PlayerRecord)
    ensures RecordWellFormed(p)
  {
    PlayerRecord(k, PlayerName(k), 0, PlayerDuration)
  }

  /** Players 0 .. n - 1. */
  function SyntheticPlayers(n: nat): (ps: seq<PlayerRecord>)
    requires n <= 0x100
    ensures |ps| == n && AllWellFormed(ps)
    ensures forall k :: 0 <= k < n ==> ps[k] == SyntheticPlayer(k)
  {
    if n == 0 then [] else SyntheticPlayers(n - 1) + [SyntheticPlayer(n - 1)]
  }

  /** Appending a record's fields, in order, to a reply extends its record list by that record. */
  lemma AppendRecord(header: seq<byte>, before: seq<byte>, ps: seq<PlayerRecord>, p: PlayerRecord)
    requires RecordWellFormed(p)
    requires before == header + EncodePlayers(ps)
    ensures before + [p.index] + CStr(p.name) + EncodeI32(p.score) + p.duration
         == header + EncodePlayers(ps + [p])
  {
    var rec := EncodePlayer(p);
    assert EncodePlayers(ps + [p]) == EncodePlayers(ps) + rec by {
      EncodePlayersAppend(ps, [p]);
      EncodePlayersCons(p, []);
      assert [p] + [] == [p];
    }
    Reassociate5(before, [p.index], CStr(p.name), EncodeI32(p.score), p.duration);
  }

  lemma Reassociate5(a: seq<byte>, b: seq<byte>, c: seq<byte>, d: seq<byte>, e: seq<byte>)
    ensures a + b + c + d + e == a + (b + c + d + e)
  {
  }

  /** The reply's first six bytes, written out. */
  lemma PlayersResponseHeader(ps: seq<PlayerRecord>)
    requires |ps| < 0x100
    ensures PlayersResponse(ps) == [0xFF, 0xFF, 0xFF, 0xFF, PlayerResponseHeader, |ps|] + EncodePlayers(ps)
  {
  }

  /**
    Builds the player reply step by step, one record per loop iteration,
    in the source's order: ordinal, name with NUL, score, duration.
   */
  method BuildPlayersResponse() returns (response: seq<byte>)
    ensures response == PlayersResponse(SyntheticPlayers(ServerCurrentPlayers))
  {
    response := [0xFF, 0xFF, 0xFF, 0xFF, PlayerResponseHeader, ServerCurrentPlayers];
    ghost var header := response;
    assert response == header + EncodePlayers(SyntheticPlayers(0));
    for i := 0 to ServerCurrentPlayers
      invariant response == header + EncodePlayers(SyntheticPlayers(i))
    {
      var name := PlayerName(i);
      var score: int32 := 0;
      AppendRecord(header, response, SyntheticPlayers(i), SyntheticPlayer(i));
      response := response + [i];
      response := response + CStr(name);
      response := response + EncodeI32(score);
      response := response + PlayerDuration;
    }
    PlayersResponseHeader(SyntheticPlayers(ServerCurrentPlayers));
  }

  /** Player k's record: ordinal k, "Player<k+1>" and NUL, score 0 as 4 LE bytes, 32.0 as f32. */
  lemma SyntheticRecord(k: byte)
    ensures EncodePlayer(SyntheticPlayer(k)) == [k] + CStr(PlayerName(k)) + [0, 0, 0, 0] + [0x00, 0x00, 0x00, 0x42]
  {
    EncodeI32Zero();
  }

  lemma EncodeI32Zero()
    ensures EncodeI32(0) == [0, 0, 0, 0]
  {
    I32RoundTrip(0, [0, 0, 0, 0]);
    Pow256Values();
  }

  /** Bytes taken by players 0 .. n - 1: 17 each, plus one more from player 9 on. */
  lemma {:induction false} SyntheticRecordsLength(n: nat)
    requires n <= 99
    ensures RecordsLength(SyntheticPlayers(n)) == 17 * n + (if n > 9 then n - 9 else 0)
  {
    if n > 0 {
      var ps := SyntheticPlayers(n);
      assert ps[..n - 1] == SyntheticPlayers(n - 1);
      SyntheticRecordsLength(n - 1);
      DecimalLength(n);
    }
  }

  /** The server's player reply is 573 bytes: 6 of header, 9 records of 17, 23 of 18. */
  lemma ServerPlayersLength()
    ensures |PlayersResponse(SyntheticPlayers(ServerCurrentPlayers))| == 573
  {
    EncodePlayersLength(SyntheticPlayers(ServerCurrentPlayers));
    SyntheticRecordsLength(ServerCurrentPlayers);
  }

  /** The server's player reply decodes to 32 records whose ordinals are 0, 1, ..., 31. */
  lemma ServerPlayersDecode()
    ensures var r := DecodePlayersResponse(PlayersResponse(SyntheticPlayers(ServerCurrentPlayers)));
      && r.Some? && |r.value| == ServerCurrentPlayers as nat
      && (forall k :: 0 <= k < |r.value| ==> r.value[k].index == k)
      && (forall k :: 0 <= k < |r.value| ==> r.value[k].name == PlayerName(k))
  {
    PlayersResponseRoundTrip(SyntheticPlayers(ServerCurrentPlayers));
  }

  // ---------------------------------------------------------------------
  // The handler
  // ---------------------------------------------------------------------

  /** The challenge in a players payload: exactly 4 bytes as LE i32, otherwise 0. */
  function PayloadChallenge(buf: seq<byte>): (c: int32)
  {
    if |buf| == 4 then DecodeI32(buf) else 0
  }

  /** A 4-byte payload is exactly the encoding of its challenge; any other length reads as 0. */
  lemma PayloadChallengeCases(buf: seq<byte>, c: int32)
    ensures |buf| != 4 ==> PayloadChallenge(buf) == 0
    ensures PayloadChallenge(EncodeI32(c)) == c
    ensures |buf| == 4 ==> EncodeI32(PayloadChallenge(buf)) == buf
  {
    I32RoundTrip(c, EncodeI32(c));
    if |buf| == 4 {
      I32RoundTrip(c, buf);
    }
  }

  /**
    What handling one players payload from src does: the outcome and the
    challenge map afterwards. `random` is the number the generator would
    draw if a challenge is issued.
   */
  function PlayersStep(buf: seq<byte>, src: SocketAddr, m: map<SocketAddr, int32>, random: int32)
    : (Outcome, map<SocketAddr, int32>)
  {
    var c := PayloadChallenge(buf);
    if c == 0 then (Sent(ChallengePacket(random)), Issue(m, src, random))
    else
      (if Matches(m, src, c) then Sent(PlayersResponse(SyntheticPlayers(ServerCurrentPlayers))) else Silent,
       Consume(m, src))
  }

  /** Handles the payload of a players request (the bytes after `FF FF FF FF 55`). */
  method HandlePlayers(buf: seq<byte>, src: SocketAddr, store: ChallengeStore, random: int32)
    returns (outcome: Outcome)
    modifies store
    ensures (outcome, store.numbers) == PlayersStep(buf, src, old(store.numbers), random)
  {
    var challenge: int32 := 0;
    if |buf| == 4 {
      challenge := DecodeI32(buf);
    }
    if challenge == 0 {
      var response := store.GenerateChallenge(src, random);
      return Sent(response);
    }
    var valid := store.IsChallengeValid(src, challenge);
    if !valid {
      return Silent;
    }
    var response := BuildPlayersResponse();
    return Sent(response);
  }

  // ---------------------------------------------------------------------
  // Properties of the handler
  // ---------------------------------------------------------------------

  /**
    The players handler never panics: every payload is answered or ignored.
    The one fallible step on the reply path, building a player name as a C
    string, cannot fail, because no name holds a NUL byte.
   */
  lemma PlayersNeverPanics(buf: seq<byte>, src: SocketAddr, m: map<SocketAddr, int32>, random: int32, k: nat)
    ensures !PlayersStep(buf, src, m, random).0.Panicked?
    ensures NoNul(PlayerName(k))
  {
  }

  /**
    No challenge: a payload that is not 4 bytes, or is the challenge 0,
    issues a fresh challenge to src and replies with the 9-byte challenge
    packet.
   */
  lemma PlayersProbe(buf: seq<byte>, src: SocketAddr, m: map<SocketAddr, int32>, random: int32)
    requires |buf| != 4 || buf == [0, 0, 0, 0]
    ensures PlayersStep(buf, src, m, random) == (Sent(ChallengePacket(random)), Issue(m, src, random))
    ensures |ChallengePacket(random)| == 9
  {
    ChallengePacketLayout(random);
    if |buf| == 4 {
      EncodeI32Zero();
      PayloadChallengeCases(buf, 0);
    }
  }

  /**
    A nonzero challenge c consumes src's entry and replies with the player
    list exactly when c matched it; otherwise there is no reply.
   */
  lemma PlayersChallenged(c: int32, src: SocketAddr, m: map<SocketAddr, int32>, random: int32)
    requires c != 0
    ensures PlayersStep(EncodeI32(c), src, m, random)
         == (if src in m && m[src] == c then Sent(PlayersResponse(SyntheticPlayers(ServerCurrentPlayers))) else Silent,
             Consume(m, src))
  {
    PayloadChallengeCases([], c);
  }

  /**
    A stored challenge of 0 is never redeemed by this handler: echoing it
    back reads as "no challenge" and overwrites it with a fresh one.
   */
  lemma PlayersZeroNotRedeemable(src: SocketAddr, m: map<SocketAddr, int32>, random: int32)
    requires src in m && m[src] == 0
    ensures PlayersStep(EncodeI32(0), src, m, random).0 == Sent(ChallengePacket(random))
    ensures PlayersStep(EncodeI32(0), src, m, random).1[src] == random
  {
    PayloadChallengeCases([], 0);
  }

  /**
    The two-step exchange: an empty request yields a challenge packet
    carrying V; if V is nonzero, sending V back yields the player list and
    uses the entry up, so sending it again yields nothing.
   */
  lemma PlayersTwoStep(src: SocketAddr, m: map<SocketAddr, int32>, random: int32, random2: int32, random3: int32)
    requires random != 0
    ensures var (first, m1) := PlayersStep([], src, m, random);
      && first == Sent(ChallengePacket(random))
      && DecodeChallengePacket(first.packet) == Some(random)
      && var (second, m2) := PlayersStep(EncodeI32(random), src, m1, random2);
      && second == Sent(PlayersResponse(SyntheticPlayers(ServerCurrentPlayers)))
      && src !in m2
      && PlayersStep(EncodeI32(random), src, m2, random3) == (Silent, m2)
  {
    ChallengePacketRoundTrip(random, []);
    var m1 := Issue(m, src, random);
    PlayersChallenged(random, src, m1, random2);
    PlayersChallenged(random, src, Consume(m1, src), random3);
    assert Consume(Consume(m1, src), src) == Consume(m1, src);
  }

  /**
    No amplification: toward an address holding no outstanding challenge,
    the handler never sends more than the 9-byte challenge reply.
   */
  lemma PlayersNoAmplification(buf: seq<byte>, src: SocketAddr, m: map<SocketAddr, int32>, random: int32)
    requires src !in m
    ensures var out := PlayersStep(buf, src, m, random).0;
      out.Sent? ==> out.packet == ChallengePacket(random) && |out.packet| == 9
  {
    ChallengePacketLayout(random);
  }
}
