/**
  The challenge store: a map from client address to the outstanding
  challenge number issued to it. `GenerateChallenge` issues (insert or
  overwrite) and returns the 9-byte challenge reply; `IsChallengeValid`
  compares a candidate against the entry and then always removes it.
 */
module Challenge {
  import opened Wrappers
  import opened Bytes

  /** A client's socket address (IP address bytes and UDP port). */
  datatype SocketAddr = SocketAddr(ip: seq<byte>, port: uint16)

  /** The 4-byte marker that starts every single-packet reply. */
  const SimpleResponseMarker: seq<byte> := [0xFF, 0xFF, 0xFF, 0xFF]

  /** Reply type selector of the challenge reply ('A'). */
  const ChallengeResponseHeader: byte := 0x41

  // ---------------------------------------------------------------------
  // The challenge reply packet
  // ---------------------------------------------------------------------

  /** `FF FF FF FF 41` followed by the challenge number, little-endian. */
  function ChallengePacket(v: int32): (p: seq<byte>)
  {
    SimpleResponseMarker + [ChallengeResponseHeader] + EncodeI32(v)
  }

  /** What a client does with the reply: recover the challenge number. */
  function DecodeChallengePacket(p: seq<byte>): (r: Option<int32>)
  {
    if |p| == 9 && p[..5] == SimpleResponseMarker + [ChallengeResponseHeader]
    then Some(DecodeI32(p[5..]))
    else None
  }

  /** The reply is exactly nine bytes: the marker, 'A', and the 4 LE bytes of v. */
  lemma ChallengePacketLayout(v: int32)
    ensures |ChallengePacket(v)| == 9
    ensures ChallengePacket(v)[..5] == [0xFF, 0xFF, 0xFF, 0xFF, 0x41]
    ensures ChallengePacket(v)[5..] == EncodeI32(v)
    ensures DecodeI32(ChallengePacket(v)[5..]) == v
  {
    I32RoundTrip(v, EncodeI32(v));
  }

  /** Decoding is the exact inverse of building the reply, in both directions. */
  lemma ChallengePacketRoundTrip(v: int32, p: seq<byte>)
    ensures DecodeChallengePacket(ChallengePacket(v)) == Some(v)
    ensures DecodeChallengePacket(p) == Some(v) ==> p == ChallengePacket(v)
  {
    ChallengePacketLayout(v);
    if DecodeChallengePacket(p) == Some(v) {
      I32RoundTrip(v, p[5..]);
      assert p == p[..5] + p[5..];
    }
  }

  // ---------------------------------------------------------------------
  // The store as a value: issuing and consuming entries
  // ---------------------------------------------------------------------

  /** The store after issuing v to src: src maps to v, nobody else changes. */
  function Issue(m: map<SocketAddr, int32>, src: SocketAddr, v: int32): (m': map<SocketAddr, int32>)
    ensures src in m' && m'[src] == v
    ensures m'.Keys == m.Keys + {src}
    ensures forall a :: a in m && a != src ==> m'[a] == m[a]
  {
    m[src := v]
  }

  /** Whether candidate c matches the entry of src (no entry: no match). */
  predicate Matches(m: map<SocketAddr, int32>, src: SocketAddr, c: int32) {
    match Lookup(m, src)
    case Some(n) => c == n
    case None => false
  }

  function Lookup(m: map<SocketAddr, int32>, a: SocketAddr): Option<int32> {
    if a in m then Some(m[a]) else None
  }

  /** The store after a validation of src: its entry is gone, all others stay. */
  function Consume(m: map<SocketAddr, int32>, src: SocketAddr): (m': map<SocketAddr, int32>)
    ensures src !in m'
    ensures m'.Keys == m.Keys - {src}
    ensures forall a :: a in m' ==> m'[a] == m[a]
  {
    m - {src}
  }

  /** A candidate is accepted exactly when src holds an entry equal to it. */
  lemma MatchesIff(m: map<SocketAddr, int32>, src: SocketAddr, c: int32)
    ensures Matches(m, src, c) <==> src in m && m[src] == c
  {
  }

  /** Issuing to b neither creates, changes nor removes the entry of another a. */
  lemma IssueIsolation(m: map<SocketAddr, int32>, a: SocketAddr, b: SocketAddr, v: int32, c: int32)
    requires a != b
    ensures Lookup(Issue(m, b, v), a) == Lookup(m, a)
    ensures Matches(Issue(m, b, v), a, c) == Matches(m, a, c)
  {
  }

  /** Consuming b's entry leaves the entry and outcome for another a alone. */
  lemma ConsumeIsolation(m: map<SocketAddr, int32>, a: SocketAddr, b: SocketAddr, c: int32)
    requires a != b
    ensures Lookup(Consume(m, b), a) == Lookup(m, a)
    ensures Matches(Consume(m, b), a, c) == Matches(m, a, c)
  {
  }

  // ---------------------------------------------------------------------
  // Sequences of store operations
  // ---------------------------------------------------------------------

  /** One call into the store, with the random number drawn for an issue. */
  datatype StoreOp =
    | IssueOp(addr: SocketAddr, value: int32)
    | ValidateOp(addr: SocketAddr, candidate: int32)

  /** Applies one call; the boolean is the validation verdict (false for issues). */
  function Step(m: map<SocketAddr, int32>, op: StoreOp): (bool, map<SocketAddr, int32>)
  {
    match op
    case IssueOp(a, v) => (false, Issue(m, a, v))
    case ValidateOp(a, c) => (Matches(m, a, c), Consume(m, a))
  }

  /** The store after running ops in order. */
  function Run(m: map<SocketAddr, int32>, ops: seq<StoreOp>): map<SocketAddr, int32>
    decreases |ops|
  {
    if ops == [] then m else Run(Step(m, ops[0]).1, ops[1..])
  }

  /** How many of the ops are validations of a that were accepted. */
  function Accepted(m: map<SocketAddr, int32>, ops: seq<StoreOp>, a: SocketAddr): nat
    decreases |ops|
  {
    if ops == [] then 0
    else
      var (ok, m') := Step(m, ops[0]);
      (if ok && ops[0].addr == a then 1 else 0) + Accepted(m', ops[1..], a)
  }

  /** How many of the ops issue a challenge to a. */
  function Issued(ops: seq<StoreOp>, a: SocketAddr): nat
  {
    if ops == [] then 0
    else (if ops[0].IssueOp? && ops[0].addr == a then 1 else 0) + Issued(ops[1..], a)
  }

  /**
    Single use: over any run, the validations of a that succeed are at most
    the challenges issued to a, plus one if a already held an entry.
   */
  lemma {:induction false} AcceptedAtMostIssued(m: map<SocketAddr, int32>, ops: seq<StoreOp>, a: SocketAddr)
    ensures Accepted(m, ops, a) <= Issued(ops, a) + (if a in m then 1 else 0)
    decreases |ops|
  {
    if ops != [] {
      var m' := Step(m, ops[0]).1;
      AcceptedAtMostIssued(m', ops[1..], a);
    }
  }

  /** Without an entry and without a new issue, no validation of a succeeds. */
  lemma NoAcceptWithoutIssue(m: map<SocketAddr, int32>, ops: seq<StoreOp>, a: SocketAddr)
    requires a !in m && Issued(ops, a) == 0
    ensures Accepted(m, ops, a) == 0
  {
    AcceptedAtMostIssued(m, ops, a);
  }

  /**
    The handshake: after v is issued to a and any calls about other
    addresses, the first validation of a with v succeeds; after it, no
    validation of a succeeds until a is issued a challenge again.
   */
  lemma SingleUse(m: map<SocketAddr, int32>, a: SocketAddr, v: int32,
                  between: seq<StoreOp>, after: seq<StoreOp>)
    requires forall i :: 0 <= i < |between| ==> between[i].addr != a
    requires Issued(after, a) == 0
    ensures Step(Run(Issue(m, a, v), between), ValidateOp(a, v)).0
    ensures Accepted(Step(Run(Issue(m, a, v), between), ValidateOp(a, v)).1, after, a) == 0
  {
    var m1 := Run(Issue(m, a, v), between);
    RunIsolation(Issue(m, a, v), between, a);
    assert Lookup(m1, a) == Some(v);
    NoAcceptWithoutIssue(Consume(m1, a), after, a);
  }

  /** Operations on other addresses never change a's entry. */
  lemma {:induction false} RunIsolation(m: map<SocketAddr, int32>, ops: seq<StoreOp>, a: SocketAddr)
    requires forall i :: 0 <= i < |ops| ==> ops[i].addr != a
    ensures Lookup(Run(m, ops), a) == Lookup(m, a)
    decreases |ops|
  {
    if ops != [] {
      RunIsolation(Step(m, ops[0]).1, ops[1..], a);
    }
  }

  // ---------------------------------------------------------------------
  // The store as the process-wide mutable map
  // ---------------------------------------------------------------------

  class ChallengeStore {
    /** Outstanding challenge number per client address. */
    var numbers: map<SocketAddr, int32>

    constructor ()
      ensures numbers == map[]
    {
      numbers := map[];
    }

    /**
      Issues `random` (the value drawn from the random number generator) to
      src, overwriting any earlier entry, and returns the challenge reply.
     */
    method GenerateChallenge(src: SocketAddr, random: int32) returns (packet: seq<byte>)
      modifies this
      ensures numbers == Issue(old(numbers), src, random)
      ensures packet == ChallengePacket(random)
    {
      numbers := numbers[src := random];
      packet := [0xFF, 0xFF, 0xFF, 0xFF, ChallengeResponseHeader] + EncodeI32(random);
    }

    /** Compares the candidate with src's entry, then removes the entry. */
    method IsChallengeValid(src: SocketAddr, challenge: int32) returns (valid: bool)
      modifies this
      ensures valid == Matches(old(numbers), src, challenge)
      ensures numbers == Consume(old(numbers), src)
    {
      if src in numbers {
        valid := challenge == numbers[src];
      } else {
        valid := false;
      }
      numbers := numbers - {src};
    }
  }
}
