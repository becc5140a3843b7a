/** Receipts, bundles and the outside world of one verification. */
module Receipts {
  import opened Wrappers
  import opened Policies

  const TWO_TO_63 := 0x8000_0000_0000_0000

  /** The verifier's signed 64-bit times, in seconds. */
  type Int64 = x: int | -TWO_TO_63 <= x < TWO_TO_63

  /** A sum or difference of two of them as 64-bit arithmetic leaves it. */
  function Wrap64(x: int): (r: Int64)
    requires -2 * TWO_TO_63 <= x < 2 * TWO_TO_63
    ensures r == x || r == x - 2 * TWO_TO_63 || r == x + 2 * TWO_TO_63
  {
    if x >= TWO_TO_63 then x - 2 * TWO_TO_63
    else if x < -TWO_TO_63 then x + 2 * TWO_TO_63
    else x
  }

  datatype ConsentRecord = ConsentRecord(
    consentMethod: string, timestamp: string, sessionId: string, policyHash: string, locale: string)

  datatype Regulatory = Regulatory(frameworks: seq<string>, riskLevel: string, retentionDays: nat)

  datatype DelegationReceipt = DelegationReceipt(
    iss: string, sub: string, aud: string,
    drsV: string, drsType: string,
    cmd: string, policy: Policy,
    nbf: int, exp: Option<int>, iat: int, jti: string,
    prevDrHash: Option<string>,
    consent: Option<ConsentRecord>,
    rootType: Option<string>,
    regulatory: Option<Regulatory>,
    statusListIndex: Option<nat>,
    correlationId: Option<string>)

  datatype InvocationReceipt = InvocationReceipt(
    iss: string, sub: string,
    drsV: string, drsType: string,
    cmd: string, args: Args,
    drChain: seq<string>,
    toolServer: string,
    iat: Int64, jti: string)

  /** Receipts root first, each a JWT text. */
  datatype Bundle = Bundle(receipts: seq<string>, invocation: string)

  /** The parts of the platform that are the same for every request: the chain
      hash of a JWT, payload decoding, and the blankness test on consent fields.
      Nothing is assumed about these functions unless a lemma says so. */
  datatype Platform = Platform(
    hash: string -> string,
    decodeReceipt: string -> Option<DelegationReceipt>,
    decodeInvocation: string -> Option<InvocationReceipt>,
    blank: string -> bool)

  datatype SignatureFault = NonCanonical | BadSignature

  datatype RevocationAnswer = Revoked | NotRevoked | Unavailable

  /** Whether the text of a resolution error, which quotes the identifier, holds one of
      the phrases that the verifier takes for a resolution failure. */
  datatype ResolveFault = Recognised | Unrecognised

  /** What one verification call finds outside: resolved issuer keys, the order in which
      the resolutions of some identifiers come in, signature verdicts, and the two revocation sources when they are configured. */
  datatype World = World(
    resolve: string -> Result<seq<nat>, ResolveFault>,
    arrival: seq<string> -> seq<string>,
    signature: (string, seq<nat>) -> Option<SignatureFault>,
    remoteRevocation: Option<nat -> RevocationAnswer>,
    localRevocation: Option<set<nat>>)

  /** `maxInvocationAge` is in seconds; zero disables the age limit. */
  datatype Settings = Settings(serverIdentity: string, maxInvocationAge: nat)

  /** The hash tells these strings apart. */
  ghost predicate CollisionFree(hash: string -> string, strings: set<string>) {
    forall x, y | x in strings && y in strings && hash(x) == hash(y) :: x == y
  }
}
