/**
 The WebAuthn assertion ceremony (auth/webauthn.go): what an authenticator's answer must contain, byte by
 byte, for a login to go on. JSON, hashing and the signature itself are functions without laws.
 */
module WebAuthn {
  import opened Bytes
  import opened Options
  import Cbor
  import LoginHistory

  const DEFAULT_RP_ID := "ghost-stack.local"
  const DEFAULT_ORIGIN := "https://ghost-stack.local"
  const CEREMONY_TYPE := "webauthn.get"

  datatype Attestation = Attestation(credentialId: seq<Byte>, publicKey: seq<Byte>, signCount: nat)

  /** The client's answer, as raw bytes. */
  datatype Assertion = Assertion(credentialId: seq<Byte>, authData: seq<Byte>, clientData: seq<Byte>,
                                 signature: seq<Byte>)

  /** The parsed client data; a challenge that is not base64 has no value. */
  datatype ClientData = ClientData(typ: string, challenge: Option<string>, origin: string)

  datatype Challenge = Challenge(bytes: string, expiresAt: int)

  datatype RelyingParty = RelyingParty(id: string, origin: string)

  /** Parsing, the hash of the relying party's identifier, the curve, and the signature over both data. */
  datatype Checks = Checks(parse: seq<Byte> -> Option<ClientData>, rpIdHash: string -> seq<Byte>,
                           onCurve: (seq<Byte>, seq<Byte>) -> bool,
                           signed: (nat, nat, seq<Byte>, seq<Byte>, seq<Byte>) -> bool)

  /** The configured relying party; empty fields stand for the defaults. */
  function Effective(rp: RelyingParty): RelyingParty {
    RelyingParty(if rp.id != "" then rp.id else DEFAULT_RP_ID, if rp.origin != "" then rp.origin else DEFAULT_ORIGIN)
  }

  /** Clone detection: the counter increases, except for a device that always reports zero. */
  predicate CounterAdvances(last: nat, count: nat) {
    count > last || (count == 0 && last == 0)
  }

  /** The counter of the authenticator data, if they are long enough to hold one. */
  function SignCount(authData: seq<Byte>): nat {
    if |authData| < 37 then 0 else Cbor.BigEndian(authData[33..37])
  }

  predicate ClientDataOk(k: Checks, rp: RelyingParty, challenge: Challenge, a: Assertion) {
    match k.parse(a.clientData)
    case None => false
    case Some(d) => d.typ == CEREMONY_TYPE && d.challenge == Some(challenge.bytes) && d.origin == Effective(rp).origin
  }

  predicate AuthDataOk(k: Checks, rp: RelyingParty, last: nat, authData: seq<Byte>) {
    && |authData| >= 37 && authData[..32] == k.rpIdHash(Effective(rp).id)
    && authData[32] % 2 == 1 && CounterAdvances(last, SignCount(authData))
  }

  predicate SignatureOk(k: Checks, att: Attestation, a: Assertion) {
    match Cbor.CoseKeyToECDSA(att.publicKey, k.onCurve)
    case Rejected(_) => false
    case Key(x, y) => k.signed(x, y, a.authData, a.clientData, a.signature)
  }

  predicate AssertionAccepted(k: Checks, rp: RelyingParty, att: Attestation, challenge: Challenge, a: Assertion, now: int) {
    && now <= challenge.expiresAt && a.credentialId == att.credentialId
    && ClientDataOk(k, rp, challenge, a) && AuthDataOk(k, rp, att.signCount, a.authData) && SignatureOk(k, att, a)
  }

  /** The checks in their order, each of which ends the ceremony. */
  method CheckAssertion(k: Checks, rp: RelyingParty, att: Attestation, challenge: Challenge, a: Assertion, now: int)
    returns (accepted: bool)
    ensures accepted == AssertionAccepted(k, rp, att, challenge, a, now)
  {
    if now > challenge.expiresAt || a.credentialId != att.credentialId {
      return false;
    }
    var parsed := k.parse(a.clientData);
    if parsed.None? || parsed.value.typ != CEREMONY_TYPE || parsed.value.challenge.None? {
      return false;
    }
    if parsed.value.challenge.value != challenge.bytes || parsed.value.origin != Effective(rp).origin {
      return false;
    }
    if |a.authData| < 37 || a.authData[..32] != k.rpIdHash(Effective(rp).id) || a.authData[32] % 2 == 0 {
      return false;
    }
    var count := Cbor.BigEndian(a.authData[33..37]);
    if count <= att.signCount && (att.signCount != 0 || count != 0) {
      return false;
    }
    var key := Cbor.CoseKeyToECDSA(att.publicKey, k.onCurve);
    if key.Rejected? || !k.signed(key.x, key.y, a.authData, a.clientData, a.signature) {
      return false;
    }
    return true;
  }

  /**
   An accepted assertion was signed by the registered key: the stored bytes begin with the encoding of an
   ES256 key on the curve, and the signature verifies under exactly its coordinates.
   */
  lemma AcceptedUnderRegisteredKey(k: Checks, rp: RelyingParty, att: Attestation, challenge: Challenge, a: Assertion,
                                   now: int)
    returns (item: Cbor.Item, x: seq<Byte>, y: seq<Byte>)
    requires AssertionAccepted(k, rp, att, challenge, a, now)
    ensures Cbor.WellFormed(item) && Cbor.Encode(item) <= att.publicKey
    ensures item.MapItem? && Cbor.IsEs256Key(Cbor.ValueOf(item).m, x, y) && k.onCurve(x, y)
    ensures k.signed(Cbor.BigEndian(x), Cbor.BigEndian(y), a.authData, a.clientData, a.signature)
  {
    hide Cbor.CoseKeyToECDSA, Cbor.Encode, Cbor.WellFormed, Cbor.ValueOf;
    item, x, y := Cbor.CoseAcceptsOnlyKeys(att.publicKey, k.onCurve);
  }

  // ----- what an accepted assertion said -----

  /** The assertion as the history records it. */
  function AnswerOf(k: Checks, rp: RelyingParty, att: Attestation, a: Assertion): LoginHistory.Answer {
    var d := if k.parse(a.clientData).Some? then k.parse(a.clientData).value else ClientData("", None, "");
    var whole := |a.authData| >= 37;
    LoginHistory.Answer(a.clientData, d.typ, if d.challenge.Some? then d.challenge.value else "", d.origin,
                        if whole then a.authData[..32] else [], if whole then a.authData[32] else 0, a.credentialId,
                        LoginHistory.Expected(Effective(rp).origin, k.rpIdHash(Effective(rp).id), att.credentialId))
  }

  /** The recorded fields are those of the parsed client data. */
  predicate Parsed(k: Checks, a: LoginHistory.Answer) {
    k.parse(a.clientData) == Some(ClientData(a.typ, Some(a.challenge), a.origin))
  }

  /** An accepted assertion is a sincere answer to the challenge, in time. */
  lemma AcceptedIsSincere(k: Checks, rp: RelyingParty, att: Attestation, challenge: Challenge, a: Assertion, now: int)
    requires AssertionAccepted(k, rp, att, challenge, a, now)
    ensures LoginHistory.Sincere(AnswerOf(k, rp, att, a), challenge.bytes) && Parsed(k, AnswerOf(k, rp, att, a))
    ensures now <= challenge.expiresAt && CounterAdvances(att.signCount, SignCount(a.authData))
  {
    hide SignatureOk, SignCount;
  }

  /** Authenticator data as an authenticator lays it out. */
  function AuthData(rpHash: seq<Byte>, flags: Byte, count: nat, rest: seq<Byte>): seq<Byte> {
    rpHash + [flags] + Cbor.ToBigEndian(count, 4) + rest
  }

  /**
   The answer of the registered authenticator to this challenge is accepted exactly when it comes in time,
   with the user present, and its counter is larger than the stored one or both are zero.
   */
  lemma HonestAnswerIff(k: Checks, rp: RelyingParty, att: Attestation, challenge: Challenge, a: Assertion, flags: Byte,
                        count: nat, rest: seq<Byte>, x: nat, y: nat, now: int)
    requires var id := if rp.id != "" then rp.id else "ghost-stack.local";
             |k.rpIdHash(id)| == 32 && a.authData == AuthData(k.rpIdHash(id), flags, count, rest)
    requires var origin := if rp.origin != "" then rp.origin else "https://ghost-stack.local";
             k.parse(a.clientData) == Some(ClientData("webauthn.get", Some(challenge.bytes), origin))
    requires count < 0x1_0000_0000 && a.credentialId == att.credentialId
    requires Cbor.CoseKeyToECDSA(att.publicKey, k.onCurve) == Cbor.Key(x, y)
    requires k.signed(x, y, a.authData, a.clientData, a.signature)
    ensures SignCount(a.authData) == count
    ensures AssertionAccepted(k, rp, att, challenge, a, now)
       <==> now <= challenge.expiresAt && flags % 2 == 1 && (count > att.signCount || count == att.signCount == 0)
  {
    hide Cbor.CoseKeyToECDSA;
    assert Cbor.Pow256(4) == 0x1_0000_0000;
    Cbor.BigEndianInverts(count, 4);
    assert a.authData[33..37] == Cbor.ToBigEndian(count, 4);
    hide Cbor.BigEndian, Cbor.ToBigEndian, Cbor.Pow256;
  }

  // ----- counters -----

  /** The counters of one registration: the registered one, then the accepted ones. */
  ghost predicate Climbing(counts: seq<nat>) {
    forall i :: 0 <= i < |counts| - 1 ==> CounterAdvances(counts[i], counts[i + 1])
  }

  lemma ClimbingExtends(counts: seq<nat>, count: nat)
    requires Climbing(counts) && (counts != [] ==> CounterAdvances(counts[|counts| - 1], count))
    ensures Climbing(counts + [count])
  {
  }

  lemma {:induction false} ClimbingGrows(counts: seq<nat>, i: nat, j: nat)
    requires Climbing(counts) && i < j < |counts|
    ensures counts[i] < counts[j] || counts[i] == counts[j] == 0
    decreases j
  {
    assert CounterAdvances(counts[j - 1], counts[j - 1 + 1]);
    if i < j - 1 {
      ClimbingGrows(counts, i, j - 1);
    }
  }
}
