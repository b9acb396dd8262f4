/**
 The login and session manager: WebAuthn challenges, delivered codes, session tokens and their rotation
 (auth/session.go, auth/otp.go, auth/webauthn.go). Cryptography is a record of functions with stated
 laws; random draws and the time are parameters. Times are seconds.
 */
module Sessions {
  import opened LoginHistory
  import opened Options
  import opened WebAuthn

  const COMPANY_DOMAIN := "xio.cybersurhub.com"
  const SESSION_TTL: int := 8 * 3600
  const ROTATION_INTERVAL: int := 3600
  const OTP_TTL: int := 300
  const CHALLENGE_TTL: int := 120

  // ----- tokens -----

  datatype Payload = Payload(tokenId: string, binding: Binding, issuedAt: int, expiresAt: int, nonce: string)

  datatype SessionToken = SessionToken(
    tokenId: string, binding: Binding, issuedAt: int, expiresAt: int, rotatedAt: int, sealed: string, mac: string)

  /** Sealing, opening and the keyed hash, for the manager's keys. */
  datatype Crypto = Crypto(seal: Payload -> string, unseal: string -> Option<Payload>,
                           mac: (string, int, int, int, int) -> string)

  /** Decryption inverts encryption. */
  ghost predicate Lawful(c: Crypto) {
    forall p :: c.unseal(c.seal(p)) == Some(p)
  }

  /** The text fields are hashed one after another without separators. */
  function MacText(t: SessionToken): string {
    t.tokenId + t.binding.email + t.binding.device + t.binding.tier + t.sealed
  }

  function TokenMac(c: Crypto, t: SessionToken): string {
    c.mac(MacText(t), t.binding.dept, t.issuedAt, t.expiresAt, t.rotatedAt)
  }

  function CreateToken(c: Crypto, id: string, nonce: string, b: Binding, now: int): (t: SessionToken)
    ensures t.tokenId == id && t.binding == b && t.rotatedAt == now && t.expiresAt == now + SESSION_TTL
  {
    var sealed := c.seal(Payload(id, b, now, now + SESSION_TTL, nonce));
    var t := SessionToken(id, b, now, now + SESSION_TTL, now, sealed, "");
    t.(mac := TokenMac(c, t))
  }

  predicate MacMatches(c: Crypto, t: SessionToken) {
    t.mac == TokenMac(c, t)
  }

  /** verifyTokenPayload */
  predicate PayloadMatches(c: Crypto, t: SessionToken) {
    match c.unseal(t.sealed)
    case None => false
    case Some(p) =>
      p.tokenId == t.tokenId && p.binding == t.binding && p.issuedAt == t.issuedAt && p.expiresAt == t.expiresAt
  }

  predicate Authentic(c: Crypto, t: SessionToken) {
    MacMatches(c, t) && PayloadMatches(c, t)
  }

  /** The token expires one full lifetime after its last rotation. */
  predicate FullTerm(t: SessionToken) {
    t.expiresAt == t.rotatedAt + SESSION_TTL
  }

  /** A created token passes both integrity checks and lasts eight hours from its rotation time. */
  lemma CreatedTokenIsAuthentic(c: Crypto, id: string, nonce: string, b: Binding, now: int)
    requires Lawful(c)
    ensures var t := CreateToken(c, id, nonce, b, now);
            Authentic(c, t) && FullTerm(t) && t.expiresAt == t.rotatedAt + 28_800 == now + 28_800
  {
  }

  /** The sealed payload pins every field of the envelope but the rotation time. */
  lemma PayloadPinsEnvelope(c: Crypto, t: SessionToken, t': SessionToken)
    requires PayloadMatches(c, t) && PayloadMatches(c, t') && t.sealed == t'.sealed
    ensures t'.(rotatedAt := t.rotatedAt, mac := t.mac) == t
  {
  }

  lemma SameTail(before: string, s: string, s': string)
    ensures before + s == before + s' ==> s == s'
  {
    assert (before + s)[|before|..] == s && (before + s')[|before|..] == s';
  }

  /** The keyed hash separates its inputs. */
  ghost predicate MacInjective(c: Crypto) {
    forall a, b, d, e, i, j, x, y, r, s ::
      c.mac(a, d, i, x, r) == c.mac(b, e, j, y, s) ==> a == b && d == e && i == j && x == y && r == s
  }

  /** A token in which one field was swapped, everything else kept, no longer verifies. */
  lemma SwappedFieldIsCaught(c: Crypto, t: SessionToken, tier: string, sealed: string, n: int)
    requires MacInjective(c) && MacMatches(c, t)
    ensures tier != t.binding.tier ==> !MacMatches(c, t.(binding := t.binding.(tier := tier)))
    ensures sealed != t.sealed ==> !MacMatches(c, t.(sealed := sealed))
    ensures n != t.binding.dept ==> !MacMatches(c, t.(binding := t.binding.(dept := n)))
    ensures n != t.issuedAt ==> !MacMatches(c, t.(issuedAt := n))
    ensures n != t.expiresAt ==> !MacMatches(c, t.(expiresAt := n))
    ensures n != t.rotatedAt ==> !MacMatches(c, t.(rotatedAt := n))
  {
    SameTail(t.tokenId + t.binding.email + t.binding.device + t.binding.tier, t.sealed, sealed);
    var before := t.tokenId + t.binding.email + t.binding.device;
    if before + tier + t.sealed == before + t.binding.tier + t.sealed {
      assert |tier| == |t.binding.tier|;
      assert tier == (before + tier + t.sealed)[|before|..|before| + |tier|];
      assert t.binding.tier == (before + t.binding.tier + t.sealed)[|before|..|before| + |tier|];
    }
  }

  /** The hash alone does not: it cannot tell where the e-mail ends and the device begins. */
  lemma MacAloneIsAmbiguous(c: Crypto, t: SessionToken)
    requires MacMatches(c, t) && t.binding.device != ""
    ensures var b := t.binding;
            var t' := t.(binding := b.(email := b.email + b.device[..1], device := b.device[1..]));
            t' != t && MacMatches(c, t') && (PayloadMatches(c, t) ==> !PayloadMatches(c, t'))
  {
    var b := t.binding;
    var t' := t.(binding := b.(email := b.email + b.device[..1], device := b.device[1..]));
    assert b.device == b.device[..1] + b.device[1..];
    assert t.tokenId + (b.email + b.device[..1]) + b.device[1..] == t.tokenId + b.email + b.device;
    assert MacText(t') == MacText(t);
    assert |t'.binding.email| == |b.email| + 1;
  }

  // ----- the rest of the state -----

  datatype Otp = Otp(code: string, expiresAt: int)

  /** The text after the first '@' is the company domain. */
  predicate IsCompanyEmail(email: string) {
    if email == "" then false
    else if email[0] == '@' then email[1..] == COMPANY_DOMAIN
    else IsCompanyEmail(email[1..])
  }

  /** The text is a user without '@', followed by the tail. */
  predicate HasUser(email: string, user: string, tail: string) {
    '@' !in user && email == user + tail
  }

  lemma UserBeforeAt(user: string, tail: string)
    requires '@' !in user && user != ""
    ensures (user + tail)[0] != '@'
  {
    assert (user + tail)[0] == user[0];
  }

  lemma EmptyUser(email: string, tail: string)
    requires email != "" && email[0] == '@'
    ensures email == tail <==> exists user: string :: HasUser(email, user, tail)
  {
    forall user: string | '@' !in user && user != "" ensures (user + tail)[0] != '@' {
      UserBeforeAt(user, tail);
    }
    assert "" + tail == tail;
    if email == tail {
      assert HasUser(email, "", tail);
    }
  }

  lemma LongerUser(email: string, tail: string)
    requires email != "" && email[0] != '@' && tail != "" && tail[0] == '@'
    ensures (exists user: string :: HasUser(email, user, tail)) <==> exists user: string :: HasUser(email[1..], user, tail)
  {
    if user: string :| HasUser(email[1..], user, tail) {
      assert email == ([email[0]] + user) + tail;
      assert HasUser(email, [email[0]] + user, tail);
    }
    if user: string :| HasUser(email, user, tail) {
      assert "" + tail == tail;
      assert HasUser(email[1..], user[1..], tail);
    }
  }

  lemma DomainAfterAt(email: string)
    requires email != "" && email[0] == '@'
    ensures email[1..] == COMPANY_DOMAIN <==> email == "@xio.cybersurhub.com"
  {
    assert "@xio.cybersurhub.com"[1..] == COMPANY_DOMAIN;
    assert email == [email[0]] + email[1..] && "@xio.cybersurhub.com" == ['@'] + COMPANY_DOMAIN;
  }

  /** Company e-mail is anything without an '@', followed by the domain. */
  lemma {:induction false} CompanyEmailIff(email: string)
    ensures IsCompanyEmail(email) <==> exists user: string :: HasUser(email, user, "@xio.cybersurhub.com")
  {
    hide HasUser;
    var tail := "@xio.cybersurhub.com";
    if email == "" {
      NoUser(tail);
    } else if email[0] == '@' {
      DomainAfterAt(email);
      EmptyUser(email, tail);
    } else {
      CompanyEmailIff(email[1..]);
      LongerUser(email, tail);
    }
  }

  lemma NoUser(tail: string)
    requires tail != ""
    ensures forall user: string :: !HasUser("", user, tail)
  {
  }

  // ----- what the state has to do with the history -----

  /** Every pending challenge is one that was drawn for its device, with its time limit, and not yet consumed. */
  ghost predicate ChallengesOk(h: History, pending: map<string, Challenge>, o: map<string, nat>) {
    && o.Keys == pending.Keys
    && forall d <- o :: o[d] < |h| && UnusedChallenge(h, o[d]) && h[o[d]].ChallengeIssued?
                        && h[o[d]] == ChallengeIssued(d, pending[d].bytes, pending[d].expiresAt - CHALLENGE_TTL)
  }

  /** Every pending code is one that was delivered to its e-mail, with its time limit, and not yet consumed. */
  ghost predicate OtpsOk(h: History, pending: map<string, Otp>, o: map<string, nat>) {
    && o.Keys == pending.Keys
    && forall e <- o :: o[e] < |h| && UnusedOtp(h, o[e]) && h[o[e]].OtpIssued? && h[o[e]].email == e
                        && h[o[e]].code == pending[e].code && h[o[e]].at == pending[e].expiresAt - OTP_TTL
  }

  /** Every accepted assertion is recorded as its client data parse. */
  ghost predicate AnswersOk(k: Checks, h: History) {
    forall i :: 0 <= i < |h| && h[i].AssertionVerified? ==> Parsed(k, h[i].answer)
  }

  lemma AnswersExtend(k: Checks, h: History, e: Event)
    requires AnswersOk(k, h) && (e.AssertionVerified? ==> Parsed(k, e.answer))
    ensures AnswersOk(k, h + [e])
  {
  }

  /** Every device's counters since its registration climb, and the last one is stored. */
  ghost predicate CountersOk(devices: map<string, Attestation>, counters: map<string, seq<nat>>) {
    && counters.Keys == devices.Keys
    && forall d <- devices :: Climbing(counters[d]) && counters[d] != []
                              && counters[d][|counters[d]| - 1] == devices[d].signCount
  }

  lemma KeysHaveCounters(devices: map<string, Attestation>, counters: map<string, seq<nat>>)
    requires CountersOk(devices, counters)
    ensures counters.Keys == devices.Keys
  {
  }

  lemma NewCounter(devices: map<string, Attestation>, counters: map<string, seq<nat>>, d: string, att: Attestation)
    requires CountersOk(devices, counters)
    ensures CountersOk(devices[d := att], counters[d := [att.signCount]])
  {
  }

  lemma NextCounter(devices: map<string, Attestation>, counters: map<string, seq<nat>>, d: string, count: nat)
    requires CountersOk(devices, counters) && d in devices && CounterAdvances(devices[d].signCount, count)
    ensures CountersOk(devices[d := devices[d].(signCount := count)], counters[d := counters[d] + [count]])
  {
    hide CounterAdvances, Climbing;
    ClimbingExtends(counters[d], count);
  }

  ghost predicate SessionsOk(h: History, c: Crypto, active: map<string, SessionToken>, o: map<string, nat>) {
    && o.Keys == active.Keys && Injective(o)
    && (forall id <- o :: o[id] < |h| && h[o[id]].Authenticated? && h[o[id]].binding == active[id].binding)
    && forall id <- active :: active[id].tokenId == id && Authentic(c, active[id]) && FullTerm(active[id])
  }

  /** A new event leaves the pending challenges unconsumed unless it consumes one of them. */
  lemma ChallengesExtend(h: History, e: Event, pending: map<string, Challenge>, o: map<string, nat>)
    requires ChallengesOk(h, pending, o) && forall d <- o :: e.AssertionVerified? ==> e.challenge != o[d]
    ensures ChallengesOk(h + [e], pending, o)
  {
  }

  lemma OtpsExtend(h: History, e: Event, pending: map<string, Otp>, o: map<string, nat>)
    requires OtpsOk(h, pending, o) && forall m <- o :: e.Authenticated? ==> e.otp != o[m]
    ensures OtpsOk(h + [e], pending, o)
  {
  }

  lemma SessionsExtend(h: History, e: Event, c: Crypto, active: map<string, SessionToken>, o: map<string, nat>)
    requires SessionsOk(h, c, active, o)
    ensures SessionsOk(h + [e], c, active, o)
  {
    hide Authentic;
  }

  /** Nothing has consumed an event that is only now happening. */
  lemma NothingConsumedYet(h: History, c: nat)
    requires Sound(h) && c >= |h|
    ensures UnusedChallenge(h, c) && UnusedOtp(h, c)
  {
    forall i | 0 <= i < |h|
      ensures (h[i].AssertionVerified? ==> h[i].challenge != c) && (h[i].Authenticated? ==> h[i].otp != c)
    {
      assert Grounded(h, i);
    }
  }

  /** A challenge is issued. */
  lemma IssueChallenge(h: History, d: string, bytes: string, at: int, pending: map<string, Challenge>, o: map<string, nat>)
    requires Sound(h) && ChallengesOk(h, pending, o)
    ensures var h' := h + [ChallengeIssued(d, bytes, at)];
            Sound(h') && ChallengesOk(h', pending[d := Challenge(bytes, at + CHALLENGE_TTL)], o[d := |h|])
  {
    var e := ChallengeIssued(d, bytes, at);
    SoundExtends(h, e);
    ChallengesExtend(h, e, pending, o);
    NothingConsumedYet(h, |h|);
    hide Sound;
    assert UnusedChallenge(h + [e], |h|);
  }

  /** An answer in time consumes the pending challenge of its device. */
  lemma ConsumeChallenge(h: History, d: string, owner: string, a: Answer, at: int, pending: map<string, Challenge>,
                         o: map<string, nat>)
    requires Sound(h) && ChallengesOk(h, pending, o) && d in pending
    requires Sincere(a, pending[d].bytes) && at <= pending[d].expiresAt
    ensures d in o
    ensures var h' := h + [AssertionVerified(d, o[d], owner, a, at)];
            Sound(h') && ChallengesOk(h', pending - {d}, o - {d})
  {
    var e := AssertionVerified(d, o[d], owner, a, at);
    hide Sincere;
    assert Grounded(h + [e], |h|);
    assert Unused(h, e);
    SoundExtends(h, e);
    hide Sound;
    forall d' <- o - {d} ensures e.challenge != o[d'] {
      assert h[o[d']].device == d' && h[o[d]].device == d;
    }
    assert ChallengesOk(h, pending - {d}, o - {d});
    ChallengesExtend(h, e, pending - {d}, o - {d});
  }

  /** A code is delivered for the assertion just verified. */
  lemma DeliverOtp(h: History, email: string, code: string, at: int, pending: map<string, Otp>, o: map<string, nat>)
    requires Sound(h) && OtpsOk(h, pending, o) && h != [] && h[|h| - 1].AssertionVerified?
    requires h[|h| - 1].owner == email
    ensures var h' := h + [OtpIssued(email, |h| - 1, code, at)];
            Sound(h') && OtpsOk(h', pending[email := Otp(code, at + OTP_TTL)], o[email := |h|])
  {
    var e := OtpIssued(email, |h| - 1, code, at);
    forall i | 0 <= i < |h| ensures !SameCause(h[i], e) {
      assert Grounded(h, i);
    }
    SoundExtends(h, e);
    OtpsExtend(h, e, pending, o);
    NothingConsumedYet(h, |h|);
    hide Sound;
    assert UnusedOtp(h + [e], |h|);
  }

  /** A login in time that presents the pending code of its e-mail consumes it. */
  lemma ConsumeOtp(h: History, b: Binding, code: string, at: int, pending: map<string, Otp>, o: map<string, nat>)
    requires Sound(h) && OtpsOk(h, pending, o) && b.email in pending
    requires pending[b.email].code == code && at <= pending[b.email].expiresAt
    ensures b.email in o
    ensures var h' := h + [Authenticated(b, o[b.email], code, at)];
            Sound(h') && OtpsOk(h', pending - {b.email}, o - {b.email})
  {
    var e := Authenticated(b, o[b.email], code, at);
    assert Unused(h, e);
    SoundExtends(h, e);
    hide Sound;
    forall m <- o - {b.email} ensures e.otp != o[m] {
      assert h[o[m]].email == m && h[o[b.email]].email == b.email;
    }
    assert OtpsOk(h, pending - {b.email}, o - {b.email});
    OtpsExtend(h, e, pending - {b.email}, o - {b.email});
  }

  /** A new session for a login that no session stands for yet. */
  lemma OpenSession(h: History, c: Crypto, active: map<string, SessionToken>, o: map<string, nat>, t: SessionToken, i: nat)
    requires SessionsOk(h, c, active, o) && t.tokenId !in active && Authentic(c, t) && FullTerm(t)
    requires i < |h| && h[i].Authenticated? && h[i].binding == t.binding && i !in Live(o)
    ensures SessionsOk(h, c, active[t.tokenId := t], o[t.tokenId := i])
    ensures Live(o[t.tokenId := i]) == Live(o) + {i}
  {
    hide Authentic;
    var o' := o[t.tokenId := i];
    forall x ensures x in Live(o') <==> x in Live(o) || x == i {
      if x in Live(o) {
        var id :| id in o && o[id] == x;
        assert o'[id] == x;
      }
      assert o'[t.tokenId] == i;
    }
  }

  /** A login: the code is consumed and the new session stands for the new event. */
  lemma LogIn(h: History, c: Crypto, b: Binding, code: string, at: int, pending: map<string, Otp>,
              otps: map<string, nat>, active: map<string, SessionToken>, o: map<string, nat>, t: SessionToken)
    requires Sound(h) && OtpsOk(h, pending, otps) && b.email in pending && SessionsOk(h, c, active, o)
    requires t.binding == b && t.tokenId !in active && Authentic(c, t) && FullTerm(t)
    requires pending[b.email].code == code && at <= pending[b.email].expiresAt && |h| !in Live(o)
    ensures b.email in otps
    ensures var h' := h + [Authenticated(b, otps[b.email], code, at)];
            && Sound(h') && OtpsOk(h', pending - {b.email}, otps - {b.email})
            && SessionsOk(h', c, active[t.tokenId := t], o[t.tokenId := |h|])
            && Live(o[t.tokenId := |h|]) == Live(o) + {|h|}
  {
    hide OtpsOk, SessionsOk, Sound, Authentic, Live;
    ConsumeOtp(h, b, code, at, pending, otps);
    var e := Authenticated(b, otps[b.email], code, at);
    SessionsExtend(h, e, c, active, o);
    OpenSession(h + [e], c, active, o, t, |h|);
  }

  /** The same with the pending challenges, as a step of the run. */
  lemma LoggedIn(h: History, c: Crypto, b: Binding, code: string, at: int, challenges: map<string, Challenge>,
                 co: map<string, nat>, pending: map<string, Otp>, otps: map<string, nat>, active: map<string, SessionToken>, o: map<string, nat>, t: SessionToken)
    requires Sound(h) && ChallengesOk(h, challenges, co) && OtpsOk(h, pending, otps) && SessionsOk(h, c, active, o)
    requires b.email in pending && t.binding == b && t.tokenId !in active && Authentic(c, t) && FullTerm(t)
    requires pending[b.email].code == code && at <= pending[b.email].expiresAt
    requires forall x <- Live(o) :: x < |h|
    ensures b.email in otps
    ensures var h', o' := h + [Authenticated(b, otps[b.email], code, at)], o[t.tokenId := |h|];
            && Sound(h') && ChallengesOk(h', challenges, co) && OtpsOk(h', pending - {b.email}, otps - {b.email})
            && SessionsOk(h', c, active[t.tokenId := t], o') && Live(o') == Live(o) + {|h|}
            && LiveStep(Snapshot(h, Live(o)), Snapshot(h', Live(o')))
  {
    hide ChallengesOk, OtpsOk, SessionsOk, Sound, Authentic, Live, LiveStep;
    LogIn(h, c, b, code, at, pending, otps, active, o, t);
    var e := Authenticated(b, otps[b.email], code, at);
    ChallengesExtend(h, e, challenges, co);
    NewLoginIsLiveStep(h, e, Live(o));
  }

  /** Sessions are dropped. */
  lemma CloseSessions(h: History, c: Crypto, active: map<string, SessionToken>, o: map<string, nat>, ids: set<string>)
    requires SessionsOk(h, c, active, o)
    ensures SessionsOk(h, c, active - ids, o - ids)
    ensures Live(o - ids) <= Live(o)
  {
    hide Authentic;
    forall x | x in Live(o - ids) ensures x in Live(o) {
      var id :| id in o - ids && (o - ids)[id] == x;
      assert o[id] == x;
    }
  }

  /** A rotation moves a login from one identifier to another. */
  lemma MoveSession(h: History, c: Crypto, active: map<string, SessionToken>, o: map<string, nat>, was: string, t: SessionToken)
    requires SessionsOk(h, c, active, o) && was in active && t.tokenId !in active && Authentic(c, t) && FullTerm(t)
    requires t.binding == active[was].binding
    ensures SessionsOk(h, c, (active - {was})[t.tokenId := t], (o - {was})[t.tokenId := o[was]])
    ensures Live((o - {was})[t.tokenId := o[was]]) == Live(o)
  {
    CloseSessions(h, c, active, o, {was});
    assert o[was] !in Live(o - {was});
    OpenSession(h, c, active - {was}, o - {was}, t, o[was]);
    forall x | x in Live(o) ensures x in Live(o - {was}) + {o[was]} {
      var id :| id in o && o[id] == x;
      assert id != was ==> id in o - {was};
    }
    assert o[was] in Live(o);
  }

  // ----- the manager -----

  datatype Validation = Valid(token: SessionToken) | NotFound | Expired | WrongDevice | BadMac | BadPayload

  class SessionManager {
    const crypto: Crypto
    var activeSessions: map<string, SessionToken>
    var pendingOtps: map<string, Otp>
    var registeredDevices: map<string, Attestation>
    var deviceToUser: map<string, string>
    var pendingWebAuthn: map<string, Challenge>
    var relyingParty: RelyingParty
    const checks: Checks

    ghost var history: History
    ghost var challengeOrigin: map<string, nat>
    ghost var otpOrigin: map<string, nat>
    ghost var origin: map<string, nat>
    ghost var counters: map<string, seq<nat>>

    /** Every pending challenge, pending code and active session is accounted for by the history. */
    ghost predicate Valid()
      reads this
    {
      && Lawful(crypto) && Sound(history)
      && ChallengesOk(history, pendingWebAuthn, challengeOrigin)
      && OtpsOk(history, pendingOtps, otpOrigin)
      && AnswersOk(checks, history)
      && SessionsOk(history, crypto, activeSessions, origin)
      && CountersOk(registeredDevices, counters)
    }

    ghost function View(): Snapshot
      reads this
    {
      Snapshot(history, Live(origin))
    }

    constructor (crypto: Crypto, checks: Checks)
      requires Lawful(crypto)
      ensures Valid() && View() == Snapshot([], {}) && activeSessions == map[] && registeredDevices == map[]
      ensures challengeOrigin == otpOrigin == origin == map[]
      ensures counters == map[] && this.checks == checks && relyingParty == RelyingParty("", "")
      ensures this.crypto == crypto && pendingOtps == map[] && pendingWebAuthn == map[] && deviceToUser == map[]
    {
      this.crypto, this.checks, relyingParty := crypto, checks, RelyingParty("", "");
      activeSessions, pendingOtps, registeredDevices, deviceToUser, pendingWebAuthn := map[], map[], map[], map[], map[];
      history, challengeOrigin, otpOrigin, origin, counters := [], map[], map[], map[], map[];
    }

    /** Of two counters accepted for one registration of a device the later is larger, unless both are zero. */
    lemma AcceptedCountersGrow(device: string, i: nat, j: nat)
      requires Valid() && device in registeredDevices && i < j < |counters[device]|
      ensures counters[device][i] < counters[device][j] || counters[device][i] == counters[device][j] == 0
    {
      hide ChallengesOk, OtpsOk, SessionsOk, Sound, Climbing;
      ClimbingGrows(counters[device], i, j);
    }

    /** With distinct draws, no client data are accepted for two challenges. */
    lemma NoReplay(i: nat, j: nat)
      requires Valid() && DistinctDraws(history) && i < j < |history|
      requires history[i].AssertionVerified? && history[j].AssertionVerified?
      ensures history[i].answer.clientData != history[j].answer.clientData
    {
      hide ChallengesOk, OtpsOk, SessionsOk, CountersOk, Sound;
      NoChallengeTwice(history, i, j);
      assert Parsed(checks, history[i].answer) && Parsed(checks, history[j].answer);
    }

    method ConfigureWebAuthn(rp: RelyingParty)
      requires Valid()
      modifies this`relyingParty
      ensures Valid() && relyingParty == rp
    {
      relyingParty := rp;
    }

    lemma LiveIsPast()
      requires Valid()
      ensures forall o <- Live(origin) :: o < |history|
      ensures |Live(origin)| == |activeSessions|
    {
      LiveCount(origin);
      assert |origin| == |origin.Keys| && |activeSessions| == |activeSessions.Keys|;
    }

    method RegisterDevice(email: string, device: string, att: Attestation) returns (ok: bool)
      requires Valid()
      modifies this`registeredDevices, this`deviceToUser, this`counters
      ensures Valid()
      ensures ok <==> IsCompanyEmail(email) && device != ""
      ensures registeredDevices == if ok then old(registeredDevices)[device := att] else old(registeredDevices)
      ensures deviceToUser == if ok then old(deviceToUser)[device := email] else old(deviceToUser)
      ensures counters == if ok then old(counters)[device := [att.signCount]] else old(counters)
    {
      hide AnswersOk, CountersOk, ChallengesOk, OtpsOk, SessionsOk, Sound, Lawful, IsCompanyEmail;
      if !IsCompanyEmail(email) || device == "" {
        return false;
      }
      NewCounter(registeredDevices, counters, device, att);
      counters := counters[device := [att.signCount]];
      registeredDevices := registeredDevices[device := att];
      deviceToUser := deviceToUser[device := email];
      return true;
    }

    method BeginWebAuthnAuth(device: string, drawn: string, now: int) returns (ok: bool)
      requires Valid()
      modifies this`pendingWebAuthn, this`history, this`challengeOrigin
      ensures Valid() && LiveStep(old(View()), View()) && View().live == old(View().live)
      ensures ok <==> device in registeredDevices
      ensures pendingWebAuthn == if ok then old(pendingWebAuthn)[device := Challenge(drawn, now + 120)]
                                 else old(pendingWebAuthn)
      ensures history == old(history) + if ok then [ChallengeIssued(device, drawn, now)] else []
      ensures challengeOrigin == if ok then old(challengeOrigin)[device := |old(history)|] else old(challengeOrigin)
    {
      hide AnswersOk, CountersOk, ChallengesOk, OtpsOk, SessionsOk, Sound, Live, Lawful, LiveStep;
      LiveIsPast();
      GrowingIsLiveStep(history, [ChallengeIssued(device, drawn, now)], Live(origin));
      if device !in registeredDevices {
        return false;
      }
      ghost var e := ChallengeIssued(device, drawn, now);
      IssueChallenge(history, device, drawn, now, pendingWebAuthn, challengeOrigin);
      AnswersExtend(checks, history, e);
      OtpsExtend(history, e, pendingOtps, otpOrigin);
      SessionsExtend(history, e, crypto, activeSessions, origin);
      challengeOrigin := challengeOrigin[device := |history|];
      history := history + [e];
      pendingWebAuthn := pendingWebAuthn[device := Challenge(drawn, now + CHALLENGE_TTL)];
      return true;
    }

    /** The code of a verified assertion; without delivery no code stays pending for the e-mail. */
    method IssueOtp(email: string, drawn: string, delivered: bool, now: int) returns (sent: bool)
      requires Valid() && history != [] && history[|history| - 1].AssertionVerified?
      requires history[|history| - 1].owner == email
      modifies this`pendingOtps, this`history, this`otpOrigin
      ensures Valid()
      ensures sent <==> IsCompanyEmail(email) && delivered
      ensures history == old(history) + if sent then [OtpIssued(email, |old(history)| - 1, drawn, now)] else []
      ensures sent ==> pendingOtps == old(pendingOtps)[email := Otp(drawn, now + OTP_TTL)]
                       && otpOrigin == old(otpOrigin)[email := |old(history)|]
      ensures !sent ==> pendingOtps == if IsCompanyEmail(email) then old(pendingOtps) - {email} else old(pendingOtps)
    {
      hide AnswersOk, CountersOk, ChallengesOk, OtpsOk, SessionsOk, Sound, Lawful, IsCompanyEmail, Live;
      sent := false;
      if !IsCompanyEmail(email) {
        return;
      }
      pendingOtps := pendingOtps[email := Otp(drawn, now + OTP_TTL)];
      if !delivered {
        DropOtp(history, email, old(pendingOtps), otpOrigin);
        pendingOtps, otpOrigin := pendingOtps - {email}, otpOrigin - {email};
        assert pendingOtps == old(pendingOtps) - {email};
        return;
      }
      ghost var e := OtpIssued(email, |history| - 1, drawn, now);
      DeliverOtp(history, email, drawn, now, old(pendingOtps), otpOrigin);
      AnswersExtend(checks, history, e);
      ChallengesExtend(history, e, pendingWebAuthn, challengeOrigin);
      SessionsExtend(history, e, crypto, activeSessions, origin);
      otpOrigin := otpOrigin[email := |history|];
      history := history + [e];
      return true;
    }

    /** The assertion consumes the pending challenge whatever its outcome; a verified one advances the counter. */
    method VerifyAssertion(device: string, a: Assertion, now: int) returns (accepted: bool)
      requires Valid() && device in registeredDevices && device in pendingWebAuthn
      modifies this`pendingWebAuthn, this`registeredDevices, this`history, this`challengeOrigin, this`counters
      ensures Valid() && device in old(challengeOrigin)
      ensures accepted ==> device in old(counters)
      ensures accepted == AssertionAccepted(checks, relyingParty, old(registeredDevices)[device],
                                            old(pendingWebAuthn)[device], a, now)
      ensures pendingWebAuthn == old(pendingWebAuthn) - {device}
      ensures registeredDevices == if accepted then
                  old(registeredDevices)[device := old(registeredDevices)[device].(signCount := SignCount(a.authData))]
                else old(registeredDevices)
      ensures counters == if accepted then old(counters)[device := old(counters)[device] + [SignCount(a.authData)]]
                          else old(counters)
      ensures history == old(history) + if accepted then
                  [VerifiedEvent(device, old(challengeOrigin)[device], old(registeredDevices)[device], a, now)]
                else []
    {
      ChallengeHasOrigin(history, device, pendingWebAuthn, challengeOrigin);
      hide AnswersOk, CountersOk, ChallengesOk, OtpsOk, SessionsOk, Sound, Lawful, Live, AssertionAccepted, SignCount, AnswerOf,
           Sincere, Parsed;
      accepted := CheckAssertion(checks, relyingParty, registeredDevices[device], pendingWebAuthn[device], a, now);
      if accepted {
        AcceptedIsSincere(checks, relyingParty, registeredDevices[device], pendingWebAuthn[device], a, now);
        ConsumeVerified(device, SignCount(a.authData), AnswerOf(checks, relyingParty, registeredDevices[device], a), now);
      } else {
        DropPending(device);
      }
    }

    /** The e-mail the device is registered for. */
    function OwnerOf(device: string): string
      reads this
    {
      if device in deviceToUser then deviceToUser[device] else ""
    }

    /** How the history records an accepted assertion. */
    ghost function VerifiedEvent(device: string, challenge: nat, att: Attestation, a: Assertion, now: int): Event
      reads this
    {
      AssertionVerified(device, challenge, OwnerOf(device), AnswerOf(checks, relyingParty, att, a), now)
    }

    method DropPending(device: string)
      requires Valid() && device in pendingWebAuthn
      modifies this`pendingWebAuthn, this`challengeOrigin
      ensures Valid() && pendingWebAuthn == old(pendingWebAuthn) - {device}
    {
      hide AnswersOk, CountersOk, ChallengesOk, OtpsOk, SessionsOk, Sound, Lawful;
      DropChallenge(history, device, pendingWebAuthn, challengeOrigin);
      pendingWebAuthn, challengeOrigin := pendingWebAuthn - {device}, challengeOrigin - {device};
    }

    method StoreCounter(device: string, count: nat)
      requires Valid() && device in registeredDevices && device in counters
      requires CounterAdvances(registeredDevices[device].signCount, count)
      modifies this`registeredDevices, this`counters
      ensures Valid()
      ensures registeredDevices == old(registeredDevices)[device := old(registeredDevices)[device].(signCount := count)]
      ensures counters == old(counters)[device := old(counters)[device] + [count]]
    {
      hide AnswersOk, CountersOk, ChallengesOk, OtpsOk, SessionsOk, Sound, Lawful, CounterAdvances;
      NextCounter(registeredDevices, counters, device, count);
      counters := counters[device := counters[device] + [count]];
      registeredDevices := registeredDevices[device := registeredDevices[device].(signCount := count)];
    }

    /** The verified challenge goes and the counter advances. */
    method ConsumeVerified(device: string, count: nat, ghost answer: Answer, now: int)
      requires Valid() && device in registeredDevices && device in pendingWebAuthn
      requires CounterAdvances(registeredDevices[device].signCount, count) && now <= pendingWebAuthn[device].expiresAt
      requires Sincere(answer, pendingWebAuthn[device].bytes) && Parsed(checks, answer)
      modifies this`pendingWebAuthn, this`registeredDevices, this`history, this`challengeOrigin, this`counters
      ensures Valid() && device in old(challengeOrigin) && device in old(counters)
      ensures pendingWebAuthn == old(pendingWebAuthn) - {device}
      ensures registeredDevices == old(registeredDevices)[device := old(registeredDevices)[device].(signCount := count)]
      ensures counters == old(counters)[device := old(counters)[device] + [count]]
      ensures history == old(history) + [AssertionVerified(device, old(challengeOrigin)[device], OwnerOf(device), answer, now)]
    {
      KeysHaveCounters(registeredDevices, counters);
      hide AnswersOk, CountersOk, ChallengesOk, OtpsOk, SessionsOk, Sound, Lawful, CounterAdvances, Sincere, Parsed;
      RecordAssertion(device, answer, now);
      StoreCounter(device, count);
    }

    method RecordAssertion(device: string, ghost answer: Answer, now: int)
      requires Valid() && device in pendingWebAuthn && now <= pendingWebAuthn[device].expiresAt
      requires Sincere(answer, pendingWebAuthn[device].bytes) && Parsed(checks, answer)
      modifies this`pendingWebAuthn, this`history, this`challengeOrigin
      ensures Valid() && device in old(challengeOrigin)
      ensures pendingWebAuthn == old(pendingWebAuthn) - {device}
      ensures history == old(history) + [AssertionVerified(device, old(challengeOrigin)[device], OwnerOf(device), answer, now)]
    {
      hide AnswersOk, CountersOk, ChallengesOk, OtpsOk, SessionsOk, Sound, Lawful, Sincere, Parsed;
      ConsumeChallenge(history, device, OwnerOf(device), answer, now, pendingWebAuthn, challengeOrigin);
      ghost var e := AssertionVerified(device, challengeOrigin[device], OwnerOf(device), answer, now);
      OtpsExtend(history, e, pendingOtps, otpOrigin);
      SessionsExtend(history, e, crypto, activeSessions, origin);
      AnswersExtend(checks, history, e);
      pendingWebAuthn, challengeOrigin, history := pendingWebAuthn - {device}, challengeOrigin - {device}, history + [e];
    }

    /** A verified assertion sends a code; `drawn` is the code, `delivered` whether the sender took it. */
    method CompleteWebAuthnAuth(device: string, a: Assertion, drawn: string, delivered: bool, now: int)
      returns (accepted: bool, sent: bool)
      requires Valid()
      modifies this`pendingWebAuthn, this`registeredDevices, this`pendingOtps, this`history, this`challengeOrigin,
               this`otpOrigin, this`counters
      ensures Valid() && LiveStep(old(View()), View()) && View().live == old(View().live)
      ensures accepted <==> device in old(registeredDevices) && device in old(pendingWebAuthn)
                            && AssertionAccepted(checks, relyingParty, old(registeredDevices)[device],
                                                 old(pendingWebAuthn)[device], a, now)
      ensures accepted ==> device in old(counters)
      ensures counters == if accepted then old(counters)[device := old(counters)[device] + [SignCount(a.authData)]]
                          else old(counters)
      ensures sent <==> accepted && device in deviceToUser && IsCompanyEmail(deviceToUser[device]) && delivered
      ensures pendingWebAuthn == if device in registeredDevices then old(pendingWebAuthn) - {device}
                                 else old(pendingWebAuthn)
      ensures registeredDevices == if accepted then
                  old(registeredDevices)[device := old(registeredDevices)[device].(signCount := SignCount(a.authData))]
                else old(registeredDevices)
      ensures accepted ==> device in old(challengeOrigin)
      ensures history == old(history)
                + (if accepted then
                     [VerifiedEvent(device, old(challengeOrigin)[device], old(registeredDevices)[device], a, now)]
                   else [])
                + if sent then [OtpIssued(deviceToUser[device], |old(history)|, drawn, now)] else []
      ensures sent ==> pendingOtps == old(pendingOtps)[deviceToUser[device] := Otp(drawn, now + OTP_TTL)]
                       && otpOrigin == old(otpOrigin)[deviceToUser[device] := |history| - 1]
      ensures !sent ==> pendingOtps == if accepted && device in deviceToUser && IsCompanyEmail(deviceToUser[device])
                                       then old(pendingOtps) - {deviceToUser[device]} else old(pendingOtps)
    {
      hide AnswersOk, CountersOk, ChallengesOk, OtpsOk, SessionsOk, Sound, Lawful, Live, LiveStep, AssertionAccepted, IsCompanyEmail,
           SignCount, AnswerOf;
      LiveIsPast();
      ghost var start, live := history, Live(origin);
      accepted := AnswerChallenge(device, a, now);
      sent := false;
      if accepted && device in deviceToUser {
        sent := IssueOtp(deviceToUser[device], drawn, delivered, now);
      }
      assert history == start + history[|start|..];
      GrowingIsLiveStep(start, history[|start|..], live);
    }

    /** The ceremony up to the verdict: without a registered device and a pending challenge nothing happens. */
    method AnswerChallenge(device: string, a: Assertion, now: int) returns (accepted: bool)
      requires Valid()
      modifies this`pendingWebAuthn, this`registeredDevices, this`history, this`challengeOrigin, this`counters
      ensures Valid()
      ensures accepted <==> device in old(registeredDevices) && device in old(pendingWebAuthn)
                            && AssertionAccepted(checks, relyingParty, old(registeredDevices)[device],
                                                 old(pendingWebAuthn)[device], a, now)
      ensures accepted ==> device in old(counters) && device in old(challengeOrigin)
      ensures counters == if accepted then old(counters)[device := old(counters)[device] + [SignCount(a.authData)]]
                          else old(counters)
      ensures pendingWebAuthn == if device in registeredDevices then old(pendingWebAuthn) - {device}
                                 else old(pendingWebAuthn)
      ensures registeredDevices == if accepted then
                  old(registeredDevices)[device := old(registeredDevices)[device].(signCount := SignCount(a.authData))]
                else old(registeredDevices)
      ensures history == old(history)
                + if accepted then
                    [VerifiedEvent(device, old(challengeOrigin)[device], old(registeredDevices)[device], a, now)]
                  else []
    {
      hide AnswersOk, CountersOk, ChallengesOk, OtpsOk, SessionsOk, Sound, Lawful, AssertionAccepted, SignCount, AnswerOf;
      if device !in registeredDevices {
        return false;
      }
      if device !in pendingWebAuthn {
        assert pendingWebAuthn - {device} == pendingWebAuthn;
        return false;
      }
      accepted := VerifyAssertion(device, a, now);
    }

    /** The e-mail has a pending code that has run out. */
    predicate OtpExpired(email: string, now: int)
      reads this
    {
      email in pendingOtps && now > pendingOtps[email].expiresAt
    }

    /** The code and the device are right for the e-mail. */
    predicate LoginAccepted(b: Binding, code: string, now: int)
      reads this
    {
      && b.email in pendingOtps && now <= pendingOtps[b.email].expiresAt && pendingOtps[b.email].code == code
      && b.device in registeredDevices && b.device in deviceToUser && deviceToUser[b.device] == b.email
    }

    /**
     A pending code opens sessions on one device only exactly when that device is the only one registered
     for the e-mail: the code itself does not know which device asked for it.
     */
    lemma OnlyThatDeviceIff(email: string, device: string)
      requires email in pendingOtps
      ensures (forall b: Binding, code, now :: b.email == email && LoginAccepted(b, code, now) ==> b.device == device)
         <==> (forall d :: d in registeredDevices && d in deviceToUser && deviceToUser[d] == email ==> d == device)
    {
      var otp := pendingOtps[email];
      forall d | d in registeredDevices && d in deviceToUser && deviceToUser[d] == email
        ensures LoginAccepted(Binding(email, d, 0, ""), otp.code, otp.expiresAt)
      {
      }
    }

    /**
     An accepted login consumes the code and opens a session. `drawn` is the token's identifier and nonce;
     without them the code is gone but no session exists. Department and tier are the caller's.
     */
    method CompleteAuthentication(b: Binding, code: string, drawn: Option<(string, string)>, now: int)
      returns (r: Option<SessionToken>)
      requires Valid() && (drawn.Some? ==> drawn.value.0 !in activeSessions)
      modifies this`pendingOtps, this`activeSessions, this`history, this`otpOrigin, this`origin
      ensures Valid() && LiveStep(old(View()), View())
      ensures r.Some? <==> IsCompanyEmail(b.email) && old(LoginAccepted(b, code, now)) && drawn.Some?
      ensures pendingOtps == if IsCompanyEmail(b.email) && old(OtpExpired(b.email, now) || LoginAccepted(b, code, now))
                             then old(pendingOtps) - {b.email} else old(pendingOtps)
      ensures IsCompanyEmail(b.email) && b.email in old(pendingOtps) && now > old(pendingOtps)[b.email].expiresAt ==>
                r.None? && b.email !in pendingOtps
      ensures r.None? ==> activeSessions == old(activeSessions) && View() == old(View())
      ensures r.Some? ==> && r.value == CreateToken(crypto, drawn.value.0, drawn.value.1, b, now)
                          && activeSessions == old(activeSessions)[r.value.tokenId := r.value]
                          && b.email in old(otpOrigin)
                          && history == old(history) + [Authenticated(b, old(otpOrigin)[b.email], code, now)]
                          && View().live == old(View().live) + {|old(history)|}
    {
      hide AnswersOk, CountersOk, ChallengesOk, OtpsOk, SessionsOk, Sound, Live, LiveStep, IsCompanyEmail, CreateToken, Lawful;
      LiveIsPast();
      GrowingIsLiveStep(history, [], Live(origin));
      var email := b.email;
      if !IsCompanyEmail(email) || email !in pendingOtps {
        return None;
      }
      DropOtp(history, email, pendingOtps, otpOrigin);
      if now > pendingOtps[email].expiresAt {
        pendingOtps, otpOrigin := pendingOtps - {email}, otpOrigin - {email};
        return None;
      }
      if pendingOtps[email].code != code {
        return None;
      }
      if b.device !in registeredDevices || b.device !in deviceToUser || deviceToUser[b.device] != email {
        return None;
      }
      if drawn.None? {
        pendingOtps, otpOrigin := pendingOtps - {email}, otpOrigin - {email};
        return None;
      }
      var t := OpenLogin(b, code, drawn.value.0, drawn.value.1, now);
      return Some(t);
    }

    /** Consumes the pending code and installs the token. */
    method OpenLogin(b: Binding, code: string, id: string, nonce: string, now: int) returns (t: SessionToken)
      requires Valid() && id !in activeSessions && b.email in pendingOtps
      requires pendingOtps[b.email].code == code && now <= pendingOtps[b.email].expiresAt
      modifies this`pendingOtps, this`activeSessions, this`history, this`otpOrigin, this`origin
      ensures Valid() && LiveStep(old(View()), View())
      ensures t == CreateToken(crypto, id, nonce, b, now)
      ensures pendingOtps == old(pendingOtps) - {b.email} && activeSessions == old(activeSessions)[id := t]
      ensures b.email in old(otpOrigin)
      ensures history == old(history) + [Authenticated(b, old(otpOrigin)[b.email], code, now)]
      ensures View().live == old(View().live) + {|old(history)|}
    {
      hide AnswersOk, CountersOk, ChallengesOk, OtpsOk, SessionsOk, Sound, LiveStep, CreateToken, Authentic, FullTerm;
      t := CreateToken(crypto, id, nonce, b, now);
      CreatedTokenIsAuthentic(crypto, id, nonce, b, now);
      Install(b, code, t, now);
    }

    method Install(b: Binding, code: string, t: SessionToken, now: int)
      requires Valid() && t.tokenId !in activeSessions && t.binding == b && Authentic(crypto, t) && FullTerm(t)
      requires b.email in pendingOtps && pendingOtps[b.email].code == code && now <= pendingOtps[b.email].expiresAt
      modifies this`pendingOtps, this`activeSessions, this`history, this`otpOrigin, this`origin
      ensures Valid() && LiveStep(old(View()), View())
      ensures pendingOtps == old(pendingOtps) - {b.email} && activeSessions == old(activeSessions)[t.tokenId := t]
      ensures b.email in old(otpOrigin)
      ensures history == old(history) + [Authenticated(b, old(otpOrigin)[b.email], code, now)]
      ensures View().live == old(View().live) + {|old(history)|}
    {
      hide AnswersOk, CountersOk, ChallengesOk, OtpsOk, SessionsOk, Sound, Live, LiveStep, Lawful, Authentic, FullTerm;
      LiveIsPast();
      LoggedIn(history, crypto, b, code, now, pendingWebAuthn, challengeOrigin, pendingOtps, otpOrigin, activeSessions,
               origin, t);
      ghost var e := Authenticated(b, otpOrigin[b.email], code, now);
      AnswersExtend(checks, history, e);
      pendingOtps, otpOrigin := pendingOtps - {b.email}, otpOrigin - {b.email};
      history, origin := history + [e], origin[t.tokenId := |history|];
      activeSessions := activeSessions[t.tokenId := t];
    }

    /** For the manager's own sessions the integrity checks never fail: what is left is expiry and device. */
    method ValidateSession(id: string, device: string, now: int) returns (r: Validation)
      requires Valid()
      ensures r == if id !in activeSessions then NotFound
                   else if now > activeSessions[id].expiresAt then Expired
                   else if activeSessions[id].binding.device != device then WrongDevice
                   else Validation.Valid(activeSessions[id])
    {
      hide MacMatches, PayloadMatches;
      if id !in activeSessions {
        return NotFound;
      }
      var t := activeSessions[id];
      assert Authentic(crypto, t);
      if now > t.expiresAt {
        return Expired;
      }
      if t.binding.device != device {
        return WrongDevice;
      }
      if !MacMatches(crypto, t) {
        return BadMac;
      }
      if !PayloadMatches(crypto, t) {
        return BadPayload;
      }
      return Validation.Valid(t);
    }

    /** Replaces one session's token by a new one for the same login. */
    method Replace(id: string, newId: string, nonce: string, now: int) returns (t: SessionToken)
      requires Valid() && id in activeSessions && newId !in activeSessions
      modifies this`activeSessions, this`origin
      ensures Valid() && View() == old(View()) && id in old(origin)
      ensures t == CreateToken(crypto, newId, nonce, old(activeSessions)[id].binding, now)
      ensures activeSessions == (old(activeSessions) - {id})[newId := t]
      ensures origin == (old(origin) - {id})[newId := old(origin)[id]]
    {
      hide AnswersOk, CountersOk, ChallengesOk, OtpsOk, Sound, Live, Lawful, Authentic, CreateToken;
      t := CreateToken(crypto, newId, nonce, activeSessions[id].binding, now);
      CreatedTokenIsAuthentic(crypto, newId, nonce, activeSessions[id].binding, now);
      MoveSession(history, crypto, activeSessions, origin, id, t);
      activeSessions := (activeSessions - {id})[newId := t];
      origin := (origin - {id})[newId := origin[id]];
    }

    /** Drops sessions. */
    method Close(ids: set<string>)
      requires Valid()
      modifies this`activeSessions, this`origin
      ensures Valid() && LiveStep(old(View()), View()) && View().live <= old(View().live)
      ensures activeSessions == old(activeSessions) - ids && origin == old(origin) - ids
    {
      hide AnswersOk, CountersOk, ChallengesOk, OtpsOk, SessionsOk, Sound, Live, Lawful, LiveStep;
      LiveIsPast();
      CloseSessions(history, crypto, activeSessions, origin, ids);
      ShrinkingIsLiveStep(history, Live(origin), Live(origin - ids));
      activeSessions, origin := activeSessions - ids, origin - ids;
    }

    /** An expired session is dropped; any other moves to a new identifier and starts a new lifetime. */
    method RotateToken(id: string, drawn: Option<(string, string)>, now: int) returns (r: Option<SessionToken>)
      requires Valid() && (drawn.Some? ==> drawn.value.0 !in activeSessions)
      modifies this`activeSessions, this`origin
      ensures Valid() && LiveStep(old(View()), View())
      ensures r.Some? <==> id in old(activeSessions) && now <= old(activeSessions)[id].expiresAt && drawn.Some?
      ensures r.Some? ==> && r.value == CreateToken(crypto, drawn.value.0, drawn.value.1,
                                                    old(activeSessions)[id].binding, now)
                          && activeSessions == (old(activeSessions) - {id})[drawn.value.0 := r.value]
                          && View() == old(View())
      ensures r.Some? ==> forall b :: |Bound(activeSessions, b)| == |old(Bound(activeSessions, b))|
      ensures r.None? ==> activeSessions == if id in old(activeSessions) && now > old(activeSessions)[id].expiresAt
                                            then old(activeSessions) - {id} else old(activeSessions)
    {
      hide AnswersOk, CountersOk, ChallengesOk, OtpsOk, SessionsOk, Sound, Live, Lawful, LiveStep, CreateToken;
      LiveIsPast();
      ShrinkingIsLiveStep(history, Live(origin), Live(origin));
      if id !in activeSessions {
        return None;
      }
      if now > activeSessions[id].expiresAt {
        Close({id});
        return None;
      }
      if drawn.None? {
        return None;
      }
      ghost var was, o := activeSessions, origin;
      var t := Replace(id, drawn.value.0, drawn.value.1, now);
      BindingsConserved(history, crypto, was, o, activeSessions, origin);
      return Some(t);
    }

    method RevokeSession(id: string)
      requires Valid()
      modifies this`activeSessions, this`origin
      ensures Valid() && LiveStep(old(View()), View())
      ensures activeSessions == old(activeSessions) - {id}
    {
      Close({id});
    }

    function OfDevice(device: string): set<string>
      reads this
    {
      set id <- activeSessions | activeSessions[id].binding.device == device
    }

    /** Every session of the device is gone, and with it every live login of the device. */
    method RevokeAllForDevice(device: string) returns (count: nat)
      requires Valid()
      modifies this`activeSessions, this`origin
      ensures Valid() && LiveStep(old(View()), View())
      ensures activeSessions == old(activeSessions) - old(OfDevice(device)) && count == |old(OfDevice(device))|
      ensures NoneLiveFor(View(), device)
    {
      hide AnswersOk, CountersOk, ChallengesOk, OtpsOk, SessionsOk, Sound, Live, Lawful, LiveStep;
      var ids := SelectDevice(device);
      Close(ids);
      NoSessionNoLogin(history, crypto, activeSessions, origin, device);
      return |ids|;
    }

    method SelectDevice(device: string) returns (ids: set<string>)
      ensures ids == OfDevice(device)
    {
      ids := {};
      var todo := activeSessions.Keys;
      while todo != {}
        invariant todo <= activeSessions.Keys && ids == OfDevice(device) - todo
      {
        var id :| id in todo;
        todo := todo - {id};
        if activeSessions[id].binding.device == device {
          ids := ids + {id};
        }
      }
    }

    function ExpiredAt(now: int): set<string>
      reads this
    {
      set id <- activeSessions | now > activeSessions[id].expiresAt
    }

    method CleanupExpiredSessions(now: int) returns (count: nat)
      requires Valid()
      modifies this`activeSessions, this`origin
      ensures Valid() && LiveStep(old(View()), View())
      ensures activeSessions == old(activeSessions) - old(ExpiredAt(now)) && count == |old(ExpiredAt(now))|
      ensures forall id <- old(activeSessions) :: id in activeSessions <==> now <= old(activeSessions)[id].expiresAt
    {
      hide AnswersOk, CountersOk, ChallengesOk, OtpsOk, SessionsOk, Sound, Live, Lawful, LiveStep;
      var ids := SelectExpired(now);
      Close(ids);
      return |ids|;
    }

    method SelectExpired(now: int) returns (ids: set<string>)
      ensures ids == ExpiredAt(now)
    {
      ids := {};
      var todo := activeSessions.Keys;
      while todo != {}
        invariant todo <= activeSessions.Keys && ids == ExpiredAt(now) - todo
      {
        var id :| id in todo;
        todo := todo - {id};
        if now > activeSessions[id].expiresAt {
          ids := ids + {id};
        }
      }
    }

    predicate Due(id: string, now: int)
      reads this
    {
      id in activeSessions && now - activeSessions[id].rotatedAt >= ROTATION_INTERVAL
    }

    /** The identifiers of the sessions to rotate, in any order. */
    method CollectDue(now: int) returns (due: seq<string>)
      ensures forall id :: id in due <==> Due(id, now)
      ensures forall i, j :: 0 <= i < j < |due| ==> due[i] != due[j]
      ensures |due| <= |activeSessions|
    {
      due := [];
      var todo := activeSessions.Keys;
      while todo != {}
        invariant todo <= activeSessions.Keys
        invariant forall id :: id in due <==> Due(id, now) && id !in todo
        invariant forall i, j :: 0 <= i < j < |due| ==> due[i] != due[j]
        invariant |due| + |todo| <= |activeSessions|
      {
        var id :| id in todo;
        todo := todo - {id};
        if now - activeSessions[id].rotatedAt >= ROTATION_INTERVAL {
          due := due + [id];
        }
      }
    }

    /**
     The rotation loop: the sessions due are replaced one by one, in the order `due`. No login is lost,
     doubled or rebound. The loop does not look at the expiry: when every draw succeeds no session is
     expired afterwards, so an expired one gets a new lifetime.
     */
    method RotateExpiringSessions(draws: seq<Draw>, now: int) returns (ghost due: seq<string>)
      requires Valid() && |draws| >= |activeSessions| && FreshDraws(activeSessions.Keys, draws)
      modifies this`activeSessions, this`origin
      ensures Valid() && View() == old(View())
      ensures forall b :: |Bound(activeSessions, b)| == |old(Bound(activeSessions, b))|
      ensures DistinctTexts(due) && |due| <= |draws|
      ensures (forall id <- due :: id in old(activeSessions)) && forall id :: id in due <==> old(Due(id, now))
      ensures forall id <- old(activeSessions) :: id in due <==> now - old(activeSessions)[id].rotatedAt >= 3_600
      ensures activeSessions == RotateAll(crypto, old(activeSessions), due, draws, now)
      ensures (forall id <- due :: id in old(origin)) && origin == RotateOrigins(old(origin), due, draws)
      ensures (forall d <- draws :: d.Some?) ==> ExpiredAt(now) == {} && forall id <- activeSessions :: !Due(id, now)
    {
      SessionsHaveOrigins(history, crypto, activeSessions, origin);
      hide AnswersOk, CountersOk, ChallengesOk, OtpsOk, SessionsOk, Sound, Live, Lawful, CreateToken;
      ghost var was, o := activeSessions, origin;
      var ids := CollectDue(now);
      due := ids;
      assert forall j :: 0 <= j < |due| ==> due[j] in due;
      hide RotateAll, RotateOrigins, FreshDraws, Bound;
      ReplaceEach(ids, draws, now);
      BindingsConserved(history, crypto, was, o, activeSessions, origin);
      if forall d <- draws :: d.Some? {
        AllRenewed(crypto, was, due, draws, now);
        NoneDueNoneExpired(now);
      }
    }

    /** An expired session is due for rotation. */
    lemma ExpiredIsDue(id: string, now: int)
      requires Valid() && id in activeSessions && now > activeSessions[id].expiresAt
      ensures Due(id, now)
    {
      hide AnswersOk, CountersOk, ChallengesOk, OtpsOk, Sound, Lawful, Authentic;
    }

    lemma NoneDueNoneExpired(now: int)
      requires Valid()
      ensures (forall id <- activeSessions :: !Due(id, now)) ==> ExpiredAt(now) == {}
    {
      hide AnswersOk, CountersOk, ChallengesOk, OtpsOk, Sound, Lawful, Authentic;
    }

    method ReplaceEach(due: seq<string>, draws: seq<Draw>, now: int)
      requires Valid() && |draws| >= |due| && FreshDraws(activeSessions.Keys, draws)
      requires DistinctTexts(due) && forall id <- due :: id in activeSessions
      modifies this`activeSessions, this`origin
      ensures Valid() && View() == old(View())
      ensures activeSessions == RotateAll(crypto, old(activeSessions), due, draws, now)
      ensures (forall id <- due :: id in old(origin)) && origin == RotateOrigins(old(origin), due, draws)
    {
      SessionsHaveOrigins(history, crypto, activeSessions, origin);
      hide AnswersOk, CountersOk, ChallengesOk, OtpsOk, SessionsOk, Sound, Live, Lawful, CreateToken, RotateAll, FreshDraws,
           DistinctTexts, RotateOrigins;
      ghost var start, o := activeSessions, origin;
      RotateNone(crypto, start, o, draws, now);
      for k := 0 to |due|
        invariant Valid() && View() == old(View())
        invariant activeSessions == RotateAll(crypto, start, due[..k], draws, now)
        invariant origin == RotateOrigins(o, due[..k], draws)
      {
        ReplaceOne(due, draws, now, k, start, o);
      }
      assert due[..|due|] == due;
    }

    method ReplaceOne(due: seq<string>, draws: seq<Draw>, now: int, k: nat, ghost start: map<string, SessionToken>,
                      ghost o: map<string, nat>)
      requires Valid() && k < |due| <= |draws| && DistinctTexts(due) && start.Keys == o.Keys
      requires FreshDraws(start.Keys, draws) && (forall id <- due :: id in start && id in o)
      requires activeSessions == RotateAll(crypto, start, due[..k], draws, now)
      requires origin == RotateOrigins(o, due[..k], draws)
      modifies this`activeSessions, this`origin
      ensures Valid() && View() == old(View())
      ensures activeSessions == RotateAll(crypto, start, due[..k + 1], draws, now)
      ensures origin == RotateOrigins(o, due[..k + 1], draws)
    {
      hide AnswersOk, CountersOk, ChallengesOk, OtpsOk, SessionsOk, Sound, Live, Lawful, CreateToken, RotateAll, FreshDraws,
           DistinctTexts, RotateOrigins;
      RotateOneMore(crypto, start, due, draws, now, k);
      OriginOneMore(o, due, draws, k);
      if draws[k].Some? {
        var t := Replace(due[k], draws[k].value.0, draws[k].value.1, now);
      }
    }
  }

  /** The sessions with one binding. */
  function Bound(active: map<string, SessionToken>, b: Binding): set<string> {
    set id <- active | active[id].binding == b
  }

  lemma BoundAreWith(h: History, c: Crypto, active: map<string, SessionToken>, o: map<string, nat>, b: Binding)
    requires SessionsOk(h, c, active, o)
    ensures Bound(active, b) == With(h, o, b).Keys
  {
    hide Authentic;
  }

  /** Sessions that stand for the same logins have every binding equally often. */
  lemma BindingsConserved(h: History, c: Crypto, active: map<string, SessionToken>, o: map<string, nat>,
                          active': map<string, SessionToken>, o': map<string, nat>)
    requires SessionsOk(h, c, active, o) && SessionsOk(h, c, active', o') && Live(o) == Live(o')
    ensures forall b :: |Bound(active, b)| == |Bound(active', b)|
  {
    hide Authentic, Live;
    forall b ensures |Bound(active, b)| == |Bound(active', b)| {
      BoundAreWith(h, c, active, o, b);
      BoundAreWith(h, c, active', o', b);
      SameLiveSameBindings(h, o, o', b);
      assert |With(h, o, b).Keys| == |With(h, o, b)| && |With(h, o', b).Keys| == |With(h, o', b)|;
    }
  }

  // ----- one round of rotation -----

  /** The identifier and the nonce drawn for a token; none when the random source fails. */
  type Draw = Option<(string, string)>

  ghost predicate FreshDraws(ids: set<string>, draws: seq<Draw>) {
    && (forall j :: 0 <= j < |draws| && draws[j].Some? ==> draws[j].value.0 !in ids)
    && forall i, j :: 0 <= i < j < |draws| && draws[i].Some? && draws[j].Some? ==> draws[i].value.0 != draws[j].value.0
  }

  ghost predicate DistinctTexts(ids: seq<string>) {
    forall i, j :: 0 <= i < j < |ids| ==> ids[i] != ids[j]
  }

  function RotateAll(c: Crypto, was: map<string, SessionToken>, due: seq<string>, draws: seq<Draw>, now: int)
    : map<string, SessionToken>
    requires |due| <= |draws| && forall id <- due :: id in was
  {
    if due == [] then was
    else
      var k := |due| - 1;
      var before := RotateAll(c, was, due[..k], draws, now);
      match draws[k]
      case None => before
      case Some(d) => (before - {due[k]})[d.0 := CreateToken(c, d.0, d.1, was[due[k]].binding, now)]
  }

  /** The logins the sessions stand for, moved along. */
  ghost function RotateOrigins(o: map<string, nat>, due: seq<string>, draws: seq<Draw>): map<string, nat>
    requires |due| <= |draws| && forall id <- due :: id in o
  {
    if due == [] then o
    else
      var k := |due| - 1;
      var before := RotateOrigins(o, due[..k], draws);
      match draws[k]
      case None => before
      case Some(d) => (before - {due[k]})[d.0 := o[due[k]]]
  }

  lemma SessionsHaveOrigins(h: History, c: Crypto, active: map<string, SessionToken>, o: map<string, nat>)
    requires SessionsOk(h, c, active, o)
    ensures o.Keys == active.Keys && forall id <- active :: id in o
  {
  }

  lemma {:induction false} OriginSpares(o: map<string, nat>, due: seq<string>, draws: seq<Draw>, id: string)
    requires |due| <= |draws| && FreshDraws(o.Keys, draws) && (forall x <- due :: x in o) && id in o && id !in due
    ensures id in RotateOrigins(o, due, draws) && RotateOrigins(o, due, draws)[id] == o[id]
    decreases |due|
  {
    if due != [] {
      OriginSpares(o, due[..|due| - 1], draws, id);
    }
  }

  lemma OriginOneMore(o: map<string, nat>, due: seq<string>, draws: seq<Draw>, k: nat)
    requires k < |due| <= |draws| && DistinctTexts(due) && FreshDraws(o.Keys, draws) && forall id <- due :: id in o
    ensures var before := RotateOrigins(o, due[..k], draws);
            && due[k] in before && before[due[k]] == o[due[k]]
            && RotateOrigins(o, due[..k + 1], draws)
            == match draws[k]
               case None => before
               case Some(d) => (before - {due[k]})[d.0 := o[due[k]]]
  {
    OriginSpares(o, due[..k], draws, due[k]);
    assert due[..k + 1][..k] == due[..k];
  }

  /** A login follows its session to the drawn identifier, or stays with it. */
  lemma {:induction false} OriginFollows(o: map<string, nat>, due: seq<string>, draws: seq<Draw>, k: nat)
    requires k < |due| <= |draws| && DistinctTexts(due) && FreshDraws(o.Keys, draws) && forall id <- due :: id in o
    ensures var after, id := RotateOrigins(o, due, draws), if draws[k].Some? then draws[k].value.0 else due[k];
            id in after && after[id] == o[due[k]]
    decreases |due|
  {
    var n := |due| - 1;
    if k < n {
      OriginFollows(o, due[..n], draws, k);
      assert due[k] in due && due[n] in due;
    } else {
      OriginOneMore(o, due, draws, k);
      assert due[..k + 1] == due;
    }
  }

  /** A session that is due and gets no draw is still there. */
  lemma {:induction false} RotationKeeps(c: Crypto, was: map<string, SessionToken>, due: seq<string>, draws: seq<Draw>,
                                         now: int, k: nat)
    requires k < |due| <= |draws| && DistinctTexts(due) && FreshDraws(was.Keys, draws) && (forall x <- due :: x in was)
    requires draws[k].None?
    ensures var after := RotateAll(c, was, due, draws, now); due[k] in after && after[due[k]] == was[due[k]]
    decreases |due|
  {
    hide CreateToken;
    var n := |due| - 1;
    if k < n {
      RotationKeeps(c, was, due[..n], draws, now, k);
      assert due[k] in due && due[n] in due;
    } else {
      RotateOneMore(c, was, due, draws, now, k);
      assert due[..k + 1] == due;
    }
  }

  /**
   The rotation loop renews expired sessions: after a round the login of an expired session is in an
   unexpired one exactly when its draw succeeded. The round's result is that of `RotateExpiringSessions`.
   */
  lemma ExpiredIsRenewedIff(c: Crypto, was: map<string, SessionToken>, o: map<string, nat>, due: seq<string>,
                            draws: seq<Draw>, now: int, k: nat)
    requires k < |due| <= |draws| && DistinctTexts(due) && FreshDraws(was.Keys, draws) && was.Keys == o.Keys
    requires (forall x <- due :: x in was) && now > was[due[k]].expiresAt
    requires RotateOrigins(o, due, draws).Keys == RotateAll(c, was, due, draws, now).Keys
    requires Injective(RotateOrigins(o, due, draws))
    ensures var after, origin := RotateAll(c, was, due, draws, now), RotateOrigins(o, due, draws);
            (exists id <- after :: origin[id] == o[due[k]] && now <= after[id].expiresAt) <==> draws[k].Some?
  {
    hide RotateAll, RotateOrigins;
    var after, origin := RotateAll(c, was, due, draws, now), RotateOrigins(o, due, draws);
    OriginFollows(o, due, draws, k);
    if draws[k].Some? {
      RotationReplaces(c, was, due, draws, now, k);
      assert now <= after[draws[k].value.0].expiresAt;
    } else {
      RotationKeeps(c, was, due, draws, now, k);
      assert forall id <- after :: origin[id] == o[due[k]] ==> id == due[k];
    }
  }

  /** When every draw succeeds no session is due afterwards. */
  lemma AllRenewed(c: Crypto, was: map<string, SessionToken>, due: seq<string>, draws: seq<Draw>, now: int)
    requires |due| <= |draws| && DistinctTexts(due) && FreshDraws(was.Keys, draws) && (forall x <- due :: x in was)
    requires forall id <- was :: now - was[id].rotatedAt >= ROTATION_INTERVAL ==> id in due
    requires forall d <- draws :: d.Some?
    ensures forall id <- RotateAll(c, was, due, draws, now) ::
              now - RotateAll(c, was, due, draws, now)[id].rotatedAt < ROTATION_INTERVAL
  {
    hide RotateAll, FreshDraws, DistinctTexts;
    assert forall k :: 0 <= k < |draws| ==> draws[k] in draws && draws[k].Some?;
    forall id | id in RotateAll(c, was, due, draws, now)
      ensures now - RotateAll(c, was, due, draws, now)[id].rotatedAt < ROTATION_INTERVAL
    {
      RotatedComesFrom(c, was, due, draws, now, id);
    }
  }

  lemma RotateNone(c: Crypto, was: map<string, SessionToken>, o: map<string, nat>, draws: seq<Draw>, now: int)
    ensures RotateAll(c, was, [], draws, now) == was && RotateOrigins(o, [], draws) == o
  {
  }

  /** A session not rotated yet is still there, and the next draw is still fresh. */
  lemma RotateOneMore(c: Crypto, was: map<string, SessionToken>, due: seq<string>, draws: seq<Draw>, now: int, k: nat)
    requires k < |due| <= |draws| && DistinctTexts(due) && FreshDraws(was.Keys, draws) && forall id <- due :: id in was
    ensures var before := RotateAll(c, was, due[..k], draws, now);
            && due[k] in before && before[due[k]] == was[due[k]] && due[k] in due
            && RotateAll(c, was, due[..k + 1], draws, now)
            == match draws[k]
               case None => before
               case Some(d) => (before - {due[k]})[d.0 := CreateToken(c, d.0, d.1, was[due[k]].binding, now)]
    ensures draws[k].Some? ==> draws[k].value.0 !in RotateAll(c, was, due[..k], draws, now)
  {
    hide CreateToken;
    RotationSpares(c, was, due[..k], draws, now, due[k]);
    assert due[..k + 1][..k] == due[..k];
    if draws[k].Some? && draws[k].value.0 in RotateAll(c, was, due[..k], draws, now) {
      RotatedComesFrom(c, was, due[..k], draws, now, draws[k].value.0);
    }
  }

  /** A session that is not due stays as it is. */
  lemma {:induction false} RotationSpares(c: Crypto, was: map<string, SessionToken>, due: seq<string>, draws: seq<Draw>,
                                          now: int, id: string)
    requires |due| <= |draws| && FreshDraws(was.Keys, draws) && (forall x <- due :: x in was)
    requires id in was && id !in due
    ensures id in RotateAll(c, was, due, draws, now) && RotateAll(c, was, due, draws, now)[id] == was[id]
    decreases |due|
  {
    hide CreateToken;
    if due != [] {
      RotationSpares(c, was, due[..|due| - 1], draws, now, id);
    }
  }

  /** A session that is due and gets a draw is replaced by a token for the same binding. */
  lemma {:induction false} RotationReplaces(c: Crypto, was: map<string, SessionToken>, due: seq<string>, draws: seq<Draw>,
                                            now: int, k: nat)
    requires k < |due| <= |draws| && DistinctTexts(due) && FreshDraws(was.Keys, draws) && (forall x <- due :: x in was)
    requires draws[k].Some?
    ensures var after, d := RotateAll(c, was, due, draws, now), draws[k].value;
            && due[k] !in after && d.0 in after
            && after[d.0] == CreateToken(c, d.0, d.1, was[due[k]].binding, now)
    decreases |due|
  {
    hide CreateToken;
    if k < |due| - 1 {
      RotationReplaces(c, was, due[..|due| - 1], draws, now, k);
      assert due[k] in due && due[|due| - 1] in due;
    }
  }

  /** Every session afterwards was there before and got no draw, or is new with the draw it got. */
  lemma {:induction false} RotatedComesFrom(c: Crypto, was: map<string, SessionToken>, due: seq<string>, draws: seq<Draw>,
                                            now: int, id: string)
    requires |due| <= |draws| && DistinctTexts(due) && FreshDraws(was.Keys, draws) && (forall x <- due :: x in was)
    requires id in RotateAll(c, was, due, draws, now)
    ensures var t := RotateAll(c, was, due, draws, now)[id];
            || (id in was && t == was[id] && (id in due ==> exists k :: 0 <= k < |due| && due[k] == id && draws[k] == None))
            || (t.rotatedAt == now
                && exists k :: 0 <= k < |due| && draws[k].Some? && draws[k].value.0 == id && t.binding == was[due[k]].binding)
    decreases |due|
  {
    if due != [] {
      var k := |due| - 1;
      if draws[k] == None || id != draws[k].value.0 {
        RotatedComesFrom(c, was, due[..k], draws, now, id);
      } else {
        assert draws[k].value.0 == id;
      }
    }
  }

  lemma NoSessionNoLogin(h: History, c: Crypto, active: map<string, SessionToken>, o: map<string, nat>, device: string)
    requires SessionsOk(h, c, active, o) && forall id <- active :: active[id].binding.device != device
    ensures NoneLiveFor(Snapshot(h, Live(o)), device)
  {
    hide Authentic;
    forall x | x in Live(o) ensures x < |h| && h[x].Authenticated? && h[x].binding.device != device {
      var id :| id in o && o[id] == x;
      assert id in active;
    }
  }

  lemma ChallengeHasOrigin(h: History, d: string, pending: map<string, Challenge>, o: map<string, nat>)
    requires ChallengesOk(h, pending, o) && d in pending
    ensures d in o
  {
  }

  lemma DropChallenge(h: History, d: string, pending: map<string, Challenge>, o: map<string, nat>)
    requires ChallengesOk(h, pending, o)
    ensures ChallengesOk(h, pending - {d}, o - {d})
  {
  }

  lemma DropOtp(h: History, email: string, pending: map<string, Otp>, o: map<string, nat>)
    requires OtpsOk(h, pending, o)
    ensures OtpsOk(h, pending - {email}, o - {email})
  {
  }

  /**
   A whole login, in plain numbers. With any two devices registered for one e-mail, the assertion of the
   first at time 0 sends a code; a login on the second succeeds exactly when it presents that code at most
   300 seconds later. The code is bound to the e-mail, not to the device that proved itself.
   */
  method AssertOneDeviceLoginAnother(crypto: Crypto, checks: Checks, b: Binding, first: string, one: Attestation,
                                     second: Attestation, a: Assertion, drawn: string, code: string, presented: string,
                                     later: int, token: (string, string))
    returns (m: SessionManager, r: Option<SessionToken>)
    requires Lawful(crypto) && IsCompanyEmail(b.email) && first != "" && b.device != "" && first != b.device
    requires AssertionAccepted(checks, RelyingParty("", ""), one, Challenge(drawn, CHALLENGE_TTL), a, 0)
    ensures r.Some? <==> presented == code && later <= 300
    ensures r.Some? ==> r.value.binding == b && r.value.expiresAt == later + 28_800
    ensures m.history == [ChallengeIssued(first, drawn, 0),
                          AssertionVerified(first, 0, b.email, AnswerOf(checks, RelyingParty("", ""), one, a), 0),
                          OtpIssued(b.email, 1, code, 0)]
                         + if r.Some? then [Authenticated(b, 2, presented, later)] else []
  {
    hide IsCompanyEmail, Lawful, ChallengesOk, OtpsOk, SessionsOk, Sound, LiveStep, CreateToken, Live, CountersOk;
    hide AssertionAccepted, AnswersOk, AnswerOf;
    m := RegisterTwo(crypto, checks, b.email, first, b.device, one, second);
    AssertFirst(m, b.email, first, a, drawn, code);
    r := m.CompleteAuthentication(b, presented, Some(token), later);
  }

  method RegisterTwo(crypto: Crypto, checks: Checks, email: string, first: string, other: string, one: Attestation,
                     second: Attestation) returns (m: SessionManager)
    requires Lawful(crypto) && IsCompanyEmail(email) && first != "" && other != "" && first != other
    ensures fresh(m) && m.Valid() && m.checks == checks && m.crypto == crypto && m.relyingParty == RelyingParty("", "")
    ensures m.history == [] && m.activeSessions == map[] && m.pendingOtps == map[] && m.otpOrigin == map[]
    ensures m.registeredDevices == map[first := one, other := second]
    ensures m.deviceToUser == map[first := email, other := email]
  {
    hide IsCompanyEmail, Lawful, ChallengesOk, OtpsOk, SessionsOk, Sound, LiveStep, Live, CountersOk, AnswersOk;
    m := new SessionManager(crypto, checks);
    var ok := m.RegisterDevice(email, first, one);
    ok := m.RegisterDevice(email, other, second);
  }

  method AssertFirst(m: SessionManager, email: string, first: string, a: Assertion, drawn: string, code: string)
    requires m.Valid() && IsCompanyEmail(email) && m.history == [] && m.activeSessions == map[] && m.otpOrigin == map[]
    requires first in m.registeredDevices && first in m.deviceToUser && m.deviceToUser[first] == email
    requires AssertionAccepted(m.checks, m.relyingParty, m.registeredDevices[first], Challenge(drawn, CHALLENGE_TTL), a, 0)
    requires m.pendingOtps == map[]
    modifies m
    ensures m.Valid() && m.activeSessions == map[] && m.deviceToUser == old(m.deviceToUser)
    ensures m.history == [ChallengeIssued(first, drawn, 0),
                          AssertionVerified(first, 0, email, AnswerOf(m.checks, old(m.relyingParty),
                                                                      old(m.registeredDevices)[first], a), 0),
                          OtpIssued(email, 1, code, 0)]
    ensures m.pendingOtps == map[email := Otp(code, OTP_TTL)] && m.otpOrigin == map[email := 2]
    ensures m.registeredDevices.Keys == old(m.registeredDevices.Keys)
  {
    hide IsCompanyEmail, Lawful, ChallengesOk, OtpsOk, SessionsOk, Sound, LiveStep, Live, AssertionAccepted, CountersOk;
    hide AnswersOk, AnswerOf;
    var ok := m.BeginWebAuthnAuth(first, drawn, 0);
    assert m.challengeOrigin[first] == 0 && m.history == [ChallengeIssued(first, drawn, 0)];
    var accepted, sent := m.CompleteWebAuthnAuth(first, a, code, true, 0);
  }
}
