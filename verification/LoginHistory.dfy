/**
 What the login state machine must be able to account for: a history of challenges, verified
 assertions, delivered codes and completed logins, each consuming one of the former (auth/session.go,
 auth/otp.go, auth/webauthn.go).
 */
module LoginHistory {
  import opened Bytes

  /** What a session is bound to. */
  datatype Binding = Binding(email: string, device: string, dept: int, tier: string)

  /** What the manager expects of an assertion: its own settings and the registered credential. */
  datatype Expected = Expected(origin: string, rpHash: seq<Byte>, credential: seq<Byte>)

  /** What an accepted assertion said, as far as it can be read off it. */
  datatype Answer = Answer(clientData: seq<Byte>, typ: string, challenge: string, origin: string, rpHash: seq<Byte>,
                           flags: Byte, credential: seq<Byte>, expected: Expected)

  /** Every event carries the time at which it happened. */
  datatype Event =
    | ChallengeIssued(device: string, bytes: string, at: int)
    // the challenge it consumed, and the e-mail the device is registered for
    | AssertionVerified(device: string, challenge: nat, owner: string, answer: Answer, at: int)
    | OtpIssued(email: string, assertion: nat, code: string, at: int) // the assertion that asked for it
    | Authenticated(binding: Binding, otp: nat, presented: string, at: int) // the code it consumed

  type History = seq<Event>

  /** An answer to this challenge, from the expected origin, relying party and credential, with the user present. */
  predicate Sincere(a: Answer, bytes: string) {
    && a.typ == "webauthn.get" && a.challenge == bytes && a.origin == a.expected.origin
    && a.rpHash == a.expected.rpHash && a.flags % 2 == 1 && a.credential == a.expected.credential
  }

  /** Every event names an earlier event of the right kind, fits it, and comes in time. */
  ghost predicate Grounded(h: History, i: nat)
    requires i < |h|
  {
    match h[i]
    case ChallengeIssued(_, _, _) => true
    case AssertionVerified(d, c, _, answer, at) =>
      c < i && h[c].ChallengeIssued? && h[c].device == d && Sincere(answer, h[c].bytes) && at <= h[c].at + 120
    case OtpIssued(e, a, _, _) => a < i && h[a].AssertionVerified? && h[a].owner == e
    case Authenticated(b, o, presented, at) =>
      o < i && h[o].OtpIssued? && h[o].email == b.email && h[o].code == presented && at <= h[o].at + 300
  }

  /** Two events consume the same earlier event. */
  predicate SameCause(e: Event, f: Event) {
    || (e.AssertionVerified? && f.AssertionVerified? && e.challenge == f.challenge)
    || (e.OtpIssued? && f.OtpIssued? && e.assertion == f.assertion)
    || (e.Authenticated? && f.Authenticated? && e.otp == f.otp)
  }

  /** Grounded throughout, and nothing is consumed twice. */
  ghost predicate Sound(h: History) {
    && (forall i :: 0 <= i < |h| ==> Grounded(h, i))
    && forall i, j :: 0 <= i < j < |h| ==> !SameCause(h[i], h[j])
  }

  /** Nothing in the history has consumed the event with the same cause as e. */
  ghost predicate Unused(h: History, e: Event) {
    forall i :: 0 <= i < |h| ==> !SameCause(h[i], e)
  }

  lemma SoundExtends(h: History, e: Event)
    requires Sound(h) && Grounded(h + [e], |h|) && Unused(h, e)
    ensures Sound(h + [e])
  {
    var longer := h + [e];
    forall i | 0 <= i < |longer| ensures Grounded(longer, i) {
      if i < |h| {
        assert Grounded(h, i) && longer[i] == h[i];
      }
    }
  }

  /** No assertion consumed the challenge. */
  ghost predicate UnusedChallenge(h: History, c: nat) {
    forall i :: 0 <= i < |h| && h[i].AssertionVerified? ==> h[i].challenge != c
  }

  /** No login consumed the code. */
  ghost predicate UnusedOtp(h: History, o: nat) {
    forall i :: 0 <= i < |h| && h[i].Authenticated? ==> h[i].otp != o
  }

  /** Every accepted assertion signed the text of the challenge it consumed, in time, and was meant for this manager. */
  lemma AssertionAnswersItsChallenge(h: History, i: nat)
    requires Sound(h) && i < |h| && h[i].AssertionVerified?
    ensures h[i].challenge < i && h[h[i].challenge].ChallengeIssued? && h[h[i].challenge].device == h[i].device
    ensures h[i].answer.challenge == h[h[i].challenge].bytes && h[i].at - h[h[i].challenge].at <= 120
    ensures h[i].answer.typ == "webauthn.get" && h[i].answer.flags % 2 == 1
    ensures h[i].answer.origin == h[i].answer.expected.origin && h[i].answer.rpHash == h[i].answer.expected.rpHash
    ensures h[i].answer.credential == h[i].answer.expected.credential
  {
    assert Grounded(h, i);
  }

  /** The challenges drawn so far differ. */
  ghost predicate DistinctDraws(h: History) {
    forall i, j :: 0 <= i < j < |h| && h[i].ChallengeIssued? && h[j].ChallengeIssued? ==> h[i].bytes != h[j].bytes
  }

  /** With distinct draws no challenge text is accepted twice. */
  lemma NoChallengeTwice(h: History, i: nat, j: nat)
    requires Sound(h) && DistinctDraws(h) && i < j < |h| && h[i].AssertionVerified? && h[j].AssertionVerified?
    ensures h[i].answer.challenge != h[j].answer.challenge
  {
    AssertionAnswersItsChallenge(h, i);
    AssertionAnswersItsChallenge(h, j);
    assert !SameCause(h[i], h[j]);
    var c, d := h[i].challenge, h[j].challenge;
    assert c != d && h[c].bytes != h[d].bytes;
  }

  /**
   A completed login goes back to one challenge, through one code and one assertion of a device of its own
   e-mail: it presented the very code that was delivered, at most 300 seconds after, and that code was sent
   for an answer to the challenge, at most 120 seconds after it was drawn.
   */
  lemma LoginTracesBack(h: History, i: nat) returns (otp: nat, assertion: nat, challenge: nat)
    requires Sound(h) && i < |h| && h[i].Authenticated?
    ensures challenge < assertion < otp < i
    ensures h[i].otp == otp && h[otp].OtpIssued? && h[otp].email == h[i].binding.email && h[otp].assertion == assertion
    ensures h[i].presented == h[otp].code && h[i].at - h[otp].at <= 300
    ensures h[assertion].AssertionVerified? && h[assertion].challenge == challenge
    ensures h[assertion].owner == h[i].binding.email
    ensures h[challenge].ChallengeIssued? && h[challenge].device == h[assertion].device
    ensures h[assertion].answer.challenge == h[challenge].bytes && h[assertion].at - h[challenge].at <= 120
  {
    assert Grounded(h, i);
    otp := h[i].otp;
    assert Grounded(h, otp);
    assertion := h[otp].assertion;
    AssertionAnswersItsChallenge(h, assertion);
    challenge := h[assertion].challenge;
  }

  /** Different logins go back to different challenges: one ceremony opens at most one session. */
  lemma LoginsShareNothing(h: History, i: nat, j: nat)
    requires Sound(h) && i < j < |h| && h[i].Authenticated? && h[j].Authenticated?
    ensures var o, p := h[i].otp, h[j].otp;
            && o < |h| && p < |h| && o != p && h[o].OtpIssued? && h[p].OtpIssued?
            && h[o].assertion != h[p].assertion
            && h[o].assertion < |h| && h[p].assertion < |h|
            && h[h[o].assertion].AssertionVerified? && h[h[p].assertion].AssertionVerified?
            && h[h[o].assertion].challenge != h[h[p].assertion].challenge
  {
    var o, a, c := LoginTracesBack(h, i);
    var p, b, d := LoginTracesBack(h, j);
    assert !SameCause(h[i], h[j]);
    assert !SameCause(h[o], h[p]) && !SameCause(h[p], h[o]);
    assert !SameCause(h[a], h[b]) && !SameCause(h[b], h[a]);
  }

  // ----- live logins -----

  /** The logins that active sessions stand for: `origin` maps each session to its login in the history. */
  function Live(origin: map<string, nat>): set<nat> {
    set id <- origin :: origin[id]
  }

  ghost predicate Injective(origin: map<string, nat>) {
    forall a <- origin, b <- origin :: origin[a] == origin[b] ==> a == b
  }

  lemma {:induction false} LiveCount(origin: map<string, nat>)
    requires Injective(origin)
    ensures |Live(origin)| == |origin|
    decreases |origin|
  {
    if origin != map[] {
      var id :| id in origin;
      var rest := origin - {id};
      forall o | o in Live(origin) ensures o in Live(rest) + {origin[id]} {
        var a :| a in origin && origin[a] == o;
        assert a != id ==> a in rest;
      }
      assert Live(origin) == Live(rest) + {origin[id]} && origin[id] !in Live(rest);
      assert rest.Keys == origin.Keys - {id};
      LiveCount(rest);
    } else {
      assert Live(origin) == {};
    }
  }

  /** The sessions with a given binding. */
  function With(h: History, origin: map<string, nat>, b: Binding): map<string, nat> {
    map id <- origin | origin[id] < |h| && h[origin[id]].Authenticated? && h[origin[id]].binding == b :: origin[id]
  }

  /** Sessions that stand for the same logins have every binding equally often, whatever their identifiers. */
  lemma SameLiveSameBindings(h: History, origin: map<string, nat>, origin': map<string, nat>, b: Binding)
    requires Injective(origin) && Injective(origin') && Live(origin) == Live(origin')
    ensures |With(h, origin, b)| == |With(h, origin', b)|
  {
    LiveOfWith(h, origin, origin', b);
    LiveOfWith(h, origin', origin, b);
    LiveCount(With(h, origin, b));
    LiveCount(With(h, origin', b));
    assert Live(With(h, origin, b)) == Live(With(h, origin', b));
  }

  lemma LiveOfWith(h: History, origin: map<string, nat>, origin': map<string, nat>, b: Binding)
    requires Live(origin) == Live(origin')
    ensures Live(With(h, origin, b)) <= Live(With(h, origin', b))
  {
    forall o | o in Live(With(h, origin, b)) ensures o in Live(With(h, origin', b)) {
      var id :| id in With(h, origin, b) && origin[id] == o;
      assert o in Live(origin);
      var id' :| id' in origin' && origin'[id'] == o;
      assert id' in With(h, origin', b);
    }
  }

  /** A step of the state machine seen from outside: the history grows, and only new logins become live. */
  datatype Snapshot = Snapshot(history: History, live: set<nat>)

  ghost predicate LiveStep(s: Snapshot, s': Snapshot) {
    && s.history <= s'.history
    && (forall o <- s'.live :: o < |s'.history|)
    && forall o <- s'.live :: o in s.live || o >= |s.history|
  }

  lemma GrowingIsLiveStep(h: History, more: History, live: set<nat>)
    requires forall o <- live :: o < |h|
    ensures LiveStep(Snapshot(h, live), Snapshot(h + more, live)) && LiveStep(Snapshot(h, live), Snapshot(h, live))
  {
  }

  lemma NewLoginIsLiveStep(h: History, e: Event, live: set<nat>)
    requires forall o <- live :: o < |h|
    ensures LiveStep(Snapshot(h, live), Snapshot(h + [e], live + {|h|}))
  {
  }

  lemma ShrinkingIsLiveStep(h: History, live: set<nat>, live': set<nat>)
    requires (forall o <- live :: o < |h|) && live' <= live
    ensures LiveStep(Snapshot(h, live), Snapshot(h, live'))
  {
  }

  ghost predicate LiveRun(run: seq<Snapshot>) {
    forall i :: 0 <= i < |run| - 1 ==> LiveStep(run[i], run[i + 1])
  }

  lemma {:induction false} LiveRunComposes(run: seq<Snapshot>, i: nat, j: nat)
    requires LiveRun(run) && i < j < |run|
    ensures LiveStep(run[i], run[j])
    decreases j
  {
    if i + 1 < j {
      LiveRunComposes(run, i, j - 1);
      assert LiveStep(run[j - 1], run[j - 1 + 1]);
    } else {
      assert LiveStep(run[i], run[i + 1]);
    }
  }

  /** No live login is bound to the device. */
  ghost predicate NoneLiveFor(s: Snapshot, device: string) {
    forall o <- s.live :: o < |s.history| && !(s.history[o].Authenticated? && s.history[o].binding.device == device)
  }

  /** Once a device's sessions are revoked, any later session of it comes from a login completed after that. */
  lemma RevokedNeedsNewLogin(run: seq<Snapshot>, i: nat, j: nat, device: string, o: nat)
    requires LiveRun(run) && i < j < |run| && NoneLiveFor(run[i], device)
    requires o in run[j].live && o < |run[j].history| && run[j].history[o].Authenticated?
    requires run[j].history[o].binding.device == device
    ensures o >= |run[i].history|
  {
    LiveRunComposes(run, i, j);
  }
}
