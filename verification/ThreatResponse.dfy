/**
 Blocking and unblocking an IP: plan against the allowlist, then apply a signed carve
 (cmd/ghost-ctl/threat_response.go). Between the plan and the update other handlers may run.
 */
module ThreatResponse {
  import opened Options
  import opened Prefixes
  import opened Allowlist
  import opened AllowlistManager

  datatype BlockRecord = BlockRecord(score: int, blockedAt: int, reason: string)

  datatype BlockOutcome =
    | Denied // audited as SUCCESS, ABSOLUTE_SILENCE
    | AlreadyDenied // audited as NOOP_ALREADY_DENIED
    | Failed // nothing recorded

  /** The entry the operator's unblock adds. */
  function UnblockEntry(a: Address): Entry {
    Entry(V4(a, 32), "manual-unblock", 0, 0)
  }

  /** A /32 contains its own address only. */
  lemma HostMatchesItself(a: Address, x: Address)
    ensures V4(a, 32).Matches(x) <==> x == a
    ensures V4(a, 32).Canonical()
  {
  }

  lemma UnblockAllowsOnlyTheAddress(m: Entries, a: Address, now: int, x: Address)
    ensures Allowed(AddAll(m, [UnblockEntry(a)], now), x) <==> Allowed(m, x) || x == a
  {
    var m' := AddAll(m, [UnblockEntry(a)], now);
    AddAllKeys(m, [UnblockEntry(a)], now);
    HostMatchesItself(a, x);
    assert UnblockEntry(a) in [UnblockEntry(a)];
    assert forall c :: c in m' <==> c in m || c == V4(a, 32);
  }

  /** The entries after a block that goes through: a carve, or nothing when the address was denied already. */
  ghost function AfterBlock(m: Entries, best: Cidr, a: Address, now: int): Entries
    requires WellFormed(m) && (Allowed(m, a) ==> IsBest(m, a, best))
  {
    if Allowed(m, a) then Carved(m, m[best], a, now) else m
  }

  /** Blocking an address and unblocking it again changes no verdict exactly when the address was allowed. */
  lemma BlockThenUnblockRestoresIff(m: Entries, best: Cidr, a: Address, t: int, u: int)
    requires WellFormed(m) && (Allowed(m, a) ==> IsBest(m, a, best))
    ensures (forall x: Address :: Allowed(AddAll(AfterBlock(m, best, a, t), [UnblockEntry(a)], u), x) <==> Allowed(m, x))
       <==> Allowed(m, a)
  {
    if Allowed(m, a) {
      PresentCarveIsSurgical(m, m[best], a, t);
    }
    forall x: Address
      ensures Allowed(AddAll(AfterBlock(m, best, a, t), [UnblockEntry(a)], u), x)
         <==> Allowed(AfterBlock(m, best, a, t), x) || x == a
    {
      UnblockAllowsOnlyTheAddress(AfterBlock(m, best, a, t), a, u, x);
    }
  }

  /** An address that no entry covers: the block is a no-op, and the unblock allows what was never allowed. */
  lemma UnblockAllowsTheNeverAllowed(m: Entries, best: Cidr, a: Address, t: int, u: int)
    requires WellFormed(m) && !Allowed(m, a)
    ensures AfterBlock(m, best, a, t) == m && Allowed(AddAll(AfterBlock(m, best, a, t), [UnblockEntry(a)], u), a)
  {
    UnblockAllowsOnlyTheAddress(m, a, u, a);
  }

  /** The unblock entry never expires: it outlives a cover that had an expiry. */
  lemma UnblockNeverExpires(m: Entries, a: Address, u: int, t: int)
    ensures AllowedAt(AddAll(m, [UnblockEntry(a)], u), t, a)
  {
    var add := [UnblockEntry(a)];
    assert add[..0] == [] && AddAll(m, [], u) == m;
    assert AddAll(m, add, u) == m[V4(a, 32) := Stamped(UnblockEntry(a), u)];
    HostMatchesItself(a, a);
  }

  /** A block denies the address exactly when one entry covered it; a second cover keeps it allowed. */
  lemma BlockDeniesIffSingleCover(m: Entries, best: Cidr, a: Address, now: int)
    requires WellFormed(m) && IsBest(m, a, best)
    ensures !Allowed(Carved(m, m[best], a, now), a) <==> |Covering(m, a)| == 1
  {
    PresentCarveIsSurgical(m, m[best], a, now);
    AllowedIffCovering(Carved(m, m[best], a, now), a);
  }

  lemma SingleCoverIsDenied(m: Entries, best: Cidr, a: Address, now: int)
    requires WellFormed(m) && IsBest(m, a, best)
    ensures |Covering(m, a)| <= 1 ==> !Allowed(Carved(m, m[best], a, now), a)
  {
    assert best in Covering(m, a);
    BlockDeniesIffSingleCover(m, best, a, now);
  }

  /** 10.0.0.0/31 inside 10.0.0.0/30: blocking 10.0.0.0 once leaves it allowed by the /30. */
  lemma NestedBlockLeavesAllowed(e: Entry, f: Entry, now: int)
    requires e.cidr == V4(0x0A00_0000, 31) && f.cidr == V4(0x0A00_0000, 30)
    ensures var m := map[e.cidr := e, f.cidr := f];
            IsBest(m, 0x0A00_0000, e.cidr) && Allowed(Carved(m, e, 0x0A00_0000, now), 0x0A00_0000)
  {
    var a: Address := 0x0A00_0000;
    var m := map[e.cidr := e, f.cidr := f];
    ShrClearLow(a, 1);
    ShrClearLow(a, 2);
    assert e.cidr.Matches(a) && f.cidr.Matches(a);
    CarveCoverage(m, e, a, now, a);
    assert f.cidr in m - {e.cidr};
  }

  /** Number of trie writes of a complete plan: one deletion and one insertion a level. */
  function PlanSize(e: Entry): nat
    requires e.cidr.V4?
  {
    1 + ADDRESS_BITS - e.cidr.len
  }

  /** The kernel accepts the next n writes. */
  ghost predicate AllAccepted(refuses: nat -> bool, w: nat, n: nat) {
    forall i :: w <= i < w + n ==> !refuses(i)
  }

  lemma AcceptedSoFar(m: Entries, remove: seq<Cidr>, add: seq<Entry>, refuses: nat -> bool, w: nat, done: nat,
                      loaded: bool)
    requires StopsAt(m, remove, add, loaded, refuses, w, done)
    ensures loaded ==> AllAccepted(refuses, w, done)
  {
    if loaded {
      forall n | w <= n < w + done ensures !refuses(n) {
        assert !ChangeFails(m, remove, add, loaded, refuses, w, n - w);
      }
    }
  }

  /** The update that carries a plan: what it changes, and when the changes all go through. */
  lemma PlannedUpdate(u: Update, e: Entry, a: Address)
    requires e.cidr.V4? && u.action == Carve && u.remove == [e.cidr] && u.entries == CarveOuts(e, a)
    ensures Removals(u) == [e.cidr] && Additions(u) == CarveOuts(e, a) && SetOf(Removals(u)) == {e.cidr}
    ensures Changes(u) == PlanSize(e)
    ensures forall i :: 0 <= i < Changes(u) ==> ChangedText(u, i).V4?
    ensures e.cidr.Canonical() ==> CanonicalUpdate(u)
  {
    CarveOutsAreCanonical(e, a);
  }

  /** How a plan that was not applied is still a step of the concurrent run. */
  lemma FailedStep(m: Entries, m': Entries, e: Entry, a: Address, loaded: bool, refuses: nat -> bool, w: nat, done: nat,
                   now: int)
    requires e.cidr.Matches(a) && StopsAt(m, [e.cidr], CarveOuts(e, a), loaded, refuses, w, done) && done < PlanSize(e)
    requires m'.Keys <= m.Keys + if done <= 1 then {} else Texts(CarveOuts(e, a))
    ensures CarveStep(m, m', loaded, e, a, now, false)
  {
    hide CarveOuts, StopsAt;
    CarveOutTexts(e, a);
    PlannedStopIff(m, e, a, loaded, refuses, w, done);
    if done > 1 {
      FirstChangeWent(m, e, a, loaded, refuses, w, done);
    }
  }

  lemma FirstChangeWent(m: Entries, e: Entry, a: Address, loaded: bool, refuses: nat -> bool, w: nat, done: nat)
    requires e.cidr.V4? && StopsAt(m, [e.cidr], CarveOuts(e, a), loaded, refuses, w, done) && done > 0 && loaded
    ensures e.cidr in m
  {
    assert !ChangeFails(m, [e.cidr], CarveOuts(e, a), loaded, refuses, w, 0);
  }

  lemma AppliedStep(m: Entries, e: Entry, a: Address, loaded: bool, now: int)
    requires e.cidr.Matches(a) && (loaded ==> e.cidr in m)
    ensures CarveStep(m, Carved(m, e, a, now), loaded, e, a, now, true)
  {
  }

  lemma UnchangedStep(m: Entries, e: Entry, a: Address, loaded: bool, now: int)
    requires e.cidr.Matches(a)
    ensures CarveStep(m, m, loaded, e, a, now, false)
  {
  }

  lemma PlannedWrites(u: Update, loaded: bool, w: nat, done: nat)
    requires done < Changes(u) && ChangedText(u, done).V4?
    ensures WritesUntil(Removals(u), Additions(u), loaded, w, done) == if loaded then w + done + 1 else w
  {
  }

  lemma PlannedStopIff(m: Entries, e: Entry, a: Address, loaded: bool, refuses: nat -> bool, w: nat, done: nat)
    requires e.cidr.V4? && StopsAt(m, [e.cidr], CarveOuts(e, a), loaded, refuses, w, done)
    ensures done <= PlanSize(e)
    ensures done == PlanSize(e) <==> (loaded ==> e.cidr in m && AllAccepted(refuses, w, PlanSize(e)))
  {
    var remove, add := [e.cidr], CarveOuts(e, a);
    forall i | 0 <= i < PlanSize(e)
      ensures ChangeFails(m, remove, add, loaded, refuses, w, i) <==> loaded && (refuses(w + i) || (i == 0 && e.cidr !in m))
    {
    }
    if loaded && AllAccepted(refuses, w, PlanSize(e)) && done < PlanSize(e) {
      assert !refuses(w + done);
    }
    if loaded && done == PlanSize(e) {
      assert !ChangeFails(m, remove, add, loaded, refuses, w, 0);
      forall n | w <= n < w + PlanSize(e) ensures !refuses(n) {
        assert !ChangeFails(m, remove, add, loaded, refuses, w, n - w);
      }
    }
  }

  lemma AddOneUpdate(u: Update, f: Entry)
    requires u.action == Add && u.entries == [f] && u.remove == []
    ensures Removals(u) == [] && Additions(u) == [f] && Changes(u) == 1 && SetOf(Removals(u)) == {}
    ensures ChangedText(u, 0) == f.cidr
    ensures (f.cidr.V4? ==> f.cidr.Canonical()) ==> CanonicalUpdate(u)
    ensures forall m, now :: SomeChanges(m, u, 0, now) == m
  {
  }

  lemma AddOneStop(m: Entries, f: Entry, loaded: bool, refuses: nat -> bool, w: nat, done: nat)
    requires f.cidr.V4? && StopsAt(m, [], [f], loaded, refuses, w, done)
    ensures done == 1 <==> (loaded ==> !refuses(w))
  {
    assert ChangeFails(m, [], [f], loaded, refuses, w, 0) <==> loaded && refuses(w + 0);
  }

  // ----- alerts -----

  datatype EventType = ThreatActorProfiled | L4Violation | OtherEvent

  /** The "l2_hits" detail of an alert; a value that is not a number passes for hits. */
  datatype L2Hits = Missing | Number(n: int) | NotANumber

  datatype Alert = Alert(event: EventType, ip: IpText, score: int, l2Hits: L2Hits)

  datatype Config = Config(threshold: int, requireL2Hits: bool)

  const DEFAULT_THRESHOLD: int := 80

  type Records = map<IpText, BlockRecord>

  /** The alert leads to a block: a violation always, a profiled actor above the threshold once. */
  predicate Warranted(config: Config, blocked: Records, alert: Alert) {
    match alert.event
    case L4Violation => true
    case OtherEvent => false
    case ThreatActorProfiled =>
      alert.score > config.threshold
      && (config.requireL2Hits ==> alert.l2Hits != Missing && alert.l2Hits != Number(0))
      && alert.ip !in blocked
  }

  /** A violation is acted on whatever the configuration and the records; other events never are. */
  lemma ViolationsAlwaysCount(config: Config, blocked: Records, alert: Alert)
    ensures alert.event == L4Violation ==> Warranted(config, blocked, alert)
    ensures alert.event == OtherEvent ==> !Warranted(config, blocked, alert)
  {
  }

  /**
   For profiled actors acting is monotone in the score, never happens at or below the threshold, and
   requiring Layer 2 hits only takes away alerts without hits; above the threshold nothing else does.
   */
  lemma ProfiledByScore(config: Config, blocked: Records, alert: Alert, score: int)
    requires alert.event == ThreatActorProfiled
    ensures Warranted(config, blocked, alert) && alert.score <= score ==>
              Warranted(config, blocked, alert.(score := score))
    ensures alert.score <= config.threshold ==> !Warranted(config, blocked, alert)
    ensures Warranted(config, blocked, alert) ==> Warranted(config.(requireL2Hits := false), blocked, alert)
    ensures alert.score > config.threshold && alert.ip !in blocked ==>
              Warranted(config.(requireL2Hits := false), blocked, alert)
              && (Warranted(config.(requireL2Hits := true), blocked, alert)
                  <==> alert.l2Hits == NotANumber || exists n :: n != 0 && alert.l2Hits == Number(n))
  {
  }

  /**
   On the score path the first recorded block is the last: no later profiled alert for the address is
   acted on, so the address stays allowed exactly when a second entry covered it.
   */
  lemma RecordedBlockIsFinal(config: Config, blocked: Records, record: BlockRecord, later: Alert, m: Entries, best: Cidr,
                             a: Address, now: int)
    requires WellFormed(m) && IsBest(m, a, best) && later.event == ThreatActorProfiled && later.ip == Ip4(a)
    ensures !Warranted(config, blocked[Ip4(a) := record], later)
    ensures Allowed(Carved(m, m[best], a, now), a) <==> |Covering(m, a)| > 1
  {
    BlockDeniesIffSingleCover(m, best, a, now);
    assert best in Covering(m, a);
  }

  class Handler {
    const manager: Manager
    const sign: Update -> string
    const config: Config
    var blocked: Records

    /** The manager accepts what this handler signs. */
    ghost predicate KeysMatch() {
      forall u: Update :: manager.verify(u.(signature := sign(u)))
    }

    /** The manager will act on an update signed now with this nonce. */
    ghost predicate Admissible(nonce: string, signedAt: int, nowNs: int)
      reads manager
    {
      KeysMatch() && nonce !in manager.nonces && Fresh(signedAt, nowNs)
    }

    /** A threshold of zero stands for the default. */
    constructor (manager: Manager, sign: Update -> string, config: Config)
      ensures this.manager == manager && this.sign == sign && blocked == map[]
      ensures this.config == if config.threshold == 0 then config.(threshold := 80) else config
    {
      this.manager, this.sign, blocked := manager, sign, map[];
      this.config := if config.threshold == 0 then config.(threshold := DEFAULT_THRESHOLD) else config;
    }

    /**
     The second half of a block: `plan` was computed for the entry e and the address a against an
     earlier allowlist. Whatever happened since, the outcome is a step of the concurrent run. `done`
     counts the changes that went through before one failed.
     */
    method ApplyPlan(plan: Plan, nonce: string, signedAt: int, nowNs: int, ghost e: Entry, ghost a: Address)
      returns (applied: bool, ghost done: nat)
      requires manager.Valid() && e.cidr.Matches(a) && plan == PlanFor(e, a)
      modifies manager`entries, manager`trie, manager`writes, manager`nonces
      ensures manager.Valid() && (old(manager.Synced()) && e.cidr.Canonical() ==> manager.Synced())
      ensures old(manager.nonces) <= manager.nonces <= old(manager.nonces) + {nonce}
      ensures KeysMatch() ==> manager.nonces == old(manager.nonces) + {nonce}
      ensures applied ==> manager.entries == Carved(old(manager.entries), e, a, Seconds(nowNs))
      ensures old(manager.Synced()) && e.cidr.Canonical() && applied && manager.loaded ==> e.cidr in old(manager.entries)
      ensures old(manager.Synced()) && e.cidr.Canonical() && old(Admissible(nonce, signedAt, nowNs)) ==>
                (applied <==> !manager.loaded || (e.cidr in old(manager.entries)
                                                 && AllAccepted(manager.refuses, old(manager.writes), PlanSize(e))))
      ensures !manager.loaded && old(Admissible(nonce, signedAt, nowNs)) ==> applied
      ensures !applied && (manager.loaded ==> old(manager.Synced()) && e.cidr.Canonical())
              && manager.Accepted(if manager.loaded then old(manager.writes) + done + 1 else old(manager.writes)) ==>
                manager.entries.Keys == old(manager.entries).Keys && (manager.loaded ==> manager.trie == old(manager.trie))
      ensures old(manager.Synced()) && e.cidr.Canonical() ==>
                CarveStep(old(manager.entries), manager.entries, manager.loaded, e, a, Seconds(nowNs), applied)
      ensures old(manager.Synced()) && e.cidr.Canonical() && old(Admissible(nonce, signedAt, nowNs)) && manager.loaded ==>
                AllAccepted(manager.refuses, old(manager.writes), done)
    {
      hide WellFormed, Agrees, AllCanonical, StopsAt, AddAll, CarveOuts, Cidr.Network, Cidr.Canonical;
      hide Removals, Additions, ChangedText, SomeChanges, CanonicalUpdate, AllAccepted, Restamped, WritesUntil, CarveStep, Texts,
           SetOf;
      var unsigned := Update(Carve, plan.add, plan.remove, signedAt, nonce, "");
      var u := unsigned.(signature := sign(unsigned));
      assert KeysMatch() ==> manager.verify(u);
      PlannedUpdate(u, e, a);
      ghost var m, w := manager.entries, manager.writes;
      var r;
      r, done := manager.ApplyUpdate(u, nowNs);
      applied := r == Applied;
      RestampedKeys(m, Seconds(nowNs));
      if r == CarveFailed {
        PlannedWrites(u, manager.loaded, w, done);
      }
      if old(manager.Synced()) && e.cidr.Canonical() && r in {Applied, CarveFailed} {
        PlannedStopIff(m, e, a, manager.loaded, manager.refuses, w, done);
        AcceptedSoFar(m, Removals(u), Additions(u), manager.refuses, w, done, manager.loaded);
        if applied {
          AppliedStep(m, e, a, manager.loaded, Seconds(nowNs));
        } else {
          FailedStep(m, manager.entries, e, a, manager.loaded, manager.refuses, w, done, Seconds(nowNs));
        }
      }
      UnchangedStep(m, e, a, manager.loaded, Seconds(nowNs));
    }

    /** A block whose plan is applied before any other handler changes the allowlist. */
    method BlockIP(ip: IpText, score: int, reason: string, nonce: string, signedAt: int, nowNs: int)
      returns (outcome: BlockOutcome, ghost best: Cidr, ghost done: nat)
      requires manager.Valid()
      modifies this, manager`entries, manager`trie, manager`writes, manager`nonces
      ensures manager.Valid() && (old(manager.Synced()) ==> manager.Synced())
      ensures !ip.Ip4? ==> outcome == Failed
      ensures ip.Ip4? ==> (outcome == AlreadyDenied <==> !old(Allowed(manager.entries, ip.a)))
      ensures outcome == AlreadyDenied || !ip.Ip4? ==>
                manager.entries == old(manager.entries) && manager.nonces == old(manager.nonces)
      ensures old(manager.nonces) <= manager.nonces <= old(manager.nonces) + {nonce}
      ensures ip.Ip4? && outcome != AlreadyDenied && KeysMatch() ==> manager.nonces == old(manager.nonces) + {nonce}
      ensures ip.Ip4? && outcome == Failed && old(manager.Synced()) ==>
                best in old(manager.entries) && best.Matches(ip.a)
                && CarveStep(old(manager.entries), manager.entries, manager.loaded, old(manager.entries)[best], ip.a,
                             Seconds(nowNs), false)
      ensures ip.Ip4? && outcome != AlreadyDenied ==> IsBest(old(manager.entries), ip.a, best)
      ensures outcome == Denied ==>
                manager.entries == Carved(old(manager.entries), old(manager.entries)[best], ip.a, Seconds(nowNs))
      ensures ip.Ip4? && outcome != AlreadyDenied && old(manager.Synced()) && old(Admissible(nonce, signedAt, nowNs)) ==>
                (outcome == Denied <==>
                 !manager.loaded || AllAccepted(manager.refuses, old(manager.writes), 1 + ADDRESS_BITS - best.len))
      ensures !manager.loaded && ip.Ip4? && old(Admissible(nonce, signedAt, nowNs)) ==> outcome != Failed
      ensures outcome == Failed && (manager.loaded ==> old(manager.Synced()))
              && manager.Accepted(if manager.loaded then old(manager.writes) + done + 1 else old(manager.writes)) ==>
                manager.entries.Keys == old(manager.entries).Keys
      ensures outcome == Failed ==> blocked == old(blocked)
      ensures outcome != Failed ==> blocked == old(blocked)[ip := BlockRecord(score, nowNs, reason)]
    {
      hide Agrees, StopsAt, AddAll, CarveOuts, Cidr.Network, Cidr.Canonical, Allowed, AllAccepted, NonNested, CarveStep;
      best, done := V6, 0;
      var r := manager.PlanIPRemovalLocked(ip);
      if r == PlanError {
        return Failed, best, 0;
      }
      if r.Planned? {
        best :| IsBest(manager.entries, ip.a, best) && r == Planned(PlanFor(manager.entries[best], ip.a));
        KeyIsText(manager.entries, best);
        var applied;
        applied, done := ApplyPlan(r.plan, nonce, signedAt, nowNs, manager.entries[best], ip.a);
        if !applied {
          return Failed, best, done;
        }
      }
      blocked := blocked[ip := BlockRecord(score, nowNs, reason)];
      return if r.Planned? then Denied else AlreadyDenied, best, done;
    }

    /** Acts on an alert that warrants a block, and on no other; the outcome of the block is that of `BlockIP`. */
    method ProcessAlert(alert: Alert, nonce: string, signedAt: int, nowNs: int)
      returns (outcome: Option<BlockOutcome>, ghost best: Cidr)
      requires manager.Valid()
      modifies this, manager`entries, manager`trie, manager`writes, manager`nonces
      ensures manager.Valid() && (old(manager.Synced()) ==> manager.Synced())
      ensures outcome.Some? <==> Warranted(config, old(blocked), alert)
      ensures alert.event == L4Violation ==> outcome.Some?
      ensures alert.event == OtherEvent || (alert.event == ThreatActorProfiled && alert.score <= config.threshold) ==>
                outcome == None
      ensures outcome.Some? && alert.ip.Ip4? && |old(Covering(manager.entries, alert.ip.a))| <= 1
              && old(manager.Synced()) && old(Admissible(nonce, signedAt, nowNs))
              && (manager.loaded ==> AllAccepted(manager.refuses, old(manager.writes), 1 + ADDRESS_BITS)) ==>
                !Allowed(manager.entries, alert.ip.a)
      ensures outcome in {None, Some(Failed)} ==> blocked == old(blocked)
      ensures outcome == None ==> manager.entries == old(manager.entries) && manager.trie == old(manager.trie)
                                  && manager.nonces == old(manager.nonces)
      ensures outcome.Some? && outcome != Some(Failed) ==>
                alert.ip.Ip4? && alert.ip in blocked && blocked.Keys == old(blocked).Keys + {alert.ip}
      ensures outcome.Some? && alert.ip.Ip4? ==>
                (outcome == Some(AlreadyDenied) <==> !old(Allowed(manager.entries, alert.ip.a)))
      ensures outcome == Some(Denied) ==>
                IsBest(old(manager.entries), alert.ip.a, best)
                && manager.entries == Carved(old(manager.entries), old(manager.entries)[best], alert.ip.a, Seconds(nowNs))
    {
      hide Allowed, Carved, IsBest, Covering, AllAccepted, CarveStep;
      best := V6;
      match alert.event {
        case ThreatActorProfiled =>
          if alert.score <= config.threshold {
            return None, best;
          }
          if config.requireL2Hits && (alert.l2Hits == Missing || alert.l2Hits == Number(0)) {
            return None, best;
          }
          if alert.ip in blocked {
            return None, best;
          }
          var r;
          r, best := BlockWarranted(alert.ip, alert.score, "THREAT_SCORE_EXCEEDED", nonce, signedAt, nowNs);
          return Some(r), best;
        case L4Violation =>
          var r;
          r, best := BlockWarranted(alert.ip, alert.score, "L4_VIOLATION", nonce, signedAt, nowNs);
          return Some(r), best;
        case OtherEvent =>
          return None, best;
      }
    }

    /** A block, and what it means for the address: with one cover and nothing refused it is denied. */
    method BlockWarranted(ip: IpText, score: int, reason: string, nonce: string, signedAt: int, nowNs: int)
      returns (outcome: BlockOutcome, ghost best: Cidr)
      requires manager.Valid()
      modifies this, manager`entries, manager`trie, manager`writes, manager`nonces
      ensures manager.Valid() && (old(manager.Synced()) ==> manager.Synced())
      ensures outcome == Failed ==> blocked == old(blocked)
      ensures outcome != Failed ==> ip.Ip4? && blocked == old(blocked)[ip := BlockRecord(score, nowNs, reason)]
      ensures ip.Ip4? ==> (outcome == AlreadyDenied <==> !old(Allowed(manager.entries, ip.a)))
      ensures outcome == Denied ==>
                IsBest(old(manager.entries), ip.a, best)
                && manager.entries == Carved(old(manager.entries), old(manager.entries)[best], ip.a, Seconds(nowNs))
      ensures ip.Ip4? && |old(Covering(manager.entries, ip.a))| <= 1
              && old(manager.Synced()) && old(Admissible(nonce, signedAt, nowNs))
              && (manager.loaded ==> AllAccepted(manager.refuses, old(manager.writes), 1 + ADDRESS_BITS)) ==>
                !Allowed(manager.entries, ip.a)
    {
      ghost var m := manager.entries;
      ghost var done;
      outcome, best, done := BlockIP(ip, score, reason, nonce, signedAt, nowNs);
      hide Carved, CarveStep;
      if outcome == Denied {
        SingleCoverIsDenied(m, best, ip.a, Seconds(nowNs));
      }
    }

    /** The record goes first, whether or not the signed add is accepted. */
    method UnblockIP(ip: IpText, nonce: string, signedAt: int, nowNs: int) returns (ok: bool)
      requires manager.Valid()
      modifies this, manager`entries, manager`trie, manager`writes, manager`nonces
      ensures manager.Valid() && (old(manager.Synced()) ==> manager.Synced())
      ensures blocked == old(blocked) - {ip}
      ensures old(manager.nonces) <= manager.nonces <= old(manager.nonces) + {nonce}
      ensures KeysMatch() ==> manager.nonces == old(manager.nonces) + {nonce}
      ensures !ip.Ip4? ==> !ok
      ensures ok && ip.Ip4? ==> manager.entries == AddAll(old(manager.entries), [UnblockEntry(ip.a)], Seconds(nowNs))
      ensures !ok ==> manager.entries == old(manager.entries)
      ensures ip.Ip4? && old(manager.Synced()) && old(Admissible(nonce, signedAt, nowNs)) ==>
                (ok <==> !manager.loaded || !manager.refuses(old(manager.writes)))
      ensures !manager.loaded && old(Admissible(nonce, signedAt, nowNs)) && ip.Ip4? ==> ok
    {
      hide WellFormed, Agrees, AllCanonical, StopsAt, AddAll, Cidr.Network, Cidr.Canonical;
      hide Removals, Additions, ChangedText, SomeChanges, CanonicalUpdate;
      blocked := blocked - {ip};
      var entry := if ip.Ip4? then UnblockEntry(ip.a) else Entry(Malformed("not IPv4"), "manual-unblock", 0, 0);
      var unsigned := Update(Add, [entry], [], signedAt, nonce, "");
      var u := unsigned.(signature := sign(unsigned));
      assert KeysMatch() ==> manager.verify(u);
      AddOneUpdate(u, entry);
      if ip.Ip4? {
        HostMatchesItself(ip.a, ip.a);
      }
      ghost var m, w := manager.entries, manager.writes;
      assert m - {} == m;
      var r;
      ghost var done;
      r, done := manager.ApplyUpdate(u, nowNs);
      if ip.Ip4? && old(manager.Synced()) && r in {Applied, EntryFailed} {
        AddOneStop(m, entry, manager.loaded, manager.refuses, w, done);
      }
      ok := r == Applied;
    }
  }
}
