/**
 The allowlist manager object: the entry map, the kernel trie and the nonces it updates in place
 (firewall/layer3/allowlist_manager.go). Time is a parameter. The kernel may refuse any trie write:
 write number n is refused when `refuses(n)`, for an arbitrary `refuses`. Deleting a key that the trie
 does not hold fails as well.
 */
module AllowlistManager {
  import opened Options
  import opened Prefixes
  import opened Allowlist

  datatype Action = Add | Remove | Flush | Carve | Unknown(name: string)

  datatype Update = Update(action: Action, entries: seq<Entry>, remove: seq<Cidr>, timestamp: int, nonce: string,
                           signature: string)

  datatype UpdateResult =
    | Applied
    | BadSignature
    | Replayed
    | Stale
    | EntryFailed
    | CarveFailed
    | UnknownAction
    | NeverReturns // flush takes the lock it already holds

  function SetOf(cs: seq<Cidr>): set<Cidr> {
    set c <- cs
  }

  function Texts(es: seq<Entry>): set<Cidr> {
    set e <- es :: e.cidr
  }

  /** Every CIDR text of the update is written with its host bits zero. */
  ghost predicate CanonicalUpdate(u: Update) {
    AllCanonical(Texts(u.entries)) && AllCanonical(SetOf(u.remove))
  }

  /** The update is at most 60 seconds old and at most 10 seconds ahead; times in nanoseconds. */
  predicate Fresh(timestamp: int, nowNs: int) {
    -10_000_000_000 <= nowNs - timestamp * 1_000_000_000 <= 60_000_000_000
  }

  /** The window is closed on both sides and has no gaps. */
  lemma FreshWindow(timestamp: int, t: int, u: int, v: int)
    ensures var start := timestamp * 1_000_000_000;
            && Fresh(timestamp, start - 10_000_000_000) && !Fresh(timestamp, start - 10_000_000_001)
            && Fresh(timestamp, start + 60_000_000_000) && !Fresh(timestamp, start + 60_000_000_001)
    ensures Fresh(timestamp, t) && Fresh(timestamp, v) && t <= u <= v ==> Fresh(timestamp, u)
  {
  }

  function Seconds(nowNs: int): int {
    nowNs / 1_000_000_000
  }

  /** A time stamp is the last full second. */
  lemma SecondsRoundDown(nowNs: int)
    ensures Seconds(nowNs) * 1_000_000_000 <= nowNs < (Seconds(nowNs) + 1) * 1_000_000_000
  {
  }

  /** Every entry kept, stamped again: what a complete rollback restores. */
  function Restamped(m: Entries, now: int): Entries {
    map c <- m :: Stamped(m[c], now)
  }

  /** A complete rollback changes nothing but the time of addition. */
  lemma RestampedKeys(m: Entries, now: int)
    ensures Restamped(m, now).Keys == m.Keys
    ensures forall c <- m :: Restamped(m, now)[c].addedAt == now && Restamped(m, now)[c].(addedAt := m[c].addedAt) == m[c]
  {
  }

  function ExpiredAmong(m: Entries, texts: set<Cidr>, now: int): set<Cidr> {
    set c <- texts | c in m && Expired(m[c], now)
  }

  lemma OneFewerExpired(m: Entries, texts: set<Cidr>, c: Cidr, now: int)
    requires c in texts && c in m
    ensures |ExpiredAmong(m, texts, now)| == |ExpiredAmong(m, texts - {c}, now)| + if Expired(m[c], now) then 1 else 0
  {
    var rest := ExpiredAmong(m, texts - {c}, now);
    assert ExpiredAmong(m, texts, now) == if Expired(m[c], now) then rest + {c} else rest;
  }

  lemma NoneExpired(m: Entries, texts: set<Cidr>, now: int)
    requires forall c <- texts :: c in m ==> !Expired(m[c], now)
    ensures ExpiredAmong(m, texts, now) == {}
  {
  }

  lemma ExpiredInPlain(m: Entries, now: int)
    ensures ExpiredAmong(m, m.Keys, now) == set c <- m | 0 < m[c].expiresAt < now
    ensures forall c <- m :: Expired(m[c], now) <==> 0 < m[c].expiresAt < now
  {
  }

  /** What is left when exactly the expired entries have gone. */
  lemma UnexpiredRemain(m: Entries, m': Entries, now: int)
    requires m'.Keys <= m.Keys && (forall c <- m' :: m'[c] == m[c] && !Expired(m'[c], now))
    requires forall c <- m :: !Expired(m[c], now) ==> c in m'
    ensures forall x: Address :: Allowed(m', x) <==> AllowedAt(m, now, x)
  {
  }

  lemma AgreementAfterAdd(m: Entries, trie: Trie, e: Entry)
    requires Agrees(m, trie) && e.cidr.V4?
    ensures Agrees(m[e.cidr := e], trie[e.cidr.Network() := 1])
  {
    var m', trie' := m[e.cidr := e], trie[e.cidr.Network() := 1];
    forall p <- trie' ensures trie'[p] == 1 && exists c <- m' :: c.V4? && c.Network() == p {
      if p == e.cidr.Network() {
        assert e.cidr in m';
      } else {
        var c :| c in m && c.V4? && c.Network() == p;
        assert c in m';
      }
    }
  }

  lemma AgreementDeterminesTrie(m: Entries, m': Entries, trie: Trie, trie': Trie)
    requires Agrees(m, trie) && Agrees(m', trie') && m.Keys == m'.Keys
    ensures trie == trie'
  {
    assert forall c :: c in m <==> c in m';
    forall p ensures p in trie <==> p in trie' {
      if p in trie {
        var c :| c in m && c.V4? && c.Network() == p;
        assert c in m';
      }
      if p in trie' {
        var c :| c in m' && c.V4? && c.Network() == p;
        assert c in m;
      }
    }
  }

  /** Under agreement a canonical text is an entry exactly when its network is in the trie. */
  lemma EntryIffInTrie(m: Entries, trie: Trie, c: Cidr)
    requires WellFormed(m) && AllCanonical(m.Keys) && Agrees(m, trie) && c.Canonical()
    ensures c.Network() in trie <==> c in m
  {
    if c.Network() in trie {
      var d :| d in m && d.V4? && d.Network() == c.Network();
      CanonicalNetworkIsText(c, d);
    }
  }

  lemma RemovalKeepsSync(m: Entries, trie: Trie, c: Cidr)
    requires WellFormed(m) && AllCanonical(m.Keys) && Agrees(m, trie) && c.Canonical()
    ensures Agrees(m - {c}, trie - {c.Network()})
  {
    RemovalKeepsAgreementIff(m, trie, c);
    forall d <- m | d.Network() == c.Network() ensures d == c {
      CanonicalNetworkIsText(c, d);
    }
    hide Agrees;
  }

  lemma FewerEntries(m: Entries, c: Cidr)
    requires WellFormed(m)
    ensures WellFormed(m - {c}) && (AllCanonical(m.Keys) ==> AllCanonical((m - {c}).Keys))
  {
  }

  // ----- a list of changes -----

  /** The text that change i of a removal list followed by an insertion list is about. */
  function ChangeText(remove: seq<Cidr>, add: seq<Entry>, i: nat): Cidr
    requires i < |remove| + |add|
  {
    if i < |remove| then remove[i] else add[i - |remove|].cidr
  }

  /** The texts of the entries, in order. */
  function TextList(es: seq<Entry>): seq<Cidr> {
    seq(|es|, i requires 0 <= i < |es| => es[i].cidr)
  }

  /** The texts an update removes; for flush that is left to the entry map. */
  function Removals(u: Update): seq<Cidr> {
    match u.action
    case Remove => TextList(u.entries)
    case Carve => u.remove
    case _ => []
  }

  /** The entries an update inserts. */
  function Additions(u: Update): seq<Entry> {
    if u.action in {Add, Carve} then u.entries else []
  }

  function Changes(u: Update): nat {
    |Removals(u)| + |Additions(u)|
  }

  function ChangedText(u: Update, i: nat): Cidr
    requires i < Changes(u)
  {
    ChangeText(Removals(u), Additions(u), i)
  }

  /** The entries after the first changes of an add or remove update. */
  function SomeChanges(m: Entries, u: Update, done: nat, now: int): Entries
    requires done <= |u.entries|
  {
    if u.action == Add then AddAll(m, u.entries[..done], now) else m - Texts(u.entries[..done])
  }

  /**
   Change i fails although those before it succeeded: it is not IPv4, the kernel refuses its write,
   or it deletes what is not there. w is the number of the first write; there is none without a trie.
   */
  ghost predicate ChangeFails(m: Entries, remove: seq<Cidr>, add: seq<Entry>, loaded: bool, refuses: nat -> bool,
                              w: nat, i: nat)
    requires i < |remove| + |add|
  {
    || !ChangeText(remove, add, i).V4?
    || (loaded && (refuses(w + i) || (i < |remove| && (remove[i] !in m || remove[i] in remove[..i]))))
  }

  /** The changes are made one by one until one fails; `done` of them succeed. */
  ghost predicate StopsAt(m: Entries, remove: seq<Cidr>, add: seq<Entry>, loaded: bool, refuses: nat -> bool, w: nat,
                          done: nat)
  {
    && done <= |remove| + |add|
    && (forall i :: 0 <= i < done ==> !ChangeFails(m, remove, add, loaded, refuses, w, i))
    && (done < |remove| + |add| ==> ChangeFails(m, remove, add, loaded, refuses, w, done))
  }

  lemma KeyIsText(m: Entries, c: Cidr)
    requires WellFormed(m) && c in m
    ensures c.V4? && m[c].cidr == c
    ensures AllCanonical(m.Keys) ==> c.Canonical()
  {
  }

  lemma CanonicalAt(remove: seq<Cidr>, i: nat)
    requires i < |remove| && AllCanonical(SetOf(remove)) && remove[i].V4?
    ensures remove[i].Canonical()
  {
    assert remove[i] in SetOf(remove);
  }

  lemma CanonicalTextAt(add: seq<Entry>, i: nat)
    requires i < |add| && AllCanonical(Texts(add)) && add[i].cidr.V4?
    ensures add[i].cidr.Canonical()
  {
    assert add[i].cidr in Texts(add);
  }

  /** Insertions cut short add only texts of the list. */
  lemma SomeAddedKeys(m: Entries, gone: set<Cidr>, add: seq<Entry>, count: nat, now: int)
    requires count <= |add|
    ensures AddAll(m - gone, add[..count], now).Keys <= m.Keys + Texts(add)
  {
    AddAllKeys(m - gone, add[..count], now);
  }

  lemma OneMoreRemoved(m: Entries, remove: seq<Cidr>, i: nat)
    requires i < |remove|
    ensures m - SetOf(remove[..i]) - {remove[i]} == m - SetOf(remove[..i + 1])
    ensures remove[i] in m - SetOf(remove[..i]) <==> remove[i] in m && remove[i] !in remove[..i]
  {
    assert remove[..i + 1] == remove[..i] + [remove[i]];
  }

  lemma OneMoreAdded(m: Entries, add: seq<Entry>, i: nat, now: int)
    requires i < |add|
    ensures AddAll(m, add[..i + 1], now) == AddAll(m, add[..i], now)[add[i].cidr := Stamped(add[i], now)]
  {
    assert add[..i + 1][..i] == add[..i];
  }

  /** Removals that all succeed, then insertions counted on their own. */
  lemma StopsInInsertions(m: Entries, m': Entries, remove: seq<Cidr>, add: seq<Entry>, loaded: bool,
                          refuses: nat -> bool, w: nat, added: nat)
    requires StopsAt(m, remove, [], loaded, refuses, w, |remove|)
    requires StopsAt(m', [], add, loaded, refuses, w + |remove|, added)
    ensures StopsAt(m, remove, add, loaded, refuses, w, |remove| + added)
  {
    forall i | 0 <= i < |remove|
      ensures ChangeFails(m, remove, add, loaded, refuses, w, i) == ChangeFails(m, remove, [], loaded, refuses, w, i)
    {
    }
    forall i | |remove| <= i < |remove| + |add|
      ensures ChangeFails(m, remove, add, loaded, refuses, w, i)
           == ChangeFails(m', [], add, loaded, refuses, w + |remove|, i - |remove|)
    {
    }
    forall i | 0 <= i < |remove| + added ensures !ChangeFails(m, remove, add, loaded, refuses, w, i) {
      if i >= |remove| {
        assert !ChangeFails(m', [], add, loaded, refuses, w + |remove|, i - |remove|);
      }
    }
  }

  lemma StopsInRemovals(m: Entries, remove: seq<Cidr>, add: seq<Entry>, loaded: bool, refuses: nat -> bool, w: nat,
                        done: nat)
    requires StopsAt(m, remove, [], loaded, refuses, w, done) && done < |remove|
    ensures StopsAt(m, remove, add, loaded, refuses, w, done)
  {
    forall i | 0 <= i < |remove|
      ensures ChangeFails(m, remove, add, loaded, refuses, w, i) == ChangeFails(m, remove, [], loaded, refuses, w, i)
    {
    }
  }

  /** Without a trie the write numbers do not matter. */
  lemma UnloadedStops(m: Entries, remove: seq<Cidr>, add: seq<Entry>, refuses: nat -> bool, w: nat, w': nat, done: nat)
    requires StopsAt(m, remove, add, false, refuses, w, done)
    ensures StopsAt(m, remove, add, false, refuses, w', done)
  {
    forall i | 0 <= i < |remove| + |add|
      ensures ChangeFails(m, remove, add, false, refuses, w, i) == ChangeFails(m, remove, add, false, refuses, w', i)
    {
    }
  }

  lemma StoppedOnIpv4(m: Entries, remove: seq<Cidr>, add: seq<Entry>, loaded: bool, refuses: nat -> bool, w: nat,
                      done: nat)
    requires StopsAt(m, remove, add, loaded, refuses, w, done)
    ensures forall i :: 0 <= i < done ==> ChangeText(remove, add, i).V4?
    ensures done < |remove| + |add| ==> loaded || !ChangeText(remove, add, done).V4?
  {
    forall i | 0 <= i < done ensures ChangeText(remove, add, i).V4? {
      assert !ChangeFails(m, remove, add, loaded, refuses, w, i);
    }
  }

  /** The number of the first trie write after change i has failed. */
  function WritesUntil(remove: seq<Cidr>, add: seq<Entry>, loaded: bool, w: nat, i: nat): nat
    requires i < |remove| + |add|
  {
    if !loaded then w else if ChangeText(remove, add, i).V4? then w + i + 1 else w + i
  }

  lemma FlushChangesNothing(u: Update, m: Entries, loaded: bool, refuses: nat -> bool, w: nat, now: int)
    requires u.action == Flush
    ensures Changes(u) == 0 && StopsAt(m, Removals(u), Additions(u), loaded, refuses, w, 0)
    ensures AddAll(m - SetOf(Removals(u)), Additions(u), now) == m
  {
  }

  lemma CarveTexts(u: Update)
    requires u.action == Carve
    ensures Removals(u) == u.remove && Additions(u) == u.entries && Changes(u) == |u.remove| + |u.entries|
    ensures forall i :: 0 <= i < Changes(u) ==> ChangedText(u, i) == ChangeText(u.remove, u.entries, i)
    ensures CanonicalUpdate(u) ==> AllCanonical(SetOf(u.remove)) && AllCanonical(Texts(u.entries))
  {
  }

  lemma CarveOutsAreCanonical(e: Entry, a: Address)
    requires e.cidr.V4?
    ensures AllCanonical(Texts(CarveOuts(e, a)))
    ensures forall f <- CarveOuts(e, a) :: f.cidr.Canonical()
  {
    forall k | 0 <= k < ADDRESS_BITS - e.cidr.len ensures CarveOuts(e, a)[k].cidr.Canonical() {
      SiblingContains(a, k, a);
    }
  }

  lemma SameTexts(es: seq<Entry>, texts: seq<Cidr>)
    requires |texts| == |es| && forall i :: 0 <= i < |es| ==> texts[i] == es[i].cidr
    ensures SetOf(texts) == Texts(es)
  {
    forall c | c in Texts(es) ensures c in texts {
      var e :| e in es && e.cidr == c;
      var i :| 0 <= i < |es| && es[i] == e;
      assert texts[i] == c;
    }
  }

  /** The plan for a most specific cover removes its text and inserts canonical IPv4 texts only. */
  lemma PlannedTexts(plan: Plan, m: Entries, best: Cidr, a: Address)
    requires WellFormed(m) && IsBest(m, a, best) && plan == PlanFor(m[best], a)
    ensures m[best].cidr == best && best.V4? && plan.remove == [best]
    ensures SetOf(plan.remove) == {best} && plan.add == CarveOuts(m[best], a) && |plan.add| == ADDRESS_BITS - best.len
    ensures forall i :: 0 <= i < 1 + |plan.add| ==> ChangeText(plan.remove, plan.add, i).V4?
    ensures AllCanonical(m.Keys) ==> AllCanonical(SetOf(plan.remove)) && AllCanonical(Texts(plan.add))
  {
    CarveOutsAreCanonical(m[best], a);
  }

  lemma StepTaken(m: Entries, best: Cidr, a: Address, now: int)
    requires WellFormed(m) && IsBest(m, a, best)
    ensures RemovalStep(m, Carved(m, m[best], a, now), a)
  {
  }

  /** Such a plan can only be stopped by the kernel. */
  lemma PlannedStop(plan: Plan, m: Entries, best: Cidr, a: Address, loaded: bool, refuses: nat -> bool, w: nat,
                    done: nat)
    requires WellFormed(m) && IsBest(m, a, best) && plan == PlanFor(m[best], a)
    requires StopsAt(m, plan.remove, plan.add, loaded, refuses, w, done)
    ensures done < 1 + |plan.add| ==> loaded && refuses(w + done)
    ensures loaded ==> forall n :: w <= n < w + done ==> !refuses(n)
  {
    if loaded {
      forall n | w <= n < w + done ensures !refuses(n) {
        assert !ChangeFails(m, plan.remove, plan.add, loaded, refuses, w, n - w);
      }
    }
  }

  /** What loading the program and attaching it runs into. */
  datatype LoadOutcome =
    | ObjectRejected // no collection: the manager keeps what it had
    | MapsMissing(trieFound: bool)
    | AttachFailed // the maps stay referenced although no program consults them
    | Attached

  class Manager {
    var entries: Entries
    var trie: Trie
    var loaded: bool // the manager holds a trie
    var attached: bool // the program is on the interface
    var nonces: set<string>
    var writes: nat // trie writes tried so far
    const refuses: nat -> bool
    const verify: Update -> bool

    /** Entries are keyed by their own text, which is always IPv4. */
    ghost predicate Valid()
      reads this
    {
      WellFormed(entries) && (attached ==> loaded)
    }

    /** Every key is canonical and the trie, if there is one, agrees with the map. */
    ghost predicate Synced()
      reads this
    {
      AllCanonical(entries.Keys) && (loaded ==> Agrees(entries, trie))
    }

    /** The kernel refused no trie write since the given one. */
    ghost predicate Accepted(from: nat)
      reads this
    {
      forall n :: from <= n < writes ==> !refuses(n)
    }

    /**
     Every method but LoadAndAttach keeps `Synced` on canonical text, so in every run the data plane
     passes exactly what the entries allow.
     */
    lemma VerdictFollowsEntries(src: Address)
      requires Valid() && Synced() && attached
      ensures XdpVerdict(true, IPv4(src), trie) == Pass <==> Allowed(entries, src)
    {
      VerdictIsCoverage(entries, trie, src);
    }

    constructor (verify: Update -> bool, refuses: nat -> bool)
      ensures Valid() && Synced() && entries == map[] && nonces == {} && !loaded && !attached
      ensures this.verify == verify && this.refuses == refuses
    {
      entries, trie, loaded, attached, nonces, writes := map[], map[], false, false, {}, 0;
      this.verify, this.refuses := verify, refuses;
    }

    /** Loading brings an empty trie; entries added before are not replayed into it. */
    method LoadAndAttach(outcome: LoadOutcome) returns (ok: bool)
      requires Valid()
      modifies this`trie, this`loaded, this`attached
      ensures Valid() && attached == ok
      ensures ok <==> old(attached) || outcome.Attached?
      ensures old(attached) ==> loaded && trie == old(trie)
      ensures old(attached) || outcome.ObjectRejected? ==> loaded == old(loaded) && trie == old(trie)
      ensures !old(attached) && (outcome.AttachFailed? || outcome.Attached?) ==> loaded
      ensures !old(attached) && !outcome.ObjectRejected? && AllCanonical(entries.Keys) ==>
                (Synced() <==> !loaded || entries == map[])
    {
      if attached {
        return true;
      }
      if outcome.ObjectRejected? {
        return false;
      }
      trie, loaded := map[], outcome != MapsMissing(false);
      attached := outcome.Attached?;
      assert entries != map[] ==> exists c :: c in entries;
      return attached;
    }

    method Detach()
      requires Valid()
      modifies this`trie, this`loaded, this`attached
      ensures Valid() && !loaded && !attached && (old(Synced()) ==> Synced())
    {
      trie, loaded, attached := map[], false, false;
    }

    /** Fails, changing nothing, for a text that is not IPv4, a refused write and a missing key. */
    method RemoveEntryLocked(c: Cidr) returns (r: Result)
      requires Valid()
      modifies this`entries, this`trie, this`writes
      ensures Valid()
      ensures r == InvalidCidr <==> c.Malformed?
      ensures r == NotIPv4 <==> c.V6?
      ensures r == TrieRefused <==> c.V4? && loaded && (refuses(old(writes)) || c.Network() !in old(trie))
      ensures r == Ok ==> entries == old(entries) - {c}
                          && trie == if loaded then old(trie) - {c.Network()} else old(trie)
      ensures r != Ok ==> entries == old(entries) && trie == old(trie)
      ensures writes == old(writes) + if loaded && c.V4? then 1 else 0
      ensures old(Synced()) && (c.V4? ==> c.Canonical()) ==> Synced()
      ensures old(Synced()) && c.Canonical() && loaded ==> (r == Ok <==> !refuses(old(writes)) && c in old(entries))
    {
      FewerEntries(entries, c);
      hide WellFormed, AllCanonical, Agrees, Cidr.Network;
      if c.Malformed? {
        return InvalidCidr;
      }
      if c.V6? {
        return NotIPv4;
      }
      if loaded {
        if Synced() && c.Canonical() {
          EntryIffInTrie(entries, trie, c);
          RemovalKeepsSync(entries, trie, c);
        }
        writes := writes + 1;
        if refuses(writes - 1) || c.Network() !in trie {
          return TrieRefused;
        }
        trie := trie - {c.Network()};
      }
      entries := entries - {c};
      return Ok;
    }

    method AddEntryLocked(e: Entry, now: int) returns (r: Result)
      requires Valid()
      modifies this`entries, this`trie, this`writes
      ensures Valid()
      ensures r == InvalidCidr <==> e.cidr.Malformed?
      ensures r == NotIPv4 <==> e.cidr.V6?
      ensures r == TrieRefused <==> e.cidr.V4? && loaded && refuses(old(writes))
      ensures r == Ok ==> entries == old(entries)[e.cidr := Stamped(e, now)]
                          && trie == if loaded then old(trie)[e.cidr.Network() := 1] else old(trie)
      ensures r != Ok ==> entries == old(entries) && trie == old(trie)
      ensures writes == old(writes) + if loaded && e.cidr.V4? then 1 else 0
      ensures old(Synced()) && (e.cidr.V4? ==> e.cidr.Canonical()) ==> Synced()
    {
      if e.cidr.Malformed? {
        return InvalidCidr;
      }
      if e.cidr.V6? {
        return NotIPv4;
      }
      if loaded {
        writes := writes + 1;
        if refuses(writes - 1) {
          return TrieRefused;
        }
        if Synced() {
          AgreementAfterAdd(entries, trie, Stamped(e, now));
        }
        trie := trie[e.cidr.Network() := 1];
      }
      entries := entries[e.cidr := Stamped(e, now)];
      return Ok;
    }

    /** The plan replaces one most specific cover; there is none exactly when the address is denied. */
    method PlanIPRemovalLocked(ip: IpText) returns (r: PlanResult)
      requires Valid()
      ensures !ip.Ip4? ==> r == PlanError
      ensures ip.Ip4? && !Allowed(entries, ip.a) ==> r == NotCovered
      ensures ip.Ip4? && Allowed(entries, ip.a) ==>
                exists best :: IsBest(entries, ip.a, best) && r == Planned(PlanFor(entries[best], ip.a))
      ensures r.Planned? ==> ip.Ip4? && |r.plan.remove| == 1 && r.plan.remove[0].V4?
                             && forall d <- entries :: d.Matches(ip.a) ==> d.len <= r.plan.remove[0].len
    {
      if !ip.Ip4? {
        return PlanError;
      }
      var exact := V4(ip.a, 32);
      if exact in entries {
        assert IsBest(entries, ip.a, exact);
        assert CarveOuts(entries[exact], ip.a) == [];
        return Planned(Plan([exact], []));
      }
      var best: Option<Entry> := None;
      var todo := entries.Keys;
      while todo != {}
        invariant todo <= entries.Keys
        invariant best.None? ==> forall d <- entries.Keys - todo :: !d.Matches(ip.a)
        invariant best.Some? ==> best.value.cidr in entries && entries[best.value.cidr] == best.value
        invariant best.Some? ==> best.value.cidr.Matches(ip.a)
        invariant best.Some? ==> forall d <- entries.Keys - todo :: d.Matches(ip.a) ==> d.len <= best.value.cidr.len
      {
        var c :| c in todo;
        todo := todo - {c};
        var net := entries[c].cidr.Network();
        if net.Contains(ip.a) && (best.None? || net.len > best.value.cidr.len) {
          best := Some(entries[c]);
        }
      }
      if best.None? {
        return NotCovered;
      }
      var cover := best.value;
      assert IsBest(entries, ip.a, cover.cidr);
      var blocks := ExcludeIPFromCIDR(cover.cidr.Network(), ip.a);
      var add := seq(|blocks|, i requires 0 <= i < |blocks| =>
        Entry(Text(blocks[i]), cover.tag + ":carveout", 0, cover.expiresAt));
      assert add == CarveOuts(cover, ip.a);
      return Planned(Plan([cover.cidr], add));
    }

    /** Removes the texts in order and stops at the first failure; `done` counts the removed ones. */
    method RemoveEach(remove: seq<Cidr>) returns (done: nat)
      requires Valid()
      modifies this`entries, this`trie, this`writes
      ensures Valid()
      ensures done <= |remove| && entries == old(entries) - SetOf(remove[..done])
      ensures writes == if done < |remove| then WritesUntil(remove, [], loaded, old(writes), done)
                        else if loaded then old(writes) + done else old(writes)
      ensures forall i :: 0 <= i < done ==> remove[i].V4?
      ensures done < |remove| ==> loaded || !remove[done].V4?
      ensures old(Synced()) && AllCanonical(SetOf(remove)) ==>
                Synced() && StopsAt(old(entries), remove, [], loaded, refuses, old(writes), done)
    {
      hide WellFormed, Agrees, AllCanonical, Cidr.Network, Cidr.Canonical;
      done := 0;
      while done < |remove|
        invariant done <= |remove| && Valid()
        invariant entries == old(entries) - SetOf(remove[..done])
        invariant writes == if loaded then old(writes) + done else old(writes)
        invariant forall i :: 0 <= i < done ==> remove[i].V4?
        invariant old(Synced()) && AllCanonical(SetOf(remove)) ==>
                    Synced() && forall i :: 0 <= i < done ==>
                      !ChangeFails(old(entries), remove, [], loaded, refuses, old(writes), i)
      {
        OneMoreRemoved(old(entries), remove, done);
        if AllCanonical(SetOf(remove)) && remove[done].V4? {
          CanonicalAt(remove, done);
        }
        var r := RemoveEntryLocked(remove[done]);
        if r != Ok {
          return;
        }
        done := done + 1;
      }
    }

    /** Inserts the entries in order and stops at the first failure; `done` counts the inserted ones. */
    method AddEach(add: seq<Entry>, now: int) returns (done: nat)
      requires Valid()
      modifies this`entries, this`trie, this`writes
      ensures Valid()
      ensures done <= |add| && entries == AddAll(old(entries), add[..done], now)
      ensures writes == if done < |add| then WritesUntil([], add, loaded, old(writes), done)
                        else if loaded then old(writes) + done else old(writes)
      ensures StopsAt(old(entries), [], add, loaded, refuses, old(writes), done)
      ensures old(Synced()) && AllCanonical(Texts(add)) ==> Synced()
    {
      hide WellFormed, Agrees, AllCanonical, Cidr.Network, Cidr.Canonical;
      done := 0;
      while done < |add|
        invariant done <= |add| && Valid()
        invariant entries == AddAll(old(entries), add[..done], now)
        invariant writes == if loaded then old(writes) + done else old(writes)
        invariant forall i :: 0 <= i < done ==> !ChangeFails(old(entries), [], add, loaded, refuses, old(writes), i)
        invariant old(Synced()) && AllCanonical(Texts(add)) ==> Synced()
      {
        OneMoreAdded(old(entries), add, done, now);
        if AllCanonical(Texts(add)) && add[done].cidr.V4? {
          CanonicalTextAt(add, done);
        }
        var r := AddEntryLocked(add[done], now);
        if r != Ok {
          return;
        }
        done := done + 1;
      }
    }

    /** The removals, then the insertions, up to the first failure; `done` counts the changes made. */
    method ApplyInSteps(remove: seq<Cidr>, add: seq<Entry>, now: int) returns (done: nat)
      requires Valid()
      modifies this`entries, this`trie, this`writes
      ensures Valid() && done <= |remove| + |add|
      ensures done <= |remove| ==> entries == old(entries) - SetOf(remove[..done])
      ensures done >= |remove| ==> entries == AddAll(old(entries) - SetOf(remove), add[..done - |remove|], now)
      ensures done < |remove| + |add| ==> writes == WritesUntil(remove, add, loaded, old(writes), done)
      ensures done < |remove| + |add| ==> loaded || !ChangeText(remove, add, done).V4?
      ensures forall i :: 0 <= i < done ==> ChangeText(remove, add, i).V4?
      ensures old(Synced()) && AllCanonical(SetOf(remove)) && AllCanonical(Texts(add)) ==> Synced()
      ensures old(Synced()) && AllCanonical(SetOf(remove)) ==>
                StopsAt(old(entries), remove, add, loaded, refuses, old(writes), done)
    {
      hide WellFormed, Agrees, AllCanonical;
      done := RemoveEach(remove);
      if done < |remove| {
        if old(Synced()) && AllCanonical(SetOf(remove)) {
          StopsInRemovals(old(entries), remove, add, loaded, refuses, old(writes), done);
        }
        return;
      }
      assert remove[..done] == remove;
      ghost var middle, w := entries, writes;
      var added := AddEach(add, now);
      StoppedOnIpv4(middle, [], add, loaded, refuses, w, added);
      if old(Synced()) && AllCanonical(SetOf(remove)) {
        if loaded {
          StopsInInsertions(old(entries), middle, remove, add, loaded, refuses, old(writes), added);
        } else {
          UnloadedStops(middle, [], add, refuses, w, w + |remove|, added);
          StopsInInsertions(old(entries), middle, remove, add, loaded, refuses, old(writes), added);
        }
      }
      done := done + added;
      assert forall i :: |remove| <= i < done ==> ChangeText(remove, add, i) == ChangeText([], add, i - |remove|);
    }

    /**
     Not atomic: a failed write leaves the part of the removal done so far. `done` counts the changes
     made, of the one removal and the 32 - best.len insertions.
     */
    method RemoveIP(ip: IpText, now: int) returns (denied: bool, failed: bool, ghost best: Cidr, ghost done: nat)
      requires Valid()
      modifies this`entries, this`trie, this`writes
      ensures Valid() && (old(Synced()) ==> Synced())
      ensures !ip.Ip4? ==> failed && !denied && entries == old(entries) && trie == old(trie)
      ensures ip.Ip4? && !old(Allowed(entries, ip.a)) ==>
                !failed && !denied && entries == old(entries) && trie == old(trie)
      ensures ip.Ip4? && old(Allowed(entries, ip.a)) ==>
                IsBest(old(entries), ip.a, best) && failed == !denied && done <= 1 + ADDRESS_BITS - best.len
      ensures ip.Ip4? && denied ==> old(Allowed(entries, ip.a))
      ensures ip.Ip4? && denied ==> done == 1 + ADDRESS_BITS - best.len && RemovalStep(old(entries), entries, ip.a)
      ensures ip.Ip4? && denied ==> entries == Carved(old(entries), old(entries)[best], ip.a, now)
      ensures ip.Ip4? && old(Allowed(entries, ip.a)) && failed ==>
                && loaded && done <= ADDRESS_BITS - best.len
                && entries == if done == 0 then old(entries)
                              else AddAll(old(entries) - {best}, CarveOuts(old(entries)[best], ip.a)[..done - 1], now)
      ensures ip.Ip4? && old(Allowed(entries, ip.a)) && old(Synced()) ==>
                && (failed ==> refuses(old(writes) + done))
                && (loaded ==> forall n :: old(writes) <= n < old(writes) + done ==> !refuses(n))
    {
      hide Agrees, AllCanonical, StopsAt, AddAll, Cidr.Network, Cidr.Canonical, CarveOuts, Allowed, RemovalStep;
      hide ChangeText, WritesUntil;
      done, best := 0, V6;
      var r := PlanIPRemovalLocked(ip);
      if r == PlanError {
        return false, true, best, 0;
      }
      if r == NotCovered {
        return false, false, best, 0;
      }
      best :| IsBest(entries, ip.a, best) && r == Planned(PlanFor(entries[best], ip.a));
      PlannedTexts(r.plan, entries, best, ip.a);
      ghost var plan, before, w := r.plan, entries, writes;
      var count := ApplyInSteps(r.plan.remove, r.plan.add, now);
      done := count;
      denied := count == |r.plan.remove| + |r.plan.add|;
      failed := !denied;
      assert denied ==> plan.add[..count - 1] == plan.add;
      StepTaken(before, best, ip.a, now);
      if count == 0 {
        assert before - SetOf(plan.remove[..0]) == before;
      }
      if old(Synced()) {
        PlannedStop(plan, before, best, ip.a, loaded, refuses, w, count);
      }
    }

    /** Removes every entry, ignoring errors. */
    method ClearAll()
      requires Valid()
      modifies this`entries, this`trie, this`writes
      ensures Valid() && (old(Synced()) ==> Synced()) && writes >= old(writes) && entries.Keys <= old(entries.Keys)
      ensures Accepted(old(writes)) && (loaded ==> old(Synced())) ==> entries == map[]
    {
      hide WellFormed, Agrees, AllCanonical, Cidr.Network, Cidr.Canonical;
      var todo := entries.Keys;
      while todo != {}
        invariant Valid() && todo <= entries.Keys <= old(entries.Keys) && writes >= old(writes)
        invariant Accepted(old(writes)) && (loaded ==> old(Synced())) ==> entries.Keys == todo
        invariant old(Synced()) ==> Synced()
      {
        var c :| c in todo;
        KeyIsText(entries, c);
        todo := todo - {c};
        var r := RemoveEntryLocked(c);
      }
    }

    /** Clears the map and restores the snapshot, ignoring errors. */
    method Rollback(snapshot: Entries, now: int)
      requires Valid() && WellFormed(snapshot)
      modifies this`entries, this`trie, this`writes
      ensures Valid() && writes >= old(writes) && entries.Keys <= old(entries.Keys) + snapshot.Keys
      ensures Accepted(old(writes)) && (loaded ==> old(Synced())) ==> entries == Restamped(snapshot, now)
      ensures old(Synced()) && AllCanonical(snapshot.Keys) ==> Synced()
    {
      hide WellFormed, Agrees, AllCanonical, Cidr.Network, Cidr.Canonical;
      ClearAll();
      var todo := snapshot.Keys;
      while todo != {}
        invariant Valid() && todo <= snapshot.Keys && writes >= old(writes)
        invariant entries.Keys <= old(entries.Keys) + snapshot.Keys
        invariant Accepted(old(writes)) && (loaded ==> old(Synced())) ==> entries == Restamped(snapshot, now) - todo
        invariant old(Synced()) && AllCanonical(snapshot.Keys) ==> Synced()
      {
        var c :| c in todo;
        KeyIsText(snapshot, c);
        todo := todo - {c};
        var r := AddEntryLocked(snapshot[c], now);
      }
    }

    /**
     All or nothing: on success exactly the listed changes; on failure, if the restoring writes are
     accepted, the entries as they were, stamped again. `done` is the change that failed.
     */
    method CarveEntriesLocked(remove: seq<Cidr>, add: seq<Entry>, now: int) returns (ok: bool, ghost done: nat)
      requires Valid()
      modifies this`entries, this`trie, this`writes
      ensures Valid()
      ensures old(Synced()) && AllCanonical(SetOf(remove)) && AllCanonical(Texts(add)) ==> Synced()
      ensures ok ==> entries == AddAll(old(entries) - SetOf(remove), add, now)
      ensures ok <==> done == |remove| + |add|
      ensures forall i :: 0 <= i < done <= |remove| + |add| ==> ChangeText(remove, add, i).V4?
      ensures !ok ==> done < |remove| + |add| && (loaded || !ChangeText(remove, add, done).V4?)
      ensures old(Synced()) && AllCanonical(SetOf(remove)) ==>
                StopsAt(old(entries), remove, add, loaded, refuses, old(writes), done)
      ensures !ok ==> entries.Keys <= old(entries.Keys) + if done <= |remove| then {} else Texts(add)
      ensures !ok && Accepted(WritesUntil(remove, add, loaded, old(writes), done))
              && (loaded ==> old(Synced()) && AllCanonical(SetOf(remove)) && AllCanonical(Texts(add))) ==>
                entries == Restamped(old(entries), now) && (loaded ==> trie == old(trie))
    {
      hide WellFormed, Agrees, AllCanonical, StopsAt, AddAll, Restamped, ChangeText, WritesUntil, Texts, SetOf;
      ghost var hypothesis := Synced() && AllCanonical(SetOf(remove)) && AllCanonical(Texts(add));
      var snapshot := entries;
      var count := ApplyInSteps(remove, add, now);
      done, ok := count, count == |remove| + |add|;
      if ok {
        assert add[..count - |remove|] == add;
        return;
      }
      if done > |remove| {
        SomeAddedKeys(snapshot, SetOf(remove), add, done - |remove|, now);
      }
      Rollback(snapshot, now);
      RestampedKeys(snapshot, now);
      if hypothesis && loaded && entries == Restamped(snapshot, now) {
        AgreementDeterminesTrie(snapshot, entries, old(trie), trie);
      }
    }

    /** The loops of the add and remove actions: entry by entry, up to the first failure. */
    method ApplyEntries(u: Update, now: int) returns (done: nat)
      requires Valid() && u.action in {Add, Remove}
      modifies this`entries, this`trie, this`writes
      ensures Valid() && (old(Synced()) && CanonicalUpdate(u) ==> Synced())
      ensures Changes(u) == |u.entries| && done <= Changes(u)
      ensures forall i :: 0 <= i < done ==> ChangedText(u, i).V4?
      ensures done < Changes(u) ==> loaded || !ChangedText(u, done).V4?
      ensures entries == SomeChanges(old(entries), u, done, now)
      ensures done == Changes(u) ==> entries == AddAll(old(entries) - SetOf(Removals(u)), Additions(u), now)
      ensures old(Synced()) && CanonicalUpdate(u) ==>
                StopsAt(old(entries), Removals(u), Additions(u), loaded, refuses, old(writes), done)
    {
      hide WellFormed, Agrees, AllCanonical, StopsAt, ChangeFails;
      ghost var m := entries;
      if u.action == Add {
        assert m - SetOf([]) == m;
        ghost var w := writes;
        done := AddEach(u.entries, now);
        StoppedOnIpv4(m, [], u.entries, loaded, refuses, w, done);
        assert done == |u.entries| ==> u.entries[..done] == u.entries;
      } else {
        var texts := TextList(u.entries);
        SameTexts(u.entries, texts);
        done := RemoveEach(texts);
        SameTexts(u.entries[..done], texts[..done]);
        assert done == |u.entries| ==> u.entries[..done] == u.entries && texts[..done] == texts;
      }
    }

    /** Signature, then nonce, then freshness, then the action; the nonce is spent even by a stale update. */
    method ApplyUpdate(u: Update, nowNs: int) returns (r: UpdateResult, ghost done: nat)
      requires Valid()
      modifies this`entries, this`trie, this`writes, this`nonces
      ensures Valid() && (old(Synced()) && CanonicalUpdate(u) ==> Synced())
      ensures nonces == if verify(u) then old(nonces) + {u.nonce} else old(nonces)
      ensures r == BadSignature <==> !verify(u)
      ensures r == Replayed <==> verify(u) && u.nonce in old(nonces)
      ensures r == Stale <==> verify(u) && u.nonce !in old(nonces) && !Fresh(u.timestamp, nowNs)
      ensures r == UnknownAction <==> Admitted(u, old(nonces), nowNs) && u.action.Unknown?
      ensures r == NeverReturns <==> Admitted(u, old(nonces), nowNs) && u.action == Flush && old(entries) != map[]
      ensures r in {BadSignature, Replayed, Stale, UnknownAction, NeverReturns} ==>
                entries == old(entries) && trie == old(trie)
      ensures r == EntryFailed ==> u.action in {Add, Remove}
      ensures r == CarveFailed ==> u.action == Carve
      ensures r in {Applied, EntryFailed, CarveFailed} ==> done <= Changes(u) && (r == Applied <==> done == Changes(u))
      ensures r == Applied ==>
                entries == AddAll(old(entries) - SetOf(Removals(u)), Additions(u), Seconds(nowNs))
      ensures r in {Applied, EntryFailed, CarveFailed} ==> forall i :: 0 <= i < done ==> ChangedText(u, i).V4?
      ensures r in {EntryFailed, CarveFailed} ==> loaded || !ChangedText(u, done).V4?
      ensures r == EntryFailed ==> entries == SomeChanges(old(entries), u, done, Seconds(nowNs))
      ensures old(Synced()) && CanonicalUpdate(u) && r in {Applied, EntryFailed, CarveFailed} ==>
                StopsAt(old(entries), Removals(u), Additions(u), loaded, refuses, old(writes), done)
      ensures r == CarveFailed ==>
                entries.Keys <= old(entries.Keys) + if done <= |Removals(u)| then {} else Texts(Additions(u))
      ensures r == CarveFailed && (loaded ==> old(Synced()) && CanonicalUpdate(u))
              && Accepted(WritesUntil(Removals(u), Additions(u), loaded, old(writes), done)) ==>
                entries == Restamped(old(entries), Seconds(nowNs)) && (loaded ==> trie == old(trie))
    {
      hide WellFormed, Agrees, AllCanonical, StopsAt, AddAll, WritesUntil, Restamped, SomeChanges, ChangedText;
      done := 0;
      if !verify(u) {
        return BadSignature, 0;
      }
      if u.nonce in nonces {
        return Replayed, 0;
      }
      nonces := nonces + {u.nonce};
      if !Fresh(u.timestamp, nowNs) {
        return Stale, 0;
      }
      match u.action {
        case Add =>
          var count := ApplyEntries(u, Seconds(nowNs));
          return if count < |u.entries| then EntryFailed else Applied, count;
        case Remove =>
          var count := ApplyEntries(u, Seconds(nowNs));
          return if count < |u.entries| then EntryFailed else Applied, count;
        case Flush =>
          FlushChangesNothing(u, entries, loaded, refuses, writes, Seconds(nowNs));
          return if entries != map[] then NeverReturns else Applied, 0;
        case Carve =>
          var ok;
          ok, done := CarveEntriesLocked(u.remove, u.entries, Seconds(nowNs));
          CarveTexts(u);
          return if ok then Applied else CarveFailed, done;
        case Unknown(_) =>
          return UnknownAction, 0;
      }
    }

    /** The checks that come before the action. */
    predicate Admitted(u: Update, used: set<string>, nowNs: int) {
      verify(u) && u.nonce !in used && Fresh(u.timestamp, nowNs)
    }

    /** Removes what has expired; the count includes entries whose removal failed. */
    method CleanupExpiredEntries(now: int) returns (removed: nat)
      requires Valid()
      modifies this`entries, this`trie, this`writes
      ensures Valid() && (old(Synced()) ==> Synced())
      ensures removed == |ExpiredAmong(old(entries), old(entries.Keys), now)|
      ensures entries.Keys <= old(entries.Keys) && forall c <- entries :: entries[c] == old(entries)[c]
      ensures removed == |set c <- old(entries) | 0 < old(entries)[c].expiresAt < now|
      ensures forall c <- old(entries) :: old(entries)[c].expiresAt <= 0 || now <= old(entries)[c].expiresAt ==> c in entries
      ensures Accepted(old(writes)) && (loaded ==> old(Synced())) ==>
                && (forall c <- entries :: entries[c].expiresAt <= 0 || now <= entries[c].expiresAt)
                && forall x: Address :: Allowed(entries, x) <==> old(AllowedAt(entries, now, x))
    {
      hide WellFormed, Agrees, AllCanonical, Cidr.Network, Cidr.Canonical, ExpiredAmong, Expired, Allowed, AllowedAt;
      removed := 0;
      var todo := entries.Keys;
      ghost var start := entries;
      while todo != {}
        invariant Valid() && (old(Synced()) ==> Synced()) && writes >= old(writes)
        invariant todo <= entries.Keys <= start.Keys
        invariant forall c <- entries :: entries[c] == start[c]
        invariant removed + |ExpiredAmong(start, todo, now)| == |ExpiredAmong(start, start.Keys, now)|
        invariant forall c <- start :: !Expired(start[c], now) ==> c in entries
        invariant Accepted(old(writes)) && (loaded ==> old(Synced())) ==>
                    forall c <- entries.Keys - todo :: !Expired(start[c], now)
      {
        var c :| c in todo;
        OneFewerExpired(start, todo, c, now);
        KeyIsText(entries, c);
        todo := todo - {c};
        if Expired(entries[c], now) {
          var r := RemoveEntryLocked(c);
          removed := removed + 1;
        }
      }
      NoneExpired(start, {}, now);
      ExpiredInPlain(start, now);
      ExpiredInPlain(entries, now);
      if forall c <- entries :: !Expired(entries[c], now) {
        NoneExpired(entries, entries.Keys, now);
        UnexpiredRemain(start, entries, now);
      }
    }
  }
}
