/**
 The Layer 3 allowlist: the manager's entry map, the longest-prefix-match trie the XDP program
 consults, and the operations that change both (firewall/layer3/allowlist_manager.go).

 The kernel may refuse any trie write; the model lets every write fail. Deleting a key the trie does
 not hold always fails.
 */
module Allowlist {
  import opened Options
  import opened Prefixes

  // ----- data model -----

  /** CIDR text as it was written: an IPv4 network with any host bits, or text the manager rejects. */
  datatype Cidr = V4(addr: Address, len: PrefixLength) | V6 | Malformed(text: string) {
    /** What parsing the text yields: the host bits are masked away. */
    function Network(): (p: Prefix)
      requires V4?
      ensures p.Canonical()
    {
      ShrClearLow(addr, ADDRESS_BITS - len);
      Prefix(ClearLow(addr, ADDRESS_BITS - len), len)
    }

    predicate Canonical() {
      V4? && ClearLow(addr, ADDRESS_BITS - len) == addr
    }

    predicate Matches(a: Address) {
      V4? && Network().Contains(a)
    }
  }

  /** The text a network prints as. */
  function Text(p: Prefix): Cidr {
    V4(p.addr, p.len)
  }

  datatype Entry = Entry(cidr: Cidr, tag: string, addedAt: int, expiresAt: int)

  datatype Result = Ok | InvalidCidr | NotIPv4 | TrieRefused

  type Entries = map<Cidr, Entry>
  type Trie = map<Prefix, nat>

  // ----- meaning of an entry map -----

  ghost predicate WellFormed(m: Entries) {
    forall c <- m :: c.V4? && m[c].cidr == c
  }

  ghost predicate AllCanonical(cs: set<Cidr>) {
    forall c <- cs :: c.V4? ==> c.Canonical()
  }

  /** Some entry contains the address. */
  ghost predicate Allowed(m: Entries, a: Address) {
    exists c <- m :: c.Matches(a)
  }

  predicate Expired(e: Entry, now: int) {
    e.expiresAt > 0 && now > e.expiresAt
  }

  /** Expiry is final, and comes right after the last second the entry names; without one there is none. */
  lemma ExpiryIsFinal(e: Entry, t: int, u: int)
    ensures Expired(e, t) && t <= u ==> Expired(e, u)
    ensures e.expiresAt > 0 ==> !Expired(e, e.expiresAt) && Expired(e, e.expiresAt + 1)
    ensures e.expiresAt <= 0 ==> !Expired(e, t)
  {
  }

  /** What unexpired entries cover only shrinks as time goes on. */
  lemma AllowedShrinks(m: Entries, t: int, u: int, a: Address)
    requires t <= u && AllowedAt(m, u, a)
    ensures AllowedAt(m, t, a)
  {
    var c :| c in m && c.Matches(a) && !Expired(m[c], u);
    ExpiryIsFinal(m[c], t, u);
  }

  /** Some unexpired entry contains the address: what a cleanup at that time leaves allowed. */
  ghost predicate AllowedAt(m: Entries, t: int, a: Address) {
    exists c <- m :: c.Matches(a) && !Expired(m[c], t)
  }

  function Covering(m: Entries, a: Address): set<Cidr> {
    set c <- m | c.Matches(a)
  }

  lemma AllowedIffCovering(m: Entries, a: Address)
    ensures Allowed(m, a) <==> |Covering(m, a)| > 0
  {
    if Allowed(m, a) {
      var c :| c in m && c.Matches(a);
      assert c in Covering(m, a);
    }
  }

  /** No address lies in two entries. */
  ghost predicate NonNested(m: Entries) {
    forall c <- m, d <- m, a: Address :: c.Matches(a) && d.Matches(a) ==> c == d
  }

  /** The trie holds exactly the networks of the entries, each with value 1. */
  ghost predicate Agrees(m: Entries, trie: Trie) {
    && (forall c <- m :: c.V4? ==> c.Network() in trie)
    && (forall p <- trie :: trie[p] == 1 && exists c <- m :: c.V4? && c.Network() == p)
  }

  /** What removeEntryLocked does to the trie keeps agreement exactly when no other text names the network. */
  lemma RemovalKeepsAgreementIff(m: Entries, trie: Trie, c: Cidr)
    requires WellFormed(m) && Agrees(m, trie) && c.V4?
    ensures Agrees(m - {c}, trie - {c.Network()}) <==> forall d <- m :: d.Network() == c.Network() ==> d == c
  {
    if forall d <- m :: d.Network() == c.Network() ==> d == c {
      forall p <- trie - {c.Network()} ensures exists d <- m - {c} :: d.V4? && d.Network() == p {
        var d :| d in m && d.V4? && d.Network() == p;
        assert d in m - {c};
      }
    } else {
      var d :| d in m && d.Network() == c.Network() && d != c;
      assert d in m - {c};
    }
  }

  /** Two spellings of 10.0.0.0/31: removing one takes the network out of the trie the other still needs. */
  lemma UncanonicalTextBreaksAgreement(e: Entry, f: Entry)
    requires e.cidr == V4(0x0A00_0000, 31) && f.cidr == V4(0x0A00_0001, 31)
    ensures var m := map[e.cidr := e, f.cidr := f];
            var trie := map[e.cidr.Network() := 1];
            WellFormed(m) && Agrees(m, trie) && !Agrees(m - {f.cidr}, trie - {f.cidr.Network()})
  {
    assert ClearLow(0x0A00_0001, 1) == ClearLow(0x0A00_0000, 1) == 2 * ClearLow(0x0500_0000, 0);
    assert f.cidr.Network() == e.cidr.Network();
    assert e.cidr in map[e.cidr := e, f.cidr := f] - {f.cidr};
  }

  lemma CanonicalNetworkIsText(c: Cidr, d: Cidr)
    requires c.Canonical() && d.Canonical() && c.Network() == d.Network()
    ensures c == d
  {
  }

  // ----- the data plane -----

  /** Longest-prefix match, trying lengths from len down. */
  function LpmLookup(trie: Trie, a: Address, len: PrefixLength): Option<nat> {
    var p := V4(a, len).Network();
    if p in trie then Some(trie[p])
    else if len == 0 then None
    else LpmLookup(trie, a, len - 1)
  }

  datatype Packet =
    | NoEthernetHeader
    | Arp
    | IPv4Short
    | IPv4(src: Address)
    | IPv6Short
    | IPv6(inTrie: bool)
    | OtherProtocol

  datatype Verdict = Pass | Drop

  /** xdp_invisible_wall, without its counters. */
  function XdpVerdict(enabled: bool, packet: Packet, trie: Trie): Verdict {
    if !enabled then Pass
    else match packet
      case NoEthernetHeader => Drop
      case Arp => Pass
      case IPv4Short => Drop
      case IPv4(src) => if LpmLookup(trie, src, ADDRESS_BITS) == Some(1) then Pass else Drop
      case IPv6Short => Drop
      case IPv6(inTrie) => if inTrie then Pass else Drop
      case OtherProtocol => Drop
  }

  /** The lookup finds the value of the longest prefix that contains the address, and fails only if none does. */
  lemma {:induction false} LookupFindsLongest(trie: Trie, a: Address, len: PrefixLength)
    requires forall p <- trie :: p.Canonical()
    ensures LpmLookup(trie, a, len).None? ==> forall p <- trie :: p.Contains(a) ==> p.len > len
    ensures LpmLookup(trie, a, len).Some? ==>
              exists p <- trie :: p.Contains(a) && p.len <= len && LpmLookup(trie, a, len) == Some(trie[p])
                                  && forall q <- trie :: q.Contains(a) && q.len <= len ==> q.len <= p.len
  {
    var p := V4(a, len).Network();
    ShrClearLow(a, ADDRESS_BITS - len);
    forall q <- trie | q.Contains(a) && q.len == len ensures q == p {
      SameLengthSameBlock(p, q, a);
    }
    if p !in trie && len > 0 {
      LookupFindsLongest(trie, a, len - 1);
    }
  }

  /** A disabled program passes everything; an enabled one only ARP and sources that its tries hold. */
  lemma OnlyArpAndListedPass(enabled: bool, packet: Packet, m: Entries, trie: Trie)
    requires WellFormed(m) && Agrees(m, trie)
    ensures !enabled ==> XdpVerdict(enabled, packet, trie) == Pass
    ensures enabled ==>
              (XdpVerdict(enabled, packet, trie) == Pass
               <==> packet == Arp || packet == IPv6(true) || (packet.IPv4? && Allowed(m, packet.src)))
  {
    if packet.IPv4? {
      VerdictIsCoverage(m, trie, packet.src);
    }
  }

  /** With map and trie in agreement the XDP program passes an IPv4 source iff some entry contains it. */
  lemma VerdictIsCoverage(m: Entries, trie: Trie, src: Address)
    requires WellFormed(m) && Agrees(m, trie)
    ensures XdpVerdict(true, IPv4(src), trie) == Pass <==> Allowed(m, src)
  {
    LookupFindsLongest(trie, src, ADDRESS_BITS);
  }

  // ----- planning a removal -----

  datatype IpText = Ip4(a: Address) | Ip6 | NotAnIp

  datatype Plan = Plan(remove: seq<Cidr>, add: seq<Entry>)

  datatype PlanResult = PlanError | NotCovered | Planned(plan: Plan)

  /** c is a most specific entry that contains the address. */
  ghost predicate IsBest(m: Entries, a: Address, c: Cidr) {
    c in m && c.Matches(a) && forall d <- m :: d.Matches(a) ==> d.len <= c.len
  }

  /** The entries that replace one entry when an address is taken out of it. */
  function CarveOuts(e: Entry, a: Address): seq<Entry>
    requires e.cidr.V4?
  {
    var n := ADDRESS_BITS - e.cidr.len;
    seq(n, k requires 0 <= k < n => Entry(Text(SiblingBlock(a, k)), e.tag + ":carveout", 0, e.expiresAt))
  }

  function PlanFor(e: Entry, a: Address): Plan
    requires e.cidr.V4?
  {
    Plan([e.cidr], CarveOuts(e, a))
  }

  // ----- effect of the writes on the entry map -----

  function Stamped(e: Entry, now: int): Entry {
    e.(addedAt := now)
  }

  /** Inserting entries in order, each stamped with the current time. */
  function AddAll(m: Entries, add: seq<Entry>, now: int): Entries {
    if add == [] then m
    else
      var last := add[|add| - 1];
      AddAll(m, add[..|add| - 1], now)[last.cidr := Stamped(last, now)]
  }

  lemma {:induction false} AddAllKeys(m: Entries, add: seq<Entry>, now: int)
    ensures AddAll(m, add, now).Keys == m.Keys + set e <- add :: e.cidr
    ensures WellFormed(m) && (forall e <- add :: e.cidr.V4?) ==> WellFormed(AddAll(m, add, now))
    ensures forall c <- m :: (forall e <- add :: e.cidr != c) ==> AddAll(m, add, now)[c] == m[c]
  {
    if add != [] {
      AddAllKeys(m, add[..|add| - 1], now);
      assert add == add[..|add| - 1] + [add[|add| - 1]];
    }
  }

  /** The entry map after a complete removal of a from the entry e. */
  function Carved(m: Entries, e: Entry, a: Address, now: int): Entries
    requires e.cidr.V4?
  {
    AddAll(m - {e.cidr}, CarveOuts(e, a), now)
  }

  /** The texts of the carve-outs name exactly the blocks of the exclusion. */
  lemma CarveOutTexts(e: Entry, a: Address)
    requires e.cidr.V4?
    ensures var blocks := Blocks(Siblings(a, ADDRESS_BITS - e.cidr.len));
            && (set f <- CarveOuts(e, a) :: f.cidr) == (set b <- blocks :: Text(b))
            && forall b <- blocks :: Text(b).Canonical() && Text(b).Network() == b
  {
    var outs, out := CarveOuts(e, a), Siblings(a, ADDRESS_BITS - e.cidr.len);
    forall k | 0 <= k < |out|
      ensures outs[k].cidr == Text(out[k]) && out[k].Canonical() && outs[k] in outs && out[k] in Blocks(out)
    {
      SiblingContains(a, k, a);
    }
  }

  function CarvedTexts(e: Entry, a: Address): set<Cidr>
    requires e.cidr.V4?
  {
    set b <- Blocks(Siblings(a, ADDRESS_BITS - e.cidr.len)) :: Text(b)
  }

  lemma CarvedKeys(m: Entries, e: Entry, a: Address, now: int)
    requires e.cidr.V4?
    ensures Carved(m, e, a, now).Keys == m.Keys - {e.cidr} + CarvedTexts(e, a)
    ensures forall c <- CarvedTexts(e, a) ::
              c.Canonical() && c.Network() in Blocks(Siblings(a, ADDRESS_BITS - e.cidr.len))
  {
    AddAllKeys(m - {e.cidr}, CarveOuts(e, a), now);
    CarveOutTexts(e, a);
  }

  /** The carve-outs together match the entry's addresses except one. */
  lemma CarvedTextsMatch(e: Entry, a: Address, x: Address)
    requires e.cidr.Matches(a)
    ensures (exists c <- CarvedTexts(e, a) :: c.Matches(x)) <==> e.cidr.Matches(x) && x != a
  {
    var blocks := Blocks(Siblings(a, ADDRESS_BITS - e.cidr.len));
    CarveOutTexts(e, a);
    ExclusionIsExactPartition(e.cidr.Network(), a);
    assert Covered(blocks, x) <==> e.cidr.Matches(x) && x != a;
    if Covered(blocks, x) {
      var b :| b in blocks && b.Contains(x);
      assert Text(b).Matches(x) && Text(b) in CarvedTexts(e, a);
    }
  }

  /** What a carve does to coverage, whether or not its entry is still present. */
  lemma CarveCoverage(m: Entries, e: Entry, a: Address, now: int, x: Address)
    requires e.cidr.Matches(a)
    ensures Allowed(Carved(m, e, a, now), x) <==> Allowed(m - {e.cidr}, x) || (e.cidr.Matches(x) && x != a)
    ensures Covering(Carved(m, e, a, now), a) == Covering(m, a) - {e.cidr}
  {
    var m' := Carved(m, e, a, now);
    CarvedKeys(m, e, a, now);
    CarvedTextsMatch(e, a, x);
    CarvedTextsMatch(e, a, a);
    assert forall c :: c in m' <==> c in m - {e.cidr} || c in CarvedTexts(e, a);
  }

  /** Carving an entry that is present removes one address at most, and exactly one cover of it. */
  lemma PresentCarveIsSurgical(m: Entries, e: Entry, a: Address, now: int)
    requires e.cidr in m && e.cidr.Matches(a)
    ensures forall x: Address :: x != a ==> (Allowed(Carved(m, e, a, now), x) <==> Allowed(m, x))
    ensures Allowed(Carved(m, e, a, now), a) ==> Allowed(m, a)
    ensures |Covering(Carved(m, e, a, now), a)| == |Covering(m, a)| - 1
  {
    forall x: Address ensures x != a ==> (Allowed(Carved(m, e, a, now), x) <==> Allowed(m, x)) {
      CarveCoverage(m, e, a, now, x);
      if Allowed(m, x) && !e.cidr.Matches(x) {
        var c :| c in m && c.Matches(x);
        assert c in m - {e.cidr};
      }
    }
    CarveCoverage(m, e, a, now, a);
    assert e.cidr in Covering(m, a);
  }

  // ----- what a carve does to coverage over time -----

  /** Inserted entries that expire together: every inserted text is an entry with that expiry. */
  lemma {:induction false} AddAllExpiry(m: Entries, add: seq<Entry>, now: int, expiry: int)
    requires forall f <- add :: f.expiresAt == expiry
    ensures forall c <- AddAll(m, add, now) :: (exists f <- add :: f.cidr == c) ==> AddAll(m, add, now)[c].expiresAt == expiry
  {
    if add != [] {
      var n := |add| - 1;
      AddAllExpiry(m, add[..n], now, expiry);
      assert add == add[..n] + [add[n]];
    }
  }

  lemma CarveOutExpiry(e: Entry, a: Address)
    requires e.cidr.V4?
    ensures forall f <- CarveOuts(e, a) :: f.expiresAt == e.expiresAt && f.tag == e.tag + ":carveout"
  {
  }

  /** The entries after a carve: the carve-outs with the entry's expiry, and the others that no carve-out replaced. */
  lemma CarvedEntries(m: Entries, e: Entry, a: Address, now: int)
    requires e.cidr.V4?
    ensures Carved(m, e, a, now).Keys == m.Keys - {e.cidr} + CarvedTexts(e, a)
    ensures forall c <- CarvedTexts(e, a) :: Carved(m, e, a, now)[c].expiresAt == e.expiresAt
    ensures forall c <- m - {e.cidr} - CarvedTexts(e, a) :: Carved(m, e, a, now)[c] == m[c]
  {
    CarveOutExpiry(e, a);
    CarvedKeys(m, e, a, now);
    CarveOutTexts(e, a);
    assert CarvedTexts(e, a) == set f <- CarveOuts(e, a) :: f.cidr;
    hide CarveOuts, Blocks, Siblings, CarvedTexts;
    var outs, rest := CarveOuts(e, a), m - {e.cidr};
    AddAllExpiry(rest, outs, now, e.expiresAt);
    AddAllKeys(rest, outs, now);
    forall c <- CarvedTexts(e, a) ensures exists f <- outs :: f.cidr == c {
      assert c in set f <- outs :: f.cidr;
    }
    forall c <- m - {e.cidr} - CarvedTexts(e, a), f <- outs ensures f.cidr != c {
      assert f.cidr in set f <- outs :: f.cidr;
    }
  }

  /** The carve-outs cover with the entry's expiry; an entry that one of them overwrites covers no longer. */
  lemma CarveCoverageAt(m: Entries, e: Entry, a: Address, now: int, t: int, x: Address)
    requires e.cidr.Matches(a)
    ensures AllowedAt(Carved(m, e, a, now), t, x)
       <==> AllowedAt(m - {e.cidr} - CarvedTexts(e, a), t, x) || (e.cidr.Matches(x) && x != a && !Expired(e, t))
  {
    var m', rest := Carved(m, e, a, now), m - {e.cidr} - CarvedTexts(e, a);
    CarvedEntries(m, e, a, now);
    CarvedTextsMatch(e, a, x);
    hide Carved, CarvedTexts;
    if AllowedAt(m', t, x) {
      var c :| c in m' && c.Matches(x) && !Expired(m'[c], t);
      assert c in CarvedTexts(e, a) || c in rest;
    }
    if AllowedAt(rest, t, x) {
      var c :| c in rest && c.Matches(x) && !Expired(rest[c], t);
      assert c in m';
    }
    if e.cidr.Matches(x) && x != a && !Expired(e, t) {
      var c :| c in CarvedTexts(e, a) && c.Matches(x);
      assert c in m';
    }
  }

  /** When no carve-out overwrites an entry, every other address keeps an unexpired cover for just as long. */
  lemma CarveKeepsLaterCovers(m: Entries, e: Entry, a: Address, now: int, t: int, x: Address)
    requires e.cidr in m && m[e.cidr] == e && e.cidr.Matches(a) && x != a
    requires forall c <- CarvedTexts(e, a) :: c !in m
    ensures AllowedAt(Carved(m, e, a, now), t, x) <==> AllowedAt(m, t, x)
  {
    CarveCoverageAt(m, e, a, now, t, x);
    assert m - {e.cidr} - CarvedTexts(e, a) == m - {e.cidr};
    if AllowedAt(m, t, x) && !(e.cidr.Matches(x) && !Expired(e, t)) {
      var c :| c in m && c.Matches(x) && !Expired(m[c], t);
      assert c in m - {e.cidr};
    }
  }

  /**
   Otherwise it can lose it: taking 10.0.0.0 out of an expiring 10.0.0.0/31 overwrites a permanent
   10.0.0.1/32, which then expires with the /31.
   */
  lemma OverwrittenCoverExpires(e: Entry, f: Entry, now: int, t: int)
    requires e.cidr == V4(0x0A00_0000, 31) && f.cidr == V4(0x0A00_0001, 32) && f.expiresAt == 0 && Expired(e, t)
    ensures var m := map[e.cidr := e, f.cidr := f];
            AllowedAt(m, t, 0x0A00_0001) && !AllowedAt(Carved(m, e, 0x0A00_0000, now), t, 0x0A00_0001)
  {
    var a: Address, x: Address := 0x0A00_0000, 0x0A00_0001;
    var m := map[e.cidr := e, f.cidr := f];
    assert Shr(a, 1) == Shr(0x0500_0000, 0) == Shr(x, 1);
    ShrClearLow(e.cidr.addr, 1);
    assert e.cidr.Matches(a) && f.cidr.Matches(x) && f.cidr in m;
    CarveCoverageAt(m, e, a, now, t, x);
    assert FlipBit(a, 0) == x && SiblingBlock(a, 0) == Prefix(x, 32);
    assert Siblings(a, 1)[0] == SiblingBlock(a, 0) && SiblingBlock(a, 0) in Blocks(Siblings(a, 1));
    assert f.cidr in CarvedTexts(e, a);
  }

  lemma SiblingTextsAreDisjoint(e: Cidr, a: Address, c: Cidr, d: Cidr, x: Address)
    requires e.Matches(a) && c.Canonical() && d.Canonical() && c.Matches(x) && d.Matches(x)
    requires var out := Blocks(Siblings(a, ADDRESS_BITS - e.len)); c.Network() in out && d.Network() in out
    ensures c == d
  {
    var out := Siblings(a, ADDRESS_BITS - e.len);
    ExclusionIsExactPartition(e.Network(), a);
    var i :| 0 <= i < |out| && out[i] == c.Network();
    var j :| 0 <= j < |out| && out[j] == d.Network();
    assert !(i < j) && !(j < i);
  }

  /** Carving the most specific entry of a non-nested allowlist denies the address and keeps it non-nested. */
  lemma NonNestedCarve(m: Entries, e: Entry, a: Address, now: int)
    requires e.cidr in m && e.cidr.Matches(a) && NonNested(m)
    ensures !Allowed(Carved(m, e, a, now), a) && NonNested(Carved(m, e, a, now))
  {
    CarveCoverage(m, e, a, now, a);
    forall c <- Carved(m, e, a, now), d <- Carved(m, e, a, now), x: Address | c.Matches(x) && d.Matches(x)
      ensures c == d
    {
      CarvedTextsAreDisjoint(m, e, a, now, c, d, x);
    }
  }

  lemma CarvedTextsAreDisjoint(m: Entries, e: Entry, a: Address, now: int, c: Cidr, d: Cidr, x: Address)
    requires e.cidr in m && e.cidr.Matches(a) && NonNested(m)
    requires c in Carved(m, e, a, now) && d in Carved(m, e, a, now) && c.Matches(x) && d.Matches(x)
    ensures c == d
  {
    CarvedKeys(m, e, a, now);
    if c in m && c != e.cidr && d in m && d != e.cidr {
    } else if c in CarvedTexts(e, a) && d in CarvedTexts(e, a) {
      SiblingTextsAreDisjoint(e.cidr, a, c, d, x);
    } else {
      CarvedTextsMatch(e, a, x);
      assert false;
    }
  }

  // ----- repeated removal -----

  lemma BestExists(m: Entries, a: Address)
    requires Allowed(m, a)
    ensures exists c :: IsBest(m, a, c)
  {
    var c :| c in m && c.Matches(a);
    while !IsBest(m, a, c)
      invariant c in m && c.Matches(a)
      decreases ADDRESS_BITS - c.len
    {
      var d :| d in m && d.Matches(a) && d.len > c.len;
      c := d;
    }
  }

  /** A successful removal: one of the most specific covers is carved, whichever the map's order offers first. */
  ghost predicate RemovalStep(m: Entries, m': Entries, a: Address) {
    exists best, now :: IsBest(m, a, best) && best.V4? && m[best].cidr == best && m' == Carved(m, m[best], a, now)
  }

  /** The entry maps before, between and after successful removals of one address. */
  ghost predicate RemovalRun(run: seq<Entries>, a: Address) {
    run != [] && WellFormed(run[0]) && forall i :: 0 <= i < |run| - 1 ==> RemovalStep(run[i], run[i + 1], a)
  }

  lemma CarvedIsWellFormed(m: Entries, e: Entry, a: Address, now: int)
    requires WellFormed(m) && e.cidr.V4?
    ensures WellFormed(Carved(m, e, a, now))
  {
    AddAllKeys(m - {e.cidr}, CarveOuts(e, a), now);
  }

  lemma StepRemovesOneCover(m: Entries, m': Entries, a: Address)
    requires WellFormed(m) && RemovalStep(m, m', a)
    ensures WellFormed(m') && |Covering(m', a)| == |Covering(m, a)| - 1
    ensures forall x: Address :: x != a ==> (Allowed(m', x) <==> Allowed(m, x))
  {
    var best, now :| IsBest(m, a, best) && best.V4? && m[best].cidr == best && m' == Carved(m, m[best], a, now);
    PresentCarveIsSurgical(m, m[best], a, now);
    CarvedIsWellFormed(m, m[best], a, now);
  }

  /** A removal leaves every entry that is less specific than some other cover, with its contents. */
  lemma WiderCoversSurvive(m: Entries, m': Entries, a: Address, c: Cidr, d: Cidr)
    requires WellFormed(m) && RemovalStep(m, m', a)
    requires c in m && c.Matches(a) && d in m && d.Matches(a) && c.len < d.len
    ensures c in m' && m'[c] == m[c]
  {
    var best, now :| IsBest(m, a, best) && best.V4? && m[best].cidr == best && m' == Carved(m, m[best], a, now);
    assert c != best;
    CarvedEntries(m, m[best], a, now);
    if c in CarvedTexts(m[best], a) {
      CarvedTextsMatch(m[best], a, a);
    }
  }

  lemma {:induction false} RemovalRunCounts(run: seq<Entries>, a: Address, i: nat)
    requires RemovalRun(run, a) && i < |run|
    ensures WellFormed(run[i]) && |Covering(run[i], a)| == |Covering(run[0], a)| - i
    ensures forall x: Address :: x != a ==> (Allowed(run[i], x) <==> Allowed(run[0], x))
  {
    hide WellFormed, Allowed, RemovalStep, Covering;
    if i > 0 {
      RemovalRunCounts(run, a, i - 1);
      assert RemovalStep(run[i - 1], run[i - 1 + 1], a);
      StepRemovesOneCover(run[i - 1], run[i], a);
    }
  }

  /**
   Removing an address as often as it has covers, and no less often, denies it and nothing else; there
   cannot be more successful removals than that.
   */
  lemma RepeatedRemovalDenies(run: seq<Entries>, a: Address)
    requires RemovalRun(run, a)
    ensures |run| - 1 <= |Covering(run[0], a)|
    ensures !Allowed(run[|run| - 1], a) <==> |run| - 1 == |Covering(run[0], a)|
    ensures forall x: Address :: x != a ==> (Allowed(run[|run| - 1], x) <==> Allowed(run[0], x))
  {
    var last := |run| - 1;
    RemovalRunCounts(run, a, last);
    AllowedIffCovering(run[last], a);
  }

  // ----- concurrent handlers -----

  /**
   A step of one handler: it applies a plan for the address a that was computed against any earlier
   allowlist, or its update fails. `trieLoaded` is what makes a plan whose entry has meanwhile gone fail:
   deleting the missing key is refused. A failed update may lose entries and, if its entry was still
   there, leave some of its carve-outs behind, when the kernel refuses the restoring writes too.
   */
  ghost predicate CarveStep(m: Entries, m': Entries, trieLoaded: bool, e: Entry, a: Address, now: int, applied: bool) {
    && e.cidr.Matches(a)
    && (if applied then (trieLoaded ==> e.cidr in m) && m' == Carved(m, e, a, now)
        else m'.Keys <= m.Keys || (e.cidr in m && m'.Keys <= m.Keys + CarvedTexts(e, a)))
  }

  datatype CarveEvent = CarveEvent(e: Entry, a: Address, now: int, applied: bool)

  /** A run of such steps; `run` lists the allowlist before, between and after them. */
  ghost predicate CarveRun(run: seq<Entries>, events: seq<CarveEvent>, trieLoaded: bool) {
    && |run| == |events| + 1
    && forall i :: 0 <= i < |events| ==>
        CarveStep(run[i], run[i + 1], trieLoaded, events[i].e, events[i].a, events[i].now, events[i].applied)
  }

  /** Before step n no failed update left a carve-out behind, as when the kernel accepts the restoring writes. */
  ghost predicate NothingLeftBehind(run: seq<Entries>, events: seq<CarveEvent>, n: nat)
    requires n <= |events| < |run|
  {
    forall i :: 0 <= i < n && !events[i].applied ==> run[i + 1].Keys <= run[i].Keys
  }

  lemma FewerKeysMeanLess(m: Entries, m': Entries)
    requires m'.Keys <= m.Keys
    ensures forall x: Address :: Allowed(m', x) ==> Allowed(m, x)
    ensures NonNested(m) ==> NonNested(m')
  {
    assert forall c :: c in m' ==> c in m;
  }

  /** Carve-outs beside their own entry allow nothing new. */
  lemma LeftBehindAllowsNothing(m: Entries, m': Entries, e: Entry, a: Address, x: Address)
    requires e.cidr.Matches(a) && e.cidr in m && m'.Keys <= m.Keys + CarvedTexts(e, a) && Allowed(m', x)
    ensures Allowed(m, x)
  {
    var c :| c in m' && c.Matches(x);
    if c !in m {
      CarvedTextsMatch(e, a, x);
      assert e.cidr.Matches(x);
    }
  }

  /** No step with a loaded trie allows a denied address, whatever the kernel refuses. */
  lemma StepNeverEnlarges(m: Entries, m': Entries, ev: CarveEvent)
    requires CarveStep(m, m', true, ev.e, ev.a, ev.now, ev.applied)
    ensures forall x: Address :: Allowed(m', x) ==> Allowed(m, x)
  {
    if ev.applied {
      PresentCarveIsSurgical(m, ev.e, ev.a, ev.now);
    } else if m'.Keys <= m.Keys {
      FewerKeysMeanLess(m, m');
    } else {
      forall x: Address | Allowed(m', x) ensures Allowed(m, x) {
        LeftBehindAllowsNothing(m, m', ev.e, ev.a, x);
      }
    }
  }

  lemma StepStaysNonNested(m: Entries, m': Entries, ev: CarveEvent)
    requires CarveStep(m, m', true, ev.e, ev.a, ev.now, ev.applied) && NonNested(m)
    requires ev.applied || m'.Keys <= m.Keys
    ensures NonNested(m') && (ev.applied ==> !Allowed(m', ev.a))
  {
    if ev.applied {
      NonNestedCarve(m, ev.e, ev.a, ev.now);
    } else {
      FewerKeysMeanLess(m, m');
    }
  }

  /** With the trie loaded, no interleaving of planned carves ever allows an address that was denied. */
  lemma {:induction false} CarveRunNeverEnlarges(run: seq<Entries>, events: seq<CarveEvent>, i: nat, j: nat, x: Address)
    requires CarveRun(run, events, true) && i <= j < |run| && Allowed(run[j], x)
    ensures Allowed(run[i], x)
    decreases j
  {
    if i < j {
      StepNeverEnlarges(run[j - 1], run[j], events[j - 1]);
      CarveRunNeverEnlarges(run, events, i, j - 1, x);
    }
  }

  lemma {:induction false} CarveRunStaysNonNested(run: seq<Entries>, events: seq<CarveEvent>, i: nat)
    requires CarveRun(run, events, true) && NonNested(run[0]) && i < |run| && NothingLeftBehind(run, events, i)
    ensures NonNested(run[i])
  {
    if i > 0 {
      CarveRunStaysNonNested(run, events, i - 1);
      assert !events[i - 1].applied ==> run[i - 1 + 1].Keys <= run[i - 1].Keys;
      StepStaysNonNested(run[i - 1], run[i], events[i - 1]);
    }
  }

  /**
   On a non-nested allowlist an address whose carve succeeded stays denied for the rest of the run,
   whatever fails later; only carve-outs left behind before the block could keep it allowed.
   */
  lemma BlockedStaysBlocked(run: seq<Entries>, events: seq<CarveEvent>, i: nat, j: nat)
    requires CarveRun(run, events, true) && NonNested(run[0])
    requires i < |events| && events[i].applied && i < j < |run| && NothingLeftBehind(run, events, i)
    ensures !Allowed(run[j], events[i].a)
  {
    CarveRunStaysNonNested(run, events, i);
    StepStaysNonNested(run[i], run[i + 1], events[i]);
    if Allowed(run[j], events[i].a) {
      CarveRunNeverEnlarges(run, events, i + 1, j, events[i].a);
    }
  }

  /** A plan whose entry has gone enlarges the allowlist exactly when the entry held another, now denied, address. */
  lemma StaleCarveEnlargesIff(m: Entries, e: Entry, a: Address, now: int)
    requires e.cidr.Matches(a) && e.cidr !in m
    ensures (exists x: Address :: Allowed(Carved(m, e, a, now), x) && !Allowed(m, x))
       <==> (exists x: Address :: e.cidr.Matches(x) && x != a && !Allowed(m, x))
  {
    assert m - {e.cidr} == m;
    forall x: Address
      ensures Allowed(Carved(m, e, a, now), x) && !Allowed(m, x) <==> e.cidr.Matches(x) && x != a && !Allowed(m, x)
    {
      CarveCoverage(m, e, a, now, x);
    }
  }

  /**
   Without a trie the guarantee fails: two handlers plan on 10.0.0.0/31, the first blocks 10.0.0.0,
   and the second, blocking 10.0.0.1 with its stale plan, allows 10.0.0.0 again.
   */
  lemma RunWithoutTrieCanUnblock(e: Entry, now: int)
    requires e.cidr == V4(0x0A00_0000, 31)
    ensures var a, b := 0x0A00_0000, 0x0A00_0001;
            var start := map[e.cidr := e];
            var first := Carved(start, e, a, now);
            var second := Carved(first, e, b, now);
            && CarveRun([start, first, second], [CarveEvent(e, a, now, true), CarveEvent(e, b, now, true)], false)
            && !Allowed(first, a) && Allowed(second, a)
  {
    var a: Address, b: Address := 0x0A00_0000, 0x0A00_0001;
    var start := map[e.cidr := e];
    assert Shr(a, 1) == Shr(b, 1) by {
      assert Shr(a, 1) == Shr(0x0500_0000, 0) == Shr(b, 1);
    }
    ShrClearLow(e.cidr.addr, 1);
    assert e.cidr.Matches(a) && e.cidr.Matches(b);
    CarveCoverage(start, e, a, now, a);
    CarveCoverage(Carved(start, e, a, now), e, b, now, a);
  }
}
