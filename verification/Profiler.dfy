/**
 The attacker profile cache of agent beta: a map and a recency list changed together, with a class of
 profiles that eviction under pressure must spare (agents/beta/profiler.go). Times are nanoseconds.
 */
module Profiler {

  const HOUR: int := 3_600_000_000_000

  /** High-value profiles are kept seven days under pressure. */
  predicate Spared(score: int, age: int) {
    score >= 60 && age < 7 * 24 * HOUR
  }

  /** Past the retention period of the profile's score band. */
  predicate PastRetention(score: int, age: int) {
    || (score < 20 && age > 24 * HOUR)
    || (20 <= score < 60 && age > 72 * HOUR)
    || (score >= 60 && age > 7 * 24 * HOUR)
  }

  /**
   Retention and protection fit together: nothing protected is past retention, nothing of at most a day
   is, everything older than a week is, and older or less dangerous profiles go no later.
   */
  lemma RetentionLaws(score: int, age: int, score': int, age': int)
    ensures Spared(score, age) ==> !PastRetention(score, age)
    ensures PastRetention(score, age) && age <= age' && score' <= score ==> PastRetention(score', age')
    ensures age <= 24 * HOUR ==> !PastRetention(score, age)
    ensures age > 7 * 24 * HOUR ==> PastRetention(score, age)
    ensures score < 60 && age > 72 * HOUR ==> PastRetention(score, age)
  {
  }

  ghost predicate Distinct(s: seq<string>) {
    forall i, j :: 0 <= i < j < |s| ==> s[i] != s[j]
  }

  /** The list without some keys, in order. */
  function Minus(s: seq<string>, keys: set<string>): seq<string> {
    if s == [] then []
    else if s[0] in keys then Minus(s[1..], keys)
    else [s[0]] + Minus(s[1..], keys)
  }

  lemma {:induction false} MinusMembers(s: seq<string>, keys: set<string>)
    ensures forall k :: k in Minus(s, keys) <==> k in s && k !in keys
    ensures |Minus(s, keys)| <= |s|
  {
    if s != [] {
      MinusMembers(s[1..], keys);
      assert forall k :: k in s <==> k == s[0] || k in s[1..];
    }
  }

  lemma {:induction false} MinusSplits(s: seq<string>, t: seq<string>, keys: set<string>)
    ensures Minus(s + t, keys) == Minus(s, keys) + Minus(t, keys)
  {
    if s == [] {
      assert s + t == t;
    } else {
      assert (s + t)[1..] == s[1..] + t;
      MinusSplits(s[1..], t, keys);
    }
  }

  lemma {:induction false} MinusNothing(s: seq<string>, keys: set<string>)
    requires forall k <- s :: k !in keys
    ensures Minus(s, keys) == s
  {
    if s != [] {
      MinusNothing(s[1..], keys);
    }
  }

  lemma DistinctAround(s: seq<string>, i: nat)
    requires Distinct(s) && i < |s|
    ensures s[i] !in s[..i] && s[i] !in s[i + 1..]
  {
  }

  /** Cutting one element out of a list without repetitions. */
  lemma CutIsMinus(s: seq<string>, i: nat)
    requires Distinct(s) && i < |s|
    ensures s[..i] + s[i + 1..] == Minus(s, {s[i]})
  {
    hide Minus, Distinct;
    DistinctAround(s, i);
    MinusNothing(s[..i], {s[i]});
    MinusNothing(s[i + 1..], {s[i]});
    MinusOfHead(s[i], s[i + 1..]);
    MinusSplits(s[..i], [s[i]] + s[i + 1..], {s[i]});
    SplitAround(s, i);
  }

  lemma SplitAround(s: seq<string>, i: nat)
    requires i < |s|
    ensures s == s[..i] + ([s[i]] + s[i + 1..])
  {
  }

  lemma MinusOfHead(k: string, t: seq<string>)
    ensures Minus([k] + t, {k}) == Minus(t, {k})
  {
    assert ([k] + t)[1..] == t;
  }

  function Among(s: seq<string>, keys: set<string>): set<string> {
    set k <- keys | k in s
  }

  /** One element further to the front. */
  lemma MinusStep(s: seq<string>, e: nat, keys: set<string>)
    requires e < |s| && Distinct(s)
    ensures s[e] !in Among(s[e + 1..], keys)
    ensures Minus(s[e..], keys) == (if s[e] in keys then [] else [s[e]]) + Minus(s[e + 1..], keys)
    ensures Among(s[e..], keys) == Among(s[e + 1..], keys) + (if s[e] in keys then {s[e]} else {})
  {
    assert s[e..][1..] == s[e + 1..];
    assert forall k :: k in s[e..] <==> k == s[e] || k in s[e + 1..];
  }

  /** A cleanup walk from the back has reached position e: the front is untouched, the back filtered. */
  ghost predicate WalkAt(start: seq<string>, e: nat, bad: set<string>, lru: seq<string>, gone: set<string>) {
    e <= |start| && lru == start[..e] + Minus(start[e..], bad) && gone == Among(start[e..], bad)
  }

  lemma WalkBegins(start: seq<string>, bad: set<string>)
    ensures WalkAt(start, |start|, bad, start, {})
  {
    assert start[..|start|] == start && start[|start|..] == [];
  }

  lemma WalkStep(start: seq<string>, e: nat, bad: set<string>, lru: seq<string>, gone: set<string>)
    requires WalkAt(start, e + 1, bad, lru, gone) && Distinct(start)
    ensures e < |lru| && lru[e] == start[e] && start[e] !in gone
    ensures if start[e] in bad then WalkAt(start, e, bad, lru[..e] + lru[e + 1..], gone + {start[e]})
            else WalkAt(start, e, bad, lru, gone)
  {
    MinusStep(start, e, bad);
    hide Minus, Among, Distinct;
    var back := Minus(start[e + 1..], bad);
    assert start[..e + 1] == start[..e] + [start[e]];
    assert lru == start[..e] + ([start[e]] + back);
    assert lru[..e] + lru[e + 1..] == start[..e] + back;
  }

  lemma MinusTwice<V>(m: map<string, V>, keys: set<string>, k: string)
    ensures m - keys - {k} == m - (keys + {k})
  {
  }

  lemma WalkEnds(start: seq<string>, bad: set<string>, lru: seq<string>, gone: set<string>)
    requires WalkAt(start, 0, bad, lru, gone) && forall k <- bad :: k in start
    ensures lru == Minus(start, bad) && gone == bad
  {
    assert start[..0] == [] && start[0..] == start;
  }

  /** More recently used keys come first. */
  ghost predicate RecentFirst(s: seq<string>, lastUse: map<string, nat>) {
    && (forall k <- s :: k in lastUse)
    && forall i, j :: 0 <= i < j < |s| ==> lastUse[s[i]] > lastUse[s[j]]
  }

  lemma RecentFirstIsDistinct(s: seq<string>, lastUse: map<string, nat>)
    requires RecentFirst(s, lastUse)
    ensures Distinct(s)
  {
  }

  lemma {:induction false} MinusKeepsOrder(s: seq<string>, keys: set<string>, lastUse: map<string, nat>)
    requires RecentFirst(s, lastUse)
    ensures RecentFirst(Minus(s, keys), lastUse)
  {
    if s != [] {
      assert forall k <- s[1..] :: k in s && lastUse[k] < lastUse[s[0]];
      MinusKeepsOrder(s[1..], keys, lastUse);
      MinusMembers(s[1..], keys);
    }
  }

  /** The last position whose key is not in the set, or -1. */
  function LastOutside(s: seq<string>, keys: set<string>): (i: int)
    ensures -1 <= i < |s| && (i >= 0 ==> s[i] !in keys) && forall j :: i < j < |s| ==> s[j] in keys
  {
    if s == [] then -1
    else if s[|s| - 1] !in keys then |s| - 1
    else LastOutside(s[..|s| - 1], keys)
  }

  /** Keys and list hold the same profiles, the list in order of last access, within the size limit. */
  ghost predicate Consistent(keys: set<string>, lru: seq<string>, lastUse: map<string, nat>, clock: nat, maxSize: int) {
    && (forall k :: k in lru <==> k in keys)
    && RecentFirst(lru, lastUse)
    && (forall k <- lastUse :: lastUse[k] < clock)
    && (|lru| <= maxSize || lru == [])
  }

  /** What cutting the element at a position keeps. */
  lemma CutKeeps(keys: set<string>, lru: seq<string>, lastUse: map<string, nat>, clock: nat, maxSize: int, i: nat)
    requires Consistent(keys, lru, lastUse, clock, maxSize) && i < |lru|
    ensures var t := lru[..i] + lru[i + 1..];
            && t == Minus(lru, {lru[i]}) && |t| == |lru| - 1 && lru[i] in keys
            && Consistent(keys - {lru[i]}, t, lastUse, clock, maxSize)
  {
    RecentFirstIsDistinct(lru, lastUse);
    CutIsMinus(lru, i);
    MinusKeepsOrder(lru, {lru[i]}, lastUse);
    MinusMembers(lru, {lru[i]});
    hide Minus;
    assert lru[i] in lru;
  }

  /** Putting a key that is not listed in front. */
  lemma FrontKeeps(keys: set<string>, lru: seq<string>, lastUse: map<string, nat>, clock: nat, maxSize: int, k: string)
    requires Consistent(keys, lru, lastUse, clock, maxSize) && k !in keys && |lru| < maxSize
    ensures Consistent(keys + {k}, [k] + lru, lastUse[k := clock], clock + 1, maxSize)
  {
    assert forall j :: 0 <= j < |lru| ==> lru[j] in lru;
  }

  /** Taking a listed key out and putting it in front. */
  lemma MovedKeeps(keys: set<string>, lru: seq<string>, lastUse: map<string, nat>, clock: nat, maxSize: int, k: string)
    requires Consistent(keys, lru, lastUse, clock, maxSize) && k in keys
    ensures Consistent(keys, [k] + Minus(lru, {k}), lastUse[k := clock], clock + 1, maxSize)
  {
    hide Minus;
    var i := PositionOf(keys, lru, lastUse, clock, maxSize, k);
    CutKeeps(keys, lru, lastUse, clock, maxSize, i);
    WithinLimit(keys, lru, lastUse, clock, maxSize);
    hide Consistent;
    FrontKeeps(keys - {k}, Minus(lru, {k}), lastUse, clock, maxSize, k);
    assert keys - {k} + {k} == keys;
  }

  lemma WithinLimit(keys: set<string>, lru: seq<string>, lastUse: map<string, nat>, clock: nat, maxSize: int)
    requires Consistent(keys, lru, lastUse, clock, maxSize)
    ensures |lru| <= maxSize || lru == []
  {
  }

  lemma ListedIsKept(keys: set<string>, lru: seq<string>, lastUse: map<string, nat>, clock: nat, maxSize: int)
    requires Consistent(keys, lru, lastUse, clock, maxSize)
    ensures forall i :: 0 <= i < |lru| ==> lru[i] in keys
    ensures RecentFirst(lru, lastUse)
  {
    assert forall i :: 0 <= i < |lru| ==> lru[i] in lru;
  }

  lemma KeysAreListed(keys: set<string>, lru: seq<string>, lastUse: map<string, nat>, clock: nat, maxSize: int)
    requires Consistent(keys, lru, lastUse, clock, maxSize)
    ensures Distinct(lru) && (forall k <- keys :: k in lru) && forall i :: 0 <= i < |lru| ==> lru[i] in keys
  {
    RecentFirstIsDistinct(lru, lastUse);
    ListedIsKept(keys, lru, lastUse, clock, maxSize);
  }

  lemma PositionOf(keys: set<string>, lru: seq<string>, lastUse: map<string, nat>, clock: nat, maxSize: int, k: string)
    returns (i: nat)
    requires Consistent(keys, lru, lastUse, clock, maxSize) && k in keys
    ensures i < |lru| && lru[i] == k
  {
    i :| 0 <= i < |lru| && lru[i] == k;
  }

  ghost predicate AllIn(s: seq<string>, keys: set<string>) {
    forall i :: 0 <= i < |s| ==> s[i] in keys
  }

  /** No key outside the set was used before the one at the position. */
  ghost predicate LeastRecentOutside(s: seq<string>, keys: set<string>, lastUse: map<string, nat>, i: nat) {
    && i < |s| && s[i] !in keys && (forall k <- s :: k in lastUse)
    && forall k <- s :: k !in keys ==> lastUse[s[i]] <= lastUse[k]
  }

  lemma LastIsLeastRecent(s: seq<string>, keys: set<string>, lastUse: map<string, nat>, e: nat)
    requires RecentFirst(s, lastUse) && e < |s| && s[e] !in keys && forall j :: e < j < |s| ==> s[j] in keys
    ensures LastOutside(s, keys) == e && LeastRecentOutside(s, keys, lastUse, e) && !AllIn(s, keys)
  {
    LastOutsideIs(s, keys, e);
    forall k <- s | k !in keys ensures lastUse[s[e]] <= lastUse[k] {
      var j :| 0 <= j < |s| && s[j] == k;
      assert j <= e;
    }
  }

  lemma LastOutsideIs(s: seq<string>, keys: set<string>, e: nat)
    requires e < |s| && s[e] !in keys && forall j :: e < j < |s| ==> s[j] in keys
    ensures LastOutside(s, keys) == e
  {
    var i := LastOutside(s, keys);
    assert !(i < e) && !(e < i);
  }

  /** The test of one eviction step under pressure: its first clause never changes the outcome. */
  predicate IsVictim(score: int, age: int): (victim: bool)
    ensures victim == !Spared(score, age) == (score < 60 || age >= 604_800_000_000_000)
  {
    if score < 20 && age > 24 * HOUR then true
    else if score >= 60 && age < 7 * 24 * HOUR then false
    else true
  }

  /** The retention limits in nanoseconds: one day, three days, a week. */
  lemma RetentionInPlain()
    ensures forall score, age :: PastRetention(score, age) <==>
              age > if score < 20 then 86_400_000_000_000 else if score < 60 then 259_200_000_000_000
                    else 604_800_000_000_000
  {
  }

  class AttackerProfile {
    const srcIP: string
    var firstSeen: int
    var lastSeen: int
    var score: int

    constructor (srcIP: string, now: int)
      ensures this.srcIP == srcIP && firstSeen == now && lastSeen == now && score == 0
    {
      this.srcIP, firstSeen, lastSeen, score := srcIP, now, now, 0;
    }
  }

  class Profiler {
    var profiles: map<string, AttackerProfile>
    var lru: seq<string> // front first
    const maxSize: int
    ghost var clock: nat // accesses so far
    ghost var lastUse: map<string, nat> // the access that last touched a key

    ghost predicate Valid()
      reads this
    {
      && Consistent(profiles.Keys, lru, lastUse, clock, maxSize)
      && forall k <- profiles :: profiles[k].srcIP == k
    }

    /** The keys whose profiles are spared, each at the clock reading taken when the walk looks at it. */
    function SparedKeys(seen: string -> int): set<string>
      reads this, profiles.Values
    {
      set k <- profiles | Spared(profiles[k].score, seen(k) - profiles[k].lastSeen)
    }

    function ExpiredKeys(now: int): set<string>
      reads this, profiles.Values
    {
      set k <- profiles | PastRetention(profiles[k].score, now - profiles[k].lastSeen)
    }

    constructor (maxSize: int)
      ensures Valid() && lru == [] && profiles == map[] && this.maxSize == maxSize
    {
      profiles, lru, clock, lastUse := map[], [], 0, map[];
      this.maxSize := maxSize;
    }

    method MoveToFront(k: string)
      requires Valid() && k in profiles
      modifies this`lru, this`clock, this`lastUse
      ensures Valid() && lru == [k] + Minus(old(lru), {k})
      ensures lastUse == old(lastUse)[k := old(clock)]
    {
      MovedKeeps(profiles.Keys, lru, lastUse, clock, maxSize, k);
      hide Consistent, Minus;
      lru := [k] + Minus(lru, {k});
      lastUse, clock := lastUse[k := clock], clock + 1;
    }

    method Get(srcIP: string) returns (r: AttackerProfile?)
      requires Valid()
      modifies this`lru, this`clock, this`lastUse
      ensures Valid()
      ensures if srcIP in profiles then r == profiles[srcIP] && lru == [srcIP] + Minus(old(lru), {srcIP})
              else r == null && lru == old(lru)
      ensures lastUse == if srcIP in profiles then old(lastUse)[srcIP := old(clock)] else old(lastUse)
    {
      if srcIP in profiles {
        MoveToFront(srcIP);
        return profiles[srcIP];
      }
      return null;
    }

    /** Takes the element at a position out of the list and its profile out of the map. */
    method RemoveAt(e: nat)
      requires Valid() && e < |lru|
      modifies this`profiles, this`lru
      ensures Valid()
      ensures lru == old(lru)[..e] + old(lru)[e + 1..] == Minus(old(lru), {old(lru)[e]}) && |lru| == |old(lru)| - 1
      ensures profiles == old(profiles) - {old(lru)[e]}
    {
      CutKeeps(profiles.Keys, lru, lastUse, clock, maxSize, e);
      hide Minus, Consistent;
      assert (profiles - {lru[e]}).Keys == profiles.Keys - {lru[e]};
      lru, profiles := lru[..e] + lru[e + 1..], profiles - {lru[e]};
    }

    /** The walk from the back to the first profile that is not spared; -1 when all are. */
    method FindVictim(seen: string -> int) returns (e: int)
      requires Valid()
      ensures -1 <= e < |lru|
      ensures e == -1 <==> AllIn(lru, SparedKeys(seen))
      ensures e >= 0 ==> e == LastOutside(lru, SparedKeys(seen)) && LeastRecentOutside(lru, SparedKeys(seen), lastUse, e)
    {
      ListedIsKept(profiles.Keys, lru, lastUse, clock, maxSize);
      hide Minus, LastOutside, Consistent, RecentFirst, LeastRecentOutside, Spared, IsVictim;
      e := |lru| - 1;
      while e >= 0
        invariant -1 <= e < |lru|
        invariant forall j :: e < j < |lru| ==> lru[j] in SparedKeys(seen)
      {
        var profile := profiles[lru[e]];
        if IsVictim(profile.score, seen(lru[e]) - profile.lastSeen) {
          LastIsLeastRecent(lru, SparedKeys(seen), lastUse, e);
          return e;
        }
        e := e - 1;
      }
    }

    /** Removes the least recently used profile among those that are not spared, if there is one. */
    method EvictOne(seen: string -> int) returns (evicted: bool)
      requires Valid()
      modifies this`profiles, this`lru
      ensures Valid()
      ensures evicted <==> !AllIn(old(lru), old(SparedKeys(seen)))
      ensures !evicted ==> profiles == old(profiles) && lru == old(lru)
      ensures evicted ==> var i := LastOutside(old(lru), old(SparedKeys(seen)));
                          && 0 <= i < |old(lru)| && |lru| == |old(lru)| - 1
                          && lru == Minus(old(lru), {old(lru)[i]}) && profiles == old(profiles) - {old(lru)[i]}
                          && LeastRecentOutside(old(lru), old(SparedKeys(seen)), lastUse, i)
                          && (forall j :: i < j < |old(lru)| ==> old(lru)[j] in old(SparedKeys(seen)))
      ensures forall k <- old(profiles) :: k !in profiles ==>
                old(profiles)[k].score < 60 || seen(k) - old(profiles)[k].lastSeen >= 604_800_000_000_000
    {
      assert forall k <- profiles :: k !in SparedKeys(seen) ==>
               profiles[k].score < 60 || seen(k) - profiles[k].lastSeen >= 604_800_000_000_000;
      hide Minus, LastOutside, Consistent, LeastRecentOutside, AllIn, SparedKeys;
      var e := FindVictim(seen);
      if e == -1 {
        return false;
      }
      RemoveAt(e);
      return true;
    }

    /** A new profile in front. */
    method Insert(srcIP: string, now: int) returns (r: AttackerProfile)
      requires Valid() && srcIP !in profiles && |lru| < maxSize
      modifies this
      ensures Valid()
      ensures fresh(r) && r.srcIP == srcIP && r.score == 0 && r.firstSeen == r.lastSeen == now
      ensures profiles == old(profiles)[srcIP := r] && lru == [srcIP] + old(lru)
      ensures lastUse == old(lastUse)[srcIP := old(clock)]
    {
      FrontKeeps(profiles.Keys, lru, lastUse, clock, maxSize, srcIP);
      hide Consistent;
      r := new AttackerProfile(srcIP, now);
      assert profiles[srcIP := r].Keys == profiles.Keys + {srcIP};
      lru, profiles := [srcIP] + lru, profiles[srcIP := r];
      lastUse, clock := lastUse[srcIP := clock], clock + 1;
    }

    /**
     The loop tries one eviction after another while holding the lock, and reads the clock at every profile it
     looks at. `readings` are the readings of the attempts of a stretch of time; null stands for a call that has not returned in it.
     That happens exactly when a new key meets a full list of profiles that are spared at every reading, or
     a limit below one. `tries` counts the evictions that found nothing.
     */
    method GetOrCreate(srcIP: string, now: int, readings: seq<string -> int>) returns (r: AttackerProfile?, ghost tries: nat)
      requires Valid()
      modifies this
      ensures Valid()
      ensures r == null <==> srcIP !in old(profiles) && |old(lru)| >= maxSize
                             && forall k :: 0 <= k < |readings| ==> AllIn(old(lru), old(SparedKeys(readings[k])))
      ensures r == null ==> profiles == old(profiles) && lru == old(lru) && lastUse == old(lastUse)
      ensures r != null ==> lastUse == old(lastUse)[srcIP := old(clock)]
      ensures srcIP in old(profiles) ==> r == old(profiles)[srcIP] && profiles == old(profiles)
                                         && lru == [srcIP] + Minus(old(lru), {srcIP})
      ensures r != null && srcIP !in old(profiles) ==>
                fresh(r) && r.srcIP == srcIP && r.score == 0 && r.firstSeen == r.lastSeen == now
      ensures srcIP !in old(profiles) && |old(lru)| < maxSize ==>
                profiles == old(profiles)[srcIP := r] && lru == [srcIP] + old(lru)
      ensures r != null && srcIP !in old(profiles) && |old(lru)| >= maxSize ==>
                && tries < |readings| && !AllIn(old(lru), old(SparedKeys(readings[tries])))
                && (forall k :: 0 <= k < tries ==> AllIn(old(lru), old(SparedKeys(readings[k]))))
                && var i := LastOutside(old(lru), old(SparedKeys(readings[tries])));
                   && 0 <= i < |old(lru)|
                   && lru == [srcIP] + Minus(old(lru), {old(lru)[i]})
                   && profiles == (old(profiles) - {old(lru)[i]})[srcIP := r]
    {
      tries := 0;
      if srcIP in profiles {
        MoveToFront(srcIP);
        return profiles[srcIP], 0;
      }
      WithinLimit(profiles.Keys, lru, lastUse, clock, maxSize);
      hide Minus, LastOutside, Consistent, AllIn, LeastRecentOutside, Spared;
      var k := 0;
      while |lru| >= maxSize
        invariant Valid() && srcIP !in profiles && lastUse == old(lastUse) && clock == old(clock)
        invariant tries < k <= |readings| || tries == k <= |readings|
        invariant forall j :: 0 <= j < tries ==> AllIn(old(lru), old(SparedKeys(readings[j])))
        invariant tries == k ==> profiles == old(profiles) && lru == old(lru)
        invariant tries < k ==>
                    && |lru| < maxSize <= |old(lru)| && !AllIn(old(lru), old(SparedKeys(readings[tries])))
                    && var i := LastOutside(old(lru), old(SparedKeys(readings[tries])));
                       && 0 <= i < |old(lru)| && lru == Minus(old(lru), {old(lru)[i]})
                       && profiles == old(profiles) - {old(lru)[i]}
        decreases |readings| - k
      {
        if k == |readings| {
          return null, k;
        }
        assert SparedKeys(readings[k]) == old(SparedKeys(readings[k]));
        var evicted := EvictOne(readings[k]);
        k := k + 1;
        if !evicted {
          tries := tries + 1;
        }
      }
      r := Insert(srcIP, now);
    }

    /** Keeps exactly the profiles within their retention, in the same order. */
    method EvictExpired(now: int)
      requires Valid()
      modifies this`profiles, this`lru
      ensures Valid()
      ensures lru == Minus(old(lru), old(ExpiredKeys(now)))
      ensures profiles == old(profiles) - old(ExpiredKeys(now))
      ensures forall k <- old(profiles) ::
                var age := now - old(profiles)[k].lastSeen;
                k in profiles <==> age <= if old(profiles)[k].score < 20 then 86_400_000_000_000
                                          else if old(profiles)[k].score < 60 then 259_200_000_000_000
                                          else 604_800_000_000_000
    {
      RetentionInPlain();
      hide Minus, Consistent, RecentFirst, Distinct, PastRetention, WalkAt;
      ghost var start, expired, gone := lru, ExpiredKeys(now), {};
      KeysAreListed(profiles.Keys, lru, lastUse, clock, maxSize);
      WalkBegins(start, expired);
      assert expired <= profiles.Keys;
      assert forall k <- profiles :: k in expired <==> PastRetention(profiles[k].score, now - profiles[k].lastSeen);
      hide ExpiredKeys;
      var e := |lru| - 1;
      while e >= 0
        invariant -1 <= e < |start| && Valid()
        invariant WalkAt(start, e + 1, expired, lru, gone)
        invariant profiles == old(profiles) - gone
        decreases e
      {
        WalkStep(start, e, expired, lru, gone);
        ghost var before := lru;
        var ip := lru[e];
        if PastRetention(profiles[ip].score, now - profiles[ip].lastSeen) {
          MinusTwice(old(profiles), gone, ip);
          RemoveAt(e);
          assert lru == before[..e] + before[e + 1..];
          gone := gone + {ip};
        }
        e := e - 1;
      }
      WalkEnds(start, expired, lru, gone);
    }
  }
}
