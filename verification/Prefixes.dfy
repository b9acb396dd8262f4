/**
 IPv4 prefixes (CIDR blocks, section 3.1 of RFC 4632) and the prefix exclusion of the Layer 3
 allowlist manager.

 Bit operations are written by halving and doubling, so every fact below is linear arithmetic:
 `Shr` drops low bits, `ClearLow` masks them to zero and `FlipBit` is an exclusive or with one bit.
 */
module Prefixes {

  const ADDRESS_BITS: nat := 32
  const ADDRESS_SPACE: nat := 0x1_0000_0000

  type Address = a: nat | a < ADDRESS_SPACE
  type PrefixLength = n: nat | n <= ADDRESS_BITS

  /** An IPv4 network: address bits and prefix length. */
  datatype Prefix = Prefix(addr: Address, len: PrefixLength) {
    /** The address has no host bit set, which is what parsing CIDR text produces. */
    predicate Canonical() {
      ClearLow(addr, ADDRESS_BITS - len) == addr
    }

    /** Masking both sides gives the same network number. */
    predicate Contains(a: Address) {
      Shr(a, ADDRESS_BITS - len) == Shr(addr, ADDRESS_BITS - len)
    }
  }

  // ----- bit operations -----

  /** a >> k */
  function Shr(a: nat, k: nat): nat {
    if k == 0 then a else Shr(a / 2, k - 1)
  }

  /** a with its k low bits set to zero */
  function ClearLow(a: nat, k: nat): (r: nat)
    ensures r <= a
  {
    if k == 0 then a else 2 * ClearLow(a / 2, k - 1)
  }

  /** a ^ 1 */
  function Sibling(a: nat): nat {
    if a % 2 == 0 then a + 1 else a - 1
  }

  /** a ^ (1 << k) */
  function FlipBit(a: nat, k: nat): nat {
    if k == 0 then Sibling(a) else 2 * FlipBit(a / 2, k - 1) + a % 2
  }

  function Pow2(k: nat): (r: nat)
    ensures r > 0
  {
    if k == 0 then 1 else 2 * Pow2(k - 1)
  }

  lemma {:induction false} ShrStep(a: nat, k: nat)
    ensures Shr(a, k + 1) == Shr(a, k) / 2
  {
    if k > 0 {
      ShrStep(a / 2, k - 1);
    }
  }

  /** Numbers that agree above bit j agree above every higher bit. */
  lemma {:induction false} ShrMono(a: nat, b: nat, j: nat, k: nat)
    requires j <= k && Shr(a, j) == Shr(b, j)
    ensures Shr(a, k) == Shr(b, k)
    decreases k - j
  {
    if j < k {
      ShrStep(a, j);
      ShrStep(b, j);
      ShrMono(a, b, j + 1, k);
    }
  }

  lemma {:induction false} ShrClearLow(a: nat, k: nat)
    ensures Shr(ClearLow(a, k), k) == Shr(a, k)
    ensures ClearLow(ClearLow(a, k), k) == ClearLow(a, k)
  {
    if k > 0 {
      ShrClearLow(a / 2, k - 1);
    }
  }

  /** The masked address is determined by the bits above the mask. */
  lemma {:induction false} ClearLowByShr(a: nat, b: nat, k: nat)
    requires Shr(a, k) == Shr(b, k)
    ensures ClearLow(a, k) == ClearLow(b, k)
  {
    if k > 0 {
      ClearLowByShr(a / 2, b / 2, k - 1);
    }
  }

  /** Flipping bit k makes the number its own sibling at level k, equal above and equal in parity below. */
  lemma {:induction false} ShrFlip(a: nat, k: nat, l: nat)
    ensures l == k ==> Shr(FlipBit(a, k), l) == Sibling(Shr(a, l))
    ensures l > k ==> Shr(FlipBit(a, k), l) == Shr(a, l)
    ensures l < k ==> Shr(FlipBit(a, k), l) % 2 == Shr(a, l) % 2
  {
    if l > 0 {
      if k == 0 {
        assert Sibling(a) / 2 == a / 2;
      } else {
        ShrFlip(a / 2, k - 1, l - 1);
      }
    }
  }

  lemma {:induction false} FlipBelow(a: nat, k: nat, n: nat)
    requires a < Pow2(n) && k < n
    ensures FlipBit(a, k) < Pow2(n)
  {
    if k > 0 {
      FlipBelow(a / 2, k - 1, n - 1);
    }
  }

  lemma SpaceIsPow2()
    ensures Pow2(ADDRESS_BITS) == ADDRESS_SPACE
  {
    assert Pow2(8) == 0x100;
    assert Pow2(16) == 0x1_0000;
    assert Pow2(24) == 0x100_0000;
  }

  /** The address obtained by flipping one of the 32 bits. */
  function FlippedAddress(a: Address, k: nat): Address
    requires k < ADDRESS_BITS
  {
    SpaceIsPow2();
    FlipBelow(a, k, ADDRESS_BITS);
    FlipBit(a, k)
  }

  // ----- exclusion -----

  /** The sibling of ip's own block at level k (prefix length 32 - k). */
  function SiblingBlock(ip: Address, k: nat): Prefix
    requires k < ADDRESS_BITS
  {
    Prefix(ClearLow(FlippedAddress(ip, k), k), ADDRESS_BITS - k)
  }

  /** The siblings at levels 0 to n - 1, smallest block first. */
  function Siblings(ip: Address, n: nat): (r: seq<Prefix>)
    requires n <= ADDRESS_BITS
  {
    seq(n, k requires 0 <= k < n => SiblingBlock(ip, k))
  }

  lemma SiblingContains(ip: Address, k: nat, a: Address)
    requires k < ADDRESS_BITS
    ensures SiblingBlock(ip, k).Canonical()
    ensures SiblingBlock(ip, k).Contains(a) <==> Shr(a, k) == Sibling(Shr(ip, k))
  {
    ShrClearLow(FlippedAddress(ip, k), k);
    ShrFlip(ip, k, k);
  }

  /** The blocks that cover a network except one of its addresses. */
  method ExcludeIPFromCIDR(net: Prefix, ip: Address) returns (out: seq<Prefix>)
    ensures out == if net.Contains(ip) then Siblings(ip, ADDRESS_BITS - net.len) else []
  {
    if !net.Contains(ip) {
      return [];
    }
    out := [];
    var plen := ADDRESS_BITS;
    while plen > net.len
      invariant net.len <= plen <= ADDRESS_BITS
      invariant out == Siblings(ip, ADDRESS_BITS - plen)
    {
      var host := ADDRESS_BITS - plen;
      var sib := FlippedAddress(ip, host);
      out := out + [Prefix(ClearLow(sib, host), plen)];
      plen := plen - 1;
    }
  }

  /** Some block of the set contains the address. */
  ghost predicate Covered(blocks: set<Prefix>, a: Address) {
    exists b <- blocks :: b.Contains(a)
  }

  /** The blocks of a list, without their order. */
  function Blocks(out: seq<Prefix>): set<Prefix> {
    set b <- out
  }

  /** Some level below n separates two addresses that agree from level n on. */
  lemma {:induction false} SeparatingLevel(a: nat, ip: nat, n: nat) returns (k: nat)
    requires Shr(a, n) == Shr(ip, n) && a != ip
    ensures k < n && Shr(a, k) == Sibling(Shr(ip, k))
  {
    assert n > 0;
    ShrStep(a, n - 1);
    ShrStep(ip, n - 1);
    if Shr(a, n - 1) == Shr(ip, n - 1) {
      k := SeparatingLevel(a, ip, n - 1);
    } else {
      k := n - 1;
    }
  }

  /** Above the level that separates two addresses they agree. */
  lemma AgreeAboveSeparation(a: nat, ip: nat, j: nat, k: nat)
    requires Shr(a, j) == Sibling(Shr(ip, j)) && j < k
    ensures Shr(a, k) == Shr(ip, k)
  {
    ShrStep(a, j);
    ShrStep(ip, j);
    ShrMono(a, ip, j + 1, k);
  }

  /** At most one level separates two addresses. */
  lemma SeparatingLevelUnique(a: nat, ip: nat, j: nat, k: nat)
    requires Shr(a, j) == Sibling(Shr(ip, j)) && Shr(a, k) == Sibling(Shr(ip, k))
    ensures j == k
  {
    if j < k {
      AgreeAboveSeparation(a, ip, j, k);
    } else if k < j {
      AgreeAboveSeparation(a, ip, k, j);
    }
  }

  lemma ExclusionCovers(net: Prefix, ip: Address, a: Address)
    requires net.Contains(ip)
    ensures Covered(Blocks(Siblings(ip, ADDRESS_BITS - net.len)), a) <==> net.Contains(a) && a != ip
  {
    var n := ADDRESS_BITS - net.len;
    var out := Siblings(ip, n);
    if net.Contains(a) && a != ip {
      var k := SeparatingLevel(a, ip, n);
      SiblingContains(ip, k, a);
      assert out[k] in Blocks(out);
    }
    if Covered(Blocks(out), a) {
      var b :| b in Blocks(out) && b.Contains(a);
      var k :| 0 <= k < |out| && out[k] == b;
      SiblingContains(ip, k, a);
      AgreeAboveSeparation(a, ip, k, n);
    }
  }

  /** Exclusion is an exact partition: canonical, pairwise disjoint, and covering the network minus one address. */
  lemma ExclusionIsExactPartition(net: Prefix, ip: Address)
    requires net.Contains(ip)
    ensures var out := Siblings(ip, ADDRESS_BITS - net.len);
            && (forall b <- out :: b.Canonical() && b.len > net.len)
            && (forall a: Address :: Covered(Blocks(out), a) <==> net.Contains(a) && a != ip)
            && (forall i, j, a: Address :: 0 <= i < j < |out| ==> !(out[i].Contains(a) && out[j].Contains(a)))
  {
    var out := Siblings(ip, ADDRESS_BITS - net.len);
    forall i | 0 <= i < |out| ensures out[i].Canonical() {
      SiblingContains(ip, i, ip);
    }
    forall a: Address ensures Covered(Blocks(out), a) <==> net.Contains(a) && a != ip {
      ExclusionCovers(net, ip, a);
    }
    forall i, j, a: Address | 0 <= i < j < |out| ensures !(out[i].Contains(a) && out[j].Contains(a)) {
      SiblingContains(ip, i, a);
      SiblingContains(ip, j, a);
      if out[i].Contains(a) && out[j].Contains(a) {
        SeparatingLevelUnique(a, ip, i, j);
      }
    }
  }

  // ----- minimality -----

  /** No block that avoids ip holds two of the addresses that differ from ip in one bit. */
  lemma OneFlipPerBlock(b: Prefix, ip: Address, j: nat, k: nat)
    requires !b.Contains(ip)
    requires j < k < ADDRESS_BITS
    ensures !(b.Contains(FlippedAddress(ip, j)) && b.Contains(FlippedAddress(ip, k)))
  {
    var l := ADDRESS_BITS - b.len;
    var fj, fk := FlippedAddress(ip, j), FlippedAddress(ip, k);
    if b.Contains(fj) && b.Contains(fk) {
      ShrFlip(ip, j, l);
      assert l <= j;
      ShrMono(fj, fk, l, j);
      ShrFlip(ip, j, j);
      ShrFlip(ip, k, j);
    }
  }

  /** The flips below level n need n different blocks when every block avoids ip. */
  lemma {:induction false} FlipsNeedBlocks(blocks: set<Prefix>, ip: Address, n: nat)
    requires n <= ADDRESS_BITS
    requires forall b <- blocks :: !b.Contains(ip)
    requires forall k :: 0 <= k < n ==> Covered(blocks, FlippedAddress(ip, k))
    ensures |blocks| >= n
  {
    if n > 0 {
      assert Covered(blocks, FlippedAddress(ip, n - 1));
      var b :| b in blocks && b.Contains(FlippedAddress(ip, n - 1));
      forall k | 0 <= k < n - 1 ensures Covered(blocks - {b}, FlippedAddress(ip, k)) {
        var c :| c in blocks && c.Contains(FlippedAddress(ip, k));
        OneFlipPerBlock(b, ip, k, n - 1);
        assert c in blocks - {b};
      }
      FlipsNeedBlocks(blocks - {b}, ip, n - 1);
    }
  }

  /** Minimality: no smaller set of CIDR blocks has the same union. */
  lemma ExclusionIsMinimal(net: Prefix, ip: Address, blocks: set<Prefix>)
    requires net.Contains(ip)
    requires forall a: Address :: Covered(blocks, a) <==> net.Contains(a) && a != ip
    ensures |blocks| >= |Siblings(ip, ADDRESS_BITS - net.len)|
  {
    var n := ADDRESS_BITS - net.len;
    forall k | 0 <= k < n ensures Covered(blocks, FlippedAddress(ip, k)) {
      var f := FlippedAddress(ip, k);
      ShrFlip(ip, k, n);
      ShrFlip(ip, k, k);
      assert f != ip;
      assert net.Contains(f);
    }
    FlipsNeedBlocks(blocks, ip, n);
  }

  // ----- facts used by the allowlist -----

  /** A canonical prefix is the range of 2^(32 - len) addresses that starts at its address. */
  lemma ContainsIsRange(p: Prefix, a: Address)
    requires p.Canonical()
    ensures p.Contains(a) <==> p.addr <= a < p.addr + Pow2(ADDRESS_BITS - p.len)
  {
    ShrEqualIsRange(a, p.addr, ADDRESS_BITS - p.len);
  }

  lemma {:induction false} ShrEqualIsRange(a: nat, b: nat, k: nat)
    requires ClearLow(b, k) == b
    ensures Shr(a, k) == Shr(b, k) <==> b <= a < b + Pow2(k)
  {
    if k > 0 {
      ShrEqualIsRange(a / 2, b / 2, k - 1);
    }
  }

  /** Two canonical prefixes of one length that share an address are the same prefix. */
  lemma SameLengthSameBlock(p: Prefix, q: Prefix, a: Address)
    requires p.Canonical() && q.Canonical() && p.len == q.len && p.Contains(a) && q.Contains(a)
    ensures p == q
  {
    ClearLowByShr(p.addr, q.addr, ADDRESS_BITS - p.len);
  }
}
