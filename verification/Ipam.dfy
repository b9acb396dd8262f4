/**
 The address allocator: one /24 of 10.200.0.0/16 per department, subnet 0 reserved
 (cmd/ghost-ctl/ipam.go).
 */
module Ipam {
  import opened Bytes
  import opened Options
  import P = Prefixes

  const MAX_SUBNETS: nat := 256

  /** A department row with its container address, if that parses as IPv4. */
  datatype Row = Row(dept: int, ip: Option<(Byte, Byte, Byte, Byte)>) {
    /** The subnet of a row that loading does not skip. */
    function Subnet(): Option<nat> {
      if ip.Some? && ip.value.0 == 10 && ip.value.1 == 200 then Some(ip.value.2) else None
    }
  }

  type Owners = map<int, nat>

  /** The rows that are not skipped, later ones first in effect. */
  function OwnersOf(rows: seq<Row>): Owners {
    if rows == [] then map[]
    else
      var before, row := OwnersOf(rows[..|rows| - 1]), rows[|rows| - 1];
      if row.Subnet().None? then before else before[row.dept := row.Subnet().value]
  }

  /** Some department owns the subnet. */
  ghost predicate Taken(owners: Owners, i: nat) {
    exists d :: d in owners && owners[d] == i
  }

  ghost predicate Injective(owners: Owners) {
    forall d <- owners, e <- owners :: owners[d] == owners[e] ==> d == e
  }

  /** Bit i is set exactly when i is 0 or the subnet of one department; nobody owns subnet 0. */
  ghost predicate Consistent(bits: seq<bool>, owners: Owners) {
    && |bits| == MAX_SUBNETS && Injective(owners)
    && (forall d <- owners :: 0 < owners[d] < MAX_SUBNETS)
    && forall i :: 0 <= i < MAX_SUBNETS ==> (bits[i] <==> i == 0 || Taken(owners, i))
  }

  /** Departments are keyed by their identifier in the database. */
  ghost predicate KeyedRows(rows: seq<Row>) {
    forall i, j :: 0 <= i < j < |rows| ==> rows[i].dept != rows[j].dept
  }

  /** Loaded rows are on distinct subnets other than 0. */
  ghost predicate DistinctSubnets(rows: seq<Row>) {
    && (forall i :: 0 <= i < |rows| ==> rows[i].Subnet() != Some(0))
    && forall i, j :: 0 <= i < j < |rows| && rows[i].Subnet().Some? ==> rows[i].Subnet() != rows[j].Subnet()
  }

  lemma {:induction false} OwnersAreRows(rows: seq<Row>, d: int)
    requires KeyedRows(rows)
    ensures d in OwnersOf(rows) <==> exists i :: 0 <= i < |rows| && rows[i].dept == d && rows[i].Subnet().Some?
    ensures forall i :: 0 <= i < |rows| && rows[i].dept == d && rows[i].Subnet().Some? ==>
              d in OwnersOf(rows) && OwnersOf(rows)[d] == rows[i].Subnet().value
  {
    if rows != [] {
      OwnersAreRows(rows[..|rows| - 1], d);
    }
  }

  /** Loading gives a consistent start exactly when the rows are on distinct subnets other than 0. */
  lemma LoadedIsConsistentIff(rows: seq<Row>, bits: seq<bool>)
    requires KeyedRows(rows) && |bits| == MAX_SUBNETS
    requires forall i :: 0 <= i < MAX_SUBNETS ==> (bits[i] <==> i == 0 || Taken(OwnersOf(rows), i))
    ensures Consistent(bits, OwnersOf(rows)) <==> DistinctSubnets(rows)
  {
    var owners := OwnersOf(rows);
    forall d ensures d in owners <==> exists i :: 0 <= i < |rows| && rows[i].dept == d && rows[i].Subnet().Some? {
      OwnersAreRows(rows, d);
    }
    forall i | 0 <= i < |rows| && rows[i].Subnet().Some?
      ensures rows[i].dept in owners && owners[rows[i].dept] == rows[i].Subnet().value
    {
      OwnersAreRows(rows, rows[i].dept);
    }
  }

  class Allocator {
    const bitmap: array<bool>
    var owned: Owners

    ghost predicate Valid()
      reads this, bitmap
    {
      Consistent(bitmap[..], owned)
    }

    /** NewIPAM with the rows the database returns. */
    constructor (rows: seq<Row>)
      ensures bitmap.Length == MAX_SUBNETS && fresh(bitmap) && owned == OwnersOf(rows)
      ensures KeyedRows(rows) ==> (Valid() <==> DistinctSubnets(rows))
    {
      bitmap := new bool[MAX_SUBNETS];
      owned := map[];
      new;
      forall i | 0 <= i < MAX_SUBNETS {
        bitmap[i] := i == 0;
      }
      for k := 0 to |rows|
        invariant owned == OwnersOf(rows[..k])
        invariant KeyedRows(rows) ==>
                    forall i :: 0 <= i < MAX_SUBNETS ==> (bitmap[i] <==> i == 0 || Taken(owned, i))
      {
        assert rows[..k + 1][..k] == rows[..k];
        var subnet := rows[k].Subnet();
        if subnet.Some? {
          if KeyedRows(rows) {
            OwnersAreRows(rows[..k], rows[k].dept);
          }
          if rows[k].dept !in owned {
            FreshOwner(owned, rows[k].dept, subnet.value);
          }
          bitmap[subnet.value] := true;
          owned := owned[rows[k].dept := subnet.value];
        }
      }
      assert rows[..|rows|] == rows;
      if KeyedRows(rows) {
        LoadedIsConsistentIff(rows, bitmap[..]);
      }
    }

    /** The lowest free subnet for a new department, its own for a known one, none when the pool is full. */
    method Allocate(dept: int) returns (r: Option<nat>)
      requires Valid()
      modifies this`owned, bitmap
      ensures Valid()
      ensures dept in old(owned) ==> owned == old(owned) && r == Some(old(owned)[dept])
      ensures dept !in old(owned) && r.Some? ==>
                && 0 < r.value < MAX_SUBNETS && owned == old(owned)[dept := r.value]
                && !Taken(old(owned), r.value)
                && forall i :: 0 < i < r.value ==> Taken(old(owned), i)
      ensures r.None? ==> owned == old(owned) && forall i :: 0 < i < MAX_SUBNETS ==> Taken(owned, i)
    {
      if dept in owned {
        return Some(owned[dept]);
      }
      var i := 1;
      while i < MAX_SUBNETS && bitmap[i]
        invariant 1 <= i <= MAX_SUBNETS
        invariant forall j :: 0 < j < i ==> bitmap[..][j]
      {
        i := i + 1;
      }
      if i == MAX_SUBNETS {
        return None;
      }
      assert !bitmap[..][i];
      FreshOwner(owned, dept, i);
      bitmap[i] := true;
      owned := owned[dept := i];
      return Some(i);
    }

    method Release(dept: int) returns (ok: bool)
      requires Valid()
      modifies this`owned, bitmap
      ensures Valid()
      ensures ok <==> dept in old(owned)
      ensures owned == old(owned) - {dept}
    {
      if dept !in owned {
        assert owned - {dept} == owned;
        return false;
      }
      GoneOwner(owned, dept);
      bitmap[owned[dept]] := false;
      owned := owned - {dept};
      return true;
    }

    /** Free and allocated subnets always make up the 255 of the pool. */
    method AvailableSubnets() returns (count: nat)
      requires Valid()
      ensures count + |owned| == MAX_SUBNETS - 1
    {
      count := 0;
      for i := 1 to MAX_SUBNETS
        invariant count + |UsedBelow(owned, i)| == i - 1
      {
        assert bitmap[..][i] <==> Taken(owned, i);
        OneMoreUsed(owned, i);
        if !bitmap[i] {
          count := count + 1;
        }
      }
      UsedAreOwners(bitmap[..], owned);
    }

    /** A container address is rejected outside the pool, and inside it exactly when its subnet is taken. */
    method ValidateNoConflict(ip: Option<(Byte, Byte, Byte, Byte)>) returns (ok: bool)
      requires Valid()
      ensures ok <==> var s := Row(0, ip).Subnet(); s.Some? && s.value != 0 && !Taken(owned, s.value)
    {
      var subnet := Row(0, ip).Subnet();
      if subnet.None? {
        return false;
      }
      assert bitmap[..][subnet.value] == bitmap[subnet.value];
      return !bitmap[subnet.value];
    }
  }

  lemma FreshOwner(owners: Owners, d: int, i: nat)
    requires d !in owners
    ensures forall v: nat :: Taken(owners[d := i], v) <==> Taken(owners, v) || v == i
  {
    forall v: nat ensures Taken(owners[d := i], v) <==> Taken(owners, v) || v == i {
      if Taken(owners, v) {
        var e :| e in owners && owners[e] == v;
        assert owners[d := i][e] == v;
      }
      assert owners[d := i][d] == i;
    }
  }

  lemma GoneOwner(owners: Owners, d: int)
    requires d in owners && Injective(owners)
    ensures Injective(owners - {d})
    ensures forall v: nat :: Taken(owners - {d}, v) <==> Taken(owners, v) && v != owners[d]
  {
    forall v: nat ensures Taken(owners - {d}, v) <==> Taken(owners, v) && v != owners[d] {
      if Taken(owners, v) && v != owners[d] {
        var e :| e in owners && owners[e] == v;
        assert (owners - {d})[e] == v;
      }
    }
  }

  ghost function UsedBelow(owners: Owners, n: nat): set<nat> {
    set i: nat | i < n && Taken(owners, i) && i > 0
  }

  lemma OneMoreUsed(owners: Owners, i: nat)
    requires i > 0
    ensures |UsedBelow(owners, i + 1)| == |UsedBelow(owners, i)| + if Taken(owners, i) then 1 else 0
  {
    var used := UsedBelow(owners, i);
    assert UsedBelow(owners, i + 1) == if Taken(owners, i) then used + {i} else used;
  }

  lemma UsedAreOwners(bits: seq<bool>, owners: Owners)
    requires Consistent(bits, owners)
    ensures |UsedBelow(owners, MAX_SUBNETS)| == |owners|
  {
    UsedCount(owners);
  }

  lemma {:induction false} UsedCount(owners: Owners)
    requires Injective(owners) && forall d <- owners :: 0 < owners[d] < MAX_SUBNETS
    ensures |UsedBelow(owners, MAX_SUBNETS)| == |owners|
    decreases |owners|
  {
    if owners == map[] {
      assert UsedBelow(owners, MAX_SUBNETS) == {};
    } else {
      var item :| item in owners.Items;
      var d, rest := item.0, owners - {item.0};
      GoneOwner(owners, d);
      assert owners[d] == item.1 && Taken(owners, owners[d]);
      assert UsedBelow(owners, MAX_SUBNETS) == UsedBelow(rest, MAX_SUBNETS) + {owners[d]};
      assert rest.Keys == owners.Keys - {d};
      UsedCount(rest);
    }
  }

  // ----- the addresses of a subnet -----

  /** 10.200.i.0/24 */
  function SubnetPrefix(i: Byte): P.Prefix {
    P.Prefix(0x0AC8_0000 + 256 * i, 24)
  }

  function Shl(a: nat, k: nat): nat {
    if k == 0 then a else 2 * Shl(a, k - 1)
  }

  lemma {:induction false} ClearLowShl(a: nat, k: nat)
    ensures P.ClearLow(Shl(a, k), k) == Shl(a, k)
  {
    if k > 0 {
      ClearLowShl(a, k - 1);
    }
  }

  lemma ShlEight(a: nat)
    ensures Shl(a, 8) == 256 * a
  {
    assert Shl(a, 1) == 2 * Shl(a, 0);
    assert Shl(a, 2) == 2 * Shl(a, 1);
    assert Shl(a, 3) == 2 * Shl(a, 2);
    assert Shl(a, 4) == 2 * Shl(a, 3);
    assert Shl(a, 5) == 2 * Shl(a, 4);
    assert Shl(a, 6) == 2 * Shl(a, 5);
    assert Shl(a, 7) == 2 * Shl(a, 6);
    assert Shl(a, 8) == 2 * Shl(a, 7);
  }

  /** The subnet is exactly its 256 addresses. */
  lemma SubnetIsRange(i: Byte, a: P.Address)
    ensures SubnetPrefix(i).Canonical()
    ensures SubnetPrefix(i).Contains(a) <==> 0x0AC8_0000 + 256 * i <= a < 0x0AC8_0000 + 256 * i + 256
  {
    ClearLowShl(0x0A_C800 + i, 8);
    ShlEight(0x0A_C800 + i);
    P.ContainsIsRange(SubnetPrefix(i), a);
    assert P.Pow2(4) == 16;
    assert P.Pow2(8) == 256;
  }

  /** Distinct departments have disjoint subnets. */
  lemma DepartmentsAreDisjoint(bits: seq<bool>, owners: Owners, d: int, e: int, a: P.Address)
    requires Consistent(bits, owners) && d in owners && e in owners && d != e
    ensures !(SubnetPrefix(owners[d]).Contains(a) && SubnetPrefix(owners[e]).Contains(a))
  {
    SubnetIsRange(owners[d], a);
    SubnetIsRange(owners[e], a);
  }

  type Quad = (Byte, Byte, Byte, Byte)

  function AddressOf(ip: Quad): P.Address {
    0x100_0000 * ip.0 + 0x1_0000 * ip.1 + 0x100 * ip.2 + ip.3
  }

  /** A row belongs to the subnet its container address lies in, and to none outside the pool. */
  lemma RowLiesInItsSubnet(row: Row, s: Byte)
    requires row.ip.Some?
    ensures row.Subnet() == Some(s) <==> SubnetPrefix(s).Contains(AddressOf(row.ip.value))
  {
    SubnetIsRange(s, AddressOf(row.ip.value));
  }

  /** The container address of a subnet. */
  function ContainerIp(s: Byte): Quad {
    (10, 200, s, 2)
  }

  /** Loading the rows that the allocations were stored as gives back the allocations. */
  lemma ReloadRestores(rows: seq<Row>, owners: Owners)
    requires KeyedRows(rows) && forall d <- owners :: owners[d] < MAX_SUBNETS
    requires forall i :: 0 <= i < |rows| ==>
               rows[i].dept in owners && rows[i].ip == Some(ContainerIp(owners[rows[i].dept]))
    requires forall d <- owners :: exists i :: 0 <= i < |rows| && rows[i].dept == d
    ensures OwnersOf(rows) == owners
  {
    forall d ensures d in OwnersOf(rows) <==> d in owners {
      OwnersAreRows(rows, d);
    }
    forall d <- owners ensures OwnersOf(rows)[d] == owners[d] {
      var i :| 0 <= i < |rows| && rows[i].dept == d;
      OwnersAreRows(rows, d);
      assert rows[i].Subnet() == Some(owners[d]);
    }
  }
}
