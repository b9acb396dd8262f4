/**
 The department hierarchy: a forest of departments that grows by registration, and the four-tier access
 rules over it (hierarchy/rbac.go). Tiers are unrestricted integers; staff to root are 0 to 3.
 */
module Hierarchy {

  const STAFF: int := 0
  const MANAGER: int := 1
  const DIRECTOR: int := 2
  const ROOT: int := 3

  /** What a department stores about its place in the hierarchy. */
  datatype Node = Node(tier: int, parent: int, children: seq<int>)

  type Graph = map<int, Node>

  ghost predicate Distinct(s: seq<int>) {
    forall i, j :: 0 <= i < j < |s| ==> s[i] != s[j]
  }

  ghost predicate ChildOf(g: Graph, c: int, p: int) {
    p in g && c in g[p].children
  }

  /** Parents and child lists mirror each other, and every child has a strictly lower tier than its parent. */
  ghost predicate Forest(g: Graph) {
    && (forall p, c :: ChildOf(g, c, p) ==> c in g && g[c].parent == p && g[c].tier < g[p].tier)
    && (forall p <- g :: Distinct(g[p].children) && g[p].tier <= ROOT)
    && (forall c <- g :: g[c].tier != ROOT ==> ChildOf(g, c, g[c].parent))
    && (forall c <- g :: g[c].tier == ROOT ==> g[c].parent == -1)
  }

  // ----- registration -----

  predicate Registrable(g: Graph, id: int, tier: int, parent: int) {
    id !in g && (tier == ROOT || (parent in g && g[parent].tier > tier))
  }

  /** The parent's child list with one more entry. */
  function Linked(g: Graph, id: int, tier: int, parent: int): Graph
    requires Registrable(g, id, tier, parent)
  {
    if tier == ROOT then g else g[parent := g[parent].(children := g[parent].children + [id])]
  }

  function Registered(g: Graph, id: int, tier: int, parent: int): Graph
    requires Registrable(g, id, tier, parent)
  {
    Linked(g, id, tier, parent)[id := Node(tier, if tier == ROOT then -1 else parent, [])]
  }

  lemma RegisteredChildren(g: Graph, id: int, tier: int, parent: int, c: int, p: int)
    requires Registrable(g, id, tier, parent)
    ensures ChildOf(Registered(g, id, tier, parent), c, p) <==> ChildOf(g, c, p) || (tier != ROOT && c == id && p == parent)
  {
  }

  lemma RegisteredMirrors(g: Graph, id: int, tier: int, parent: int)
    requires Forest(g) && Registrable(g, id, tier, parent)
    ensures var g' := Registered(g, id, tier, parent);
            forall c <- g' :: g'[c].tier != ROOT ==> ChildOf(g', c, g'[c].parent)
  {
    var g' := Registered(g, id, tier, parent);
    forall c <- g' | g'[c].tier != ROOT ensures ChildOf(g', c, g'[c].parent) {
      RegisteredChildren(g, id, tier, parent, c, g'[c].parent);
      assert c != id ==> ChildOf(g, c, g[c].parent);
    }
  }

  lemma RegisteredDistinct(g: Graph, id: int, tier: int, parent: int)
    requires Forest(g) && Registrable(g, id, tier, parent)
    ensures var g' := Registered(g, id, tier, parent);
            forall p <- g' :: Distinct(g'[p].children) && g'[p].tier <= ROOT
  {
    if tier != ROOT {
      assert !ChildOf(g, id, parent);
    }
  }

  /** Registration keeps the forest. */
  lemma RegisteredIsForest(g: Graph, id: int, tier: int, parent: int)
    requires Forest(g) && Registrable(g, id, tier, parent)
    ensures Forest(Registered(g, id, tier, parent))
  {
    var g' := Registered(g, id, tier, parent);
    RegisteredMirrors(g, id, tier, parent);
    RegisteredDistinct(g, id, tier, parent);
    forall c, p | ChildOf(g', c, p) ensures c in g' && g'[c].parent == p && g'[c].tier < g'[p].tier {
      RegisteredChildren(g, id, tier, parent, c, p);
    }
  }

  /** The graph with the department added under the parent, allowed or not. */
  function Added(g: Graph, id: int, tier: int, parent: int): Graph {
    var linked := if tier != ROOT && parent in g then g[parent := g[parent].(children := g[parent].children + [id])] else g;
    linked[id := Node(tier, if tier == ROOT then -1 else parent, [])]
  }

  /** Registration refuses exactly what would not be a forest. */
  lemma RegistrableIff(g: Graph, id: int, tier: int, parent: int)
    requires Forest(g) && id !in g
    ensures Registrable(g, id, tier, parent) <==> Forest(Added(g, id, tier, parent))
  {
    var g' := Added(g, id, tier, parent);
    if Registrable(g, id, tier, parent) {
      RegisteredIsForest(g, id, tier, parent);
      assert g' == Registered(g, id, tier, parent);
    } else if parent in g {
      assert ChildOf(g', id, parent);
    } else {
      assert g'[id].tier != ROOT && g'[id].parent == parent && !ChildOf(g', id, parent);
    }
  }

  /** When deriving the key fails the child is already linked; a forest survives that only for a root. */
  lemma LinkedIsForestIff(g: Graph, id: int, tier: int, parent: int)
    requires Forest(g) && Registrable(g, id, tier, parent)
    ensures Forest(Linked(g, id, tier, parent)) <==> tier == ROOT
  {
    if tier != ROOT {
      assert ChildOf(Linked(g, id, tier, parent), id, parent);
    }
  }

  // ----- descendants -----

  /** Each department of the path is followed by one of its children. */
  ghost predicate IsPath(g: Graph, path: seq<int>) {
    forall i {:trigger path[i]} :: 0 <= i < |path| - 1 ==> ChildOf(g, path[i + 1], path[i])
  }

  ghost predicate PathBetween(g: Graph, path: seq<int>, a: int, x: int) {
    |path| >= 2 && path[0] == a && path[|path| - 1] == x && IsPath(g, path)
  }

  /** The transitive closure of the child relation. */
  ghost predicate Descends(g: Graph, x: int, a: int) {
    exists path :: PathBetween(g, path, a, x)
  }

  lemma ChildDescends(g: Graph, c: int, p: int)
    requires ChildOf(g, c, p)
    ensures Descends(g, c, p)
  {
    assert PathBetween(g, [p, c], p, c);
  }

  lemma DescendsTrans(g: Graph, x: int, y: int, a: int)
    requires Descends(g, x, y) && Descends(g, y, a)
    ensures Descends(g, x, a)
  {
    var lower :| PathBetween(g, lower, y, x);
    var upper :| PathBetween(g, upper, a, y);
    var path := upper + lower[1..];
    forall i {:trigger path[i]} | 0 <= i < |path| - 1 ensures ChildOf(g, path[i + 1], path[i]) {
      if i < |upper| - 1 {
        assert path[i] == upper[i] && path[i + 1] == upper[i + 1];
      } else {
        var j := i - (|upper| - 1);
        assert path[i] == lower[j] && path[i + 1] == lower[j + 1];
      }
    }
    assert PathBetween(g, path, a, x);
  }

  /** The recursion of isSubordinateOf: a descendant is a child, or a descendant of a child. */
  lemma DescendsByChild(g: Graph, x: int, a: int)
    ensures Descends(g, x, a) <==> exists c :: ChildOf(g, c, a) && (c == x || Descends(g, x, c))
  {
    if Descends(g, x, a) {
      var path :| PathBetween(g, path, a, x);
      assert ChildOf(g, path[0 + 1], path[0]);
      if |path| > 2 {
        var tail := path[1..];
        forall i {:trigger tail[i]} | 0 <= i < |tail| - 1 ensures ChildOf(g, tail[i + 1], tail[i]) {
          assert tail[i] == path[i + 1] && tail[i + 1] == path[i + 2];
        }
        assert PathBetween(g, tail, path[1], x);
      }
    }
    if c :| ChildOf(g, c, a) && (c == x || Descends(g, x, c)) {
      ChildDescends(g, c, a);
      if c != x {
        DescendsTrans(g, x, c, a);
      }
    }
  }

  /** Seen from below: the parent of a descendant is the ancestor itself or one of its descendants. */
  lemma DescendsByParent(g: Graph, x: int, a: int)
    requires Forest(g) && Descends(g, x, a)
    ensures x in g && ChildOf(g, x, g[x].parent) && (g[x].parent == a || Descends(g, g[x].parent, a))
  {
    var path :| PathBetween(g, path, a, x);
    var n := |path|;
    assert path[n - 2] == path[n - 2] && ChildOf(g, path[n - 2 + 1], path[n - 2]);
    if n > 2 {
      var front := path[..n - 1];
      forall i {:trigger front[i]} | 0 <= i < |front| - 1 ensures ChildOf(g, front[i + 1], front[i]) {
        assert front[i] == path[i] && front[i + 1] == path[i + 1];
      }
      assert PathBetween(g, front, a, path[n - 2]);
    }
  }

  /** Departments of a higher tier: what shrinks on the way up. */
  ghost function Above(g: Graph, x: int): set<int>
    requires x in g
  {
    set y <- g | g[y].tier > g[x].tier
  }

  /** Departments of a lower tier: what shrinks on the way down, and bounds every recursion below. */
  ghost function Below(g: Graph, a: int): set<int> {
    if a in g then set y <- g | g[y].tier < g[a].tier else {}
  }

  lemma BelowShrinks(g: Graph, c: int, p: int)
    requires Forest(g) && ChildOf(g, c, p)
    ensures Below(g, c) < Below(g, p)
  {
    assert c in Below(g, p) && c !in Below(g, c);
  }

  lemma {:induction false} DescendantIsLower(g: Graph, x: int, a: int)
    requires Forest(g) && Descends(g, x, a)
    ensures x in g && a in g && g[x].tier < g[a].tier
    decreases if x in g then Above(g, x) else {}
  {
    DescendsByParent(g, x, a);
    var p := g[x].parent;
    if p != a {
      assert p in Above(g, x) && p !in Above(g, p);
      DescendantIsLower(g, p, a);
    }
  }

  /** The graph is a forest: two siblings share no descendant, and neither descends from the other. */
  lemma {:induction false} SubtreesAreDisjoint(g: Graph, x: int, c: int, d: int, p: int)
    requires Forest(g) && ChildOf(g, c, p) && ChildOf(g, d, p)
    requires (x == c || Descends(g, x, c)) && (x == d || Descends(g, x, d))
    ensures c == d
    decreases if x in g then Above(g, x) else {}
  {
    if x == c && x != d {
      DescendsByParent(g, x, d);
      if p != d {
        DescendantIsLower(g, p, d);
      }
    } else if x == d && x != c {
      DescendsByParent(g, x, c);
      if p != c {
        DescendantIsLower(g, p, c);
      }
    } else if x != c {
      DescendsByParent(g, x, c);
      DescendsByParent(g, x, d);
      var q := g[x].parent;
      assert q in Above(g, x) && q !in Above(g, q);
      SubtreesAreDisjoint(g, q, c, d, p);
    }
  }

  // ----- listing -----

  /** The subordinates of a department, each child followed by its own. */
  ghost function Collect(g: Graph, p: int): seq<int>
    requires Forest(g)
    decreases Below(g, p), 1, 0
  {
    if p in g then CollectFrom(g, p, 0) else []
  }

  /** The same for the children from position i on. */
  ghost function CollectFrom(g: Graph, p: int, i: nat): seq<int>
    requires Forest(g) && p in g && i <= |g[p].children|
    decreases Below(g, p), 0, |g[p].children| - i
  {
    if i == |g[p].children| then []
    else
      var c := g[p].children[i];
      assert ChildOf(g, c, p);
      BelowShrinks(g, c, p);
      [c] + Collect(g, c) + CollectFrom(g, p, i + 1)
  }

  lemma CollectUnfolds(g: Graph, p: int)
    requires Forest(g)
    ensures Collect(g, p) == if p in g then CollectFrom(g, p, 0) else []
    ensures p in g ==> CollectFrom(g, p, |g[p].children|) == []
  {
  }

  lemma CollectFromUnfolds(g: Graph, p: int, i: nat)
    requires Forest(g) && p in g && i < |g[p].children|
    ensures var c := g[p].children[i];
            ChildOf(g, c, p) && CollectFrom(g, p, i) == [c] + Collect(g, c) + CollectFrom(g, p, i + 1)
  {
  }

  /** Some child of p from position i on is x or an ancestor of x. */
  ghost predicate UnderFrom(g: Graph, x: int, p: int, i: nat)
    requires p in g
  {
    exists j :: i <= j < |g[p].children| && (g[p].children[j] == x || Descends(g, x, g[p].children[j]))
  }

  lemma {:induction false} CollectFromMembers(g: Graph, p: int, i: nat, x: int)
    requires Forest(g) && p in g && i <= |g[p].children|
    ensures x in CollectFrom(g, p, i) <==> UnderFrom(g, x, p, i)
    decreases Below(g, p), 0, |g[p].children| - i
  {
    hide Forest, Below, Collect, CollectFrom, Descends, UnderFrom;
    CollectUnfolds(g, p);
    UnderFromUnfolds(g, x, p, i);
    if i < |g[p].children| {
      var c := g[p].children[i];
      CollectFromUnfolds(g, p, i);
      BelowShrinks(g, c, p);
      CollectMembers(g, c, x);
      CollectFromMembers(g, p, i + 1, x);
    }
  }

  lemma UnderFromUnfolds(g: Graph, x: int, p: int, i: nat)
    requires p in g && i <= |g[p].children|
    ensures UnderFrom(g, x, p, i) <==>
            i < |g[p].children| && (g[p].children[i] == x || Descends(g, x, g[p].children[i]) || UnderFrom(g, x, p, i + 1))
  {
    hide Descends;
  }

  /** A department descends from p iff it is under one of p's children. */
  lemma DescendsIsUnder(g: Graph, x: int, p: int)
    requires Forest(g)
    ensures Descends(g, x, p) <==> p in g && UnderFrom(g, x, p, 0)
  {
    DescendsByChild(g, x, p);
    hide Descends;
    if p in g {
      if c :| ChildOf(g, c, p) && (c == x || Descends(g, x, c)) {
        var j :| 0 <= j < |g[p].children| && g[p].children[j] == c;
      }
      if UnderFrom(g, x, p, 0) {
        var j :| 0 <= j < |g[p].children| && (g[p].children[j] == x || Descends(g, x, g[p].children[j]));
        assert ChildOf(g, g[p].children[j], p);
      }
    }
  }

  lemma NoneUnder(g: Graph, x: int, p: int)
    requires p in g
    ensures !UnderFrom(g, x, p, |g[p].children|)
  {
  }

  /** Listing finds exactly the descendants. */
  lemma {:induction false} CollectMembers(g: Graph, p: int, x: int)
    requires Forest(g)
    ensures x in Collect(g, p) <==> Descends(g, x, p)
    decreases Below(g, p), 1, 0
  {
    DescendsIsUnder(g, x, p);
    if p in g {
      CollectFromMembers(g, p, 0, x);
    }
  }

  lemma DistinctConcat(s: seq<int>, t: seq<int>)
    requires Distinct(s) && Distinct(t) && forall x <- s :: x !in t
    ensures Distinct(s + t)
  {
    forall i, j | 0 <= i < j < |s + t| ensures (s + t)[i] != (s + t)[j] {
      if i < |s| <= j {
        assert s[i] in s && t[j - |s|] in t;
      }
    }
  }

  /** Listing names no department twice. */
  lemma {:induction false} CollectIsDistinct(g: Graph, p: int)
    requires Forest(g)
    ensures Distinct(Collect(g, p))
    decreases Below(g, p), 1, 0
  {
    if p in g {
      CollectFromIsDistinct(g, p, 0);
    }
  }

  lemma {:induction false} CollectFromIsDistinct(g: Graph, p: int, i: nat)
    requires Forest(g) && p in g && i <= |g[p].children|
    ensures Distinct(CollectFrom(g, p, i))
    decreases Below(g, p), 0, |g[p].children| - i
  {
    if i < |g[p].children| {
      var c := g[p].children[i];
      assert ChildOf(g, c, p);
      BelowShrinks(g, c, p);
      CollectIsDistinct(g, c);
      CollectFromIsDistinct(g, p, i + 1);
      CollectMembers(g, c, c);
      if Descends(g, c, c) {
        DescendantIsLower(g, c, c);
      }
      DistinctConcat([c], Collect(g, c));
      forall x <- [c] + Collect(g, c) ensures x !in CollectFrom(g, p, i + 1) {
        CollectMembers(g, c, x);
        CollectFromMembers(g, p, i + 1, x);
        if UnderFrom(g, x, p, i + 1) {
          var j :| i + 1 <= j < |g[p].children| && (g[p].children[j] == x || Descends(g, x, g[p].children[j]));
          assert ChildOf(g, g[p].children[j], p);
          SubtreesAreDisjoint(g, x, c, g[p].children[j], p);
        }
      }
      DistinctConcat([c] + Collect(g, c), CollectFrom(g, p, i + 1));
    }
  }

  // ----- access -----

  datatype Decision = RequesterUnknown | TargetUnknown | TierUnknown | Allowed | Denied

  /** What CanAccess answers. */
  ghost function Access(g: Graph, r: int, t: int): Decision {
    if r !in g then RequesterUnknown
    else if t !in g then TargetUnknown
    else if r == t then Allowed
    else if g[r].tier == ROOT then Allowed
    else if g[r].tier == DIRECTOR then (if Descends(g, t, r) then Allowed else Denied)
    else if g[r].tier == MANAGER then (if ChildOf(g, t, r) then Allowed else Denied)
    else if g[r].tier == STAFF then Denied
    else TierUnknown
  }

  /** What ListVisible lists, without its order. */
  ghost function Visible(g: Graph, r: int): iset<int>
    requires r in g
  {
    if g[r].tier == ROOT then iset t | t in g
    else if g[r].tier == DIRECTOR then iset t | t == r || Descends(g, t, r)
    else if g[r].tier == MANAGER then iset t | t == r || ChildOf(g, t, r)
    else if g[r].tier == STAFF then iset{r}
    else iset{}
  }

  /** Access and listing agree for a requester exactly when its tier is one of the four. */
  lemma AccessMatchesListingIff(g: Graph, r: int)
    requires Forest(g) && r in g
    ensures (forall t <- g :: Access(g, r, t) == Allowed <==> t in Visible(g, r)) <==> g[r].tier >= STAFF
    ensures forall t <- Visible(g, r) :: t in g
  {
    forall t | Descends(g, t, r) ensures t in g {
      DescendantIsLower(g, t, r);
    }
    assert Access(g, r, r) == Allowed;
  }

  /**
   What each tier reaches beyond itself: root everything, a director exactly its descendants, a manager
   exactly its children, staff nothing; and only root reaches anything that is not below it.
   */
  lemma AccessByTier(g: Graph, r: int, t: int)
    requires Forest(g) && r in g && t in g && r != t
    ensures g[r].tier == 3 ==> Access(g, r, t) == Allowed
    ensures g[r].tier == 2 ==> (Access(g, r, t) == Allowed <==> Descends(g, t, r))
    ensures g[r].tier == 1 ==> (Access(g, r, t) == Allowed <==> g[t].parent == r && g[t].tier < 1)
    ensures g[r].tier == 0 ==> Access(g, r, t) == Denied
    ensures g[r].tier < 0 ==> Access(g, r, t) == TierUnknown
    ensures Access(g, r, t) == Allowed && g[r].tier < 3 ==> Descends(g, t, r) && g[t].tier < g[r].tier
  {
    if ChildOf(g, t, r) {
      ChildDescends(g, t, r);
    }
    if Descends(g, t, r) {
      DescendantIsLower(g, t, r);
    }
    hide Descends;
  }

  /** A department below the staff tier may access itself but does not see itself. */
  lemma UnknownTierSeesNothing()
    ensures var g := map[0 := Node(ROOT, -1, [7]), 7 := Node(-1, 0, [])];
            Forest(g) && Access(g, 7, 7) == Allowed && 7 !in Visible(g, 7)
  {
    var g := map[0 := Node(ROOT, -1, [7]), 7 := Node(-1, 0, [])];
    assert ChildOf(g, 7, 0);
  }

  /** Access is reflexive and transitive, although each tier has its own rule. */
  lemma AccessIsTransitive(g: Graph, r: int, s: int, t: int)
    requires Forest(g) && Access(g, r, s) == Allowed && Access(g, s, t) == Allowed
    ensures Access(g, r, t) == Allowed
    ensures forall d <- g :: Access(g, d, d) == Allowed
  {
    if r != s && s != t && g[r].tier != ROOT {
      if g[r].tier == DIRECTOR {
        DescendantIsLower(g, s, r);
        assert g[s].tier == MANAGER;
        ChildDescends(g, t, s);
        DescendsTrans(g, t, s, r);
      } else {
        assert g[s].tier < MANAGER;
      }
    }
  }

  // ----- the tree object -----

  class Department {
    const id: int
    const tier: int
    const parentId: int
    var children: seq<int>

    constructor (id: int, tier: int, parentId: int)
      ensures this.id == id && this.tier == tier && this.parentId == parentId && children == []
    {
      this.id, this.tier, this.parentId, children := id, tier, parentId, [];
    }
  }

  class HierarchyTree {
    var departments: map<int, Department>

    /** The links of all registered departments. */
    ghost function View(): Graph
      reads this, departments.Values
    {
      map d <- departments :: Node(departments[d].tier, departments[d].parentId, departments[d].children)
    }

    lemma KeysOfView()
      ensures View().Keys == departments.Keys && forall d <- departments :: View()[d].tier == departments[d].tier
    {
    }

    ghost predicate Valid()
      reads this, departments.Values
    {
      && (forall d <- departments :: departments[d].id == d)
      && Forest(View())
    }

    constructor ()
      ensures Valid() && View() == map[]
    {
      departments := map[];
      new;
      assert View() == map[];
    }

    method AppendChild(p: int, c: int)
      requires p in departments && forall d <- departments :: departments[d].id == d
      modifies departments[p]
      ensures departments == old(departments)
      ensures View() == old(View())[p := old(View())[p].(children := old(View())[p].children + [c])]
    {
      var parent := departments[p];
      assert forall d <- departments :: d != p ==> departments[d] != parent;
      parent.children := parent.children + [c];
    }

    method AddDepartment(id: int, tier: int, parentId: int) returns (dept: Department)
      requires id !in departments
      modifies this
      ensures fresh(dept) && dept.id == id && departments == old(departments)[id := dept]
      ensures View() == old(View())[id := Node(tier, parentId, [])]
    {
      dept := new Department(id, tier, parentId);
      departments := departments[id := dept];
    }

    /** `derived` says whether the isolation key could be derived; the child is linked before that is known. */
    method RegisterDepartment(id: int, tier: int, parentId: int, derived: bool) returns (dept: Department?)
      requires Valid()
      modifies this, departments.Values
      ensures !Registrable(old(View()), id, tier, parentId) ==> dept == null && View() == old(View())
      ensures Registrable(old(View()), id, tier, parentId) && derived ==>
                dept != null && fresh(dept) && departments == old(departments)[id := dept]
                && View() == Registered(old(View()), id, tier, parentId)
      ensures Registrable(old(View()), id, tier, parentId) && !derived ==>
                dept == null && View() == Linked(old(View()), id, tier, parentId)
      ensures Valid() <==> (derived || tier == ROOT || !Registrable(old(View()), id, tier, parentId))
    {
      ghost var g := View();
      if Registrable(g, id, tier, parentId) {
        RegisteredIsForest(g, id, tier, parentId);
        LinkedIsForestIff(g, id, tier, parentId);
      }
      hide Forest, View;
      KeysOfView();
      if id in departments {
        return null;
      }
      var parent := if tier == ROOT then -1 else parentId;
      if tier != ROOT {
        if parentId !in departments || departments[parentId].tier <= tier {
          return null;
        }
        AppendChild(parentId, id);
      }
      assert View() == Linked(g, id, tier, parentId);
      if !derived {
        return null;
      }
      dept := AddDepartment(id, tier, parent);
    }

    method IsSubordinateOf(targetId: int, ancestorId: int) returns (r: bool)
      requires Valid()
      ensures r <==> Descends(View(), targetId, ancestorId)
      decreases Below(View(), ancestorId)
    {
      hide Forest, Below, Descends, UnderFrom;
      ghost var g := View();
      DescendsIsUnder(g, targetId, ancestorId);
      if ancestorId !in departments {
        return false;
      }
      var children := departments[ancestorId].children;
      assert children == g[ancestorId].children;
      NoneUnder(g, targetId, ancestorId);
      for i := 0 to |children|
        invariant UnderFrom(g, targetId, ancestorId, 0) <==> UnderFrom(g, targetId, ancestorId, i)
      {
        UnderFromUnfolds(g, targetId, ancestorId, i);
        if children[i] == targetId {
          return true;
        }
        BelowShrinks(g, children[i], ancestorId);
        var below := IsSubordinateOf(targetId, children[i]);
        if below {
          return true;
        }
      }
      return false;
    }

    method CanAccess(requesterId: int, targetId: int) returns (d: Decision)
      requires Valid()
      ensures d == Access(View(), requesterId, targetId)
    {
      if requesterId !in departments {
        return RequesterUnknown;
      }
      if targetId !in departments {
        return TargetUnknown;
      }
      if requesterId == targetId {
        return Allowed;
      }
      var requester := departments[requesterId];
      match requester.tier {
        case 3 => return Allowed;
        case 2 =>
          var below := IsSubordinateOf(targetId, requesterId);
          return if below then Allowed else Denied;
        case 1 =>
          for i := 0 to |requester.children|
            invariant targetId !in requester.children[..i]
          {
            if requester.children[i] == targetId {
              return Allowed;
            }
          }
          assert requester.children[..|requester.children|] == requester.children;
          return Denied;
        case 0 => return Denied;
        case _ => return TierUnknown;
      }
    }

    method CollectSubordinates(parentId: int, result: seq<int>) returns (r: seq<int>)
      requires Valid()
      ensures r == result + Collect(View(), parentId)
      decreases Below(View(), parentId)
    {
      hide Forest, Below, Collect, CollectFrom;
      ghost var g := View();
      CollectUnfolds(g, parentId);
      if parentId !in departments {
        return result;
      }
      r := result;
      var children := departments[parentId].children;
      for i := 0 to |children|
        invariant r + CollectFrom(g, parentId, i) == result + CollectFrom(g, parentId, 0)
      {
        CollectFromUnfolds(g, parentId, i);
        BelowShrinks(g, children[i], parentId);
        r := CollectSubordinates(children[i], r + [children[i]]);
      }
    }

    /** Ranging over the map, in any order. */
    method AllIds() returns (ids: seq<int>)
      ensures Distinct(ids) && forall t :: t in ids <==> t in departments
    {
      ids := [];
      var todo := departments.Items;
      while todo != {}
        invariant todo <= departments.Items && Distinct(ids)
        invariant forall t :: t in ids <==> t in departments && (t, departments[t]) !in todo
      {
        var item :| item in todo;
        todo := todo - {item};
        DistinctConcat(ids, [item.0]);
        ids := ids + [item.0];
      }
    }

    /** Every visible department once; the order is unspecified for a root. */
    method ListVisible(requesterId: int) returns (visible: seq<int>, known: bool)
      requires Valid()
      ensures known <==> requesterId in departments
      ensures known ==> Distinct(visible) && forall t :: t in visible <==> t in Visible(View(), requesterId)
    {
      ghost var g := View();
      if requesterId !in departments {
        return [], false;
      }
      var requester := departments[requesterId];
      visible := [];
      match requester.tier {
        case 3 =>
          visible := AllIds();
        case 2 =>
          visible := CollectSubordinates(requesterId, [requesterId]);
          SelfAndCollect(g, requesterId);
        case 1 =>
          SelfAndChildren(g, requesterId);
          visible := [requesterId] + requester.children;
        case 0 =>
          visible := [requesterId];
        case _ =>
      }
      return visible, true;
    }
  }

  lemma SelfAndCollect(g: Graph, r: int)
    requires Forest(g) && r in g
    ensures Distinct([r] + Collect(g, r)) && forall t :: t in [r] + Collect(g, r) <==> t == r || Descends(g, t, r)
  {
    CollectIsDistinct(g, r);
    forall t ensures t in Collect(g, r) <==> Descends(g, t, r) {
      CollectMembers(g, r, t);
    }
    if Descends(g, r, r) {
      DescendantIsLower(g, r, r);
    }
    DistinctConcat([r], Collect(g, r));
  }

  lemma SelfAndChildren(g: Graph, r: int)
    requires Forest(g) && r in g
    ensures Distinct([r] + g[r].children)
  {
    assert !ChildOf(g, r, r);
    DistinctConcat([r], g[r].children);
  }
}
