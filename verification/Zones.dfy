/** Zone placement of a tenant: recomputing which nodes are assigned and which are asked to configure it. */
module Zones {

  datatype NodeInfo = NodeInfo(name: string, nodeIP: string, tenantCIDR: string, vtepIP: string, vtepMAC: string)

  /** A NodeStore: the node name of its spec and its object name. */
  datatype Store = Store(specName: string, name: string)

  // ----- what recompute computes -----

  function Names(infos: seq<NodeInfo>): set<string> {
    set i | 0 <= i < |infos| :: infos[i].name
  }

  /** Node identities: empty names do not identify a node. */
  function Ids(infos: seq<NodeInfo>): set<string> {
    Names(infos) - {""}
  }

  function Elements(s: seq<string>): set<string> {
    set x | x in s
  }

  function Without(s: seq<string>, drop: set<string>): seq<string> {
    if s == [] then []
    else Without(s[..|s| - 1], drop) + if s[|s| - 1] in drop then [] else [s[|s| - 1]]
  }

  function StoreId(ns: Store): string {
    if ns.specName == "" then ns.name else ns.specName
  }

  /** The identities of the stores that have one. */
  function Candidates(stores: seq<Store>): seq<string> {
    if stores == [] then []
    else
      var id := StoreId(stores[|stores| - 1]);
      Candidates(stores[..|stores| - 1]) + if id == "" then [] else [id]
  }

  /** The string order of the sort. */
  predicate Leq(a: string, b: string) {
    a == "" || (b != "" && (a[0] < b[0] || (a[0] == b[0] && Leq(a[1..], b[1..]))))
  }

  function Insert(x: string, s: seq<string>): seq<string> {
    if s == [] then [x] else if Leq(x, s[0]) then [x] + s else [s[0]] + Insert(x, s[1..])
  }

  function Sort(s: seq<string>): seq<string> {
    if s == [] then [] else Insert(s[|s| - 1], Sort(s[..|s| - 1]))
  }

  /** The first n candidates that are neither used nor repeated. */
  function TakeNew(candidates: seq<string>, used: set<string>, n: nat): seq<string> {
    if n == 0 || candidates == [] then []
    else if candidates[0] in used then TakeNew(candidates[1..], used, n)
    else [candidates[0]] + TakeNew(candidates[1..], used + {candidates[0]}, n - 1)
  }

  function Max(a: int, b: int): int {
    if a >= b then a else b
  }

  function Min(a: int, b: int): int {
    if a <= b then a else b
  }

  datatype Placement = Placement(awaiting: seq<string>, assignedNodes: seq<NodeInfo>)

  /** The placement after a recomputation for the wanted number of zones. */
  function Recompute(zones: int, p: Placement, stores: seq<Store>): Placement {
    var awaiting := Without(p.awaiting, Ids(p.assignedNodes));
    var delta := Max(zones, 0) - (|p.assignedNodes| + |awaiting|);
    if delta > 0 then
      p.(awaiting := awaiting + TakeNew(Sort(Candidates(stores)), Ids(p.assignedNodes) + Elements(awaiting), delta))
    else if -delta >= |p.assignedNodes| then Placement(awaiting, [])
    else Placement(awaiting, p.assignedNodes[..|p.assignedNodes| + delta])
  }

  // ----- lists -----

  lemma {:induction false} WithoutMember(s: seq<string>, drop: set<string>, x: string)
    ensures x in Without(s, drop) <==> x in s && x !in drop
  {
    if s != [] {
      WithoutMember(s[..|s| - 1], drop, x);
      assert s == s[..|s| - 1] + [s[|s| - 1]];
    }
  }

  lemma {:induction false} WithoutNothing(s: seq<string>, drop: set<string>)
    requires forall x :: x in s ==> x !in drop
    ensures Without(s, drop) == s
  {
    if s != [] {
      WithoutNothing(s[..|s| - 1], drop);
      assert s == s[..|s| - 1] + [s[|s| - 1]];
    }
  }

  predicate Distinct(s: seq<string>) {
    forall i, j :: 0 <= i < j < |s| ==> s[i] != s[j]
  }

  lemma {:induction false} TakeNewProps(candidates: seq<string>, used: set<string>, n: nat)
    ensures var r := TakeNew(candidates, used, n);
      && |r| <= n && Distinct(r)
      && (forall x :: x in r ==> x in candidates && x !in used)
      && (|r| < n ==> forall x :: x in candidates ==> x in used || x in r)
    decreases |candidates|
  {
    if n > 0 && candidates != [] {
      var c := candidates[0];
      assert candidates == [c] + candidates[1..];
      if c in used {
        TakeNewProps(candidates[1..], used, n);
      } else {
        TakeNewProps(candidates[1..], used + {c}, n - 1);
      }
    }
  }

  lemma {:induction false} InsertMember(x: string, s: seq<string>, y: string)
    ensures y in Insert(x, s) <==> y == x || y in s
    ensures |Insert(x, s)| == |s| + 1
  {
    if s != [] && !Leq(x, s[0]) {
      InsertMember(x, s[1..], y);
      assert s == [s[0]] + s[1..];
    }
  }

  lemma {:induction false} SortMember(s: seq<string>, y: string)
    ensures y in Sort(s) <==> y in s
    ensures |Sort(s)| == |s|
  {
    if s != [] {
      SortMember(s[..|s| - 1], y);
      InsertMember(s[|s| - 1], Sort(s[..|s| - 1]), y);
      assert s == s[..|s| - 1] + [s[|s| - 1]];
    }
  }

  lemma {:induction false} LeqTotal(a: string, b: string)
    ensures Leq(a, b) || Leq(b, a)
  {
    if a != "" && b != "" && a[0] == b[0] {
      LeqTotal(a[1..], b[1..]);
    }
  }

  lemma {:induction false} LeqTransitive(a: string, b: string, c: string)
    requires Leq(a, b) && Leq(b, c)
    ensures Leq(a, c)
  {
    if a != "" && a[0] == b[0] && b[0] == c[0] {
      LeqTransitive(a[1..], b[1..], c[1..]);
    }
  }

  predicate Ascending(s: seq<string>) {
    forall i, j :: 0 <= i < j < |s| ==> Leq(s[i], s[j])
  }

  lemma {:induction false} InsertAscending(x: string, s: seq<string>)
    requires Ascending(s)
    ensures Ascending(Insert(x, s))
  {
    if s != [] {
      LeqTotal(x, s[0]);
      if Leq(x, s[0]) {
        forall j | 0 <= j < |s|
          ensures Leq(x, s[j])
        {
          if j > 0 {
            LeqTransitive(x, s[0], s[j]);
          }
        }
      } else {
        InsertAscending(x, s[1..]);
        var r := Insert(x, s[1..]);
        forall j | 0 <= j < |r|
          ensures Leq(s[0], r[j])
        {
          InsertMember(x, s[1..], r[j]);
          var k :| r[j] == x || (0 <= k < |s| - 1 && r[j] == s[1..][k]);
        }
      }
    }
  }

  lemma {:induction false} SortAscending(s: seq<string>)
    ensures Ascending(Sort(s))
  {
    if s != [] {
      SortAscending(s[..|s| - 1]);
      InsertAscending(s[|s| - 1], Sort(s[..|s| - 1]));
    }
  }

  /** From an ascending list the chosen candidates come first: whatever is left unused is larger. */
  lemma {:induction false} TakeNewSmallest(candidates: seq<string>, used: set<string>, n: nat, x: string, y: string)
    requires Ascending(candidates)
    requires x in TakeNew(candidates, used, n)
    requires y in candidates && y !in used && y !in TakeNew(candidates, used, n)
    ensures Leq(x, y)
    decreases |candidates|
  {
    var c, rest := candidates[0], candidates[1..];
    assert candidates == [c] + rest;
    if c in used {
      TakeNewSmallest(rest, used, n, x, y);
    } else {
      assert y in rest;
      var j :| 0 <= j < |rest| && rest[j] == y;
      assert Leq(c, candidates[j + 1]);
      if x != c {
        TakeNewSmallest(rest, used + {c}, n - 1, x, y);
      }
    }
  }

  // ----- properties of recompute -----

  /** Awaiting loses only nodes that are already assigned, and gains only unused store identities. */
  lemma AwaitingKept(zones: int, p: Placement, stores: seq<Store>)
    ensures
      var q, kept := Recompute(zones, p, stores), Without(p.awaiting, Ids(p.assignedNodes));
      && kept <= q.awaiting
      && (forall x :: x in p.awaiting && x !in Ids(p.assignedNodes) ==> x in q.awaiting)
      && (forall x :: x in q.awaiting ==> x !in Ids(p.assignedNodes))
      && (forall x :: x in q.awaiting && x !in p.awaiting ==> x in Candidates(stores))
      && q.assignedNodes <= p.assignedNodes
  {
    var kept := Without(p.awaiting, Ids(p.assignedNodes));
    var q := Recompute(zones, p, stores);
    var delta := Max(zones, 0) - (|p.assignedNodes| + |kept|);
    var used := Ids(p.assignedNodes) + Elements(kept);
    forall x
      ensures x in kept <==> x in p.awaiting && x !in Ids(p.assignedNodes)
      ensures x in Sort(Candidates(stores)) <==> x in Candidates(stores)
    {
      WithoutMember(p.awaiting, Ids(p.assignedNodes), x);
      SortMember(Candidates(stores), x);
    }
    if delta > 0 {
      TakeNewProps(Sort(Candidates(stores)), used, delta);
    }
  }

  lemma {:induction false} TakeNewCount(candidates: seq<string>, used: set<string>, n: nat)
    ensures |TakeNew(candidates, used, n)| == Min(n, |Elements(candidates) - used|)
    decreases |candidates|
  {
    if candidates == [] {
      assert Elements(candidates) - used == {};
    } else if n > 0 {
      var c, rest := candidates[0], candidates[1..];
      ElementsCons(candidates);
      if c in used {
        TakeNewCount(rest, used, n);
        assert Elements(candidates) - used == Elements(rest) - used;
      } else {
        TakeNewCount(rest, used + {c}, n - 1);
        OneMore(Elements(candidates), Elements(rest), c, used);
      }
    }
  }

  lemma ElementsCons(s: seq<string>)
    requires s != []
    ensures Elements(s) == {s[0]} + Elements(s[1..])
  {
    assert s == [s[0]] + s[1..];
  }

  lemma OneMore(all: set<string>, rest: set<string>, c: string, used: set<string>)
    requires all == {c} + rest && c !in used
    ensures |all - used| == 1 + |rest - (used + {c})|
  {
    assert all - used == {c} + (rest - (used + {c}));
  }

  /** How many nodes a recomputation places, from what is known before it: kept awaiting nodes are never trimmed,
      assigned ones are trimmed down to the zones, and a shortage is made up from unused identities as far as they
      go. */
  function PlacedTotal(zones: int, p: Placement, stores: seq<Store>): nat {
    var kept := Without(p.awaiting, Ids(p.assignedNodes));
    var unused := Elements(Candidates(stores)) - Ids(p.assignedNodes) - Elements(kept);
    var have, z := |p.assignedNodes| + |kept|, Max(zones, 0);
    if |kept| >= z then |kept| else if have >= z then z else Min(z, have + |unused|)
  }

  lemma AddedCount(stores: seq<Store>, assignedIds: set<string>, kept: set<string>, n: nat)
    ensures |TakeNew(Sort(Candidates(stores)), assignedIds + kept, n)| ==
      Min(n, |Elements(Candidates(stores)) - assignedIds - kept|)
  {
    TakeNewCount(Sort(Candidates(stores)), assignedIds + kept, n);
    forall x
      ensures x in Sort(Candidates(stores)) <==> x in Candidates(stores)
    {
      SortMember(Candidates(stores), x);
    }
    assert Elements(Sort(Candidates(stores))) - (assignedIds + kept) == Elements(Candidates(stores)) - assignedIds - kept;
  }

  /** The exact number of placed nodes, from what is known before the call. */
  lemma PlacedCount(zones: int, p: Placement, stores: seq<Store>)
    ensures
      var q := Recompute(zones, p, stores);
      |q.assignedNodes| + |q.awaiting| == PlacedTotal(zones, p, stores)
  {
    var kept := Without(p.awaiting, Ids(p.assignedNodes));
    var delta := Max(zones, 0) - (|p.assignedNodes| + |kept|);
    if delta > 0 {
      AddedCount(stores, Ids(p.assignedNodes), Elements(kept), delta);
    }
  }

  /** The zones are met if and only if the kept awaiting nodes do not exceed them and kept, assigned and unused nodes
      together reach them. */
  lemma ZonesMet(zones: int, p: Placement, stores: seq<Store>)
    ensures
      var q, kept, z := Recompute(zones, p, stores), Without(p.awaiting, Ids(p.assignedNodes)), Max(zones, 0);
      var unused := Elements(Candidates(stores)) - Ids(p.assignedNodes) - Elements(kept);
      |q.assignedNodes| + |q.awaiting| == z <==> |kept| <= z <= |p.assignedNodes| + |kept| + |unused|
  {
    PlacedCount(zones, p, stores);
  }

  /** Fewer placed nodes than zones: every usable store is placed. More: nothing stays assigned. */
  lemma PlacedBounds(zones: int, p: Placement, stores: seq<Store>)
    ensures
      var q, kept, z := Recompute(zones, p, stores), Without(p.awaiting, Ids(p.assignedNodes)), Max(zones, 0);
      var total := |q.assignedNodes| + |q.awaiting|;
      && (|kept| <= z ==> total <= z)
      && (total < z ==> q.assignedNodes == p.assignedNodes &&
                        forall x :: x in Candidates(stores) ==> x in Ids(p.assignedNodes) || x in q.awaiting)
      && (|kept| > z ==> q.assignedNodes == [] && q.awaiting == kept)
  {
    var kept := Without(p.awaiting, Ids(p.assignedNodes));
    var delta := Max(zones, 0) - (|p.assignedNodes| + |kept|);
    var used := Ids(p.assignedNodes) + Elements(kept);
    if delta > 0 {
      TakeNewProps(Sort(Candidates(stores)), used, delta);
      forall x | x in Candidates(stores)
        ensures x in Sort(Candidates(stores))
      {
        SortMember(Candidates(stores), x);
      }
    }
  }

  /** The nodes added are the smallest unused identities in string order. */
  lemma AddedAreSmallest(zones: int, p: Placement, stores: seq<Store>, x: string, y: string)
    requires
      var q := Recompute(zones, p, stores);
      && x in q.awaiting && x !in p.awaiting
      && y in Candidates(stores) && y !in Ids(p.assignedNodes) && y !in q.awaiting
    ensures Leq(x, y)
  {
    var kept := Without(p.awaiting, Ids(p.assignedNodes));
    WithoutMember(p.awaiting, Ids(p.assignedNodes), x);
    var delta := Max(zones, 0) - (|p.assignedNodes| + |kept|);
    SortAscending(Candidates(stores));
    SortMember(Candidates(stores), y);
    TakeNewSmallest(Sort(Candidates(stores)), Ids(p.assignedNodes) + Elements(kept), delta, x, y);
  }

  /** A placement that recompute leaves alone. */
  lemma Settled(zones: int, q: Placement, stores: seq<Store>)
    requires forall x :: x in q.awaiting ==> x !in Ids(q.assignedNodes)
    requires
      var total, z := |q.assignedNodes| + |q.awaiting|, Max(zones, 0);
      && (total < z ==> forall x :: x in Candidates(stores) ==> x in Ids(q.assignedNodes) || x in q.awaiting)
      && (total > z ==> q.assignedNodes == [])
    ensures Recompute(zones, q, stores) == q
  {
    WithoutNothing(q.awaiting, Ids(q.assignedNodes));
    var delta := Max(zones, 0) - (|q.assignedNodes| + |q.awaiting|);
    if delta > 0 {
      NothingNew(stores, Ids(q.assignedNodes) + Elements(q.awaiting), delta);
    }
  }

  /** Recomputing again on the same stores changes nothing. */
  lemma Idempotent(zones: int, p: Placement, stores: seq<Store>)
    ensures Recompute(zones, Recompute(zones, p, stores), stores) == Recompute(zones, p, stores)
  {
    var q := Recompute(zones, p, stores);
    AwaitingKept(zones, p, stores);
    PlacedBounds(zones, p, stores);
    PrefixIds(q.assignedNodes, p.assignedNodes);
    Settled(zones, q, stores);
  }

  lemma PrefixIds(a: seq<NodeInfo>, b: seq<NodeInfo>)
    requires a <= b
    ensures Ids(a) <= Ids(b)
  {
  }

  lemma NothingNew(stores: seq<Store>, used: set<string>, n: nat)
    requires forall x :: x in Candidates(stores) ==> x in used
    ensures TakeNew(Sort(Candidates(stores)), used, n) == []
  {
    TakeNewProps(Sort(Candidates(stores)), used, n);
    var r := TakeNew(Sort(Candidates(stores)), used, n);
    if r != [] {
      SortMember(Candidates(stores), r[0]);
    }
  }

  // ----- the code -----

  /** The last entry of a with a given name is y. */
  ghost predicate LastNamed(a: seq<NodeInfo>, y: NodeInfo) {
    exists i :: 0 <= i < |a| && a[i] == y && forall k :: i < k < |a| ==> a[k].name != y.name
  }

  /** equalNodeInfos: same length, and every entry of b is what a last says under its name. */
  method EqualNodeInfos(a: seq<NodeInfo>, b: seq<NodeInfo>) returns (eq: bool)
    ensures eq <==> |a| == |b| && forall j :: 0 <= j < |b| ==> LastNamed(a, b[j])
  {
    if |a| != |b| {
      return false;
    }
    var m: map<string, NodeInfo> := map[];
    for i := 0 to |a|
      invariant forall n :: n in m ==> m[n].name == n && LastNamed(a[..i], m[n])
      invariant forall k :: 0 <= k < i ==> a[k].name in m
    {
      LastNamedStep(a, i, m);
      m := m[a[i].name := a[i]];
    }
    assert a[..|a|] == a;
    for j := 0 to |b|
      invariant forall k :: 0 <= k < j ==> LastNamed(a, b[k])
    {
      if b[j].name !in m || m[b[j].name] != b[j] {
        NotLastNamed(a, b[j], m);
        return false;
      }
    }
    return true;
  }

  lemma LastNamedStep(a: seq<NodeInfo>, i: nat, m: map<string, NodeInfo>)
    requires i < |a| && forall n :: n in m ==> m[n].name == n && LastNamed(a[..i], m[n])
    ensures LastNamed(a[..i + 1], a[i])
    ensures forall n :: n in m && n != a[i].name ==> LastNamed(a[..i + 1], m[n])
  {
    assert a[..i + 1][i] == a[i];
    forall n | n in m && n != a[i].name
      ensures LastNamed(a[..i + 1], m[n])
    {
      var k :| 0 <= k < i && a[..i][k] == m[n] && forall l :: k < l < i ==> a[..i][l].name != m[n].name;
      assert a[..i + 1][k] == m[n];
      assert forall l :: k < l < i + 1 ==> a[..i + 1][l] == if l == i then a[i] else a[..i][l];
    }
  }

  lemma NotLastNamed(a: seq<NodeInfo>, y: NodeInfo, m: map<string, NodeInfo>)
    requires forall n :: n in m ==> m[n].name == n && LastNamed(a, m[n])
    requires forall k :: 0 <= k < |a| ==> a[k].name in m
    requires y.name !in m || m[y.name] != y
    ensures !LastNamed(a, y)
  {
  }

  /** recomputeAwaitingAndAssignedForZones. */
  method RecomputeForZones(zones: int, p: Placement, stores: seq<Store>) returns (q: Placement, changed: bool)
    ensures q == Recompute(zones, p, stores)
    ensures changed <==> q.awaiting != p.awaiting
                         || |q.assignedNodes| != |p.assignedNodes|
                         || !forall j :: 0 <= j < |q.assignedNodes| ==> LastNamed(p.assignedNodes, q.assignedNodes[j])
  {
    var wanted := Max(zones, 0);
    var assignedIDs := CollectIds(p.assignedNodes);
    var awaiting := DropAssigned(p.awaiting, assignedIDs);
    var nodes := p.assignedNodes;
    var delta := wanted - (|nodes| + |awaiting|);
    if delta > 0 {
      var candidateIDs := CollectCandidates(stores);
      var more := Select(Sort(candidateIDs), assignedIDs + Elements(awaiting), delta);
      awaiting := awaiting + more;
    } else if delta < 0 {
      var remove := -delta;
      if remove >= |nodes| {
        nodes := [];
      } else if remove > 0 {
        nodes := nodes[..|nodes| - remove];
      }
    }
    q := Placement(awaiting, nodes);
    var same := EqualNodeInfos(p.assignedNodes, nodes);
    changed := awaiting != p.awaiting || !same;
  }

  method CollectIds(infos: seq<NodeInfo>) returns (ids: set<string>)
    ensures ids == Ids(infos)
  {
    ids := {};
    for i := 0 to |infos|
      invariant ids == Ids(infos[..i])
    {
      assert Names(infos[..i + 1]) == Names(infos[..i]) + {infos[i].name} by {
        assert forall k :: 0 <= k < i ==> infos[..i + 1][k] == infos[..i][k];
        assert infos[..i + 1][i] == infos[i];
      }
      if infos[i].name != "" {
        ids := ids + {infos[i].name};
      }
    }
    assert infos[..|infos|] == infos;
  }

  method DropAssigned(awaitingOrig: seq<string>, ids: set<string>) returns (awaiting: seq<string>)
    ensures awaiting == Without(awaitingOrig, ids)
  {
    awaiting := [];
    for i := 0 to |awaitingOrig|
      invariant awaiting == Without(awaitingOrig[..i], ids)
    {
      assert awaitingOrig[..i + 1][..i] == awaitingOrig[..i];
      if awaitingOrig[i] !in ids {
        awaiting := awaiting + [awaitingOrig[i]];
      }
    }
    assert awaitingOrig[..|awaitingOrig|] == awaitingOrig;
  }

  method CollectCandidates(stores: seq<Store>) returns (ids: seq<string>)
    ensures ids == Candidates(stores)
  {
    ids := [];
    for i := 0 to |stores|
      invariant ids == Candidates(stores[..i])
    {
      assert stores[..i + 1][..i] == stores[..i];
      var id := stores[i].specName;
      if id == "" {
        id := stores[i].name;
      }
      if id == "" {
        continue;
      }
      ids := ids + [id];
    }
    assert stores[..|stores|] == stores;
  }

  /** Appends unused candidates until delta of them were found. */
  method Select(candidateIDs: seq<string>, usedAtFirst: set<string>, wanted: nat) returns (more: seq<string>)
    ensures more == TakeNew(candidateIDs, usedAtFirst, wanted)
  {
    more := [];
    var used, delta := usedAtFirst, wanted;
    for i := 0 to |candidateIDs|
      invariant delta >= 0
      invariant more + TakeNew(candidateIDs[i..], used, delta) == TakeNew(candidateIDs, usedAtFirst, wanted)
    {
      if delta == 0 {
        break;
      }
      var id := candidateIDs[i];
      assert candidateIDs[i..][1..] == candidateIDs[i + 1..];
      if id in used {
        continue;
      }
      more := more + [id];
      used := used + {id};
      delta := delta - 1;
    }
  }

  /** An unchanged report means an unchanged placement; the converse holds exactly when entries of
      the same name agree, as they do when the names are distinct. */
  lemma ChangedIsExact(zones: int, p: Placement, stores: seq<Store>)
    ensures
      var q := Recompute(zones, p, stores);
      var same := q.awaiting == p.awaiting && |q.assignedNodes| == |p.assignedNodes|
                       && forall j :: 0 <= j < |q.assignedNodes| ==> LastNamed(p.assignedNodes, q.assignedNodes[j]);
      same <==> q == p && Consistent(p.assignedNodes)
  {
    AwaitingKept(zones, p, stores);
    AllLastNamed(p.assignedNodes);
  }

  lemma AllLastNamed(a: seq<NodeInfo>)
    ensures (forall j :: 0 <= j < |a| ==> LastNamed(a, a[j])) <==> Consistent(a)
  {
    if Consistent(a) {
      forall j | 0 <= j < |a|
        ensures LastNamed(a, a[j])
      {
        LastNamedExists(a, j);
      }
    }
  }

  /** Entries of the same name are equal. */
  predicate Consistent(a: seq<NodeInfo>) {
    forall i, j :: 0 <= i < j < |a| && a[i].name == a[j].name ==> a[i] == a[j]
  }

  lemma {:induction false} LastNamedExists(a: seq<NodeInfo>, j: nat)
    requires Consistent(a) && j < |a|
    ensures LastNamed(a, a[j])
    decreases |a| - j
  {
    if k :| j < k < |a| && a[k].name == a[j].name {
      LastNamedExists(a, k);
    }
  }

  /** A failing input: two different entries of one name. The placement stays the same and a change is reported. */
  lemma ChangeReportedInVain()
    ensures
      var p := Conflicting();
      Recompute(2, p, []) == p && !LastNamed(p.assignedNodes, p.assignedNodes[0])
  {
    var p := Conflicting();
    assert p.assignedNodes[..2] == p.assignedNodes;
    assert Without(p.awaiting, Ids(p.assignedNodes)) == [];
    assert p.assignedNodes[0].nodeIP[7] != p.assignedNodes[1].nodeIP[7];
  }

  function Conflicting(): (p: Placement)
    ensures p.awaiting == [] && |p.assignedNodes| == 2
  {
    Placement([], [NodeInfo("n", "10.0.0.1", "", "", ""), NodeInfo("n", "10.0.0.2", "", "", "")])
  }

  /** The node identities of a list of stores: a store goes by the name in its spec, by its object name only if that is
      empty, and not at all if both are. */
  lemma {:induction false} CandidateMeaning(stores: seq<Store>, x: string)
    ensures x in Candidates(stores) <==>
      x != "" && exists i :: 0 <= i < |stores| && GoesBy(stores[i], x)
  {
    if stores != [] {
      var n := |stores| - 1;
      CandidateMeaning(stores[..n], x);
      if i :| 0 <= i < |stores| && GoesBy(stores[i], x) {
        assert i < n ==> stores[..n][i] == stores[i];
      }
      if i :| 0 <= i < n && GoesBy(stores[..n][i], x) {
        assert GoesBy(stores[i], x);
      }
    }
  }

  predicate GoesBy(ns: Store, x: string) {
    ns.specName == x || (ns.specName == "" && ns.name == x)
  }

  /** The order of the sort: a prefix comes first, else the first difference decides. */
  lemma {:induction false} LeqIsLexicographic(a: string, b: string)
    ensures Leq(a, b) <==> a <= b || exists k :: BelowAt(a, b, k)
    decreases |a|
  {
    forall k | BelowAt(a, b, k) && k > 0
      ensures a[0] == b[0] && BelowAt(a[1..], b[1..], k - 1)
    {
      assert a[0] == a[..k][0] && b[0] == b[..k][0];
      assert a[1..][..k - 1] == a[..k][1..] && b[1..][..k - 1] == b[..k][1..];
    }
    if a != "" && b != "" && a[0] == b[0] {
      var a1, b1 := a[1..], b[1..];
      LeqIsLexicographic(a1, b1);
      assert a == [a[0]] + a1 && b == [b[0]] + b1;
      if k :| BelowAt(a1, b1, k) {
        assert a[..k + 1] == [a[0]] + a1[..k] && b[..k + 1] == [b[0]] + b1[..k];
        assert BelowAt(a, b, k + 1);
      }
    } else if a != "" && b != "" && a[0] < b[0] {
      assert BelowAt(a, b, 0);
    }
  }

  /** a and b first differ at k, where a has the smaller character. */
  predicate BelowAt(a: string, b: string, k: int) {
    0 <= k < |a| && k < |b| && a[..k] == b[..k] && a[k] < b[k]
  }
}
