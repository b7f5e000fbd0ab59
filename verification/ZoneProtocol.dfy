/** The placement protocol: reconcilers with compare-and-swap writes and lagging NodeStore caches, and
    daemons that become hosts of the tenant when they are asked to. */
module ZoneProtocol {
  import opened Zones

  /** A reconcile that has read the tenant and the hosts in the cache, and has not written yet. */
  datatype Pending = Pending(version: nat, hosts: map<string, NodeInfo>)

  /** zones, status: the Tenant object, whose version counts its writes.
      stores, reports: the NodeStores and what they report about the tenant.
      cachedStores, cachedReports: the operator's cache of them.
      hosts: nodes that have configured the tenant. asked: history of nodes ever asked to. */
  datatype Cluster = Cluster(
    zones: nat,
    status: Placement,
    version: nat,
    stores: set<string>,
    hosts: set<string>,
    reports: set<string>,
    cachedStores: set<string>,
    cachedReports: map<string, NodeInfo>,
    pendings: seq<Pending>,
    asked: set<string>)

  ghost predicate Init(c: Cluster) {
    && c.status == Placement([], []) && c.stores == {} && c.hosts == {} && c.reports == {}
    && c.cachedStores == {} && c.cachedReports == map[] && c.pendings == [] && c.asked == {}
  }

  /** infos lists the reporting nodes of a cache, in any order. */
  ghost predicate ListsHosts(infos: seq<NodeInfo>, cache: map<string, NodeInfo>) {
    && (forall i :: 0 <= i < |infos| ==> infos[i].name in cache && cache[infos[i].name] == infos[i])
    && (forall n :: n in cache ==> n in Names(infos))
    && (forall i, j :: 0 <= i < j < |infos| ==> infos[i].name != infos[j].name)
  }

  /** ls lists the stores of a cache, in any order. */
  ghost predicate ListsStores(ls: seq<Store>, cache: set<string>) {
    Elements(Candidates(ls)) == cache && Distinct(Candidates(ls))
  }

  /** A status write that passed the version check. */
  function Write(c: Cluster, p: Placement): Cluster {
    c.(status := p, version := c.version + 1, asked := c.asked + Elements(p.awaiting))
  }

  // ----- steps -----

  ghost predicate GrowZones(c: Cluster, c': Cluster) {
    c'.zones >= c.zones && c' == c.(zones := c'.zones, version := c.version + 1)
  }

  ghost predicate AddStore(c: Cluster, n: string, c': Cluster) {
    n != "" && c' == c.(stores := c.stores + {n})
  }

  /** A daemon that saw its node awaiting, now or earlier, sets the tenant up. */
  ghost predicate BecomeHost(c: Cluster, n: string, c': Cluster) {
    n in c.asked && c' == c.(hosts := c.hosts + {n})
  }

  ghost predicate Report(c: Cluster, n: string, c': Cluster) {
    n in c.hosts && c' == c.(reports := c.reports + {n})
  }

  /** The cache catches up by any amount; reported values may be any past values. */
  ghost predicate Refresh(c: Cluster, c': Cluster) {
    && c.cachedStores <= c'.cachedStores <= c.stores
    && c.cachedReports.Keys <= c'.cachedReports.Keys <= c.reports
    && (forall n :: n in c'.cachedReports ==> c'.cachedReports[n].name == n)
    && c' == c.(cachedStores := c'.cachedStores, cachedReports := c'.cachedReports)
  }

  /** reconcileTenantAdd: seeds awaiting with the first stores, only while nothing is placed. */
  ghost predicate ReconcileAdd(c: Cluster, ls: seq<Store>, c': Cluster) {
    && ListsStores(ls, c.cachedStores) && c.status == Placement([], [])
    && var ids := Candidates(ls);
    && ids != [] && c' == Write(c, Placement(if |ids| <= c.zones then ids else ids[..c.zones], []))
  }

  /** reconcileTenantUpdate. */
  ghost predicate ReconcileTenant(c: Cluster, ls: seq<Store>, c': Cluster) {
    ListsStores(ls, c.cachedStores) && c' == Write(c, Recompute(c.zones, c.status, ls))
  }

  /** reconcileNodestoreUpdate reads the tenant and then the hosts in the cache. */
  ghost predicate BeginNodes(c: Cluster, c': Cluster) {
    c' == c.(pendings := c.pendings + [Pending(c.version, c.cachedReports)])
  }

  /** It lists the stores later and writes, if the tenant has not changed since. */
  ghost predicate FinishNodes(c: Cluster, k: nat, infos: seq<NodeInfo>, ls: seq<Store>, c': Cluster) {
    && k < |c.pendings| && c.pendings[k].version == c.version
    && ListsHosts(infos, c.pendings[k].hosts) && ListsStores(ls, c.cachedStores)
    && c' == Write(c, Recompute(c.zones, c.status.(assignedNodes := infos), ls))
  }

  ghost predicate Next(c: Cluster, c': Cluster) {
    || GrowZones(c, c') || Refresh(c, c') || BeginNodes(c, c')
    || (exists n :: AddStore(c, n, c') || BecomeHost(c, n, c') || Report(c, n, c'))
    || (exists ls :: ReconcileAdd(c, ls, c') || ReconcileTenant(c, ls, c'))
    || (exists k, infos, ls :: FinishNodes(c, k, infos, ls, c'))
  }

  // ----- the invariant -----

  /** Awaiting and assigned nodes are distinct, at most `zones` of them, and exactly the nodes ever asked. */
  ghost predicate PlacementOk(zones: nat, p: Placement, asked: set<string>) {
    && Distinct(p.awaiting)
    && (forall i, j :: 0 <= i < j < |p.assignedNodes| ==> p.assignedNodes[i].name != p.assignedNodes[j].name)
    && Elements(p.awaiting) !! Names(p.assignedNodes)
    && asked == Elements(p.awaiting) + Names(p.assignedNodes)
    && |p.awaiting| + |p.assignedNodes| <= zones
  }

  ghost predicate PendingOk(c: Cluster, w: Pending) {
    && w.version <= c.version
    && w.hosts.Keys <= c.cachedReports.Keys
    && (w.version == c.version ==> Names(c.status.assignedNodes) <= w.hosts.Keys)
  }

  ghost predicate Inv(c: Cluster) {
    && PlacementOk(c.zones, c.status, c.asked)
    && Names(c.status.assignedNodes) <= c.cachedReports.Keys <= c.reports <= c.hosts <= c.asked <= c.stores
    && c.cachedStores <= c.stores && "" !in c.stores
    && (forall n :: n in c.cachedReports ==> c.cachedReports[n].name == n)
    && (forall k :: 0 <= k < |c.pendings| ==> PendingOk(c, c.pendings[k]))
  }

  lemma {:induction false} DistinctSize(s: seq<string>)
    requires Distinct(s)
    ensures |Elements(s)| == |s|
  {
    if s != [] {
      var n := |s| - 1;
      DistinctSize(s[..n]);
      assert Elements(s) == Elements(s[..n]) + {s[n]} by {
        assert s == s[..n] + [s[n]];
      }
    }
  }

  lemma {:induction false} DistinctNamesSize(infos: seq<NodeInfo>)
    requires forall i, j :: 0 <= i < j < |infos| ==> infos[i].name != infos[j].name
    ensures |Names(infos)| == |infos|
  {
    if infos != [] {
      var n := |infos| - 1;
      var init := infos[..n];
      DistinctNamesSize(init);
      assert forall i :: 0 <= i < n ==> init[i] == infos[i];
      assert Names(infos) == Names(init) + {infos[n].name};
    }
  }

  lemma {:induction false} WithoutDistinct(s: seq<string>, drop: set<string>)
    requires Distinct(s)
    ensures Distinct(Without(s, drop))
  {
    if s != [] {
      var n := |s| - 1;
      WithoutDistinct(s[..n], drop);
      WithoutMember(s[..n], drop, s[n]);
    }
  }

  lemma WithoutElements(s: seq<string>, drop: set<string>)
    ensures Elements(Without(s, drop)) == Elements(s) - drop
  {
    forall x
      ensures x in Without(s, drop) <==> x in s && x !in drop
    {
      WithoutMember(s, drop, x);
    }
  }

  /** The nodes asked so far number the awaiting plus the assigned ones. */
  lemma AskedSize(zones: nat, p: Placement, asked: set<string>)
    requires PlacementOk(zones, p, asked)
    ensures |asked| == |p.awaiting| + |p.assignedNodes| <= zones
  {
    DistinctSize(p.awaiting);
    DistinctNamesSize(p.assignedNodes);
  }

  /** While there is room, recompute keeps the assigned nodes and asks only new stores. */
  lemma RecomputeOk(zones: nat, p: Placement, ls: seq<Store>)
    requires Distinct(p.awaiting) && "" !in Names(p.assignedNodes)
    requires forall i, j :: 0 <= i < j < |p.assignedNodes| ==> p.assignedNodes[i].name != p.assignedNodes[j].name
    requires |Elements(p.awaiting) + Names(p.assignedNodes)| <= zones
    ensures
      var q := Recompute(zones, p, ls);
      && q.assignedNodes == p.assignedNodes
      && PlacementOk(zones, q, Elements(p.awaiting) + Names(p.assignedNodes) + Elements(q.awaiting))
      && (forall x :: x in q.awaiting && x !in p.awaiting ==> x in Candidates(ls))
  {
    var kept := KeptFits(zones, p);
    var more := RecomputeForm(zones, p, ls, kept);
    JoinDistinct(kept, more);
    AwaitingKept(zones, p, ls);
  }

  lemma RecomputeForm(zones: nat, p: Placement, ls: seq<Store>, kept: seq<string>) returns (more: seq<string>)
    requires kept == Without(p.awaiting, Ids(p.assignedNodes)) && |kept| + |p.assignedNodes| <= zones
    ensures Recompute(zones, p, ls) == Placement(kept + more, p.assignedNodes)
    ensures |kept| + |more| + |p.assignedNodes| <= zones && Distinct(more)
    ensures forall x :: x in more ==> x !in Ids(p.assignedNodes) && x !in Elements(kept)
  {
    var n := zones - (|p.assignedNodes| + |kept|);
    var used := Ids(p.assignedNodes) + Elements(kept);
    more := TakeNew(Sort(Candidates(ls)), used, n);
    TakeNewProps(Sort(Candidates(ls)), used, n);
  }

  /** The awaiting nodes that are not assigned, with the assigned ones, fit in the zones. */
  lemma KeptFits(zones: nat, p: Placement) returns (kept: seq<string>)
    requires Distinct(p.awaiting) && "" !in Names(p.assignedNodes)
    requires forall i, j :: 0 <= i < j < |p.assignedNodes| ==> p.assignedNodes[i].name != p.assignedNodes[j].name
    requires |Elements(p.awaiting) + Names(p.assignedNodes)| <= zones
    ensures kept == Without(p.awaiting, Ids(p.assignedNodes)) && Ids(p.assignedNodes) == Names(p.assignedNodes)
    ensures Distinct(kept) && Elements(kept) == Elements(p.awaiting) - Names(p.assignedNodes)
    ensures |kept| + |p.assignedNodes| <= zones
  {
    var names := Names(p.assignedNodes);
    assert Ids(p.assignedNodes) == names;
    kept := Without(p.awaiting, names);
    WithoutDistinct(p.awaiting, names);
    WithoutElements(p.awaiting, names);
    DistinctSize(kept);
    DistinctNamesSize(p.assignedNodes);
    assert Elements(p.awaiting) + names == Elements(kept) + names;
  }

  lemma JoinDistinct(a: seq<string>, b: seq<string>)
    requires Distinct(a) && Distinct(b) && forall x :: x in b ==> x !in Elements(a)
    ensures Distinct(a + b) && Elements(a + b) == Elements(a) + Elements(b)
  {
    forall i, j | 0 <= i < j < |a + b|
      ensures (a + b)[i] != (a + b)[j]
    {
      if i < |a| <= j {
        assert a[i] in Elements(a) && b[j - |a|] in b;
      }
    }
  }

  // ----- every step keeps the invariant -----

  /** A write of a placement that accounts for all nodes asked keeps the invariant. */
  lemma WriteKeeps(c: Cluster, p: Placement)
    requires Inv(c) && PlacementOk(c.zones, p, c.asked + Elements(p.awaiting))
    requires Names(p.assignedNodes) <= c.cachedReports.Keys
    requires Elements(p.awaiting) <= c.stores
    ensures Inv(Write(c, p))
  {
    var c' := Write(c, p);
    forall k | 0 <= k < |c'.pendings|
      ensures PendingOk(c', c'.pendings[k])
    {
      assert PendingOk(c, c.pendings[k]);
    }
  }

  lemma NewIdsAreStores(c: Cluster, p: Placement, q: Placement, ls: seq<Store>)
    requires ListsStores(ls, c.cachedStores) && c.cachedStores <= c.stores && Elements(p.awaiting) <= c.stores
    requires forall x :: x in q.awaiting && x !in p.awaiting ==> x in Candidates(ls)
    ensures Elements(q.awaiting) <= c.stores
  {
    forall x | x in q.awaiting
      ensures x in c.stores
    {
      if x in p.awaiting {
        assert x in Elements(p.awaiting);
      } else {
        assert x in Elements(Candidates(ls));
      }
    }
  }

  lemma ReconcileTenantKeeps(c: Cluster, ls: seq<Store>, c': Cluster)
    requires Inv(c) && ReconcileTenant(c, ls, c')
    ensures Inv(c')
  {
    var q := Recompute(c.zones, c.status, ls);
    AskedSize(c.zones, c.status, c.asked);
    RecomputeOk(c.zones, c.status, ls);
    NewIdsAreStores(c, c.status, q, ls);
    WriteKeeps(c, q);
  }

  /** The hosts read by a reconcile that may still write, with the awaiting nodes, are all the nodes asked. */
  lemma PendingCovers(c: Cluster, k: nat, infos: seq<NodeInfo>)
    requires Inv(c) && k < |c.pendings| && c.pendings[k].version == c.version && ListsHosts(infos, c.pendings[k].hosts)
    ensures Names(infos) == c.pendings[k].hosts.Keys <= c.cachedReports.Keys
    ensures "" !in Names(infos) && Elements(c.status.awaiting) + Names(infos) == c.asked && |c.asked| <= c.zones
  {
    assert PendingOk(c, c.pendings[k]);
    assert Names(infos) == c.pendings[k].hosts.Keys;
    AskedSize(c.zones, c.status, c.asked);
  }

  lemma FinishNodesKeeps(c: Cluster, k: nat, infos: seq<NodeInfo>, ls: seq<Store>, c': Cluster)
    requires Inv(c) && FinishNodes(c, k, infos, ls, c')
    ensures Inv(c')
  {
    PendingCovers(c, k, infos);
    var p := c.status.(assignedNodes := infos);
    RecomputeOk(c.zones, p, ls);
    var q := Recompute(c.zones, p, ls);
    NewIdsAreStores(c, p, q, ls);
    WriteKeeps(c, q);
  }

  lemma ReconcileAddKeeps(c: Cluster, ls: seq<Store>, c': Cluster)
    requires Inv(c) && ReconcileAdd(c, ls, c')
    ensures Inv(c')
  {
    var ids := Candidates(ls);
    var seed := if |ids| <= c.zones then ids else ids[..c.zones];
    var p := Placement(seed, []);
    assert c.asked == {};
    NewIdsAreStores(c, c.status, p, ls);
    WriteKeeps(c, p);
  }

  lemma OtherStepsKeep(c: Cluster, n: string, c': Cluster)
    requires Inv(c)
    requires GrowZones(c, c') || Refresh(c, c') || BeginNodes(c, c') || AddStore(c, n, c') || BecomeHost(c, n, c') || Report(c, n, c')
    ensures Inv(c')
  {
    forall k | 0 <= k < |c'.pendings|
      ensures PendingOk(c', c'.pendings[k])
    {
      assert k < |c.pendings| ==> PendingOk(c, c.pendings[k]);
    }
  }

  lemma NextKeepsInv(c: Cluster, c': Cluster)
    requires Inv(c) && Next(c, c')
    ensures Inv(c')
  {
    if GrowZones(c, c') || Refresh(c, c') || BeginNodes(c, c') {
      OtherStepsKeep(c, "", c');
    } else if n :| AddStore(c, n, c') || BecomeHost(c, n, c') || Report(c, n, c') {
      OtherStepsKeep(c, n, c');
    } else if ls :| ReconcileAdd(c, ls, c') || ReconcileTenant(c, ls, c') {
      if ReconcileAdd(c, ls, c') {
        ReconcileAddKeeps(c, ls, c');
      } else {
        ReconcileTenantKeeps(c, ls, c');
      }
    } else {
      var k, infos, ls :| FinishNodes(c, k, infos, ls, c');
      FinishNodesKeeps(c, k, infos, ls, c');
    }
  }

  ghost predicate IsRun(cs: seq<Cluster>) {
    |cs| > 0 && Init(cs[0]) && forall i :: 0 <= i < |cs| - 1 ==> Next(cs[i], cs[i + 1])
  }

  lemma {:induction false} RunInv(cs: seq<Cluster>, i: nat)
    requires IsRun(cs) && i < |cs|
    ensures Inv(cs[i])
  {
    if i > 0 {
      RunInv(cs, i - 1);
      NextKeepsInv(cs[i - 1], cs[i]);
    }
  }

  /** In every run: awaiting and assigned are disjoint and without repetition, they cover all hosts,
      and at most `zones` nodes were ever asked to configure the tenant. */
  lemma PlacementSafe(cs: seq<Cluster>, i: nat)
    requires IsRun(cs) && i < |cs|
    ensures
      var c := cs[i];
      && Distinct(c.status.awaiting) && Elements(c.status.awaiting) !! Names(c.status.assignedNodes)
      && c.hosts <= Elements(c.status.awaiting) + Names(c.status.assignedNodes)
      && |c.asked| <= c.zones
  {
    RunInv(cs, i);
    AskedSize(cs[i].zones, cs[i].status, cs[i].asked);
  }

  // ----- what the reconcilers achieve -----

  /** The node store reconciler assigns exactly the hosts it read, with the values it read, and awaits none of them. */
  lemma FinishAssigns(c: Cluster, k: nat, infos: seq<NodeInfo>, ls: seq<Store>, c': Cluster)
    requires Inv(c) && FinishNodes(c, k, infos, ls, c')
    ensures
      var hosts, q := c.pendings[k].hosts, c'.status;
      && Names(q.assignedNodes) == hosts.Keys
      && (forall i :: 0 <= i < |q.assignedNodes| ==> q.assignedNodes[i] == hosts[q.assignedNodes[i].name])
      && (forall n :: n in hosts ==> n !in q.awaiting)
      && (forall n :: n in c.status.awaiting && n !in hosts ==> n in q.awaiting)
  {
    FinishNodesKeeps(c, k, infos, ls, c');
    PendingCovers(c, k, infos);
    var p := c.status.(assignedNodes := infos);
    RecomputeOk(c.zones, p, ls);
    AwaitingKept(c.zones, p, ls);
  }

  function Smaller(a: nat, b: nat): nat {
    if a <= b then a else b
  }

  /** Any reconcile that sees all stores asks as many nodes as there are zones, or all of them. */
  lemma ReconcileAsksEnough(c: Cluster, c': Cluster, k: nat, infos: seq<NodeInfo>, ls: seq<Store>)
    requires Inv(c) && c.cachedStores == c.stores
    requires ReconcileAdd(c, ls, c') || ReconcileTenant(c, ls, c') || FinishNodes(c, k, infos, ls, c')
    ensures |c'.asked| == Smaller(c.zones, |c.stores|)
  {
    if ReconcileAdd(c, ls, c') {
      ReconcileAddKeeps(c, ls, c');
      DistinctSize(Candidates(ls));
      AskedSize(c'.zones, c'.status, c'.asked);
    } else if ReconcileTenant(c, ls, c') {
      ReconcileTenantKeeps(c, ls, c');
      RecomputeAsksEnough(c, c.status, ls, c');
    } else {
      FinishNodesKeeps(c, k, infos, ls, c');
      FinishAssigns(c, k, infos, ls, c');
      assert PendingOk(c, c.pendings[k]);
      assert Names(infos) == c.pendings[k].hosts.Keys;
      RecomputeAsksEnough(c, c.status.(assignedNodes := infos), ls, c');
    }
  }

  lemma RecomputeAsksEnough(c: Cluster, p: Placement, ls: seq<Store>, c': Cluster)
    requires Inv(c') && ListsStores(ls, c.stores) && c'.zones == c.zones && c'.stores == c.stores
    requires c'.status == Recompute(c.zones, p, ls) && Ids(p.assignedNodes) <= c'.asked
    ensures |c'.asked| == Smaller(c.zones, |c.stores|)
  {
    AskedSize(c'.zones, c'.status, c'.asked);
    SubsetAtMost(c'.asked, c'.stores);
    PlacedBounds(c.zones, p, ls);
    if |c'.asked| < c.zones {
      forall x | x in c.stores
        ensures x in c'.asked
      {
        assert x in Elements(Candidates(ls));
        assert x in c'.status.awaiting ==> x in Elements(c'.status.awaiting);
      }
      SubsetAtMost(c.stores, c'.asked);
    }
  }

  // ----- quiescence -----

  /** The same placement up to the order of the assigned nodes. */
  predicate SamePlacement(p: Placement, q: Placement) {
    p.awaiting == q.awaiting && Names(p.assignedNodes) == Names(q.assignedNodes)
  }

  /** The cache is up to date, and every node asked hosts and reports the tenant. */
  predicate UpToDate(c: Cluster) {
    c.stores <= c.cachedStores && c.asked <= c.hosts <= c.reports <= c.cachedReports.Keys
  }

  /** Nothing is left to do: everything is up to date, and no run of the reconciler changes the placement. */
  ghost predicate Quiescent(c: Cluster) {
    && UpToDate(c)
    && forall c1, c2, infos, ls :: BeginNodes(c, c1) && FinishNodes(c1, |c.pendings|, infos, ls, c2) ==>
         SamePlacement(c2.status, c.status)
  }

  lemma {:induction false} SomeHosts(cache: map<string, NodeInfo>) returns (infos: seq<NodeInfo>)
    requires forall n :: n in cache ==> cache[n].name == n
    ensures ListsHosts(infos, cache)
    decreases |cache|
  {
    if cache == map[] {
      infos := [];
    } else {
      var n :| n in cache;
      var rest := cache - {n};
      assert |cache.Keys| == |rest.Keys + {n}| by {
        assert cache.Keys == rest.Keys + {n};
      }
      var more := SomeHosts(rest);
      infos := more + [cache[n]];
      OneMoreHost(more, rest, cache[n]);
      assert rest[n := cache[n]] == cache;
    }
  }

  lemma OneMoreHost(infos: seq<NodeInfo>, cache: map<string, NodeInfo>, x: NodeInfo)
    requires ListsHosts(infos, cache) && x.name !in cache
    ensures ListsHosts(infos + [x], cache[x.name := x])
  {
    NamesMore(infos, x);
  }

  lemma NamesMore(more: seq<NodeInfo>, x: NodeInfo)
    ensures Names(more + [x]) == Names(more) + {x.name}
  {
    var all := more + [x];
    assert all[|more|] == x;
    forall n | n in Names(more)
      ensures n in Names(all)
    {
      var i :| 0 <= i < |more| && more[i].name == n;
      assert all[i].name == n;
    }
  }

  lemma {:induction false} SomeStores(cache: set<string>) returns (ls: seq<Store>)
    requires "" !in cache
    ensures ListsStores(ls, cache)
  {
    if cache == {} {
      ls := [];
    } else {
      var n :| n in cache;
      var more := SomeStores(cache - {n});
      ls := more + [Store(n, n)];
      OneMoreStore(more, cache - {n}, n);
      assert cache - {n} + {n} == cache;
    }
  }

  lemma OneMoreStore(ls: seq<Store>, cache: set<string>, n: string)
    requires ListsStores(ls, cache) && n !in cache && n != ""
    ensures ListsStores(ls + [Store(n, n)], cache + {n})
  {
    assert (ls + [Store(n, n)])[..|ls|] == ls;
    var ids := Candidates(ls);
    assert Candidates(ls + [Store(n, n)]) == ids + [n];
    assert Elements([n]) == {n};
    assert n !in Elements(ids);
    JoinDistinct(ids, [n]);
  }

  /** The reconciler can always run from start to end. */
  lemma ReconcileRuns(c: Cluster) returns (c1: Cluster, c2: Cluster, infos: seq<NodeInfo>, ls: seq<Store>)
    requires Inv(c)
    ensures BeginNodes(c, c1) && Inv(c1) && FinishNodes(c1, |c.pendings|, infos, ls, c2) && Inv(c2)
  {
    infos := SomeHosts(c.cachedReports);
    ls := SomeStores(c.cachedStores);
    c1 := c.(pendings := c.pendings + [Pending(c.version, c.cachedReports)]);
    OtherStepsKeep(c, "", c1);
    c2 := Write(c1, Recompute(c.zones, c.status.(assignedNodes := infos), ls));
    FinishNodesKeeps(c1, |c.pendings|, infos, ls, c2);
  }

  /** A quiescent tenant is assigned to as many nodes as it has zones, or to all of them. */
  lemma QuiescentIsFull(cs: seq<Cluster>, i: nat)
    requires IsRun(cs) && i < |cs| && Quiescent(cs[i])
    ensures
      var c := cs[i];
      && c.status.awaiting == []
      && Names(c.status.assignedNodes) == c.hosts
      && |c.status.assignedNodes| == Smaller(c.zones, |c.stores|)
  {
    RunInv(cs, i);
    var c := cs[i];
    var c1, c2, infos, ls := ReconcileRuns(c);
    assert SamePlacement(c2.status, c.status);
    FinishAssigns(c1, |c.pendings|, infos, ls, c2);
    assert c.cachedReports.Keys == c.hosts == c.asked;
    NoneLeft(c.status.awaiting, c.hosts);
    ReconcileAsksEnough(c1, c2, |c.pendings|, infos, ls);
    AskedSize(c2.zones, c2.status, c2.asked);
    DistinctNamesSize(c.status.assignedNodes);
    DistinctNamesSize(c2.status.assignedNodes);
  }

  lemma NoneLeft(s: seq<string>, all: set<string>)
    requires Elements(s) <= all && forall n :: n in all ==> n !in s
    ensures s == []
  {
    assert Elements(s) == {};
    ElementsNonempty(s);
  }

  lemma ElementsNonempty(s: seq<string>)
    ensures s != [] ==> Elements(s) != {}
  {
    if s != [] {
      assert s[0] in Elements(s);
    }
  }

  /** Quiescence is reached: when everything is up to date and enough nodes were asked, one run of the reconciler makes
      the tenant quiescent. */
  lemma ReconcileSettles(c: Cluster, c1: Cluster, c2: Cluster, infos: seq<NodeInfo>, ls: seq<Store>)
    requires Inv(c) && UpToDate(c) && |c.asked| == Smaller(c.zones, |c.stores|)
    requires BeginNodes(c, c1) && FinishNodes(c1, |c.pendings|, infos, ls, c2)
    ensures Quiescent(c2)
  {
    OtherStepsKeep(c, "", c1);
    FinishNodesKeeps(c1, |c.pendings|, infos, ls, c2);
    SettledStatus(c1, |c.pendings|, infos, ls, c2);
    forall d1, d2, infos2, ls2 | BeginNodes(c2, d1) && FinishNodes(d1, |c2.pendings|, infos2, ls2, d2)
      ensures SamePlacement(d2.status, c2.status)
    {
      OtherStepsKeep(c2, "", d1);
      SettledStatus(d1, |c2.pendings|, infos2, ls2, d2);
    }
  }

  /** With all asked nodes reported and enough of them asked, the reconciler assigns them all and asks nobody new. */
  lemma SettledStatus(c: Cluster, k: nat, infos: seq<NodeInfo>, ls: seq<Store>, c': Cluster)
    requires Inv(c) && UpToDate(c) && |c.asked| == Smaller(c.zones, |c.stores|)
    requires FinishNodes(c, k, infos, ls, c') && c.pendings[k].hosts == c.cachedReports
    ensures c'.status.awaiting == [] && Names(c'.status.assignedNodes) == c.asked == c'.asked
    ensures UpToDate(c') && |c'.asked| == Smaller(c'.zones, |c'.stores|)
  {
    FinishAssigns(c, k, infos, ls, c');
    FinishNodesKeeps(c, k, infos, ls, c');
    ReconcileAsksEnough(c, c', k, infos, ls);
    SameSize(c.asked, c'.asked);
    NoneLeft(c'.status.awaiting, c.asked);
  }

  lemma SameSize(a: set<string>, b: set<string>)
    requires a <= b && |a| == |b|
    ensures a == b
  {
    assert b == a + (b - a);
    assert |b - a| == 0;
  }

  lemma SubsetAtMost(a: set<string>, b: set<string>)
    requires a <= b
    ensures |a| <= |b|
  {
    assert b == a + (b - a);
  }
}