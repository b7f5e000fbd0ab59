/** Peering of one tenant's VTEP with remote nodes: the Peers map beside the neighbour, forwarding and route
    tables of the kernel. */
module Peers {
  import opened Ipv4

  type Mac = seq<int>

  /** A remote node's part of the tenant; `None` stands for nil. */
  datatype Remote = Remote(
    nodeName: string,
    nodeIp: Option<Ip4>,
    vtepIp: Option<Ip4>,
    vtepMac: Option<Mac>,
    subnet: Option<Cidr>,
    vni: nat)

  /** The VTEP's entries: IP to MAC, MAC to node, subnet to gateway. */
  datatype Tables = Tables(neigh: map<Ip4, Mac>, fdb: map<Mac, Option<Ip4>>, routes: map<Cidr, Ip4>)

  datatype State = State(peers: map<string, Remote>, tables: Tables)

  /** The information the table managers accept. */
  predicate Complete(r: Remote) {
    r.vtepIp.Some? && r.vtepMac.Some? && r.subnet.Some? && r.vtepMac.value != []
  }

  /** Two remotes that share no table key. */
  predicate Distinct(a: Remote, b: Remote) {
    a.vtepIp != b.vtepIp && a.vtepMac != b.vtepMac && a.subnet != b.subnet
  }

  function Drop<K, V(==)>(m: map<K, V>, k: K, v: V): map<K, V> {
    if k in m && m[k] == v then m - {k} else m
  }

  /** Adding sets or replaces by key. */
  function AddEntries(t: Tables, r: Remote): Tables
    requires Complete(r)
  {
    Tables(
      t.neigh[r.vtepIp.value := r.vtepMac.value],
      t.fdb[r.vtepMac.value := r.nodeIp],
      t.routes[r.subnet.value := r.vtepIp.value])
  }

  /** Neighbours are deleted by address; forwarding entries and routes only when the rest matches too. A missing
      entry is no error. */
  function RemoveEntries(t: Tables, r: Remote): Tables
    requires Complete(r)
  {
    Tables(
      t.neigh - {r.vtepIp.value},
      Drop(t.fdb, r.vtepMac.value, r.nodeIp),
      Drop(t.routes, r.subnet.value, r.vtepIp.value))
  }

  // ----- a table as the image of the Peers map -----

  ghost predicate Held<K(!new), V>(peers: map<string, Remote>, key: Remote -> K, val: Remote -> V, m: map<K, V>, n: string)
    requires n in peers
  {
    key(peers[n]) in m && m[key(peers[n])] == val(peers[n])
  }

  ghost predicate Owned<K(!new)>(peers: map<string, Remote>, key: Remote -> K, k: K) {
    exists n | n in peers :: key(peers[n]) == k
  }

  ghost predicate Image<K(!new), V>(peers: map<string, Remote>, key: Remote -> K, val: Remote -> V, m: map<K, V>) {
    && (forall n {:trigger Held(peers, key, val, m, n)} | n in peers :: Held(peers, key, val, m, n))
    && (forall k {:trigger Owned(peers, key, k)} | k in m :: Owned(peers, key, k))
  }

  ghost predicate Fresh<K(!new)>(peers: map<string, Remote>, key: Remote -> K, r: Remote) {
    forall n | n in peers && n != r.nodeName :: key(peers[n]) != key(r)
  }

  lemma ImageAdd<K(!new), V>(peers: map<string, Remote>, key: Remote -> K, val: Remote -> V, m: map<K, V>, r: Remote)
    requires Image(peers, key, val, m) && r.nodeName !in peers && Fresh(peers, key, r)
    ensures Image(peers[r.nodeName := r], key, val, m[key(r) := val(r)])
  {
    var peers' := peers[r.nodeName := r];
    var m' := m[key(r) := val(r)];
    assert peers'[r.nodeName] == r;
    forall n | n in peers'
      ensures Held(peers', key, val, m', n)
    {
      if n != r.nodeName {
        assert Held(peers, key, val, m, n);
      }
    }
    forall k | k in m'
      ensures Owned(peers', key, k)
    {
      if k != key(r) {
        assert Owned(peers, key, k);
        var n :| n in peers && key(peers[n]) == k;
        assert key(peers'[n]) == k;
      }
    }
  }

  lemma ImageRemove<K(!new), V>(peers: map<string, Remote>, key: Remote -> K, val: Remote -> V, m: map<K, V>, r: Remote)
    requires Image(peers, key, val, m) && Fresh(peers, key, r)
    requires r.nodeName in peers && peers[r.nodeName] == r
    ensures key(r) in m && m[key(r)] == val(r)
    ensures Image(peers - {r.nodeName}, key, val, m - {key(r)})
  {
    var peers' := peers - {r.nodeName};
    var m' := m - {key(r)};
    assert Held(peers, key, val, m, r.nodeName);
    forall n | n in peers'
      ensures Held(peers', key, val, m', n)
    {
      assert Held(peers, key, val, m, n);
    }
    forall k | k in m'
      ensures Owned(peers', key, k)
    {
      assert Owned(peers, key, k);
      var n :| n in peers && key(peers[n]) == k;
      assert key(peers'[n]) == k;
    }
  }

  /** The image is unique: the Peers map determines the table. */
  lemma ImageUnique<K(!new), V>(peers: map<string, Remote>, key: Remote -> K, val: Remote -> V, a: map<K, V>, b: map<K, V>)
    requires Image(peers, key, val, a) && Image(peers, key, val, b)
    ensures a == b
  {
    forall k | k in a
      ensures k in b && a[k] == b[k]
    {
      ImageAgrees(peers, key, val, a, b, k);
    }
    forall k | k in b
      ensures k in a
    {
      ImageAgrees(peers, key, val, b, a, k);
    }
  }

  lemma ImageAgrees<K(!new), V>(peers: map<string, Remote>, key: Remote -> K, val: Remote -> V, a: map<K, V>, b: map<K, V>, k: K)
    requires Image(peers, key, val, a) && Image(peers, key, val, b) && k in a
    ensures k in b && a[k] == b[k]
  {
    assert Owned(peers, key, k);
    var n :| n in peers && key(peers[n]) == k;
    assert Held(peers, key, val, a, n) && Held(peers, key, val, b, n);
  }

  // ----- the three tables -----

  function Ip(r: Remote): Ip4 {
    if r.vtepIp.Some? then r.vtepIp.value else [0, 0, 0, 0]
  }

  function HardwareAddr(r: Remote): Mac {
    if r.vtepMac.Some? then r.vtepMac.value else []
  }

  function Subnet(r: Remote): Cidr {
    if r.subnet.Some? then r.subnet.value else Cidr([0, 0, 0, 0], 0)
  }

  function NodeIp(r: Remote): Option<Ip4> {
    r.nodeIp
  }

  predicate DistinctFromRest(peers: map<string, Remote>, n: string)
    requires n in peers
  {
    forall o | o in peers && o != n :: Distinct(peers[n], peers[o])
  }

  predicate AllDistinct(peers: map<string, Remote>) {
    forall n {:trigger DistinctFromRest(peers, n)} | n in peers :: DistinctFromRest(peers, n)
  }

  predicate PeerOk(peers: map<string, Remote>, n: string) {
    n in peers && peers[n].nodeName == n && Complete(peers[n])
  }

  predicate AllComplete(peers: map<string, Remote>) {
    forall n {:trigger PeerOk(peers, n)} | n in peers :: PeerOk(peers, n)
  }

  ghost predicate IsImage(peers: map<string, Remote>, t: Tables) {
    && Image(peers, Ip, HardwareAddr, t.neigh)
    && Image(peers, HardwareAddr, NodeIp, t.fdb)
    && Image(peers, Subnet, Ip, t.routes)
  }

  /** The tables hold the entries of the recorded peers and nothing else. */
  ghost predicate Synced(s: State) {
    AllComplete(s.peers) && AllDistinct(s.peers) && IsImage(s.peers, s.tables)
  }

  /** The tables are a function of the recorded peers. */
  lemma SyncedUnique(peers: map<string, Remote>, a: Tables, b: Tables)
    requires Synced(State(peers, a)) && Synced(State(peers, b))
    ensures a == b
  {
    ImageUnique(peers, Ip, HardwareAddr, a.neigh, b.neigh);
    ImageUnique(peers, HardwareAddr, NodeIp, a.fdb, b.fdb);
    ImageUnique(peers, Subnet, Ip, a.routes, b.routes);
  }

  // ----- the operations -----

  datatype Op = EnsurePeer(remote: Remote) | RemovePeer(nodeName: string) | FlushTenant

  datatype Outcome = Outcome(ok: bool, state: State)

  /** The state without one peer. */
  function Without(s: State, n: string): State
    requires PeerOk(s.peers, n)
  {
    State(s.peers - {n}, RemoveEntries(s.tables, s.peers[n]))
  }

  /** A changed peer is removed before the new one is added; incomplete information fails after the removal. */
  function Ensured(s: State, r: Remote): Outcome
    requires AllComplete(s.peers)
  {
    var n := r.nodeName;
    if n == "" then Outcome(false, s)
    else if n in s.peers && s.peers[n] == r then Outcome(true, s)
    else
      var s1 := if n in s.peers then (assert PeerOk(s.peers, n); Without(s, n)) else s;
      if Complete(r) then Outcome(true, State(s1.peers[n := r], AddEntries(s1.tables, r))) else Outcome(false, s1)
  }

  function Removed(s: State, n: string): Outcome
    requires AllComplete(s.peers)
  {
    if n == "" then Outcome(false, s)
    else if n !in s.peers then Outcome(true, s)
    else
      assert PeerOk(s.peers, n);
      Outcome(true, Without(s, n))
  }

  const EMPTY: Tables := Tables(map[], map[], map[])

  /** What is left of a table when the entries of all given peers are deleted. */
  ghost function Rest<K(!new), V>(peers: map<string, Remote>, key: Remote -> K, val: Remote -> V, m: map<K, V>): map<K, V> {
    map k | k in m && !Matched(peers, key, val, k, m[k]) :: m[k]
  }

  ghost predicate Matched<K(!new), V>(peers: map<string, Remote>, key: Remote -> K, val: Remote -> V, k: K, v: V) {
    exists n | n in peers :: key(peers[n]) == k && val(peers[n]) == v
  }

  ghost function RestByKey<K(!new), V>(peers: map<string, Remote>, key: Remote -> K, m: map<K, V>): map<K, V> {
    map k | k in m && !Owned(peers, key, k) :: m[k]
  }

  ghost function Flushed(t: Tables, peers: map<string, Remote>): Tables {
    Tables(RestByKey(peers, Ip, t.neigh), Rest(peers, HardwareAddr, NodeIp, t.fdb), Rest(peers, Subnet, Ip, t.routes))
  }

  ghost function Step(s: State, op: Op): Outcome
    requires AllComplete(s.peers)
  {
    match op
    case EnsurePeer(r) => Ensured(s, r)
    case RemovePeer(n) => Removed(s, n)
    case FlushTenant => Outcome(true, State(map[], Flushed(s.tables, s.peers)))
  }

  /** No other recorded peer shares a table key with r. */
  predicate Apart(peers: map<string, Remote>, r: Remote) {
    forall n | n in peers && n != r.nodeName :: Distinct(peers[n], r)
  }

  /** The remote nodes have distinct VTEP addresses, MACs and subnets. */
  predicate Fits(s: State, op: Op) {
    op.EnsurePeer? ==> Apart(s.peers, op.remote)
  }

  /** Distinct remotes have distinct keys in each table. */
  lemma FreshKeys(peers: map<string, Remote>, r: Remote)
    requires AllComplete(peers) && Apart(peers, r) && Complete(r)
    ensures Fresh(peers, Ip, r) && Fresh(peers, HardwareAddr, r) && Fresh(peers, Subnet, r)
  {
    forall n | n in peers && n != r.nodeName
      ensures Ip(peers[n]) != Ip(r) && HardwareAddr(peers[n]) != HardwareAddr(r) && Subnet(peers[n]) != Subnet(r)
    {
      assert Distinct(peers[n], r);
      assert PeerOk(peers, n);
    }
  }

  lemma RestDistinct(peers: map<string, Remote>, n: string)
    requires AllDistinct(peers) && n in peers && peers[n].nodeName == n
    ensures AllDistinct(peers - {n}) && Apart(peers, peers[n])
  {
    forall o | o in peers
      ensures DistinctFromRest(peers, o)
    {
    }
  }

  lemma MoreDistinct(peers: map<string, Remote>, r: Remote)
    requires AllDistinct(peers) && r.nodeName !in peers && Apart(peers, r)
    ensures AllDistinct(peers[r.nodeName := r])
  {
    var peers' := peers[r.nodeName := r];
    forall n | n in peers'
      ensures DistinctFromRest(peers', n)
    {
      if n != r.nodeName {
        assert DistinctFromRest(peers, n);
      }
    }
  }

  lemma RestComplete(peers: map<string, Remote>, n: string)
    requires AllComplete(peers)
    ensures AllComplete(peers - {n})
  {
    forall o | o in peers && o != n
      ensures PeerOk(peers - {n}, o)
    {
      assert PeerOk(peers, o);
    }
  }

  lemma MoreComplete(peers: map<string, Remote>, r: Remote)
    requires AllComplete(peers) && Complete(r)
    ensures AllComplete(peers[r.nodeName := r])
  {
    forall o | o in peers && o != r.nodeName
      ensures PeerOk(peers[r.nodeName := r], o)
    {
      assert PeerOk(peers, o);
    }
  }

  lemma WithoutSynced(s: State, n: string)
    requires Synced(s) && n in s.peers
    ensures PeerOk(s.peers, n) && Synced(Without(s, n))
  {
    assert PeerOk(s.peers, n);
    RestDistinct(s.peers, n);
    RestComplete(s.peers, n);
    RemoveImage(s.peers, s.tables, s.peers[n]);
  }

  lemma RemoveImage(peers: map<string, Remote>, t: Tables, r: Remote)
    requires IsImage(peers, t) && AllComplete(peers) && Apart(peers, r) && Complete(r)
    requires r.nodeName in peers && peers[r.nodeName] == r
    ensures IsImage(peers - {r.nodeName}, RemoveEntries(t, r))
  {
    FreshKeys(peers, r);
    ImageRemove(peers, Ip, HardwareAddr, t.neigh, r);
    ImageRemove(peers, HardwareAddr, NodeIp, t.fdb, r);
    ImageRemove(peers, Subnet, Ip, t.routes, r);
  }

  lemma AddSynced(s: State, r: Remote)
    requires Synced(s) && r.nodeName !in s.peers && Complete(r) && Apart(s.peers, r)
    ensures Synced(State(s.peers[r.nodeName := r], AddEntries(s.tables, r)))
  {
    MoreDistinct(s.peers, r);
    MoreComplete(s.peers, r);
    AddImage(s.peers, s.tables, r);
  }

  lemma AddImage(peers: map<string, Remote>, t: Tables, r: Remote)
    requires IsImage(peers, t) && AllComplete(peers) && Apart(peers, r) && Complete(r) && r.nodeName !in peers
    ensures IsImage(peers[r.nodeName := r], AddEntries(t, r))
  {
    FreshKeys(peers, r);
    ImageAdd(peers, Ip, HardwareAddr, t.neigh, r);
    ImageAdd(peers, HardwareAddr, NodeIp, t.fdb, r);
    ImageAdd(peers, Subnet, Ip, t.routes, r);
  }

  /** Deleting one peer's entries and then those of the others deletes those of all. */
  lemma RestOne<K(!new), V>(peers: map<string, Remote>, key: Remote -> K, val: Remote -> V, m: map<K, V>, n: string)
    requires n in peers
    ensures Rest(peers - {n}, key, val, Drop(m, key(peers[n]), val(peers[n]))) == Rest(peers, key, val, m)
  {
    var peers', m' := peers - {n}, Drop(m, key(peers[n]), val(peers[n]));
    forall k | k in m
      ensures Matched(peers, key, val, k, m[k]) <==>
        (k == key(peers[n]) && m[k] == val(peers[n])) || Matched(peers', key, val, k, m[k])
    {
      if Matched(peers, key, val, k, m[k]) {
        var o :| o in peers && key(peers[o]) == k && val(peers[o]) == m[k];
        assert o != n ==> o in peers' && key(peers'[o]) == k;
      }
      if Matched(peers', key, val, k, m[k]) {
        var o :| o in peers' && key(peers'[o]) == k && val(peers'[o]) == m[k];
        assert o in peers && key(peers[o]) == k;
      }
    }
  }

  lemma RestByKeyOne<K(!new), V>(peers: map<string, Remote>, key: Remote -> K, m: map<K, V>, n: string)
    requires n in peers
    ensures RestByKey(peers - {n}, key, m - {key(peers[n])}) == RestByKey(peers, key, m)
  {
    var peers' := peers - {n};
    forall k | k in m
      ensures Owned(peers, key, k) <==> k == key(peers[n]) || Owned(peers', key, k)
    {
      if Owned(peers, key, k) {
        var o :| o in peers && key(peers[o]) == k;
        assert o != n ==> o in peers' && key(peers'[o]) == k;
      }
      if Owned(peers', key, k) {
        var o :| o in peers' && key(peers'[o]) == k;
        assert o in peers && key(peers[o]) == k;
      }
    }
  }

  lemma FlushOne(t: Tables, peers: map<string, Remote>, n: string)
    requires PeerOk(peers, n)
    ensures Flushed(RemoveEntries(t, peers[n]), peers - {n}) == Flushed(t, peers)
  {
    RestByKeyOne(peers, Ip, t.neigh, n);
    RestOne(peers, HardwareAddr, NodeIp, t.fdb, n);
    RestOne(peers, Subnet, Ip, t.routes, n);
  }

  lemma FlushNone(t: Tables)
    ensures Flushed(t, map[]) == t
  {
    assert RestByKey(map[], Ip, t.neigh) == t.neigh;
    assert Rest(map[], HardwareAddr, NodeIp, t.fdb) == t.fdb;
    assert Rest(map[], Subnet, Ip, t.routes) == t.routes;
  }

  lemma RestEmpty<K(!new), V>(peers: map<string, Remote>, key: Remote -> K, val: Remote -> V, m: map<K, V>)
    requires Image(peers, key, val, m)
    ensures Rest(peers, key, val, m) == map[] && RestByKey(peers, key, m) == map[]
  {
    forall k | k in m
      ensures Matched(peers, key, val, k, m[k]) && Owned(peers, key, k)
    {
      assert Owned(peers, key, k);
      var n :| n in peers && key(peers[n]) == k;
      assert Held(peers, key, val, m, n);
    }
  }

  /** Flushing a synchronised tenant empties its tables. */
  lemma FlushEmpties(s: State)
    requires Synced(s)
    ensures Flushed(s.tables, s.peers) == EMPTY
  {
    RestEmpty(s.peers, Ip, HardwareAddr, s.tables.neigh);
    RestEmpty(s.peers, HardwareAddr, NodeIp, s.tables.fdb);
    RestEmpty(s.peers, Subnet, Ip, s.tables.routes);
  }

  /** r changes no entry of another recorded peer: where they share a key, they agree on the value. */
  predicate Agrees(peers: map<string, Remote>, r: Remote) {
    forall n | n in peers && n != r.nodeName ::
      && (Ip(peers[n]) == Ip(r) ==> HardwareAddr(peers[n]) == HardwareAddr(r))
      && (HardwareAddr(peers[n]) == HardwareAddr(r) ==> NodeIp(peers[n]) == NodeIp(r))
      && (Subnet(peers[n]) == Subnet(r) ==> Ip(peers[n]) == Ip(r))
  }

  lemma ImageAddExact<K(!new), V>(peers: map<string, Remote>, key: Remote -> K, val: Remote -> V, m: map<K, V>, r: Remote)
    requires Image(peers, key, val, m) && r.nodeName !in peers
    ensures Image(peers[r.nodeName := r], key, val, m[key(r) := val(r)]) <==>
      forall n | n in peers :: key(peers[n]) == key(r) ==> val(peers[n]) == val(r)
  {
    var peers', m' := peers[r.nodeName := r], m[key(r) := val(r)];
    assert peers'[r.nodeName] == r && Held(peers', key, val, m', r.nodeName);
    forall n | n in peers
      ensures Held(peers', key, val, m', n) <==> (key(peers[n]) == key(r) ==> val(peers[n]) == val(r))
    {
      assert Held(peers, key, val, m, n);
    }
    forall k | k in m'
      ensures Owned(peers', key, k)
    {
      if k != key(r) {
        assert Owned(peers, key, k);
        var n :| n in peers && key(peers[n]) == k;
        assert key(peers'[n]) == k;
      }
    }
    if Image(peers', key, val, m') {
      forall n | n in peers
        ensures key(peers[n]) == key(r) ==> val(peers[n]) == val(r)
      {
        assert Held(peers', key, val, m', n);
      }
    }
  }

  /** Peering with any remote keeps the tables the image of the recorded peers if and only if the remote agrees with
      the other recorded peers on every key they share. */
  lemma EnsureImageExact(s: State, r: Remote)
    requires Synced(s) && r.nodeName != "" && Complete(r)
    ensures Ensured(s, r).ok
    ensures IsImage(Ensured(s, r).state.peers, Ensured(s, r).state.tables) <==>
      Agrees(s.peers, r) || (r.nodeName in s.peers && s.peers[r.nodeName] == r)
  {
    var s1 := s;
    if r.nodeName in s.peers {
      WithoutSynced(s, r.nodeName);
      s1 := Without(s, r.nodeName);
    }
    ImageAddExact(s1.peers, Ip, HardwareAddr, s1.tables.neigh, r);
    ImageAddExact(s1.peers, HardwareAddr, NodeIp, s1.tables.fdb, r);
    ImageAddExact(s1.peers, Subnet, Ip, s1.tables.routes, r);
    AgreesWithRest(s.peers, r);
  }

  lemma AgreesWithRest(peers: map<string, Remote>, r: Remote)
    ensures
      var rest := peers - {r.nodeName};
      Agrees(peers, r) <==>
        && (forall n | n in rest :: Ip(rest[n]) == Ip(r) ==> HardwareAddr(rest[n]) == HardwareAddr(r))
        && (forall n | n in rest :: HardwareAddr(rest[n]) == HardwareAddr(r) ==> NodeIp(rest[n]) == NodeIp(r))
        && (forall n | n in rest :: Subnet(rest[n]) == Subnet(r) ==> Ip(rest[n]) == Ip(r))
  {
    var rest := peers - {r.nodeName};
    assert forall n | n in peers && n != r.nodeName :: n in rest && rest[n] == peers[n];
  }

  /** Every operation, failed or not, leaves exactly the entries of the recorded peers. */
  lemma StepSynced(s: State, op: Op)
    requires Synced(s) && Fits(s, op)
    ensures Synced(Step(s, op).state)
  {
    match op
    case FlushTenant =>
      FlushEmpties(s);
    case RemovePeer(n) =>
      if n in s.peers {
        WithoutSynced(s, n);
      }
    case EnsurePeer(r) =>
      EnsuredSynced(s, r);
  }

  lemma EnsuredSynced(s: State, r: Remote)
    requires Synced(s) && Apart(s.peers, r)
    ensures Synced(Ensured(s, r).state)
  {
    var s1 := s;
    if r.nodeName in s.peers {
      WithoutSynced(s, r.nodeName);
      s1 := Without(s, r.nodeName);
    }
    if Complete(r) {
      AddSynced(s1, r);
    }
  }

  /** What each operation does to the record; with the tables the image of the record, this determines them. */
  lemma StepPeers(s: State, op: Op)
    requires AllComplete(s.peers)
    ensures
      var out := Step(s, op);
      match op
      case EnsurePeer(r) =>
        if r.nodeName == "" then out == Outcome(false, s)
        else if Complete(r) then out.ok && out.state.peers == s.peers[r.nodeName := r]
        else !out.ok && out.state.peers == s.peers - {r.nodeName}
      case RemovePeer(n) =>
        if n == "" then out == Outcome(false, s) else out.ok && out.state.peers == s.peers - {n}
      case FlushTenant => out.ok && out.state.peers == map[]
  {
    match op
    case EnsurePeer(r) =>
      assert r.nodeName in s.peers ==> PeerOk(s.peers, r.nodeName);
      assert s.peers - {r.nodeName} + map[r.nodeName := r] == s.peers[r.nodeName := r];
    case RemovePeer(n) =>
    case FlushTenant =>
  }

  /** After a removal of a synchronised peer nothing of it is left in the tables. */
  lemma RemovedEntries(s: State, n: string)
    requires Synced(s) && n != "" && n in s.peers
    ensures
      var r, t := s.peers[n], Step(s, RemovePeer(n)).state.tables;
      Ip(r) !in t.neigh && HardwareAddr(r) !in t.fdb && Subnet(r) !in t.routes
  {
    assert PeerOk(s.peers, n);
    assert Held(s.peers, HardwareAddr, NodeIp, s.tables.fdb, n);
    assert Held(s.peers, Subnet, Ip, s.tables.routes, n);
  }

  /** Only complete peers are ever recorded. */
  lemma StepComplete(s: State, op: Op)
    requires AllComplete(s.peers)
    ensures AllComplete(Step(s, op).state.peers)
  {
    match op
    case FlushTenant =>
    case RemovePeer(n) => RestComplete(s.peers, n);
    case EnsurePeer(r) =>
      RestComplete(s.peers, r.nodeName);
      if Complete(r) {
        MoreComplete(s.peers, r);
        MoreComplete(s.peers - {r.nodeName}, r);
      }
  }

  /** A recorded peer's entries are the current ones. */
  lemma RecordedEntries(s: State, n: string)
    requires Synced(s) && n in s.peers
    ensures var r, t := s.peers[n], s.tables;
      && Ip(r) in t.neigh && t.neigh[Ip(r)] == HardwareAddr(r)
      && HardwareAddr(r) in t.fdb && t.fdb[HardwareAddr(r)] == r.nodeIp
      && Subnet(r) in t.routes && t.routes[Subnet(r)] == Ip(r)
  {
    assert Held(s.peers, Ip, HardwareAddr, s.tables.neigh, n);
    assert Held(s.peers, HardwareAddr, NodeIp, s.tables.fdb, n);
    assert Held(s.peers, Subnet, Ip, s.tables.routes, n);
  }

  /** No entry is stale: each belongs to a recorded peer. */
  lemma NothingStale(s: State, ip: Ip4, mac: Mac, net: Cidr)
    requires Synced(s)
    ensures ip in s.tables.neigh ==> exists n | n in s.peers :: Ip(s.peers[n]) == ip
    ensures mac in s.tables.fdb ==> exists n | n in s.peers :: HardwareAddr(s.peers[n]) == mac
    ensures net in s.tables.routes ==> exists n | n in s.peers :: Subnet(s.peers[n]) == net
  {
    assert ip in s.tables.neigh ==> Owned(s.peers, Ip, ip);
    assert mac in s.tables.fdb ==> Owned(s.peers, HardwareAddr, mac);
    assert net in s.tables.routes ==> Owned(s.peers, Subnet, net);
  }

  ghost predicate IsRun(states: seq<State>, ops: seq<Op>)
    requires |states| == |ops| + 1
  {
    forall i | 0 <= i < |ops| ::
      AllComplete(states[i].peers) && Fits(states[i], ops[i]) && states[i + 1] == Step(states[i], ops[i]).state
  }

  /** From an unpeered VTEP, over every run. */
  lemma {:induction false} RunSynced(states: seq<State>, ops: seq<Op>, i: nat)
    requires |states| == |ops| + 1 && IsRun(states, ops)
    requires states[0] == State(map[], EMPTY)
    requires i <= |ops|
    ensures Synced(states[i])
  {
    if i > 0 {
      RunSynced(states, ops, i - 1);
      StepSynced(states[i - 1], ops[i - 1]);
    }
  }

  // ----- the tenant record as updated in place -----

  class TenantPeers {
    var peers: map<string, Remote>
    var tables: Tables

    ghost predicate Valid()
      reads this
    {
      AllComplete(peers)
    }

    ghost function Model(): State
      reads this
    {
      State(peers, tables)
    }

    constructor ()
      ensures Valid() && Model() == State(map[], EMPTY)
    {
      peers := map[];
      tables := EMPTY;
    }

    method RemovePeerEntries(r: Remote)
      requires Complete(r)
      modifies this`tables
      ensures tables == RemoveEntries(old(tables), r)
    {
      tables := tables.(neigh := tables.neigh - {r.vtepIp.value});
      tables := tables.(fdb := Drop(tables.fdb, r.vtepMac.value, r.nodeIp));
      tables := tables.(routes := Drop(tables.routes, r.subnet.value, r.vtepIp.value));
    }

    method EnsurePeerEntries(r: Remote) returns (ok: bool)
      modifies this`tables
      ensures ok <==> Complete(r)
      ensures tables == if ok then AddEntries(old(tables), r) else old(tables)
    {
      if r.vtepIp.None? || r.vtepMac.None? || r.subnet.None? || r.vtepMac.value == [] {
        return false;
      }
      tables := tables.(neigh := tables.neigh[r.vtepIp.value := r.vtepMac.value]);
      tables := tables.(fdb := tables.fdb[r.vtepMac.value := r.nodeIp]);
      tables := tables.(routes := tables.routes[r.subnet.value := r.vtepIp.value]);
      return true;
    }

    method EnsurePeer(r: Remote) returns (ok: bool)
      requires Valid()
      modifies this
      ensures Valid() && Outcome(ok, Model()) == Step(old(Model()), Op.EnsurePeer(r))
    {
      StepComplete(Model(), Op.EnsurePeer(r));
      if r.nodeName == "" {
        return false;
      }
      if r.nodeName in peers && peers[r.nodeName] == r {
        return true;
      }
      if r.nodeName in peers {
        assert PeerOk(peers, r.nodeName);
        RemovePeerEntries(peers[r.nodeName]);
        peers := peers - {r.nodeName};
      }
      ok := EnsurePeerEntries(r);
      if ok {
        peers := peers[r.nodeName := r];
      }
    }

    method RemovePeer(nodeName: string) returns (ok: bool)
      requires Valid()
      modifies this
      ensures Valid() && Outcome(ok, Model()) == Step(old(Model()), Op.RemovePeer(nodeName))
    {
      StepComplete(Model(), Op.RemovePeer(nodeName));
      if nodeName == "" {
        return false;
      }
      if nodeName !in peers {
        return true;
      }
      assert PeerOk(peers, nodeName);
      RemovePeerEntries(peers[nodeName]);
      peers := peers - {nodeName};
      return true;
    }

    /** Forgets every peer first, then deletes their entries one peer at a time, in any order. */
    method FlushTenant()
      requires Valid()
      modifies this
      ensures Valid() && Model() == Step(old(Model()), Op.FlushTenant).state
    {
      var left := peers;
      peers := map[];
      while left != map[]
        invariant peers == map[] && AllComplete(left)
        invariant Flushed(tables, left) == Flushed(old(tables), old(peers))
        decreases |left|
      {
        var n :| n in left;
        assert PeerOk(left, n);
        FlushOne(tables, left, n);
        RestComplete(left, n);
        RemovePeerEntries(left[n]);
        left := left - {n};
      }
      FlushNone(tables);
    }
  }
}
