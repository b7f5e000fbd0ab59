/** What the steps of the tenant system achieve: blocks are owned, records agree with their allocators, failed work is
    undone, and requests are served when nothing outside fails. */
module TenantProgress {
  import opened Ipv4
  import TrieModel
  import TrieTheorems
  import IpamModel
  import opened TenantSystem

  // ----- who moved -----

  /** An actor's position changes only by its own step. */
  lemma PcChange(s: Sys, s': Sys, id: string)
    requires Inv(s) && Next(s, s') && id in s.actors && id in s'.actors && s'.actors[id].pc != s.actors[id].pc
    ensures ActorStep(s, id, s')
  {
    if !DispatcherStep(s, s') && !exists o, m :: CallerStep(s, o, m, s') {
      var o :| ActorStep(s, o, s');
    }
  }

  /** A request gives up on an exhausted tenant only because the tenant is unknown or closing: otherwise it expands. */
  lemma ExhaustedExpands(ss: seq<Sys>, i: nat, id: string)
    requires IsRun(ss) && i + 1 < |ss| && id in ss[i].actors && id in ss[i + 1].actors
    requires ss[i].actors[id].pc.Exhausted? && !ss[i + 1].actors[id].pc.Exhausted?
    requires id in ss[i].recs && !IsClosing(ss[i], id)
    ensures ss[i + 1].actors[id].pc == GrowTrie(ss[i].actors[id].pc.m, 0)
  {
    RunInv(ss, i);
    PcChange(ss[i], ss[i + 1], id);
    assert TenantOk(ss[i], id);
  }

  // ----- blocks and records -----

  predicate Ensuring(d: Dispatcher, id: string) {
    (d.EnsureBuild? || d.EnsureCommit? || d.EnsureRollback?) && d.id == id
  }

  /** A block belongs to a recorded tenant or to the one being ensured, or it is the root, which is never freed. */
  predicate BlockOwned(s: Sys, id: string) {
    id in s.trie.alloc ==> id in s.recs || Ensuring(s.disp, id) || s.trie.alloc[id].Root?
  }

  lemma DispatcherOwned(s: Sys, s': Sys, id: string)
    requires Inv(s) && DispatcherStep(s, s') && BlockOwned(s, id)
    ensures BlockOwned(s', id)
  {
    match s.disp
    case EnsureAllocate(x) =>
      var r :| TrieModel.AllocateStep(s.trie, x, s'.trie, r)
        && s' == s.(trie := s'.trie, disp := if r.Ok? then EnsureBuild(x, r.value) else Idle);
      TrieAllocateFrame(s.trie, x, s'.trie, r);
    case EnsureRollback(x) =>
      var ok :| TrieModel.DeallocateStep(s.trie, x, s'.trie, ok);
      TrieDeallocateFrame(s.trie, x, s'.trie, ok);
    case RemoveSubnet(x) =>
      var ok :| TrieModel.DeallocateStep(s.trie, x, s'.trie, ok);
      TrieDeallocateFrame(s.trie, x, s'.trie, ok);
    case _ =>
  }

  lemma ActorOwned(s: Sys, o: string, s': Sys, id: string)
    requires Inv(s) && ActorStep(s, o, s') && BlockOwned(s, id)
    ensures BlockOwned(s', id)
  {
    assert TenantOk(s, o);
    if s.actors[o].pc.GrowTrie? {
      var r :| TrieModel.ExpandStep(s.trie, o, s'.trie, r);
      TrieExpandFrame(s.trie, o, s'.trie, r);
    }
  }

  lemma NextOwned(s: Sys, s': Sys, id: string)
    requires Inv(s) && Next(s, s') && BlockOwned(s, id)
    ensures BlockOwned(s', id)
  {
    if DispatcherStep(s, s') {
      DispatcherOwned(s, s', id);
    } else if o, m :| CallerStep(s, o, m, s') {
    } else {
      var o :| ActorStep(s, o, s');
      ActorOwned(s, o, s', id);
    }
  }

  /** In every run no block is lost: a failed EnsureTenant gives its block back. */
  lemma {:induction false} RunOwned(ss: seq<Sys>, i: nat, id: string)
    requires IsRun(ss) && i < |ss|
    ensures BlockOwned(ss[i], id)
  {
    if i > 0 {
      RunInv(ss, i - 1);
      RunOwned(ss, i - 1, id);
      NextOwned(ss[i - 1], ss[i], id);
    }
  }

  /** Between commands the blocks below the root belong exactly to the recorded tenants, all of them ready. */
  lemma IdleOwnership(ss: seq<Sys>, i: nat, id: string)
    requires IsRun(ss) && i < |ss| && ss[i].disp.Idle?
    ensures id in ss[i].recs ==> id in ss[i].trie.alloc && ss[i].recs[id].state == Ready && id in ss[i].actors
    ensures id in ss[i].trie.alloc && ss[i].trie.alloc[id].Child? ==> id in ss[i].recs
  {
    RunInv(ss, i);
    RunOwned(ss, i, id);
    assert TenantOk(ss[i], id);
  }

  // ----- records and allocators -----

  /** The record's subnet is the allocator's network, except between the two writes of an expansion; the address an
      actor is attaching or releasing is recorded under its pod. */
  predicate RecordAgrees(r: Record, pc: Pc) {
    && (if pc.GrowRecord? then pc.net == r.ipam.network else r.subnet == r.ipam.network)
    && (pc.Attach? || pc.Release? ==>
          pc.m.EnsurePod? && pc.m.key in r.ipam.pods && r.ipam.pods[pc.m.key] == pc.got)
  }

  predicate TenantAgrees(s: Sys, id: string) {
    id in s.recs ==> RecordAgrees(s.recs[id], if id in s.actors then s.actors[id].pc else Waiting)
  }

  lemma DispatcherAgrees(s: Sys, s': Sys, id: string)
    requires Inv(s) && DispatcherStep(s, s') && TenantAgrees(s, id)
    ensures TenantAgrees(s', id)
  {
    assert TenantOk(s, id);
    match s.disp
    case EnsureCommit(_, _) =>
    case EnsureStart(_) =>
    case RemoveStop(_) =>
    case RemoveActor(_) =>
    case _ =>
      assert s'.actors == s.actors;
  }

  lemma MoveAgrees(a: Actor, a': Actor, r: Record, r': Record)
    requires RecordAgrees(r, a.pc) && !IsQuiet(a.pc) && !a.pc.GrowTrie? && RecordMove(a, a', r, r')
    ensures RecordAgrees(r', a'.pc)
  {
    match a.pc
    case Allocate(m, n) =>
      var got :| IpamModel.AllocateStep(r.ipam, m.key, m.info, r'.ipam, got)
        && a' == if got.Ok? then a.(pc := Attach(m, got.value), took := true) else a.(pc := Exhausted(m, n));
    case Release(m, got) =>
    case GrowIpam(m, n, net) =>
      var ok :| IpamModel.ExpandStep(r.ipam, net, r'.ipam, ok)
        && a' == a.(pc := if ok then GrowRecord(m, n, net) else Answer(m, false));
    case GrowRecord(m, n, net) =>
  }

  lemma QuietAgrees(a: Actor, a': Actor, r: Record, known: bool, closing: bool)
    requires RecordAgrees(r, a.pc) && IsQuiet(a.pc) && QuietMove(a, a', known, closing)
    ensures RecordAgrees(r, a'.pc)
  {
  }

  lemma ActorAgrees(s: Sys, o: string, s': Sys, id: string)
    requires Inv(s) && ActorStep(s, o, s') && TenantAgrees(s, id)
    ensures TenantAgrees(s', id)
  {
    assert TenantOk(s, o);
    if o == id {
      var a, a' := s.actors[id], s'.actors[id];
      if IsQuiet(a.pc) {
        QuietAgrees(a, a', s.recs[id], true, IsClosing(s, id));
      } else if !a.pc.GrowTrie? {
        MoveAgrees(a, a', s.recs[id], s'.recs[id]);
      }
    }
  }

  lemma {:induction false} RunAgrees(ss: seq<Sys>, i: nat, id: string)
    requires IsRun(ss) && i < |ss|
    ensures TenantAgrees(ss[i], id)
  {
    if i > 0 {
      RunInv(ss, i - 1);
      RunAgrees(ss, i - 1, id);
      var s, s' := ss[i - 1], ss[i];
      if DispatcherStep(s, s') {
        DispatcherAgrees(s, s', id);
      } else if o, m :| CallerStep(s, o, m, s') {
      } else {
        var o :| ActorStep(s, o, s');
        ActorAgrees(s, o, s', id);
      }
    }
  }

  /** In every run a record's subnet is its allocator's network, but for the moment between the two writes of an
      expansion. */
  lemma SubnetIsNetwork(ss: seq<Sys>, i: nat, id: string)
    requires IsRun(ss) && i < |ss| && id in ss[i].recs
    requires id in ss[i].actors ==> !ss[i].actors[id].pc.GrowRecord?
    ensures ss[i].recs[id].subnet == ss[i].recs[id].ipam.network
  {
    RunAgrees(ss, i, id);
  }

  /** A failed attachment gives its address back: the pod is forgotten, nobody holds the address, one more remains. */
  lemma ReleaseGivesBack(ss: seq<Sys>, i: nat, id: string)
    requires IsRun(ss) && i + 1 < |ss| && id in ss[i].actors && id in ss[i + 1].actors
    requires ss[i].actors[id].pc.Release? && !ss[i + 1].actors[id].pc.Release?
    ensures id in ss[i].recs && id in ss[i + 1].recs
    ensures
      var pc, r, r' := ss[i].actors[id].pc, ss[i].recs[id].ipam, ss[i + 1].recs[id].ipam;
      && pc.m.EnsurePod? && pc.m.key in r.pods && r.pods[pc.m.key] == pc.got
      && pc.m.key !in r'.pods && (forall k :: k in r'.pods ==> r'.pods[k].ip != pc.got.ip)
      && IpamModel.Remaining(r') == IpamModel.Remaining(r) + 1
      && ss[i + 1].actors[id].pc == Answer(pc.m, false)
  {
    var s, s' := ss[i], ss[i + 1];
    RunInv(ss, i);
    RunAgrees(ss, i, id);
    PcChange(s, s', id);
    assert TenantOk(s, id);
    var got := s.actors[id].pc.got;
    var r, r' := s.recs[id].ipam, s'.recs[id].ipam;
    var ok :| IpamModel.FreeStep(r, got.ip, r', ok);
    IpamModel.FreeKeeps(r, got.ip, r', ok);
  }

  // ----- a pod is served -----

  /** The system after a step of tenant id's actor. */
  function Moved(s: Sys, id: string, t: Trie, r: Record, a: Actor): Sys
    requires id in s.recs && id in s.actors
  {
    s.(trie := t, recs := s.recs[id := r], actors := s.actors[id := a])
  }

  /** A ready tenant with an actor at pc. */
  ghost predicate At(s: Sys, id: string, pc: Pc) {
    Inv(s) && id in s.recs && s.recs[id].state == Ready && id in s.actors && s.actors[id].pc == pc
  }

  lemma QuietStep(s: Sys, id: string, from: Pc, to: Pc) returns (s': Sys)
    requires At(s, id, from) && IsQuiet(from)
    requires QuietMove(s.actors[id], s.actors[id].(pc := to), true, false)
    ensures ActorStep(s, id, s') && At(s', id, to)
    ensures s'.trie == s.trie && s'.recs == s.recs
  {
    s' := Moved(s, id, s.trie, s.recs[id], s.actors[id].(pc := to));
    assert s.recs == s.recs[id := s.recs[id]];
    ActorKeepsInv(s, id, s');
  }

  lemma RecordStep(s: Sys, id: string, from: Pc, a: Actor, r: Record) returns (s': Sys)
    requires At(s, id, from) && !IsQuiet(from) && !from.GrowTrie?
    requires r.state == Ready && RecordMove(s.actors[id], a, s.recs[id], r)
    ensures ActorStep(s, id, s') && At(s', id, a.pc)
    ensures s'.trie == s.trie && s'.recs == s.recs[id := r]
  {
    s' := Moved(s, id, s.trie, r, a);
    ActorKeepsInv(s, id, s');
  }

  /** The tenant's block doubles. */
  lemma GrowStep(s: Sys, id: string, m: Msg) returns (s': Sys, net: Cidr)
    requires At(s, id, GrowTrie(m, 0)) && TrieModel.CanMerge(s.trie, id)
    ensures ActorStep(s, id, s') && At(s', id, GrowBackend(m, 0, net)) && s'.recs == s.recs
    ensures id in s.trie.alloc && s'.trie == TrieModel.Merge(s.trie, id)
    ensures net == TrieModel.PrefixAt(s.trie.root, s.trie.alloc[id].up) && Inside(Block(s.trie, id), net)
  {
    assert TenantOk(s, id);
    TrieModel.UnderInside(s.trie.root, s.trie.alloc[id], s.trie.alloc[id].up);
    net := TrieModel.PrefixAt(s.trie.root, s.trie.alloc[id].up);
    s' := Moved(s, id, TrieModel.Merge(s.trie, id), s.recs[id], s.actors[id].(pc := GrowBackend(m, 0, net)));
    assert s.recs == s.recs[id := s.recs[id]];
    assert TrieModel.ExpandStep(s.trie, id, s'.trie, Ok(net));
    ActorKeepsInv(s, id, s');
  }

  /** The allocator moves to the grown network. */
  lemma GrowIpamStep(s: Sys, id: string, m: Msg, net: Cidr) returns (s': Sys)
    requires At(s, id, GrowIpam(m, 0, net)) && Inside(s.recs[id].ipam.network, net)
    ensures ActorStep(s, id, s') && At(s', id, GrowRecord(m, 0, net)) && s'.trie == s.trie
    ensures s'.recs == s.recs[id := s.recs[id].(ipam := s'.recs[id].ipam)]
    ensures s'.recs[id].ipam.network == net && s'.recs[id].ipam.pods == s.recs[id].ipam.pods
  {
    assert TenantOk(s, id);
    var ipam := s.recs[id].ipam;
    var ipam' := ExpandedIpam(ipam, net);
    s' := RecordStep(s, id, GrowIpam(m, 0, net), s.actors[id].(pc := GrowRecord(m, 0, net)),
      s.recs[id].(ipam := ipam'));
  }

  lemma ExpandedIpam(s: Ipam, net: Cidr) returns (s': Ipam)
    requires IpamModel.Inv(s) && Inside(s.network, net)
    ensures IpamModel.ExpandStep(s, net, s', true) && s'.network == net && s'.pods == s.pods
  {
    s' := if IpamModel.Covers(net, s.network) && IpamModel.AllInRange(s.pods, net)
          then IpamModel.Ipam(net, IpamModel.IndexMap(s.pods, net).Values, s.pods) else s;
    IpamModel.ExpandSucceeds(s, net, s', IpamModel.Covers(net, s.network) && IpamModel.AllInRange(s.pods, net));
  }

  /** With room in the allocator the pod gets an address nobody held. */
  lemma AttachStep(s: Sys, id: string, m: Msg, n: nat) returns (s': Sys, got: IpamModel.Info)
    requires At(s, id, Allocate(m, n)) && m.EnsurePod? && !IpamModel.Full(s.recs[id].ipam)
    ensures ActorStep(s, id, s') && At(s', id, Attach(m, got)) && s'.trie == s.trie
    ensures s'.recs[id].subnet == s.recs[id].subnet && s'.recs[id].ipam.network == s.recs[id].ipam.network
    ensures s'.recs[id].ipam.pods == s.recs[id].ipam.pods[m.key := got]
    ensures IpamModel.InPodRange(s.recs[id].ipam.network, got.ip)
    ensures forall k :: k in s.recs[id].ipam.pods ==> s.recs[id].ipam.pods[k].ip != got.ip
  {
    assert TenantOk(s, id);
    var ipam := s.recs[id].ipam;
    var ipam';
    ipam', got := AllocatedIpam(ipam, m.key, m.info);
    IpamModel.AllocateKeeps(ipam, m.key, m.info, ipam', Ok(got));
    s' := RecordStep(s, id, Allocate(m, n), s.actors[id].(pc := Attach(m, got), took := true),
      s.recs[id].(ipam := ipam'));
  }

  lemma AllocatedIpam(s: Ipam, key: string, info: IpamModel.Info) returns (s': Ipam, got: IpamModel.Info)
    requires IpamModel.Inv(s) && !IpamModel.Full(s)
    ensures IpamModel.AllocateStep(s, key, info, s', Ok(got))
    ensures s'.network == s.network && s'.pods == s.pods[key := got]
  {
    IpamModel.RemainingIsRoom(s);
    var i :| IpamModel.LowestFree(s, i);
    IpamModel.IndexRoundTrip(s.network, i);
    got := info.(ip := IpamModel.Address(s.network, i));
    s' := IpamModel.Take(s, key, got, i);
  }

  /** A path of steps of one tenant's actor. */
  ghost predicate ActorPath(path: seq<Sys>, id: string) {
    |path| > 0 && forall i :: 0 <= i < |path| - 1 ==> TrieModel.Valid(path[i].trie) && ActorStep(path[i], id, path[i + 1])
  }

  lemma Join(path: seq<Sys>, more: seq<Sys>, id: string) returns (all: seq<Sys>)
    requires ActorPath(path, id) && ActorPath(more, id) && path[|path| - 1] == more[0]
    ensures ActorPath(all, id) && all[0] == path[0] && all[|all| - 1] == more[|more| - 1]
  {
    all := path + more[1..];
    forall i | 0 <= i < |all| - 1
      ensures TrieModel.Valid(all[i].trie) && ActorStep(all[i], id, all[i + 1])
    {
      var k := i - (|path| - 1);
      assert k >= 0 ==> all[i] == more[k] && all[i + 1] == more[k + 1];
      assert k < 0 ==> all[i] == path[i] && all[i + 1] == path[i + 1];
    }
  }

  /** The end of a served request: a positive answer; the pod holds a new address of its tenant's block, the other pods are as before. */
  ghost predicate Served(s: Sys, s': Sys, id: string, m: Msg, got: IpamModel.Info) {
    && id in s.recs && m.EnsurePod? && At(s', id, Answer(m, true)) && id in s'.trie.alloc
    && s'.recs[id].ipam.pods == s.recs[id].ipam.pods[m.key := got]
    && InBlock(Block(s'.trie, id), Value(got.ip))
    && (forall k :: k in s.recs[id].ipam.pods ==> s.recs[id].ipam.pods[k].ip != got.ip)
  }

  lemma AttachServes(s0: Sys, s: Sys, id: string, m: Msg, n: nat) returns (path: seq<Sys>, got: IpamModel.Info)
    requires At(s, id, Allocate(m, n)) && m.EnsurePod? && !IpamModel.Full(s.recs[id].ipam)
    requires id in s0.recs && s.recs[id].ipam.pods == s0.recs[id].ipam.pods
    ensures ActorPath(path, id) && path[0] == s
    ensures var s' := path[|path| - 1];
      && Served(s0, s', id, m, got) && s'.trie == s.trie
      && s'.recs[id].subnet == s.recs[id].subnet && s'.recs[id].ipam.network == s.recs[id].ipam.network
  {
    var s1, s2;
    s1, got := AttachStep(s, id, m, n);
    s2 := QuietStep(s1, id, Attach(m, got), Answer(m, true));
    assert TenantOk(s2, id);
    path := [s, s1, s2];
  }

  lemma ExhaustStep(s: Sys, id: string, m: Msg) returns (s': Sys)
    requires At(s, id, Allocate(m, 0)) && m.EnsurePod? && IpamModel.Full(s.recs[id].ipam)
    ensures ActorStep(s, id, s') && At(s', id, Exhausted(m, 0)) && s'.trie == s.trie && s'.recs == s.recs
  {
    assert IpamModel.AllocateStep(s.recs[id].ipam, m.key, m.info, s.recs[id].ipam, Err(""));
    assert s.recs == s.recs[id := s.recs[id]];
    s' := RecordStep(s, id, Allocate(m, 0), s.actors[id].(pc := Exhausted(m, 0)), s.recs[id]);
  }

  /** A full tenant whose block can merge gets the merged block. */
  lemma ExhaustedGrows(s: Sys, id: string, m: Msg) returns (path: seq<Sys>, net: Cidr)
    requires At(s, id, Allocate(m, 0)) && m.EnsurePod? && IpamModel.Full(s.recs[id].ipam)
    requires TrieModel.CanMerge(s.trie, id)
    ensures ActorPath(path, id) && path[0] == s && At(path[|path| - 1], id, GrowIpam(m, 0, net))
    ensures path[|path| - 1].recs == s.recs && path[|path| - 1].trie == TrieModel.Merge(s.trie, id)
    ensures id in s.trie.alloc && net == TrieModel.PrefixAt(s.trie.root, s.trie.alloc[id].up)
    ensures Inside(s.recs[id].ipam.network, net)
  {
    assert TenantOk(s, id);
    var s1 := ExhaustStep(s, id, m);
    var s2 := QuietStep(s1, id, Exhausted(m, 0), GrowTrie(m, 0));
    var s3;
    s3, net := GrowStep(s2, id, m);
    var s4 := QuietStep(s3, id, GrowBackend(m, 0, net), GrowIpam(m, 0, net));
    path := [s, s1, s2, s3, s4];
  }

  /** The record follows and the request is tried again. */
  lemma GrowRecordStep(s: Sys, id: string, m: Msg, net: Cidr) returns (s': Sys)
    requires At(s, id, GrowRecord(m, 0, net))
    ensures ActorStep(s, id, s') && At(s', id, Try(m, 1)) && s'.trie == s.trie
    ensures s'.recs[id].subnet == net && s'.recs[id].ipam == s.recs[id].ipam && !IpamModel.Full(s'.recs[id].ipam)
  {
    assert TenantOk(s, id);
    s' := RecordStep(s, id, GrowRecord(m, 0, net), s.actors[id].(pc := Try(m, 1)), s.recs[id].(subnet := net));
  }

  lemma GrownServes(s: Sys, id: string, m: Msg, net: Cidr) returns (path: seq<Sys>, got: IpamModel.Info)
    requires At(s, id, GrowIpam(m, 0, net)) && m.EnsurePod? && Inside(s.recs[id].ipam.network, net)
    ensures ActorPath(path, id) && path[0] == s
    ensures var s' := path[|path| - 1];
      Served(s, s', id, m, got) && s'.trie == s.trie && s'.recs[id].subnet == s'.recs[id].ipam.network == net
  {
    var s1 := GrowIpamStep(s, id, m, net);
    var s2 := GrowRecordStep(s1, id, m, net);
    var s3 := QuietStep(s2, id, Try(m, 1), Allocate(m, 1));
    var last;
    last, got := AttachServes(s, s3, id, m, 1);
    path := Join([s, s1, s2, s3], last, id);
  }

  /** A full tenant whose block can merge expands and serves the request: the pod gets an address of the merged block,
      record and allocator both move to that block. */
  lemma ExpansionServes(s: Sys, id: string, m: Msg) returns (path: seq<Sys>, got: IpamModel.Info)
    requires At(s, id, Allocate(m, 0)) && m.EnsurePod? && IpamModel.Full(s.recs[id].ipam)
    requires TrieModel.CanMerge(s.trie, id)
    ensures ActorPath(path, id) && path[0] == s
    ensures var s' := path[|path| - 1];
      && Served(s, s', id, m, got) && id in s.trie.alloc && s'.trie == TrieModel.Merge(s.trie, id)
      && s'.recs[id].subnet == s'.recs[id].ipam.network == TrieModel.PrefixAt(s.trie.root, s.trie.alloc[id].up)
  {
    var first, net := ExhaustedGrows(s, id, m);
    var second;
    second, got := GrownServes(first[|first| - 1], id, m, net);
    path := Join(first, second, id);
  }

  /** The actor takes up the request at the head of its mailbox. */
  lemma Admit(s: Sys, id: string, m: Msg) returns (path: seq<Sys>)
    requires At(s, id, Waiting) && s.actors[id].inbox != [] && s.actors[id].inbox[0] == m && m.EnsurePod?
    ensures ActorPath(path, id) && path[0] == s && At(path[|path| - 1], id, Allocate(m, 0))
    ensures path[|path| - 1].trie == s.trie && path[|path| - 1].recs == s.recs
  {
    var a := s.actors[id];
    var b := a.(inbox := a.inbox[1..], late := false, took := false, pc := Check(m));
    assert s.recs == s.recs[id := s.recs[id]];
    var s1 := Moved(s, id, s.trie, s.recs[id], b);
    ActorKeepsInv(s, id, s1);
    var s2 := QuietStep(s1, id, Check(m), Try(m, 0));
    var s3 := QuietStep(s2, id, Try(m, 0), Allocate(m, 0));
    path := [s, s1, s2, s3];
  }

  /** A ready tenant serves the request at the head of its mailbox if it has an address left or its block can merge. */
  lemma RequestServed(s: Sys, id: string, m: Msg) returns (path: seq<Sys>, got: IpamModel.Info)
    requires At(s, id, Waiting) && s.actors[id].inbox != [] && s.actors[id].inbox[0] == m && m.EnsurePod?
    requires !IpamModel.Full(s.recs[id].ipam) || TrieModel.CanMerge(s.trie, id)
    ensures ActorPath(path, id) && path[0] == s && Served(s, path[|path| - 1], id, m, got)
  {
    var first := Admit(s, id, m);
    var s1, second := first[|first| - 1], [];
    if IpamModel.Full(s.recs[id].ipam) {
      second, got := ExpansionServes(s1, id, m);
    } else {
      second, got := AttachServes(s, s1, id, m, 0);
    }
    path := Join(first, second, id);
  }

  /** A call on a ready tenant whose actor is idle is queued and answered with an address. */
  lemma CallServed(s: Sys, id: string, m: Msg) returns (path: seq<Sys>, got: IpamModel.Info)
    requires At(s, id, Waiting) && s.actors[id].inbox == [] && m.EnsurePod?
    requires !IpamModel.Full(s.recs[id].ipam) || TrieModel.CanMerge(s.trie, id)
    ensures ActorPath(path, id) && CallerStep(s, id, m, path[0]) && Served(s, path[|path| - 1], id, m, got)
  {
    var s1 := s.(actors := s.actors[id := Queue(s.actors[id], m)]);
    CallerKeeps(s, id, m, s1);
    path, got := RequestServed(s1, id, m);
  }

  // ----- a tenant is ensured, or everything is undone -----

  /** With a free leaf and working backends EnsureTenant records the tenant on the best leaf, ready and empty, and starts
      its actor; nothing else changes. */
  lemma EnsureServed(s: Sys, id: string, p: TrieModel.Path) returns (path: seq<Sys>)
    requires Inv(s) && s.disp.Idle? && id != "" && id !in s.recs && id !in s.trie.alloc && id !in s.actors
    requires TrieModel.Best(s.trie, p) && s.trie.root.ones + TrieModel.Depth(p) <= 30
    ensures |path| == 6 && path[0] == s
    ensures forall i :: 0 <= i < 5 ==> TrieModel.Valid(path[i].trie) && DispatcherStep(path[i], path[i + 1])
    ensures var net := TrieModel.PrefixAt(s.trie.root, p);
      path[5] == Sys(TrieModel.AllocateAt(s.trie, id, p), s.recs[id := Record(net, IpamModel.New(net), Ready)],
        s.actors[id := FreshActor()], Idle)
  {
    var net := TrieModel.PrefixAt(s.trie.root, p);
    var s1 := s.(disp := EnsureAllocate(id));
    var s2 := s1.(trie := TrieModel.AllocateAt(s.trie, id, p), disp := EnsureBuild(id, net));
    assert TrieModel.AllocateStep(s.trie, id, s2.trie, Ok(net));
    TrieModel.AllocateValid(s.trie, id, p);
    var s3 := s2.(disp := EnsureCommit(id, net));
    var s4 := s3.(recs := s.recs[id := Record(net, IpamModel.New(net), Ready)], disp := EnsureStart(id));
    var s5 := s4.(actors := s.actors[id := FreshActor()], disp := Idle);
    path := [s, s1, s2, s3, s4, s5];
  }

  /** An EnsureTenant whose backend fails leaves a full trie with leaves of /30 or finer exactly as it was. */
  lemma FailedEnsureUndone(s: Sys, s1: Sys, s2: Sys, s3: Sys, id: string, n: nat)
    requires Inv(s) && s.disp == EnsureAllocate(id) && id !in s.trie.alloc
    requires TrieTheorems.FullAt(s.trie, n) && n > 0 && s.trie.root.ones + n >= 30
    requires DispatcherStep(s, s1) && s1.disp.EnsureBuild?
    requires TrieModel.Valid(s1.trie) && DispatcherStep(s1, s2) && s2.disp.EnsureRollback?
    requires TrieModel.Valid(s2.trie) && DispatcherStep(s2, s3)
    ensures s3 == s.(disp := Idle)
  {
    var r :| TrieModel.AllocateStep(s.trie, id, s1.trie, r)
      && s1 == s.(trie := s1.trie, disp := if r.Ok? then EnsureBuild(id, r.value) else Idle);
    var p :| TrieModel.Best(s.trie, p) && r == Ok(TrieModel.PrefixAt(s.trie.root, p))
      && s1.trie == TrieModel.AllocateAt(s.trie, id, p);
    var ok :| TrieModel.DeallocateStep(s2.trie, id, s3.trie, ok) && s3 == s2.(trie := s3.trie, disp := Idle);
    TrieTheorems.RoundTrip(s.trie, n, id, p, 0, s3.trie, ok);
  }
}
