/** Tenant lifecycle as a step system: one dispatcher running Ensure and Remove commands serially, one
    actor per tenant with a FIFO mailbox, and the subnet trie and each tenant's IPAM as atomic objects.
    Backend and policy calls may succeed or fail at will. */
module TenantSystem {
  import Bits
  import opened Ipv4
  import TrieModel
  import IpamModel

  type Trie = TrieModel.Trie
  type Ipam = IpamModel.Ipam

  datatype TenantState = Ready | Closing

  datatype Record = Record(subnet: Cidr, ipam: Ipam, state: TenantState)

  datatype Msg = EnsurePod(key: string, info: IpamModel.Info) | RemovePod | UpdatePod | Stop

  /** Where an actor is in handling a message. `attempt` counts the retries of ensurePodWithExpansion. */
  datatype Pc =
    | Waiting
    | Check(m: Msg)
    | Try(m: Msg, attempt: nat)
    | Allocate(m: Msg, attempt: nat)
    | Attach(m: Msg, got: IpamModel.Info)
    | Release(m: Msg, got: IpamModel.Info)
    | Exhausted(m: Msg, attempt: nat)
    | GrowTrie(m: Msg, attempt: nat)
    | GrowBackend(m: Msg, attempt: nat, net: Cidr)
    | GrowIpam(m: Msg, attempt: nat, net: Cidr)
    | GrowRecord(m: Msg, attempt: nat, net: Cidr)
    | Answer(m: Msg, ok: bool)
    | Stopped

  /** One answered message. `late`: dequeued while the tenant was closing. `took`: an address was allocated for it. */
  datatype Entry = Entry(m: Msg, late: bool, took: bool)

  /** `sent` and `log` are histories: every message ever queued, and every message answered, in order. */
  datatype Actor = Actor(inbox: seq<Msg>, pc: Pc, late: bool, took: bool, sent: seq<Msg>, log: seq<Entry>)

  datatype Dispatcher =
    | Idle
    | EnsureAllocate(id: string)
    | EnsureBuild(id: string, net: Cidr)
    | EnsureCommit(id: string, net: Cidr)
    | EnsureStart(id: string)
    | EnsureRollback(id: string)
    | RemoveMark(id: string)
    | RemoveSubnet(id: string)
    | RemoveStop(id: string)
    | RemoveWait(id: string)
    | RemoveActor(id: string)
    | RemoveRecord(id: string)

  datatype Sys = Sys(trie: Trie, recs: map<string, Record>, actors: map<string, Actor>, disp: Dispatcher)

  const MAX_RETRIES := 2
  const MAILBOX := 128

  function FreshActor(): Actor {
    Actor([], Waiting, false, false, [], [])
  }

  ghost predicate Init(s: Sys) {
    && TrieModel.Valid(s.trie) && s.trie.alloc == map[]
    && s.recs == map[] && s.actors == map[] && s.disp == Idle
  }

  predicate IsClosing(s: Sys, id: string) {
    id in s.recs && s.recs[id].state == Closing
  }

  // ----- steps of the dispatcher -----

  /** EnsureTenant and RemoveTenant, one atomic action at a time. */
  ghost predicate DispatcherStep(s: Sys, s': Sys)
    requires TrieModel.Valid(s.trie)
  {
    match s.disp
    case Idle =>
      exists id: string ::
        || (id != "" && id !in s.recs && s' == s.(disp := EnsureAllocate(id)))
        || (id != "" && id in s.recs && s' == s.(disp := RemoveMark(id)))
    case EnsureAllocate(id) =>
      exists r :: TrieModel.AllocateStep(s.trie, id, s'.trie, r)
        && s' == s.(trie := s'.trie, disp := if r.Ok? then EnsureBuild(id, r.value) else Idle)
    case EnsureBuild(id, net) =>
      s' == s.(disp := EnsureCommit(id, net)) || s' == s.(disp := EnsureRollback(id))
    case EnsureCommit(id, net) =>
      if net.ones > 30 || id in s.recs then s' == s.(disp := EnsureRollback(id))
      else s' == s.(recs := s.recs[id := Record(net, IpamModel.New(net), Ready)], disp := EnsureStart(id))
    case EnsureStart(id) =>
      s' == s.(actors := if id in s.actors then s.actors else s.actors[id := FreshActor()], disp := Idle)
    case EnsureRollback(id) =>
      exists ok :: TrieModel.DeallocateStep(s.trie, id, s'.trie, ok) && s' == s.(trie := s'.trie, disp := Idle)
    case RemoveMark(id) =>
      s' == s.(recs := if id in s.recs then s.recs[id := s.recs[id].(state := Closing)] else s.recs,
               disp := RemoveSubnet(id))
    case RemoveSubnet(id) =>
      exists ok :: TrieModel.DeallocateStep(s.trie, id, s'.trie, ok)
        && s' == s.(trie := s'.trie, disp := RemoveStop(id))
    case RemoveStop(id) =>
      if id !in s.actors then s' == s.(disp := RemoveRecord(id))
      else |s.actors[id].inbox| < MAILBOX && s' == s.(actors := s.actors[id := Queue(s.actors[id], Stop)], disp := RemoveWait(id))
    case RemoveWait(id) =>
      id in s.actors && s.actors[id].pc.Stopped? && s' == s.(disp := RemoveActor(id))
    case RemoveActor(id) =>
      s' == s.(actors := s.actors - {id}, disp := RemoveRecord(id))
    case RemoveRecord(id) =>
      s' == s.(recs := s.recs - {id}, disp := Idle)
  }

  // ----- steps of an actor -----

  function Queue(a: Actor, m: Msg): Actor {
    a.(inbox := a.inbox + [m], sent := a.sent + [m])
  }

  function Finish(a: Actor, m: Msg, pc: Pc): Actor {
    a.(pc := pc, log := a.log + [Entry(m, a.late, a.took)])
  }

  /** A caller queues a pod operation. */
  ghost predicate CallerStep(s: Sys, id: string, m: Msg, s': Sys) {
    && id in s.actors && !m.Stop? && |s.actors[id].inbox| < MAILBOX
    && s' == s.(actors := s.actors[id := Queue(s.actors[id], m)])
  }

  /** The tenant's actor moves; its record and the trie may change with it. */
  ghost predicate ActorStep(s: Sys, id: string, s': Sys)
    requires TrieModel.Valid(s.trie)
  {
    && id in s.actors && id in s'.actors
    && s' == s.(trie := s'.trie, recs := s'.recs, actors := s.actors[id := s'.actors[id]])
    && ActorMove(s, id, s.actors[id], s'.actors[id], s'.recs, s'.trie)
  }

  ghost predicate ActorMove(s: Sys, id: string, a: Actor, a': Actor, recs': map<string, Record>, trie': Trie)
    requires TrieModel.Valid(s.trie)
  {
    if IsQuiet(a.pc) then recs' == s.recs && trie' == s.trie && QuietMove(a, a', id in s.recs, IsClosing(s, id))
    else if a.pc.GrowTrie? then recs' == s.recs && TrieMove(s, id, a, a', trie')
    else trie' == s.trie && id in s.recs && id in recs' && recs' == s.recs[id := recs'[id]] &&
         RecordMove(a, a', s.recs[id], recs'[id])
  }

  /** Points at which the actor touches neither the trie nor its record. */
  predicate IsQuiet(pc: Pc) {
    !pc.Allocate? && !pc.Release? && !pc.GrowTrie? && !pc.GrowIpam? && !pc.GrowRecord?
  }

  ghost predicate QuietMove(a: Actor, a': Actor, known: bool, closing: bool)
    requires IsQuiet(a.pc)
  {
    match a.pc
    case Waiting => a.inbox != [] && Dequeued(a, a', closing)
    case Check(m) => a' == a.(pc := if closing then Answer(m, false) else Try(m, 0))
    case Try(m, n) => a' == a.(pc := if !known || closing then Answer(m, false) else Allocate(m, n))
    case Attach(m, got) => a' == a.(pc := Release(m, got)) || exists ok :: a' == a.(pc := Answer(m, ok))
    case Exhausted(m, n) =>
      a' == a.(pc := if n == MAX_RETRIES || !known || closing then Answer(m, false) else GrowTrie(m, n))
    case GrowBackend(m, n, net) => a' == a.(pc := GrowIpam(m, n, net)) || a' == a.(pc := Answer(m, false))
    case Answer(m, ok) => a' == Finish(a, m, Waiting)
    case Stopped => false
  }

  ghost predicate TrieMove(s: Sys, id: string, a: Actor, a': Actor, trie': Trie)
    requires TrieModel.Valid(s.trie) && a.pc.GrowTrie?
  {
    if id !in s.recs then trie' == s.trie && a' == a.(pc := Answer(a.pc.m, false))
    else exists r :: TrieModel.ExpandStep(s.trie, id, trie', r)
               && a' == a.(pc := if r.Ok? then GrowBackend(a.pc.m, a.pc.attempt, r.value) else Answer(a.pc.m, false))
  }

  /** The actor works on its tenant's record. */
  ghost predicate RecordMove(a: Actor, a': Actor, r: Record, r': Record)
    requires !IsQuiet(a.pc) && !a.pc.GrowTrie?
  {
    match a.pc
    case Allocate(m, n) =>
      r' == r.(ipam := r'.ipam) && m.EnsurePod? &&
      (exists got :: IpamModel.AllocateStep(r.ipam, m.key, m.info, r'.ipam, got)
        && a' == if got.Ok? then a.(pc := Attach(m, got.value), took := true) else a.(pc := Exhausted(m, n)))
    case Release(m, got) =>
      r' == r.(ipam := r'.ipam) && a' == a.(pc := Answer(m, false)) &&
      (exists ok :: IpamModel.FreeStep(r.ipam, got.ip, r'.ipam, ok))
    case GrowIpam(m, n, net) =>
      r' == r.(ipam := r'.ipam) &&
      (exists ok :: IpamModel.ExpandStep(r.ipam, net, r'.ipam, ok)
        && a' == a.(pc := if ok then GrowRecord(m, n, net) else Answer(m, false)))
    case GrowRecord(m, n, net) =>
      r' == r.(subnet := net) && a' == a.(pc := Try(m, n + 1))
  }

  /** The loop takes the oldest message. */
  ghost predicate Dequeued(a: Actor, a': Actor, closing: bool)
    requires a.inbox != []
  {
    var m := a.inbox[0];
    var b := a.(inbox := a.inbox[1..], late := closing, took := false);
    match m
    case EnsurePod(_, _) => a' == b.(pc := Check(m))
    case Stop => a' == Finish(b, m, Stopped)
    case _ => exists ok :: a' == b.(pc := Answer(m, ok))
  }

  ghost predicate Next(s: Sys, s': Sys)
    requires TrieModel.Valid(s.trie)
  {
    || DispatcherStep(s, s')
    || (exists id, m :: CallerStep(s, id, m, s'))
    || (exists id :: ActorStep(s, id, s'))
  }

  // ----- the invariant -----

  /** The block the trie gives a tenant. */
  ghost function Block(t: Trie, id: string): Cidr
    requires TrieModel.Valid(t) && id in t.alloc
  {
    TrieModel.PrefixAt(t.root, t.alloc[id])
  }

  /** A tenant's IPAM network lies in its trie block; a ready tenant has a block. */
  ghost predicate RecordOk(t: Trie, id: string, r: Record)
    requires TrieModel.Valid(t)
  {
    && id != ""
    && IpamModel.Inv(r.ipam) && r.ipam.network.ones <= 30
    && (r.state == Ready ==> id in t.alloc)
    && (id in t.alloc ==> Holds(Block(t, id), r.ipam.network))
  }

  predicate Holds(outer: Cidr, inner: Cidr) {
    outer.ones <= inner.ones && Inside(inner, outer)
  }

  /** What an actor knows about its tenant at each point. */
  ghost predicate PcOk(t: Trie, id: string, r: Record, a: Actor)
    requires TrieModel.Valid(t)
  {
    && (a.late ==> r.state == Closing && !a.took && (a.pc.Waiting? || a.pc.Check? || a.pc.Answer? || a.pc.Stopped?))
    && match a.pc
       case Check(m) => m.EnsurePod?
       case Try(m, n) => m.EnsurePod? && n <= 1 && (n == 1 ==> !IpamModel.Full(r.ipam))
       case Allocate(m, n) => m.EnsurePod? && n <= 1 && (n == 1 ==> !IpamModel.Full(r.ipam))
       case Attach(m, _) => m.EnsurePod?
       case Release(m, _) => m.EnsurePod?
       case Exhausted(m, n) => m.EnsurePod? && n == 0
       case GrowTrie(m, n) => m.EnsurePod? && n == 0
       case GrowBackend(m, n, net) => m.EnsurePod? && n == 0 && Growing(t, id, r, net)
       case GrowIpam(m, n, net) => m.EnsurePod? && n == 0 && Growing(t, id, r, net)
       case GrowRecord(m, n, net) => m.EnsurePod? && n == 0 && !IpamModel.Full(r.ipam)
       case _ => true
  }

  /** The trie has handed out net, larger than the IPAM network, and still does unless the block was freed. */
  ghost predicate Growing(t: Trie, id: string, r: Record, net: Cidr)
    requires TrieModel.Valid(t)
  {
    net.ones < r.ipam.network.ones && (id in t.alloc ==> Block(t, id) == net)
  }

  ghost predicate TenantOk(s: Sys, id: string)
    requires TrieModel.Valid(s.trie)
  {
    && (id in s.recs ==> RecordOk(s.trie, id, s.recs[id]))
    && (id in s.actors ==> id in s.recs && PcOk(s.trie, id, s.recs[id], s.actors[id]))
    && (id in s.recs && id !in s.actors ==> s.disp == EnsureStart(id) || s.disp == RemoveRecord(id))
    && (IsClosing(s, id) <==> s.disp in {RemoveSubnet(id), RemoveStop(id), RemoveWait(id), RemoveActor(id), RemoveRecord(id)})
  }

  /** The tenant's block is back in the trie, unless it was the root, which the trie never takes back. */
  predicate Freed(s: Sys, id: string) {
    id in s.trie.alloc ==> s.trie.alloc[id].Root?
  }

  ghost predicate DispatcherOk(s: Sys)
    requires TrieModel.Valid(s.trie)
  {
    match s.disp
    case Idle => true
    case EnsureAllocate(id) => id != "" && id !in s.recs
    case EnsureBuild(id, net) => id != "" && id !in s.recs && id in s.trie.alloc && Block(s.trie, id) == net
    case EnsureCommit(id, net) => id != "" && id !in s.recs && id in s.trie.alloc && Block(s.trie, id) == net
    case EnsureStart(id) => id in s.recs
    case EnsureRollback(id) => id != "" && id !in s.recs
    case RemoveMark(id) => id in s.recs
    case RemoveSubnet(id) => id in s.recs
    case RemoveActor(id) => id in s.recs && Freed(s, id) && id in s.actors && s.actors[id].pc.Stopped?
    case RemoveRecord(id) => id in s.recs && Freed(s, id) && id !in s.actors
    case _ => s.disp.id in s.recs && Freed(s, s.disp.id)
  }

  ghost predicate Inv(s: Sys) {
    && TrieModel.Valid(s.trie)
    && DispatcherOk(s)
    && forall id {:trigger TenantOk(s, id)} :: TenantOk(s, id)
  }

  lemma InitInv(s: Sys)
    requires Init(s)
    ensures Inv(s)
  {
  }

  /** t' differs from t at most in what tenant id holds. */
  ghost predicate SameForOthers(t: Trie, t': Trie, id: string) {
    && TrieModel.Valid(t) && TrieModel.Valid(t') && t'.root == t.root
    && forall i :: i != id ==> (i in t'.alloc <==> i in t.alloc) && (i in t.alloc ==> t'.alloc[i] == t.alloc[i])
  }

  lemma TrieAllocateFrame(t: Trie, id: string, t': Trie, r: Result<Cidr>)
    requires TrieModel.Valid(t) && TrieModel.AllocateStep(t, id, t', r)
    ensures SameForOthers(t, t', id)
    ensures r.Ok? ==> id in t'.alloc && Block(t', id) == r.value
  {
    if t' != t {
      var p :| TrieModel.Best(t, p) && r == Ok(TrieModel.PrefixAt(t.root, p)) && t' == TrieModel.AllocateAt(t, id, p);
      TrieModel.AllocateValid(t, id, p);
    }
  }

  lemma TrieDeallocateFrame(t: Trie, id: string, t': Trie, ok: bool)
    requires TrieModel.Valid(t) && TrieModel.DeallocateStep(t, id, t', ok)
    ensures SameForOthers(t, t', id)
    ensures id in t'.alloc ==> id in t.alloc && t'.alloc[id] == t.alloc[id] && (id == "" || t.alloc[id].Root?)
  {
    if t' != t {
      TrieModel.DeallocateValid(t, id);
    }
  }

  lemma TrieExpandFrame(t: Trie, id: string, t': Trie, r: Result<Cidr>)
    requires TrieModel.Valid(t) && TrieModel.ExpandStep(t, id, t', r)
    ensures SameForOthers(t, t', id)
    ensures r.Err? ==> t' == t
    ensures r.Ok? ==> id in t.alloc && id in t'.alloc && Block(t', id) == r.value
    ensures r.Ok? ==> r.value.ones < Block(t, id).ones && Inside(Block(t, id), r.value) && t.alloc[id].Child?
  {
    if r.Ok? {
      TrieModel.MergeValid(t, id);
      TrieModel.UnderInside(t.root, t.alloc[id], t.alloc[id].up);
    }
  }

  // ----- every step keeps the invariant -----

  predicate About(d: Dispatcher, id: string) {
    d.Idle? || d.id == id
  }

  /** s' differs from s at most in tenant id and in what the dispatcher does for it. */
  ghost predicate OnlyTenant(s: Sys, s': Sys, id: string) {
    && SameForOthers(s.trie, s'.trie, id)
    && s'.recs - {id} == s.recs - {id} && s'.actors - {id} == s.actors - {id}
    && (s'.disp == s.disp || (About(s.disp, id) && About(s'.disp, id)))
  }

  lemma OtherTenant(s: Sys, s': Sys, id: string, o: string)
    requires OnlyTenant(s, s', id) && o != id && TenantOk(s, o)
    ensures TenantOk(s', o)
  {
    assert o in s.recs <==> o in s.recs - {id};
    assert o in s'.recs <==> o in s'.recs - {id};
    assert o in s.actors <==> o in s.actors - {id};
    assert o in s'.actors <==> o in s'.actors - {id};
    assert o in s.recs ==> (s.recs - {id})[o] == (s'.recs - {id})[o];
    assert o in s.actors ==> (s.actors - {id})[o] == (s'.actors - {id})[o];
  }

  /** A step about one tenant keeps the invariant if it keeps that tenant's part and the dispatcher's. */
  lemma TenantStep(s: Sys, s': Sys, id: string)
    requires Inv(s) && OnlyTenant(s, s', id) && TenantOk(s', id) && DispatcherOk(s')
    ensures Inv(s')
  {
    forall o
      ensures TenantOk(s', o)
    {
      if o != id {
        assert TenantOk(s, o);
        OtherTenant(s, s', id, o);
      }
    }
  }

  lemma EnsureBuildStep(s: Sys, s': Sys)
    requires Inv(s) && DispatcherStep(s, s') && s.disp.EnsureBuild?
    ensures Inv(s')
  {
    assert TenantOk(s, s.disp.id);
    TenantStep(s, s', s.disp.id);
  }

  lemma EnsureCommitStep(s: Sys, s': Sys)
    requires Inv(s) && DispatcherStep(s, s') && s.disp.EnsureCommit?
    ensures Inv(s')
  {
    assert TenantOk(s, s.disp.id);
    IpamModel.NewInv(s.disp.net);
    TenantStep(s, s', s.disp.id);
  }

  lemma EnsureStartStep(s: Sys, s': Sys)
    requires Inv(s) && DispatcherStep(s, s') && s.disp.EnsureStart?
    ensures Inv(s')
  {
    assert TenantOk(s, s.disp.id);
    TenantStep(s, s', s.disp.id);
  }

  lemma EnsureAllocateStep(s: Sys, s': Sys)
    requires Inv(s) && DispatcherStep(s, s') && s.disp.EnsureAllocate?
    ensures Inv(s')
  {
    var id := s.disp.id;
    assert TenantOk(s, id);
    var r :| TrieModel.AllocateStep(s.trie, id, s'.trie, r)
      && s' == s.(trie := s'.trie, disp := if r.Ok? then EnsureBuild(id, r.value) else Idle);
    TrieAllocateFrame(s.trie, id, s'.trie, r);
    TenantStep(s, s', id);
  }

  lemma DeallocateSteps(s: Sys, s': Sys)
    requires Inv(s) && DispatcherStep(s, s') && (s.disp.EnsureRollback? || s.disp.RemoveSubnet?)
    ensures Inv(s')
  {
    var id := s.disp.id;
    assert TenantOk(s, id);
    var ok :| TrieModel.DeallocateStep(s.trie, id, s'.trie, ok);
    TrieDeallocateFrame(s.trie, id, s'.trie, ok);
    TenantStep(s, s', id);
  }

  lemma RemoveSteps(s: Sys, s': Sys)
    requires Inv(s) && DispatcherStep(s, s')
    requires s.disp.RemoveMark? || s.disp.RemoveStop? || s.disp.RemoveWait? || s.disp.RemoveActor? || s.disp.RemoveRecord?
    ensures Inv(s')
  {
    var id := s.disp.id;
    assert TenantOk(s, id);
    TenantStep(s, s', id);
  }

  lemma IdleStep(s: Sys, s': Sys)
    requires Inv(s) && DispatcherStep(s, s') && s.disp.Idle?
    ensures Inv(s')
  {
    var id := s'.disp.id;
    assert TenantOk(s, id);
    TenantStep(s, s', id);
  }

  lemma CallerKeeps(s: Sys, id: string, m: Msg, s': Sys)
    requires Inv(s) && CallerStep(s, id, m, s')
    ensures Inv(s')
  {
    assert TenantOk(s, id);
    TenantStep(s, s', id);
  }

  lemma DispatcherKept(s: Sys, s': Sys, id: string)
    requires Inv(s) && OnlyTenant(s, s', id) && s'.disp == s.disp
    requires id in s.recs && id in s'.recs && id in s.actors && id in s'.actors && !s.actors[id].pc.Stopped?
    requires Freed(s, id) ==> Freed(s', id)
    ensures DispatcherOk(s')
  {
    if !s.disp.Idle? && s.disp.id != id {
      var o := s.disp.id;
      assert o in s'.recs <==> o in s'.recs - {id};
      assert o in s'.actors <==> o in s'.actors - {id};
      assert o in s.actors ==> (s.actors - {id})[o] == (s'.actors - {id})[o];
    }
  }

  /** A step of the actor that keeps its tenant's part of the invariant keeps all of it. */
  lemma ActorKeepsOthers(s: Sys, id: string, s': Sys)
    requires Inv(s) && id in s.actors && id in s'.actors && !s.actors[id].pc.Stopped?
    requires s' == s.(trie := s'.trie, recs := s'.recs, actors := s.actors[id := s'.actors[id]])
    requires SameForOthers(s.trie, s'.trie, id) && (Freed(s, id) ==> Freed(s', id))
    requires id in s.recs && id in s'.recs && s'.recs == s.recs[id := s'.recs[id]]
    requires RecordOk(s'.trie, id, s'.recs[id]) && s'.recs[id].state == s.recs[id].state
    requires PcOk(s'.trie, id, s'.recs[id], s'.actors[id])
    ensures Inv(s')
  {
    assert TenantOk(s, id);
    assert s'.recs - {id} == s.recs - {id};
    assert s'.actors - {id} == s.actors - {id};
    DispatcherKept(s, s', id);
    TenantStep(s, s', id);
  }

  lemma QuietPc(t: Trie, id: string, r: Record, a: Actor, a': Actor)
    requires TrieModel.Valid(t) && PcOk(t, id, r, a) && IsQuiet(a.pc) && QuietMove(a, a', true, r.state == Closing)
    ensures PcOk(t, id, r, a')
  {
  }

  /** Steps that only move the actor itself. */
  lemma QuietSteps(s: Sys, id: string, s': Sys)
    requires Inv(s) && ActorStep(s, id, s') && IsQuiet(s.actors[id].pc)
    ensures Inv(s')
  {
    assert TenantOk(s, id);
    assert s.recs == s.recs[id := s.recs[id]];
    QuietPc(s.trie, id, s.recs[id], s.actors[id], s'.actors[id]);
    ActorKeepsOthers(s, id, s');
  }

  lemma RecordSteps(s: Sys, id: string, s': Sys)
    requires Inv(s) && ActorStep(s, id, s') && !IsQuiet(s.actors[id].pc) && !s.actors[id].pc.GrowTrie?
    ensures Inv(s')
  {
    assert TenantOk(s, id);
    RecordMoveKeeps(s.trie, id, s.actors[id], s'.actors[id], s.recs[id], s'.recs[id]);
    ActorKeepsOthers(s, id, s');
  }

  lemma RecordMoveKeeps(t: Trie, id: string, a: Actor, a': Actor, r: Record, r': Record)
    requires TrieModel.Valid(t) && RecordOk(t, id, r) && PcOk(t, id, r, a)
    requires !IsQuiet(a.pc) && !a.pc.GrowTrie? && RecordMove(a, a', r, r')
    ensures RecordOk(t, id, r') && PcOk(t, id, r', a') && r'.state == r.state
  {
    match a.pc
    case Allocate(m, n) =>
      var got :| IpamModel.AllocateStep(r.ipam, m.key, m.info, r'.ipam, got)
        && a' == if got.Ok? then a.(pc := Attach(m, got.value), took := true) else a.(pc := Exhausted(m, n));
      IpamModel.AllocateKeeps(r.ipam, m.key, m.info, r'.ipam, got);
    case Release(m, got) =>
      var ok :| IpamModel.FreeStep(r.ipam, got.ip, r'.ipam, ok);
      IpamModel.FreeKeeps(r.ipam, got.ip, r'.ipam, ok);
    case GrowIpam(m, n, net) =>
      GrowIpamKeeps(t, id, a, a', r, r');
    case GrowRecord(m, n, net) =>
  }

  lemma GrowIpamKeeps(t: Trie, id: string, a: Actor, a': Actor, r: Record, r': Record)
    requires TrieModel.Valid(t) && RecordOk(t, id, r) && PcOk(t, id, r, a) && a.pc.GrowIpam? && RecordMove(a, a', r, r')
    ensures RecordOk(t, id, r') && PcOk(t, id, r', a')
  {
    var net := a.pc.net;
    var ok :| IpamModel.ExpandStep(r.ipam, net, r'.ipam, ok)
      && a' == a.(pc := if ok then GrowRecord(a.pc.m, a.pc.attempt, net) else Answer(a.pc.m, false));
    IpamModel.ExpandKeeps(r.ipam, net, r'.ipam, ok);
    if ok {
      CapacityGrows(r.ipam.network, net);
      IpamModel.ExpandMakesRoom(r.ipam, net, r'.ipam);
    }
  }

  lemma GrowTrieStep(s: Sys, id: string, s': Sys)
    requires Inv(s) && ActorStep(s, id, s') && s.actors[id].pc.GrowTrie?
    ensures Inv(s')
  {
    assert TenantOk(s, id);
    var a, a' := s.actors[id], s'.actors[id];
    var r :| TrieModel.ExpandStep(s.trie, id, s'.trie, r)
      && a' == a.(pc := if r.Ok? then GrowBackend(a.pc.m, a.pc.attempt, r.value) else Answer(a.pc.m, false));
    GrowTrieKeeps(s.trie, s'.trie, id, s.recs[id], a, a', r);
    assert s.recs == s.recs[id := s.recs[id]];
    ActorKeepsOthers(s, id, s');
  }

  lemma GrowTrieKeeps(t: Trie, t': Trie, id: string, rec: Record, a: Actor, a': Actor, r: Result<Cidr>)
    requires TrieModel.Valid(t) && RecordOk(t, id, rec) && PcOk(t, id, rec, a) && a.pc.GrowTrie?
    requires TrieModel.ExpandStep(t, id, t', r)
    requires a' == a.(pc := if r.Ok? then GrowBackend(a.pc.m, a.pc.attempt, r.value) else Answer(a.pc.m, false))
    ensures SameForOthers(t, t', id) && (id !in t.alloc ==> id !in t'.alloc)
    ensures RecordOk(t', id, rec) && PcOk(t', id, rec, a')
  {
    TrieExpandFrame(t, id, t', r);
  }

  lemma CapacityGrows(a: Cidr, b: Cidr)
    requires b.ones < a.ones <= 30
    ensures IpamModel.Capacity(a) < IpamModel.Capacity(b)
  {
    Bits.Pow2Table();
    Bits.Pow2Monotone(32 - a.ones, 32 - b.ones);
    Bits.Pow2Monotone(2, 32 - a.ones);
  }

  /** Every step of the system keeps the invariant. */
  lemma NextKeepsInv(s: Sys, s': Sys)
    requires Inv(s) && Next(s, s')
    ensures Inv(s')
  {
    if DispatcherStep(s, s') {
      DispatcherKeepsInv(s, s');
    } else if id, m :| CallerStep(s, id, m, s') {
      CallerKeeps(s, id, m, s');
    } else {
      var id :| ActorStep(s, id, s');
      ActorKeepsInv(s, id, s');
    }
  }

  lemma DispatcherKeepsInv(s: Sys, s': Sys)
    requires Inv(s) && DispatcherStep(s, s')
    ensures Inv(s')
  {
    match s.disp
    case Idle => IdleStep(s, s');
    case EnsureAllocate(_) => EnsureAllocateStep(s, s');
    case EnsureBuild(_, _) => EnsureBuildStep(s, s');
    case EnsureCommit(_, _) => EnsureCommitStep(s, s');
    case EnsureStart(_) => EnsureStartStep(s, s');
    case EnsureRollback(_) => DeallocateSteps(s, s');
    case RemoveSubnet(_) => DeallocateSteps(s, s');
    case _ => RemoveSteps(s, s');
  }

  lemma ActorKeepsInv(s: Sys, id: string, s': Sys)
    requires Inv(s) && ActorStep(s, id, s')
    ensures Inv(s')
  {
    assert TenantOk(s, id);
    if IsQuiet(s.actors[id].pc) {
      QuietSteps(s, id, s');
    } else if s.actors[id].pc.GrowTrie? {
      GrowTrieStep(s, id, s');
    } else {
      RecordSteps(s, id, s');
    }
  }

  // ----- runs -----

  /** A run of the system: every interleaving of dispatcher, callers and actors. */
  ghost predicate IsRun(ss: seq<Sys>) {
    && |ss| > 0 && Init(ss[0])
    && forall i :: 0 <= i < |ss| - 1 ==> TrieModel.Valid(ss[i].trie) ==> Next(ss[i], ss[i + 1])
  }

  lemma {:induction false} RunInv(ss: seq<Sys>, i: nat)
    requires IsRun(ss) && i < |ss|
    ensures Inv(ss[i])
  {
    if i == 0 {
      InitInv(ss[0]);
    } else {
      RunInv(ss, i - 1);
      NextKeepsInv(ss[i - 1], ss[i]);
    }
  }

  /** A pod the system has recorded under a ready tenant. */
  predicate IsPod(s: Sys, id: string, k: string) {
    id in s.recs && s.recs[id].state == Ready && k in s.recs[id].ipam.pods
  }

  function PodIp(s: Sys, id: string, k: string): Ip4
    requires IsPod(s, id, k)
  {
    s.recs[id].ipam.pods[k].ip
  }

  /** In every reachable state a ready tenant's pods are addressed inside the tenant's own trie block. */
  lemma PodsInBlock(ss: seq<Sys>, i: nat, id: string, k: string)
    requires IsRun(ss) && i < |ss| && IsPod(ss[i], id, k)
    ensures TrieModel.Valid(ss[i].trie) && id in ss[i].trie.alloc
    ensures InBlock(Block(ss[i].trie, id), Value(PodIp(ss[i], id, k)))
  {
    RunInv(ss, i);
    assert TenantOk(ss[i], id);
    assert IpamModel.PodOk(ss[i].recs[id].ipam, k);
  }

  /** No two pods recorded under ready tenants, the same or different ones, hold the same address. */
  lemma PodAddressesUnique(ss: seq<Sys>, i: nat, id: string, k: string, id': string, k': string)
    requires IsRun(ss) && i < |ss| && IsPod(ss[i], id, k) && IsPod(ss[i], id', k')
    requires PodIp(ss[i], id, k) == PodIp(ss[i], id', k')
    ensures id == id' && k == k'
  {
    PodsInBlock(ss, i, id, k);
    PodsInBlock(ss, i, id', k');
    if id != id' {
      TrieModel.TenantsDisjoint(ss[i].trie, id, id');
    } else {
      RunInv(ss, i);
      assert TenantOk(ss[i], id);
    }
  }

  /** One expansion suffices: no request exhausts its tenant again after a successful expansion,
      so no request expands twice and none runs out of retries. */
  lemma OneExpansionSuffices(ss: seq<Sys>, i: nat, id: string)
    requires IsRun(ss) && i < |ss| && id in ss[i].actors
    ensures ss[i].actors[id].pc.Exhausted? ==> ss[i].actors[id].pc.attempt == 0
    ensures ss[i].actors[id].pc.Allocate? && ss[i].actors[id].pc.attempt > 0 ==>
      id in ss[i].recs && !IpamModel.Full(ss[i].recs[id].ipam)
  {
    RunInv(ss, i);
    assert TenantOk(ss[i], id);
  }

  // ----- draining on removal -----

  function Current(pc: Pc): seq<Msg> {
    if pc.Waiting? || pc.Stopped? then [] else [pc.m]
  }

  function Answered(log: seq<Entry>): seq<Msg> {
    seq(|log|, i requires 0 <= i < |log| => log[i].m)
  }

  /** Answered messages, the current one and the waiting ones are all messages sent, in order.
      Nothing dequeued while the tenant was closing took an address. Stop is answered last. */
  ghost predicate Fifo(a: Actor) {
    && a.sent == Answered(a.log) + Current(a.pc) + a.inbox
    && (forall i :: 0 <= i < |a.log| ==> a.log[i].late ==> !a.log[i].took)
    && (forall i :: 0 <= i < |a.log| ==> (a.log[i].m.Stop? <==> a.pc.Stopped? && i == |a.log| - 1))
    && (a.pc.Stopped? ==> a.log != [])
    && (forall m :: m in Current(a.pc) ==> !m.Stop?)
  }

  lemma QueueFifo(a: Actor, m: Msg)
    requires Fifo(a)
    ensures Fifo(Queue(a, m))
  {
    assert a.sent + [m] == Answered(a.log) + Current(a.pc) + (a.inbox + [m]);
  }

  lemma FinishFifo(a: Actor, m: Msg, pc: Pc)
    requires Current(pc) == [] && (m.Stop? <==> pc.Stopped?) && (a.late ==> !a.took)
    requires forall i :: 0 <= i < |a.log| ==> !a.log[i].m.Stop? && (a.log[i].late ==> !a.log[i].took)
    requires a.sent == Answered(a.log) + [m] + a.inbox
    ensures Fifo(Finish(a, m, pc))
  {
    var b := Finish(a, m, pc);
    assert Answered(b.log) == Answered(a.log) + [m];
  }

  lemma DequeueFifo(a: Actor, a': Actor, closing: bool)
    requires Fifo(a) && a.pc.Waiting? && a.inbox != [] && Dequeued(a, a', closing)
    ensures Fifo(a')
  {
    var m := a.inbox[0];
    var b := a.(inbox := a.inbox[1..], late := closing, took := false);
    assert a.sent == Answered(a.log) + [m] + b.inbox by {
      assert a.inbox == [m] + b.inbox;
    }
    if m.Stop? {
      FinishFifo(b, m, Stopped);
    } else {
      StartFifo(a, b, m, a');
    }
  }

  /** Starting on a message that is not Stop. */
  lemma StartFifo(a: Actor, b: Actor, m: Msg, a': Actor)
    requires Fifo(a) && a.pc.Waiting? && !m.Stop? && b.log == a.log && b.sent == a.sent
    requires a.sent == Answered(a.log) + [m] + b.inbox
    requires a' == b.(pc := a'.pc) && Current(a'.pc) == [m] && !a'.pc.Stopped?
    ensures Fifo(a')
  {
  }

  lemma QuietFifo(a: Actor, a': Actor, known: bool, closing: bool)
    requires Fifo(a) && IsQuiet(a.pc) && QuietMove(a, a', known, closing) && (a.late ==> !a.took)
    ensures Fifo(a')
  {
    if a.pc.Waiting? {
      DequeueFifo(a, a', closing);
    } else if a.pc.Answer? {
      FinishFifo(a, a.pc.m, Waiting);
    } else {
      assert Current(a'.pc) == Current(a.pc);
    }
  }

  lemma MoveFifo(s: Sys, id: string, s': Sys)
    requires Inv(s) && ActorStep(s, id, s') && Fifo(s.actors[id])
    ensures Fifo(s'.actors[id])
  {
    var a, a' := s.actors[id], s'.actors[id];
    assert TenantOk(s, id);
    if IsQuiet(a.pc) {
      QuietFifo(a, a', id in s.recs, IsClosing(s, id));
    } else {
      assert Current(a'.pc) == Current(a.pc) && a'.log == a.log && a'.inbox == a.inbox && a'.sent == a.sent;
    }
  }

  lemma NextFifo(s: Sys, s': Sys, id: string)
    requires Inv(s) && Next(s, s') && id in s'.actors && (id in s.actors ==> Fifo(s.actors[id]))
    ensures Fifo(s'.actors[id])
  {
    if DispatcherStep(s, s') {
      if s.disp.RemoveStop? && id == s.disp.id && id in s.actors {
        QueueFifo(s.actors[id], Stop);
      }
    } else if o, m :| CallerStep(s, o, m, s') {
      if o == id {
        QueueFifo(s.actors[id], m);
      }
    } else {
      var o :| ActorStep(s, o, s');
      if o == id {
        MoveFifo(s, id, s');
      }
    }
  }

  lemma {:induction false} RunFifo(ss: seq<Sys>, i: nat, id: string)
    requires IsRun(ss) && i < |ss| && id in ss[i].actors
    ensures Fifo(ss[i].actors[id])
  {
    if i > 0 {
      RunInv(ss, i - 1);
      if id in ss[i - 1].actors {
        RunFifo(ss, i - 1, id);
      }
      NextFifo(ss[i - 1], ss[i], id);
    }
  }

  /** When RemoveTenant drops the actor, its loop has ended; every message queued ahead of Stop was
      answered once, in order, and none that was dequeued while closing took an address. */
  lemma DrainedOnRemoval(ss: seq<Sys>, i: nat)
    requires IsRun(ss) && i < |ss| && ss[i].disp.RemoveActor?
    ensures
      var id := ss[i].disp.id;
      && id in ss[i].actors
      && var a := ss[i].actors[id];
      && a.pc.Stopped? && a.log != []
      && Answered(a.log) <= a.sent
      && (forall j :: 0 <= j < |a.log| ==> (a.sent[j].Stop? <==> j == |a.log| - 1))
      && (forall j :: 0 <= j < |a.log| ==> a.log[j].late ==> !a.log[j].took)
  {
    RunInv(ss, i);
    var id := ss[i].disp.id;
    RunFifo(ss, i, id);
    var a := ss[i].actors[id];
    assert forall j :: 0 <= j < |a.log| ==> a.sent[j] == Answered(a.log)[j] == a.log[j].m;
  }

  /** When RemoveTenant returns, no record, actor or, unless it was the root, block of the tenant is left. */
  lemma GoneAfterRemoval(ss: seq<Sys>, i: nat)
    requires IsRun(ss) && i + 1 < |ss| && ss[i].disp.RemoveRecord? && ss[i + 1].disp.Idle?
    ensures
      var id, s' := ss[i].disp.id, ss[i + 1];
      id !in s'.recs && id !in s'.actors && (id in s'.trie.alloc ==> s'.trie.alloc[id].Root?)
  {
    RunInv(ss, i);
    assert DispatcherStep(ss[i], ss[i + 1]) by {
      assert Next(ss[i], ss[i + 1]);
    }
  }
}
