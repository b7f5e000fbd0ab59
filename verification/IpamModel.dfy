/** Pod addresses of one tenant network as values: index arithmetic, allocator steps and theorems. */
module IpamModel {
  import opened Bits
  import opened Ipv4
  import opened Ipv4Bytes

  // ----- addresses and indices -----

  /** ip - base as the source computes it: an OR of shifted signed byte differences. */
  function Ipv4Diff(base: Ip4, ip: Ip4): int {
    ShiftOr(ip[0] - base[0], ip[1] - base[1], ip[2] - base[2], ip[3] - base[3])
  }

  /** The number of pod addresses: all but network, bridge and broadcast. */
  function Capacity(c: Cidr): nat {
    if Size(c) - 2 <= 1 then 0 else Size(c) - 3
  }

  /** Bitmap index of an address, or -1 outside the pod range; index 0 is network + 2. */
  function IpToIndex(c: Cidr, ip: Ip4): int {
    var offset := Ipv4Diff(MaskIp(c.ip, c.ones), ip);
    if offset < 2 || offset >= Size(c) - 1 then -1 else offset - 2
  }

  /** Address of a bitmap index. */
  function IndexToIp(c: Cidr, idx: int): Ip4 {
    BytesOf(Value(MaskIp(c.ip, c.ones)) + (2 + idx))
  }

  /** The true index: the offset in the block less the two reserved addresses at its start. */
  function Index(c: Cidr, ip: Ip4): int {
    if 2 <= Value(ip) - Base(c) < Size(c) - 1 then Value(ip) - Base(c) - 2 else -1
  }

  /** The true address of an index. */
  function Address(c: Cidr, idx: nat): Ip4 {
    BytesOf(Base(c) + 2 + idx)
  }

  /** Clearing host bits lowers no byte below zero: the network address is bytewise at most the address. */
  lemma NetworkBytesBelow(ip: Ip4, ones: nat)
    requires ones <= 32
    ensures forall i :: 0 <= i < 4 ==> MaskIp(ip, ones)[i] <= ip[i]
  {
    var m := MaskIp(ip, ones);
    if ones < 8 {
      NetworkAt0(ip, m, 8 - ones);
    } else if ones < 16 {
      NetworkAt1(ip, m, 16 - ones);
    } else if ones < 24 {
      NetworkAt2(ip, m, 24 - ones);
    } else {
      NetworkAt3(ip, m, 32 - ones);
    }
  }

  lemma NetworkAt0(ip: Ip4, m: Ip4, z: nat)
    requires z <= 8 && Value(m) == Value(ip) - Low(Value(ip), z + 24)
    ensures forall i :: 0 <= i < 4 ==> m[i] <= ip[i]
  {
    LowAt0(ip, z);
    LowBound(ip[0], z);
    ValueInjective(m, [ip[0] - Low(ip[0], z), 0, 0, 0]);
  }

  lemma NetworkAt1(ip: Ip4, m: Ip4, z: nat)
    requires z <= 8 && Value(m) == Value(ip) - Low(Value(ip), z + 16)
    ensures forall i :: 0 <= i < 4 ==> m[i] <= ip[i]
  {
    LowAt1(ip, z);
    LowBound(ip[1], z);
    ValueInjective(m, [ip[0], ip[1] - Low(ip[1], z), 0, 0]);
  }

  lemma NetworkAt2(ip: Ip4, m: Ip4, z: nat)
    requires z <= 8 && Value(m) == Value(ip) - Low(Value(ip), z + 8)
    ensures forall i :: 0 <= i < 4 ==> m[i] <= ip[i]
  {
    LowAt2(ip, z);
    LowBound(ip[2], z);
    ValueInjective(m, [ip[0], ip[1], ip[2] - Low(ip[2], z), 0]);
  }

  lemma NetworkAt3(ip: Ip4, m: Ip4, z: nat)
    requires z <= 8 && Value(m) == Value(ip) - Low(Value(ip), z)
    ensures forall i :: 0 <= i < 4 ==> m[i] <= ip[i]
  {
    LowAt3(ip, z);
    LowBound(ip[3], z);
    ValueInjective(m, [ip[0], ip[1], ip[2], ip[3] - Low(ip[3], z)]);
  }

  /** With no byte negative the shifted OR is the difference; with one negative it is negative. */
  lemma DiffCases(base: Ip4, ip: Ip4)
    ensures (forall i :: 0 <= i < 4 ==> base[i] <= ip[i]) ==> Ipv4Diff(base, ip) == Value(ip) - Value(base)
    ensures (exists i :: 0 <= i < 4 && base[i] > ip[i]) ==> Ipv4Diff(base, ip) < 0
  {
    ShiftOrNegative(ip[0] - base[0], ip[1] - base[1], ip[2] - base[2], ip[3] - base[3]);
    if forall i :: 0 <= i < 4 ==> base[i] <= ip[i] {
      ShiftOrBytes(ip[0] - base[0], ip[1] - base[1], ip[2] - base[2], ip[3] - base[3]);
    }
  }

  /** IpToIndex is exact for every network and every address. */
  lemma IpToIndexExact(c: Cidr, ip: Ip4)
    ensures IpToIndex(c, ip) == Index(c, ip)
  {
    var base := MaskIp(c.ip, c.ones);
    DiffCases(base, ip);
    ContainsIsInBlock(c, ip);
    if InBlock(c, Value(ip)) {
      NetworkBytesBelow(ip, c.ones);
    }
  }

  /** The indices of the pod range and its addresses correspond one to one. */
  lemma IndexRoundTrip(c: Cidr, idx: nat)
    requires idx < Capacity(c)
    ensures IndexToIp(c, idx) == Address(c, idx)
    ensures Value(Address(c, idx)) == Base(c) + 2 + idx
    ensures Index(c, Address(c, idx)) == idx
  {
    BlockAligned(c);
  }

  lemma AddressRoundTrip(c: Cidr, ip: Ip4)
    requires Index(c, ip) >= 0
    ensures Index(c, ip) < Capacity(c)
    ensures Address(c, Index(c, ip)) == ip
  {
    IndexRoundTrip(c, Index(c, ip));
    ValueInjective(ip, Address(c, Index(c, ip)));
  }

  // ----- the allocator -----

  datatype Info = ContainerNetInfo(id: string, ifName: string, netNS: string, ip: Ip4)

  /** used: the set bits. pods: the address book (the source's IPs map). */
  datatype Ipam = Ipam(network: Cidr, used: set<nat>, pods: map<string, Info>)

  function New(network: Cidr): Ipam {
    Ipam(network, {}, map[])
  }

  /** The bit of a recorded pod is set. */
  predicate PodOk(s: Ipam, k: string)
    requires k in s.pods
  {
    var i := Index(s.network, s.pods[k].ip);
    i >= 0 && i in s.used
  }

  /** Set bits are pod indices, recorded addresses have their bit set, no address is recorded twice. */
  ghost predicate Inv(s: Ipam) {
    && (forall i :: i in s.used ==> i < Capacity(s.network))
    && (forall k :: k in s.pods ==> PodOk(s, k))
    && (forall k, l :: k in s.pods && l in s.pods && s.pods[k].ip == s.pods[l].ip ==> k == l)
  }

  /** The set bits are exactly the bits of recorded pods. */
  ghost predicate Exact(s: Ipam) {
    forall i :: i in s.used ==> exists k :: k in s.pods && Index(s.network, s.pods[k].ip) == i
  }

  ghost function Remaining(s: Ipam): int {
    Capacity(s.network) - |s.used|
  }

  ghost predicate LowestFree(s: Ipam, i: nat) {
    i < Capacity(s.network) && i !in s.used && forall j: nat :: j < i ==> j in s.used
  }

  ghost predicate Full(s: Ipam) {
    forall i: nat :: i < Capacity(s.network) ==> i in s.used
  }

  function Take(s: Ipam, key: string, info: Info, i: nat): Ipam {
    s.(used := s.used + {i}, pods := s.pods[key := info])
  }

  /** Allocate: the address of the lowest free index, or an error exactly when no index is free. */
  ghost predicate AllocateStep(s: Ipam, key: string, info: Info, s': Ipam, r: Result<Info>) {
    if Full(s) then r.Err? && s' == s
    else
      && r.Ok? && r.value == info.(ip := r.value.ip)
      && var i := Index(s.network, r.value.ip);
      i >= 0 && LowestFree(s, i) && s' == Take(s, key, r.value, i)
  }

  /** Free: clears the bit and forgets the pod that holds the address, or refuses an address outside the pod range. */
  ghost predicate FreeStep(s: Ipam, ip: Ip4, s': Ipam, ok: bool) {
    var i := Index(s.network, ip);
    if i < 0 then !ok && s' == s
    else ok && s' == s.(used := s.used - {i}, pods := (map k | k in s.pods && s.pods[k].ip != ip :: s.pods[k]))
  }

  ghost predicate AllInRange(pods: map<string, Info>, c: Cidr) {
    forall k :: k in pods ==> Index(c, pods[k].ip) >= 0
  }

  /** The source's containment test. */
  predicate Covers(outer: Cidr, inner: Cidr) {
    InBlock(outer, Value(inner.ip)) && InBlock(outer, Base(inner) + Size(inner) - 1)
  }

  /** The index of each recorded pod in network c. */
  function IndexMap(pods: map<string, Info>, c: Cidr): map<string, nat>
    requires AllInRange(pods, c)
  {
    map k | k in pods :: Index(c, pods[k].ip)
  }

  /** Expand: moves to the new network with the recorded pods' bits, or changes nothing. */
  ghost predicate ExpandStep(s: Ipam, c: Cidr, s': Ipam, ok: bool) {
    if Covers(c, s.network) && AllInRange(s.pods, c)
    then ok && s' == Ipam(c, IndexMap(s.pods, c).Values, s.pods)
    else !ok && s' == s
  }

  lemma {:induction false} RangeBound(used: set<nat>, n: nat)
    requires forall i :: i in used ==> i < n
    ensures |used| <= n
    ensures |used| == n ==> forall i: nat :: i < n ==> i in used
    decreases n
  {
    if n > 0 {
      RangeBound(used - {n - 1}, n - 1);
      if n - 1 in used {
        assert used == (used - {n - 1}) + {n - 1};
      }
    } else {
      assert used == {};
    }
  }

  lemma {:induction false} FullSize(used: set<nat>, n: nat)
    requires forall i: nat :: i < n ==> i in used
    ensures |used| >= n
    decreases n
  {
    if n > 0 {
      FullSize(used - {n - 1}, n - 1);
    }
  }

  /** An allocation succeeds exactly when something remains. */
  lemma RemainingIsRoom(s: Ipam)
    requires Inv(s)
    ensures Remaining(s) >= 0
    ensures Full(s) <==> Remaining(s) == 0
    ensures !Full(s) <==> exists i :: LowestFree(s, i)
  {
    RangeBound(s.used, Capacity(s.network));
    if Full(s) {
      FullSize(s.used, Capacity(s.network));
    } else {
      var i: nat :| i < Capacity(s.network) && i !in s.used;
      var j := FindLowest(s.used, i);
      assert LowestFree(s, j);
    }
  }

  lemma {:induction false} FindLowest(used: set<nat>, i: nat) returns (j: nat)
    requires i !in used
    ensures j <= i && j !in used && forall k: nat :: k < j ==> k in used
  {
    if k: nat :| k < i && k !in used {
      j := FindLowest(used, k);
    } else {
      j := i;
    }
  }

  lemma NewInv(network: Cidr)
    ensures Inv(New(network)) && Exact(New(network)) && Remaining(New(network)) == Capacity(network)
  {
  }

  /** Allocate keeps the invariant, uses up one address, and gives out an address no pod held. */
  lemma AllocateKeeps(s: Ipam, key: string, info: Info, s': Ipam, r: Result<Info>)
    requires Inv(s) && AllocateStep(s, key, info, s', r)
    ensures Inv(s')
    ensures r.Ok? <==> Remaining(s) > 0
    ensures r.Ok? ==> Remaining(s') == Remaining(s) - 1
    ensures r.Ok? ==> key in s'.pods && s'.pods[key] == r.value && InPodRange(s.network, r.value.ip)
    ensures r.Ok? ==> forall k :: k in s.pods ==> s.pods[k].ip != r.value.ip
    ensures r.Ok? ==> s'.pods == s.pods[key := r.value] && r.value == info.(ip := r.value.ip)
    ensures s'.network == s.network && (r.Err? ==> s' == s)
  {
    RemainingIsRoom(s);
    if r.Ok? {
      TakeKeeps(s, key, r.value, Index(s.network, r.value.ip));
    }
  }

  /** Allocation is first fit: every pod address below the one given out is taken. */
  lemma AllocateLowest(s: Ipam, key: string, info: Info, s': Ipam, r: Result<Info>, lower: Ip4)
    requires Inv(s) && AllocateStep(s, key, info, s', r) && r.Ok?
    requires InPodRange(s.network, lower) && Value(lower) < Value(r.value.ip)
    ensures Index(s.network, lower) in s.used
  {
  }

  /** Allocate keeps the bits exactly those of the recorded pods when the key is fresh, and only then: under a known
      key the pod's old bit stays set and no pod accounts for it. */
  lemma AllocateExact(s: Ipam, key: string, info: Info, s': Ipam, r: Result<Info>)
    requires Inv(s) && AllocateStep(s, key, info, s', r) && Exact(s) && r.Ok?
    ensures Exact(s') <==> key !in s.pods
  {
    var i := Index(s.network, r.value.ip);
    if key !in s.pods {
      TakeExact(s, key, r.value, i);
    } else {
      TakeLeaks(s, key, r.value, i);
    }
  }

  lemma TakeLeaks(s: Ipam, key: string, info: Info, i: nat)
    requires Inv(s) && i !in s.used && Index(s.network, info.ip) == i && key in s.pods
    ensures !Exact(Take(s, key, info, i))
  {
    var s' := Take(s, key, info, i);
    assert PodOk(s, key);
    var lost := Index(s.network, s.pods[key].ip);
    assert lost in s'.used;
    forall k | k in s'.pods
      ensures Index(s'.network, s'.pods[k].ip) != lost
    {
      if k != key && Index(s.network, s.pods[k].ip) == lost {
        SameIndexSameIp(s.network, s.pods[k].ip, s.pods[key].ip);
      }
    }
  }

  /** The address is strictly between the bridge address and the broadcast address. */
  predicate InPodRange(c: Cidr, ip: Ip4) {
    Base(c) + 1 < Value(ip) < Base(c) + Size(c) - 1
  }

  lemma TakeKeeps(s: Ipam, key: string, info: Info, i: nat)
    requires Inv(s) && i < Capacity(s.network) && i !in s.used && Index(s.network, info.ip) == i
    ensures Inv(Take(s, key, info, i))
    ensures forall k :: k in s.pods ==> s.pods[k].ip != info.ip
  {
    var s' := Take(s, key, info, i);
    forall k | k in s.pods
      ensures s.pods[k].ip != info.ip
    {
      assert PodOk(s, k);
    }
    forall k | k in s'.pods
      ensures PodOk(s', k)
    {
      if k != key {
        assert PodOk(s, k);
      }
    }
  }

  lemma TakeExact(s: Ipam, key: string, info: Info, i: nat)
    requires Exact(s) && key !in s.pods && Index(s.network, info.ip) == i
    ensures Exact(Take(s, key, info, i))
  {
    var s' := Take(s, key, info, i);
    forall j | j in s'.used
      ensures exists k :: k in s'.pods && Index(s'.network, s'.pods[k].ip) == j
    {
      if j == i {
        assert s'.pods[key] == info;
      } else {
        var k :| k in s.pods && Index(s.network, s.pods[k].ip) == j;
        assert s'.pods[k] == s.pods[k];
      }
    }
  }

  /** Free keeps the invariant and gives back the one address a recorded pod held. */
  lemma FreeKeeps(s: Ipam, ip: Ip4, s': Ipam, ok: bool)
    requires Inv(s) && FreeStep(s, ip, s', ok)
    ensures Inv(s')
    ensures ok ==> Index(s.network, ip) !in s'.used && forall k :: k in s'.pods ==> s'.pods[k].ip != ip
    ensures forall k :: k in s.pods && s.pods[k].ip == ip ==> ok && Remaining(s') == Remaining(s) + 1
  {
    forall k | k in s'.pods
      ensures PodOk(s', k)
    {
      assert PodOk(s, k);
      if Index(s.network, s.pods[k].ip) == Index(s.network, ip) {
        SameIndexSameIp(s.network, s.pods[k].ip, ip);
      }
    }
    forall k | k in s.pods && s.pods[k].ip == ip
      ensures ok && Remaining(s') == Remaining(s) + 1
    {
      assert PodOk(s, k);
    }
  }

  /** Free succeeds exactly in the pod range, forgets exactly the holder of the address, and otherwise changes nothing. */
  lemma FreeOutcome(s: Ipam, ip: Ip4, s': Ipam, ok: bool)
    requires FreeStep(s, ip, s', ok)
    ensures ok <==> InPodRange(s.network, ip)
    ensures s'.network == s.network && (!ok ==> s' == s)
    ensures forall k :: k in s'.pods <==> k in s.pods && !(ok && s.pods[k].ip == ip)
    ensures forall k :: k in s'.pods ==> s'.pods[k] == s.pods[k]
  {
  }

  lemma FreeExact(s: Ipam, ip: Ip4, s': Ipam, ok: bool)
    requires Exact(s) && FreeStep(s, ip, s', ok)
    ensures Exact(s')
  {
    if ok {
      forall j | j in s'.used
        ensures exists k :: k in s'.pods && Index(s'.network, s'.pods[k].ip) == j
      {
        var k :| k in s.pods && Index(s.network, s.pods[k].ip) == j;
        assert k in s'.pods;
      }
    }
  }

  lemma SameIndexSameIp(c: Cidr, a: Ip4, b: Ip4)
    requires Index(c, a) == Index(c, b) >= 0
    ensures a == b
  {
    AddressRoundTrip(c, a);
    AddressRoundTrip(c, b);
  }

  /** After an expansion the bits are exactly those of the recorded pods, and no pod sits on the
      network, bridge or broadcast address of the new network. */
  lemma ExpandKeeps(s: Ipam, c: Cidr, s': Ipam, ok: bool)
    requires Inv(s) && ExpandStep(s, c, s', ok)
    ensures Inv(s') && s'.pods == s.pods
    ensures ok ==> s'.network == c && Exact(s') && |s'.used| == |s.pods|
    ensures ok ==> forall k :: k in s'.pods ==> InPodRange(c, s'.pods[k].ip)
    ensures !ok ==> s' == s
  {
    if ok {
      RebuiltIsExact(s.pods, c);
      RebuiltSize(s.pods, c);
      forall k | k in s.pods
        ensures InPodRange(c, s.pods[k].ip)
      {
        IndexInPodRange(c, s.pods[k].ip);
      }
    }
  }

  lemma IndexInPodRange(c: Cidr, ip: Ip4)
    ensures Index(c, ip) >= 0 <==> InPodRange(c, ip)
  {
  }

  lemma RebuiltIsExact(pods: map<string, Info>, c: Cidr)
    requires AllInRange(pods, c)
    requires forall k, l :: k in pods && l in pods && pods[k].ip == pods[l].ip ==> k == l
    ensures var s := Ipam(c, IndexMap(pods, c).Values, pods); Inv(s) && Exact(s)
  {
    var m := IndexMap(pods, c);
    var s := Ipam(c, m.Values, pods);
    forall k | k in pods
      ensures PodOk(s, k) && m[k] < Capacity(c)
    {
      assert m[k] in m.Values;
      AddressRoundTrip(c, pods[k].ip);
    }
    forall i | i in s.used
      ensures exists k :: k in pods && Index(c, pods[k].ip) == i
    {
      var k :| k in m && m[k] == i;
    }
  }

  lemma RebuiltSize(pods: map<string, Info>, c: Cidr)
    requires AllInRange(pods, c)
    requires forall k, l :: k in pods && l in pods && pods[k].ip == pods[l].ip ==> k == l
    ensures |IndexMap(pods, c).Values| == |pods|
  {
    var m := IndexMap(pods, c);
    IndexMapInjective(pods, c);
    ValuesSize(m);
    assert m.Keys == pods.Keys;
  }

  lemma IndexMapInjective(pods: map<string, Info>, c: Cidr)
    requires AllInRange(pods, c)
    requires forall k, l :: k in pods && l in pods && pods[k].ip == pods[l].ip ==> k == l
    ensures var m := IndexMap(pods, c); forall k, l :: k in m && l in m && m[k] == m[l] ==> k == l
  {
    var m := IndexMap(pods, c);
    forall k, l | k in m && l in m && m[k] == m[l]
      ensures k == l
    {
      SameIndexSameIp(c, pods[k].ip, pods[l].ip);
    }
  }

  /** An injective map has as many values as keys. */
  lemma {:induction false} ValuesSize(m: map<string, nat>)
    requires forall k, l :: k in m && l in m && m[k] == m[l] ==> k == l
    ensures |m.Values| == |m|
    decreases |m|
  {
    if m == map[] {
      assert m.Values == {};
    } else {
      var k :| k in m;
      var rest := m - {k};
      assert m.Keys == rest.Keys + {k};
      ValuesSize(rest);
      ValuesRemove(m, k, rest);
    }
  }

  lemma ValuesRemove(m: map<string, nat>, k: string, rest: map<string, nat>)
    requires k in m && rest == m - {k} && forall l :: l in rest ==> m[l] != m[k]
    ensures m.Values == rest.Values + {m[k]} && m[k] !in rest.Values
  {
    forall v | v in m.Values
      ensures v in rest.Values + {m[k]}
    {
      var l :| l in m && m[l] == v;
      assert l == k || (l in rest && rest[l] == v);
    }
    forall v | v in rest.Values
      ensures v in m.Values && v != m[k]
    {
      var l :| l in rest && rest[l] == v;
      assert m[l] == v;
    }
  }

  /** Expansion to a network that contains the current one always succeeds; from a canonical network nothing else
      does. */
  lemma ExpandSucceeds(s: Ipam, c: Cidr, s': Ipam, ok: bool)
    requires Inv(s) && ExpandStep(s, c, s', ok)
    ensures Inside(s.network, c) ==> ok
    ensures Canonical(s.network) ==> (ok <==> Inside(s.network, c))
  {
    LowBound(Value(s.network.ip), 32 - s.network.ones);
    if Inside(s.network, c) {
      forall k | k in s.pods
        ensures Index(c, s.pods[k].ip) >= 0
      {
        assert PodOk(s, k);
      }
    }
  }

  /** One expansion suffices: a full allocator expanded to a larger network has an address to give. */
  lemma ExpandMakesRoom(s: Ipam, c: Cidr, s': Ipam)
    requires Inv(s) && ExpandStep(s, c, s', true) && Capacity(s.network) < Capacity(c)
    ensures Remaining(s') > 0 && !Full(s')
  {
    ExpandKeeps(s, c, s', true);
    PodsBound(s);
    RemainingIsRoom(s');
  }

  /** There are no more recorded pods than pod addresses. */
  lemma PodsBound(s: Ipam)
    requires Inv(s)
    ensures |s.pods| <= |s.used| <= Capacity(s.network)
  {
    RangeBound(s.used, Capacity(s.network));
    forall k | k in s.pods
      ensures Index(s.network, s.pods[k].ip) >= 0 && Index(s.network, s.pods[k].ip) in s.used
    {
      assert PodOk(s, k);
    }
    RebuiltSize(s.pods, s.network);
    SubsetSize(IndexMap(s.pods, s.network).Values, s.used);
  }

  lemma {:induction false} SubsetSize(a: set<nat>, b: set<nat>)
    requires a <= b
    ensures |a| <= |b|
  {
    assert b == a + (b - a);
  }

  // ----- runs -----

  datatype Op = OpAllocate(key: string, info: Info) | OpFree(ip: Ip4) | OpExpand(network: Cidr)

  ghost predicate Step(s: Ipam, op: Op, s': Ipam) {
    match op
    case OpAllocate(key, info) => exists r :: AllocateStep(s, key, info, s', r)
    case OpFree(ip) => exists ok :: FreeStep(s, ip, s', ok)
    case OpExpand(c) => exists ok :: ExpandStep(s, c, s', ok)
  }

  /** A run of an allocator from its creation. */
  ghost predicate IsRun(network: Cidr, ops: seq<Op>, ss: seq<Ipam>) {
    && |ss| == |ops| + 1 && ss[0] == New(network)
    && forall i :: 0 <= i < |ops| ==> Step(ss[i], ops[i], ss[i + 1])
  }

  /** In every run set bits are below the capacity and distinct pods hold distinct addresses of the pod range. */
  lemma {:induction false} RunInv(network: Cidr, ops: seq<Op>, ss: seq<Ipam>, i: nat)
    requires IsRun(network, ops, ss) && i < |ss|
    ensures Inv(ss[i])
  {
    if i == 0 {
      NewInv(network);
    } else {
      RunInv(network, ops, ss, i - 1);
      StepInv(ss[i - 1], ops[i - 1], ss[i]);
    }
  }

  lemma StepInv(s: Ipam, op: Op, s': Ipam)
    requires Inv(s) && Step(s, op, s')
    ensures Inv(s')
  {
    match op
    case OpAllocate(key, info) =>
      var r :| AllocateStep(s, key, info, s', r);
      AllocateKeeps(s, key, info, s', r);
    case OpFree(ip) =>
      var ok :| FreeStep(s, ip, s', ok);
      FreeKeeps(s, ip, s', ok);
    case OpExpand(c) =>
      var ok :| ExpandStep(s, c, s', ok);
      ExpandKeeps(s, c, s', ok);
  }

  predicate FreshKey(s: Ipam, op: Op) {
    op.OpAllocate? ==> op.key !in s.pods
  }

  lemma StepExact(s: Ipam, op: Op, s': Ipam)
    requires Inv(s) && Exact(s) && Step(s, op, s') && FreshKey(s, op)
    ensures Exact(s')
  {
    match op
    case OpAllocate(key, info) =>
      var r :| AllocateStep(s, key, info, s', r);
      if r.Ok? {
        AllocateExact(s, key, info, s', r);
      }
    case OpFree(ip) =>
      var ok :| FreeStep(s, ip, s', ok);
      FreeExact(s, ip, s', ok);
    case OpExpand(c) =>
      var ok :| ExpandStep(s, c, s', ok);
      ExpandKeeps(s, c, s', ok);
  }

  /** Conservation: in every run that allocates under fresh keys only, what remains and what is recorded make up the
      whole pod range. */
  lemma {:induction false} RunExact(network: Cidr, ops: seq<Op>, ss: seq<Ipam>, i: nat)
    requires IsRun(network, ops, ss) && i < |ss|
    requires forall j :: 0 <= j < i ==> FreshKey(ss[j], ops[j])
    ensures Exact(ss[i]) && Remaining(ss[i]) + |ss[i].pods| == Capacity(ss[i].network)
  {
    if i == 0 {
      NewInv(network);
    } else {
      RunExact(network, ops, ss, i - 1);
      RunInv(network, ops, ss, i - 1);
      StepExact(ss[i - 1], ops[i - 1], ss[i]);
    }
    RunInv(network, ops, ss, i);
    ExactSize(ss[i]);
  }

  lemma ExactSize(s: Ipam)
    requires Inv(s) && Exact(s)
    ensures |s.used| == |s.pods|
  {
    PodsBound(s);
    forall k | k in s.pods
      ensures Index(s.network, s.pods[k].ip) >= 0
    {
      assert PodOk(s, k);
    }
    RebuiltSize(s.pods, s.network);
    UsedIsRecorded(s, IndexMap(s.pods, s.network));
  }

  lemma UsedIsRecorded(s: Ipam, m: map<string, nat>)
    requires Exact(s) && m.Keys == s.pods.Keys && forall k :: k in m ==> m[k] == Index(s.network, s.pods[k].ip)
    ensures |s.used| <= |m.Values|
  {
    forall i | i in s.used
      ensures i in m.Values
    {
      var k :| k in s.pods && Index(s.network, s.pods[k].ip) == i;
      assert k in m && m[k] == i;
    }
    SubsetSize(s.used, m.Values);
  }

  // ----- a reused key leaks its bit -----

  /** On every network with two pod addresses or more, two allocations under one key leave a bit that no recorded pod
      accounts for. */
  lemma ReusedKeyLeaks(network: Cidr, key: string, info: Info) returns (ss: seq<Ipam>)
    requires Capacity(network) >= 2
    ensures IsRun(network, [OpAllocate(key, info), OpAllocate(key, info)], ss) && !Exact(ss[2])
    ensures |ss[2].used| == 2 && |ss[2].pods| == 1
  {
    IndexRoundTrip(network, 0);
    IndexRoundTrip(network, 1);
    var first, second := info.(ip := Address(network, 0)), info.(ip := Address(network, 1));
    var s0 := New(network);
    var s1 := Take(s0, key, first, 0);
    var s2 := Take(s1, key, second, 1);
    assert 0 !in s0.used && 1 !in s1.used;
    assert AllocateStep(s0, key, info, s1, Ok(first));
    assert AllocateStep(s1, key, info, s2, Ok(second));
    ss := [s0, s1, s2];
    NewInv(network);
    AllocateKeeps(s0, key, info, s1, Ok(first));
    TakeLeaks(s1, key, second, 1);
    assert s2.used == {0, 1} && s2.pods.Keys == {key};
    assert |s2.pods| == |s2.pods.Keys|;
  }

  /** A failing input: pod "ns/p" allocated twice in 10.0.0.0/29. */
  lemma LeakExample()
    ensures exists ss, info :: Leaks(Cidr([10, 0, 0, 0], 29), "ns/p", info, ss)
  {
    var c := Cidr([10, 0, 0, 0], 29);
    assert Size(c) == Pow2(3) == 8;
    var info := ContainerNetInfo("", "", "", [0, 0, 0, 0]);
    var ss := ReusedKeyLeaks(c, "ns/p", info);
    assert Leaks(c, "ns/p", info, ss);
  }

  ghost predicate Leaks(network: Cidr, key: string, info: Info, ss: seq<Ipam>) {
    IsRun(network, [OpAllocate(key, info), OpAllocate(key, info)], ss) && !Exact(ss[2])
  }
}
