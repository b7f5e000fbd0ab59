/** The subnet trie as a value: which blocks exist and which tenant holds which block.

    A block is named by its path from the root. The heap trie of `SubnetTrie` is proved against
    the steps defined here, and the theorems about whole runs are proved on these values. */
module TrieModel {
  import opened Ipv4

  /** A node, named by the halves taken on the way down from the root. */
  datatype Path = Root | Child(up: Path, upper: bool)

  function Depth(p: Path): nat {
    match p
    case Root => 0
    case Child(up, _) => Depth(up) + 1
  }

  /** q is a or lies in the subtree below a. */
  predicate Under(q: Path, a: Path) {
    q == a || (q.Child? && Under(q.up, a))
  }

  function Sibling(p: Path): Path
    requires p.Child?
  {
    Child(p.up, !p.upper)
  }

  /** The ancestor of p at depth j, or p itself when it is no deeper. */
  function Ancestor(p: Path, j: nat): Path {
    if Depth(p) <= j then p else Ancestor(p.up, j)
  }

  /** The CIDR block at a path: the root halved once per step. */
  function PrefixAt(root: Cidr, p: Path): (c: Cidr)
    requires root.ones + Depth(p) <= 32
    ensures c.ones == root.ones + Depth(p)
  {
    match p
    case Root => root
    case Child(up, upper) => Half(PrefixAt(root, up), upper)
  }

  /** p and every node at most n levels below it. */
  function Subtree(p: Path, n: nat): set<Path>
    decreases n
  {
    if n == 0 then {p}
    else {p} + Subtree(Child(p, false), n - 1) + Subtree(Child(p, true), n - 1)
  }

  /** nodes: the blocks of the trie. alloc: the block each tenant holds (the source's AllocMap). */
  datatype Trie = Trie(root: Cidr, leafSize: int, nodes: set<Path>, alloc: map<string, Path>)

  predicate IsLeaf(t: Trie, p: Path) {
    Child(p, false) !in t.nodes
  }

  /** Some tenant holds a block in the subtree at a. */
  ghost predicate HasAllocated(t: Trie, a: Path) {
    exists id :: id in t.alloc && Under(t.alloc[id], a)
  }

  predicate Fits(root: Cidr, p: Path) {
    root.ones + Depth(p) <= 32
  }

  /** The parent and the sibling of p are nodes too. */
  predicate Paired(nodes: set<Path>, p: Path)
    requires p.Child?
  {
    p.up in nodes && Sibling(p) in nodes
  }

  /** Nodes have zero or two children, tenants hold distinct leaves. */
  ghost predicate Valid(t: Trie) {
    && Root in t.nodes
    && t.leafSize <= 32
    && (forall p :: p in t.nodes ==> Fits(t.root, p))
    && (forall p {:trigger Paired(t.nodes, p)} :: p in t.nodes && p.Child? ==> Paired(t.nodes, p))
    && (forall id :: id in t.alloc ==> t.alloc[id] in t.nodes && IsLeaf(t, t.alloc[id]))
    && (forall i, j :: i in t.alloc && j in t.alloc && t.alloc[i] == t.alloc[j] ==> i == j)
  }

  ghost predicate FreeLeaf(t: Trie, p: Path) {
    && p in t.nodes && IsLeaf(t, p)
    && (forall id :: id in t.alloc ==> t.alloc[id] != p)
  }

  /** How many times a tenant at p could double its block: the source's MaxExpandableDepth. */
  ghost function Growth(t: Trie, p: Path): nat {
    if p.Root? || HasAllocated(t, Sibling(p)) then 0 else 1 + Growth(t, p.up)
  }

  /** The placement rule: most room to grow, lowest address among equals. */
  ghost predicate Best(t: Trie, p: Path)
    requires Valid(t)
  {
    && FreeLeaf(t, p)
    && forall q :: FreeLeaf(t, q) ==>
         || Growth(t, q) < Growth(t, p)
         || (Growth(t, q) == Growth(t, p) && Base(PrefixAt(t.root, p)) <= Base(PrefixAt(t.root, q)))
  }

  // ----- the trie operations -----

  function Fresh(root: Cidr, leafSize: int): Trie {
    Trie(root, leafSize, Subtree(Root, if leafSize <= root.ones then 0 else leafSize - root.ones), map[])
  }

  function AllocateAt(t: Trie, id: string, p: Path): Trie {
    t.(alloc := t.alloc[id := p])
  }

  ghost predicate CanMerge(t: Trie, id: string) {
    id in t.alloc && t.alloc[id].Child? && !HasAllocated(t, Sibling(t.alloc[id]))
  }

  /** The parent block goes to the tenant and everything below it disappears. */
  function Merge(t: Trie, id: string): Trie
    requires id in t.alloc && t.alloc[id].Child?
  {
    var parent := t.alloc[id].up;
    t.(nodes := (set q | q in t.nodes && (q == parent || !Under(q, parent))), alloc := t.alloc[id := parent])
  }

  /** Levels Deallocate rebuilds below a block: down to the hard-coded /30. */
  function RebuildLevels(root: Cidr, p: Path): nat {
    if root.ones + Depth(p) < 30 then 30 - root.ones - Depth(p) else 0
  }

  function Deallocate(t: Trie, id: string): Trie
    requires id in t.alloc
  {
    var p := t.alloc[id];
    t.(nodes := t.nodes + Subtree(p, RebuildLevels(t.root, p)), alloc := t.alloc - {id})
  }

  /** The block splits and the tenant keeps the lower half. */
  function Reduce(t: Trie, id: string): Trie
    requires id in t.alloc
  {
    var p := t.alloc[id];
    t.(nodes := t.nodes + {Child(p, false), Child(p, true)}, alloc := t.alloc[id := Child(p, false)])
  }

  // ----- paths -----

  lemma {:induction false} UnderTransitive(p: Path, q: Path, r: Path)
    requires Under(p, q) && Under(q, r)
    ensures Under(p, r)
  {
    if p != q {
      UnderTransitive(p.up, q, r);
    }
  }

  lemma {:induction false} UnderDepth(q: Path, a: Path)
    requires Under(q, a)
    ensures Depth(a) <= Depth(q) && (Depth(a) == Depth(q) ==> q == a)
  {
    if q != a {
      UnderDepth(q.up, a);
    }
  }

  /** Two ancestors of one node are on one line. */
  lemma {:induction false} UnderLinear(q: Path, a: Path, b: Path)
    requires Under(q, a) && Under(q, b)
    ensures Under(a, b) || Under(b, a)
  {
    if q != a && q != b {
      UnderLinear(q.up, a, b);
    }
  }

  /** A node below a is a itself or below one of its halves, never below both. */
  lemma {:induction false} UnderHalves(q: Path, a: Path)
    ensures Under(q, a) <==> q == a || Under(q, Child(a, false)) || Under(q, Child(a, true))
    ensures !(Under(q, Child(a, false)) && Under(q, Child(a, true)))
    ensures !Under(a, Child(a, false)) && !Under(a, Child(a, true))
  {
    if Under(a, Child(a, false)) {
      UnderDepth(a, Child(a, false));
    }
    if Under(a, Child(a, true)) {
      UnderDepth(a, Child(a, true));
    }
    if q.Child? {
      UnderHalves(q.up, a);
    }
  }

  lemma {:induction false} AncestorUnder(p: Path, j: nat)
    ensures Under(p, Ancestor(p, j))
    ensures Depth(Ancestor(p, j)) == if Depth(p) <= j then Depth(p) else j
  {
    if Depth(p) > j {
      AncestorUnder(p.up, j);
    }
  }

  /** A node below a is below a exactly when a is its ancestor at a's depth. */
  lemma {:induction false} AncestorUnique(p: Path, a: Path)
    ensures Under(p, a) <==> Depth(a) <= Depth(p) && Ancestor(p, Depth(a)) == a
  {
    if p != a {
      if p.Child? {
        AncestorUnique(p.up, a);
      }
      if Under(p, a) {
        UnderDepth(p, a);
      }
    }
  }

  lemma {:induction false} SubtreeMember(q: Path, p: Path, n: nat)
    ensures q in Subtree(p, n) <==> Under(q, p) && Depth(q) <= Depth(p) + n
    decreases n
  {
    UnderHalves(q, p);
    if n > 0 {
      SubtreeMember(q, Child(p, false), n - 1);
      SubtreeMember(q, Child(p, true), n - 1);
    }
    if Under(q, p) {
      UnderDepth(q, p);
    }
  }

  // ----- what every operation keeps -----

  lemma {:induction false} NodesUpClosed(t: Trie, q: Path, a: Path)
    requires Valid(t) && q in t.nodes && Under(q, a)
    ensures a in t.nodes
  {
    if q != a {
      assert Paired(t.nodes, q);
      NodesUpClosed(t, q.up, a);
    }
  }

  /** Below a leaf there is nothing but the leaf. */
  lemma LeafBottom(t: Trie, p: Path, q: Path)
    requires Valid(t) && IsLeaf(t, p) && q in t.nodes && Under(q, p)
    ensures q == p
  {
    UnderHalves(q, p);
    assert Child(p, true) in t.nodes ==> Paired(t.nodes, Child(p, true));
    if Under(q, Child(p, false)) {
      NodesUpClosed(t, q, Child(p, false));
    } else if Under(q, Child(p, true)) {
      NodesUpClosed(t, q, Child(p, true));
    }
  }

  lemma FreshValid(root: Cidr, leafSize: int)
    requires leafSize <= 32
    ensures Valid(Fresh(root, leafSize))
  {
    var n := if leafSize <= root.ones then 0 else leafSize - root.ones;
    var t := Fresh(root, leafSize);
    SubtreeMember(Root, Root, n);
    forall p | p in t.nodes
      ensures Fits(root, p)
      ensures p.Child? ==> Paired(t.nodes, p)
    {
      SubtreeMember(p, Root, n);
      if p.Child? {
        SubtreeMember(p.up, Root, n);
        SubtreeMember(Sibling(p), Root, n);
      }
    }
  }

  lemma AllocateValid(t: Trie, id: string, p: Path)
    requires Valid(t) && FreeLeaf(t, p)
    ensures Valid(AllocateAt(t, id, p))
  {
  }

  lemma MergeValid(t: Trie, id: string)
    requires Valid(t) && CanMerge(t, id)
    ensures Valid(Merge(t, id))
  {
    var t', p := Merge(t, id), t.alloc[id];
    var parent := p.up;
    forall q | q in t'.nodes && q.Child?
      ensures Paired(t'.nodes, q)
    {
      assert Paired(t.nodes, q);
      MergeKeepsPair(parent, q);
    }
    assert Paired(t.nodes, p);
    assert Root in t'.nodes;
    forall i | i in t.alloc && i != id
      ensures t.alloc[i] in t'.nodes && IsLeaf(t', t.alloc[i]) && t.alloc[i] != parent
    {
      MergeKeepsOther(t, id, i);
    }
    assert IsLeaf(t', parent) by {
      UnderHalves(Child(parent, false), parent);
    }
  }

  lemma MergeKeepsPair(parent: Path, q: Path)
    requires q.Child? && (q == parent || !Under(q, parent))
    ensures !Under(q.up, parent) && (Sibling(q) == parent || !Under(Sibling(q), parent))
  {
    if Under(q.up, parent) {
      UnderDepth(q.up, parent);
    }
  }

  /** The other tenants' blocks are outside the merged block. */
  lemma MergeKeepsOther(t: Trie, id: string, i: string)
    requires Valid(t) && CanMerge(t, id) && i in t.alloc && i != id
    ensures !Under(t.alloc[i], t.alloc[id].up)
  {
    var p, q := t.alloc[id], t.alloc[i];
    UnderHalves(q, p.up);
    if Under(q, p) {
      LeafBottom(t, p, q);
    }
    assert Paired(t.nodes, p);
  }

  lemma DeallocateValid(t: Trie, id: string)
    requires Valid(t) && id in t.alloc
    ensures Valid(Deallocate(t, id))
  {
    var t', p, n := Deallocate(t, id), t.alloc[id], RebuildLevels(t.root, t.alloc[id]);
    forall q | q in t'.nodes
      ensures Fits(t.root, q)
      ensures q.Child? ==> Paired(t'.nodes, q)
    {
      SubtreeMember(q, p, n);
      if q in t.nodes {
        assert q.Child? ==> Paired(t.nodes, q);
      } else {
        SubtreeClosed(t, p, n, q);
      }
    }
    forall i | i in t'.alloc
      ensures IsLeaf(t', t'.alloc[i])
    {
      var c := Child(t.alloc[i], false);
      SubtreeMember(c, p, n);
      if Under(c, p) {
        UnderDepth(c, p);
        LeafBottom(t, p, t.alloc[i]);
      }
    }
  }

  lemma SubtreeClosed(t: Trie, p: Path, n: nat, q: Path)
    requires q in Subtree(p, n) && q != p
    ensures q.Child? && q.up in Subtree(p, n) && Sibling(q) in Subtree(p, n)
  {
    SubtreeMember(q, p, n);
    SubtreeMember(q.up, p, n);
    SubtreeMember(Sibling(q), p, n);
  }

  lemma ReduceValid(t: Trie, id: string)
    requires Valid(t) && id in t.alloc && t.root.ones + Depth(t.alloc[id]) < 32
    ensures Valid(Reduce(t, id))
  {
    var t', p := Reduce(t, id), t.alloc[id];
    assert Child(p, false) !in t.nodes;
    assert forall i :: i in t.alloc ==> t.alloc[i] != Child(p, false);
    assert Child(Child(p, false), false) in t.nodes ==> Paired(t.nodes, Child(Child(p, false), false));
    forall q | q in t'.nodes && q.Child?
      ensures Paired(t'.nodes, q)
    {
      assert q in t.nodes ==> Paired(t.nodes, q);
    }
  }

  // ----- the manager's operations and their runs -----

  /** TrieManager.Allocate. */
  ghost predicate AllocateStep(t: Trie, id: string, t': Trie, r: Result<Cidr>)
    requires Valid(t)
  {
    if id == "" then r.Err? && t' == t
    else if id in t.alloc then r == Ok(PrefixAt(t.root, t.alloc[id])) && t' == t
    else
      || (r.Err? && t' == t && forall p :: !FreeLeaf(t, p))
      || (exists p :: Best(t, p) && r == Ok(PrefixAt(t.root, p)) && t' == AllocateAt(t, id, p))
  }

  /** TrieManager.Deallocate and TrieManager.Release. */
  ghost predicate DeallocateStep(t: Trie, id: string, t': Trie, ok: bool) {
    if id == "" then !ok && t' == t
    else if id !in t.alloc then ok && t' == t
    else if t.alloc[id].Root? then !ok && t' == t
    else ok && t' == Deallocate(t, id)
  }

  /** TrieManager.Expand. */
  ghost predicate ExpandStep(t: Trie, id: string, t': Trie, r: Result<Cidr>)
    requires Valid(t)
  {
    if id != "" && CanMerge(t, id) then r == Ok(PrefixAt(t.root, t.alloc[id].up)) && t' == Merge(t, id)
    else r.Err? && t' == t
  }

  /** TrieManager.Reduce. */
  ghost predicate ReduceStep(t: Trie, id: string, t': Trie, r: Result<Cidr>)
    requires Valid(t)
  {
    if id != "" && id in t.alloc && t.root.ones + Depth(t.alloc[id]) < t.leafSize
    then t' == Reduce(t, id) && r == Ok(PrefixAt(t.root, Child(t.alloc[id], false)))
    else r.Err? && t' == t
  }

  datatype Op = OpAllocate(id: string) | OpDeallocate(id: string) | OpExpand(id: string) | OpReduce(id: string)

  ghost predicate Step(t: Trie, op: Op, t': Trie)
    requires Valid(t)
  {
    match op
    case OpAllocate(id) => exists r :: AllocateStep(t, id, t', r)
    case OpDeallocate(id) => exists ok :: DeallocateStep(t, id, t', ok)
    case OpExpand(id) => exists r :: ExpandStep(t, id, t', r)
    case OpReduce(id) => exists r :: ReduceStep(t, id, t', r)
  }

  lemma StepValid(t: Trie, op: Op, t': Trie)
    requires Valid(t) && Step(t, op, t')
    ensures Valid(t') && t'.root == t.root && t'.leafSize == t.leafSize
  {
    match op
    case OpAllocate(id) =>
      if t' != t {
        var p :| Best(t, p) && t' == AllocateAt(t, id, p);
        AllocateValid(t, id, p);
      }
    case OpDeallocate(id) =>
      if t' != t {
        DeallocateValid(t, id);
      }
    case OpExpand(id) =>
      if t' != t {
        MergeValid(t, id);
      }
    case OpReduce(id) =>
      if t' != t {
        ReduceValid(t, id);
      }
  }

  /** The states of a run of manager operations on a fresh trie. */
  ghost predicate IsRun(root: Cidr, leafSize: int, ops: seq<Op>, ts: seq<Trie>) {
    && |ts| == |ops| + 1
    && ts[0] == Fresh(root, leafSize)
    && forall i :: 0 <= i < |ops| ==> Valid(ts[i]) ==> Step(ts[i], ops[i], ts[i + 1])
  }

  /** Every state of every run is well formed. */
  lemma {:induction false} RunValid(root: Cidr, leafSize: int, ops: seq<Op>, ts: seq<Trie>, i: nat)
    requires leafSize <= 32 && IsRun(root, leafSize, ops, ts) && i < |ts|
    ensures Valid(ts[i]) && ts[i].root == root && ts[i].leafSize == leafSize
  {
    if i == 0 {
      FreshValid(root, leafSize);
    } else {
      RunValid(root, leafSize, ops, ts, i - 1);
      StepValid(ts[i - 1], ops[i - 1], ts[i]);
    }
  }

  // ----- blocks -----

  /** A descendant's block lies in its ancestor's block. */
  lemma {:induction false} UnderInside(root: Cidr, q: Path, a: Path)
    requires Fits(root, q) && Under(q, a)
    ensures Fits(root, a) && Inside(PrefixAt(root, q), PrefixAt(root, a))
  {
    if q != a {
      UnderInside(root, q.up, a);
      HalfBlock(PrefixAt(root, q.up), q.upper);
    }
  }

  /** The halves of a block do not overlap, the lower one first. */
  lemma HalvesOrdered(root: Cidr, a: Path)
    requires root.ones + Depth(a) < 32
    ensures var lo, hi := PrefixAt(root, Child(a, false)), PrefixAt(root, Child(a, true));
      Base(lo) + Size(lo) == Base(hi)
  {
    HalfBlock(PrefixAt(root, a), false);
    HalfBlock(PrefixAt(root, a), true);
  }

  /** Blocks of nodes not on one line are disjoint. */
  lemma {:induction false} ApartDisjoint(root: Cidr, p: Path, q: Path)
    requires Fits(root, p) && Fits(root, q) && !Under(p, q) && !Under(q, p)
    ensures Disjoint(PrefixAt(root, p), PrefixAt(root, q))
    decreases Depth(p) + Depth(q)
  {
    if p.Root? {
      RootAbove(q);
    } else if q.Root? {
      RootAbove(p);
    } else if p.up == q.up {
      HalvesOrdered(root, p.up);
    } else if Under(q, p.up) {
      UnderDepth(q.up, p.up);
      if Under(p, q.up) {
        UnderDepth(p, q.up);
      }
      ApartDisjoint(root, p, q.up);
      UnderInside(root, q, q.up);
    } else {
      ApartDisjoint(root, p.up, q);
      UnderInside(root, p, p.up);
    }
  }

  lemma {:induction false} RootAbove(p: Path)
    ensures Under(p, Root)
  {
    if p.Child? {
      RootAbove(p.up);
    }
  }

  /** Tenants hold pairwise disjoint blocks. */
  lemma TenantsDisjoint(t: Trie, i: string, j: string)
    requires Valid(t) && i in t.alloc && j in t.alloc && i != j
    ensures Disjoint(PrefixAt(t.root, t.alloc[i]), PrefixAt(t.root, t.alloc[j]))
  {
    var p, q := t.alloc[i], t.alloc[j];
    if Under(p, q) {
      LeafBottom(t, q, p);
    } else if Under(q, p) {
      LeafBottom(t, p, q);
    } else {
      ApartDisjoint(t.root, p, q);
    }
  }

  /** p is a leaf whose block contains the address v. */
  predicate LeafAt(t: Trie, p: Path, v: int) {
    NodeAt(t, p, v) && IsLeaf(t, p)
  }

  /** The leaves tile the root: every address of the root block is in exactly one leaf. */
  lemma LeavesTile(t: Trie, v: int)
    requires Valid(t) && InBlock(t.root, v)
    ensures exists p :: LeafAt(t, p, v) && forall q :: LeafAt(t, q, v) ==> q == p
  {
    FindLeaf(t, Root, v);
    var p :| LeafAt(t, p, v);
    forall q | LeafAt(t, q, v)
      ensures q == p
    {
      LeafUnique(t, p, q, v);
    }
  }

  /** p is a node whose block contains the address v. */
  predicate NodeAt(t: Trie, p: Path, v: int) {
    p in t.nodes && Fits(t.root, p) && InBlock(PrefixAt(t.root, p), v)
  }

  lemma {:induction false} FindLeaf(t: Trie, a: Path, v: int)
    requires Valid(t) && NodeAt(t, a, v)
    ensures exists p :: LeafAt(t, p, v)
    decreases 32 - Depth(a)
  {
    if IsLeaf(t, a) {
      assert LeafAt(t, a, v);
    } else {
      var lo, hi := Child(a, false), Child(a, true);
      assert Paired(t.nodes, lo) && Fits(t.root, lo);
      HalvesOrdered(t.root, a);
      HalfBlock(PrefixAt(t.root, a), false);
      HalfBlock(PrefixAt(t.root, a), true);
      FindLeaf(t, if InBlock(PrefixAt(t.root, lo), v) then lo else hi, v);
    }
  }

  lemma LeafUnique(t: Trie, p: Path, q: Path, v: int)
    requires Valid(t) && LeafAt(t, p, v) && LeafAt(t, q, v)
    ensures p == q
  {
    if Under(p, q) {
      LeafBottom(t, q, p);
    } else if Under(q, p) {
      LeafBottom(t, p, q);
    } else {
      ApartDisjoint(t.root, p, q);
    }
  }
}
