/** Theorems about runs of the subnet trie: placement, room to grow, and undoing operations. */
module TrieTheorems {
  import opened Bits
  import opened Ipv4
  import opened TrieModel

  // ----- the placement rule -----

  /** The placement rule picks one leaf. */
  lemma BestUnique(t: Trie, p: Path, q: Path)
    requires Valid(t) && Best(t, p) && Best(t, q)
    ensures p == q
  {
    LeafUnique(t, p, q, Base(PrefixAt(t.root, p)));
  }

  lemma NotUnderSibling(p: Path, a: Path)
    requires Under(p, a) && a.Child?
    ensures !Under(p, Sibling(a))
  {
    UnderHalves(p, a.up);
  }

  /** Moving one tenant about below q does not change how far q can grow. */
  lemma {:induction false} GrowthLocal(t: Trie, t': Trie, id: string, x: Path, q: Path)
    requires t'.alloc == t.alloc[id := x] && Under(x, q)
    requires id in t.alloc ==> Under(t.alloc[id], q)
    ensures Growth(t', q) == Growth(t, q)
  {
    if q.Child? {
      NotUnderSibling(x, q);
      if id in t.alloc {
        NotUnderSibling(t.alloc[id], q);
        UnderTransitive(t.alloc[id], q, q.up);
      }
      assert HasAllocated(t', Sibling(q)) <==> HasAllocated(t, Sibling(q)) by {
        assert forall i :: i != id ==> (i in t.alloc <==> i in t'.alloc);
        assert forall i :: i in t.alloc && i != id ==> t'.alloc[i] == t.alloc[i];
      }
      UnderTransitive(x, q, q.up);
      GrowthLocal(t, t', id, x, q.up);
    }
  }

  /** The tenant's next k expansions all succeed. */
  ghost predicate CanMergeTimes(t: Trie, id: string, k: nat)
    decreases k
  {
    k == 0 || (CanMerge(t, id) && CanMergeTimes(Merge(t, id), id, k - 1))
  }

  /** Growth is exactly the number of expansions that succeed in a row. */
  lemma {:induction false} GrowthIsMergeCount(t: Trie, id: string, k: nat)
    requires Valid(t) && id in t.alloc
    ensures CanMergeTimes(t, id, k) <==> k <= Growth(t, t.alloc[id])
    decreases k
  {
    if k > 0 && CanMerge(t, id) {
      MergeValid(t, id);
      GrowthIsMergeCount(Merge(t, id), id, k - 1);
      MergeGrowth(t, id);
    }
  }

  /** An expansion uses up one level of growth. */
  lemma MergeGrowth(t: Trie, id: string)
    requires CanMerge(t, id)
    ensures Growth(t, t.alloc[id]) == 1 + Growth(Merge(t, id), t.alloc[id].up)
  {
    GrowthLocal(t, Merge(t, id), id, t.alloc[id].up, t.alloc[id].up);
  }

  /** MaxExpandableDepth of a free leaf: once it is allocated, exactly that many expansions succeed in a row. */
  lemma PlacementGrowth(t: Trie, id: string, p: Path, k: nat)
    requires Valid(t) && FreeLeaf(t, p) && id !in t.alloc
    ensures CanMergeTimes(AllocateAt(t, id, p), id, k) <==> k <= Growth(t, p)
  {
    var t' := AllocateAt(t, id, p);
    AllocateValid(t, id, p);
    GrowthLocal(t, t', id, p, p);
    GrowthIsMergeCount(t', id, k);
  }

  /** Growth of at least k means that the block k levels up holds no tenant. */
  lemma {:induction false} GrowthClear(t: Trie, p: Path, k: nat)
    requires Valid(t) && p in t.nodes && !HasAllocated(t, p) && k <= Depth(p)
    ensures Growth(t, p) >= k <==> !HasAllocated(t, Ancestor(p, Depth(p) - k))
  {
    if k > 0 {
      var a := Ancestor(p, Depth(p) - k);
      assert a == Ancestor(p.up, Depth(p.up) - (k - 1));
      AncestorUnder(p.up, Depth(p) - k);
      assert Paired(t.nodes, p);
      if HasAllocated(t, Sibling(p)) {
        HasAllocatedUp(t, Sibling(p), a);
      } else {
        assert !HasAllocated(t, p.up) by {
          ClearHalves(t, p);
        }
        GrowthClear(t, p.up, k - 1);
      }
    }
  }

  lemma HasAllocatedUp(t: Trie, q: Path, a: Path)
    requires HasAllocated(t, q) && q.Child? && Under(q.up, a)
    ensures HasAllocated(t, a)
  {
    var id :| id in t.alloc && Under(t.alloc[id], q);
    UnderTransitive(t.alloc[id], q, a);
  }

  /** A block whose halves hold no tenant holds none. */
  lemma ClearHalves(t: Trie, p: Path)
    requires Valid(t) && p in t.nodes && p.Child? && !HasAllocated(t, p) && !HasAllocated(t, Sibling(p))
    ensures !HasAllocated(t, p.up)
  {
    forall id | id in t.alloc
      ensures !Under(t.alloc[id], p.up)
    {
      UnderHalves(t.alloc[id], p.up);
      assert Paired(t.nodes, p);
    }
  }

  // ----- room to grow -----

  /** Depth of the leaves of a fresh trie. */
  function LeafDepth(t: Trie): nat {
    if t.leafSize <= t.root.ones then 0 else t.leafSize - t.root.ones
  }

  /** No block was merged, split or rebuilt yet: every tenant sits on a bottom leaf. */
  ghost predicate Unexpanded(t: Trie) {
    t.nodes == Subtree(Root, LeafDepth(t)) && AllAt(t.alloc, LeafDepth(t))
  }

  predicate AllAt(m: map<string, Path>, d: nat) {
    forall id | id in m :: Depth(m[id]) == d
  }

  /** No two tenants share a block at depth j. */
  ghost predicate Spread(t: Trie, j: nat) {
    forall i, k :: i in t.alloc && k in t.alloc && Ancestor(t.alloc[i], j) == Ancestor(t.alloc[k], j) ==> i == k
  }

  /** All paths j levels below a. */
  function Level(a: Path, j: nat): set<Path>
    decreases j
  {
    if j == 0 then {a} else Level(Child(a, false), j - 1) + Level(Child(a, true), j - 1)
  }

  lemma {:induction false} LevelMember(q: Path, a: Path, j: nat)
    ensures q in Level(a, j) <==> Under(q, a) && Depth(q) == Depth(a) + j
    decreases j
  {
    UnderHalves(q, a);
    if Under(q, a) {
      UnderDepth(q, a);
    }
    if j > 0 {
      LevelMember(q, Child(a, false), j - 1);
      LevelMember(q, Child(a, true), j - 1);
    }
  }

  lemma {:induction false} LevelSize(a: Path, j: nat)
    ensures |Level(a, j)| == Pow2(j)
    decreases j
  {
    if j > 0 {
      var lo, hi := Child(a, false), Child(a, true);
      LevelSize(lo, j - 1);
      LevelSize(hi, j - 1);
      var below, above := Level(lo, j - 1), Level(hi, j - 1);
      forall q | q in below
        ensures q !in above
      {
        LevelMember(q, lo, j - 1);
        LevelMember(q, hi, j - 1);
        UnderHalves(q, a);
      }
      assert below !! above;
    }
  }

  /** Fewer tenants than blocks at depth j leave one of those blocks empty. */
  lemma {:induction false} EmptyBlock(m: map<string, Path>, j: nat, blocks: set<Path>) returns (a: Path)
    requires |m| < |blocks|
    ensures a in blocks && forall id :: id in m ==> Ancestor(m[id], j) != a
    decreases |m|
  {
    if m == map[] {
      a :| a in blocks;
    } else {
      var id :| id in m;
      var b := Ancestor(m[id], j);
      var rest := m - {id};
      assert |rest| == |m| - 1 by {
        assert m.Keys == rest.Keys + {id};
      }
      a := EmptyBlock(rest, j, blocks - {b});
    }
  }

  /** The lowest path n levels below a. */
  function Lowest(a: Path, n: nat): Path
    decreases n
  {
    if n == 0 then a else Lowest(Child(a, false), n - 1)
  }

  lemma {:induction false} LowestUnder(a: Path, n: nat)
    ensures Under(Lowest(a, n), a) && Depth(Lowest(a, n)) == Depth(a) + n
    decreases n
  {
    if n > 0 {
      LowestUnder(Child(a, false), n - 1);
      UnderTransitive(Lowest(a, n), Child(a, false), a);
    }
  }

  lemma EmptyBlockAt(m: map<string, Path>, j: nat) returns (a: Path)
    requires |m| < Pow2(j)
    ensures Depth(a) == j && forall id :: id in m ==> Ancestor(m[id], j) != a
  {
    LevelSize(Root, j);
    a := EmptyBlock(m, j, Level(Root, j));
    LevelMember(a, Root, j);
  }

  /** With fewer than 2^j tenants some free leaf has D - j levels to grow. */
  lemma RoomyLeaf(t: Trie, j: nat) returns (q: Path)
    requires Valid(t) && Unexpanded(t) && |t.alloc| < Pow2(j) && j <= LeafDepth(t)
    ensures FreeLeaf(t, q) && Growth(t, q) >= LeafDepth(t) - j
  {
    var a := EmptyBlockAt(t.alloc, j);
    q := Lowest(a, LeafDepth(t) - j);
    LowestUnder(a, LeafDepth(t) - j);
    BottomLeaf(t, q);
    ClearBlock(t, a, q);
    ClearGrowth(t, a, q);
  }

  lemma ClearGrowth(t: Trie, a: Path, q: Path)
    requires Valid(t) && q in t.nodes && Under(q, a) && !HasAllocated(t, a) && !HasAllocated(t, q)
    ensures Growth(t, q) >= Depth(q) - Depth(a)
  {
    UnderDepth(q, a);
    AncestorUnique(q, a);
    GrowthClear(t, q, Depth(q) - Depth(a));
  }

  lemma ClearBlock(t: Trie, a: Path, q: Path)
    requires Under(q, a) && forall id :: id in t.alloc ==> Ancestor(t.alloc[id], Depth(a)) != a
    ensures !HasAllocated(t, a) && !HasAllocated(t, q)
    ensures forall id :: id in t.alloc ==> t.alloc[id] != q
  {
    forall id | id in t.alloc
      ensures !Under(t.alloc[id], a) && !Under(t.alloc[id], q)
    {
      AncestorUnique(t.alloc[id], a);
      if Under(t.alloc[id], q) {
        UnderTransitive(t.alloc[id], q, a);
      }
    }
  }

  /** With fewer than 2^j tenants the placement rule picks a block at depth j that holds no tenant. */
  lemma BestHasRoom(t: Trie, p: Path, j: nat)
    requires Valid(t) && Unexpanded(t) && Best(t, p) && |t.alloc| < Pow2(j) && j <= LeafDepth(t)
    ensures Depth(p) == LeafDepth(t) && !HasAllocated(t, Ancestor(p, j))
  {
    var q := RoomyLeaf(t, j);
    LeafClear(t, p);
    LeafDeep(t, p);
    GrowthClear(t, p, LeafDepth(t) - j);
  }

  lemma BottomLeaf(t: Trie, q: Path)
    requires Unexpanded(t) && Depth(q) == LeafDepth(t)
    ensures q in t.nodes && IsLeaf(t, q)
  {
    RootAbove(q);
    SubtreeMember(q, Root, LeafDepth(t));
    SubtreeMember(Child(q, false), Root, LeafDepth(t));
  }

  lemma LeafDeep(t: Trie, p: Path)
    requires Unexpanded(t) && p in t.nodes && IsLeaf(t, p)
    ensures Depth(p) == LeafDepth(t)
  {
    RootAbove(p);
    SubtreeMember(p, Root, LeafDepth(t));
    SubtreeMember(Child(p, false), Root, LeafDepth(t));
  }

  lemma LeafClear(t: Trie, p: Path)
    requires Valid(t) && FreeLeaf(t, p)
    ensures !HasAllocated(t, p)
  {
    forall id | id in t.alloc
      ensures !Under(t.alloc[id], p)
    {
      if Under(t.alloc[id], p) {
        LeafBottom(t, p, t.alloc[id]);
      }
    }
  }

  lemma SpreadStep(t: Trie, id: string, p: Path, j: nat)
    requires Valid(t) && Unexpanded(t) && Best(t, p) && |t.alloc| < Pow2(j) && j <= LeafDepth(t)
    requires Spread(t, j)
    ensures Spread(AllocateAt(t, id, p), j)
  {
    BestHasRoom(t, p, j);
    forall i | i in t.alloc
      ensures Ancestor(t.alloc[i], j) != Ancestor(p, j)
    {
      AncestorUnder(t.alloc[i], j);
    }
  }

  lemma AllocationStep(t: Trie, id: string, t': Trie, j: nat)
    requires Valid(t) && Unexpanded(t) && Step(t, OpAllocate(id), t')
    requires j <= LeafDepth(t) && |t.alloc| <= Pow2(j) ==> Spread(t, j)
    ensures Unexpanded(t') && LeafDepth(t') == LeafDepth(t) && |t'.alloc| <= |t.alloc| + 1
    ensures j <= LeafDepth(t) && |t'.alloc| <= Pow2(j) ==> Spread(t', j)
  {
    if t' != t {
      var p :| Best(t, p) && t' == AllocateAt(t, id, p);
      AllocationShape(t, id, p);
      if j <= LeafDepth(t) && |t'.alloc| <= Pow2(j) {
        SpreadStep(t, id, p, j);
      }
    }
  }

  lemma AllocationShape(t: Trie, id: string, p: Path)
    requires Unexpanded(t) && p in t.nodes && IsLeaf(t, p) && id !in t.alloc
    ensures var t' := AllocateAt(t, id, p);
      Unexpanded(t') && LeafDepth(t') == LeafDepth(t) && |t'.alloc| == |t.alloc| + 1
  {
    LeafDeep(t, p);
    OneMoreTenant(t.alloc, id, p, LeafDepth(t));
    var t' := AllocateAt(t, id, p);
    assert t'.nodes == t.nodes && LeafDepth(t') == LeafDepth(t);
  }

  lemma OneMoreTenant(m: map<string, Path>, id: string, p: Path, d: nat)
    requires id !in m && AllAt(m, d) && Depth(p) == d
    ensures AllAt(m[id := p], d) && |m[id := p]| == |m| + 1
  {
    assert m[id := p].Keys == m.Keys + {id};
  }

  /** After at most 2^j allocations on a fresh trie no two tenants share a block at depth j. */
  lemma {:induction false} AllocationsSpread(root: Cidr, leafSize: int, ops: seq<Op>, ts: seq<Trie>, i: nat, j: nat)
    requires leafSize <= 32 && IsRun(root, leafSize, ops, ts) && i < |ts|
    requires forall n :: 0 <= n < i ==> ops[n].OpAllocate?
    ensures Unexpanded(ts[i]) && LeafDepth(ts[i]) == LeafDepth(ts[0]) && |ts[i].alloc| <= i
    ensures j <= LeafDepth(ts[0]) && |ts[i].alloc| <= Pow2(j) ==> Spread(ts[i], j)
  {
    if i > 0 {
      AllocationsSpread(root, leafSize, ops, ts, i - 1, j);
      RunValid(root, leafSize, ops, ts, i - 1);
      AllocationStep(ts[i - 1], ops[i - 1].id, ts[i], j);
    }
  }

  /** The manager never allocates under the empty id. */
  lemma {:induction false} RunNoEmptyId(root: Cidr, leafSize: int, ops: seq<Op>, ts: seq<Trie>, i: nat)
    requires leafSize <= 32 && IsRun(root, leafSize, ops, ts) && i < |ts|
    ensures "" !in ts[i].alloc
  {
    if i > 0 {
      RunValid(root, leafSize, ops, ts, i - 1);
      RunNoEmptyId(root, leafSize, ops, ts, i - 1);
    }
  }

  /** The manager's expansions of the listed tenants, in this order, all succeed. */
  ghost predicate AllExpand(t: Trie, ids: seq<string>)
    decreases |ids|
  {
    ids == [] ||
    (Valid(t) && exists t', r :: ExpandStep(t, ids[0], t', r) && r.Ok? && AllExpand(t', ids[1..]))
  }

  lemma SpreadCanMerge(t: Trie, id: string, j: nat)
    requires Spread(t, j) && id in t.alloc && Depth(t.alloc[id]) > j
    ensures CanMerge(t, id)
  {
    var p := t.alloc[id];
    AncestorUnder(p.up, j);
    NotUnderSibling(p, p);
    forall i | i in t.alloc
      ensures !Under(t.alloc[i], Sibling(p))
    {
      if Under(t.alloc[i], Sibling(p)) {
        UnderTransitive(t.alloc[i], Sibling(p), Ancestor(p, j));
        AncestorUnique(t.alloc[i], Ancestor(p, j));
      }
    }
  }

  lemma SpreadMerge(t: Trie, id: string, j: nat)
    requires Spread(t, j) && id in t.alloc && Depth(t.alloc[id]) > j
    ensures Spread(Merge(t, id), j)
  {
    assert Ancestor(t.alloc[id].up, j) == Ancestor(t.alloc[id], j);
  }

  /** Every listed tenant sits deep enough below depth j for all its expansions. */
  ghost predicate DeepEnough(t: Trie, ids: seq<string>, j: nat) {
    forall id :: id in ids ==> id != "" && id in t.alloc && j + multiset(ids)[id] <= Depth(t.alloc[id])
  }

  lemma DeepEnoughAfter(t: Trie, ids: seq<string>, j: nat)
    requires ids != [] && DeepEnough(t, ids, j) && CanMerge(t, ids[0])
    ensures DeepEnough(Merge(t, ids[0]), ids[1..], j)
  {
    var id, rest := ids[0], ids[1..];
    assert ids == [id] + rest;
    assert multiset(ids) == multiset{id} + multiset(rest);
    forall i | i in rest
      ensures i != "" && i in t.alloc && j + multiset(rest)[i] <= Depth(Merge(t, id).alloc[i])
    {
      assert i in ids;
    }
  }

  /** Tenants spread over depth j can each be expanded down to depth j, in any interleaving. */
  lemma {:induction false} SpreadExpands(t: Trie, ids: seq<string>, j: nat)
    requires Valid(t) && Spread(t, j) && DeepEnough(t, ids, j)
    ensures AllExpand(t, ids)
    decreases |ids|
  {
    if ids != [] {
      var id := ids[0];
      assert multiset(ids)[id] > 0;
      SpreadCanMerge(t, id, j);
      SpreadMerge(t, id, j);
      MergeValid(t, id);
      DeepEnoughAfter(t, ids, j);
      SpreadExpands(Merge(t, id), ids[1..], j);
      assert ExpandStep(t, id, Merge(t, id), Ok(PrefixAt(t.root, t.alloc[id].up)));
    }
  }

  /** Room to grow: after at most 2^j allocations on a fresh trie of depth D every tenant can be
      expanded D - j times, whatever the order in which the tenants expand. */
  lemma GrowthRoom(root: Cidr, leafSize: int, ops: seq<Op>, ts: seq<Trie>, j: nat, ids: seq<string>)
    requires leafSize <= 32 && IsRun(root, leafSize, ops, ts) && |ops| <= Pow2(j)
    requires forall n :: 0 <= n < |ops| ==> ops[n].OpAllocate?
    requires j <= LeafDepth(ts[0])
    requires forall id :: id in ids ==> id in ts[|ops|].alloc && multiset(ids)[id] <= LeafDepth(ts[0]) - j
    ensures AllExpand(ts[|ops|], ids)
  {
    AllocationsSpread(root, leafSize, ops, ts, |ops|, j);
    RunValid(root, leafSize, ops, ts, |ops|);
    RunNoEmptyId(root, leafSize, ops, ts, |ops|);
    SpreadExpands(ts[|ops|], ids, j);
  }

  // ----- undoing operations -----

  /** Every free leaf is at depth n and nothing is deeper. */
  ghost predicate FullAt(t: Trie, n: nat) {
    && (forall p :: p in t.nodes ==> Depth(p) <= n)
    && (forall p :: FreeLeaf(t, p) ==> Depth(p) == n)
  }

  /** A block without tenants in a full trie is subdivided all the way down. */
  lemma {:induction false} FullBelow(t: Trie, n: nat, s: Path, q: Path)
    requires Valid(t) && FullAt(t, n) && s in t.nodes && !HasAllocated(t, s) && Under(q, s) && Depth(q) <= n
    ensures q in t.nodes
  {
    if q != s {
      FullBelow(t, n, s, q.up);
      assert !FreeLeaf(t, q.up);
      assert Paired(t.nodes, Child(q.up, false));
      assert q == Child(q.up, false) || q == Sibling(Child(q.up, false));
    }
  }

  /** The trie after k successful expansions of one tenant. */
  ghost function MergeTimes(t: Trie, id: string, k: nat): Trie
    requires CanMergeTimes(t, id, k)
    decreases k
  {
    if k == 0 then t else MergeTimes(Merge(t, id), id, k - 1)
  }

  /** t' is t with block a handed to the tenant and everything below a gone. */
  ghost predicate Handed(t: Trie, t': Trie, id: string, a: Path) {
    && t'.root == t.root && t'.leafSize == t.leafSize
    && t'.alloc == t.alloc[id := a]
    && forall q {:trigger Kept(t.nodes, t'.nodes, a, q)} :: Kept(t.nodes, t'.nodes, a, q)
  }

  ghost predicate Kept(nodes: set<Path>, nodes': set<Path>, a: Path, q: Path) {
    q in nodes' <==> q in nodes && (q == a || !Under(q, a))
  }

  lemma {:induction false} MergeTimesDepth(t: Trie, id: string, k: nat)
    requires Valid(t) && id in t.alloc && CanMergeTimes(t, id, k)
    ensures k <= Depth(t.alloc[id])
    decreases k
  {
    if k > 0 {
      MergedBlock(t, id);
      MergeTimesDepth(Merge(t, id), id, k - 1);
    }
  }

  /** k expansions hand the ancestor k levels up to the tenant and clear everything below it. */
  lemma {:induction false} MergeTimesShape(t: Trie, id: string, k: nat, t': Trie, j: nat)
    requires Valid(t) && id in t.alloc && CanMergeTimes(t, id, k) && t' == MergeTimes(t, id, k)
    requires j + k == Depth(t.alloc[id])
    ensures Handed(t, t', id, Ancestor(t.alloc[id], j))
    decreases k
  {
    if k == 0 {
      UnexpandedShape(t, id);
    } else {
      MergedBlock(t, id);
      MergeTimesShape(Merge(t, id), id, k - 1, t', j);
      HandedFurther(t, id, t', j);
    }
  }

  lemma MergedBlock(t: Trie, id: string)
    requires Valid(t) && CanMerge(t, id)
    ensures Valid(Merge(t, id)) && Merge(t, id).alloc[id] == t.alloc[id].up
  {
    MergeValid(t, id);
  }

  lemma HandedFurther(t: Trie, id: string, t': Trie, j: nat)
    requires Valid(t) && id in t.alloc && j < Depth(t.alloc[id])
    requires Handed(Merge(t, id), t', id, Ancestor(t.alloc[id].up, j))
    ensures Handed(t, t', id, Ancestor(t.alloc[id], j))
  {
    MergeAbove(t, id, j);
    var a := Ancestor(t.alloc[id], j);
    forall q
      ensures Kept(t.nodes, t'.nodes, a, q)
    {
      assert Kept(Merge(t, id).nodes, t'.nodes, a, q);
    }
  }

  lemma UnexpandedShape(t: Trie, id: string)
    requires Valid(t) && id in t.alloc
    ensures Handed(t, t, id, t.alloc[id])
  {
    assert t.alloc == t.alloc[id := t.alloc[id]];
    forall q
      ensures Kept(t.nodes, t.nodes, t.alloc[id], q)
    {
      if q in t.nodes && Under(q, t.alloc[id]) {
        LeafBottom(t, t.alloc[id], q);
      }
    }
  }

  /** Of the nodes outside the ancestor at depth j, and that ancestor, an expansion drops none. */
  lemma MergeAbove(t: Trie, id: string, j: nat)
    requires Valid(t) && id in t.alloc && j < Depth(t.alloc[id])
    ensures
      var p, a := t.alloc[id], Ancestor(t.alloc[id], j);
      && a == Ancestor(p.up, j)
      && forall q :: q == a || !Under(q, a) ==> (q in Merge(t, id).nodes <==> q in t.nodes)
  {
    var p, a := t.alloc[id], Ancestor(t.alloc[id], j);
    AncestorUnder(p.up, j);
    forall q | q == a || !Under(q, a)
      ensures q == p.up || !Under(q, p.up)
    {
      if Under(q, p.up) {
        UnderTransitive(q, p.up, a);
        UnderDepth(q, p.up);
        UnderDepth(p.up, a);
      }
    }
  }

  /** In a trie whose leaves are /(root + n), allocating a leaf, expanding k times and deallocating
      gives back the trie exactly when the block stays below the root and the leaves are /30, or nothing was
      expanded and they are finer. */
  lemma RoundTrip(t: Trie, n: nat, id: string, p: Path, k: nat, t2: Trie, ok: bool)
    requires Valid(t) && FullAt(t, n) && FreeLeaf(t, p) && id != "" && id !in t.alloc
    requires CanMergeTimes(AllocateAt(t, id, p), id, k)
    requires DeallocateStep(MergeTimes(AllocateAt(t, id, p), id, k), id, t2, ok)
    ensures t2 == t <==> k < n && (t.root.ones + n == 30 || (k == 0 && t.root.ones + n > 30))
  {
    PlacementGrowth(t, id, p, k);
    var t' := MergeTimes(AllocateAt(t, id, p), id, k);
    ExpandedTrie(t, id, p, k, t');
    RoundTripNodes(t, n, id, t', t'.alloc[id], k);
  }

  /** The trie after an allocation at p and k expansions. */
  lemma ExpandedTrie(t: Trie, id: string, p: Path, k: nat, t': Trie)
    requires Valid(t) && FreeLeaf(t, p) && id !in t.alloc && k <= Growth(t, p)
    requires CanMergeTimes(AllocateAt(t, id, p), id, k) && t' == MergeTimes(AllocateAt(t, id, p), id, k)
    ensures id in t'.alloc && Handed(t, t', id, t'.alloc[id])
    ensures t'.alloc[id] in t.nodes && !HasAllocated(t, t'.alloc[id]) && Depth(t'.alloc[id]) + k == Depth(p)
  {
    var t1 := AllocateAt(t, id, p);
    AllocateValid(t, id, p);
    MergeTimesDepth(t1, id, k);
    MergeTimesShape(t1, id, k, t', Depth(p) - k);
    EmptyAncestor(t, p, k);
    HandedSame(t, t1, t', id, Ancestor(p, Depth(p) - k));
  }

  /** Allocating first makes no difference to what is handed over. */
  lemma HandedSame(t: Trie, t1: Trie, t': Trie, id: string, a: Path)
    requires Handed(t1, t', id, a) && t1.root == t.root && t1.leafSize == t.leafSize && t1.nodes == t.nodes
    requires t1.alloc[id := a] == t.alloc[id := a]
    ensures Handed(t, t', id, a)
  {
    assert forall q :: Kept(t1.nodes, t'.nodes, a, q);
  }

  /** The block k levels above a free leaf with growth k holds no tenant. */
  lemma EmptyAncestor(t: Trie, p: Path, k: nat)
    requires Valid(t) && FreeLeaf(t, p) && k <= Growth(t, p) && k <= Depth(p)
    ensures var a := Ancestor(p, Depth(p) - k); a in t.nodes && !HasAllocated(t, a) && Depth(a) + k == Depth(p)
  {
    AncestorUnder(p, Depth(p) - k);
    LeafClear(t, p);
    GrowthClear(t, p, k);
    NodesUpClosed(t, p, Ancestor(p, Depth(p) - k));
  }

  lemma RoundTripNodes(t: Trie, n: nat, id: string, t': Trie, a: Path, k: nat)
    requires Valid(t) && FullAt(t, n) && a in t.nodes && !HasAllocated(t, a) && Depth(a) + k == n && id !in t.alloc
    requires Handed(t, t', id, a)
    ensures Deallocate(t', id) == t <==> t.root.ones + n == 30 || (k == 0 && t.root.ones + n > 30)
  {
    var t2, r := Deallocate(t', id), RebuildLevels(t.root, a);
    assert t2.alloc == t.alloc;
    RebuiltNodes(t, n, id, t', a, r);
    SameNodes(t.nodes, t2.nodes, a, r, k);
  }

  /** The deallocated trie differs from the original only in how deep it is below the freed block. */
  lemma RebuiltNodes(t: Trie, n: nat, id: string, t': Trie, a: Path, r: nat)
    requires Valid(t) && FullAt(t, n) && a in t.nodes && !HasAllocated(t, a)
    requires Handed(t, t', id, a) && r == RebuildLevels(t.root, a)
    ensures DeepBelow(t.nodes, t.nodes, a, n) && DeepBelow(Deallocate(t', id).nodes, t.nodes, a, Depth(a) + r)
  {
    var nodes := Deallocate(t', id).nodes;
    assert nodes == t'.nodes + Subtree(a, r);
    forall q
      ensures q in nodes <==> if Under(q, a) then Depth(q) <= Depth(a) + r else q in t.nodes
      ensures Under(q, a) ==> (q in t.nodes <==> Depth(q) <= n)
    {
      assert Kept(t.nodes, t'.nodes, a, q);
      RebuiltNode(t, n, a, r, q);
    }
  }

  /** Below a, exactly the paths down to depth d; elsewhere, exactly those of `outside`. */
  ghost predicate DeepBelow(nodes: set<Path>, outside: set<Path>, a: Path, d: nat) {
    forall q :: q in nodes <==> if Under(q, a) then Depth(q) <= d else q in outside
  }

  lemma SameNodes(nodes: set<Path>, nodes2: set<Path>, a: Path, r: nat, k: nat)
    requires DeepBelow(nodes, nodes, a, Depth(a) + k) && DeepBelow(nodes2, nodes, a, Depth(a) + r)
    ensures nodes2 == nodes <==> r == k
  {
    LowestUnder(a, r);
    LowestUnder(a, k);
    assert Lowest(a, r) in nodes2 && Lowest(a, k) in nodes;
    if r == k {
      assert nodes2 == nodes;
    }
  }

  lemma RebuiltNode(t: Trie, n: nat, a: Path, r: nat, q: Path)
    requires Valid(t) && FullAt(t, n) && a in t.nodes && !HasAllocated(t, a)
    ensures q in Subtree(a, r) <==> Under(q, a) && Depth(q) <= Depth(a) + r
    ensures Under(q, a) && Depth(q) <= n ==> q in t.nodes
  {
    SubtreeMember(q, a, r);
    if Under(q, a) && Depth(q) <= n {
      FullBelow(t, n, a, q);
    }
  }

  /** An expansion right after a reduction restores the trie. */
  lemma ExpandAfterReduce(t: Trie, id: string)
    requires Valid(t) && id in t.alloc
    ensures CanMerge(Reduce(t, id), id) && Merge(Reduce(t, id), id) == t
  {
    var t', p := Reduce(t, id), t.alloc[id];
    forall q | q in t.nodes && Under(q, p)
      ensures q == p
    {
      LeafBottom(t, p, q);
    }
    UnderHalves(Child(p, false), p);
    UnderHalves(Child(p, true), p);
    UnderHalves(Child(p, false), Child(p, true));
    forall i | i in t'.alloc
      ensures !Under(t'.alloc[i], Child(p, true))
    {
      if i == id {
        UnderHalves(Child(p, false), p);
      } else if Under(t.alloc[i], Child(p, true)) {
        UnderHalves(t.alloc[i], p);
      }
    }
    assert Merge(t', id).alloc == t.alloc;
    assert Merge(t', id).nodes == t.nodes;
  }

  /** Depth of /30 blocks. */
  function Depth30(root: Cidr): nat {
    if root.ones < 30 then 30 - root.ones else 0
  }

  /** Allocate, Deallocate and Expand keep a trie with /30 leaves full. */
  lemma StepFull(t: Trie, op: Op, t': Trie)
    requires Valid(t) && FullAt(t, Depth30(t.root)) && Step(t, op, t') && !op.OpReduce?
    ensures FullAt(t', Depth30(t.root))
  {
    if t' != t {
      match op
      case OpAllocate(id) =>
        var p :| Best(t, p) && t' == AllocateAt(t, id, p);
        AllocateFull(t, id, p, Depth30(t.root));
      case OpDeallocate(id) =>
        DeallocateFull(t, id);
      case OpExpand(id) =>
        MergeFull(t, id, Depth30(t.root));
    }
  }

  lemma AllocateFull(t: Trie, id: string, p: Path, n: nat)
    requires FullAt(t, n) && id !in t.alloc
    ensures FullAt(AllocateAt(t, id, p), n)
  {
    var t' := AllocateAt(t, id, p);
    forall q | FreeLeaf(t', q)
      ensures FreeLeaf(t, q)
    {
      assert forall i :: i in t.alloc ==> i in t'.alloc && t'.alloc[i] == t.alloc[i];
    }
  }

  lemma MergeFull(t: Trie, id: string, n: nat)
    requires Valid(t) && FullAt(t, n) && CanMerge(t, id)
    ensures FullAt(Merge(t, id), n)
  {
    var t', p := Merge(t, id), t.alloc[id];
    var a := p.up;
    assert t'.alloc[id] == a && p !in t'.nodes by {
      UnderDepth(p, a);
    }
    forall q | FreeLeaf(t', q)
      ensures FreeLeaf(t, q)
    {
      assert Child(q, false) in t.nodes ==> Under(q, a);
      assert forall i :: i in t.alloc && i != id ==> t'.alloc[i] == t.alloc[i];
    }
  }

  lemma DeallocateFull(t: Trie, id: string)
    requires Valid(t) && FullAt(t, Depth30(t.root)) && id in t.alloc
    ensures FullAt(Deallocate(t, id), Depth30(t.root))
  {
    var t', p := Deallocate(t, id), t.alloc[id];
    var r := RebuildLevels(t.root, p);
    assert Depth(p) + r == Depth30(t.root);
    forall q | q in t'.nodes
      ensures Depth(q) <= Depth(p) + r
    {
      SubtreeMember(q, p, r);
    }
    forall q | FreeLeaf(t', q)
      ensures Depth(q) == Depth(p) + r
    {
      SubtreeMember(q, p, r);
      SubtreeMember(Child(q, false), p, r);
      assert forall i :: i in t.alloc && i != id ==> i in t'.alloc && t'.alloc[i] == t.alloc[i];
      assert q in t.nodes && q != p ==> FreeLeaf(t, q);
    }
  }

  /** Runs without Reduce on a trie built down to /30 leave every free leaf a /30. */
  lemma {:induction false} RunFull(root: Cidr, ops: seq<Op>, ts: seq<Trie>, i: nat)
    requires IsRun(root, 30, ops, ts) && i < |ts|
    requires forall n :: 0 <= n < i ==> !ops[n].OpReduce?
    ensures FullAt(ts[i], Depth30(root))
  {
    RunValid(root, 30, ops, ts, i);
    if i == 0 {
      FreshFull(root, 30);
    } else {
      RunValid(root, 30, ops, ts, i - 1);
      RunFull(root, ops, ts, i - 1);
      StepFull(ts[i - 1], ops[i - 1], ts[i]);
    }
  }

  /** Levels of a trie built down to leafSize. */
  function Levels(root: Cidr, leafSize: int): nat {
    if leafSize <= root.ones then 0 else leafSize - root.ones
  }

  /** A built trie of any leaf size is full at that size. */
  lemma FreshFull(root: Cidr, leafSize: int)
    ensures FullAt(Fresh(root, leafSize), Levels(root, leafSize))
  {
    var t, n := Fresh(root, leafSize), Levels(root, leafSize);
    forall p | p in t.nodes
      ensures Depth(p) <= n && (IsLeaf(t, p) ==> Depth(p) == n)
    {
      SubtreeMember(p, Root, n);
      SubtreeMember(Child(p, false), Root, n);
    }
  }

  /** On a built trie, giving out any leaf and taking it back restores the trie exactly when the leaves are /30 or
      finer. */
  lemma FreshRoundTrip(root: Cidr, leafSize: int, id: string, p: Path)
    requires root.ones < leafSize <= 32 && FreeLeaf(Fresh(root, leafSize), p) && id != ""
    ensures
      var t := Fresh(root, leafSize);
      var t2 := Deallocate(AllocateAt(t, id, p), id);
      DeallocateStep(AllocateAt(t, id, p), id, t2, true) && (t2 == t <==> leafSize >= 30)
  {
    var t, n := Fresh(root, leafSize), Levels(root, leafSize);
    FreshValid(root, leafSize);
    FreshFull(root, leafSize);
    assert Depth(p) == n;
    var t1 := AllocateAt(t, id, p);
    RoundTrip(t, n, id, p, 0, Deallocate(t1, id), true);
  }

  /** A failing trie: 10.0.0.0/28 cut into two /29 leaves. */
  lemma RoundTripFails()
    ensures
      var t, p := Fresh(Cidr([10, 0, 0, 0], 28), 29), Child(Root, false);
      FreeLeaf(t, p) && Deallocate(AllocateAt(t, "a", p), "a") != t
  {
    var root, p := Cidr([10, 0, 0, 0], 28), Child(Root, false);
    SubtreeMember(p, Root, 1);
    SubtreeMember(Child(p, false), Root, 1);
    FreshRoundTrip(root, 29, "a", p);
  }

  // ----- what each manager operation answers -----

  /** t' gives every tenant but id the block that t does. */
  ghost predicate OthersKeep(t: Trie, t': Trie, id: string) {
    t'.root == t.root &&
    forall i :: i != id ==> (i in t'.alloc <==> i in t.alloc) && (i in t.alloc ==> t'.alloc[i] == t.alloc[i])
  }

  /** Allocate fails exactly for the empty id, or for a new tenant when no leaf is free; otherwise it answers the block
      the tenant holds from then on, the one it had if it had one. */
  lemma AllocateOutcome(t: Trie, id: string, t': Trie, r: Result<Cidr>)
    requires Valid(t) && AllocateStep(t, id, t', r)
    ensures r.Err? <==> id == "" || (id !in t.alloc && forall p :: !FreeLeaf(t, p))
    ensures Valid(t') && OthersKeep(t, t', id) && (r.Err? || id in t.alloc ==> t' == t)
    ensures r.Ok? ==> id in t'.alloc && r.value == PrefixAt(t'.root, t'.alloc[id])
    ensures r.Ok? && id !in t.alloc ==> FreeLeaf(t, t'.alloc[id])
  {
    if id != "" && id !in t.alloc && r.Ok? {
      var p :| Best(t, p) && r == Ok(PrefixAt(t.root, p)) && t' == AllocateAt(t, id, p);
      AllocateValid(t, id, p);
    }
  }

  /** Deallocate fails exactly for the empty id and the holder of the root; otherwise the tenant holds nothing, and an
      unknown tenant changes nothing. */
  lemma DeallocateOutcome(t: Trie, id: string, t': Trie, ok: bool)
    requires Valid(t) && DeallocateStep(t, id, t', ok)
    ensures ok <==> id != "" && !(id in t.alloc && t.alloc[id].Root?)
    ensures Valid(t') && OthersKeep(t, t', id) && (!ok || id !in t.alloc ==> t' == t)
    ensures ok ==> id !in t'.alloc
  {
    if id != "" && id in t.alloc {
      DeallocateValid(t, id);
    }
  }

  /** Expand succeeds exactly when a tenant has room to grow, and then answers the doubled block it holds from then on,
      which contains the old one. */
  lemma ExpandOutcome(t: Trie, id: string, t': Trie, r: Result<Cidr>)
    requires Valid(t) && ExpandStep(t, id, t', r)
    ensures r.Ok? <==> id != "" && id in t.alloc && Growth(t, t.alloc[id]) > 0
    ensures Valid(t') && OthersKeep(t, t', id) && (r.Err? ==> t' == t)
    ensures r.Ok? ==>
      var was := PrefixAt(t.root, t.alloc[id]);
      && id in t'.alloc && r.value == PrefixAt(t'.root, t'.alloc[id])
      && r.value.ones + 1 == was.ones && Inside(was, r.value)
  {
    if id in t.alloc {
      GrowthIsMergeCount(t, id, 1);
      assert CanMergeTimes(t, id, 1) <==> CanMerge(t, id);
    }
    if r.Ok? {
      MergeValid(t, id);
      UnderInside(t.root, t.alloc[id], t.alloc[id].up);
    }
  }

  /** Reduce succeeds exactly above the leaf size, and then answers the lower half of the block, which the tenant holds
      from then on while the upper half is free. */
  lemma ReduceOutcome(t: Trie, id: string, t': Trie, r: Result<Cidr>)
    requires Valid(t) && ReduceStep(t, id, t', r)
    ensures r.Ok? <==> id != "" && id in t.alloc && PrefixAt(t.root, t.alloc[id]).ones < t.leafSize
    ensures Valid(t') && OthersKeep(t, t', id) && (r.Err? ==> t' == t)
    ensures r.Ok? ==>
      var was := PrefixAt(t.root, t.alloc[id]);
      && id in t'.alloc && r.value == PrefixAt(t'.root, t'.alloc[id])
      && r.value.ones == was.ones + 1 && Base(r.value) == Base(was) && FreeLeaf(t', Sibling(t'.alloc[id]))
  {
    if r.Ok? {
      ReduceValid(t, id);
      var p := t.alloc[id];
      HalfBlock(PrefixAt(t.root, p), false);
      UpperIsFree(t, id);
    }
  }

  lemma UpperIsFree(t: Trie, id: string)
    requires Valid(t) && id in t.alloc
    ensures FreeLeaf(Reduce(t, id), Child(t.alloc[id], true))
  {
    var p := t.alloc[id];
    var hi := Child(p, true);
    if Child(hi, false) in t.nodes || hi in t.nodes {
      NodesUpClosed(t, if hi in t.nodes then hi else Child(hi, false), hi);
      LeafBottom(t, p, hi);
    }
  }
}
