/** The mutable trie of CIDR blocks, with parent pointers and an index of tenants, and the manager
    over it. Every operation is proved against the steps of `TrieModel`. */
module SubnetTrie {
  import opened Ipv4
  import Ipv4Bytes
  import opened TrieModel

  class TrieNode {
    const prefix: Cidr
    const parent: TrieNode?
    var child0: TrieNode?
    var child1: TrieNode?
    var isAllocated: bool
    var id: string
    /** Where the node sits below the root. */
    ghost const path: Path

    constructor (prefix: Cidr, parent: TrieNode?, ghost path: Path)
      ensures this.prefix == prefix && this.parent == parent && this.path == path
      ensures child0 == null && child1 == null && !isAllocated && id == ""
    {
      this.prefix := prefix;
      this.parent := parent;
      this.path := path;
      child0, child1, isAllocated, id := null, null, false, "";
    }
  }

  /** The prefix of a node is the block at its path, and its parent is the node one step up. */
  ghost predicate Shaped(root: Cidr, n: TrieNode) {
    && Fits(root, n.path) && n.prefix == PrefixAt(root, n.path)
    && (n.path.Root? <==> n.parent == null)
    && (n.path.Child? ==> n.parent.path == n.path.up)
  }

  /** Levels a build adds below a /ones block. */
  function BuildLevels(ones: nat, maxMaskSize: int): nat {
    if ones < maxMaskSize then maxMaskSize - ones else 0
  }

  /** Nothing lies below p. */
  ghost predicate Bare(nodes: set<Path>, p: Path) {
    forall q :: q in nodes && Under(q, p) ==> q == p
  }

  lemma BareHalves(nodes: set<Path>, p: Path)
    requires Bare(nodes, p)
    ensures forall q :: q in nodes ==> !Under(q, Child(p, false)) && !Under(q, Child(p, true))
  {
    forall q | q in nodes
      ensures !Under(q, Child(p, false)) && !Under(q, Child(p, true))
    {
      UnderHalves(q, p);
    }
  }

  /** The subtree of the lower half leaves the upper half bare. */
  lemma BareOther(nodes: set<Path>, p: Path, n: nat)
    requires Bare(nodes, p)
    ensures forall q :: q in nodes + {Child(p, false)} + Subtree(Child(p, false), n) ==> !Under(q, Child(p, true))
  {
    forall q | q in nodes + {Child(p, false)} + Subtree(Child(p, false), n)
      ensures !Under(q, Child(p, true))
    {
      UnderHalves(q, p);
      SubtreeMember(q, Child(p, false), n);
    }
  }

  class IPTrie {
    var root: TrieNode
    const rootCIDR: Cidr
    var allocMap: map<string, TrieNode>
    /** The reachable nodes by path. */
    ghost var nodes: map<Path, TrieNode>
    ghost var leafSize: int

    ghost function Lookup(p: Path): TrieNode?
      reads this`nodes
    {
      if p in nodes then nodes[p] else null
    }

    /** n is the reachable node at its own path. */
    ghost predicate Has(n: TrieNode)
      reads this`nodes
    {
      n.path in nodes && nodes[n.path] == n
    }

    /** The node stored for p is the one at path p and its parent is stored too. */
    ghost predicate PlaceOk(p: Path)
      reads this`nodes
    {
      p in nodes ==>
        && nodes[p].path == p && Shaped(rootCIDR, nodes[p])
        && (p.Child? ==> p.up in nodes && nodes[p].parent == nodes[p.up])
    }

    /** The mutable fields of the node at p agree with the paths and the index. */
    ghost predicate NodeOk(p: Path)
      reads this`nodes, this`allocMap, nodes.Values
    {
      p in nodes ==>
        var n := nodes[p];
        && n.child0 == Lookup(Child(p, false)) && n.child1 == Lookup(Child(p, true))
        && (n.isAllocated ==> n.id in allocMap && allocMap[n.id] == n)
        && (!n.isAllocated ==> n.id == "")
    }

    /** The index holds allocated reachable nodes, under their own id. */
    ghost predicate IndexOk(i: string)
      reads this`nodes, this`allocMap, allocMap.Values
    {
      i in allocMap ==> Has(allocMap[i]) && allocMap[i].isAllocated && allocMap[i].id == i
    }

    ghost predicate Placed()
      reads this`nodes, this`root
    {
      && Root in nodes && nodes[Root] == root
      && (forall p {:trigger PlaceOk(p)} :: PlaceOk(p))
    }

    ghost predicate Linked()
      reads this, nodes.Values, allocMap.Values
    {
      && Placed()
      && (forall p {:trigger NodeOk(p)} :: NodeOk(p))
      && (forall i {:trigger IndexOk(i)} :: IndexOk(i))
    }

    /** The abstract trie: which blocks exist and which tenant holds which. */
    ghost function Model(): Trie
      reads this`nodes, this`allocMap, this`leafSize
    {
      Trie(rootCIDR, leafSize, nodes.Keys, map i | i in allocMap :: allocMap[i].path)
    }

    ghost predicate Valid()
      reads this, nodes.Values, allocMap.Values
    {
      Linked() && TrieModel.Valid(Model())
    }

    /** A trie of one node. */
    constructor (rootNet: Cidr)
      ensures Linked() && fresh(nodes.Values) && nodes.Keys == {Root} && allocMap == map[]
      ensures rootCIDR == rootNet && leafSize == rootNet.ones
    {
      root := new TrieNode(rootNet, null, Root);
      rootCIDR := rootNet;
      allocMap := map[];
      leafSize := rootNet.ones;
      nodes := map[Root := root];
    }

    // ----- building -----

    /** The nodes at the given paths were added, unallocated, and every older node stayed. */
    twostate predicate Grown(added: set<Path>)
      reads this, nodes.Values
    {
      && nodes.Keys == old(nodes.Keys) + added
      && (forall q :: q in old(nodes) ==> nodes[q] == old(nodes[q]))
      && (forall q :: q in nodes && q !in old(nodes) ==> fresh(nodes[q]))
    }

    /** Builds the subtree below a node down to maxMaskSize. */
    method BuildRecursive(node: TrieNode, maxMaskSize: int)
      requires Linked() && Has(node) && !node.isAllocated && maxMaskSize <= 32
      requires Bare(nodes.Keys, node.path)
      modifies this`nodes, node`child0, node`child1
      ensures Linked() && Grown(Subtree(node.path, BuildLevels(node.prefix.ones, maxMaskSize)))
      decreases BuildLevels(node.prefix.ones, maxMaskSize), 1
    {
      ghost var p := node.path;
      var maskSize := node.prefix.ones;
      if maskSize >= maxMaskSize {
        return;
      }
      var subnets := Ipv4Bytes.SplitSubnet(node.prefix, maxMaskSize);
      BareHalves(nodes.Keys, p);
      BuildChild(node, false, subnets.value.0, maxMaskSize);
      BareOther(old(nodes.Keys), p, BuildLevels(maskSize + 1, maxMaskSize));
      BuildChild(node, true, subnets.value.1, maxMaskSize);
    }

    /** Creates one child of a node and builds the subtree below it. */
    method BuildChild(node: TrieNode, upper: bool, subnet: Cidr, maxMaskSize: int)
      requires Linked() && Has(node) && !node.isAllocated && node.prefix.ones < maxMaskSize <= 32
      requires subnet == Half(node.prefix, upper)
      requires forall q :: q in nodes ==> !Under(q, Child(node.path, upper))
      modifies this`nodes, node`child0, node`child1
      ensures Linked() && Grown(Subtree(Child(node.path, upper), BuildLevels(node.prefix.ones + 1, maxMaskSize)))
      decreases BuildLevels(node.prefix.ones, maxMaskSize), 0
    {
      ghost var c := Child(node.path, upper);
      assert Under(c, c);
      var child := AttachChild(node, upper, subnet);
      assert nodes.Keys == old(nodes.Keys) + {c};
      SubtreeMember(c, c, BuildLevels(node.prefix.ones + 1, maxMaskSize));
      BuildRecursive(child, maxMaskSize);
    }

    /** Creates one child of a node. */
    method AttachChild(node: TrieNode, upper: bool, subnet: Cidr) returns (child: TrieNode)
      requires Linked() && Has(node) && !node.isAllocated
      requires node.prefix.ones < 32 && subnet == Half(node.prefix, upper)
      requires forall q :: q in nodes ==> !Under(q, Child(node.path, upper))
      modifies this`nodes, node`child0, node`child1
      ensures Linked()
      ensures fresh(child) && child.path == Child(node.path, upper) && child.prefix == subnet && !child.isAllocated
      ensures nodes == old(nodes)[Child(node.path, upper) := child]
    {
      ghost var c := Child(node.path, upper);
      assert PlaceOk(node.path) && NodeOk(node.path);
      assert Under(c, c) && Under(Child(c, false), c) && Under(Child(c, true), c);
      child := new TrieNode(subnet, node, c);
      if upper {
        node.child1 := child;
      } else {
        node.child0 := child;
      }
      nodes := nodes[c := child];
      assert Shaped(rootCIDR, child);
      forall p
        ensures PlaceOk(p)
      {
        assert old(PlaceOk(p));
      }
      forall p
        ensures NodeOk(p)
      {
        assert old(NodeOk(p)) && old(PlaceOk(p));
      }
      forall i
        ensures IndexOk(i)
      {
        assert old(IndexOk(i));
      }
    }

    /** Builds a fresh trie down to maxMaskSize. */
    method Build(maxMaskSize: int)
      requires Linked() && nodes.Keys == {Root} && allocMap == map[] && maxMaskSize <= 32
      modifies this`nodes, this`leafSize, root`child0, root`child1
      ensures Valid() && Model() == Fresh(rootCIDR, maxMaskSize)
      ensures Grown(nodes.Keys)
    {
      assert PlaceOk(Root) && NodeOk(Root);
      leafSize := maxMaskSize;
      BuildRecursive(root, maxMaskSize);
      var n := BuildLevels(rootCIDR.ones, maxMaskSize);
      SubtreeMember(Root, Root, n);
      assert nodes.Keys == Subtree(Root, n);
      FreshValid(rootCIDR, maxMaskSize);
    }

    // ----- queries -----

    lemma Children(n: TrieNode)
      requires Linked() && Has(n)
      ensures Fits(rootCIDR, n.path)
      ensures n.child0 != null ==> Has(n.child0) && n.child0.path == Child(n.path, false) && Fits(rootCIDR, n.child0.path)
      ensures n.child1 != null ==> Has(n.child1) && n.child1.path == Child(n.path, true) && Fits(rootCIDR, n.child1.path)
      ensures n.child0 == null <==> Child(n.path, false) !in nodes
      ensures n.child1 == null <==> Child(n.path, true) !in nodes
    {
      assert NodeOk(n.path);
      assert PlaceOk(n.path) && PlaceOk(Child(n.path, false)) && PlaceOk(Child(n.path, true));
    }

    /** A node is marked allocated exactly when the index gives it to some tenant. */
    lemma AllocatedIffHeld(node: TrieNode)
      requires Linked() && Has(node)
      ensures node.isAllocated <==> exists i :: i in Model().alloc && Model().alloc[i] == node.path
    {
      assert NodeOk(node.path);
      if node.isAllocated {
        assert Model().alloc[node.id] == node.path;
      }
      forall i | i in allocMap && allocMap[i].path == node.path
        ensures node.isAllocated
      {
        assert IndexOk(i);
      }
    }

    /** Some node at or below n is allocated. */
    function HasAllocatedDescendant(n: TrieNode?): (b: bool)
      requires Valid() && (n != null ==> Has(n))
      reads this, nodes.Values, allocMap.Values, n
      ensures n == null ==> !b
      ensures n != null ==> (b <==> HasAllocated(Model(), n.path))
      decreases if n == null then 0 else 33 - Depth(n.path)
    {
      if n == null then false
      else
        Children(n);
        AllocatedIffHeld(n);
        HasAllocatedCases(Model(), n.path);
        n.isAllocated || HasAllocatedDescendant(n.child0) || HasAllocatedDescendant(n.child1)
    }

    /** The other child of a node's parent. */
    function GetSibling(n: TrieNode): (r: TrieNode?)
      requires Valid() && Has(n)
      reads this, nodes.Values, allocMap.Values, n
      ensures n.path.Root? <==> n.parent == null
      ensures n.path.Root? ==> r == null
      ensures n.path.Child? ==> Has(n.parent) && n.parent.path == n.path.up
      ensures n.path.Child? ==> r != null && Has(r) && r.path == Sibling(n.path)
    {
      assert PlaceOk(n.path);
      if n.parent == null then null
      else
        assert Paired(Model().nodes, n.path);
        assert PlaceOk(Sibling(n.path)) && PlaceOk(n.path.up) && NodeOk(n.path.up);
        if n.parent.child0 == n then n.parent.child1 else n.parent.child0
    }

    /** How often a tenant at n could merge upwards. */
    method MaxExpandableDepth(n: TrieNode) returns (depth: int)
      requires Valid() && Has(n)
      ensures depth == Growth(Model(), n.path)
    {
      depth := 0;
      var current: TrieNode := n;
      assert PlaceOk(current.path);
      while current.parent != null
        invariant Has(current) && PlaceOk(current.path)
        invariant depth + Growth(Model(), current.path) == Growth(Model(), n.path)
        decreases Depth(current.path)
      {
        var sibling := GetSibling(current);
        if sibling != null && sibling.isAllocated {
          assert HasAllocatedDescendant(sibling);
          break;
        }
        if HasAllocatedDescendant(sibling) {
          break;
        }
        depth := depth + 1;
        current := current.parent;
        assert PlaceOk(current.path);
      }
    }

    /** ns lists the free leaves below a, each once, by ascending address. */
    ghost predicate ListsFree(ns: seq<TrieNode>, a: Path)
      requires Placed()
      reads this`nodes, this`allocMap, this`leafSize, this`root
    {
      && (forall i :: 0 <= i < |ns| ==> Has(ns[i]) && Fits(rootCIDR, ns[i].path))
      && (forall i :: 0 <= i < |ns| ==> FreeLeaf(Model(), ns[i].path) && Under(ns[i].path, a))
      && (forall p :: FreeLeaf(Model(), p) && Under(p, a) ==> nodes[p] in ns)
      && (forall i, j :: 0 <= i < j < |ns| ==> Start(ns[i]) < Start(ns[j]))
    }

    ghost function Start(n: TrieNode): int
      requires Fits(rootCIDR, n.path)
    {
      Base(PrefixAt(rootCIDR, n.path))
    }

    /** The free leaves below a node, lower half first. */
    ghost function FreeLeaves(node: TrieNode?, hasAllocatedAncestor: bool): seq<TrieNode>
      requires Linked() && (node != null ==> Has(node))
      reads this, nodes.Values, allocMap.Values, node
      decreases if node == null then 0 else 33 - Depth(node.path)
    {
      if node == null then []
      else
        Children(node);
        var skip := hasAllocatedAncestor || node.isAllocated;
        if node.child0 == null && node.child1 == null then if skip then [] else [node]
        else FreeLeaves(node.child0, skip) + FreeLeaves(node.child1, skip)
    }

    /** Appends the free leaves below a node to the result. */
    function FindFreeLeavesRecursive(node: TrieNode?, result: seq<TrieNode>, hasAllocatedAncestor: bool)
      : (out: seq<TrieNode>)
      requires Linked() && (node != null ==> Has(node))
      reads this, nodes.Values, allocMap.Values, node
      ensures out == result + FreeLeaves(node, hasAllocatedAncestor)
      decreases if node == null then 0 else 33 - Depth(node.path)
    {
      if node == null then result
      else
        Children(node);
        var skip := hasAllocatedAncestor || node.isAllocated;
        if node.child0 == null && node.child1 == null then if skip then result else result + [node]
        else FindFreeLeavesRecursive(node.child1, FindFreeLeavesRecursive(node.child0, result, skip), skip)
    }

    /** The search lists exactly the free leaves, by ascending address. */
    lemma {:induction false} FreeLeavesListed(node: TrieNode)
      requires Valid() && Has(node)
      ensures ListsFree(FreeLeaves(node, false), node.path)
      decreases 33 - Depth(node.path)
    {
      Children(node);
      if node.child0 == null && node.child1 == null {
        LeafLists(node);
      } else {
        InnerNode(node);
        FreeLeavesListed(node.child0);
        FreeLeavesListed(node.child1);
        JoinLists(node, FreeLeaves(node.child0, false), FreeLeaves(node.child1, false));
      }
    }

    lemma LeafLists(node: TrieNode)
      requires Valid() && Has(node) && node.child0 == null
      ensures ListsFree(if node.isAllocated then [] else [node], node.path)
    {
      var m, p := Model(), node.path;
      Children(node);
      assert IsLeaf(m, p);
      AllocatedIffHeld(node);
      forall q | FreeLeaf(m, q) && Under(q, p)
        ensures q == p
      {
        LeafBottom(m, p, q);
      }
    }

    /** A node with a child has two and is not allocated. */
    lemma InnerNode(node: TrieNode)
      requires Valid() && Has(node) && (node.child0 != null || node.child1 != null)
      ensures node.child0 != null && node.child1 != null && !node.isAllocated
    {
      var m, p := Model(), node.path;
      Children(node);
      AllocatedIffHeld(node);
      assert Child(p, false) in m.nodes ==> Paired(m.nodes, Child(p, false));
      assert Child(p, true) in m.nodes ==> Paired(m.nodes, Child(p, true));
    }

    lemma JoinLists(node: TrieNode, xs: seq<TrieNode>, ys: seq<TrieNode>)
      requires Valid() && Has(node) && node.child0 != null && node.child1 != null
      requires ListsFree(xs, Child(node.path, false)) && ListsFree(ys, Child(node.path, true))
      ensures ListsFree(xs + ys, node.path)
    {
      var m, p, ns := Model(), node.path, xs + ys;
      Children(node);
      forall q | FreeLeaf(m, q) && Under(q, p)
        ensures nodes[q] in ns
      {
        UnderHalves(q, p);
      }
      forall i | 0 <= i < |ns|
        ensures Under(ns[i].path, p)
      {
        UnderHalves(ns[i].path, p);
      }
      HalvesOrdered(rootCIDR, p);
      forall i, j | 0 <= i < |xs| && 0 <= j < |ys|
        ensures Start(xs[i]) < Start(ys[j])
      {
        UnderInside(rootCIDR, xs[i].path, Child(p, false));
        UnderInside(rootCIDR, ys[j].path, Child(p, true));
      }
    }

    /** The first of the leaves with the greatest room to grow. */
    method SelectBest(leaves: seq<TrieNode>) returns (best: TrieNode?, ghost k: int)
      requires Valid() && forall i :: 0 <= i < |leaves| ==> Has(leaves[i])
      ensures best == null <==> leaves == []
      ensures best != null ==> 0 <= k < |leaves| && leaves[k] == best
      ensures best != null ==> FirstGreatest(Model(), leaves, k)
    {
      best, k := null, -1;
      var maxExpansion := -1;
      for n := 0 to |leaves|
        invariant best == null <==> n == 0
        invariant best == null ==> maxExpansion == -1
        invariant best != null ==> 0 <= k < n && leaves[k] == best && maxExpansion == Growth(Model(), best.path)
        invariant forall i :: 0 <= i < n ==>
          && Growth(Model(), leaves[i].path) <= maxExpansion
          && (i < k ==> Growth(Model(), leaves[i].path) < maxExpansion)
      {
        var expansion := MaxExpandableDepth(leaves[n]);
        if expansion > maxExpansion {
          best, maxExpansion, k := leaves[n], expansion, n;
        }
      }
    }

    /** The first leaf with the greatest growth, in address order, is the placement rule's choice. */
    lemma FirstIsBest(leaves: seq<TrieNode>, k: int)
      requires Valid() && ListsFree(leaves, Root) && 0 <= k < |leaves| && FirstGreatest(Model(), leaves, k)
      ensures Best(Model(), leaves[k].path)
    {
      forall q | FreeLeaf(Model(), q)
        ensures || Growth(Model(), q) < Growth(Model(), leaves[k].path)
                || (Growth(Model(), q) == Growth(Model(), leaves[k].path)
                    && Base(PrefixAt(rootCIDR, leaves[k].path)) <= Base(PrefixAt(rootCIDR, q)))
      {
        NotBetter(leaves, k, q);
      }
    }

    lemma NotBetter(leaves: seq<TrieNode>, k: int, q: Path)
      requires Placed() && ListsFree(leaves, Root) && 0 <= k < |leaves| && FirstGreatest(Model(), leaves, k)
      requires FreeLeaf(Model(), q)
      ensures Fits(rootCIDR, q) && Fits(rootCIDR, leaves[k].path)
      ensures || Growth(Model(), q) < Growth(Model(), leaves[k].path)
              || (Growth(Model(), q) == Growth(Model(), leaves[k].path)
                  && Base(PrefixAt(rootCIDR, leaves[k].path)) <= Base(PrefixAt(rootCIDR, q)))
    {
      RootAbove(q);
      assert PlaceOk(q);
      var i :| 0 <= i < |leaves| && leaves[i] == nodes[q];
      assert i < k || i == k || Start(leaves[k]) < Start(leaves[i]);
    }

    // ----- updates -----

    /** Allocates the best free leaf to a new tenant. */
    method Allocate(id: string) returns (r: Result<TrieNode>)
      requires Valid()
      modifies this`allocMap, nodes.Values
      ensures Valid() && nodes == old(nodes)
      ensures r.Err? ==> Model() == old(Model()) && (id in Model().alloc || forall p :: !FreeLeaf(Model(), p))
      ensures r.Ok? ==> id !in old(Model()).alloc && Has(r.value) && Best(old(Model()), r.value.path)
      ensures r.Ok? ==> Model() == AllocateAt(old(Model()), id, r.value.path)
    {
      if id in allocMap {
        return Err("tenant already exists");
      }
      var bestNode := FindBest();
      if bestNode == null {
        return Err("no free subnet available");
      }
      AllocateValid(Model(), id, bestNode.path);
      Claim(bestNode, id);
      return Ok(bestNode);
    }

    /** The free leaf with most room to grow, the lowest such; null when no leaf is free. */
    method FindBest() returns (best: TrieNode?)
      requires Valid()
      ensures best == null ==> forall p :: !FreeLeaf(Model(), p)
      ensures best != null ==> Has(best) && !best.isAllocated && Best(Model(), best.path)
    {
      assert PlaceOk(Root);
      var freeSubnets := FindFreeLeavesRecursive(root, [], false);
      FreeLeavesListed(root);
      assert freeSubnets == FreeLeaves(root, false);
      if |freeSubnets| == 0 {
        forall p
          ensures !FreeLeaf(Model(), p)
        {
          RootAbove(p);
        }
        return null;
      }
      ghost var k;
      best, k := SelectBest(freeSubnets);
      FirstIsBest(freeSubnets, k);
      AllocatedIffHeld(best);
    }

    /** Marks a node as the tenant's and indexes it. */
    method Claim(n: TrieNode, id: string)
      requires Linked() && Has(n) && !n.isAllocated && id !in allocMap
      modifies this`allocMap, n`isAllocated, n`id
      ensures Linked() && Model() == AllocateAt(old(Model()), id, n.path)
    {
      n.isAllocated, n.id := true, id;
      allocMap := allocMap[id := n];
      forall p
        ensures NodeOk(p)
      {
        assert old(NodeOk(p)) && PlaceOk(p);
      }
      forall i
        ensures IndexOk(i)
      {
        assert old(IndexOk(i));
      }
      assert Model().alloc == old(Model()).alloc[id := n.path];
    }

    /** Merges a tenant's block with its sibling into the parent block. */
    method Merge(id: string) returns (ok: bool)
      requires Valid()
      modifies this`allocMap, this`nodes, nodes.Values
      ensures Valid() && nodes.Values <= old(nodes.Values)
      ensures ok <==> CanMerge(old(Model()), id)
      ensures Model() == if ok then TrieModel.Merge(old(Model()), id) else old(Model())
    {
      if id !in allocMap {
        return false;
      }
      var node := allocMap[id];
      assert IndexOk(id);
      var sibling := GetSibling(node);
      if node.parent == null {
        return false;
      }
      if sibling.isAllocated || HasAllocatedDescendant(sibling) {
        assert HasAllocatedDescendant(sibling);
        return false;
      }
      OthersOutside(Model(), id);
      MergeValid(Model(), id);
      TakeParent(node, node.parent, sibling, id);
      ok := true;
    }

    /** Hands the parent block to the tenant of one of its halves. */
    method TakeParent(node: TrieNode, parent: TrieNode, sibling: TrieNode, id: string)
      requires Linked() && Has(node) && Has(parent) && Has(sibling) && !sibling.isAllocated
      requires id in allocMap && allocMap[id] == node && node.path.Child?
      requires parent.path == node.path.up && sibling.path == Sibling(node.path)
      requires forall i :: i in Model().alloc && i != id ==> !Under(Model().alloc[i], parent.path)
      modifies this`allocMap, this`nodes, parent, node`isAllocated, node`id, sibling`isAllocated, sibling`id
      ensures Linked() && nodes.Values <= old(nodes.Values)
      ensures Model() == TrieModel.Merge(old(Model()), id)
    {
      ghost var m := Model();
      assert NodeOk(sibling.path);
      Unclaim(node, id);
      assert Model().alloc == m.alloc - {id};
      AllocatedIffHeld(parent);
      Prune(parent);
      MergeIsPruneAndClaim(m, Model(), id);
      Claim(parent, id);
    }

    /** Frees a tenant's block and rebuilds the subtree below it down to /30. */
    method Deallocate(id: string) returns (ok: bool)
      requires Valid()
      modifies this`allocMap, this`nodes, nodes.Values
      ensures Valid() && fresh(nodes.Values - old(nodes.Values))
      ensures ok <==> id in old(Model()).alloc && old(Model()).alloc[id].Child?
      ensures Model() == if ok then TrieModel.Deallocate(old(Model()), id) else old(Model())
    {
      if id !in allocMap {
        return false;
      }
      var node := allocMap[id];
      assert IndexOk(id) && PlaceOk(node.path);
      if node.parent == null {
        return false;
      }
      DeallocateValid(Model(), id);
      LeafIsBare(Model(), node.path);
      Unclaim(node, id);
      Rebuild(node);
      assert Model().alloc == old(Model()).alloc - {id};
      return true;
    }

    /** Replaces the subtree below a free block by a full one down to /30. */
    method Rebuild(node: TrieNode)
      requires Linked() && Has(node) && !node.isAllocated && Bare(nodes.Keys, node.path)
      modifies this`nodes, node`child0, node`child1
      ensures Linked() && Grown(Subtree(node.path, RebuildLevels(rootCIDR, node.path)))
    {
      assert PlaceOk(node.path) && NodeOk(node.path);
      var maskSize := node.prefix.ones;
      if maskSize < 30 {
        BareHalves(nodes.Keys, node.path);
        assert Under(Child(node.path, false), Child(node.path, false));
        assert Under(Child(node.path, true), Child(node.path, true));
        node.child0, node.child1 := null, null;
        forall p
          ensures NodeOk(p)
        {
          assert old(NodeOk(p));
        }
        BuildRecursive(node, 30);
      }
    }

    /** Splits a tenant's block and leaves the tenant the lower half. */
    method Demote(n: TrieNode, id: string, lower: Cidr, upper: Cidr) returns (left: TrieNode)
      requires Linked() && id in allocMap && allocMap[id] == n && n.prefix.ones < 32 && Bare(nodes.Keys, n.path)
      requires lower == Half(n.prefix, false) && upper == Half(n.prefix, true)
      modifies this`allocMap, this`nodes, n
      ensures Linked() && Model() == TrieModel.Reduce(old(Model()), id) && left.prefix == lower
      ensures fresh(nodes.Values - old(nodes.Values))
    {
      assert IndexOk(id);
      ghost var m, p := Model(), n.path;
      BareHalves(m.nodes, p);
      Unclaim(n, id);
      left := AttachChild(n, false, lower);
      BareOther(m.nodes, p, 0);
      var right := AttachChild(n, true, upper);
      assert Has(left) && !left.isAllocated;
      ReduceIsSplitAndClaim(m, Model(), id);
      Claim(left, id);
    }

    /** Clears a tenant's node and drops it from the index. */
    method Unclaim(n: TrieNode, id: string)
      requires Linked() && id in allocMap && allocMap[id] == n
      modifies this`allocMap, n`isAllocated, n`id
      ensures Linked() && allocMap == old(allocMap) - {id} && !n.isAllocated
    {
      assert IndexOk(id);
      n.isAllocated, n.id := false, "";
      allocMap := allocMap - {id};
      forall p
        ensures NodeOk(p)
      {
        assert old(NodeOk(p)) && PlaceOk(p);
      }
      forall i
        ensures IndexOk(i)
      {
        assert old(IndexOk(i));
      }
    }

    /** Cuts off everything below a node that has no tenant in its subtree. */
    method Prune(n: TrieNode)
      requires Linked() && Has(n)
      requires forall i :: i in Model().alloc ==> !Under(Model().alloc[i], n.path)
      modifies this`nodes, n`child0, n`child1
      ensures Linked() && Pruned(old(nodes.Keys), nodes.Keys, n.path)
      ensures forall q :: q in nodes ==> nodes[q] == old(nodes[q])
    {
      ghost var m, a := Model(), n.path;
      n.child0, n.child1 := null, null;
      nodes := map q | q in nodes && (q == a || !Under(q, a)) :: nodes[q];
      UnderHalves(a, a);
      forall p
        ensures PlaceOk(p) && NodeOk(p)
      {
        assert old(PlaceOk(p)) && old(NodeOk(p));
        if p in nodes && p.Child? {
          MergeKeepsPair(a, p);
        }
      }
      forall i
        ensures IndexOk(i)
      {
        assert old(IndexOk(i)) && (i in allocMap ==> m.alloc[i] == allocMap[i].path);
      }
    }
  }

  /** Of the nodes, everything strictly below a is gone. */
  ghost predicate Pruned(before: set<Path>, after: set<Path>, a: Path) {
    forall q :: q in after <==> q in before && (q == a || !Under(q, a))
  }

  lemma ReduceIsSplitAndClaim(m: Trie, m': Trie, id: string)
    requires id in m.alloc && m'.root == m.root && m'.leafSize == m.leafSize && m'.alloc.Keys == m.alloc.Keys - {id}
    requires forall i :: i in m'.alloc ==> m'.alloc[i] == m.alloc[i]
    requires m'.nodes == m.nodes + {Child(m.alloc[id], false)} + {Child(m.alloc[id], true)}
    ensures AllocateAt(m', id, Child(m.alloc[id], false)) == TrieModel.Reduce(m, id)
  {
    assert m'.nodes == TrieModel.Reduce(m, id).nodes;
    assert AllocateAt(m', id, Child(m.alloc[id], false)).alloc == TrieModel.Reduce(m, id).alloc;
  }

  lemma LeafIsBare(m: Trie, p: Path)
    requires TrieModel.Valid(m) && p in m.nodes && IsLeaf(m, p)
    ensures Bare(m.nodes, p)
  {
    forall q | q in m.nodes && Under(q, p)
      ensures q == p
    {
      LeafBottom(m, p, q);
    }
  }

  /** Pruning below the parent and giving it to the tenant is the model's merge. */
  lemma MergeIsPruneAndClaim(m: Trie, m': Trie, id: string)
    requires id in m.alloc && m.alloc[id].Child?
    requires m'.root == m.root && m'.leafSize == m.leafSize && m'.alloc == m.alloc - {id}
    requires Pruned(m.nodes, m'.nodes, m.alloc[id].up)
    ensures AllocateAt(m', id, m.alloc[id].up) == TrieModel.Merge(m, id)
  {
    assert m'.nodes == TrieModel.Merge(m, id).nodes;
    assert AllocateAt(m', id, m.alloc[id].up).alloc == TrieModel.Merge(m, id).alloc;
  }

  lemma OthersOutside(m: Trie, id: string)
    requires TrieModel.Valid(m) && CanMerge(m, id)
    ensures forall i :: i in m.alloc && i != id ==> !Under(m.alloc[i], m.alloc[id].up)
  {
    forall i | i in m.alloc && i != id
      ensures !Under(m.alloc[i], m.alloc[id].up)
    {
      MergeKeepsOther(m, id, i);
    }
  }

  /** Leaf k has the greatest growth and no earlier leaf has as much. */
  ghost predicate FirstGreatest(m: Trie, leaves: seq<TrieNode>, k: int)
    requires 0 <= k < |leaves|
  {
    forall i :: 0 <= i < |leaves| ==>
      && Growth(m, leaves[i].path) <= Growth(m, leaves[k].path)
      && (i < k ==> Growth(m, leaves[i].path) < Growth(m, leaves[k].path))
  }

  /** A tenant below p holds p itself or sits below one of its halves, which then exists. */
  lemma HasAllocatedCases(m: Trie, p: Path)
    requires TrieModel.Valid(m)
    ensures HasAllocated(m, p) <==>
            || (exists i :: i in m.alloc && m.alloc[i] == p)
            || (Child(p, false) in m.nodes && HasAllocated(m, Child(p, false)))
            || (Child(p, true) in m.nodes && HasAllocated(m, Child(p, true)))
  {
    if HasAllocated(m, p) {
      var i :| i in m.alloc && Under(m.alloc[i], p);
      UnderHalves(m.alloc[i], p);
      if Under(m.alloc[i], Child(p, false)) {
        NodesUpClosed(m, m.alloc[i], Child(p, false));
      } else if Under(m.alloc[i], Child(p, true)) {
        NodesUpClosed(m, m.alloc[i], Child(p, true));
      }
    }
    forall i | i in m.alloc
      ensures Under(m.alloc[i], Child(p, false)) || Under(m.alloc[i], Child(p, true)) ==> Under(m.alloc[i], p)
    {
      UnderHalves(m.alloc[i], p);
    }
  }

  /** The subnet manager: one trie behind a lock. */
  class TrieManager {
    const t: IPTrie
    const leafSize: int

    ghost predicate Valid()
      reads t, t.nodes.Values, t.allocMap.Values
    {
      t.Valid() && t.leafSize == leafSize
    }

    ghost function Model(): Trie
      reads t
    {
      t.Model()
    }

    constructor (root: Cidr, leafMask: int)
      requires leafMask <= 32
      ensures Valid() && fresh(t) && fresh(t.nodes.Values) && Model() == Fresh(root, leafMask)
    {
      var trie := new IPTrie(root);
      trie.Build(leafMask);
      t := trie;
      leafSize := leafMask;
    }

    method Allocate(id: string) returns (r: Result<Cidr>)
      requires Valid()
      modifies t, t.nodes.Values
      ensures Valid() && fresh(t.nodes.Values - old(t.nodes.Values))
      ensures AllocateStep(old(Model()), id, Model(), r)
    {
      if id == "" {
        return Err("id is empty");
      }
      if id in t.allocMap {
        var existing := t.allocMap[id];
        assert t.IndexOk(id) && t.PlaceOk(existing.path);
        return Ok(existing.prefix);
      }
      var n := t.Allocate(id);
      if n.Err? {
        return Err(n.error);
      }
      assert t.PlaceOk(n.value.path);
      return Ok(n.value.prefix);
    }

    method Deallocate(id: string) returns (ok: bool)
      requires Valid()
      modifies t, t.nodes.Values
      ensures Valid() && fresh(t.nodes.Values - old(t.nodes.Values))
      ensures DeallocateStep(old(Model()), id, Model(), ok)
    {
      if id == "" {
        return false;
      }
      if id !in t.allocMap {
        return true;
      }
      ok := t.Deallocate(id);
    }

    method Expand(id: string) returns (r: Result<Cidr>)
      requires Valid()
      modifies t, t.nodes.Values
      ensures Valid() && fresh(t.nodes.Values - old(t.nodes.Values))
      ensures ExpandStep(old(Model()), id, Model(), r)
    {
      if id == "" {
        return Err("id is empty");
      }
      if id !in t.allocMap {
        return Err("tenant not found");
      }
      var n := t.allocMap[id];
      assert t.IndexOk(id) && t.PlaceOk(n.path);
      if n.parent == null {
        return Err("tenant not found");
      }
      if n.prefix == t.rootCIDR {
        return Err("tenant has the same prefix as root");
      }
      var ok := t.Merge(id);
      if !ok {
        return Err("cannot merge");
      }
      assert id in t.Model().alloc;
      var nM := t.allocMap[id];
      assert t.IndexOk(id) && t.PlaceOk(nM.path);
      return Ok(nM.prefix);
    }

    method Reduce(id: string) returns (r: Result<Cidr>)
      requires Valid()
      modifies t, t.nodes.Values
      ensures Valid() && fresh(t.nodes.Values - old(t.nodes.Values))
      ensures ReduceStep(old(Model()), id, Model(), r)
    {
      if id == "" || id !in t.allocMap {
        return Err("tenant not found");
      }
      var n := t.allocMap[id];
      assert t.IndexOk(id) && t.PlaceOk(n.path);
      if n.prefix.ones >= leafSize {
        return Err("already at leaf");
      }
      var child := Ipv4Bytes.SplitSubnet(n.prefix, n.prefix.ones + 1);
      ReduceValid(Model(), id);
      assert Model().alloc[id] == n.path;
      LeafIsBare(Model(), n.path);
      var left := t.Demote(n, id, child.value.0, child.value.1);
      return Ok(left.prefix);
    }

    /** Release is Deallocate under another name. */
    method Release(id: string) returns (ok: bool)
      requires Valid()
      modifies t, t.nodes.Values
      ensures Valid() && fresh(t.nodes.Values - old(t.nodes.Values))
      ensures DeallocateStep(old(Model()), id, Model(), ok)
    {
      if id == "" {
        return false;
      }
      if id !in t.allocMap {
        return true;
      }
      ok := t.Deallocate(id);
    }

    method Get(id: string) returns (r: Result<Cidr>)
      requires Valid()
      ensures r.Ok? <==> id in Model().alloc
      ensures r.Ok? ==> r.value == PrefixAt(Model().root, Model().alloc[id])
    {
      if id !in t.allocMap {
        return Err("tenant not found");
      }
      assert t.IndexOk(id) && t.PlaceOk(t.allocMap[id].path);
      return Ok(t.allocMap[id].prefix);
    }
  }
}
