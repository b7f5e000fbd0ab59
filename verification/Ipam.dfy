/** The bitmap IPAM of one tenant, proved against the steps of `IpamModel`. */
module BitmapIpam {
  import opened Bits
  import opened Ipv4
  import Ipv4Bytes
  import opened Words
  import opened IpamModel

  /** A subnet argument: nil, an IPv4 network or an IPv6 network. */
  datatype Subnet = Nil | V4(cidr: Cidr) | V6

  /** 64-bit words for n indices. */
  function WordsFor(n: nat): nat {
    (n + 63) / 64
  }

  /** The address book without the pods at an address. */
  ghost function Without(ips: map<string, Info>, ip: Ip4): map<string, Info> {
    map k | k in ips && ips[k].ip != ip :: ips[k]
  }

  lemma ValuesAdd(m: map<string, nat>, k: string, v: nat)
    requires k !in m
    ensures m[k := v].Values == m.Values + {v}
  {
    var m' := m[k := v];
    assert forall l :: l in m ==> l in m' && m'[l] == m[l];
    assert m'[k] == v;
  }

  class BitmapIPAM {
    var network: Cidr
    var bitmap: array<nat>
    var ips: map<string, Info>

    ghost predicate Valid()
      reads this, bitmap
    {
      && bitmap.Length == WordsFor(Capacity(network))
      && (forall w :: 0 <= w < bitmap.Length ==> bitmap[w] < Pow2(WORD_BITS))
      && Inv(Model())
    }

    /** The allocator this bitmap and address book stand for. */
    ghost function Model(): Ipam
      reads this, bitmap
    {
      Ipam(network, MarkedSet(bitmap[..]), ips)
    }

    constructor (subnet: Cidr)
      ensures Valid() && fresh(bitmap) && Model() == New(subnet)
    {
      network := subnet;
      bitmap := new nat[WordsFor(Capacity(subnet))](_ => 0);
      ips := map[];
      new;
      ZeroMarksNothing(bitmap[..]);
      NewInv(subnet);
    }

    method GetCapacity() returns (n: int)
      ensures n == Capacity(network)
    {
      var total: int := Size(network);
      var usable := total - 2;
      if usable <= 1 {
        return 0;
      }
      return usable - 1;
    }

    /** Free slots: the capacity less the population count of the bitmap. */
    method GetRemaining() returns (n: int)
      requires Valid()
      ensures n == Remaining(Model())
    {
      var cap := GetCapacity();
      var used := CountOnes();
      RemainingIsRoom(Model());
      if used > cap {
        used := cap;
      }
      return cap - used;
    }

    method CountOnes() returns (used: int)
      ensures used == |MarkedSet(bitmap[..])|
    {
      used := 0;
      for w := 0 to bitmap.Length
        invariant used == TotalOnes(bitmap[..w])
      {
        used := used + OnesCount(bitmap[w], WORD_BITS);
        assert bitmap[..w + 1][..w] == bitmap[..w];
      }
      assert bitmap[..bitmap.Length] == bitmap[..];
      TotalOnesIsSize(bitmap[..]);
    }

    /** indexToIP: network address plus two plus the index. */
    method IndexToIP(idx: nat) returns (ip: Ip4)
      requires idx < Capacity(network)
      ensures Index(network, ip) == idx
    {
      IndexRoundTrip(network, idx);
      ip := Ipv4Bytes.AddIPv4(MaskIp(network.ip, network.ones), 2 + idx);
    }

    /** The lowest clear index below the capacity, or -1: a scan over words. */
    method FindFree(capacity: int) returns (pos: int)
      requires Valid() && capacity == Capacity(network)
      ensures pos < 0 <==> Full(Model())
      ensures pos >= 0 ==> LowestFree(Model(), pos)
    {
      for idx := 0 to bitmap.Length
        invariant forall i: nat :: i < 64 * idx ==> i in MarkedSet(bitmap[..])
      {
        var word := bitmap[idx];
        var free := Complement(word);
        var bit := TrailingZeros64(word, free);
        LowestClear(bitmap[..], idx, bit);
        if free == 0 || bit >= 64 {
          continue;
        }
        pos := idx * 64 + bit;
        if pos >= capacity {
          break;
        }
        return;
      }
      return -1;
    }

    /** Gives the first free address to a pod. */
    method Allocate(podKey: string, containerID: string, ifName: string, netns: string) returns (r: Result<Info>)
      requires Valid()
      modifies this`ips, bitmap
      ensures Valid() && bitmap == old(bitmap)
      ensures AllocateStep(old(Model()), podKey, ContainerNetInfo(containerID, ifName, netns, [0, 0, 0, 0]), Model(), r)
    {
      var capacity := GetCapacity();
      if capacity <= 0 {
        return Err("no available IPs");
      }
      var pos := FindFree(capacity);
      if pos < 0 {
        return Err("no available IPs");
      }
      SetBit(bitmap, pos);
      var ip := IndexToIP(pos);
      var res := ContainerNetInfo(containerID, ifName, netns, ip);
      TakeKeeps(old(Model()), podKey, res, pos);
      ips := ips[podKey := res];
      return Ok(res);
    }

    /** Releases an address. */
    method Free(ip: Ip4) returns (ok: bool)
      requires Valid()
      modifies this`ips, bitmap
      ensures Valid() && bitmap == old(bitmap)
      ensures FreeStep(old(Model()), ip, Model(), ok)
    {
      var idx := IPToIndex(network, ip);
      if idx < 0 {
        return false;
      }
      FreeKeeps(Model(), ip, Model().(used := Model().used - {idx}, pods := Without(ips, ip)), true);
      Unmark(idx);
      Forget(ip);
      return true;
    }

    /** Removes the pod that holds an address, if any: the first one a scan in any order meets. */
    method Forget(ip: Ip4)
      requires forall k, l :: k in ips && l in ips && ips[k].ip == ips[l].ip ==> k == l
      modifies this`ips
      ensures ips == Without(old(ips), ip)
    {
      var keys := ips.Keys;
      while keys != {}
        invariant ips == old(ips) && keys <= ips.Keys
        invariant forall k :: k in ips && ips[k].ip == ip ==> k in keys
        decreases |keys|
      {
        var k :| k in keys;
        if ips[k].ip == ip {
          ips := ips - {k};
          break;
        }
        keys := keys - {k};
      }
    }

    /** Moves the allocator to a larger network, keeping every recorded address. */
    method Expand(newSubnet: Cidr) returns (ok: bool)
      requires Valid()
      modifies this`network, this`bitmap
      ensures Valid() && (bitmap == old(bitmap) || fresh(bitmap))
      ensures ExpandStep(old(Model()), newSubnet, Model(), ok)
    {
      var contained := Ipv4Bytes.CidrContains(newSubnet, network);
      if !contained {
        return false;
      }
      var oldNet := network;
      network := newSubnet;
      var newBitmap;
      ok, newBitmap := Rebuild();
      if !ok {
        network := oldNet;
        return;
      }
      RebuiltIsExact(ips, newSubnet);
      bitmap := newBitmap;
    }

    /** A bitmap for the current network with the bits of all recorded pods, if they are all in range. */
    method Rebuild() returns (ok: bool, newBitmap: array<nat>)
      ensures ok <==> AllInRange(ips, network)
      ensures fresh(newBitmap) && newBitmap.Length == WordsFor(Capacity(network))
      ensures forall w :: 0 <= w < newBitmap.Length ==> newBitmap[w] < Pow2(WORD_BITS)
      ensures ok ==> MarkedSet(newBitmap[..]) == IndexMap(ips, network).Values
    {
      var capacity := GetCapacity();
      newBitmap := new nat[WordsFor(capacity)](_ => 0);
      ZeroMarksNothing(newBitmap[..]);
      ok := MarkPods(newBitmap, ips, network);
    }

    /** A pod's recorded entry: a pod address whose bit is set and that no other pod holds. */
    method GetAllocation(podName: string) returns (r: Option<Info>)
      requires Valid()
      ensures r.Some? <==> podName in Model().pods
      ensures r.Some? ==> r.value == Model().pods[podName] && InPodRange(network, r.value.ip)
      ensures r.Some? ==> Index(network, r.value.ip) in Model().used
      ensures r.Some? ==> forall k :: k in Model().pods && Model().pods[k].ip == r.value.ip ==> k == podName
    {
      if podName !in ips {
        return None;
      }
      return Some(ips[podName]);
    }

    /** Clears bit pos. */
    method Unmark(pos: nat)
      requires pos < 64 * bitmap.Length && forall w :: 0 <= w < bitmap.Length ==> bitmap[w] < Pow2(WORD_BITS)
      modifies bitmap
      ensures forall w :: 0 <= w < bitmap.Length ==> bitmap[w] < Pow2(WORD_BITS)
      ensures MarkedSet(bitmap[..]) == old(MarkedSet(bitmap[..])) - {pos}
    {
      UnmarkRemoves(bitmap[..], pos);
      bitmap[pos / 64] := AndNot(bitmap[pos / 64], Pow2(pos % 64));
      assert bitmap[..] == old(bitmap[..])[pos / 64 := bitmap[pos / 64]];
    }
  }

  /** Creates the allocator of a subnet, which must be an IPv4 network with at least four addresses. */
  method NewBitmapIPAM(subnet: Subnet) returns (r: Result<BitmapIPAM>)
    ensures r.Ok? <==> subnet.V4? && subnet.cidr.ones <= 30
    ensures r.Ok? ==> fresh(r.value) && fresh(r.value.bitmap) && r.value.Valid() && r.value.Model() == New(subnet.cidr)
  {
    match subnet
    case Nil => return Err("nil subnet");
    case V6 => return Err("only IPv4 is supported");
    case V4(cidr) =>
      var total := Size(cidr);
      SizeAtLeastFour(cidr);
      if total < 4 {
        return Err("subnet too small");
      }
      var a := new BitmapIPAM(cidr);
      return Ok(a);
  }

  lemma SizeAtLeastFour(c: Cidr)
    ensures Size(c) >= 4 <==> c.ones <= 30
  {
    Pow2Table();
    if c.ones <= 30 {
      Pow2Monotone(2, 32 - c.ones);
    } else {
      Pow2Monotone(32 - c.ones, 1);
    }
  }

  /** ipToIndex. */
  method IPToIndex(network: Cidr, ip: Ip4) returns (idx: int)
    ensures idx == Index(network, ip)
    ensures idx < Capacity(network)
  {
    IpToIndexExact(network, ip);
    idx := IpToIndex(network, ip);
    if idx >= 0 {
      AddressRoundTrip(network, ip);
    }
  }

  /** Sets the bits of all recorded pods in a zeroed bitmap, unless one is out of range. */
  method MarkPods(newBitmap: array<nat>, ips: map<string, Info>, network: Cidr) returns (ok: bool)
    requires newBitmap.Length == WordsFor(Capacity(network)) && MarkedSet(newBitmap[..]) == {}
    requires forall w :: 0 <= w < newBitmap.Length ==> newBitmap[w] < Pow2(WORD_BITS)
    modifies newBitmap
    ensures forall w :: 0 <= w < newBitmap.Length ==> newBitmap[w] < Pow2(WORD_BITS)
    ensures ok <==> AllInRange(ips, network)
    ensures ok ==> MarkedSet(newBitmap[..]) == IndexMap(ips, network).Values
  {
    var todo := ips.Keys;
    ghost var done: map<string, nat> := map[];
    while todo != {}
      invariant todo == ips.Keys - done.Keys && Indexed(ips, network, done)
      invariant forall w :: 0 <= w < newBitmap.Length ==> newBitmap[w] < Pow2(WORD_BITS)
      invariant MarkedSet(newBitmap[..]) == done.Values
      decreases |todo|
    {
      var podName :| podName in todo;
      var idx := IPToIndex(network, ips[podName].ip);
      if idx < 0 {
        return false;
      }
      SetBit(newBitmap, idx);
      IndexOneMore(ips, network, done, podName);
      todo, done := todo - {podName}, done[podName := idx];
    }
    IndexedAll(ips, network, done);
    ok := true;
  }

  /** done gives the index of some of the pods. */
  ghost predicate Indexed(ips: map<string, Info>, c: Cidr, done: map<string, nat>) {
    done.Keys <= ips.Keys && forall k :: k in done ==> done[k] == Index(c, ips[k].ip)
  }

  lemma IndexOneMore(ips: map<string, Info>, c: Cidr, done: map<string, nat>, k: string)
    requires Indexed(ips, c, done) && k in ips && k !in done && Index(c, ips[k].ip) >= 0
    ensures var done' := done[k := Index(c, ips[k].ip)];
      && Indexed(ips, c, done') && done'.Values == done.Values + {Index(c, ips[k].ip)}
      && ips.Keys - done'.Keys == ips.Keys - done.Keys - {k}
  {
    var i: nat := Index(c, ips[k].ip);
    ValuesAdd(done, k, i);
    assert done[k := i].Keys == done.Keys + {k};
  }

  lemma IndexedAll(ips: map<string, Info>, c: Cidr, done: map<string, nat>)
    requires Indexed(ips, c, done) && ips.Keys - done.Keys == {}
    ensures AllInRange(ips, c) && done == IndexMap(ips, c)
  {
    forall k | k in ips
      ensures k in done
    {
      assert k !in ips.Keys - done.Keys;
    }
  }

  /** Sets bit pos of a bitmap. */
  method SetBit(bitmap: array<nat>, pos: nat)
    requires pos < 64 * bitmap.Length && forall w :: 0 <= w < bitmap.Length ==> bitmap[w] < Pow2(WORD_BITS)
    modifies bitmap
    ensures forall w :: 0 <= w < bitmap.Length ==> bitmap[w] < Pow2(WORD_BITS)
    ensures MarkedSet(bitmap[..]) == old(MarkedSet(bitmap[..])) + {pos}
  {
    MarkAdds(bitmap[..], pos);
    bitmap[pos / 64] := Or(bitmap[pos / 64], Pow2(pos % 64));
    assert bitmap[..] == old(bitmap[..])[pos / 64 := bitmap[pos / 64]];
  }

  /** ^word on 64 bits. */
  method Complement(word: nat) returns (free: int)
    requires word < Pow2(WORD_BITS)
    ensures free == Pow2(WORD_BITS) - 1 - word
  {
    free := Pow2(WORD_BITS) - 1 - word;
  }

  /** The number of trailing ones of a word, found from its complement. */
  method TrailingZeros64(ghost word: nat, free: int) returns (bit: nat)
    requires word < Pow2(WORD_BITS) && free == Pow2(WORD_BITS) - 1 - word
    ensures bit <= 64 && (bit < 64 ==> !Bit(word, bit)) && (free == 0 ==> bit == 64)
    ensures forall j: nat :: j < bit ==> Bit(word, j)
  {
    bit := TrailingZeros(free, WORD_BITS);
    LowestClearBit(word, free, bit, WORD_BITS);
  }
}
