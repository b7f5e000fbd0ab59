/** IPv4 addresses and CIDR blocks: four bytes and a prefix length, read as integer blocks. */
module Ipv4 {
  import opened Bits

  predicate IsByte(x: int) {
    0 <= x < 256
  }

  /** Four bytes, most significant first. */
  type Ip4 = s: seq<int> | |s| == 4 && IsByte(s[0]) && IsByte(s[1]) && IsByte(s[2]) && IsByte(s[3])
    witness [0, 0, 0, 0]

  /** A network and its prefix length; `ip` need not be the network address. */
  datatype CidrRaw = Cidr(ip: Ip4, ones: nat)

  type Cidr = c: CidrRaw | c.ones <= 32 witness Cidr([0, 0, 0, 0], 0)

  datatype Option<+T> = None | Some(value: T)

  datatype Result<+T> = Ok(value: T) | Err(error: string)

  /** The address as an integer. */
  function Value(ip: Ip4): (v: nat)
    ensures v < 0x1_0000_0000
  {
    ((ip[0] * 256 + ip[1]) * 256 + ip[2]) * 256 + ip[3]
  }

  /** The bytes v >> 24, v >> 16, v >> 8 and v, each truncated to eight bits. */
  function BytesOf(v: int): (ip: Ip4)
    ensures 0 <= v < 0x1_0000_0000 ==> Value(ip) == v
  {
    var v1 := v / 256;
    var v2 := v1 / 256;
    var v3 := v2 / 256;
    [v3 % 256, v2 % 256, v1 % 256, v % 256]
  }

  lemma ValueInjective(a: Ip4, b: Ip4)
    requires Value(a) == Value(b)
    ensures a == b
  {
    HornerInjective((a[0] * 256 + a[1]) * 256 + a[2], a[3], (b[0] * 256 + b[1]) * 256 + b[2], b[3]);
    HornerInjective(a[0] * 256 + a[1], a[2], b[0] * 256 + b[1], b[2]);
    HornerInjective(a[0], a[1], b[0], b[1]);
  }

  lemma HornerInjective(h: int, b: int, h': int, b': int)
    requires IsByte(b) && IsByte(b') && h * 256 + b == h' * 256 + b'
    ensures h == h' && b == b'
  {
  }

  function Size(c: Cidr): (n: nat)
    ensures n >= 1
  {
    Pow2(32 - c.ones)
  }

  /** The network address as an integer: the address with its host bits cleared. */
  function Base(c: Cidr): (b: nat)
    ensures b <= Value(c.ip)
  {
    LowBound(Value(c.ip), 32 - c.ones);
    Value(c.ip) - Low(Value(c.ip), 32 - c.ones)
  }

  /** net.IP.Mask: the address with its host bits cleared. */
  function MaskIp(ip: Ip4, ones: nat): (r: Ip4)
    requires ones <= 32
    ensures Value(r) == Base(Cidr(ip, ones))
  {
    BytesOf(Base(Cidr(ip, ones)))
  }

  /** The network is written with its own network address. */
  predicate Canonical(c: Cidr) {
    Base(c) == Value(c.ip)
  }

  predicate InBlock(c: Cidr, v: int) {
    Base(c) <= v < Base(c) + Size(c)
  }

  /** Every address of inner is an address of outer. */
  predicate Inside(inner: Cidr, outer: Cidr) {
    Base(outer) <= Base(inner) && Base(inner) + Size(inner) <= Base(outer) + Size(outer)
  }

  predicate Disjoint(a: Cidr, b: Cidr) {
    Base(a) + Size(a) <= Base(b) || Base(b) + Size(b) <= Base(a)
  }

  /** net.IPNet.Contains: the address and the network agree under the mask. */
  predicate Contains(c: Cidr, ip: Ip4) {
    MaskIp(ip, c.ones) == MaskIp(c.ip, c.ones)
  }

  /** Blocks start at a multiple of their size and lie inside the 32-bit address space. */
  lemma BlockAligned(c: Cidr)
    ensures Low(Base(c), 32 - c.ones) == 0
    ensures Base(c) + Size(c) <= 0x1_0000_0000
    ensures InBlock(c, Value(c.ip))
  {
    ClearedFits(Value(c.ip), 32 - c.ones);
    LowBound(Value(c.ip), 32 - c.ones);
  }

  lemma ClearedFits(v: nat, k: nat)
    requires v < 0x1_0000_0000 && k <= 32
    ensures Low(v - Low(v, k), k) == 0 && v - Low(v, k) + Pow2(k) <= 0x1_0000_0000
  {
    LowBound(v, k);
    Pow2Table();
    LowCleared(v, k);
    LowFits(v - Low(v, k), k, 32);
  }

  /** Mask comparison decides membership in the integer block. */
  lemma ContainsIsInBlock(c: Cidr, ip: Ip4)
    ensures Contains(c, ip) <==> InBlock(c, Value(ip))
  {
    var d := Cidr(ip, c.ones);
    BlockAligned(c);
    BlockAligned(d);
    if InBlock(c, Value(ip)) {
      LowSame(Base(c), Base(d), 32 - c.ones);
      ValueInjective(MaskIp(ip, c.ones), MaskIp(c.ip, c.ones));
    }
  }

  /** Half of a network: the lower one or, when `upper`, the upper one. */
  function Half(c: Cidr, upper: bool): (h: Cidr)
    requires c.ones < 32
  {
    Cidr(BytesOf(Base(c) + (if upper then Pow2(31 - c.ones) else 0)), c.ones + 1)
  }

  /** The halves of a network are canonical, adjacent and fill it. */
  lemma HalfBlock(c: Cidr, upper: bool)
    requires c.ones < 32
    ensures var h := Half(c, upper);
      Canonical(h) && 2 * Size(h) == Size(c) && Base(h) == Base(c) + (if upper then Size(h) else 0)
  {
    BlockAligned(c);
    LowWeaken(Base(c), 31 - c.ones, 32 - c.ones);
  }
}
