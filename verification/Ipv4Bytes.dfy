/** The source's byte-level address code, proved against the integer blocks of `Ipv4`. */
module Ipv4Bytes {
  import opened Bits
  import opened Ipv4

  /** LowShift and LowIgnoresHigh with the power of two named, so that it can be a literal. */
  lemma LowShiftBy(x: int, y: nat, k: nat, n: nat, u: nat, v: int)
    requires u == Pow2(n) && y < u && v == x * u + y
    ensures Low(v, k + n) == Low(x, k) * u + y
  {
    LowShift(x, y, k, n);
  }

  lemma LowOfByte(h: int, b: int, k: nat, v: int)
    requires k <= 8 && v == h * 256 + b
    ensures Low(v, k) == Low(b, k)
  {
    assert Pow2(8) == 256;
    LowIgnoresHigh(h, b, k, 8);
  }

  lemma LowAt3(ip: Ip4, z: nat)
    requires z <= 8
    ensures Low(Value(ip), z) == Low(ip[3], z)
  {
    LowOfByte((ip[0] * 256 + ip[1]) * 256 + ip[2], ip[3], z, Value(ip));
  }

  lemma LowAt2(ip: Ip4, z: nat)
    requires z <= 8
    ensures Low(Value(ip), z + 8) == Low(ip[2], z) * 256 + ip[3]
  {
    var h := (ip[0] * 256 + ip[1]) * 256 + ip[2];
    LowShiftBy(h, ip[3], z, 8, 256, Value(ip));
    LowOfByte(ip[0] * 256 + ip[1], ip[2], z, h);
  }

  lemma LowAt1(ip: Ip4, z: nat)
    requires z <= 8
    ensures Low(Value(ip), z + 16) == Low(ip[1], z) * 0x1_0000 + ip[2] * 256 + ip[3]
  {
    Pow2Table();
    var h := ip[0] * 256 + ip[1];
    LowShiftBy(h, ip[2] * 256 + ip[3], z, 16, 0x1_0000, Value(ip));
    LowOfByte(ip[0], ip[1], z, h);
  }

  lemma LowAt0(ip: Ip4, z: nat)
    requires z <= 8
    ensures Low(Value(ip), z + 24) == Low(ip[0], z) * 0x100_0000 + (ip[1] * 256 + ip[2]) * 256 + ip[3]
  {
    Pow2Table();
    LowShiftBy(ip[0], (ip[1] * 256 + ip[2]) * 256 + ip[3], z, 24, 0x100_0000, Value(ip));
  }

  /** Divides a network into two networks with half the addresses. */
  method SplitSubnet(network: Cidr, maskMaxSize: int) returns (r: Result<(Cidr, Cidr)>)
    ensures r.Ok? <==> network.ones < maskMaxSize && network.ones < 32
    ensures r.Ok? ==> r.value == (Half(network, false), Half(network, true))
  {
    var maskSize := network.ones;
    if maskSize >= maskMaxSize || maskSize >= 32 {
      return Err("already at max subnet size");
    }
    var firstIP := MaskIp(network.ip, maskSize);
    BlockAligned(network);
    var secondIP := SetBit(firstIP, maskSize);
    SplitIsHalving(network, firstIP, secondIP);
    return Ok((Cidr(firstIP, maskSize + 1), Cidr(secondIP, maskSize + 1)));
  }

  /** Sets the bit just below a prefix of length `maskSize` in an address with clear host bits. */
  method SetBit(firstIP: Ip4, maskSize: nat) returns (secondIP: Ip4)
    requires maskSize < 32 && Low(Value(firstIP), 32 - maskSize) == 0
    ensures Value(secondIP) == Value(firstIP) + Pow2(31 - maskSize)
  {
    secondIP := firstIP;
    var byteIndex := maskSize / 8;
    var bitOffset := 7 - maskSize % 8;
    SplitByteClear(firstIP, byteIndex, maskSize % 8);
    SetClearBit(firstIP[byteIndex], bitOffset);
    secondIP := secondIP[byteIndex := Or(secondIP[byteIndex], Pow2(bitOffset))];
    AddWeight(firstIP, maskSize);
  }

  lemma SplitIsHalving(network: Cidr, first: Ip4, second: Ip4)
    requires network.ones < 32
    requires Value(first) == Base(network) && Value(second) == Base(network) + Pow2(31 - network.ones)
    ensures Half(network, false) == Cidr(first, network.ones + 1)
    ensures Half(network, true) == Cidr(second, network.ones + 1)
  {
    BlockAligned(network);
    ValueInjective(first, Half(network, false).ip);
    ValueInjective(second, Half(network, true).ip);
  }

  /** The byte a prefix of length 8 q + r ends in has its remaining bits clear when the host bits are clear. */
  lemma SplitByteClear(f: Ip4, q: nat, r: nat)
    requires q < 4 && r < 8 && Low(Value(f), 32 - 8 * q - r) == 0
    ensures Low(f[q], 8 - r) == 0
  {
    if q == 0 {
      LowAt0(f, 8 - r);
    } else if q == 1 {
      LowAt1(f, 8 - r);
    } else if q == 2 {
      LowAt2(f, 8 - r);
    } else {
      LowAt3(f, 8 - r);
    }
  }

  /** Setting a clear bit above clear bits adds its weight. */
  lemma SetClearBit(b: int, o: nat)
    requires IsByte(b) && o < 8 && Low(b, o + 1) == 0
    ensures Or(b, Pow2(o)) == b + Pow2(o) && IsByte(b + Pow2(o))
  {
    assert Pow2(8) == 256;
    LowFits(b, o + 1, 8);
    OrIsSum(b, Pow2(o), o + 1);
  }

  /** Adding the weight of bit `ones` to the byte holding it adds 2^(31-ones) to the address. */
  lemma AddWeight(f: Ip4, ones: nat)
    requires ones < 32 && IsByte(f[ones / 8] + Pow2(7 - ones % 8))
    ensures Value(f[ones / 8 := f[ones / 8] + Pow2(7 - ones % 8)]) == Value(f) + Pow2(31 - ones)
  {
    var w, g := Pow2(7 - ones % 8), f[ones / 8 := f[ones / 8] + Pow2(7 - ones % 8)];
    BitWeight(ones);
    if ones < 8 {
      AddByte(f, g, w, 0, 0, 0);
    } else if ones < 16 {
      AddByte(f, g, 0, w, 0, 0);
    } else if ones < 24 {
      AddByte(f, g, 0, 0, w, 0);
    } else {
      AddByte(f, g, 0, 0, 0, w);
    }
  }

  /** The weight of an address bit, from its weight in its byte. */
  lemma BitWeight(ones: nat)
    requires ones < 32
    ensures Pow2(31 - ones) ==
      Pow2(7 - ones % 8) * if ones < 8 then 0x100_0000 else if ones < 16 then 0x1_0000 else if ones < 24 then 0x100 else 1
  {
    Pow2Table();
    Pow2Add(7 - ones % 8, 24 - 8 * (ones / 8));
  }

  lemma AddByte(f: Ip4, g: Ip4, a: nat, b: nat, c: nat, d: nat)
    requires g[0] == f[0] + a && g[1] == f[1] + b && g[2] == f[2] + c && g[3] == f[3] + d
    ensures Value(g) == Value(f) + a * 0x100_0000 + b * 0x1_0000 + c * 0x100 + d
  {
  }

  /** Byte i of net.CIDRMask(ones, 32): k leading ones is 256 - 2^(8-k). */
  function MaskByte(ones: nat, i: nat): (b: int)
    requires ones <= 32 && i < 4
  {
    if ones >= 8 * i + 8 then 255 else if ones <= 8 * i then 0 else 256 - Pow2(8 * i + 8 - ones)
  }

  /** The last address of a network: every byte OR the complement of its mask byte. */
  method LastIP(c: Cidr) returns (end: Ip4)
    ensures Value(end) == Base(c) + Size(c) - 1
  {
    ghost var want := LastBytes(c);
    end := c.ip;
    var i := 0;
    while i < 4
      invariant 0 <= i <= 4
      invariant forall j :: 0 <= j < i ==> end[j] == want[j]
      invariant forall j :: i <= j < 4 ==> end[j] == c.ip[j]
    {
      var b := OrInverse(end[i], c, i, want);
      end := end[i := b];
      i := i + 1;
    }
    assert end == want;
  }

  /** OR with an inverted mask byte. */
  method OrInverse(b: int, c: Cidr, i: nat, ghost want: Ip4) returns (r: int)
    requires i < 4 && b == c.ip[i] && forall j :: 0 <= j < 4 ==> want[j] == Or(c.ip[j], 255 - MaskByte(c.ones, j))
    ensures r == want[i]
  {
    r := Or(b, 255 - MaskByte(c.ones, i));
  }

  /** The ORs with the inverted mask bytes make the last address. */
  lemma LastBytes(c: Cidr) returns (want: Ip4)
    ensures forall j :: 0 <= j < 4 ==> want[j] == Or(c.ip[j], 255 - MaskByte(c.ones, j))
    ensures Value(want) == Base(c) + Size(c) - 1
  {
    // The mask ends in byte q and leaves z of its bits free.
    var q := if c.ones == 32 then 3 else c.ones / 8;
    var z := 8 * q + 8 - c.ones;
    want := FilledBytes(c.ip, q, z);
    FilledIsLast(c, want, q, z);
    forall j | 0 <= j < 4
      ensures want[j] == Or(c.ip[j], 255 - MaskByte(c.ones, j))
    {
      FillByte(c.ip[j], j, q, z);
    }
  }

  lemma FilledBytes(ip: Ip4, q: nat, z: nat) returns (want: Ip4)
    requires q < 4 && z <= 8
    ensures forall j :: 0 <= j < 4 ==> want[j] == Filled(ip[j], j, q, z)
  {
    forall j | 0 <= j < 4
      ensures IsByte(Filled(ip[j], j, q, z))
    {
      FillByte(ip[j], j, q, z);
    }
    want := [Filled(ip[0], 0, q, z), Filled(ip[1], 1, q, z), Filled(ip[2], 2, q, z), Filled(ip[3], 3, q, z)];
  }

  lemma FilledIsLast(c: Cidr, end: Ip4, q: nat, z: nat)
    requires q < 4 && z <= 8 && z + 8 * (3 - q) == 32 - c.ones
    requires forall j :: 0 <= j < 4 ==> end[j] == Filled(c.ip[j], j, q, z)
    ensures Value(end) == Base(c) + Size(c) - 1
  {
    FilledSum(c.ip, end, q, z);
  }

  /** Byte j of an address whose last z bits of byte q, and all later bits, are set. */
  ghost function Filled(b: int, j: nat, q: nat, z: nat): int {
    if j < q then b else if j > q then 255 else b - Low(b, z) + Pow2(z) - 1
  }

  lemma FillByte(b: int, i: nat, q: nat, z: nat)
    requires IsByte(b) && i < 4 && q < 4 && z <= 8
    ensures Or(b, 255 - MaskByte(8 * q + 8 - z, i)) == Filled(b, i, q, z)
    ensures IsByte(Filled(b, i, q, z))
  {
    if i < q {
      OrZero(b);
    } else if i > q {
      assert Pow2(8) == 256;
      OrTrailingOnes(b, 8);
      LowFull(b, 8);
    } else {
      assert Pow2(0) == 1 && Pow2(8) == 256;
      FillLowBits(b, z);
    }
  }

  lemma FillLowBits(b: int, z: nat)
    requires IsByte(b) && z <= 8
    ensures Or(b, Pow2(z) - 1) == b - Low(b, z) + Pow2(z) - 1 && IsByte(b - Low(b, z) + Pow2(z) - 1)
  {
    assert Pow2(8) == 256;
    OrTrailingOnes(b, z);
    LowBound(b, z);
    LowCleared(b, z);
    LowFits(b - Low(b, z), z, 8);
  }

  /** Setting the host bits byte by byte sets the host bits of the address. */
  lemma FilledSum(ip: Ip4, e: Ip4, q: nat, z: nat)
    requires q < 4 && z <= 8
    requires forall j :: 0 <= j < 4 ==> e[j] == Filled(ip[j], j, q, z)
    ensures Value(e) == Value(ip) - Low(Value(ip), z + 8 * (3 - q)) + Pow2(z + 8 * (3 - q)) - 1
  {
    if q == 0 {
      FilledAt0(ip, e, z);
    } else if q == 1 {
      FilledAt1(ip, e, z);
    } else if q == 2 {
      FilledAt2(ip, e, z);
    } else {
      FilledAt3(ip, e, z);
    }
  }

  lemma FilledAt3(ip: Ip4, e: Ip4, z: nat)
    requires z <= 8 && e[0] == ip[0] && e[1] == ip[1] && e[2] == ip[2] && e[3] == ip[3] - Low(ip[3], z) + Pow2(z) - 1
    ensures Value(e) == Value(ip) - Low(Value(ip), z) + Pow2(z) - 1
  {
    LowAt3(ip, z);
  }

  lemma FilledAt2(ip: Ip4, e: Ip4, z: nat)
    requires z <= 8 && e[0] == ip[0] && e[1] == ip[1] && e[2] == ip[2] - Low(ip[2], z) + Pow2(z) - 1 && e[3] == 255
    ensures Value(e) == Value(ip) - Low(Value(ip), z + 8) + Pow2(z + 8) - 1
  {
    Pow2Table();
    Pow2Add(z, 8);
    LowAt2(ip, z);
  }

  lemma FilledAt1(ip: Ip4, e: Ip4, z: nat)
    requires z <= 8 && e[0] == ip[0] && e[1] == ip[1] - Low(ip[1], z) + Pow2(z) - 1 && e[2] == 255 && e[3] == 255
    ensures Value(e) == Value(ip) - Low(Value(ip), z + 16) + Pow2(z + 16) - 1
  {
    Pow2Table();
    Pow2Add(z, 16);
    LowAt1(ip, z);
  }

  lemma FilledAt0(ip: Ip4, e: Ip4, z: nat)
    requires z <= 8 && e[0] == ip[0] - Low(ip[0], z) + Pow2(z) - 1 && e[1] == 255 && e[2] == 255 && e[3] == 255
    ensures Value(e) == Value(ip) - Low(Value(ip), z + 24) + Pow2(z + 24) - 1
  {
    Pow2Table();
    Pow2Add(z, 24);
    LowAt0(ip, z);
  }

  /** The source's containment test: both ends of inner, as written, are in outer. */
  method CidrContains(outer: Cidr, inner: Cidr) returns (ok: bool)
    ensures ok <==> InBlock(outer, Value(inner.ip)) && InBlock(outer, Base(inner) + Size(inner) - 1)
  {
    var last := LastIP(inner);
    ContainsIsInBlock(outer, inner.ip);
    ContainsIsInBlock(outer, last);
    ok := Contains(outer, inner.ip) && Contains(outer, last);
  }

  /** The first host of a network: its address plus one. */
  method FirstIP(c: Cidr) returns (r: Result<Ip4>)
    ensures r.Ok? <==> c.ones < 32
    ensures r.Ok? ==> Value(r.value) == Base(c) + 1
  {
    var first := Increment(MaskIp(c.ip, c.ones));
    FirstInBlock(c);
    ContainsIsInBlock(c, first);
    if !Contains(c, first) {
      return Err("first IP is not in the network");
    }
    return Ok(first);
  }

  /** Adds one to the last byte, with a carry into the more significant ones. */
  method Increment(start: Ip4) returns (first: Ip4)
    ensures Value(first) == (Value(start) + 1) % 0x1_0000_0000
  {
    first := start;
    var i := 3;
    while i >= 0
      invariant -1 <= i <= 3
      invariant forall j :: 0 <= j <= i ==> first[j] == start[j]
      invariant forall j :: i < j < 4 ==> first[j] == 0 && start[j] == 255
    {
      first := first[i := (first[i] + 1) % 256];
      if first[i] != 0 {
        break;
      }
      i := i - 1;
    }
    CarryValue(start, first, i);
  }

  lemma CarryValue(start: Ip4, first: Ip4, i: int)
    requires -1 <= i < 4
    requires forall j :: 0 <= j < i ==> first[j] == start[j]
    requires forall j :: i < j < 4 ==> first[j] == 0 && start[j] == 255
    requires i >= 0 ==> first[i] == start[i] + 1
    ensures Value(first) == (Value(start) + 1) % 0x1_0000_0000
  {
    if i == 3 {
    } else if i == 2 {
      assert first[3] == 0;
    } else if i == 1 {
      assert first[3] == 0 && first[2] == 0;
    } else {
      assert first[3] == 0 && first[2] == 0 && first[1] == 0;
    }
  }

  lemma FirstInBlock(c: Cidr)
    ensures InBlock(c, (Base(c) + 1) % 0x1_0000_0000) <==> c.ones < 32
    ensures c.ones < 32 ==> Base(c) + 1 < 0x1_0000_0000
  {
    BlockAligned(c);
    if c.ones == 32 {
      assert Size(c) == 1;
    } else {
      Pow2Monotone(1, 32 - c.ones);
      assert Pow2(1) == 2;
    }
  }

  /** a<<24 | b<<16 | c<<8 | d on signed integers. */
  function ShiftOr(a: int, b: int, c: int, d: int): int {
    Or(Or(Or(a * 0x100_0000, b * 0x1_0000), c * 0x100), d)
  }

  /** On bytes the shifted OR is the positional value. */
  lemma ShiftOrBytes(a: int, b: int, c: int, d: int)
    requires IsByte(a) && IsByte(b) && IsByte(c) && IsByte(d)
    ensures ShiftOr(a, b, c, d) == ((a * 256 + b) * 256 + c) * 256 + d
  {
    Pow2Table();
    OrBytes(a, b, 24, 0x1_0000);
    OrBytes(a * 256 + b, c, 16, 0x100);
    OrBytes((a * 256 + b) * 256 + c, d, 8, 1);
  }

  /** OR of a number and a byte below it, the byte weighing w. */
  lemma OrBytes(h: int, b: int, k: nat, w: nat)
    requires IsByte(b) && 256 * w == Pow2(k)
    ensures Or(h * (256 * w), b * w) == (h * 256 + b) * w
  {
    ByteWeight(h, b, w);
    OrShifted(h, b * w, k, 256 * w);
  }

  lemma ByteWeight(h: int, b: int, w: nat)
    requires IsByte(b) && w > 0
    ensures 0 <= b * w < 256 * w
    ensures h * (256 * w) + b * w == (h * 256 + b) * w
  {
  }

  lemma OrShifted(h: int, lo: nat, k: nat, p: nat)
    requires p == Pow2(k) && lo < p
    ensures Or(h * p, lo) == h * p + lo
  {
    LowShift(h, 0, 0, k);
    OrIsSum(h * p, lo, k);
  }

  /** One negative operand makes the shifted OR negative. */
  lemma ShiftOrNegative(a: int, b: int, c: int, d: int)
    ensures ShiftOr(a, b, c, d) < 0 <==> a < 0 || b < 0 || c < 0 || d < 0
  {
    OrSign(a * 0x100_0000, b * 0x1_0000);
    OrSign(Or(a * 0x100_0000, b * 0x1_0000), c * 0x100);
    OrSign(Or(Or(a * 0x100_0000, b * 0x1_0000), c * 0x100), d);
  }

  /** Keeping the low byte of each shift keeps the value modulo 2^32. */
  lemma BytesWrap(v: int)
    ensures Value(BytesOf(v)) == v % 0x1_0000_0000
  {
    var v1 := v / 256;
    var v2 := v1 / 256;
    var v3 := v2 / 256;
    var q := v3 / 256;
    var b := BytesOf(v);
    assert v == 256 * v1 + b[3] && v1 == 256 * v2 + b[2] && v2 == 256 * v3 + b[1] && v3 == 256 * q + b[0];
    assert v == 0x1_0000_0000 * q + Value(b);
  }

  /** base + delta, truncated to 32 bits. */
  method AddIPv4(base: Ip4, delta: int) returns (r: Ip4)
    ensures Value(r) == (Value(base) + delta) % 0x1_0000_0000
    ensures r == BytesOf(Value(base) + delta)
  {
    BytesWrap(Value(base) + delta);
    ShiftOrBytes(base[0], base[1], base[2], base[3]);
    var v := ShiftOr(base[0], base[1], base[2], base[3]) + delta;
    var v1 := v / 256;
    var v2 := v1 / 256;
    var v3 := v2 / 256;
    r := base;
    r := r[0 := v3 % 256];
    r := r[1 := v2 % 256];
    r := r[2 := v1 % 256];
    r := r[3 := v % 256];
  }
}
