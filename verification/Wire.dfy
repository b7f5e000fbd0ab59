/** The codec and the header code as written: writers that append to a buffer, readers that advance. */
module Wire {
  import opened Ipv4
  import opened WireModel

  /** A growing byte buffer. */
  class Buffer {
    var data: Bytes

    constructor ()
      ensures data == []
    {
      data := [];
    }

    method Write(b: Bytes)
      modifies this
      ensures data == old(data) + b
    {
      data := data + b;
    }
  }

  /** A byte slice with a reading position. */
  class Reader {
    const data: Bytes
    var pos: nat

    ghost predicate Valid()
      reads this
    {
      pos <= |data|
    }

    function Rest(): Bytes
      requires Valid()
      reads this
    {
      data[pos..]
    }

    constructor (data: Bytes)
      ensures Valid() && Rest() == data
    {
      this.data := data;
      pos := 0;
    }

    method ReadByte() returns (b: Option<byte>)
      requires Valid()
      modifies this
      ensures Valid()
      ensures b.None? <==> old(Rest()) == []
      ensures b.Some? ==> old(Rest()) == [b.value] + Rest()
      ensures b.None? ==> Rest() == old(Rest())
    {
      if pos == |data| {
        return None;
      }
      b := Some(data[pos]);
      pos := pos + 1;
    }
  }

  /** A read agrees with its parser: same success, same value, same bytes left. */
  ghost predicate Agrees<T>(out: Option<T>, left: Bytes, p: Parsed<T>) {
    match p
    case Failed => out.None?
    case Parsed(v, rest) => out == Some(v) && left == rest
  }

  // ----- uvarint -----

  /** Fills `tmp` from the front; ten bytes are always enough. */
  method PutUvarintInto(tmp: array<byte>, v: nat) returns (n: nat)
    requires tmp.Length == MAX_VARINT_LEN && FitsAfter(v, 0)
    modifies tmp
    ensures n <= tmp.Length && tmp[..n] == PutUvarint(v)
  {
    PutUvarintLength(v, 0);
    var x := v;
    n := 0;
    while x >= 128
      invariant n < tmp.Length && FitsAfter(x, n)
      invariant tmp[..n] + PutUvarint(x) == PutUvarint(v)
      decreases x
    {
      NextGroup(x, n);
      var q, low: byte := x / 128, x % 128 + 128;
      ghost var done := tmp[..n];
      Regroup(done, [low], PutUvarint(q));
      tmp[n] := low;
      assert tmp[..n + 1] == done + [low];
      x := q;
      n := n + 1;
    }
    tmp[n] := x;
    n := n + 1;
    assert tmp[..n] == tmp[..n - 1] + [x];
  }

  method WriteUvar(buf: Buffer, v: nat)
    requires FitsAfter(v, 0)
    modifies buf
    ensures buf.data == old(buf.data) + PutUvarint(v)
  {
    var tmp := new byte[MAX_VARINT_LEN](_ => 0);
    var n := PutUvarintInto(tmp, v);
    buf.Write(tmp[..n]);
  }

  method ReadUvar(r: Reader) returns (v: Option<nat>)
    requires r.Valid()
    modifies r
    ensures r.Valid() && Agrees(v, r.Rest(), GetUvarint(old(r.Rest()), 0))
  {
    var x: nat, w: nat := 0, 1;
    ghost var all := GetUvarint(r.Rest(), 0);
    for i := 0 to MAX_VARINT_LEN
      invariant r.Valid() && x >= 0 && w >= 1
      invariant all == Shifted(x, w, GetUvarint(r.Rest(), i))
    {
      ghost var before := r.Rest();
      var b := r.ReadByte();
      if b.None? {
        return None;
      }
      assert before[1..] == r.Rest();
      if b.value < 128 {
        if i == MAX_VARINT_LEN - 1 && b.value > 1 {
          return None;
        }
        return Some(x + w * b.value);
      }
      var g: nat := b.value - 128;
      ShiftedStep(x, w, g, GetUvarint(r.Rest(), i + 1));
      x, w := x + w * g, w * 128;
    }
    return None;
  }

  /** The value of a uvarint whose low groups are x, the next group weighing w. */
  ghost function Shifted(x: nat, w: nat, p: Parsed<nat>): Parsed<nat> {
    match p
    case Failed => Failed
    case Parsed(v, rest) => Parsed(x + w * v, rest)
  }

  lemma ShiftedStep(x: nat, w: nat, g: nat, p: Parsed<nat>)
    ensures p.Parsed? ==> x + w * (g + 128 * p.value) == (x + w * g) + (w * 128) * p.value
    ensures Shifted(x + w * g, w * 128, p) ==
      if p.Failed? then Failed else Parsed(x + w * (g + 128 * p.value), p.rest)
  {
  }

  // ----- length-prefixed bytes -----

  method WriteBytes(buf: Buffer, d: Bytes)
    requires Addressable(d)
    modifies buf
    ensures buf.data == old(buf.data) + PutBytes(d)
  {
    IntFits(|d|);
    WriteUvar(buf, |d|);
    buf.Write(d);
  }

  method ReadBytes(r: Reader) returns (d: Option<Bytes>)
    requires r.Valid()
    modifies r
    ensures r.Valid() && Agrees(d, r.Rest(), GetBytes(old(r.Rest())))
  {
    var n := ReadUvar(r);
    if n.None? {
      return None;
    }
    if n.value == 0 {
      return Some([]);
    }
    if n.value > |r.data| - r.pos {
      return None;
    }
    ghost var rest := r.Rest();
    d := Some(r.data[r.pos..r.pos + n.value]);
    r.pos := r.pos + n.value;
    assert d.value == rest[..n.value] && r.Rest() == rest[n.value..];
  }

  // ----- requests and responses -----

  /** Writes the next field of an encoding `e` of which `after` comes behind that field. */
  method WriteField(buf: Buffer, d: Bytes, ghost after: Bytes, ghost e: Bytes)
    requires Addressable(d) && buf.data + (PutBytes(d) + after) == e
    modifies buf
    ensures buf.data + after == e
  {
    ghost var before := buf.data;
    WriteBytes(buf, d);
    Regroup(before, PutBytes(d), after);
  }

  lemma Regroup(a: Bytes, b: Bytes, c: Bytes)
    ensures a + (b + c) == (a + b) + c
  {
  }

  method MarshalTail(buf: Buffer, r: Request)
    requires RequestOk(r)
    modifies buf
    ensures buf.data == old(buf.data) + EncodeTail(r)
  {
    var t := ToUint64(r.timeoutSeconds);
    IntFits(t);
    WriteUvar(buf, t);
    WriteBytes(buf, r.idemKey);
    Regroup(old(buf.data), PutUvarint(t), PutBytes(r.idemKey));
  }

  method MarshalRequest(r: Request) returns (out: Bytes)
    requires RequestOk(r)
    ensures out == EncodeRequest(r)
  {
    var buf := new Buffer();
    buf.Write([1]);
    ghost var b6 := EncodeTail(r);
    ghost var b5 := PutBytes(r.ifName) + b6;
    ghost var b4 := PutBytes(r.netNs) + b5;
    ghost var b3 := PutBytes(r.containerId) + b4;
    ghost var b2 := PutBytes(r.cniVersion) + b3;
    ghost var b1 := PutBytes(r.traceId) + b2;
    ghost var e := EncodeRequest(r);
    assert buf.data + (PutBytes(r.cmd) + b1) == e;
    WriteField(buf, r.cmd, b1, e);
    WriteField(buf, r.traceId, b2, e);
    WriteField(buf, r.cniVersion, b3, e);
    WriteField(buf, r.containerId, b4, e);
    WriteField(buf, r.netNs, b5, e);
    WriteField(buf, r.ifName, b6, e);
    MarshalTail(buf, r);
    out := buf.data;
  }

  method MarshalResponse(r: Response) returns (out: Bytes)
    requires ResponseOk(r)
    ensures out == EncodeResponse(r)
  {
    var buf := new Buffer();
    buf.Write([1]);
    if r.ok {
      buf.Write([1]);
    } else {
      buf.Write([0]);
    }
    WriteBytes(buf, r.code);
    WriteBytes(buf, r.message);
    WriteBytes(buf, r.result);
    out := buf.data;
  }

  /** Decodes into a copy of `o`; bytes after the request are ignored. */
  method UnmarshalRequest(data: Bytes, o: Request) returns (out: Option<Request>)
    ensures out == match DecodeRequest(data, o) case Failed => None case Parsed(r, _) => Some(r)
  {
    var rd := new Reader(data);
    var v := rd.ReadByte();
    if v.None? || v.value != 1 {
      return None;
    }
    assert data[1..] == rd.Rest();
    var cmd := ReadBytes(rd);
    if cmd.None? { return None; }
    var traceId := ReadBytes(rd);
    if traceId.None? { return None; }
    var cniVersion := ReadBytes(rd);
    if cniVersion.None? { return None; }
    var containerId := ReadBytes(rd);
    if containerId.None? { return None; }
    var netNs := ReadBytes(rd);
    if netNs.None? { return None; }
    var ifName := ReadBytes(rd);
    if ifName.None? { return None; }
    out := UnmarshalTail(rd, o.(cmd := cmd.value, traceId := traceId.value, cniVersion := cniVersion.value,
      containerId := containerId.value, netNs := netNs.value, ifName := ifName.value));
  }

  method UnmarshalTail(rd: Reader, o: Request) returns (out: Option<Request>)
    requires rd.Valid()
    modifies rd
    ensures rd.Valid() && Agrees(out, rd.Rest(), DecodeTail(old(rd.Rest()), o))
  {
    var timeout := ReadUvar(rd);
    if timeout.None? { return None; }
    var idemKey := ReadBytes(rd);
    if idemKey.None? { return None; }
    out := Some(o.(timeoutSeconds := ToInt(timeout.value), idemKey := idemKey.value));
  }

  method UnmarshalResponse(data: Bytes) returns (out: Option<Response>)
    ensures out == match DecodeResponse(data) case Failed => None case Parsed(r, _) => Some(r)
  {
    var rd := new Reader(data);
    var v := rd.ReadByte();
    if v.None? || v.value != 1 {
      return None;
    }
    var ok := rd.ReadByte();
    if ok.None? { return None; }
    assert data[2..] == rd.Rest();
    var code := ReadBytes(rd);
    if code.None? { return None; }
    var message := ReadBytes(rd);
    if message.None? { return None; }
    var result := ReadBytes(rd);
    if result.None? { return None; }
    out := Some(Response(ok.value == 1, code.value, message.value, result.value));
  }

  // ----- headers -----

  method BigEndian(v: uint32) returns (b0: byte, b1: byte, b2: byte, b3: byte)
    ensures [b0, b1, b2, b3] == PutUint32(v)
  {
    b0, b1, b2, b3 := v / 0x100_0000, v / 0x1_0000 % 256, v / 256 % 256, v % 256;
  }

  lemma HeaderLayout(b: Bytes, h: Header)
    requires |b| == HEADER_LEN
    requires b[..4] == MAGIC && b[4] == h.version && b[5] == h.cmd && b[6] == h.flags && b[7] == 0
    requires b[8..] == PutUint32(h.length)
    ensures b == EncodeHeader(h)
  {
    assert b == b[..4] + b[4..8] + b[8..];
    assert b[4..8] == [h.version, h.cmd, h.flags, 0];
  }

  method FillHeader(b: array<byte>, h: Header)
    requires b.Length == HEADER_LEN && b[7] == 0
    modifies b
    ensures b[..4] == MAGIC && b[4] == h.version && b[5] == h.cmd && b[6] == h.flags && b[7] == 0
    ensures b[8..] == PutUint32(h.length)
  {
    b[0], b[1], b[2], b[3] := 0x53, 0x54, 0x52, 0x41;
    b[4] := h.version;
    b[5] := h.cmd;
    b[6] := h.flags;
    b[8], b[9], b[10], b[11] := BigEndian(h.length);
  }

  method WriteHeader(w: Buffer, h: Header)
    modifies w
    ensures w.data == old(w.data) + EncodeHeader(h)
  {
    var b := new byte[HEADER_LEN](_ => 0);
    FillHeader(b, h);
    HeaderLayout(b[..], h);
    w.Write(b[..]);
  }

  method ReadHeader(r: Reader) returns (out: HeaderResult)
    requires r.Valid()
    modifies r
    ensures r.Valid() && out == DecodeHeader(old(r.Rest()))
    ensures out.HeaderOk? ==> r.Rest() == out.rest
  {
    var rest := r.Rest();
    if |rest| < HEADER_LEN {
      r.pos := |r.data|;
      return HeaderErr(ShortRead);
    }
    var b := rest[..HEADER_LEN];
    r.pos := r.pos + HEADER_LEN;
    assert b[..4] == rest[..4] && b[8..12] == rest[8..12];
    if b[0] != 0x53 || b[1] != 0x54 || b[2] != 0x52 || b[3] != 0x41 {
      return HeaderErr(MagicMismatch);
    }
    assert b[..4] == MAGIC;
    var h := Header(b[4], b[5], b[6], GetUint32(b[8..12]));
    if h.length > MAX_PAYLOAD {
      return HeaderErr(PayloadTooLarge);
    }
    assert r.Rest() == rest[HEADER_LEN..];
    out := HeaderOk(h, r.Rest());
  }
}
