/** The binary wire format: what the bytes are, what the parsers read, and that reading undoes writing. */
module WireModel {
  import opened Bits

  type byte = x: int | 0 <= x < 256

  type Bytes = seq<byte>

  /** A parser's result: the value read and the bytes after it, or an error. */
  datatype Parsed<T> = Parsed(value: T, rest: Bytes) | Failed {
    predicate IsFailure() {
      Failed?
    }

    function PropagateFailure<U>(): Parsed<U>
      requires IsFailure()
    {
      Failed
    }

    function Extract(): (T, Bytes)
      requires !IsFailure()
    {
      (value, rest)
    }
  }

  // ----- uvarint: seven bits to a byte, low bits first, at most ten bytes -----

  const MAX_VARINT_LEN := 10

  function PutUvarint(v: nat): Bytes {
    if v < 128 then [v] else [v % 128 + 128] + PutUvarint(v / 128)
  }

  /** Reads a uvarint of which i bytes have been read. The tenth byte may only be 0 or 1. */
  function GetUvarint(b: Bytes, i: nat): Parsed<nat>
    decreases |b|
  {
    if b == [] || i >= MAX_VARINT_LEN then Failed
    else if b[0] < 128 then
      if i == MAX_VARINT_LEN - 1 && b[0] > 1 then Failed else Parsed(b[0], b[1..])
    else
      var (v, rest) :- GetUvarint(b[1..], i + 1);
      Parsed(b[0] - 128 + 128 * v, rest)
  }

  /** The values that fit 64 bits after i groups of seven. */
  predicate FitsAfter(v: nat, i: nat) {
    i < MAX_VARINT_LEN && v < Pow2(64 - 7 * i)
  }

  lemma NextGroup(v: nat, i: nat)
    requires FitsAfter(v, i)
    ensures v >= 128 ==> FitsAfter(v / 128, i + 1)
    ensures i == MAX_VARINT_LEN - 1 ==> v < 2
  {
    Pow2Small();
    if i < MAX_VARINT_LEN - 1 {
      Pow2Add(7, 64 - 7 * (i + 1));
      DivSmaller(v, Pow2(64 - 7 * (i + 1)));
    }
  }

  lemma Pow2Small()
    ensures Pow2(1) == 2 && Pow2(7) == 128
  {
  }

  lemma DivSmaller(v: nat, p: nat)
    requires v < 128 * p
    ensures v / 128 < p
  {
  }

  /** A 64-bit value takes at most ten bytes. */
  lemma {:induction false} PutUvarintLength(v: nat, i: nat)
    requires FitsAfter(v, i)
    ensures 1 <= |PutUvarint(v)| <= MAX_VARINT_LEN - i
    decreases v
  {
    NextGroup(v, i);
    if v >= 128 {
      PutUvarintLength(v / 128, i + 1);
    }
  }

  lemma {:induction false} UvarintRoundTrip(v: nat, i: nat, rest: Bytes)
    requires FitsAfter(v, i)
    ensures GetUvarint(PutUvarint(v) + rest, i) == Parsed(v, rest)
    decreases v
  {
    NextGroup(v, i);
    var b := PutUvarint(v) + rest;
    if v < 128 {
      assert b[1..] == rest;
    } else {
      UvarintRoundTrip(v / 128, i + 1, rest);
      assert b[1..] == PutUvarint(v / 128) + rest;
    }
  }

  /** More bytes after a uvarint change nothing. */
  lemma {:induction false} UvarintExtends(b: Bytes, i: nat, more: Bytes)
    requires GetUvarint(b, i).Parsed?
    ensures GetUvarint(b + more, i) == Parsed(GetUvarint(b, i).value, GetUvarint(b, i).rest + more)
    decreases |b|
  {
    assert (b + more)[1..] == b[1..] + more;
    if b[0] >= 128 {
      UvarintExtends(b[1..], i + 1, more);
    }
  }

  /** Whatever is read fits 64 bits. */
  lemma {:induction false} UvarintFits(b: Bytes, i: nat)
    requires GetUvarint(b, i).Parsed?
    ensures FitsAfter(GetUvarint(b, i).value, i)
    decreases |b|
  {
    Pow2Small();
    if b[0] >= 128 {
      UvarintFits(b[1..], i + 1);
      Pow2Add(7, 64 - 7 * (i + 1));
    } else if i < MAX_VARINT_LEN - 1 {
      Pow2Monotone(7, 64 - 7 * i);
    }
  }

  // ----- length-prefixed bytes -----

  /** 2^63: the first value past a 64-bit `int`. */
  const INT_LIMIT: int := 0x8000_0000_0000_0000

  lemma IntFits(v: nat)
    requires v < 2 * INT_LIMIT
    ensures FitsAfter(v, 0)
  {
    Pow2Table();
    Pow2Add(32, 32);
  }

  /** The length of any byte string in memory is an `int`. */
  predicate Addressable(d: Bytes) {
    |d| < INT_LIMIT
  }

  function PutBytes(d: Bytes): Bytes {
    PutUvarint(|d|) + d
  }

  function GetBytes(b: Bytes): Parsed<Bytes> {
    var (n, rest) :- GetUvarint(b, 0);
    if n == 0 then Parsed([], rest)
    else if n > |rest| then Failed
    else Parsed(rest[..n], rest[n..])
  }

  lemma BytesRoundTrip(d: Bytes, rest: Bytes)
    requires Addressable(d)
    ensures GetBytes(PutBytes(d) + rest) == Parsed(d, rest)
  {
    IntFits(|d|);
    UvarintRoundTrip(|d|, 0, d + rest);
    assert PutBytes(d) + rest == PutUvarint(|d|) + (d + rest);
    assert (d + rest)[..|d|] == d && (d + rest)[|d|..] == rest;
  }

  lemma BytesExtends(b: Bytes, more: Bytes)
    requires GetBytes(b).Parsed?
    ensures GetBytes(b + more) == Parsed(GetBytes(b).value, GetBytes(b).rest + more)
  {
    UvarintExtends(b, 0, more);
    var n, rest := GetUvarint(b, 0).value, GetUvarint(b, 0).rest;
    assert (rest + more)[..n] == rest[..n] && (rest + more)[n..] == rest[n..] + more;
  }

  // ----- requests -----

  datatype Request = Request(
    cmd: Bytes,
    traceId: Bytes,
    cniVersion: Bytes,
    containerId: Bytes,
    netNs: Bytes,
    ifName: Bytes,
    podName: Bytes,
    podNamespace: Bytes,
    podUid: Bytes,
    timeoutSeconds: int,
    idemKey: Bytes)

  /** A 64-bit `int`. */
  predicate IsInt64(t: int) {
    -INT_LIMIT <= t < INT_LIMIT
  }

  /** Every field is a value of its Go type. */
  predicate RequestOk(r: Request) {
    && Addressable(r.cmd) && Addressable(r.traceId) && Addressable(r.cniVersion) && Addressable(r.containerId)
    && Addressable(r.netNs) && Addressable(r.ifName) && Addressable(r.idemKey)
    && IsInt64(r.timeoutSeconds)
  }

  /** Conversion of an `int` to `uint64`, and back. */
  function ToUint64(t: int): nat
    requires IsInt64(t)
  {
    if t < 0 then t + 2 * INT_LIMIT else t
  }

  function ToInt(v: nat): int {
    if v >= INT_LIMIT then v - 2 * INT_LIMIT else v
  }

  function EncodeRequest(r: Request): Bytes
    requires RequestOk(r)
  {
    [1] + (PutBytes(r.cmd) + (PutBytes(r.traceId) + (PutBytes(r.cniVersion) + (PutBytes(r.containerId) +
      (PutBytes(r.netNs) + (PutBytes(r.ifName) + EncodeTail(r)))))))
  }

  function EncodeTail(r: Request): Bytes
    requires RequestOk(r)
  {
    PutUvarint(ToUint64(r.timeoutSeconds)) + PutBytes(r.idemKey)
  }

  /** Fills the carried fields of `o`. */
  function DecodeRequest(b: Bytes, o: Request): Parsed<Request> {
    if b == [] || b[0] != 1 then Failed
    else
      var (cmd, b1) :- GetBytes(b[1..]);
      var (traceId, b2) :- GetBytes(b1);
      var (cniVersion, b3) :- GetBytes(b2);
      var (containerId, b4) :- GetBytes(b3);
      var (netNs, b5) :- GetBytes(b4);
      var (ifName, b6) :- GetBytes(b5);
      DecodeTail(b6, o.(cmd := cmd, traceId := traceId, cniVersion := cniVersion, containerId := containerId,
        netNs := netNs, ifName := ifName))
  }

  function DecodeTail(b: Bytes, o: Request): Parsed<Request> {
    var (timeout, b1) :- GetUvarint(b, 0);
    var (idemKey, b2) :- GetBytes(b1);
    Parsed(o.(timeoutSeconds := ToInt(timeout), idemKey := idemKey), b2)
  }

  /** What a decoded request looks like: the fields on the wire, and the destination's own pod fields. */
  function Carried(r: Request, o: Request): Request {
    r.(podName := o.podName, podNamespace := o.podNamespace, podUid := o.podUid)
  }

  lemma TailRoundTrip(r: Request, o: Request, rest: Bytes)
    requires RequestOk(r)
    ensures DecodeTail(EncodeTail(r) + rest, o) ==
      Parsed(o.(timeoutSeconds := r.timeoutSeconds, idemKey := r.idemKey), rest)
  {
    var t := ToUint64(r.timeoutSeconds);
    IntFits(t);
    var after := PutBytes(r.idemKey) + rest;
    assert EncodeTail(r) + rest == PutUvarint(t) + after;
    UvarintRoundTrip(t, 0, after);
    BytesRoundTrip(r.idemKey, rest);
  }

  /** Decoding an encoded request returns every carried field and consumes exactly the encoded bytes. */
  lemma RequestRoundTrip(r: Request, o: Request, rest: Bytes)
    requires RequestOk(r)
    ensures DecodeRequest(EncodeRequest(r) + rest, o) == Parsed(Carried(r, o), rest)
  {
    var b6 := EncodeTail(r) + rest;
    var b5 := PutBytes(r.ifName) + b6;
    var b4 := PutBytes(r.netNs) + b5;
    var b3 := PutBytes(r.containerId) + b4;
    var b2 := PutBytes(r.cniVersion) + b3;
    var b1 := PutBytes(r.traceId) + b2;
    var b0 := PutBytes(r.cmd) + b1;
    assert (EncodeRequest(r) + rest)[1..] == b0;
    BytesRoundTrip(r.cmd, b1);
    BytesRoundTrip(r.traceId, b2);
    BytesRoundTrip(r.cniVersion, b3);
    BytesRoundTrip(r.containerId, b4);
    BytesRoundTrip(r.netNs, b5);
    BytesRoundTrip(r.ifName, b6);
    TailRoundTrip(r, o.(cmd := r.cmd, traceId := r.traceId, cniVersion := r.cniVersion,
      containerId := r.containerId, netNs := r.netNs, ifName := r.ifName), rest);
  }

  lemma TailExtends(b: Bytes, o: Request, more: Bytes)
    requires DecodeTail(b, o).Parsed?
    ensures DecodeTail(b + more, o) == Parsed(DecodeTail(b, o).value, DecodeTail(b, o).rest + more)
  {
    UvarintExtends(b, 0, more);
    BytesExtends(GetUvarint(b, 0).rest, more);
  }

  lemma RequestExtends(b: Bytes, o: Request, more: Bytes)
    requires DecodeRequest(b, o).Parsed?
    ensures DecodeRequest(b + more, o) == Parsed(DecodeRequest(b, o).value, DecodeRequest(b, o).rest + more)
  {
    assert (b + more)[1..] == b[1..] + more;
    var b1 := Next(b[1..], more);
    var b2 := Next(b1, more);
    var b3 := Next(b2, more);
    var b4 := Next(b3, more);
    var b5 := Next(b4, more);
    var b6 := Next(b5, more);
    TailExtends(b6, o.(cmd := GetBytes(b[1..]).value, traceId := GetBytes(b1).value,
      cniVersion := GetBytes(b2).value, containerId := GetBytes(b3).value, netNs := GetBytes(b4).value,
      ifName := GetBytes(b5).value), more);
  }

  lemma Next(b: Bytes, more: Bytes) returns (b': Bytes)
    requires GetBytes(b).Parsed?
    ensures b' == GetBytes(b).rest
    ensures GetBytes(b + more) == Parsed(GetBytes(b).value, b' + more)
  {
    BytesExtends(b, more);
    b' := GetBytes(b).rest;
  }

  /** A request cut short anywhere does not decode. */
  lemma RequestTruncated(r: Request, o: Request, n: nat)
    requires RequestOk(r) && n < |EncodeRequest(r)|
    ensures DecodeRequest(EncodeRequest(r)[..n], o) == Failed
  {
    var e := EncodeRequest(r);
    assert e[..n] + e[n..] == e && e + [] == e;
    RequestRoundTrip(r, o, []);
    if DecodeRequest(e[..n], o).Parsed? {
      RequestExtends(e[..n], o, e[n..]);
    }
  }

  // ----- responses -----

  datatype Response = Response(ok: bool, code: Bytes, message: Bytes, result: Bytes)

  predicate ResponseOk(r: Response) {
    Addressable(r.code) && Addressable(r.message) && Addressable(r.result)
  }

  function EncodeResponse(r: Response): Bytes {
    [1, if r.ok then 1 else 0] + (PutBytes(r.code) + (PutBytes(r.message) + PutBytes(r.result)))
  }

  function DecodeResponse(b: Bytes): Parsed<Response> {
    if |b| < 2 || b[0] != 1 then Failed
    else
      var (code, b1) :- GetBytes(b[2..]);
      var (message, b2) :- GetBytes(b1);
      var (result, b3) :- GetBytes(b2);
      Parsed(Response(b[1] == 1, code, message, result), b3)
  }

  lemma ResponseRoundTrip(r: Response, rest: Bytes)
    requires ResponseOk(r)
    ensures DecodeResponse(EncodeResponse(r) + rest) == Parsed(r, rest)
  {
    var b2 := PutBytes(r.result) + rest;
    var b1 := PutBytes(r.message) + b2;
    assert (EncodeResponse(r) + rest)[2..] == PutBytes(r.code) + b1;
    BytesRoundTrip(r.code, b1);
    BytesRoundTrip(r.message, b2);
    BytesRoundTrip(r.result, rest);
  }

  lemma ResponseExtends(b: Bytes, more: Bytes)
    requires DecodeResponse(b).Parsed?
    ensures DecodeResponse(b + more) == Parsed(DecodeResponse(b).value, DecodeResponse(b).rest + more)
  {
    assert (b + more)[2..] == b[2..] + more;
    var b1 := Next(b[2..], more);
    var b2 := Next(b1, more);
    var b3 := Next(b2, more);
  }

  /** A response cut short anywhere does not decode. */
  lemma ResponseTruncated(r: Response, n: nat)
    requires ResponseOk(r) && n < |EncodeResponse(r)|
    ensures DecodeResponse(EncodeResponse(r)[..n]) == Failed
  {
    var e := EncodeResponse(r);
    assert e[..n] + e[n..] == e && e + [] == e;
    ResponseRoundTrip(r, []);
    if DecodeResponse(e[..n]).Parsed? {
      ResponseExtends(e[..n], e[n..]);
    }
  }

  // ----- frames -----

  const HEADER_LEN := 12
  const MAX_PAYLOAD := 10 * 1024 * 1024
  const MAGIC: Bytes := [0x53, 0x54, 0x52, 0x41]
  const FLAG_JSON: byte := 1
  const FLAG_BIN: byte := 8

  type uint32 = x: int | 0 <= x < 0x1_0000_0000

  datatype Header = Header(version: byte, cmd: byte, flags: byte, length: uint32)

  function PutUint32(v: uint32): Bytes {
    [v / 0x100_0000, v / 0x1_0000 % 256, v / 256 % 256, v % 256]
  }

  function GetUint32(b: Bytes): uint32
    requires |b| == 4
  {
    (b[0] as int) * 0x100_0000 + (b[1] as int) * 0x1_0000 + (b[2] as int) * 256 + b[3]
  }

  lemma Uint32RoundTrip(v: uint32)
    ensures GetUint32(PutUint32(v)) == v
  {
    assert v / 0x100_0000 == v / 0x1_0000 / 256;
    assert v / 0x1_0000 == v / 256 / 256;
  }

  function EncodeHeader(h: Header): Bytes {
    MAGIC + [h.version, h.cmd, h.flags, 0] + PutUint32(h.length)
  }

  datatype HeaderError = ShortRead | MagicMismatch | PayloadTooLarge

  datatype HeaderResult = HeaderOk(header: Header, rest: Bytes) | HeaderErr(error: HeaderError)

  function DecodeHeader(b: Bytes): HeaderResult {
    if |b| < HEADER_LEN then HeaderErr(ShortRead)
    else if b[..4] != MAGIC then HeaderErr(MagicMismatch)
    else
      var h := Header(b[4], b[5], b[6], GetUint32(b[8..12]));
      if h.length > MAX_PAYLOAD then HeaderErr(PayloadTooLarge) else HeaderOk(h, b[HEADER_LEN..])
  }

  /** A written header reads back, unless its length is refused. */
  lemma HeaderRoundTrip(h: Header, rest: Bytes)
    ensures DecodeHeader(EncodeHeader(h) + rest) ==
      if h.length <= MAX_PAYLOAD then HeaderOk(h, rest) else HeaderErr(PayloadTooLarge)
  {
    var b := EncodeHeader(h) + rest;
    assert b[..4] == MAGIC;
    assert b[8..12] == PutUint32(h.length);
    assert b[HEADER_LEN..] == rest;
    Uint32RoundTrip(h.length);
  }

  lemma Uint32Inverse(b: Bytes)
    requires |b| == 4
    ensures PutUint32(GetUint32(b)) == b
  {
    var x := (b[0] as int) * 0x100 + b[1];
    var y := x * 0x100 + b[2];
    var v: int := GetUint32(b);
    assert v == y * 0x100 + b[3];
    assert v / 0x100 == y && v % 0x100 == b[3];
    assert v / 0x1_0000 == y / 0x100 == x && v / 0x100_0000 == x / 0x100 == b[0];
  }

  /** What is refused and why, and what is accepted: twelve bytes starting with the magic whose length is within the
      limit. An accepted header written again gives the same bytes, but for the reserved one. */
  lemma HeaderExact(b: Bytes)
    ensures DecodeHeader(b) == HeaderErr(ShortRead) <==> |b| < 12
    ensures DecodeHeader(b) == HeaderErr(MagicMismatch) <==>
      |b| >= 12 && !(b[0] == 0x53 && b[1] == 0x54 && b[2] == 0x52 && b[3] == 0x41)
    ensures DecodeHeader(b).HeaderOk? ==>
      var e := EncodeHeader(DecodeHeader(b).header);
      |e| == 12 && DecodeHeader(b).rest == b[12..] && forall i :: 0 <= i < 12 && i != 7 ==> e[i] == b[i]
  {
    if |b| >= 12 {
      assert b[..4] == [b[0], b[1], b[2], b[3]];
      Uint32Inverse(b[8..12]);
      if DecodeHeader(b).HeaderOk? {
        HeaderBytes(b, DecodeHeader(b).header);
      }
    }
  }

  lemma HeaderBytes(b: Bytes, h: Header)
    requires |b| >= 12 && b[..4] == MAGIC && h.version == b[4] && h.cmd == b[5] && h.flags == b[6]
    requires PutUint32(h.length) == b[8..12]
    ensures |EncodeHeader(h)| == 12 && forall i :: 0 <= i < 12 && i != 7 ==> EncodeHeader(h)[i] == b[i]
  {
    var e := EncodeHeader(h);
    assert e[..4] == b[..4] && e[8..] == b[8..12];
    forall i | 0 <= i < 12 && i != 7
      ensures e[i] == b[i]
    {
      assert i < 4 ==> e[i] == e[..4][i] && b[i] == b[..4][i];
      assert i >= 8 ==> e[i] == e[8..][i - 8] && b[i] == b[8..12][i - 8];
    }
  }

  /** A truncated header is refused. */
  lemma HeaderTruncated(h: Header, n: nat)
    requires n < |EncodeHeader(h)|
    ensures DecodeHeader(EncodeHeader(h)[..n]) == HeaderErr(ShortRead)
  {
    assert |EncodeHeader(h)| == HEADER_LEN;
  }

  /** What the client puts on the socket: the length field is the low 32 bits of the body's length. */
  function Frame(cmd: byte, flags: byte, body: Bytes): Bytes {
    EncodeHeader(Header(1, cmd, flags, |body| % 0x1_0000_0000)) + body
  }

  /** Whether a flag bit is set. */
  predicate HasFlag(flags: byte, bit: byte) {
    bit > 0 && flags / bit % 2 == 1
  }

  datatype Received<T> = Received(header: Header, value: T, rest: Bytes) | Rejected

  /** The server's reading of one frame with a binary decoder; the JSON branch is outside the model and counts as
      rejected. */
  function ReadFrame<T>(b: Bytes, decode: Bytes -> Parsed<T>): Received<T> {
    match DecodeHeader(b)
    case HeaderErr(_) => Rejected
    case HeaderOk(h, rest) =>
      if h.length > |rest| || HasFlag(h.flags, FLAG_JSON) || !HasFlag(h.flags, FLAG_BIN) then Rejected
      else
        match decode(rest[..h.length])
        case Failed => Rejected
        case Parsed(x, _) => Received(h, x, rest[h.length..])
  }

  /** For any codec: a frame is received intact exactly when its body is within the payload limit, even though the
      length field wraps for huge bodies, if a body cut short never decodes. */
  lemma FrameRead<T>(body: Bytes, x: T, cmd: byte, rest: Bytes, decode: Bytes -> Parsed<T>)
    requires decode(body) == Parsed(x, [])
    requires forall n | 0 <= n < |body| :: decode(body[..n]) == Failed
    ensures ReadFrame(Frame(cmd, FLAG_BIN, body) + rest, decode) ==
      if |body| <= MAX_PAYLOAD then Received(Header(1, cmd, FLAG_BIN, |body|), x, rest) else Rejected
  {
    var n: uint32 := |body| % 0x1_0000_0000;
    var h := Header(1, cmd, FLAG_BIN, n);
    assert Frame(cmd, FLAG_BIN, body) + rest == EncodeHeader(h) + (body + rest);
    HeaderRoundTrip(h, body + rest);
    assert (body + rest)[..n] == body[..n];
    if n == |body| {
      assert body[..n] == body && (body + rest)[n..] == rest;
    } else {
      assert decode(body[..n]) == Failed;
    }
  }

  /** The framed request, decoded into `o`. */
  lemma RequestFrame(r: Request, o: Request, cmd: byte, rest: Bytes)
    requires RequestOk(r)
    ensures var body := EncodeRequest(r);
      ReadFrame(Frame(cmd, FLAG_BIN, body) + rest, b => DecodeRequest(b, o)) ==
        if |body| <= MAX_PAYLOAD then Received(Header(1, cmd, FLAG_BIN, |body|), Carried(r, o), rest) else Rejected
  {
    var body := EncodeRequest(r);
    var decode := b => DecodeRequest(b, o);
    RequestDecodes(r, o, body, decode);
    FrameRead(body, Carried(r, o), cmd, rest, decode);
  }

  lemma RequestDecodes(r: Request, o: Request, body: Bytes, decode: Bytes -> Parsed<Request>)
    requires RequestOk(r) && body == EncodeRequest(r)
    requires forall b :: decode(b) == DecodeRequest(b, o)
    ensures decode(body) == Parsed(Carried(r, o), [])
    ensures forall n | 0 <= n < |body| :: decode(body[..n]) == Failed
  {
    assert body + [] == body;
    RequestRoundTrip(r, o, []);
    forall n | 0 <= n < |body|
      ensures decode(body[..n]) == Failed
    {
      RequestTruncated(r, o, n);
    }
  }
}
