/** glibc's nscd protocol, version 2: integers, request types and requests. */
module NscdProtocol {
  import opened Bytes
  import Utf8

  // ---- int32 -------------------------------------------------------------------

  type I32 = x: int | -0x8000_0000 <= x < 0x8000_0000

  /** A cast to `i32`: the low 32 bits, as two's complement. */
  function ToI32(n: int): (r: I32)
    ensures -0x8000_0000 <= n < 0x8000_0000 ==> r == n
    ensures exists k :: n == r + k * 0x1_0000_0000
  {
    var r := (n + 0x8000_0000) % 0x1_0000_0000 - 0x8000_0000;
    assert n == r + ((n + 0x8000_0000) / 0x1_0000_0000) * 0x1_0000_0000;
    r
  }

  /** Four bytes, least significant first (`to_ne_bytes` on a little-endian machine). */
  function IntBytes(x: I32): (r: seq<Byte>)
    ensures |r| == 4
  {
    var u := if x < 0 then x + 0x1_0000_0000 else x;
    var (v, w) := (u / 0x100, u / 0x100 / 0x100);
    [u % 0x100, v % 0x100, w % 0x100, w / 0x100]
  }

  function BytesInt(b: seq<Byte>): I32
    requires |b| == 4
  {
    var u := b[0] as int + 0x100 * (b[1] as int + 0x100 * (b[2] as int + 0x100 * b[3] as int));
    if u < 0x8000_0000 then u else u - 0x1_0000_0000
  }

  lemma IntRoundTrip(x: I32)
    ensures BytesInt(IntBytes(x)) == x
  {
  }

  lemma ByteOnTop(b: Byte, high: nat)
    ensures (b + 0x100 * high) % 0x100 == b && (b + 0x100 * high) / 0x100 == high
  {
  }

  lemma BytesRoundTrip(b: seq<Byte>)
    requires |b| == 4
    ensures IntBytes(BytesInt(b)) == b
  {
    var w := b[2] as int + 0x100 * b[3] as int;
    var v := b[1] as int + 0x100 * w;
    ByteOnTop(b[2], b[3]);
    ByteOnTop(b[1], w);
    ByteOnTop(b[0], v);
    var u := b[0] as int + 0x100 * v;
    assert BytesInt(b) == if u < 0x8000_0000 then u else u - 0x1_0000_0000;
  }

  /** The integer at an offset, if the bytes reach that far. */
  function IntAt(bytes: seq<Byte>, at: nat): (r: Option<I32>)
    ensures r.Some? <==> at + 4 <= |bytes|
  {
    if at + 4 <= |bytes| then Some(BytesInt(bytes[at..at + 4])) else None
  }

  lemma IntAtOf(bytes: seq<Byte>, at: nat, x: I32)
    requires at + 4 <= |bytes| && bytes[at..at + 4] == IntBytes(x)
    ensures IntAt(bytes, at) == Some(x)
  {
  }

  // ---- Request types -------------------------------------------------------------

  datatype RequestType =
    | GetPwByName | GetPwByUid | GetGrByName | GetGrByGid
    | GetHostByName | GetHostByNameV6 | GetHostByAddr | GetHostByAddrV6
    | Shutdown | GetStat | Invalidate
    | GetFdPw | GetFdGr | GetFdHst
    | GetAi | InitGroups
    | GetServByName | GetServByPort | GetFdServ
    | GetNetGrEnt | InNetGr | GetFdNetGr

  const ALL: seq<RequestType> := [
    GetPwByName, GetPwByUid, GetGrByName, GetGrByGid,
    GetHostByName, GetHostByNameV6, GetHostByAddr, GetHostByAddrV6,
    Shutdown, GetStat, Invalidate,
    GetFdPw, GetFdGr, GetFdHst,
    GetAi, InitGroups,
    GetServByName, GetServByPort, GetFdServ,
    GetNetGrEnt, InNetGr, GetFdNetGr]

  function FromI32(value: I32): Option<RequestType> {
    if 0 <= value < |ALL| then Some(ALL[value]) else None
  }

  /** The position of the type in declaration order. */
  function AsI32(ty: RequestType): (value: I32)
    ensures FromI32(value) == Some(ty)
  {
    match ty
    case GetPwByName => 0 case GetPwByUid => 1 case GetGrByName => 2 case GetGrByGid => 3
    case GetHostByName => 4 case GetHostByNameV6 => 5 case GetHostByAddr => 6 case GetHostByAddrV6 => 7
    case Shutdown => 8 case GetStat => 9 case Invalidate => 10
    case GetFdPw => 11 case GetFdGr => 12 case GetFdHst => 13
    case GetAi => 14 case InitGroups => 15
    case GetServByName => 16 case GetServByPort => 17 case GetFdServ => 18
    case GetNetGrEnt => 19 case InNetGr => 20 case GetFdNetGr => 21
  }

  lemma TypeRoundTrip(value: I32)
    requires FromI32(value).Some?
    ensures AsI32(FromI32(value).value) == value
  {
    if value < 11 {
      match value {
        case 0 => case 1 => case 2 => case 3 => case 4 => case 5 => case 6 => case 7 => case 8 => case 9 => case 10 =>
      }
    } else {
      match value {
        case 11 => case 12 => case 13 => case 14 => case 15 => case 16 => case 17 => case 18 => case 19 =>
        case 20 => case 21 =>
      }
    }
  }

  /** The policy judges these: by-name host lookups, whose key is the name. */
  predicate IsHostLookup(ty: RequestType) {
    ty in {GetHostByName, GetHostByNameV6, GetAi}
  }

  // ---- Requests ------------------------------------------------------------------

  const VERSION: I32 := 2
  const MAX_KEY_LEN := 1024
  const HEADER_LEN := 12

  datatype Request = Request(ty: RequestType, key: seq<Byte>, raw: seq<Byte>)

  datatype RequestError =
    | TooShort(len: nat) | BadVersion(version: I32) | UnknownType(value: I32)
    | NegativeKeyLength | KeyTooLong(len: nat) | KeyMismatch(len: nat, got: nat)

  /** `Request::encode`, as glibc's client serializes. */
  function Encode(ty: RequestType, key: seq<Byte>): (r: seq<Byte>)
    ensures |r| == HEADER_LEN + |key|
  {
    IntBytes(VERSION) + IntBytes(AsI32(ty)) + IntBytes(ToI32(|key|)) + key
  }

  /** `Request::parse`, on a complete request. */
  function Parse(bytes: seq<Byte>): Result<Request, RequestError> {
    if |bytes| < HEADER_LEN then Err(TooShort(|bytes|))
    else
      var version, ty, len := IntAt(bytes, 0).value, IntAt(bytes, 4).value, IntAt(bytes, 8).value;
      if version != VERSION then Err(BadVersion(version))
      else if FromI32(ty).None? then Err(UnknownType(ty))
      else if len < 0 then Err(NegativeKeyLength)
      else if len > MAX_KEY_LEN then Err(KeyTooLong(len))
      else if |bytes| != HEADER_LEN + len then Err(KeyMismatch(len, |bytes| - HEADER_LEN))
      else Ok(Request(FromI32(ty).value, bytes[HEADER_LEN..], bytes))
  }

  lemma EncodeLayout(ty: RequestType, key: seq<Byte>)
    ensures var r := Encode(ty, key);
      && IntAt(r, 0) == Some(VERSION) && IntAt(r, 4) == Some(AsI32(ty)) && IntAt(r, 8) == Some(ToI32(|key|))
      && r[HEADER_LEN..] == key
  {
    hide IntAt, IntBytes, AsI32, ToI32;
    var r := Encode(ty, key);
    assert r[0..4] == IntBytes(VERSION) && r[4..8] == IntBytes(AsI32(ty)) && r[8..12] == IntBytes(ToI32(|key|));
    IntAtOf(r, 0, VERSION);
    IntAtOf(r, 4, AsI32(ty));
    IntAtOf(r, 8, ToI32(|key|));
  }

  /** Parsing inverts encoding exactly for the keys nscd accepts. */
  lemma ParseInvertsEncode(ty: RequestType, key: seq<Byte>)
    ensures Parse(Encode(ty, key)) == Ok(Request(ty, key, Encode(ty, key))) <==> |key| <= MAX_KEY_LEN
    ensures Parse(Encode(ty, key)).Ok? <==> |key| <= MAX_KEY_LEN
  {
    hide IntAt, Encode, AsI32, ToI32;
    EncodeLayout(ty, key);
  }

  /** Encoding inverts parsing: an accepted request is the encoding of its parts. */
  lemma EncodeInvertsParse(bytes: seq<Byte>)
    requires Parse(bytes).Ok?
    ensures var r := Parse(bytes).value;
      r.raw == bytes && |r.key| <= MAX_KEY_LEN && Encode(r.ty, r.key) == bytes
  {
    hide IntBytes, AsI32, FromI32, BytesInt, ToI32;
    var r := Parse(bytes).value;
    TypeRoundTrip(IntAt(bytes, 4).value);
    BytesRoundTrip(bytes[0..4]);
    BytesRoundTrip(bytes[4..8]);
    BytesRoundTrip(bytes[8..12]);
    assert bytes == bytes[0..4] + bytes[4..8] + bytes[8..12] + bytes[12..];
  }

  /** The key as a host name: UTF-8 without the terminating NUL, and not empty. */
  function Hostname(r: Request): (name: Option<Str>)
    ensures name.Some? ==> 0 < |name.value| <= |r.key| && Utf8.Valid(name.value)
  {
    var name := if r.key != [] && r.key[|r.key| - 1] == 0 then r.key[..|r.key| - 1] else r.key;
    if Utf8.Valid(name) && name != [] then Some(name) else None
  }

  /** Exactly which keys carry a name: with its terminator, or without one. */
  lemma HostnameIff(r: Request, name: Str)
    ensures Hostname(r) == Some(name) <==>
      && Utf8.Valid(name) && name != []
      && (r.key == name + [0] || (r.key == name && name[|name| - 1] != 0))
  {
    hide Utf8.Valid;
    if r.key != [] {
      var last := |r.key| - 1;
      assert r.key == r.key[..last] + [r.key[last]];
    }
    assert (name + [0])[..|name|] == name;
  }

  /** What glibc sends for a name comes back as that name. */
  lemma HostnameOf(ty: RequestType, name: Str, raw: seq<Byte>)
    requires Utf8.Valid(name) && name != []
    ensures Hostname(Request(ty, name + [0], raw)) == Some(name)
  {
  }

  // ---- Reading from a stream --------------------------------------------------------

  datatype ReadError = UnexpectedEof | BadKeyLength | Malformed(error: RequestError)

  datatype Read = Read(request: Request, rest: seq<Byte>)

  /** `read_request`: the header first, then as much key as it announces. */
  function ReadRequest(stream: seq<Byte>): Result<Read, ReadError> {
    if |stream| < HEADER_LEN then Err(UnexpectedEof)
    else
      var len := IntAt(stream, 8).value;
      if len < 0 || len > MAX_KEY_LEN then Err(BadKeyLength)
      else if |stream| < HEADER_LEN + len then Err(UnexpectedEof)
      else match Parse(stream[..HEADER_LEN + len])
        case Err(e) => Err(Malformed(e))
        case Ok(r) => Ok(Read(r, stream[HEADER_LEN + len..]))
  }

  lemma IntAtPrefix(stream: seq<Byte>, n: nat, at: nat)
    requires at + 4 <= n <= |stream|
    ensures IntAt(stream[..n], at) == IntAt(stream, at)
  {
  }

  /** An encoded request at the start of a stream is read back, and nothing more. */
  lemma ReadInvertsEncode(ty: RequestType, key: seq<Byte>, rest: seq<Byte>)
    requires |key| <= MAX_KEY_LEN
    ensures var raw := Encode(ty, key);
      ReadRequest(raw + rest) == Ok(Read(Request(ty, key, raw), rest))
  {
    hide IntAt, Encode, Parse;
    var raw := Encode(ty, key);
    EncodeLayout(ty, key);
    ParseInvertsEncode(ty, key);
    assert (raw + rest)[..|raw|] == raw && (raw + rest)[|raw|..] == rest;
    IntAtPrefix(raw + rest, |raw|, 8);
  }

  /** What glibc writes for a host name is read back as a request for that name. */
  lemma GlibcRequestIsUnderstood(ty: RequestType, name: Str, rest: seq<Byte>)
    requires Utf8.Valid(name) && name != [] && |name| + 1 <= MAX_KEY_LEN
    ensures var raw := Encode(ty, name + [0]);
      && ReadRequest(raw + rest) == Ok(Read(Request(ty, name + [0], raw), rest))
      && Hostname(Request(ty, name + [0], raw)) == Some(name)
  {
    hide Encode, Parse, Utf8.Valid, ReadRequest;
    ReadInvertsEncode(ty, name + [0], rest);
    HostnameOf(ty, name, Encode(ty, name + [0]));
  }

  /** Reading succeeds exactly on streams that start with a valid request, consumes just
      that request and keeps it verbatim; the parser's own length checks never fire. */
  lemma ReadRequestIff(stream: seq<Byte>)
    ensures ReadRequest(stream).Ok? <==> exists n | 0 <= n <= |stream| :: Parse(stream[..n]).Ok?
    ensures ReadRequest(stream).Ok? ==>
      var Read(r, rest) := ReadRequest(stream).value;
      && stream == r.raw + rest && Parse(r.raw) == Ok(r) && |r.raw| == HEADER_LEN + |r.key|
    ensures ReadRequest(stream).Err? && ReadRequest(stream).error.Malformed? ==>
      var e := ReadRequest(stream).error.error; e.BadVersion? || e.UnknownType?
  {
    hide IntAt;
    if |stream| >= HEADER_LEN {
      var len := IntAt(stream, 8).value;
      if 0 <= len && HEADER_LEN + len <= |stream| {
        IntAtPrefix(stream, HEADER_LEN + len, 8);
        assert stream == stream[..HEADER_LEN + len] + stream[HEADER_LEN + len..];
      }
    }
    forall n | 0 <= n <= |stream| && Parse(stream[..n]).Ok? ensures ReadRequest(stream).Ok? {
      IntAtPrefix(stream, n, 8);
    }
  }
}
