/** nscd replies: the two host reply layouts, the validator of upstream replies, and
    decoders driven by the reply headers alone (`nscd/nscd-client.h`). */
module NscdReply {
  import opened Bytes
  import opened Net
  import opened NscdProtocol

  const HOST_NOT_FOUND: I32 := 1
  const TRY_AGAIN: I32 := 2
  const NO_DATA: I32 := 4

  const AI_HEADER_LEN := 24
  const HST_HEADER_LEN := 32

  const AF_INET: Byte := 2
  const AF_INET6: Byte := 10

  function Family(a: Ip): Byte { if a.V4? then AF_INET else AF_INET6 }

  function Packed(addrs: seq<Ip>): seq<Byte> {
    if addrs == [] then [] else addrs[0].Octets() + Packed(addrs[1..])
  }

  function Families(addrs: seq<Ip>): (r: seq<Byte>)
    ensures |r| == |addrs|
  {
    if addrs == [] then [] else [Family(addrs[0])] + Families(addrs[1..])
  }

  lemma {:induction false} PackedBounds(addrs: seq<Ip>)
    ensures 4 * |addrs| <= |Packed(addrs)| <= 16 * |addrs|
  {
    if addrs != [] { PackedBounds(addrs[1..]); }
  }

  // ---- Building --------------------------------------------------------------------

  function AiHeader(found: I32, naddrs: int, addrslen: int, canonlen: int, error: I32): (r: seq<Byte>)
    ensures |r| == AI_HEADER_LEN
  {
    IntBytes(VERSION) + IntBytes(found) + IntBytes(ToI32(naddrs)) + IntBytes(ToI32(addrslen))
    + IntBytes(ToI32(canonlen)) + IntBytes(error)
  }

  /** `ai_reply`: header, packed addresses, one family byte each, the canonical name. */
  function AiReply(found: I32, error: I32, canon: Str, addrs: seq<Ip>): seq<Byte> {
    AiHeader(found, |addrs|, |Packed(addrs)|, if found == 1 then |canon| + 1 else 0, error)
    + if found == 1 then Packed(addrs) + Families(addrs) + canon + [0] else []
  }

  function HstHeader(found: I32, nameLen: int, family: I32, length: I32, count: int, error: I32): (r: seq<Byte>)
    ensures |r| == HST_HEADER_LEN
  {
    IntBytes(VERSION) + IntBytes(found) + IntBytes(ToI32(nameLen)) + IntBytes(0)
    + IntBytes(family) + IntBytes(length) + IntBytes(ToI32(count)) + IntBytes(error)
  }

  /** `hst_reply`: header, the name, the addresses; there are never aliases. */
  function HstReply(found: I32, error: I32, name: Str, family: I32, addrs: seq<Ip>): seq<Byte> {
    if found == 1 then
      HstHeader(found, |name| + 1, family, if family == AF_INET6 then 16 else 4, |addrs|, error)
      + name + [0] + Packed(addrs)
    else HstHeader(found, 0, -1, -1, 0, error)
  }

  lemma {:induction false} PackedSnoc(addrs: seq<Ip>, a: Ip)
    ensures Packed(addrs + [a]) == Packed(addrs) + a.Octets()
  {
    hide Packed;
    PackedEnds(a, []);
    if addrs == [] {
      assert addrs + [a] == [a] + [] && a.Octets() + [] == [] + a.Octets();
    } else {
      var first, tail := addrs[0], addrs[1..];
      PackedSnoc(tail, a);
      PackedEnds(first, tail + [a]);
      PackedEnds(first, tail);
      assert addrs == [first] + tail && addrs + [a] == [first] + (tail + [a]);
      Associate(first.Octets(), Packed(tail), a.Octets());
    }
  }

  lemma PackedEnds(first: Ip, tail: seq<Ip>)
    ensures Packed([]) == [] && Packed([first] + tail) == first.Octets() + Packed(tail)
  {
  }

  method BuildHstReply(found: I32, error: I32, name: Str, family: I32, addrs: seq<Ip>) returns (buf: seq<Byte>)
    ensures buf == HstReply(found, error, name, family, addrs)
  {
    hide HstHeader;
    var length: I32 := if family == AF_INET6 then 16 else 4;
    if found != 1 {
      return HstHeader(found, 0, -1, -1, 0, error);
    }
    var head := HstHeader(found, |name| + 1, family, length, |addrs|, error) + name + [0];
    buf := head;
    for i := 0 to |addrs|
      invariant buf == head + Packed(addrs[..i])
    {
      PackedSnoc(addrs[..i], addrs[i]);
      assert addrs[..i + 1] == addrs[..i] + [addrs[i]];
      buf := buf + addrs[i].Octets();
    }
    assert addrs[..|addrs|] == addrs;
  }

  function AiNotFound(error: I32): seq<Byte> { AiReply(0, error, [], []) }

  function AiFound(canon: Str, addrs: seq<Ip>): seq<Byte> { AiReply(1, 0, canon, addrs) }

  function HstNotFound(error: I32): seq<Byte> { HstReply(0, error, [], -1, []) }

  function HstFound(name: Str, v6: bool, addrs: seq<Ip>): Option<seq<Byte>> {
    var matching := OfFamily(addrs, v6);
    if matching == [] then None
    else Some(HstReply(1, 0, name, if v6 then AF_INET6 else AF_INET, matching))
  }

  function NotFound(ty: RequestType, error: I32): seq<Byte> {
    if ty == GetAi then AiNotFound(error) else HstNotFound(error)
  }

  function Found(ty: RequestType, name: Str, addrs: seq<Ip>): seq<Byte> {
    if ty == GetAi then AiFound(name, addrs)
    else match HstFound(name, ty != GetHostByName, addrs)
      case Some(reply) => reply
      case None => HstNotFound(NO_DATA)
  }

  // ---- Validating ------------------------------------------------------------------

  type I64 = x: int | -0x8000_0000_0000_0000 <= x < 0x8000_0000_0000_0000

  /** The length an `ai` header announces; every sum stays inside 64 bits. */
  function AiExtent(naddrs: I32, addrslen: I32, canonlen: I32): I64 {
    var a: I64 := AI_HEADER_LEN + naddrs;
    var b: I64 := a + addrslen;
    b + canonlen
  }

  /** The least length an `hst` header announces. */
  function HstExtent(nameLen: I32, aliases: I32, length: I32, count: I32): I64
    requires length == 4 || length == 16
  {
    var a: I64 := HST_HEADER_LEN + nameLen;
    var b: I64 := aliases * 4;
    var c: I64 := count * length;
    var d: I64 := a + b;
    d + c
  }

  /** `valid_host_reply`: a complete positive or negative answer to a host request. */
  predicate ValidHostReply(ty: RequestType, reply: seq<Byte>) {
    && IntAt(reply, 0) == Some(VERSION)
    && IntAt(reply, 4).Some?
    && var found := IntAt(reply, 4).value;
    if ty == GetAi then
      && |reply| >= AI_HEADER_LEN
      && (found == 0
          || (found == 1
              && var (naddrs, addrslen, canonlen) := (IntAt(reply, 8).value, IntAt(reply, 12).value, IntAt(reply, 16).value);
                 naddrs >= 0 && addrslen >= 0 && canonlen >= 0 && |reply| == AiExtent(naddrs, addrslen, canonlen)))
    else
      && |reply| >= HST_HEADER_LEN
      && (found == 0
          || (found == 1
              && var (nameLen, aliases, length, count) :=
                   (IntAt(reply, 8).value, IntAt(reply, 12).value, IntAt(reply, 20).value, IntAt(reply, 24).value);
                 && nameLen >= 0 && aliases >= 0 && count >= 0 && (length == 4 || length == 16)
                 && |reply| >= HstExtent(nameLen, aliases, length, count)))
  }

  // ---- Layout ------------------------------------------------------------------------

  lemma AiHeaderInts(found: I32, naddrs: int, addrslen: int, canonlen: int, error: I32, body: seq<Byte>)
    ensures var r := AiHeader(found, naddrs, addrslen, canonlen, error) + body;
      && IntAt(r, 0) == Some(VERSION) && IntAt(r, 4) == Some(found) && IntAt(r, 8) == Some(ToI32(naddrs))
      && IntAt(r, 12) == Some(ToI32(addrslen)) && IntAt(r, 16) == Some(ToI32(canonlen)) && IntAt(r, 20) == Some(error)
  {
    hide IntAt, IntBytes, ToI32;
    var r := AiHeader(found, naddrs, addrslen, canonlen, error) + body;
    assert r[0..4] == IntBytes(VERSION) && r[4..8] == IntBytes(found) && r[8..12] == IntBytes(ToI32(naddrs));
    assert r[12..16] == IntBytes(ToI32(addrslen)) && r[16..20] == IntBytes(ToI32(canonlen)) && r[20..24] == IntBytes(error);
    IntAtOf(r, 0, VERSION); IntAtOf(r, 4, found); IntAtOf(r, 8, ToI32(naddrs));
    IntAtOf(r, 12, ToI32(addrslen)); IntAtOf(r, 16, ToI32(canonlen)); IntAtOf(r, 20, error);
  }

  lemma HstHeaderInts(found: I32, nameLen: int, family: I32, length: I32, count: int, error: I32, body: seq<Byte>)
    ensures var r := HstHeader(found, nameLen, family, length, count, error) + body;
      && IntAt(r, 0) == Some(VERSION) && IntAt(r, 4) == Some(found) && IntAt(r, 8) == Some(ToI32(nameLen))
      && IntAt(r, 12) == Some(0) && IntAt(r, 16) == Some(family) && IntAt(r, 20) == Some(length)
      && IntAt(r, 24) == Some(ToI32(count)) && IntAt(r, 28) == Some(error)
  {
    hide IntAt, IntBytes, ToI32;
    var r := HstHeader(found, nameLen, family, length, count, error) + body;
    assert r[0..4] == IntBytes(VERSION) && r[4..8] == IntBytes(found) && r[8..12] == IntBytes(ToI32(nameLen));
    assert r[12..16] == IntBytes(0) && r[16..20] == IntBytes(family) && r[20..24] == IntBytes(length);
    assert r[24..28] == IntBytes(ToI32(count)) && r[28..32] == IntBytes(error);
    IntAtOf(r, 0, VERSION); IntAtOf(r, 4, found); IntAtOf(r, 8, ToI32(nameLen)); IntAtOf(r, 12, 0);
    IntAtOf(r, 16, family); IntAtOf(r, 20, length); IntAtOf(r, 24, ToI32(count)); IntAtOf(r, 28, error);
  }

  /** A cast that loses bits makes a non-negative number smaller. */
  lemma CastShrinks(n: nat)
    ensures ToI32(n) <= n && (ToI32(n) == n <==> n < 0x8000_0000)
  {
  }

  // ---- The daemon's own replies are valid ----------------------------------------------

  /** The header announces exactly the bytes there are, so nothing shorter passes. */
  ghost predicate Complete(ty: RequestType, reply: seq<Byte>) {
    && ValidHostReply(ty, reply)
    && forall n :: 0 <= n < |reply| ==> !ValidHostReply(ty, reply[..n])
  }

  lemma NotFoundIs(ty: RequestType, error: I32)
    ensures var r := NotFound(ty, error);
      && Complete(ty, r) && IntAt(r, 4) == Some(0)
      && IntAt(r, if ty == GetAi then 20 else 28) == Some(error)
  {
    hide IntAt, AiHeader, HstHeader, AiExtent, HstExtent;
    var r := NotFound(ty, error);
    if ty == GetAi {
      AiHeaderInts(0, 0, 0, 0, error, []);
      assert r == AiHeader(0, 0, 0, 0, error) + [];
    } else {
      HstHeaderInts(0, 0, -1, -1, 0, error, []);
      assert r == HstHeader(0, 0, -1, -1, 0, error) + [];
    }
  }

  /** A positive `ai` reply is valid exactly when its counts fit an `int32`. */
  lemma AiFoundIff(canon: Str, addrs: seq<Ip>)
    ensures ValidHostReply(GetAi, AiFound(canon, addrs))
       <==> |Packed(addrs)| < 0x8000_0000 && |canon| + 1 < 0x8000_0000
    ensures IntAt(AiFound(canon, addrs), 4) == Some(1)
    ensures ValidHostReply(GetAi, AiFound(canon, addrs)) ==> Complete(GetAi, AiFound(canon, addrs))
  {
    hide IntAt, AiHeader, ToI32, Packed, Families;
    var body := Packed(addrs) + Families(addrs) + canon + [0];
    var r := AiFound(canon, addrs);
    AiHeaderInts(1, |addrs|, |Packed(addrs)|, |canon| + 1, 0, body);
    PackedBounds(addrs);
    CastShrinks(|addrs|);
    CastShrinks(|Packed(addrs)|);
    CastShrinks(|canon| + 1);
    assert r == AiHeader(1, |addrs|, |Packed(addrs)|, |canon| + 1, 0) + body;
    forall n | 0 <= n < |r| && ValidHostReply(GetAi, r) ensures !ValidHostReply(GetAi, r[..n]) {
      if n >= AI_HEADER_LEN {
        IntAtPrefix(r, n, 4);
        IntAtPrefix(r, n, 8);
        IntAtPrefix(r, n, 12);
        IntAtPrefix(r, n, 16);
      }
    }
  }

  lemma {:induction false} PackedOfFamily(addrs: seq<Ip>, v6: bool)
    requires AllOfFamily(addrs, v6)
    ensures |Packed(addrs)| == (if v6 then 16 else 4) * |addrs|
  {
    if addrs != [] { PackedOfFamily(addrs[1..], v6); }
  }

  /** A positive `hst` reply with counts that fit is valid, and no prefix of it is. */
  lemma HstFoundComplete(ty: RequestType, name: Str, addrs: seq<Ip>)
    requires ty != GetAi && HstFound(name, ty != GetHostByName, addrs).Some?
    requires |name| + 1 < 0x8000_0000 && |OfFamily(addrs, ty != GetHostByName)| < 0x8000_0000
    ensures var r := HstFound(name, ty != GetHostByName, addrs).value;
      Complete(ty, r) && IntAt(r, 4) == Some(1)
  {
    hide IntAt, HstHeader, ToI32, Packed, OfFamily;
    var v6 := ty != GetHostByName;
    var matching := OfFamily(addrs, v6);
    var family: I32, length: I32 := if v6 then AF_INET6 else AF_INET, if v6 then 16 else 4;
    var r := HstFound(name, v6, addrs).value;
    var body := name + [0] + Packed(matching);
    PackedOfFamily(matching, v6);
    HstHeaderInts(1, |name| + 1, family, length, |matching|, 0, body);
    CastShrinks(|name| + 1);
    CastShrinks(|matching|);
    assert r == HstHeader(1, |name| + 1, family, length, |matching|, 0) + body;
    forall n | 0 <= n < |r| ensures !ValidHostReply(ty, r[..n]) {
      if n >= HST_HEADER_LEN {
        IntAtPrefix(r, n, 4);
        IntAtPrefix(r, n, 8);
        IntAtPrefix(r, n, 12);
        IntAtPrefix(r, n, 20);
        IntAtPrefix(r, n, 24);
      }
    }
  }

  /** Trailing bytes pass on an `hst` reply, whose aliases may follow, and on a negative
      one, but never on a positive `ai` reply. */
  lemma TrailingBytesIff(ty: RequestType, reply: seq<Byte>, extra: seq<Byte>)
    requires ValidHostReply(ty, reply) && extra != []
    ensures ValidHostReply(ty, reply + extra) <==> ty != GetAi || IntAt(reply, 4) == Some(0)
  {
    hide IntAt;
    var longer := reply + extra;
    assert longer[..|reply|] == reply;
    IntAtPrefix(longer, |reply|, 0);
    IntAtPrefix(longer, |reply|, 4);
    IntAtPrefix(longer, |reply|, 8);
    IntAtPrefix(longer, |reply|, 12);
    IntAtPrefix(longer, |reply|, 16);
    IntAtPrefix(longer, |reply|, 20);
    if ty != GetAi { IntAtPrefix(longer, |reply|, 24); }
  }

  // ---- Decoding ------------------------------------------------------------------------

  datatype Answer = Negative(error: I32) | Positive(name: Str, addrs: seq<Ip>)

  /** Addresses cut from packed bytes as their family bytes say. */
  function Unpack(packed: seq<Byte>, families: seq<Byte>): Option<seq<Ip>>
    decreases families
  {
    if families == [] then (if packed == [] then Some([]) else None)
    else
      var size := if families[0] == AF_INET then 4 else 16;
      if |packed| < size then None
      else match Unpack(packed[size..], families[1..])
        case None => None
        case Some(rest) =>
          if size == 4 then Some([V4(packed[..4])] + rest) else Some([V6(packed[..16])] + rest)
  }

  /** A C string of a given size, terminator included. */
  function CString(bytes: seq<Byte>): Option<Str> {
    if bytes != [] && bytes[|bytes| - 1] == 0 then Some(bytes[..|bytes| - 1]) else None
  }

  function DecodeAi(reply: seq<Byte>): Option<Answer> {
    if |reply| < AI_HEADER_LEN then None
    else if IntAt(reply, 4).value != 1 then Some(Negative(IntAt(reply, 20).value))
    else
      var (naddrs, addrslen, canonlen) := (IntAt(reply, 8).value, IntAt(reply, 12).value, IntAt(reply, 16).value);
      if naddrs < 0 || addrslen < 0 || canonlen < 0 || |reply| != AI_HEADER_LEN + naddrs + addrslen + canonlen then None
      else
        var p := AI_HEADER_LEN + addrslen;
        var f := p + naddrs;
        match (Unpack(reply[AI_HEADER_LEN..p], reply[p..f]), CString(reply[f..f + canonlen]))
        case (Some(addrs), Some(canon)) => Some(Positive(canon, addrs))
        case _ => None
  }

  function DecodeHst(reply: seq<Byte>): Option<Answer> {
    if |reply| < HST_HEADER_LEN then None
    else if IntAt(reply, 4).value != 1 then Some(Negative(IntAt(reply, 28).value))
    else
      var (nameLen, aliases) := (IntAt(reply, 8).value, IntAt(reply, 12).value);
      var (family, length, count) := (IntAt(reply, 16).value, IntAt(reply, 20).value, IntAt(reply, 24).value);
      if nameLen < 0 || aliases < 0 || count < 0 || !(length == 4 || length == 16) then None
      else
        var name := HST_HEADER_LEN + nameLen;
        var list := name + 4 * (aliases as int);
        var end := list + (if length == 4 then 4 * (count as int) else 16 * (count as int));
        if |reply| < end || !(AF_INET <= family <= AF_INET6) then None
        else match (CString(reply[HST_HEADER_LEN..name]), Unpack(reply[list..end], Repeat(family, count)))
          case (Some(n), Some(addrs)) => Some(Positive(n, addrs))
          case _ => None
  }

  function Repeat(b: Byte, n: nat): (r: seq<Byte>)
    ensures |r| == n
  {
    if n == 0 then [] else [b] + Repeat(b, n - 1)
  }

  lemma {:induction false} UnpackInverts(addrs: seq<Ip>)
    ensures Unpack(Packed(addrs), Families(addrs)) == Some(addrs)
  {
    if addrs != [] {
      var first, tail := addrs[0], addrs[1..];
      UnpackInverts(tail);
      var packed := Packed(addrs);
      assert packed[..|first.Octets()|] == first.Octets() && packed[|first.Octets()|..] == Packed(tail);
      assert Families(addrs)[1..] == Families(tail);
      assert addrs == [first] + tail;
    }
  }

  lemma {:induction false} FamiliesUniform(addrs: seq<Ip>, v6: bool)
    requires AllOfFamily(addrs, v6)
    ensures Families(addrs) == Repeat(if v6 then AF_INET6 else AF_INET, |addrs|)
  {
    if addrs != [] { FamiliesUniform(addrs[1..], v6); }
  }

  lemma CStringOf(name: Str)
    ensures CString(name + [0]) == Some(name)
  {
  }

  /** The `ai` decoder recovers the name and every address, in order. */
  lemma AiRoundTrip(canon: Str, addrs: seq<Ip>)
    requires |Packed(addrs)| < 0x8000_0000 && |canon| + 1 < 0x8000_0000
    ensures DecodeAi(AiFound(canon, addrs)) == Some(Positive(canon, addrs))
  {
    hide IntAt, AiHeader, ToI32, Packed, Families, Unpack, CString;
    var packed, families := Packed(addrs), Families(addrs);
    var body := packed + families + canon + [0];
    var r := AiFound(canon, addrs);
    AiHeaderInts(1, |addrs|, |packed|, |canon| + 1, 0, body);
    PackedBounds(addrs);
    assert ToI32(|addrs|) == |addrs| && ToI32(|packed|) == |packed| && ToI32(|canon| + 1) == |canon| + 1;
    BodyParts(AiHeader(1, |addrs|, |packed|, |canon| + 1, 0), packed, families, canon + [0], r);
    UnpackInverts(addrs);
    CStringOf(canon);
  }

  lemma BodyParts(head: seq<Byte>, a: seq<Byte>, b: seq<Byte>, c: seq<Byte>, r: seq<Byte>)
    requires r == head + (a + b + c) || r == head + a + b + c
    ensures var i := |head|; var j := i + |a|; var k := j + |b|;
      && |r| == k + |c| && r[i..j] == a && r[j..k] == b && r[k..k + |c|] == c
  {
  }

  /** The `hst` decoder recovers the name and the addresses of the asked family. */
  lemma HstRoundTrip(name: Str, v6: bool, addrs: seq<Ip>)
    requires HstFound(name, v6, addrs).Some?
    requires |name| + 1 < 0x8000_0000 && |OfFamily(addrs, v6)| < 0x8000_0000
    ensures DecodeHst(HstFound(name, v6, addrs).value) == Some(Positive(name, OfFamily(addrs, v6)))
  {
    hide IntAt, HstHeader, ToI32, Packed, Families, Unpack, CString, OfFamily, Repeat;
    var matching := OfFamily(addrs, v6);
    var family: Byte, length: I32 := if v6 then AF_INET6 else AF_INET, if v6 then 16 else 4;
    var r := HstFound(name, v6, addrs).value;
    var packed := Packed(matching);
    var head := HstHeader(1, |name| + 1, family, length, |matching|, 0);
    HstHeaderInts(1, |name| + 1, family, length, |matching|, 0, name + [0] + packed);
    assert r == head + (name + [0] + packed);
    assert ToI32(|name| + 1) == |name| + 1 && ToI32(|matching|) == |matching|;
    PackedOfFamily(matching, v6);
    FamiliesUniform(matching, v6);
    BodyParts(head, name + [0], packed, [], r);
    UnpackInverts(matching);
    CStringOf(name);
  }
}
