/** IP addresses and socket addresses (`std::net`). */
module Net {
  import opened Bytes

  type Octets4 = s: seq<Byte> | |s| == 4 witness [0, 0, 0, 0]
  type Octets16 = s: seq<Byte> | |s| == 16 witness [0, 0, 0, 0, 0, 0, 0, 0, 0, 0, 0, 0, 0, 0, 0, 0]

  datatype Ip = V4(v4: Octets4) | V6(v6: Octets16) {
    function Octets(): seq<Byte> {
      match this case V4(o) => o case V6(o) => o
    }

    /** `IpAddr::to_canonical`: an IPv4-mapped IPv6 address becomes the IPv4 one. */
    function Canonical(): Ip {
      if V6? && v6[..12] == MAPPED_PREFIX then V4(v6[12..]) else this
    }

    /** `IpAddr::is_unspecified`. */
    predicate Unspecified() {
      forall b <- Octets() :: b == 0
    }
  }

  const MAPPED_PREFIX: seq<Byte> := [0, 0, 0, 0, 0, 0, 0, 0, 0, 0, 0xFF, 0xFF]

  /** `Ipv4Addr::to_ipv6_mapped`. */
  function Mapped(o: Octets4): (ip: Ip)
    ensures ip.V6? && ip.Canonical() == V4(o)
  {
    assert (MAPPED_PREFIX + o)[..12] == MAPPED_PREFIX && (MAPPED_PREFIX + o)[12..] == o;
    V6(MAPPED_PREFIX + o)
  }

  datatype SocketAddr = SocketAddr(ip: Ip, port: U16)

  ghost predicate AllOfFamily(addrs: seq<Ip>, v6: bool) {
    addrs == [] || (addrs[0].V6? == v6 && AllOfFamily(addrs[1..], v6))
  }

  /** The addresses of one family, in order. */
  function OfFamily(addrs: seq<Ip>, v6: bool): (r: seq<Ip>)
    ensures AllOfFamily(r, v6) && |r| <= |addrs|
  {
    if addrs == [] then []
    else
      var rest := OfFamily(addrs[1..], v6);
      if addrs[0].V6? == v6 then (assert ([addrs[0]] + rest)[1..] == rest; [addrs[0]] + rest) else rest
  }

  lemma {:induction false} OfFamilySnoc(addrs: seq<Ip>, a: Ip, v6: bool)
    ensures OfFamily(addrs + [a], v6) == OfFamily(addrs, v6) + if a.V6? == v6 then [a] else []
  {
    if addrs != [] {
      OfFamilySnoc(addrs[1..], a, v6);
      assert (addrs + [a])[1..] == addrs[1..] + [a];
    } else {
      assert [a][1..] == [];
    }
  }

  lemma {:induction false} OfFamilyMember(addrs: seq<Ip>, v6: bool, a: Ip)
    ensures a in OfFamily(addrs, v6) <==> a in addrs && a.V6? == v6
  {
    if addrs != [] { OfFamilyMember(addrs[1..], v6, a); }
  }
}
