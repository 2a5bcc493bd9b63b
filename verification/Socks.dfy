/** SOCKS5 messages: the bytes of addresses, requests, replies and UDP headers (RFC 1928
    sections 3 to 7) and of the username/password subnegotiation (RFC 1929 section 2). */
module Socks {
  import opened Text
  import opened Utf8

  const SOCKS_VERSION: byte := 0x05
  const AUTH_NONE: byte := 0x00
  const AUTH_PASSWORD: byte := 0x02
  const AUTH_NO_ACCEPTABLE: byte := 0xFF
  const CMD_CONNECT: byte := 0x01
  const ATYP_IPV4: byte := 0x01
  const ATYP_DOMAIN: byte := 0x03
  const ATYP_IPV6: byte := 0x04
  const REPLY_SUCCESS: byte := 0x00
  const REPLY_HOST_UNREACHABLE: byte := 0x04
  const REPLY_COMMAND_NOT_SUPPORTED: byte := 0x07
  const REPLY_ADDRESS_TYPE_NOT_SUPPORTED: byte := 0x08
  const SUBNEG_VERSION: byte := 0x01
  const AUTH_SUCCESS: byte := 0x00
  const AUTH_FAILURE: byte := 0x01
  const MAX_DOMAIN_LENGTH: nat := 253
  const MAX_LABEL_LENGTH: nat := 63

  // ---------------------------------------------------------------------------
  // Addresses

  datatype TargetAddr =
    | Ipv4(ip: seq<byte>, port: u16)
    | Ipv6(ip: seq<byte>, port: u16)
    | Domain(name: seq<byte>, port: u16)

  /** What the types of the program guarantee: array lengths, and names that are UTF-8 text. */
  predicate WellTyped(t: TargetAddr) {
    match t
    case Ipv4(ip, _) => |ip| == 4
    case Ipv6(ip, _) => |ip| == 16
    case Domain(name, _) => ValidUtf8(name)
  }

  predicate Encodable(t: TargetAddr) { WellTyped(t) && (t.Domain? ==> |t.name| <= 255) }

  function PortBytes(p: u16): seq<byte> { [p / 256, p % 256] }

  function PortOf(hi: byte, lo: byte): u16 { hi * 256 + lo }

  /** Address type, address and port. */
  function AddrBytes(t: TargetAddr): seq<byte>
    requires Encodable(t)
  {
    match t
    case Ipv4(ip, port) => [ATYP_IPV4] + ip + PortBytes(port)
    case Ipv6(ip, port) => [ATYP_IPV6] + ip + PortBytes(port)
    case Domain(name, port) => [ATYP_DOMAIN, |name|] + name + PortBytes(port)
  }

  /** How long the encoding is, as far as the bytes so far tell; 0 for an unknown address type. */
  function AddrLength(s: seq<byte>): nat {
    if s == [] then 0
    else if s[0] == ATYP_IPV4 then 7
    else if s[0] == ATYP_IPV6 then 19
    else if s[0] == ATYP_DOMAIN then (if |s| < 2 then 2 else s[1] as int + 4)
    else 0
  }

  /** A complete address starts `s`. */
  predicate StartsWithAddr(s: seq<byte>) {
    && 0 < AddrLength(s) <= |s|
    && (s[0] == ATYP_DOMAIN ==> ValidUtf8(s[2..AddrLength(s) - 2]))
  }

  function AddrOf(s: seq<byte>): (t: TargetAddr)
    requires StartsWithAddr(s)
    ensures Encodable(t)
  {
    var n := AddrLength(s);
    var port := PortOf(s[n - 2], s[n - 1]);
    if s[0] == ATYP_IPV4 then Ipv4(s[1..5], port)
    else if s[0] == ATYP_IPV6 then Ipv6(s[1..17], port)
    else Domain(s[2..n - 2], port)
  }

  /** The bytes on the wire, in numbers: ports high byte first, address types 1, 4 and 3, a name
      behind its length, and two zero bytes and the fragment number in front of a datagram's address. */
  lemma WireForm(ip4: seq<byte>, ip6: seq<byte>, name: seq<byte>, port: u16, frag: byte)
    requires |ip4| == 4 && |ip6| == 16 && ValidUtf8(name) && |name| <= 255
    ensures |PortBytes(port)| == 2 && PortBytes(port)[0] as int * 256 + PortBytes(port)[1] as int == port
    ensures AddrBytes(Ipv4(ip4, port)) == [1] + ip4 + PortBytes(port)
    ensures AddrBytes(Ipv6(ip6, port)) == [4] + ip6 + PortBytes(port)
    ensures AddrBytes(Domain(name, port)) == [3, |name|] + name + PortBytes(port)
    ensures Serialize(UdpHeader(frag, Ipv4(ip4, port))) == [0, 0, frag] + ([1] + ip4 + PortBytes(port))
  {
    hide ValidUtf8;
  }

  /** Where the parts of an encoded address lie. */
  lemma Layout(head: seq<byte>, body: seq<byte>, port: u16, rest: seq<byte>)
    ensures var s, n := head + body + PortBytes(port) + rest, |head| + |body|;
      && s[..|head|] == head && s[|head|..n] == body
      && s[n] == port / 256 && s[n + 1] == port % 256
  {
  }

  /** Decoding undoes encoding, and reads nothing past the address. */
  lemma AddrRoundTrip(t: TargetAddr, rest: seq<byte>)
    requires Encodable(t)
    ensures var s := AddrBytes(t) + rest;
      StartsWithAddr(s) && AddrLength(s) == |AddrBytes(t)| && AddrOf(s) == t
  {
    hide ValidUtf8, PortOf;
    PortRoundTrip(t.port);
    var s := AddrBytes(t) + rest;
    var head := if t.Ipv4? then [ATYP_IPV4] else if t.Ipv6? then [ATYP_IPV6] else [ATYP_DOMAIN, |t.name|];
    Layout(head, if t.Domain? then t.name else t.ip, t.port, rest);
    assert s[0] == s[..|head|][0];
    if t.Domain? { assert s[1] == s[..|head|][1]; }
  }

  lemma PortRoundTrip(p: u16)
    ensures PortOf(p / 256, p % 256) == p
  {
  }

  lemma PortReencodes(hi: byte, lo: byte)
    ensures PortBytes(PortOf(hi, lo)) == [hi, lo]
  {
    var h: int, l: int := hi, lo;
    assert (h * 256 + l) / 256 == h && (h * 256 + l) % 256 == l;
  }

  lemma ThreeParts(s: seq<byte>, i: nat, j: nat, n: nat)
    requires i <= j && j + 2 == n <= |s|
    ensures s[..i] + s[i..j] + [s[j], s[j + 1]] == s[..n]
  {
  }

  /** Encoding what was decoded gives back the bytes. */
  lemma AddrReencodes(s: seq<byte>)
    requires StartsWithAddr(s)
    ensures AddrBytes(AddrOf(s)) == s[..AddrLength(s)]
  {
    hide ValidUtf8, PortOf, PortBytes;
    var n, t := AddrLength(s), AddrOf(s);
    PortReencodes(s[n - 2], s[n - 1]);
    if t.Domain? {
      assert s[..2] == [ATYP_DOMAIN, |t.name|];
      ThreeParts(s, 2, n - 2, n);
    } else {
      assert s[..1] == [s[0]];
      ThreeParts(s, 1, n - 2, n);
    }
  }

  // ---------------------------------------------------------------------------
  // UDP headers

  datatype UdpHeader = UdpHeader(frag: byte, target: TargetAddr)

  /** Two reserved bytes, fragment number, address. */
  function Serialize(h: UdpHeader): seq<byte>
    requires Encodable(h.target)
  {
    [0x00, 0x00, h.frag] + AddrBytes(h.target)
  }

  datatype Parsed = Parsed(header: UdpHeader, length: nat)

  datatype ParseError = TooShort | BadEncoding | UnknownAddressType

  /** The datagram with its reserved bytes zeroed, which the parser does not look at. */
  function Normalized(data: seq<byte>): seq<byte>
    requires |data| >= 2
  {
    [0x00, 0x00] + data[2..]
  }

  /** Whatever header the datagram starts with is the result. */
  ghost predicate Recognizes(data: seq<byte>, r: Result<Parsed, ParseError>) {
    forall h: UdpHeader, payload: seq<byte> {:trigger Serialize(h) + payload} ::
      Encodable(h.target) && |data| >= 2 && Normalized(data) == Serialize(h) + payload ==>
        r == Ok(Parsed(h, |Serialize(h)|))
  }

  /** What the parser promises: only headers that start the datagram, and every such header. */
  ghost predicate ParsedWell(data: seq<byte>, r: Result<Parsed, ParseError>) {
    && (r.Ok? ==>
          && Encodable(r.value.header.target)
          && r.value.length == |Serialize(r.value.header)| <= |data|
          && Serialize(r.value.header) == Normalized(data)[..r.value.length])
    && Recognizes(data, r)
  }

  /** Accepts exactly the datagrams that start with some header, reserved bytes aside, and returns
      that header with its length. */
  method Parse(data: seq<byte>) returns (r: Result<Parsed, ParseError>)
    ensures ParsedWell(data, r)
  {
    hide ValidUtf8, ParsedWell, PortOf;
    if |data| < 4 {
      Rejects(data, TooShort);
      return Err(TooShort);
    }
    ghost var s := data[3..];
    var frag, atyp := data[2], data[3];
    var offset: nat := 4;
    var target: TargetAddr;
    if atyp == ATYP_IPV4 {
      if |data| < offset + 6 {
        Rejects(data, TooShort);
        return Err(TooShort);
      }
      var ip := data[offset..offset + 4];
      Shifted(data, 1, 5);
      offset := offset + 4;
      var port := PortOf(data[offset], data[offset + 1]);
      offset := offset + 2;
      target := Ipv4(ip, port);
    } else if atyp == ATYP_DOMAIN {
      if |data| < offset + 1 {
        Rejects(data, TooShort);
        return Err(TooShort);
      }
      var len: nat := data[offset];
      offset := offset + 1;
      if |data| < offset + len + 2 {
        Rejects(data, TooShort);
        return Err(TooShort);
      }
      var name := data[offset..offset + len];
      Shifted(data, 2, len + 2);
      if !ValidUtf8(name) {
        Rejects(data, BadEncoding);
        return Err(BadEncoding);
      }
      offset := offset + len;
      var port := PortOf(data[offset], data[offset + 1]);
      offset := offset + 2;
      target := Domain(name, port);
    } else if atyp == ATYP_IPV6 {
      if |data| < offset + 18 {
        Rejects(data, TooShort);
        return Err(TooShort);
      }
      var ip := data[offset..offset + 16];
      Shifted(data, 1, 17);
      offset := offset + 16;
      var port := PortOf(data[offset], data[offset + 1]);
      offset := offset + 2;
      target := Ipv6(ip, port);
    } else {
      Rejects(data, UnknownAddressType);
      return Err(UnknownAddressType);
    }
    assert AddrOf(s) == target && offset == 3 + AddrLength(s);
    Accepts(data);
    return Ok(Parsed(UdpHeader(frag, target), offset));
  }

  lemma Shifted(data: seq<byte>, i: nat, j: nat)
    requires i <= j && j + 3 <= |data|
    ensures data[i + 3..j + 3] == data[3..][i..j]
  {
    var s := data[3..];
    var a, b := data[i + 3..j + 3], s[i..j];
    assert |a| == |b| == j - i;
    assert forall k :: 0 <= k < j - i ==> a[k] == data[i + 3 + k] == s[i + k] == b[k];
    assert a == b;
  }

  lemma Rejects(data: seq<byte>, e: ParseError)
    requires |data| < 4 || !StartsWithAddr(data[3..])
    ensures ParsedWell(data, Err(e))
  {
    hide Recognizes;
    OnlyStarts(data, Err(e));
  }

  lemma Accepts(data: seq<byte>)
    requires |data| >= 4 && StartsWithAddr(data[3..])
    ensures ParsedWell(data, Ok(Parsed(UdpHeader(data[2], AddrOf(data[3..])), 3 + AddrLength(data[3..]))))
  {
    hide Recognizes, AddrBytes, AddrOf, AddrLength, StartsWithAddr;
    var s := data[3..];
    var h, n := UdpHeader(data[2], AddrOf(s)), AddrLength(s);
    OnlyStarts(data, Ok(Parsed(h, 3 + n)));
    AddrReencodes(s);
    AddrFits(s);
    assert Serialize(h) == Normalized(data)[..3 + n];
  }

  lemma AddrFits(s: seq<byte>)
    requires StartsWithAddr(s)
    ensures AddrLength(s) <= |s|
  {
  }

  /** A datagram starts with a header exactly when an address follows its third byte. */
  lemma OnlyStarts(data: seq<byte>, r: Result<Parsed, ParseError>)
    requires r.Err? ==> |data| < 4 || !StartsWithAddr(data[3..])
    requires r.Ok? ==>
      && |data| >= 4 && StartsWithAddr(data[3..])
      && r.value == Parsed(UdpHeader(data[2], AddrOf(data[3..])), 3 + AddrLength(data[3..]))
    ensures Recognizes(data, r)
  {
    forall h: UdpHeader, payload: seq<byte> | Encodable(h.target) && |data| >= 2 && Normalized(data) == Serialize(h) + payload
      ensures r == Ok(Parsed(h, |Serialize(h)|))
    {
      hide AddrBytes, AddrOf, AddrLength, StartsWithAddr, Serialize, Normalized;
      HeaderParts(data, h, payload);
      AddrRoundTrip(h.target, payload);
    }
  }

  lemma HeaderParts(data: seq<byte>, h: UdpHeader, payload: seq<byte>)
    requires Encodable(h.target) && |data| >= 2 && Normalized(data) == Serialize(h) + payload
    ensures |data| >= 4 && data[2] == h.frag && data[3..] == AddrBytes(h.target) + payload
    ensures |Serialize(h)| == 3 + |AddrBytes(h.target)|
  {
    hide ValidUtf8;
    var s := Serialize(h) + payload;
    assert |AddrBytes(h.target)| > 1;
    assert s[2] == h.frag && Normalized(data)[2] == data[2];
    assert s[3..] == AddrBytes(h.target) + payload;
    assert Normalized(data)[3..] == data[3..];
  }

  /** The round trip as a statement about `Serialize`: a header is determined by any datagram it
      starts, whatever payload follows. */
  lemma HeaderUnambiguous(h: UdpHeader, payload: seq<byte>, h': UdpHeader, payload': seq<byte>)
    requires Encodable(h.target) && Encodable(h'.target)
    requires Serialize(h) + payload == Serialize(h') + payload'
    ensures h == h' && payload == payload'
  {
    hide AddrBytes, AddrOf, AddrLength, StartsWithAddr;
    var s, s' := Serialize(h) + payload, Serialize(h') + payload';
    assert s[2] == h.frag && s'[2] == h'.frag;
    assert s[3..] == AddrBytes(h.target) + payload && s'[3..] == AddrBytes(h'.target) + payload';
    AddrRoundTrip(h.target, payload);
    AddrRoundTrip(h'.target, payload');
    assert payload == s[|Serialize(h)|..] && payload' == s'[|Serialize(h')|..];
  }
}
