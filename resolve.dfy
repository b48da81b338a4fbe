/** Turning a parsed request into the endpoints to dial
    (`Socks5Req::as_socket_addr`), and dialing them in order
    (`TcpStream::connect` over a slice of addresses). Name resolution and
    reachability belong to the operating system and the network; they are
    parameters here. */
module Resolve {
  import opened Bytes
  import opened Utf8
  import opened Wire

  /** A socket address: IPv4 octets and a port, or IPv6 segments, a port,
      a flow label and a scope id. */
  datatype Endpoint =
    | V4Endpoint(octets: seq<byte>, port: u16)
    | V6Endpoint(segments: seq<u16>, port: u16, flowinfo: nat, scopeId: nat)

  /** System name resolution of a `host:port` string: the endpoints it
      yields, in its order, or `None` when it reports an error. */
  type Resolver = seq<byte> -> Option<seq<Endpoint>>

  /** The big-endian 16-bit words of an even-length byte string, in order. */
  function Segments(a: seq<byte>): (g: seq<u16>)
    requires |a| % 2 == 0
    ensures |g| == |a| / 2
    ensures forall i :: 0 <= i < |g| ==> g[i] == U16Be(a[2 * i], a[2 * i + 1])
    decreases |a|
  {
    if a == [] then [] else [U16Be(a[0], a[1])] + Segments(a[2..])
  }

  /** The bytes of a word sequence in network byte order. */
  function SegmentsBytes(g: seq<u16>): (a: seq<byte>)
    ensures |a| == 2 * |g|
  {
    if g == [] then [] else U16BeBytes(g[0]) + SegmentsBytes(g[1..])
  }

  /** The eight segments of an IPv6 endpoint give back its sixteen address
      bytes: building the endpoint loses nothing. */
  lemma {:induction false} SegmentsRoundTrip(a: seq<byte>)
    requires |a| % 2 == 0
    ensures SegmentsBytes(Segments(a)) == a
    decreases |a|
  {
    if a != [] {
      SegmentsRoundTrip(a[2..]);
      var g := Segments(a);
      assert g[1..] == Segments(a[2..]);
      var pb := U16BeBytes(g[0]);
      U16BeInjective(pb[0], pb[1], a[0], a[1]);
      assert a == [a[0], a[1]] + a[2..];
    }
  }

  /** `Buf::get_u16` on a slice: the first two bytes as a big-endian word,
      and the slice advanced past them. */
  method GetU16(buf: seq<byte>) returns (w: u16, rest: seq<byte>)
    requires |buf| >= 2
    ensures buf == U16BeBytes(w) + rest
  {
    w := U16Be(buf[0], buf[1]);
    rest := buf[2..];
    var pb := U16BeBytes(w);
    U16BeInjective(pb[0], pb[1], buf[0], buf[1]);
    assert buf == [buf[0], buf[1]] + rest;
  }

  /** The IPv6 branch of `as_socket_addr`: eight `get_u16` calls that
      advance a cursor over the sixteen address bytes. */
  method V6Segments(addr: seq<byte>) returns (segs: seq<u16>)
    requires |addr| == 16
    ensures |segs| == 8
    ensures forall i :: 0 <= i < 8 ==> segs[i] == U16Be(addr[2 * i], addr[2 * i + 1])
  {
    var cursor := addr;
    var s0, s1, s2, s3, s4, s5, s6, s7;
    s0, cursor := GetU16(cursor);
    assert cursor == addr[2..];
    s1, cursor := GetU16(cursor);
    assert cursor == addr[4..];
    s2, cursor := GetU16(cursor);
    assert cursor == addr[6..];
    s3, cursor := GetU16(cursor);
    assert cursor == addr[8..];
    s4, cursor := GetU16(cursor);
    assert cursor == addr[10..];
    s5, cursor := GetU16(cursor);
    assert cursor == addr[12..];
    s6, cursor := GetU16(cursor);
    assert cursor == addr[14..];
    s7, cursor := GetU16(cursor);
    segs := [s0, s1, s2, s3, s4, s5, s6, s7];
  }

  /** The string handed to the resolver for a domain request: the name, a
      colon, and the port in decimal. Splitting it at its last colon gives
      the name and the port back, and the digits are the canonical ones:
      at least one, and no leading zero unless the port is 0. */
  function LookupString(name: seq<byte>, port: u16): (s: seq<byte>)
    ensures |s| > |name| && s[..|name|] == name && s[|name|] == COLON
    ensures forall j :: |name| < j < |s| ==> s[j] != COLON
    ensures AllDigits(s[|name| + 1..]) && DigitsValue(s[|name| + 1..]) == port as nat
    ensures |s| > |name| + 1 && (s[|name| + 1] == ZERO_DIGIT ==> port == 0 && |s| == |name| + 2)
  {
    var digits := Decimal(port as nat);
    DecimalRoundTrip(port as nat);
    var s := name + [COLON] + digits;
    assert s[|name| + 1..] == digits;
    s
  }

  /** The lookup string is text whenever the name is: the colon and the
      digits are ASCII. */
  lemma LookupStringUtf8(name: seq<byte>, port: u16)
    requires ValidUtf8(name)
    ensures ValidUtf8(LookupString(name, port))
  {
    var digits := Decimal(port as nat);
    AsciiIsValid([COLON] + digits);
    ValidConcat(name, [COLON] + digits);
    assert LookupString(name, port) == name + ([COLON] + digits);
  }

  /** `as_socket_addr`: one endpoint built from the raw bytes for IPv4 and
      IPv6, the resolver's endpoints for a domain name. A name that is not
      UTF-8 and a resolver error are failures. */
  function SocketAddrs(req: Request, resolve: Resolver): (r: Result<seq<Endpoint>, Fault>)
    requires req.Valid()
    ensures req.atyp == V4 ==> r == Ok([V4Endpoint(req.addr, req.port)])
    ensures req.atyp == V6 ==>
      && r.Ok? && |r.value| == 1 && r.value[0].V6Endpoint?
      && r.value[0].port == req.port && r.value[0].flowinfo == 0 && r.value[0].scopeId == 0
      && |r.value[0].segments| == 8
      && forall i :: 0 <= i < 8 ==> r.value[0].segments[i] == U16Be(req.addr[2 * i], req.addr[2 * i + 1])
    ensures req.atyp == Domain && !ValidUtf8(req.addr) ==> r == Err(InvalidUtf8)
    ensures req.atyp == Domain && ValidUtf8(req.addr) ==>
      (r.Ok? <==> resolve(LookupString(req.addr, req.port)).Some?) &&
      (r.Ok? ==> r.value == resolve(LookupString(req.addr, req.port)).value) &&
      (r.Err? ==> r.error == Io(LookupFailed))
  {
    match req.atyp
    case V4 => Ok([V4Endpoint(req.addr, req.port)])
    case V6 => Ok([V6Endpoint(Segments(req.addr), req.port, 0, 0)])
    case Domain =>
      if !ValidUtf8(req.addr) then Err(InvalidUtf8)
      else
        match resolve(LookupString(req.addr, req.port))
        case None => Err(Io(LookupFailed))
        case Some(eps) => Ok(eps)
  }

  /** `as_socket_addr` step by step: the V4 endpoint from the four bytes,
      the V6 endpoint through the slice cursor, the domain string built by
      pushing a colon and the port's text onto the name. */
  method AsSocketAddr(req: Request, resolve: Resolver) returns (r: Result<seq<Endpoint>, Fault>)
    requires req.Valid()
    ensures r == SocketAddrs(req, resolve)
  {
    var addr := req.addr;
    var port := req.port;
    match req.atyp
    case V4 =>
      r := Ok([V4Endpoint([addr[0], addr[1], addr[2], addr[3]], port)]);
      assert [addr[0], addr[1], addr[2], addr[3]] == addr;
    case V6 =>
      var segs := V6Segments(addr);
      assert segs == Segments(addr);
      r := Ok([V6Endpoint(segs, port, 0, 0)]);
    case Domain =>
      if !ValidUtf8(addr) {
        return Err(InvalidUtf8);
      }
      var domain := addr;
      domain := domain + [COLON];
      domain := domain + Decimal(port as nat);
      assert domain == LookupString(addr, port);
      match resolve(domain)
      case None => r := Err(Io(LookupFailed));
      case Some(eps) => r := Ok(eps);
  }

  /** The index of the endpoint `TcpStream::connect` ends up connected to:
      it tries the endpoints one after another and stops at the first that
      accepts; with none accepting (or none given) it fails. */
  function Connect(eps: seq<Endpoint>, reachable: Endpoint -> bool): (r: Option<nat>)
    ensures r.Some? ==>
      && r.value < |eps| && reachable(eps[r.value])
      && forall j :: 0 <= j < r.value ==> !reachable(eps[j])
    ensures r.None? ==> forall j :: 0 <= j < |eps| ==> !reachable(eps[j])
    decreases |eps|
  {
    if eps == [] then None
    else if reachable(eps[0]) then Some(0)
    else
      match Connect(eps[1..], reachable)
      case None => None
      case Some(i) => Some(i + 1)
  }
}
