/** The SOCKS version 5 messages a client sends before relaying starts
    (RFC 1928, sections 3 to 6), as pure parsers over the unread part of the
    client stream. Each parser takes exactly the bytes its message occupies
    and hands back the rest; a stream that ends early is an
    `UnexpectedEof` error, as `read_exact` reports it. */
module Wire {
  import opened Bytes

  const SOCKS_VERSION: byte := 0x05
  const RESERVED: byte := 0x00

  /** Authentication methods the server knows of (section 3 of RFC 1928). */
  datatype AuthMethod = NoAuth | UserPass

  function AuthMethodByte(m: AuthMethod): (b: byte)
    ensures m == NoAuth <==> b == 0x00
  {
    match m
    case NoAuth => 0x00
    case UserPass => 0x02
  }

  /** Reply codes the server sends (section 6 of RFC 1928); only success. */
  datatype Rep = Succeeded

  function RepByte(r: Rep): (b: byte)
    ensures r == Succeeded <==> b == 0x00
  {
    match r
    case Succeeded => 0x00
  }

  /** How an I/O operation on a socket failed. */
  datatype IoKind =
    | UnexpectedEof   // `read_exact` met the end of the stream
    | WriteRejected   // the peer no longer accepts bytes
    | LookupFailed    // name resolution reported an error
    | ConnectFailed   // no endpoint accepted the outbound connection

  /** Everything that ends a session early: the two `Socks5Error` variants,
      and the `FromUtf8Error` of a domain name that is not UTF-8. */
  datatype Fault = Io(kind: IoKind) | AddressTypeNotSupported | InvalidUtf8

  /** Address types (section 5 of RFC 1928). */
  datatype Atyp = V4 | Domain | V6

  function AtypByte(a: Atyp): (b: byte)
    ensures AtypFromByte(b) == Ok(a)
  {
    match a
    case V4 => 0x01
    case Domain => 0x03
    case V6 => 0x04
  }

  /** `Atyp::from_u8`: exactly the three tags name an address type. */
  function AtypFromByte(n: byte): (r: Result<Atyp, Fault>)
    ensures r == Ok(V4) <==> n == 0x01
    ensures r == Ok(Domain) <==> n == 0x03
    ensures r == Ok(V6) <==> n == 0x04
    ensures r.Err? <==> n !in {0x01, 0x03, 0x04}
    ensures r.Err? ==> r.error == AddressTypeNotSupported
  {
    match n
    case 0x01 => Ok(V4)
    case 0x03 => Ok(Domain)
    case 0x04 => Ok(V6)
    case _ => Err(AddressTypeNotSupported)
  }

  /** A value read off the front of the stream and what follows it. */
  datatype Parsed<+T> = Parsed(value: T, rest: seq<byte>)

  /** The method-selection message: a version byte, then a count byte and
      that many method identifiers. */
  datatype Greeting = Greeting(version: byte, methods: seq<byte>) {
    predicate Valid() {
      |methods| < 256
    }
  }

  function EncodeGreeting(g: Greeting): (s: seq<byte>)
    requires g.Valid()
  {
    [g.version, |g.methods| as byte] + g.methods
  }

  /** The greeting as the handler reads it: a two-byte header, then exactly
      as many method bytes as the header's second byte says. Neither the
      version nor the methods are checked. */
  function ParseGreeting(s: seq<byte>): (r: Result<Parsed<Greeting>, Fault>)
    ensures r.Ok? <==> |s| >= 2 && |s| >= 2 + s[1] as int
    ensures r.Err? ==> r.error == Io(UnexpectedEof)
    ensures r.Ok? ==> r.value.value.Valid() && |r.value.rest| == |s| - 2 - s[1] as int
  {
    if |s| < 2 then Err(Io(UnexpectedEof))
    else
      var n := s[1] as int;
      if |s| < 2 + n then Err(Io(UnexpectedEof))
      else Ok(Parsed(Greeting(s[0], s[2..2 + n]), s[2 + n..]))
  }

  /** Every greeting, followed by anything, reads back as itself. */
  lemma GreetingRoundTrip(g: Greeting, rest: seq<byte>)
    requires g.Valid()
    ensures ParseGreeting(EncodeGreeting(g) + rest) == Ok(Parsed(g, rest))
  {
    var s := EncodeGreeting(g) + rest;
    assert s[2..2 + |g.methods|] == g.methods;
    assert s[2 + |g.methods|..] == rest;
  }

  /** A greeting that parses is exactly the encoding of what it parsed to,
      so nothing before `rest` is skipped or read twice. */
  lemma GreetingParsedFrom(s: seq<byte>)
    requires ParseGreeting(s).Ok?
    ensures s == EncodeGreeting(ParseGreeting(s).value.value) + ParseGreeting(s).value.rest
  {
    var n := s[1] as int;
    assert s == [s[0], s[1]] + s[2..2 + n] + s[2 + n..];
  }

  /** A connection request (section 4 of RFC 1928) as the handler keeps it:
      the version, command and reserved bytes are read and dropped. */
  datatype Request = Request(atyp: Atyp, addr: seq<byte>, port: u16) {
    /** The address has the length its type gives it. */
    predicate Valid() {
      match atyp
      case V4 => |addr| == 4
      case Domain => |addr| < 256
      case V6 => |addr| == 16
    }
  }

  /** The address field as it appears on the wire: a domain name is
      preceded by its length. */
  function EncodeAddr(atyp: Atyp, addr: seq<byte>): seq<byte>
    requires |addr| < 256
  {
    if atyp == Domain then [|addr| as byte] + addr else addr
  }

  /** The request from the address-type byte on; the three bytes before it
      are not kept. */
  function EncodeRequest(req: Request): (s: seq<byte>)
    requires req.Valid()
  {
    [AtypByte(req.atyp)] + EncodeAddr(req.atyp, req.addr) + U16BeBytes(req.port)
  }

  /** The address field of the given type at the front of `s`. */
  function ParseAddr(atyp: Atyp, s: seq<byte>): (r: Result<Parsed<seq<byte>>, Fault>)
    ensures r.Err? ==> r.error == Io(UnexpectedEof)
    ensures r.Ok? ==> Request(atyp, r.value.value, 0).Valid()
    ensures r.Ok? ==> s == EncodeAddr(atyp, r.value.value) + r.value.rest
  {
    match atyp
    case V4 =>
      if |s| < 4 then Err(Io(UnexpectedEof)) else Ok(Parsed(s[..4], s[4..]))
    case Domain =>
      if |s| < 1 then Err(Io(UnexpectedEof))
      else
        var n := s[0] as int;
        if |s| < 1 + n then Err(Io(UnexpectedEof))
        else
          assert s == [s[0]] + s[1..1 + n] + s[1 + n..];
          Ok(Parsed(s[1..1 + n], s[1 + n..]))
    case V6 =>
      if |s| < 16 then Err(Io(UnexpectedEof)) else Ok(Parsed(s[..16], s[16..]))
  }

  /** `Socks5Req::from_stream`: a four-byte header, the address field of
      the type the fourth byte names, then a big-endian port. */
  function ParseRequest(s: seq<byte>): (r: Result<Parsed<Request>, Fault>)
    ensures |s| < 4 ==> r == Err(Io(UnexpectedEof))
    ensures |s| >= 4 && AtypFromByte(s[3]).Err? ==> r == Err(AddressTypeNotSupported)
    ensures r.Err? ==> r.error in {Io(UnexpectedEof), AddressTypeNotSupported}
    ensures r.Ok? ==> r.value.value.Valid()
  {
    if |s| < 4 then Err(Io(UnexpectedEof))
    else
      match AtypFromByte(s[3])
      case Err(e) => Err(e)
      case Ok(atyp) =>
        match ParseAddr(atyp, s[4..])
        case Err(e) => Err(e)
        case Ok(Parsed(addr, t)) =>
          if |t| < 2 then Err(Io(UnexpectedEof))
          else Ok(Parsed(Request(atyp, addr, U16Be(t[0], t[1])), t[2..]))
  }

  /** A request that parses is its first three bytes, whatever they are,
      then the encoding of the request it parsed to, then the rest. */
  lemma RequestParsedFrom(s: seq<byte>)
    requires ParseRequest(s).Ok?
    ensures s == s[..3] + EncodeRequest(ParseRequest(s).value.value) + ParseRequest(s).value.rest
  {
    var atyp := AtypFromByte(s[3]).value;
    AtypFromByteTag(s[3]);
    var a := ParseAddr(atyp, s[4..]).value;
    var t := a.rest;
    assert ParseRequest(s) == Ok(Parsed(Request(atyp, a.value, U16Be(t[0], t[1])), t[2..]));
    RequestReassembled(s, atyp, a.value, t);
  }

  /** The byte `Atyp::from_u8` accepts is the tag of the type it returns,
      so decoding and encoding the address type are mutual inverses. */
  lemma AtypFromByteTag(n: byte)
    requires AtypFromByte(n).Ok?
    ensures AtypByte(AtypFromByte(n).value) == n
  {
    match AtypFromByte(n).value
    case V4 =>
    case Domain =>
    case V6 =>
  }

  /** The header, the tag, the address field and the port word put back
      together give the request's encoding between header and rest. */
  lemma RequestReassembled(s: seq<byte>, atyp: Atyp, addr: seq<byte>, t: seq<byte>)
    requires |s| >= 4 && s[3] == AtypByte(atyp) && Request(atyp, addr, 0).Valid() && |t| >= 2
    requires s[4..] == EncodeAddr(atyp, addr) + t
    ensures s == s[..3] + EncodeRequest(Request(atyp, addr, U16Be(t[0], t[1]))) + t[2..]
  {
    var pb := U16BeBytes(U16Be(t[0], t[1]));
    assert t == pb + t[2..] by {
      U16BeInjective(pb[0], pb[1], t[0], t[1]);
    }
    var e := EncodeAddr(atyp, addr);
    assert s == s[..3] + [s[3]] + s[4..];
    assert EncodeRequest(Request(atyp, addr, U16Be(t[0], t[1]))) == [s[3]] + e + pb;
    var h, x, r := s[..3], [s[3]], t[2..];
    AppendAssoc(e, pb, r);
    AppendAssoc(h, x, e + pb + r);
    AppendAssoc(x, e + pb, r);
    AppendAssoc(x, e, pb);
    AppendAssoc(h, x + e + pb, r);
  }

  /** Any version, command and reserved byte followed by an encoded request
      and anything else reads back as that request; the parser stops at
      the last port byte. */
  lemma RequestRoundTrip(header: seq<byte>, req: Request, rest: seq<byte>)
    requires |header| == 3 && req.Valid()
    ensures ParseRequest(header + EncodeRequest(req) + rest) == Ok(Parsed(req, rest))
  {
    var s := header + EncodeRequest(req) + rest;
    var addr := EncodeAddr(req.atyp, req.addr);
    var pb := U16BeBytes(req.port);
    assert s[3] == AtypByte(req.atyp);
    assert s[4..] == addr + (pb + rest);
    var t := pb + rest;
    match req.atyp
    case V4 =>
      assert ParseAddr(V4, s[4..]) == Ok(Parsed(req.addr, t));
    case V6 =>
      assert ParseAddr(V6, s[4..]) == Ok(Parsed(req.addr, t));
    case Domain =>
      var u := s[4..];
      assert u[1..1 + |req.addr|] == req.addr;
      assert u[1 + |req.addr|..] == t;
    assert t[2..] == rest;
  }

  /** Every proper prefix of a request (cut in the header, the length
      byte, the address or the port) fails with `UnexpectedEof` and yields
      no request. */
  lemma RequestTruncated(header: seq<byte>, req: Request, k: nat)
    requires |header| == 3 && req.Valid()
    requires k < |header + EncodeRequest(req)|
    ensures ParseRequest((header + EncodeRequest(req))[..k]) == Err(Io(UnexpectedEof))
  {
    var full := header + EncodeRequest(req);
    var s := full[..k];
    if k >= 4 {
      assert s[3] == AtypByte(req.atyp);
      var u := s[4..];
      assert |u| == k - 4;
      if req.atyp == Domain && k >= 5 {
        assert u[0] == |req.addr| as byte;
      }
    }
  }
}
