/** One client session from its first byte to the start of relaying
    (`Socks5Handler::init` and `handle_req`), as a function of the bytes
    the client sends: what the server writes back and how the session
    ends. The world outside the client's byte stream is a parameter: the
    resolver, which endpoints accept a connection, and how many replies
    (`takes`) the client receives before it stops reading. */
module Protocol {
  import opened Bytes
  import opened Utf8
  import opened Wire
  import opened Resolve

  /** The method-selection reply: version 5, no authentication. */
  const AUTH_REPLY: seq<byte> := [SOCKS_VERSION, AuthMethodByte(NoAuth)]

  /** The success reply: version 5, succeeded, reserved, IPv4, bound
      address 0.0.0.0 and bound port 0. */
  const SUCCESS_REPLY: seq<byte> := [SOCKS_VERSION, RepByte(Succeeded), RESERVED, AtypByte(V4), 0, 0, 0, 0, 0, 0]

  /** What the session learns from the world outside the client stream. */
  datatype Net = Net(resolve: Resolver, reachable: Endpoint -> bool)

  /** How a session leaves the protocol phase. */
  datatype End =
      /** The success reply went out and the byte relay to `target` starts;
          `payload` is what the client sent after its request. */
    | Relaying(target: Endpoint, payload: seq<byte>)
      /** `handle_req` returned an error and `init` shut the stream down. */
    | Shutdown(fault: Fault)
      /** An `unwrap` panicked; the task ends and drops the stream. */
    | Panicked(fault: Fault)

  /** The bytes written to the client, in order, and how the session ended. */
  datatype Outcome = Outcome(written: seq<byte>, end: End)

  /** Everything from the request on, once the method-selection reply is
      out: parse the request, build its endpoints, dial, then send the
      success reply. */
  function AfterAuth(s: seq<byte>, takes: nat, net: Net): (o: Outcome)
    ensures o.written == [] || o.written == SUCCESS_REPLY
    ensures o.end.Relaying? <==> o.written == SUCCESS_REPLY
    ensures o.end.Relaying? ==> takes >= 1
    ensures o.end.Shutdown? ==> o.end.fault == Io(ConnectFailed) || o.end.fault == Io(WriteRejected)
    ensures o.end.Panicked? ==> o.end.fault != Io(ConnectFailed) && o.end.fault != Io(WriteRejected)
  {
    match ParseRequest(s)
    case Err(e) => Outcome([], Panicked(e))
    case Ok(Parsed(req, payload)) =>
      match SocketAddrs(req, net.resolve)
      case Err(e) => Outcome([], Panicked(e))
      case Ok(eps) =>
        match Connect(eps, net.reachable)
        case None => Outcome([], Shutdown(Io(ConnectFailed)))
        case Some(i) =>
          if takes == 0 then Outcome([], Shutdown(Io(WriteRejected)))
          else Outcome(SUCCESS_REPLY, Relaying(eps[i], payload))
  }

  /** `handle_req`, given the method count from the greeting header:
      `auth` reads the offered methods and answers, then the rest. */
  function HandleReq(nmethods: byte, s: seq<byte>, takes: nat, net: Net): (o: Outcome)
    ensures o.written == [] || o.written == AUTH_REPLY || o.written == AUTH_REPLY + SUCCESS_REPLY
    ensures o.end.Relaying? <==> o.written == AUTH_REPLY + SUCCESS_REPLY
    ensures o.written == [] <==> |s| < nmethods as int || takes == 0
    ensures o.end.Relaying? ==> takes >= 2
    ensures o.end.Shutdown? ==> o.end.fault.Io? && o.end.fault.kind != LookupFailed
  {
    if |s| < nmethods as int then Outcome([], Shutdown(Io(UnexpectedEof)))
    else if takes == 0 then Outcome([], Shutdown(Io(WriteRejected)))
    else
      var o := AfterAuth(s[nmethods..], takes - 1, net);
      Outcome(AUTH_REPLY + o.written, o.end)
  }

  /** The three ways `handle_req` goes once the method count is known: the
      methods cut short, the reply refused, or the request phase after the
      reply. */
  lemma HandleReqCases(nmethods: byte, s: seq<byte>, takes: nat, net: Net)
    ensures |s| < nmethods as int ==> HandleReq(nmethods, s, takes, net) == Outcome([], Shutdown(Io(UnexpectedEof)))
    ensures |s| >= nmethods as int && takes == 0 ==> HandleReq(nmethods, s, takes, net) == Outcome([], Shutdown(Io(WriteRejected)))
    ensures |s| >= nmethods as int && takes > 0 ==>
      var o := AfterAuth(s[nmethods..], takes - 1, net);
      HandleReq(nmethods, s, takes, net) == Outcome(AUTH_REPLY + o.written, o.end)
  {
  }

  /** `init`: the two-byte greeting header, then `handle_req`. */
  function Session(input: seq<byte>, takes: nat, net: Net): (o: Outcome)
    ensures |input| < 2 ==> o == Outcome([], Panicked(Io(UnexpectedEof)))
    ensures o.written == [] || o.written == AUTH_REPLY || o.written == AUTH_REPLY + SUCCESS_REPLY
    ensures o.end.Relaying? <==> o.written == AUTH_REPLY + SUCCESS_REPLY
    ensures o.end.Shutdown? ==> o.end.fault.Io? && o.end.fault.kind != LookupFailed
  {
    if |input| < 2 then Outcome([], Panicked(Io(UnexpectedEof)))
    else HandleReq(input[1], input[2..], takes, net)
  }

  /** The session reads exactly the greeting first: when it is incomplete
      nothing is written, and otherwise the method-selection reply goes out
      and the session carries on with the bytes that follow the greeting. */
  lemma SessionReadsGreeting(input: seq<byte>, takes: nat, net: Net)
    ensures ParseGreeting(input).Err? ==>
      Session(input, takes, net).written == [] && !Session(input, takes, net).end.Relaying?
    ensures ParseGreeting(input).Ok? && takes >= 1 ==>
      var o := AfterAuth(ParseGreeting(input).value.rest, takes - 1, net);
      Session(input, takes, net) == Outcome(AUTH_REPLY + o.written, o.end)
  {
    if ParseGreeting(input).Ok? {
      assert input[2..][input[1]..] == ParseGreeting(input).value.rest;
    }
  }

  /** The reply to the greeting is `[0x05, 0x00]` whatever version byte and
      whatever methods the client offered: the session does not depend on
      them at all. */
  lemma AuthIgnoresOffer(g: Greeting, g': Greeting, rest: seq<byte>, takes: nat, net: Net)
    requires g.Valid() && g'.Valid()
    ensures Session(EncodeGreeting(g) + rest, takes, net) == Session(EncodeGreeting(g') + rest, takes, net)
    ensures takes >= 1 ==> Session(EncodeGreeting(g) + rest, takes, net).written[..2] == [0x05, 0x00]
  {
    GreetingRoundTrip(g, rest);
    GreetingRoundTrip(g', rest);
    SessionReadsGreeting(EncodeGreeting(g) + rest, takes, net);
    SessionReadsGreeting(EncodeGreeting(g') + rest, takes, net);
  }

  /** After a whole greeting from a client that takes a reply, the session is the
      method-selection reply followed by whatever the request brings. */
  lemma GreetedSession(g: Greeting, rest: seq<byte>, takes: nat, net: Net)
    requires g.Valid() && takes >= 1
    ensures var o := AfterAuth(rest, takes - 1, net);
      Session(EncodeGreeting(g) + rest, takes, net) == Outcome(AUTH_REPLY + o.written, o.end)
  {
    GreetingRoundTrip(g, rest);
    SessionReadsGreeting(EncodeGreeting(g) + rest, takes, net);
  }

  /** After a whole request, the session depends only on the endpoints the
      request names and on which of them accept. */
  lemma RequestedSession(header: seq<byte>, req: Request, payload: seq<byte>, takes: nat, net: Net)
    requires |header| == 3 && req.Valid() && takes >= 1
    ensures AfterAuth(header + EncodeRequest(req) + payload, takes, net) ==
      match SocketAddrs(req, net.resolve)
      case Err(e) => Outcome([], Panicked(e))
      case Ok(eps) =>
        match Connect(eps, net.reachable)
        case None => Outcome([], Shutdown(Io(ConnectFailed)))
        case Some(i) => Outcome(SUCCESS_REPLY, Relaying(eps[i], payload))
  {
    RequestRoundTrip(header, req, payload);
  }

  /** What reaches the client is nothing, the method-selection reply, or
      that reply and the success reply; the success reply is written
      exactly when relaying starts, and nothing is written exactly when the
      greeting is incomplete or the client takes no reply at all. */
  lemma SessionWrites(input: seq<byte>, takes: nat, net: Net)
    ensures var o := Session(input, takes, net);
      && (o.written == [] || o.written == AUTH_REPLY || o.written == AUTH_REPLY + SUCCESS_REPLY)
      && (o.end.Relaying? <==> o.written == AUTH_REPLY + SUCCESS_REPLY)
      && (o.written == [] <==> ParseGreeting(input).Err? || takes == 0)
  {
    SessionReadsGreeting(input, takes, net);
    var o := Session(input, takes, net);
    assert AUTH_REPLY != [] && AUTH_REPLY != AUTH_REPLY + SUCCESS_REPLY;
  }

  /** The request phase relays only after a whole request, to the first
      endpoint of the request's list that accepts, with the success reply
      taken by the client; the payload is exactly what follows the request. */
  lemma AfterAuthRelaying(s: seq<byte>, takes: nat, net: Net)
    requires AfterAuth(s, takes, net).end.Relaying?
    ensures takes >= 1 && ParseRequest(s).Ok?
    ensures var p := ParseRequest(s).value;
      && SocketAddrs(p.value, net.resolve).Ok?
      && var eps := SocketAddrs(p.value, net.resolve).value;
      && Connect(eps, net.reachable).Some?
      && AfterAuth(s, takes, net) == Outcome(SUCCESS_REPLY, Relaying(eps[Connect(eps, net.reachable).value], p.rest))
      && s == s[..3] + EncodeRequest(p.value) + p.rest
  {
    RequestParsedFrom(s);
  }

  /** Relaying starts only after a whole greeting and a whole request, to
      the first endpoint of the request's list that accepts, once the client
      has taken both replies; the payload handed to the relay is exactly what
      follows the request. */
  lemma RelayingFollowsRequest(input: seq<byte>, takes: nat, net: Net)
    requires Session(input, takes, net).end.Relaying?
    ensures ParseGreeting(input).Ok? && takes >= 2
    ensures var g := ParseGreeting(input).value;
      && ParseRequest(g.rest).Ok?
      && var p := ParseRequest(g.rest).value;
      && SocketAddrs(p.value, net.resolve).Ok?
      && var eps := SocketAddrs(p.value, net.resolve).value;
      && Connect(eps, net.reachable).Some?
      && Session(input, takes, net).end == Relaying(eps[Connect(eps, net.reachable).value], p.rest)
      && input == EncodeGreeting(g.value) + g.rest[..3] + EncodeRequest(p.value) + p.rest
  {
    RelayingNeedsGreeting(input, takes, net);
    SessionReadsGreeting(input, takes, net);
    var g := ParseGreeting(input).value;
    AfterAuthRelaying(g.rest, takes - 1, net);
    var p := ParseRequest(g.rest).value;
    GreetingParsedFrom(input);
    AppendAssoc(EncodeGreeting(g.value), g.rest[..3] + EncodeRequest(p.value), p.rest);
    AppendAssoc(EncodeGreeting(g.value), g.rest[..3], EncodeRequest(p.value));
  }

  /** A relaying session has read a whole greeting and sent two replies. */
  lemma RelayingNeedsGreeting(input: seq<byte>, takes: nat, net: Net)
    requires Session(input, takes, net).end.Relaying?
    ensures ParseGreeting(input).Ok? && takes >= 2
  {
    assert Session(input, takes, net) == HandleReq(input[1], input[2..], takes, net);
  }

  /** A session whose request names an IPv4 address: the one endpoint is
      those four octets and the port, it is the only one dialed, and the
      session relays to it exactly when it accepts. */
  lemma Ipv4Session(g: Greeting, header: seq<byte>, a: seq<byte>, port: u16, payload: seq<byte>, takes: nat, net: Net)
    requires g.Valid() && |header| == 3 && |a| == 4 && takes >= 2
    ensures var ep := V4Endpoint(a, port);
      Session(EncodeGreeting(g) + (header + EncodeRequest(Request(V4, a, port)) + payload), takes, net) ==
        if net.reachable(ep) then Outcome(AUTH_REPLY + SUCCESS_REPLY, Relaying(ep, payload))
        else Outcome(AUTH_REPLY, Shutdown(Io(ConnectFailed)))
  {
    var req := Request(V4, a, port);
    GreetedSession(g, header + EncodeRequest(req) + payload, takes, net);
    RequestedSession(header, req, payload, takes - 1, net);
  }

  /** A session whose request names an IPv6 address: the one endpoint has
      the eight big-endian words of the sixteen bytes, the port, flow label
      0 and scope 0. */
  lemma Ipv6Session(g: Greeting, header: seq<byte>, a: seq<byte>, port: u16, payload: seq<byte>, takes: nat, net: Net)
    requires g.Valid() && |header| == 3 && |a| == 16 && takes >= 2
    ensures var ep := V6Endpoint(Segments(a), port, 0, 0);
      Session(EncodeGreeting(g) + (header + EncodeRequest(Request(V6, a, port)) + payload), takes, net) ==
        if net.reachable(ep) then Outcome(AUTH_REPLY + SUCCESS_REPLY, Relaying(ep, payload))
        else Outcome(AUTH_REPLY, Shutdown(Io(ConnectFailed)))
  {
    var req := Request(V6, a, port);
    GreetedSession(g, header + EncodeRequest(req) + payload, takes, net);
    RequestedSession(header, req, payload, takes - 1, net);
    var ep := V6Endpoint(Segments(a), port, 0, 0);
    assert SocketAddrs(req, net.resolve) == Ok([ep]);
  }

  /** A domain request the resolver answers: the resolver is asked for
      `name:port`, and the session relays to the first endpoint, in the
      resolver's order, that accepts. */
  lemma DomainRequest(header: seq<byte>, name: seq<byte>, port: u16, payload: seq<byte>,
                      takes: nat, net: Net, eps: seq<Endpoint>)
    requires |header| == 3 && |name| < 256 && ValidUtf8(name) && takes >= 1
    requires net.resolve(LookupString(name, port)) == Some(eps)
    ensures AfterAuth(header + EncodeRequest(Request(Domain, name, port)) + payload, takes, net) ==
      match Connect(eps, net.reachable)
      case None => Outcome([], Shutdown(Io(ConnectFailed)))
      case Some(i) => Outcome(SUCCESS_REPLY, Relaying(eps[i], payload))
  {
    var req := Request(Domain, name, port);
    RequestedSession(header, req, payload, takes, net);
    assert SocketAddrs(req, net.resolve) == Ok(eps);
  }

  /** A resolver error on `name:port` ends a domain request with nothing
      more written. */
  lemma DomainLookupFails(header: seq<byte>, name: seq<byte>, port: u16, payload: seq<byte>, takes: nat, net: Net)
    requires |header| == 3 && |name| < 256 && ValidUtf8(name)
    requires net.resolve(LookupString(name, port)).None?
    ensures AfterAuth(header + EncodeRequest(Request(Domain, name, port)) + payload, takes, net)
      == Outcome([], Panicked(Io(LookupFailed)))
  {
    var req := Request(Domain, name, port);
    RequestRoundTrip(header, req, payload);
    assert SocketAddrs(req, net.resolve) == Err(Io(LookupFailed));
  }

  /** A domain name that is not UTF-8 ends the request with nothing more
      written, before the resolver is asked anything. */
  lemma NonUtf8Domain(header: seq<byte>, name: seq<byte>, port: u16, payload: seq<byte>, takes: nat, net: Net)
    requires |header| == 3 && |name| < 256 && !ValidUtf8(name)
    ensures AfterAuth(header + EncodeRequest(Request(Domain, name, port)) + payload, takes, net)
      == Outcome([], Panicked(InvalidUtf8))
  {
    var req := Request(Domain, name, port);
    RequestRoundTrip(header, req, payload);
    assert SocketAddrs(req, net.resolve) == Err(InvalidUtf8);
  }

  /** An address-type byte other than 1, 3 and 4 ends the session with
      nothing written after the method-selection reply. */
  lemma UnsupportedAtypSession(g: Greeting, s: seq<byte>, takes: nat, net: Net)
    requires g.Valid() && |s| >= 4 && s[3] !in {0x01, 0x03, 0x04} && takes >= 1
    ensures Session(EncodeGreeting(g) + s, takes, net) == Outcome(AUTH_REPLY, Panicked(AddressTypeNotSupported))
  {
    GreetedSession(g, s, takes, net);
  }

  /** A request cut short anywhere ends the session with nothing written
      after the method-selection reply. */
  lemma TruncatedRequestSession(g: Greeting, header: seq<byte>, req: Request, k: nat, takes: nat, net: Net)
    requires g.Valid() && |header| == 3 && req.Valid() && takes >= 1
    requires k < |header + EncodeRequest(req)|
    ensures Session(EncodeGreeting(g) + (header + EncodeRequest(req))[..k], takes, net)
      == Outcome(AUTH_REPLY, Panicked(Io(UnexpectedEof)))
  {
    GreetedSession(g, (header + EncodeRequest(req))[..k], takes, net);
    RequestTruncated(header, req, k);
  }

  /** The exchange of a client that greets with `[5, 1, 0]` and asks for
      127.0.0.1:9999, followed by `ping`. */
  lemma LoopbackExchange(takes: nat, net: Net)
    requires takes >= 2 && net.reachable(V4Endpoint([127, 0, 0, 1], 9999))
    ensures var ping: seq<byte> := [0x70, 0x69, 0x6E, 0x67];
      Session([5, 1, 0, 5, 1, 0, 1, 127, 0, 0, 1, 0x27, 0x0F] + ping, takes, net)
        == Outcome([5, 0, 5, 0, 0, 1, 0, 0, 0, 0, 0, 0], Relaying(V4Endpoint([127, 0, 0, 1], 9999), ping))
  {
    var ping: seq<byte> := [0x70, 0x69, 0x6E, 0x67];
    var h: seq<byte> := [5, 1, 0];
    LoopbackBytes(ping);
    Ipv4Session(Greeting(5, [0]), h, [127, 0, 0, 1], 9999, ping, takes, net);
  }

  /** The bytes of the loopback exchange, piece by piece: the greeting
      `[5, 1, 0]`, the header `[5, 1, 0]`, the IPv4 request for
      127.0.0.1:9999, and the two replies. */
  lemma LoopbackBytes(ping: seq<byte>)
    ensures [5, 1, 0, 5, 1, 0, 1, 127, 0, 0, 1, 0x27, 0x0F] + ping
      == EncodeGreeting(Greeting(5, [0])) + ([5, 1, 0] + EncodeRequest(Request(V4, [127, 0, 0, 1], 9999)) + ping)
    ensures AUTH_REPLY + SUCCESS_REPLY == [5, 0, 5, 0, 0, 1, 0, 0, 0, 0, 0, 0]
  {
    var g := Greeting(5, [0]);
    var req := Request(V4, [127, 0, 0, 1], 9999);
    assert U16BeBytes(9999) == [0x27, 0x0F];
    assert EncodeGreeting(g) == [5, 1, 0];
    var r: seq<byte> := [1, 127, 0, 0, 1, 0x27, 0x0F];
    assert EncodeRequest(req) == r;
    var h: seq<byte> := [5, 1, 0];
    assert [5, 1, 0, 5, 1, 0, 1, 127, 0, 0, 1, 0x27, 0x0F] + ping == h + (h + r + ping);
  }
}
