/** The per-connection handler as the server runs it: a handler object
    over the client stream whose methods read fixed-size chunks, fill in
    the handler's fields and write the replies, step by step. Each method
    is proved to do what the `Protocol` functions say. */
module Handler {
  import opened Bytes
  import opened Wire
  import opened Resolve
  import opened Protocol

  /** The client's TCP stream: the bytes the client sends, how many of them
      the server has read, the bytes the server has written, how many more
      writes the client takes before it stops reading, and whether the
      server shut its side down. */
  class ClientStream {
    const input: seq<byte>
    var pos: nat
    var output: seq<byte>
    var writesLeft: nat
    var shutDown: bool

    ghost predicate Valid()
      reads this
    {
      pos <= |input|
    }

    /** The bytes the client has sent that the server has not read yet. */
    function Unread(): seq<byte>
      reads this
      requires Valid()
    {
      input[pos..]
    }

    constructor (input: seq<byte>, writesLeft: nat)
      ensures Valid() && Unread() == input
      ensures this.input == input && this.writesLeft == writesLeft
      ensures output == [] && !shutDown
    {
      this.input := input;
      this.writesLeft := writesLeft;
      pos := 0;
      output := [];
      shutDown := false;
    }

    /** `read_exact`: exactly `n` bytes, or `UnexpectedEof` once the stream
        ends first (what was there is consumed). */
    method ReadExact(n: nat) returns (r: Result<seq<byte>, Fault>)
      requires Valid()
      modifies this`pos
      ensures Valid()
      ensures n <= |old(Unread())| ==> r == Ok(old(Unread())[..n]) && Unread() == old(Unread())[n..]
      ensures n > |old(Unread())| ==> r == Err(Io(UnexpectedEof)) && Unread() == []
    {
      if pos + n <= |input| {
        assert input[pos..][..n] == input[pos..pos + n];
        r := Ok(input[pos..pos + n]);
        pos := pos + n;
      } else {
        pos := |input|;
        r := Err(Io(UnexpectedEof));
      }
    }

    /** `write_all`: every byte goes out, or none does. */
    method WriteAll(bytes: seq<byte>) returns (r: Result<(), Fault>)
      modifies this`output, this`writesLeft
      ensures r == if old(writesLeft) > 0 then Ok(()) else Err(Io(WriteRejected))
      ensures output == if old(writesLeft) > 0 then old(output) + bytes else old(output)
      ensures writesLeft == if old(writesLeft) > 0 then old(writesLeft) - 1 else 0
    {
      if writesLeft > 0 {
        output := output + bytes;
        writesLeft := writesLeft - 1;
        r := Ok(());
      } else {
        r := Err(Io(WriteRejected));
      }
    }

    /** `shutdown`: the server closes its side of the connection. */
    method Shutdown()
      modifies this`shutDown
      ensures shutDown
    {
      shutDown := true;
    }
  }

  /** `Socks5Req::from_stream`: the four-byte header, the address field of
      the type the fourth byte names (a length byte first for a domain),
      then the port. An unknown address type is an error here; the source
      panics on it at once, which ends the session the same way. */
  method ReadRequest(stream: ClientStream) returns (r: Result<Request, Fault>)
    requires stream.Valid()
    modifies stream`pos
    ensures stream.Valid()
    ensures var p := ParseRequest(old(stream.Unread()));
      && (p.Ok? ==> r == Ok(p.value.value) && stream.Unread() == p.value.rest)
      && (p.Err? ==> r == Err(p.error))
  {
    ghost var s := stream.Unread();
    var first4 := stream.ReadExact(4);
    if first4.Err? {
      return Err(first4.error);
    }
    var atyp := AtypFromByte(first4.value[3]);
    if atyp.Err? {
      return Err(atyp.error);
    }
    assert stream.Unread() == s[4..];
    var addr := ReadAddr(stream, atyp.value);
    if addr.Err? {
      return Err(addr.error);
    }
    var port := stream.ReadExact(2);
    if port.Err? {
      return Err(port.error);
    }
    var p, _ := GetU16(port.value);
    assert p == U16Be(port.value[0], port.value[1]) by {
      var pb := U16BeBytes(p);
      U16BeInjective(pb[0], pb[1], port.value[0], port.value[1]);
    }
    r := Ok(Request(atyp.value, addr.value, p));
  }

  /** The address field of `from_stream`: four bytes, a length byte and
      that many bytes, or sixteen bytes. */
  method ReadAddr(stream: ClientStream, atyp: Atyp) returns (r: Result<seq<byte>, Fault>)
    requires stream.Valid()
    modifies stream`pos
    ensures stream.Valid()
    ensures var p := ParseAddr(atyp, old(stream.Unread()));
      && (p.Ok? ==> r == Ok(p.value.value) && stream.Unread() == p.value.rest)
      && (p.Err? ==> r == Err(p.error))
  {
    match atyp {
      case V4 =>
        r := stream.ReadExact(4);
      case Domain =>
        r := ReadDomain(stream);
      case V6 =>
        r := stream.ReadExact(16);
    }
  }

  /** The domain-name field: a length byte, then that many bytes. */
  method ReadDomain(stream: ClientStream) returns (r: Result<seq<byte>, Fault>)
    requires stream.Valid()
    modifies stream`pos
    ensures stream.Valid()
    ensures var p := ParseAddr(Domain, old(stream.Unread()));
      && (p.Ok? ==> r == Ok(p.value.value) && stream.Unread() == p.value.rest)
      && (p.Err? ==> r == Err(p.error))
  {
    ghost var t := stream.Unread();
    var len := stream.ReadExact(1);
    if len.Err? {
      return Err(len.error);
    }
    var n := len.value[0] as nat;
    assert stream.Unread() == t[1..];
    r := stream.ReadExact(n);
    if r.Ok? {
      assert t[1..][..n] == t[1..1 + n];
      assert t[1..][n..] == t[1 + n..];
    }
  }

  /** `Socks5Handler`: the client stream, and the version byte and method
      count from the greeting header. */
  class Socks5Handler {
    const stream: ClientStream
    var socksVersion: byte
    var authNmethods: byte

    constructor (stream: ClientStream)
      ensures this.stream == stream && socksVersion == 0 && authNmethods == 0
    {
      this.stream := stream;
      socksVersion := 0;
      authNmethods := 0;
    }

    /** `init`: read the greeting header into the handler's fields, run
        `handle_req`, and shut the stream down when it returns an error.
        What reaches the client and how the session ends are exactly what
        `Protocol.Session` says. */
    static method Init(stream: ClientStream, net: Net) returns (end: End)
      requires stream.Valid() && !stream.shutDown
      modifies stream
      ensures stream.Valid()
      ensures var o := Session(old(stream.Unread()), old(stream.writesLeft), net);
        stream.output == old(stream.output) + o.written && end == o.end
      ensures stream.shutDown <==> end.Shutdown?
      ensures end.Relaying? ==> stream.Unread() == end.payload
    {
      var handler := new Socks5Handler(stream);
      var header := stream.ReadExact(2);
      if header.Err? {
        return Panicked(header.error);
      }
      handler.socksVersion := header.value[0];
      handler.authNmethods := header.value[1];
      end := handler.HandleReq(net);
      if end.Shutdown? {
        stream.Shutdown();
      }
    }

    /** `handle_req`: `auth`, the request, its endpoints, the dial and the
        success reply. `Shutdown(e)` stands for returning `Err(e)`, which
        `init` answers by shutting the stream down; `Panicked(e)` for an
        `unwrap` of `Err(e)`. */
    method HandleReq(net: Net) returns (end: End)
      requires stream.Valid()
      modifies stream
      ensures stream.Valid() && stream.shutDown == old(stream.shutDown)
      ensures var o := Protocol.HandleReq(authNmethods, old(stream.Unread()), old(stream.writesLeft), net);
        stream.output == old(stream.output) + o.written && end == o.end
      ensures end.Relaying? ==> stream.Unread() == end.payload
    {
      ghost var s, takes, out := stream.Unread(), stream.writesLeft, stream.output;
      HandleReqCases(authNmethods, s, takes, net);
      var authed := Auth();
      if authed.Err? {
        assert stream.output == out;
        return Shutdown(authed.error);
      }
      assert stream.output == out + AUTH_REPLY;
      end := ServeRequest(net);
      ghost var o := AfterAuth(s[authNmethods..], takes - 1, net);
      AppendAssoc(out, AUTH_REPLY, o.written);
    }

    /** The rest of `handle_req` once `auth` has answered: read the
        request, build its endpoints, dial, and send the success reply.
        What is written and how it ends are what `AfterAuth` says; when
        relaying starts, the bytes still unread are the relay's payload. */
    method ServeRequest(net: Net) returns (end: End)
      requires stream.Valid()
      modifies stream`pos, stream`output, stream`writesLeft
      ensures stream.Valid()
      ensures var o := AfterAuth(old(stream.Unread()), old(stream.writesLeft), net);
        stream.output == old(stream.output) + o.written && end == o.end
      ensures end.Relaying? ==> stream.Unread() == end.payload
    {
      var req := ReadRequest(stream);
      if req.Err? {
        return Panicked(req.error);
      }
      ghost var payload := stream.Unread();
      var addrs := AsSocketAddr(req.value, net.resolve);
      if addrs.Err? {
        return Panicked(addrs.error);
      }
      var target := Connect(addrs.value, net.reachable);
      if target.None? {
        return Shutdown(Io(ConnectFailed));
      }
      var sent := stream.WriteAll(SUCCESS_REPLY);
      if sent.Err? {
        return Shutdown(sent.error);
      }
      end := Relaying(addrs.value[target.value], stream.Unread());
      assert stream.Unread() == payload;
    }

    /** `auth`: read the `authNmethods` offered methods and answer with
        version 5 and no authentication, whatever was offered. */
    method Auth() returns (r: Result<(), Fault>)
      requires stream.Valid()
      modifies stream
      ensures stream.Valid() && stream.shutDown == old(stream.shutDown)
      ensures authNmethods as int > |old(stream.Unread())| ==>
        && r == Err(Io(UnexpectedEof))
        && stream.output == old(stream.output) && stream.writesLeft == old(stream.writesLeft)
      ensures authNmethods as int <= |old(stream.Unread())| ==>
        && stream.Unread() == old(stream.Unread())[authNmethods..]
        && r == (if old(stream.writesLeft) > 0 then Ok(()) else Err(Io(WriteRejected)))
        && stream.output == old(stream.output) + (if old(stream.writesLeft) > 0 then AUTH_REPLY else [])
        && stream.writesLeft == if old(stream.writesLeft) > 0 then old(stream.writesLeft) - 1 else 0
    {
      var methods := stream.ReadExact(authNmethods as nat);
      if methods.Err? {
        return Err(methods.error);
      }
      var response := new byte[2];
      response[0] := SOCKS_VERSION;
      response[1] := AuthMethodByte(NoAuth);
      r := stream.WriteAll(response[..]);
    }
  }
}
