# socks5_rs: the SOCKS5 handshake, modelled in Dafny

This project models the per-connection core of the `socks5_rs` proxy server,
as found in `src/lib.rs`. For each accepted TCP connection,
`Socks5Handler::init`:

1. reads the two-byte method-selection header;
2. reads the offered methods and always answers "version 5, no
   authentication";
3. reads the connection request, with an address of type IPv4, domain name or
   IPv6, and a big-endian port;
4. turns the request into a list of socket addresses;
5. dials them in order;
6. writes the fixed ten-byte success reply and hands both sockets to the byte
   relay.

The messages are those of RFC 1928 (sections 3 to 6).

Modules, from the bottom up:

- `Bytes`: octets and 16-bit words (`u8`, `u16`), the big-endian word that
  `Buf::get_u16` reads, and the decimal text that `u16::to_string` writes.
- `Utf8`: the well-formedness check that `String::from_utf8` applies to a
  domain name, following the table of well-formed byte sequences in section
  3.9 of the Unicode Standard.
- `Wire`: the protocol constants, `Atyp::from_u8`, and the greeting and
  request messages. These are pure parsers over the unread bytes of the client
  stream, each returning its value and the rest. The module also has encoders
  and their round-trip lemmas.
- `Resolve`: `Socks5Req::as_socket_addr` and the dial order of
  `TcpStream::connect` over a slice of addresses. Name resolution and
  reachability are parameters.
- `Protocol`: the whole session as one function of the client's bytes. It
  gives the bytes written back and how the session ends:
  - relaying to a target, with the unconsumed payload;
  - `handle_req` returning an error, so `init` shuts the stream down;
  - an `unwrap` panicking.

  The module also proves the lemmas about sessions.
- `Handler`: the imperative code as the source runs it. It has two classes:
  - `ClientStream`, with `read_exact`, `write_all` and `shutdown`;
  - `Socks5Handler`, with `init`, `handle_req` and `auth`.

  It also has the request reader `from_stream`. Each method is proved to
  produce exactly the output and end state that the `Protocol` and `Wire`
  functions give. When relaying starts, the bytes left unread on the stream
  are exactly the payload that the relay receives.

Three things outside the client's byte stream are parameters:

- `Net.resolve` is the system resolver. It maps a `host:port` string to a
  list of endpoints, or to `None` when resolution fails.
- `Net.reachable` says which endpoints accept a TCP connection.
- `takes` (`ClientStream.writesLeft` in the imperative model) is the number
  of replies the client receives before its side stops accepting bytes.

How a session ends depends on where it stops:

- Failures that `handle_req` propagates with `?` end as `Shutdown`. These
  are: reading the methods, writing either reply, and the dial.
- Failures that reach an `unwrap` end as `Panicked`. These are: the greeting
  header, the request, the UTF-8 check of a domain name, and name resolution.

## Model

| member | source | states |
|---|---|---|
| Bytes.U16Be | src/lib.rs:193-195 | the port word read big-endian: its high octet is the first byte, its low octet the second |
| Bytes.U16BeBytes | src/lib.rs:193-195 | two octets in network order that decode back to the word |
| Bytes.U16BeInjective | src/lib.rs:195 | two octet pairs that give the same word are equal, so reading the port loses nothing |
| Bytes.Decimal | src/lib.rs:218 | the port's text is a non-empty run of ASCII digits with no leading zero; a port of 0 is the single digit `0` |
| Bytes.DecimalRoundTrip | src/lib.rs:218 | the decimal text of a number reads back as that number |
| Utf8.ValidUtf8 | src/lib.rs:216 | the check `String::from_utf8` applies: well-formed text never starts with a continuation byte or with 0xC0, 0xC1 or 0xF5 to 0xFF |
| Utf8.ValidUtf8Bytes | src/lib.rs:216 | the bytes 0xC0, 0xC1 and 0xF5 to 0xFF occur nowhere in text that passes the check |
| Utf8.FirstScalarLength | src/lib.rs:216 | the first encoded scalar is at most four bytes and inside the input; it is one byte exactly when the first byte is ASCII |
| Utf8.FirstScalarLengthAppend | src/lib.rs:216 | bytes appended after a well-formed first scalar do not change where it ends |
| Utf8.AsciiIsValid | src/lib.rs:216-218 | every ASCII string passes the UTF-8 check, so a colon and digits always do |
| Utf8.ValidConcat | src/lib.rs:216-218 | pushing well-formed text onto well-formed text stays well-formed |
| Wire.AuthMethodByte | src/lib.rs:13-19 | the no-authentication method, and only it, is byte 0x00 |
| Wire.RepByte | src/lib.rs:21-29 | the success reply code, and only it, is byte 0x00 |
| Wire.AtypByte | src/lib.rs:133-137 | each address type's tag is read back by `Atyp::from_u8` as that type |
| Wire.AtypFromByteTag | src/lib.rs:140-147 | a byte `Atyp::from_u8` accepts is the tag of the type it returns, so decoding and tagging are mutual inverses |
| Wire.AtypFromByte | src/lib.rs:140-147 | 0x01, 0x03 and 0x04 name IPv4, domain and IPv6, each if and only if; every other byte is `AddressTypeNotSupported` |
| Wire.ParseGreeting | src/lib.rs:80-85 | the greeting parses exactly when the two-byte header and as many method bytes as its second byte says are present; otherwise `UnexpectedEof`; it consumes exactly those bytes |
| Wire.GreetingRoundTrip | src/lib.rs:80-85 | an encoded greeting followed by anything parses back to itself, leaving exactly what followed |
| Wire.GreetingParsedFrom | src/lib.rs:80-85 | a parsed greeting is exactly the encoding of its value followed by the rest, so nothing is skipped |
| Wire.ParseAddr | src/lib.rs:173-191 | the address field has its type's length (4, a length byte then that many, 16) and the input is its encoding followed by the rest; a short stream is `UnexpectedEof` |
| Wire.ParseRequest | src/lib.rs:167-204 | fewer than four bytes is `UnexpectedEof`; an unknown address-type byte is `AddressTypeNotSupported`; no other error; a parsed request has a well-formed address |
| Wire.RequestParsedFrom | src/lib.rs:167-204 | a parsed request is its three ignored header bytes, the encoding of the request, then the rest |
| Wire.RequestRoundTrip | src/lib.rs:167-204 | any three header bytes followed by an encoded request and anything else parse back to that request and exactly what followed |
| Wire.RequestTruncated | src/lib.rs:167-195 | every proper prefix of a request, cut anywhere, fails with `UnexpectedEof` |
| Resolve.Segments | src/lib.rs:222-234 | each IPv6 segment is the big-endian word of the corresponding byte pair |
| Resolve.SegmentsRoundTrip | src/lib.rs:222-238 | the segments of an address give back its bytes, so the IPv6 endpoint is the requested address |
| Resolve.GetU16 | src/lib.rs:226-233 | `get_u16` on a slice returns the word whose big-endian bytes prefix the slice, and the slice after them |
| Resolve.V6Segments | src/lib.rs:223-234 | eight `get_u16` calls over the 16 address bytes yield the eight words in order |
| Resolve.LookupString | src/lib.rs:216-218 | the resolver string is the name, a colon, and digits that denote the port; no colon follows the name's, so splitting at the last colon recovers name and port; the digits are canonical, as `to_string` writes them: at least one, with no leading zero, and exactly `0` for port 0 |
| Resolve.LookupStringUtf8 | src/lib.rs:216-218 | the lookup string is well-formed UTF-8 whenever the name is |
| Resolve.SocketAddrs | src/lib.rs:206-241 | IPv4 gives exactly the one endpoint of its octets and port; IPv6 gives one endpoint of its eight words, the port, flow label 0 and scope 0; a non-UTF-8 name is an error; otherwise the result is the resolver's answer for `name:port`, and its failure is a lookup error |
| Resolve.AsSocketAddr | src/lib.rs:206-241 | the step-by-step conversion (octets copied, cursor over the IPv6 bytes, colon and port text pushed onto the name) equals `SocketAddrs` |
| Resolve.Connect | src/lib.rs:98 | the endpoint connected to accepts and no earlier one in the list does; it fails exactly when none accepts |
| Protocol.AfterAuth | src/lib.rs:95-115 | the request phase writes nothing or exactly the success reply, the latter exactly when relaying starts; relaying needs a reply the client takes; it shuts down only for a failed dial or a refused write, and a panic never carries those two errors |
| Protocol.HandleReq | src/lib.rs:92-118 | `handle_req` writes nothing, the method-selection reply, or both replies, both exactly when relaying starts; it writes nothing exactly when the methods are cut short or no reply is taken; relaying needs two taken replies; it returns an error only for end of stream, a refused write or a failed dial |
| Protocol.Session | src/lib.rs:73-90 | `init` panics with nothing written when the two-byte header is missing; the client receives nothing, one reply or both, both exactly when relaying starts; the stream is shut down only for end of stream, a refused write or a failed dial |
| Protocol.SessionReadsGreeting | src/lib.rs:80-93 | an incomplete greeting writes nothing and never relays; a complete one sends the method-selection reply and continues with the bytes after the greeting |
| Protocol.AuthIgnoresOffer | src/lib.rs:120-130 | for every reply budget the session does not depend on the version byte or on the methods offered; whenever the client takes a reply it begins with `[0x05, 0x00]` |
| Protocol.GreetedSession | src/lib.rs:80-95 | after any whole greeting, the session is the method-selection reply followed by the outcome of the request phase |
| Protocol.RequestedSession | src/lib.rs:95-113 | after a whole request the outcome depends only on the request's endpoints and which of them accept, and the payload is exactly what followed the request |
| Protocol.SessionWrites | src/lib.rs:92-130 | the client receives nothing, the method-selection reply, or both replies; both exactly when relaying starts; nothing exactly when the greeting is incomplete or no reply is taken |
| Protocol.RelayingNeedsGreeting | src/lib.rs:80-98 | a session that relays has read a whole greeting, and its client took both replies |
| Protocol.AfterAuthRelaying | src/lib.rs:95-115 | relaying after authentication implies a whole request, endpoints built, the first accepting endpoint as target, the success reply written, and the payload following the request |
| Protocol.RelayingFollowsRequest | src/lib.rs:73-115 | a relaying session consists of a whole greeting and a whole request followed by the payload; it targets the first accepting endpoint and both replies were taken |
| Protocol.Ipv4Session | src/lib.rs:211-214 | an IPv4 request dials exactly its four octets and port, and relays with both replies when that endpoint accepts, otherwise shuts down after the first |
| Protocol.Ipv6Session | src/lib.rs:222-238 | an IPv6 request dials exactly the endpoint of its eight words, port, flow label 0 and scope 0, relaying when it accepts |
| Protocol.DomainRequest | src/lib.rs:215-220 | a domain request the resolver answers for `name:port` relays to the first accepting endpoint in the resolver's order, or shuts down when none accepts |
| Protocol.DomainLookupFails | src/lib.rs:220 | a resolver error ends the request phase with a panic and nothing more written, whatever the client still takes |
| Protocol.NonUtf8Domain | src/lib.rs:216 | a domain name that is not UTF-8 ends the request phase with a panic and nothing more written, whatever the client still takes |
| Protocol.UnsupportedAtypSession | src/lib.rs:171 | an unknown address type ends the session with `AddressTypeNotSupported` after only the method-selection reply |
| Protocol.TruncatedRequestSession | src/lib.rs:167-195 | a request cut short anywhere ends the session with `UnexpectedEof` after only the method-selection reply |
| Protocol.LoopbackExchange | src/lib.rs:73-115 | a client asking for 127.0.0.1:9999 receives `05 00 05 00 00 01 00 00 00 00 00 00`, and the bytes after its request are relayed |
| Handler.ClientStream.constructor | src/lib.rs:58 | a fresh stream has nothing read, nothing written and is open |
| Handler.ClientStream.ReadExact | src/lib.rs:169 | `read_exact` yields exactly the next n bytes and advances past them, or fails with `UnexpectedEof` when fewer remain |
| Handler.ClientStream.WriteAll | src/lib.rs:127 | `write_all` appends all the bytes when the client accepts one more write, and fails having written nothing otherwise |
| Handler.ClientStream.Shutdown | src/lib.rs:88 | the server's side is shut down |
| Handler.ReadRequest | src/lib.rs:167-204 | `from_stream` returns what `ParseRequest` gives on the unread bytes, and leaves exactly the parser's rest unread |
| Handler.ReadDomain | src/lib.rs:179-185 | the length byte, then exactly that many name bytes, as `ParseAddr` reads a domain field; the stream is left at the parser's rest |
| Handler.ReadAddr | src/lib.rs:173-191 | the address read returns what `ParseAddr` gives and leaves exactly its rest unread |
| Handler.Socks5Handler.constructor | src/lib.rs:74-78 | a new handler holds the stream, with version and method count 0 |
| Handler.Socks5Handler.Init | src/lib.rs:73-90 | the bytes written and the way the session ends are exactly `Session` of the client's bytes; the stream is shut down exactly when `handle_req` failed; when relaying starts, the bytes left unread on the stream are exactly the payload handed to the relay |
| Handler.Socks5Handler.HandleReq | src/lib.rs:92-118 | writes and ends as the `HandleReq` function says for the stored method count; when relaying starts, the stream's unread bytes are exactly the payload |
| Handler.Socks5Handler.ServeRequest | src/lib.rs:95-113 | the part of `handle_req` after `auth` writes and ends as `AfterAuth` says on the unread bytes; when relaying starts, the stream's unread bytes are exactly the payload |
| Handler.Socks5Handler.Auth | src/lib.rs:120-130 | consumes exactly the offered methods and writes `[0x05, 0x00]` when the client takes it; a short stream is `UnexpectedEof` with nothing written |

## Left out

- `Server::new` and `Server::serve` (src/lib.rs:52-63) are not modelled. They bind the listening socket and spawn one task per connection. The model is one connection, and concurrency between connections is not modelled.
- The relay itself, `copy_bidirectional` (src/lib.rs:115), is not modelled. Relaying is the end state of a session, carrying the target and the client bytes not yet consumed. What the relay does with them, and any error it reports, is not modelled.
- Name resolution (`to_socket_addrs`, src/lib.rs:220) and connection establishment (`TcpStream::connect`, src/lib.rs:98) are parameters: a resolver function and a reachability predicate. The precise `io::ErrorKind` values they report are abstracted to `LookupFailed` and `ConnectFailed`.
- Write failures are modelled as a budget: the number of replies the client takes before it stops reading. Partial writes, timeouts and other transport errors are not modelled.
- Reads fail only at the end of the stream. Other read errors, and reads that block, are not modelled.
- `Atyp::from_u8` failing makes `from_stream` panic at once (src/lib.rs:171). The model returns `AddressTypeNotSupported` from the request parser, and the `unwrap` at src/lib.rs:95 turns it into a panic. The outcome is the same panic with the same error, and nothing more is written.
- The `Display` texts of `Socks5Error` (`thiserror`), the unused `Command` enum and the `From` conversions to `u8` are not modelled. The conversions appear only as the byte values they produce.
- Protocol.Ipv4Session, Protocol.Ipv6Session and Protocol.LoopbackExchange assume the client takes at least two replies, and Protocol.DomainRequest assumes it takes at least one. Sessions whose client stops earlier are covered by Protocol.SessionWrites.
- A server following section 3 of RFC 1928 would send 0xFF when no offered method is acceptable. The code instead answers no-authentication whatever was offered, even when nothing was offered, and never checks the version or command bytes. The model follows the code (Protocol.AuthIgnoresOffer).
