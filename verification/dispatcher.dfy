/** `handleConn` of main.go and of server/server.go: what the proxy does
    with the first read of a new connection. The first two octets select a
    tunnel handshake, a command handshake, or HTTP routing on the request
    line; an HTTP request is answered with a fixed response, handed to the
    tunnel path, or rewritten and sent to the backend it names.

    The two files differ only in the choices a `Dialect` records, so both
    are one function here. */
module Dispatcher {
  import opened Base
  import opened Frames
  import opened ProxyTypes
  import opened RequestLine
  import opened Rewrite
  import Handshake

  const BadRequest: string := "HTTP/1.1 400 Bad Request\r\n\r\n"
  const NotFound: string := "HTTP/1.1 404 Not Found\r\n\r\n"
  const InternalServerError: string := "HTTP/1.1 500 Internal Server Error\r\n\r\n"

  /** Size of the buffer the first read fills (`reqBufferSize`). */
  const BufferSize: nat := 2048

  /** Site names served by the proxy itself; both handlers write 404. */
  predicate Reserved(name: string) {
    name == "" || name == "favicon.ico"
  }

  /** The choices in which the drafts differ. `tunnel` is the tunnel magic,
      `command` the command magic if the draft has one; `padBody` passes
      the whole buffer after the magic (`reqBuf[2:]`) instead of the bytes
      read (`reqBuf[2:n]`); `asWrittenRewrite` strips by first occurrence
      and builds the Forwarded field without '='. */
  datatype Dialect = Dialect(tunnel: seq<byte>, command: Option<seq<byte>>, padBody: bool, asWrittenRewrite: bool)

  /** main.go as written. */
  const MainAsWritten: Dialect := Dialect(TunnelHeaderAsWritten, Some(CommandHeader), true, true)

  /** server/server.go as written: the magic is compared as the 16-bit
      value 31623 and there is no command handshake. */
  const ServerAsWritten: Dialect := Dialect(TunnelHeader, None, true, true)

  /** The documented behaviour: the magics of the protocol comment, the
      bytes actually read, and the positional strip with a `for=` field. */
  const Intended: Dialect := Dialect(TunnelHeader, Some(CommandHeader), false, false)

  /** How the first read is classified. */
  datatype Class = TooShort | TunnelFrame | CommandFrame | Http

  function Classify(d: Dialect, buf: seq<byte>): (c: Class)
    ensures c == TooShort <==> |buf| < 2
    ensures c == TunnelFrame <==> |buf| >= 2 && buf[..2] == d.tunnel
    ensures c == CommandFrame ==> d.command.Some? && buf[..2] == d.command.value
  {
    if |buf| < 2 then TooShort
    else if buf[..2] == d.tunnel then TunnelFrame
    else if d.command.Some? && buf[..2] == d.command.value then CommandFrame
    else Http
  }

  /** With the documented magics each frame kind is recognised exactly by
      its own two octets, and everything else of two octets or more is
      HTTP. */
  lemma ClassifyIntended(buf: seq<byte>)
    ensures Classify(Intended, buf) == CommandFrame <==> |buf| >= 2 && buf[..2] == CommandHeader
    ensures Classify(Intended, buf) == Http <==>
      |buf| >= 2 && buf[..2] != TunnelHeader && buf[..2] != CommandHeader
  {
    MagicValues();
  }

  /** server/server.go reads the two octets as a big-endian 16-bit value
      and compares it with 31623; that is the same test as comparing the
      octets with the documented tunnel magic. */
  lemma SixteenBitMagic(buf: seq<byte>)
    requires |buf| >= 2
    ensures BigEndian16(buf[0], buf[1]) == 31623 <==> Classify(ServerAsWritten, buf) == TunnelFrame
  {
    MagicValues();
    if BigEndian16(buf[0], buf[1]) == 31623 {
      assert buf[0] == 0x7B && buf[1] == 0x87;
      assert buf[..2] == [buf[0], buf[1]];
    }
  }

  /** What the connection handler does next. */
  datatype Action =
    | Close                                            // the read failed: nothing is written
    | Reply(text: string)                              // a fixed response, then close
    | TunnelHandshake(body: seq<byte>)                 // `createTunnel` on the bytes after the magic
    | CommandHandshake(body: seq<byte>)                // `serveCommand` on the bytes after the magic
    | AwaitTunnel(name: string, req: string)           // `serveTunnel` with the rewritten request
    | Dial(addr: string, secure: bool, req: string)    // connect to the backend and send the request

  /** The bytes after the magic handed to a handshake: with `padBody` the
      rest of the 2048-octet buffer, whose unread tail is zero. */
  function HandshakeBody(d: Dialect, buf: seq<byte>): (body: seq<byte>)
    requires 2 <= |buf| <= BufferSize
    ensures d.padBody ==> |body| == BufferSize - 2 && body[..|buf| - 2] == buf[2..]
    ensures !d.padBody ==> body == buf[2..]
  {
    if d.padBody then buf[2..] + seq(BufferSize - |buf|, _ => 0) else buf[2..]
  }

  /** The request sent on for a registered site. */
  function Rewritten(d: Dialect, req: string, name: string, peer: string): (r: string)
    requires SiteName(req) == Some(name)
  {
    if d.asWrittenRewrite then RewriteRequestAsWritten(req, name, peer) else RewriteRequest(req, name, peer)
  }

  /** Routing of a request line against the registry, for a client at
      `peer`. */
  function RouteHttp(d: Dialect, req: string, servers: ServerTable, peer: string): (a: Action)
    ensures a.Reply? || a.AwaitTunnel? || a.Dial?
    ensures a.Reply? ==> a.text == BadRequest || a.text == NotFound
    ensures a.Reply? && a.text == BadRequest <==> SiteName(req).None?
    ensures a.Dial? || a.AwaitTunnel? ==>
      SiteName(req).Some? && !Reserved(SiteName(req).value) && SiteName(req).value in servers
  {
    match SiteName(req)
    case None => Reply(BadRequest)
    case Some(name) =>
      if Reserved(name) then Reply(NotFound)
      else if name !in servers then Reply(NotFound)
      else
        var info := servers[name];
        var fwd := Rewritten(d, req, name, peer);
        if info.tunnel then AwaitTunnel(name, fwd) else Dial(info.addr, info.secure, fwd)
  }

  /** `handleConn` after its first read; None is a failed or timed-out
      read. */
  function HandleConn(d: Dialect, read: Option<seq<byte>>, servers: ServerTable, peer: string): (a: Action)
    requires read.Some? ==> |read.value| <= BufferSize
    ensures a.Close? <==> read.None?
    ensures a.TunnelHandshake? <==> read.Some? && Classify(d, read.value) == TunnelFrame
    ensures a.CommandHandshake? <==> read.Some? && Classify(d, read.value) == CommandFrame
  {
    match read
    case None => Close
    case Some(buf) =>
      match Classify(d, buf)
      case TooShort => Reply(BadRequest)
      case TunnelFrame => TunnelHandshake(HandshakeBody(d, buf))
      case CommandFrame => CommandHandshake(HandshakeBody(d, buf))
      case Http => RouteHttp(d, Text(buf), servers, peer)
  }

  /** What follows a dial: `connected` is whether the dial succeeded and
      `sent` whether writing the rewritten request to the backend did. When
      either fails the client gets 500; otherwise the two connections are
      piped (None). */
  function AfterDial(connected: bool, sent: bool): (r: Option<string>)
    ensures r.None? <==> connected && sent
    ensures r.Some? ==> r.value == InternalServerError
  {
    if !connected then Some(InternalServerError)
    else if !sent then Some(InternalServerError)
    else None
  }

  // ---------------------------------------------------------------------
  // Properties
  // ---------------------------------------------------------------------

  /** Fewer than two octets read: exactly the 400 response. */
  lemma TooShortIsBadRequest(d: Dialect, buf: seq<byte>, servers: ServerTable, peer: string)
    requires |buf| < 2
    ensures HandleConn(d, Some(buf), servers, peer) == Reply(BadRequest)
  {
  }

  /** A request line that does not match the pattern gets the 400
      response and nothing else happens. */
  lemma UnmatchedIsBadRequest(d: Dialect, buf: seq<byte>, servers: ServerTable, peer: string)
    requires |buf| <= BufferSize && Classify(d, buf) == Http && SiteName(Text(buf)).None?
    ensures HandleConn(d, Some(buf), servers, peer) == Reply(BadRequest)
  {
  }

  /** Reserved site names get 404 whatever the registry holds: they are
      answered before any lookup. */
  lemma ReservedNeedsNoLookup(d: Dialect, req: string, s1: ServerTable, s2: ServerTable, peer: string)
    requires SiteName(req).Some? && Reserved(SiteName(req).value)
    ensures RouteHttp(d, req, s1, peer) == RouteHttp(d, req, s2, peer) == Reply(NotFound)
  {
  }

  /** An unregistered site name gets 404 and nothing is dialled. */
  lemma UnregisteredIsNotFound(d: Dialect, req: string, servers: ServerTable, peer: string)
    requires SiteName(req).Some? && SiteName(req).value !in servers
    ensures RouteHttp(d, req, servers, peer) == Reply(NotFound)
  {
  }

  /** A registered backend is reached with the rewritten request: a tunnel
      through the tunnel path, any other backend by dialling its address
      with its own TLS setting. */
  lemma RegisteredIsForwarded(d: Dialect, req: string, servers: ServerTable, peer: string)
    requires SiteName(req).Some? && !Reserved(SiteName(req).value) && SiteName(req).value in servers
    ensures var name := SiteName(req).value;
      var info := servers[name];
      var a := RouteHttp(d, req, servers, peer);
      (info.tunnel ==> a == AwaitTunnel(name, Rewritten(d, req, name, peer))) &&
      (!info.tunnel ==> a == Dial(info.addr, info.secure, Rewritten(d, req, name, peer)))
  {
  }

  /** Under the intended behaviour a routed request reaches the backend as
      "M /rest HTTP…" with the client's `for=` field before the blank
      line. */
  lemma IntendedForwarding(req: string, verb: string, name: string, rest: string, after: string,
                           servers: ServerTable, peer: string)
    requires MatchesWith(req, verb, name, rest, after)
    requires !Reserved(name) && name in servers && !servers[name].tunnel
    ensures SiteName(req) == Some(name)
    ensures RouteHttp(Intended, req, servers, peer) ==
      Dial(servers[name].addr, servers[name].secure,
           InsertField(verb + " /" + (if rest == [] then [] else rest[1..]) + " HTTP" + after, ForwardedField(peer)))
  {
    StripSegmentSpec(req, verb, name, rest, after);
  }

  /** With main.go's magic, a client that sends the documented tunnel
      magic 31623 is not seen as a tunnel: '{' (0x7B) cannot start a
      method, so it gets the 400 response. */
  lemma DocumentedTunnelMagicRejected(body: seq<byte>, servers: ServerTable, peer: string)
    requires 2 + |body| <= BufferSize
    ensures HandleConn(MainAsWritten, Some(TunnelHeader + body), servers, peer) == Reply(BadRequest)
    ensures HandleConn(Intended, Some(TunnelHeader + body), servers, peer) == TunnelHandshake(body)
  {
    var buf := TunnelHeader + body;
    assert buf[..2] == TunnelHeader;
    assert buf[2..] == body;
    var t := Text(buf);
    assert !IsWordChar(t[0]);
    assert WordEnd(t, 0) == 0;
  }

  /** Handing the handshake the whole buffer (`reqBuf[2:]`) appends the
      unread zero octets to the body, so an honest tunnel always fails the
      length check; with the bytes actually read it gets the documented
      handshake. */
  lemma PaddedBodyMismatch(name: seq<byte>, password: seq<byte>, servers: ServerTable)
    requires |name| < 256 && |password| < 256
    ensures var buf := TunnelHeader + Handshake.TunnelBody(name, password);
      Handshake.CreateTunnel(HandshakeBody(MainAsWritten, buf), password, servers)
        == Handshake.TunnelOutcome(ErrorResp(TunnelHeader, Handshake.LengthMismatch), servers, false)
    ensures var buf := TunnelHeader + Handshake.TunnelBody(name, password);
      HandshakeBody(Intended, buf) == Handshake.TunnelBody(name, password)
  {
    var body := Handshake.TunnelBody(name, password);
    var buf := TunnelHeader + body;
    assert buf[2..] == body;
    var extra: seq<byte> := seq(BufferSize - |buf|, _ => 0);
    assert HandshakeBody(MainAsWritten, buf) == body + extra;
    Handshake.TunnelTrailingBytes(name, password, extra, password, servers);
  }
}
