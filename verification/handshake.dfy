/** The two binary handshakes of main.go, applied to the bytes that follow
    the two-octet magic: `createTunnel` (a backend behind NAT announces
    itself) and `serveCommand` (add, remove or shutdown over the control
    protocol). Each yields exactly one response frame and a registry delta. */
module Handshake {
  import opened Base
  import opened Frames
  import opened ProxyTypes

  const MalformedRequest: seq<byte> := Raw("malformed request")
  const LengthMismatch: seq<byte> := Raw("content length mismatch")
  const NameExists: seq<byte> := Raw("server name already exists")
  const MalformedJson: seq<byte> := Raw("malformed request json")
  const InvalidServerInfo: seq<byte> := Raw("invalid server info")
  const CannotAddTunnel: seq<byte> := Raw("cannot add tunnel server")

  /** The peer host that may send commands without a password. */
  const Loopback: string := "127.0.0.1"

  // ---------------------------------------------------------------------
  // Tunnel handshake
  // ---------------------------------------------------------------------

  /** What a tunnel sends after the magic, as the protocol comment lays it
      out: [nameLen][passwordLen][name][password]. */
  function TunnelBody(name: seq<byte>, password: seq<byte>): seq<byte>
    requires |name| < 256 && |password| < 256
  {
    [|name|, |password|] + name + password
  }

  /** The backend a successful tunnel handshake registers. */
  function TunnelEntry(name: string): ServerInfo {
    ServerInfo(name, "", true, false)
  }

  /** The reply frame, the registry afterwards, and whether the connection
      is kept to be published as a tunnel. */
  datatype TunnelOutcome = TunnelOutcome(reply: seq<byte>, servers: ServerTable, publish: bool)

  /** `createTunnel`, with the name and password read in the order of the
      documented layout when `swapped` is false, and in the order main.go
      slices them (password compared against the name bytes, name taken from
      the password bytes) when it is true. */
  function CreateTunnelWith(swapped: bool, body: seq<byte>, password: seq<byte>, servers: ServerTable): (r: TunnelOutcome)
    ensures r.publish <==> r.reply == SuccessResp(TunnelHeader)
    ensures !r.publish ==> r.servers == servers
    ensures r.publish ==> exists name :: name !in servers && r.servers == servers[name := TunnelEntry(name)]
    ensures |body| >= 2 && |body| - 2 != body[0] as int + body[1] as int ==>
      r == TunnelOutcome(ErrorResp(TunnelHeader, LengthMismatch), servers, false)
  {
    if |body| < 2 then TunnelOutcome(ErrorResp(TunnelHeader, MalformedRequest), servers, false)
    else
      var nameLen: nat, passwordLen: nat, rest := body[0], body[1], body[2..];
      if |rest| != nameLen + passwordLen then
        TunnelOutcome(ErrorResp(TunnelHeader, LengthMismatch), servers, false)
      else
        var (given, nameBytes) := if swapped then (rest[..nameLen], rest[nameLen..]) else (rest[nameLen..], rest[..nameLen]);
        if given != password then TunnelOutcome(InvalidPasswordResp(TunnelHeader), servers, false)
        else
          var name := Text(nameBytes);
          if name in servers then TunnelOutcome(ErrorResp(TunnelHeader, NameExists), servers, false)
          else TunnelOutcome(SuccessResp(TunnelHeader), servers[name := TunnelEntry(name)], true)
  }

  /** The tunnel handshake as the protocol documents it. */
  function CreateTunnel(body: seq<byte>, password: seq<byte>, servers: ServerTable): TunnelOutcome {
    CreateTunnelWith(false, body, password, servers)
  }

  /** The tunnel handshake with main.go's slicing order. */
  function CreateTunnelAsWritten(body: seq<byte>, password: seq<byte>, servers: ServerTable): TunnelOutcome {
    CreateTunnelWith(true, body, password, servers)
  }

  /** Every reply of the tunnel handshake is a readable response frame. */
  lemma TunnelReplyReadable(body: seq<byte>, password: seq<byte>, servers: ServerTable)
    ensures Decode(TunnelHeader, CreateTunnel(body, password, servers).reply).Some?
  {
    var r := CreateTunnel(body, password, servers);
    if r.publish {
      DecodeEncode(TunnelHeader, Success);
    } else if r.reply == InvalidPasswordResp(TunnelHeader) {
      DecodeEncode(TunnelHeader, InvalidPassword);
    } else if |body| < 2 {
      DecodeEncode(TunnelHeader, Error(MalformedRequest));
    } else if |body[2..]| != body[0] as int + body[1] {
      DecodeEncode(TunnelHeader, Error(LengthMismatch));
    } else {
      DecodeEncode(TunnelHeader, Error(NameExists));
    }
  }

  /** A body shorter than the two length octets is "malformed request". */
  lemma TunnelTooShort(body: seq<byte>, password: seq<byte>, servers: ServerTable)
    requires |body| < 2
    ensures CreateTunnel(body, password, servers) == TunnelOutcome(ErrorResp(TunnelHeader, MalformedRequest), servers, false)
  {
  }

  /** Bytes beyond the declared name and password are "content length
      mismatch", checked before the password. */
  lemma TunnelTrailingBytes(name: seq<byte>, password: seq<byte>, extra: seq<byte>, expected: seq<byte>, servers: ServerTable)
    requires |name| < 256 && |password| < 256 && |extra| > 0
    ensures CreateTunnel(TunnelBody(name, password) + extra, expected, servers)
         == TunnelOutcome(ErrorResp(TunnelHeader, LengthMismatch), servers, false)
  {
    var body := TunnelBody(name, password) + extra;
    assert body[0] == |name| && body[1] == |password|;
    assert |body[2..]| == |name| + |password| + |extra|;
  }

  /** An honest tunnel with the right password and a free name is
      registered as exactly that name and kept for publishing. */
  lemma TunnelAccepted(name: seq<byte>, password: seq<byte>, servers: ServerTable)
    requires |name| < 256 && |password| < 256
    requires Text(name) !in servers
    ensures CreateTunnel(TunnelBody(name, password), password, servers)
         == TunnelOutcome(SuccessResp(TunnelHeader), servers[Text(name) := TunnelEntry(Text(name))], true)
  {
    var body := TunnelBody(name, password);
    assert body[2..][..|name|] == name;
    assert body[2..][|name|..] == password;
  }

  /** A wrong password gets the invalid-password frame and registers
      nothing. */
  lemma TunnelWrongPassword(name: seq<byte>, sent: seq<byte>, password: seq<byte>, servers: ServerTable)
    requires |name| < 256 && |sent| < 256 && sent != password
    ensures CreateTunnel(TunnelBody(name, sent), password, servers)
         == TunnelOutcome(InvalidPasswordResp(TunnelHeader), servers, false)
  {
    var body := TunnelBody(name, sent);
    assert body[2..][|name|..] == sent;
  }

  /** A name that is already registered is refused and the registry is
      left as it was. */
  lemma TunnelNameTaken(name: seq<byte>, password: seq<byte>, servers: ServerTable)
    requires |name| < 256 && |password| < 256
    requires Text(name) in servers
    ensures CreateTunnel(TunnelBody(name, password), password, servers)
         == TunnelOutcome(ErrorResp(TunnelHeader, NameExists), servers, false)
  {
    var body := TunnelBody(name, password);
    assert body[2..][..|name|] == name;
    assert body[2..][|name|..] == password;
  }

  /** With main.go's slicing an honest tunnel whose name differs from the
      password is always told its password is wrong. */
  lemma SwappedSlicesRejectHonestTunnel(name: seq<byte>, password: seq<byte>, servers: ServerTable)
    requires |name| < 256 && |password| < 256 && name != password
    ensures CreateTunnelAsWritten(TunnelBody(name, password), password, servers)
         == TunnelOutcome(InvalidPasswordResp(TunnelHeader), servers, false)
  {
    var body := TunnelBody(name, password);
    assert body[2..][..|name|] == name;
  }

  // ---------------------------------------------------------------------
  // Command handshake
  // ---------------------------------------------------------------------

  /** What a controller sends after the magic:
      [msgLen, 2 octets big-endian][passwordLen][0 pad][message][password]. */
  function CommandBody(msg: seq<byte>, password: seq<byte>): seq<byte>
    requires |msg| < 0x1_0000 && |password| < 256
  {
    [|msg| / 256, |msg| % 256, |password|, 0] + msg + password
  }

  /** Process-level effect of a command. */
  datatype Effect =
    | NoEffect
      /** Close the listener; with `Some(t)` also exit forcibly after `t`
          seconds if draining has not finished. */
    | StopListening(forceExitAfter: Option<nat>)

  datatype CommandOutcome = CommandOutcome(reply: seq<byte>, servers: ServerTable, effect: Effect)

  function CommandError(msg: seq<byte>, servers: ServerTable): CommandOutcome {
    CommandOutcome(ErrorResp(CommandHeader, msg), servers, NoEffect)
  }

  /** The `switch command.Action` of `serveCommand`. */
  function Execute(cmd: Command, servers: ServerTable): (r: CommandOutcome)
    ensures r.effect.StopListening? <==> cmd.action == "shutdown"
    ensures r.servers != servers ==> r.reply == SuccessResp(CommandHeader)
    ensures forall n :: n in r.servers && n in servers ==> r.servers[n] == servers[n]
    ensures forall n :: n in r.servers && n !in servers ==>
      n == cmd.info.name && r.servers[n] == cmd.info && n != "" && cmd.info.addr != "" && !cmd.info.tunnel
  {
    match cmd.action
    case "add" =>
      var info := cmd.info;
      if info.name == "" || info.addr == "" then CommandError(InvalidServerInfo, servers)
      else if info.tunnel then CommandError(CannotAddTunnel, servers)
      else if info.name in servers then CommandError(NameExists, servers)
      else CommandOutcome(SuccessResp(CommandHeader), servers[info.name := info], NoEffect)
    case "remove" =>
      CommandOutcome(SuccessResp(CommandHeader), servers - {cmd.info.name}, NoEffect)
    case "shutdown" =>
      var force := if cmd.shutdownTimeout > 0 then Some(cmd.shutdownTimeout) else None;
      CommandOutcome(SuccessResp(CommandHeader), servers, StopListening(force))
    case _ =>
      CommandError(Raw("invalid action: " + cmd.action), servers)
  }

  /** `serveCommand` with the password length read from body octet
      `passwordLenAt`: 2 in the documented layout, 3 (the pad octet) in
      main.go. */
  function ServeCommandWith(passwordLenAt: nat, body: seq<byte>, password: seq<byte>, peerHost: string,
                            decode: seq<byte> -> Option<Command>, servers: ServerTable): (r: CommandOutcome)
    requires passwordLenAt < 4
    ensures r.servers != servers || r.effect.StopListening? ==>
      |body| >= 4 && 4 + BigEndian16(body[0], body[1]) <= |body| && decode(body[4..4 + BigEndian16(body[0], body[1])]).Some?
    ensures r.servers != servers || r.effect.StopListening? ==> r.reply == SuccessResp(CommandHeader)
    ensures forall n :: n in r.servers && n !in servers ==> !r.servers[n].tunnel
    ensures |body| >= 4 && |body| - 4 != BigEndian16(body[0], body[1]) + body[passwordLenAt] as int ==>
      r == CommandError(LengthMismatch, servers)
  {
    if |body| < 4 then CommandError(MalformedRequest, servers)
    else
      var msgLen: nat, passwordLen: nat, rest := BigEndian16(body[0], body[1]), body[passwordLenAt], body[4..];
      if |rest| != msgLen + passwordLen then CommandError(LengthMismatch, servers)
      else if peerHost != Loopback && rest[msgLen..] != password then
        CommandOutcome(InvalidPasswordResp(CommandHeader), servers, NoEffect)
      else
        assert rest[..msgLen] == body[4..4 + msgLen];
        match decode(rest[..msgLen])
        case None => CommandError(MalformedJson, servers)
        case Some(cmd) => Execute(cmd, servers)
  }

  /** The command handshake as the protocol documents it. */
  function ServeCommand(body: seq<byte>, password: seq<byte>, peerHost: string,
                        decode: seq<byte> -> Option<Command>, servers: ServerTable): CommandOutcome {
    ServeCommandWith(2, body, password, peerHost, decode, servers)
  }

  /** The command handshake reading the password length from the pad octet,
      as main.go does. */
  function ServeCommandAsWritten(body: seq<byte>, password: seq<byte>, peerHost: string,
                                 decode: seq<byte> -> Option<Command>, servers: ServerTable): CommandOutcome {
    ServeCommandWith(3, body, password, peerHost, decode, servers)
  }

  /** A body shorter than its four length octets is "malformed request". */
  lemma CommandTooShort(body: seq<byte>, password: seq<byte>, peerHost: string,
                        decode: seq<byte> -> Option<Command>, servers: ServerTable)
    requires |body| < 4
    ensures ServeCommand(body, password, peerHost, decode, servers) == CommandError(MalformedRequest, servers)
  {
  }

  /** A well-framed command from the loopback host runs whatever password
      it carries; from any other host it runs only with the right
      password, and otherwise gets the invalid-password frame. */
  lemma CommandAuthenticated(msg: seq<byte>, sent: seq<byte>, password: seq<byte>, peerHost: string,
                             decode: seq<byte> -> Option<Command>, servers: ServerTable, cmd: Command)
    requires |msg| < 0x1_0000 && |sent| < 256 && decode(msg) == Some(cmd)
    ensures peerHost == Loopback || sent == password ==>
      ServeCommand(CommandBody(msg, sent), password, peerHost, decode, servers) == Execute(cmd, servers)
    ensures peerHost != Loopback && sent != password ==>
      ServeCommand(CommandBody(msg, sent), password, peerHost, decode, servers)
        == CommandOutcome(InvalidPasswordResp(CommandHeader), servers, NoEffect)
  {
    var body := CommandBody(msg, sent);
    assert BigEndian16(body[0], body[1]) == |msg|;
    assert body[4..][..|msg|] == msg;
    assert body[4..][|msg|..] == sent;
  }

  /** An authenticated, well-framed command whose message does not decode
      gets "malformed request json" and changes nothing. */
  lemma CommandMalformedJson(msg: seq<byte>, sent: seq<byte>, password: seq<byte>, peerHost: string,
                             decode: seq<byte> -> Option<Command>, servers: ServerTable)
    requires |msg| < 0x1_0000 && |sent| < 256 && decode(msg).None?
    requires peerHost == Loopback || sent == password
    ensures ServeCommand(CommandBody(msg, sent), password, peerHost, decode, servers) == CommandError(MalformedJson, servers)
  {
    var body := CommandBody(msg, sent);
    assert BigEndian16(body[0], body[1]) == |msg|;
    assert body[4..][..|msg|] == msg;
    assert body[4..][|msg|..] == sent;
  }

  /** `add` refuses an empty name or address, a tunnel, and a name already
      registered, each with its own message and with the registry unchanged;
      otherwise the registry gains exactly that backend. */
  lemma AddOutcomes(info: ServerInfo, timeout: int, servers: ServerTable)
    ensures var r := Execute(Command("add", info, timeout), servers);
      && (info.name == "" || info.addr == "" ==> r == CommandError(InvalidServerInfo, servers))
      && (info.name != "" && info.addr != "" && info.tunnel ==> r == CommandError(CannotAddTunnel, servers))
      && (info.name != "" && info.addr != "" && !info.tunnel && info.name in servers ==> r == CommandError(NameExists, servers))
      && (info.name != "" && info.addr != "" && !info.tunnel && info.name !in servers ==>
            r.servers == servers[info.name := info] && r.reply == SuccessResp(CommandHeader))
  {
  }

  /** `remove` deletes only the named backend and is idempotent. */
  lemma RemoveIdempotent(info: ServerInfo, timeout: int, servers: ServerTable)
    ensures var r := Execute(Command("remove", info, timeout), servers);
      && r.servers.Keys == servers.Keys - {info.name}
      && Execute(Command("remove", info, timeout), r.servers).servers == r.servers
      && r.reply == SuccessResp(CommandHeader)
  {
  }

  /** An unknown action is reported back with its name, and the frame is
      readable only while the message fits the one-octet length. */
  lemma UnknownAction(cmd: Command, servers: ServerTable)
    requires cmd.action !in {"add", "remove", "shutdown"}
    ensures Execute(cmd, servers) == CommandError(Raw("invalid action: " + cmd.action), servers)
    ensures Decode(CommandHeader, Execute(cmd, servers).reply).Some? <==> |cmd.action| < 240
  {
    ErrorFrameRoundTrip(CommandHeader, Raw("invalid action: " + cmd.action));
    var r := Execute(cmd, servers).reply;
    if |cmd.action| >= 240 {
      DecodeEncode(CommandHeader, Error(Raw("invalid action: " + cmd.action)));
      assert Decode(CommandHeader, r).None? by {
        assert r[3] != |r| - 4;
      }
    }
  }

  /** Reading the password length from the pad octet breaks every command
      that carries a password: it is always a length mismatch. */
  lemma PadOctetRejectsPasswords(msg: seq<byte>, password: seq<byte>, peerHost: string,
                                 decode: seq<byte> -> Option<Command>, servers: ServerTable)
    requires |msg| < 0x1_0000 && 0 < |password| < 256
    ensures ServeCommandAsWritten(CommandBody(msg, password), password, peerHost, decode, servers)
         == CommandError(LengthMismatch, servers)
  {
    var body := CommandBody(msg, password);
    assert BigEndian16(body[0], body[1]) == |msg| && body[3] == 0;
  }
}
