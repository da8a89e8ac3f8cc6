/** The binary handshake frames of main.go: the two magic prefixes and the
    three fixed response shapes (success, invalid password, error with a
    one-octet length and a message). */
module Frames {
  import opened Base

  /** Tunnel magic as the protocol comment documents it: the big-endian
      value 31623. */
  const TunnelHeader: seq<byte> := [0x7B, 0x87]

  /** The tunnel magic main.go's `tunnelHeader` actually returns; it is not
      31623 (see README, Findings). */
  const TunnelHeaderAsWritten: seq<byte> := [0x9B, 0x87]

  /** Command magic: the big-endian value 3375. */
  const CommandHeader: seq<byte> := [0x0D, 0x2F]

  const SuccessCode: byte := 0x0F
  const InvalidPasswordCode: byte := 0x00
  const ErrorCode: byte := 0x0D

  function SuccessResp(header: seq<byte>): (f: seq<byte>)
    ensures |f| == |header| + 2 && f[..|header|] == header && f[|header|] == SuccessCode
  {
    header + [SuccessCode, 0]
  }

  function InvalidPasswordResp(header: seq<byte>): (f: seq<byte>)
    ensures |f| == |header| + 2 && f[..|header|] == header && f[|header|] == InvalidPasswordCode
  {
    header + [InvalidPasswordCode, 0]
  }

  /** Go's `byte(len(msg))` keeps only the low octet of the length. */
  function ErrorResp(header: seq<byte>, msg: seq<byte>): (f: seq<byte>)
    ensures |f| == |header| + 2 + |msg| && f[..|header|] == header && f[|header|] == ErrorCode
  {
    header + [ErrorCode, |msg| % 256] + msg
  }

  /** What a client reads back from a response frame. */
  datatype Response = Success | InvalidPassword | Error(msg: seq<byte>)

  function Encode(header: seq<byte>, r: Response): (f: seq<byte>)
    ensures |f| >= |header| + 2 && f[..|header|] == header
  {
    match r
    case Success => SuccessResp(header)
    case InvalidPassword => InvalidPasswordResp(header)
    case Error(msg) => ErrorResp(header, msg)
  }

  /** Strict client-side reading of a response frame that begins with a
      two-octet magic: the length octet must agree with the bytes that
      follow it. */
  function Decode(header: seq<byte>, f: seq<byte>): Option<Response>
    requires |header| == 2
  {
    if |f| < 4 || f[..2] != header then None
    else if f[2] == SuccessCode && f[3] == 0 && |f| == 4 then Some(Success)
    else if f[2] == InvalidPasswordCode && f[3] == 0 && |f| == 4 then Some(InvalidPassword)
    else if f[2] == ErrorCode && f[3] == |f| - 4 then Some(Error(f[4..]))
    else None
  }

  /** Every response frame starts with the magic and is read back as the
      response it encodes, except an error whose message does not fit the
      one-octet length. */
  lemma DecodeEncode(header: seq<byte>, r: Response)
    requires |header| == 2
    ensures Decode(header, Encode(header, r)) == Some(r) <==> !(r.Error? && |r.msg| >= 256)
  {
    var f := Encode(header, r);
    assert f[..2] == header;
    match r
    case Success =>
    case InvalidPassword =>
    case Error(msg) =>
      assert f[4..] == msg;
      if |msg| >= 256 {
        assert f[3] != |f| - 4;
      }
  }

  /** An error frame reads back as its message exactly when the message is
      shorter than 256 octets. */
  lemma ErrorFrameRoundTrip(header: seq<byte>, msg: seq<byte>)
    requires |header| == 2
    ensures Decode(header, ErrorResp(header, msg)) == Some(Error(msg)) <==> |msg| < 256
  {
    DecodeEncode(header, Error(msg));
  }

  /** The two magics differ, so classifying a frame by its first two octets
      is a function; both are the documented 16-bit values, and the value
      main.go writes for the tunnel magic is a different one. */
  lemma MagicValues()
    ensures TunnelHeader != CommandHeader && TunnelHeaderAsWritten != CommandHeader
    ensures BigEndian16(TunnelHeader[0], TunnelHeader[1]) == 31623
    ensures BigEndian16(CommandHeader[0], CommandHeader[1]) == 3375
    ensures BigEndian16(TunnelHeaderAsWritten[0], TunnelHeaderAsWritten[1]) == 39815
  {
    assert TunnelHeader[0] != CommandHeader[0];
  }
}
