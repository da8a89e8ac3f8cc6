/** `createTunnel` of server/server.go, the older draft of the tunnel
    handshake: the two length octets are read together as one big-endian
    16-bit value, the name length is its low octet, and the password is
    everything after the name. The draft stops after the password check, so
    a passing handshake is only reported, not registered. */
module ServerDraft {
  import opened Base

  /** The reply to a body too short to hold the lengths: the 16-bit value
      31623 in a four-octet buffer whose last two octets stay zero. */
  const ShortReply: seq<byte> := [0x7B, 0x87, 0, 0]

  /** What the draft does with the connection. */
  datatype DraftOutcome =
    | Rejected(reply: seq<byte>)    // write `reply`, then close
    | Dropped                       // close without writing anything
    | Passed(name: string)          // the password matched; the draft ends here

  /** What a tunnel sends after the magic in this draft's layout:
      [passwordLen][nameLen][name][password], the lengths forming the
      big-endian value passwordLen * 256 + nameLen. */
  function DraftBody(name: seq<byte>, password: seq<byte>): (b: seq<byte>)
    requires |name| < 256 && |password| < 256
    ensures |b| == 2 + |name| + |password|
    ensures BigEndian16(b[0], b[1]) == |password| * 256 + |name|
    ensures b[2..2 + |name|] == name && b[2 + |name|..] == password
  {
    [|password|, |name|] + name + password
  }

  /** The handshake. With `packed` the length of the rest is compared with
      the 16-bit value as the draft does; without it, with the sum of the two
      lengths the layout declares. */
  function CreateTunnelWith(packed: bool, body: seq<byte>, password: seq<byte>): (o: DraftOutcome)
    ensures o == Rejected(ShortReply) <==>
      |body| < 2 ||
      |body| - 2 != (if packed then BigEndian16(body[0], body[1]) else body[0] as nat + body[1] as nat)
    ensures o.Rejected? ==> o.reply == ShortReply
    ensures o.Passed? ==>
      body[1] as nat <= |body| - 2 && body[2 + body[1]..] == password && o.name == Text(body[2..2 + body[1]])
    ensures o.Dropped? ==> body[1] as nat <= |body| - 2 && body[2 + body[1]..] != password
  {
    if |body| < 2 then Rejected(ShortReply)
    else
      var rest := body[2..];
      var expected := if packed then BigEndian16(body[0], body[1]) else body[0] as nat + body[1] as nat;
      if |rest| != expected then Rejected(ShortReply)
      else
        var nameLen := body[1] as nat;
        if rest[nameLen..] != password then Dropped
        else Passed(Text(rest[..nameLen]))
  }

  /** The handshake as server/server.go writes it. */
  function CreateTunnelDraft(body: seq<byte>, password: seq<byte>): DraftOutcome {
    CreateTunnelWith(true, body, password)
  }

  /** The handshake with the length check the layout calls for. */
  function CreateTunnelDraftCorrected(body: seq<byte>, password: seq<byte>): DraftOutcome {
    CreateTunnelWith(false, body, password)
  }

  /** Fewer than two octets: the four-octet reply and nothing else. */
  lemma DraftTooShort(body: seq<byte>, password: seq<byte>)
    requires |body| < 2
    ensures CreateTunnelDraft(body, password) == Rejected(ShortReply)
    ensures CreateTunnelDraftCorrected(body, password) == Rejected(ShortReply)
  {
  }

  /** With the corrected length check an honest tunnel passes exactly when
      its password is the expected one, and is named by its name bytes. */
  lemma DraftCorrectedAccepts(name: seq<byte>, given: seq<byte>, password: seq<byte>)
    requires |name| < 256 && |given| < 256
    ensures CreateTunnelDraftCorrected(DraftBody(name, given), password) ==
      if given == password then Passed(Text(name)) else Dropped
  {
    var b := DraftBody(name, given);
    assert b[2..][|name|..] == given;
    assert b[2..][..|name|] == name;
  }

  /** Conversely, every body the corrected handshake lets pass is an honest
      body in the layout, carrying the expected password. */
  lemma DraftCorrectedPassedIsBody(body: seq<byte>, password: seq<byte>)
    requires CreateTunnelDraftCorrected(body, password).Passed?
    ensures |body[2..2 + body[1]]| < 256 && |password| < 256
    ensures body == DraftBody(body[2..2 + body[1]], password)
  {
    var name := body[2..2 + body[1]];
    assert |body| - 2 == body[0] as nat + body[1] as nat;
    assert body == [body[0], body[1]] + name + body[2 + body[1]..];
  }

  /** The draft's packed comparison turns away every honest tunnel that
      sends a password: the rest holds |name| + |password| octets, but the
      draft expects |password| * 256 + |name|. */
  lemma DraftRejectsHonestTunnel(name: seq<byte>, given: seq<byte>, password: seq<byte>)
    requires |name| < 256 && 0 < |given| < 256
    ensures CreateTunnelDraft(DraftBody(name, given), password) == Rejected(ShortReply)
  {
  }

  /** Only without a password do the two checks agree on honest bodies. */
  lemma DraftAgreesWithoutPassword(name: seq<byte>, password: seq<byte>)
    requires |name| < 256
    ensures CreateTunnelDraft(DraftBody(name, []), password) == CreateTunnelDraftCorrected(DraftBody(name, []), password)
  {
  }

  /** A concrete honest tunnel "a" with password "p" that the draft rejects
      and the corrected check lets pass. */
  lemma DraftSample()
    ensures CreateTunnelDraft([1, 1, 97, 112], [112]) == Rejected(ShortReply)
    ensures CreateTunnelDraftCorrected([1, 1, 97, 112], [112]) == Passed(Text([97]))
  {
    DraftCorrectedAccepts([97], [112], [112]);
    assert DraftBody([97], [112]) == [1, 1, 97, 112];
  }
}
