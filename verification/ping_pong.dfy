/** The liveness protocol of server/main.go. A backend connects to the
    ping port and sends its route as a length-framed message (a 4-byte
    ASCII decimal length, then the bytes); the route is added to the
    connection map, and from then on the router writes "ping" when a
    one-minute timer fires and expects a "pong" frame before the next one.
    The route is removed whenever the session ends. Timers and the channel
    between the two goroutines are modelled as a sequence of events. */
module PingPong {
  import opened Base

  // ---------------------------------------------------------------------
  // The connection map
  // ---------------------------------------------------------------------

  /** `ConnMap.conns`: route to (always empty) address. */
  type ConnMap = map<string, string>

  /** `Add`: `r` maps to ""; every other route is unchanged. */
  function Add(cm: ConnMap, r: string): (cm': ConnMap)
    ensures r in cm' && cm'[r] == ""
    ensures forall k :: k != r ==> (k in cm' <==> k in cm) && (k in cm ==> cm'[k] == cm[k])
  {
    cm[r := ""]
  }

  /** `Delete`: `r` is gone; every other route is unchanged. */
  function Delete(cm: ConnMap, r: string): (cm': ConnMap)
    ensures r !in cm'
    ensures forall k :: k != r ==> (k in cm' <==> k in cm) && (k in cm ==> cm'[k] == cm[k])
  {
    cm - {r}
  }

  /** Removing a route just added gives back the map from before, when the
      route was not there already. */
  lemma DeleteUndoesAdd(cm: ConnMap, r: string)
    requires r !in cm
    ensures Delete(Add(cm, r), r) == cm
  {
  }

  // ---------------------------------------------------------------------
  // Length framing
  // ---------------------------------------------------------------------

  /** `headerLength`. */
  const HeaderLength: nat := 4

  /** `strconv.ParseInt(s, 10, 32)`: an optional sign, at least one decimal
      digit and nothing else, within the 32-bit range. */
  function ParseInt32(s: string): (r: Option<int>)
    ensures r.Some? ==> -0x8000_0000 <= r.value < 0x8000_0000
    ensures s != [] && AllDigits(s) && ParseDecimal(s) < 0x8000_0000 ==> r == Some(ParseDecimal(s))
    ensures s == [] || (exists i :: 1 <= i < |s| && !('0' <= s[i] <= '9')) ==> r.None?
  {
    if s == [] then None
    else
      var digits := if s[0] == '+' || s[0] == '-' then s[1..] else s;
      if digits == [] || !AllDigits(digits) then None
      else
        var v: int := if s[0] == '-' then -(ParseDecimal(digits) as int) else ParseDecimal(digits);
        if v < -0x8000_0000 || v >= 0x8000_0000 then None else Some(v)
  }

  /** The header a sender writes for a message of `n` bytes: four ASCII
      digits with leading zeros. */
  function Header(n: nat): (h: seq<byte>)
    requires n < 10000
    ensures |h| == HeaderLength
    ensures forall i :: 0 <= i < |h| ==> 48 <= h[i] <= 57
  {
    [48 + n / 1000, 48 + n / 100 % 10, 48 + n / 10 % 10, 48 + n % 10]
  }

  /** A header reads back as the length it was written for. */
  lemma HeaderRoundTrip(n: nat)
    requires n < 10000
    ensures ParseInt32(Text(Header(n))) == Some(n)
  {
    var s := Text(Header(n));
    assert AllDigits(s);
    assert s[..1][..0] == [];
    assert ParseDecimal(s[..1]) == n / 1000;
    assert s[..2][..1] == s[..1];
    assert ParseDecimal(s[..2]) == n / 100;
    assert s[..3][..2] == s[..2];
    assert ParseDecimal(s[..3]) == n / 10;
    assert s[..3] == s[..|s| - 1];
    assert ParseDecimal(s) == n;
  }

  /** What one `Read` leaves in a buffer: the bytes delivered (no more than
      fit in the `room` asked for) over the old contents. */
  function Fill(buf: seq<byte>, data: seq<byte>, room: nat): (buf': seq<byte>)
    requires room <= |buf|
    ensures |buf'| == |buf|
    ensures |data| <= room ==> buf'[..|data|] == data
    ensures forall i :: |data| <= i < |buf| ==> buf'[i] == buf[i]
  {
    Taken(data, room) + buf[|Taken(data, room)|..]
  }

  /** The part of `data` one read of `room` bytes takes. */
  function Taken(data: seq<byte>, room: nat): (got: seq<byte>)
    ensures |got| <= room && |got| <= |data| && got == data[..|got|]
    ensures |data| <= room ==> got == data
  {
    if |data| <= room then data else data[..room]
  }

  // ---------------------------------------------------------------------
  // Registration
  // ---------------------------------------------------------------------

  /** How a connection's registration ends. `Crashed` is a slice out of
      range: the panic ends the whole router process. */
  datatype Registration = ReadFailed | Refused | Crashed | Registered(route: string)

  const ErrorReply: string := "ERROR"

  /** `n` zero bytes: a Go array before anything is read into it. */
  function Zeros(n: nat): (z: seq<byte>)
    ensures |z| == n && forall i :: 0 <= i < n ==> z[i] == 0
  {
    if n == 0 then [] else Zeros(n - 1) + [0]
  }

  /** `bmsg`, the 64-byte registration buffer, before any read. */
  const RouteBuffer: seq<byte> := Zeros(64)

  /** The registration block of `pingPong`. `header` and `body` are what
      the two reads delivered, None when a read failed. With `checked` a
      length beyond the buffer is refused like an unparsable one; as
      written it is used to slice the buffer. */
  function Connect(checked: bool, header: Option<seq<byte>>, body: Option<seq<byte>>): (g: Registration)
    ensures header.None? <==> g.ReadFailed?
    ensures g.Crashed? ==> !checked
    ensures g.Registered? ==> |g.route| <= |RouteBuffer|
  {
    match header
    case None => ReadFailed
    case Some(h) =>
      var buf := Fill(RouteBuffer, h, HeaderLength);
      match ParseInt32(Text(buf[..HeaderLength]))
      case None => Refused
      case Some(l) =>
        if l < 0 || l > |buf| then (if checked then Refused else Crashed)
        else
          match body
          case None => Refused
          case Some(b) => Registered(Text(Fill(buf, b, l)[..l]))
  }

  /** A route sent under its own header is registered as sent, whether or
      not the length check is there. */
  lemma ConnectRoundTrip(checked: bool, route: seq<byte>)
    requires |route| <= |RouteBuffer|
    ensures Connect(checked, Some(Header(|route|)), Some(route)) == Registered(Text(route))
  {
    var buf := Fill(RouteBuffer, Header(|route|), HeaderLength);
    assert buf[..HeaderLength] == Header(|route|);
    HeaderRoundTrip(|route|);
    assert Fill(buf, route, |route|)[..|route|] == route;
  }

  /** A header that is not a number is answered with "ERROR" and registers
      nothing; so is a short header read, whose missing bytes are zeros. */
  lemma ShortHeaderRefused(checked: bool, h: seq<byte>, body: Option<seq<byte>>)
    requires |h| < HeaderLength
    ensures Connect(checked, Some(h), body) == Refused
  {
    var buf := Fill(RouteBuffer, h, HeaderLength);
    assert buf[HeaderLength - 1] == 0;
  }

  /** As written, the well-formed header "0100" stops the router: the
      length is used to slice a 64-byte buffer. With the check it is
      refused. */
  lemma OversizedLengthCrashes(body: Option<seq<byte>>)
    ensures Connect(false, Some(Header(100)), body) == Crashed
    ensures Connect(true, Some(Header(100)), body) == Refused
  {
    var buf := Fill(RouteBuffer, Header(100), HeaderLength);
    assert buf[..HeaderLength] == Header(100);
    HeaderRoundTrip(100);
  }

  // ---------------------------------------------------------------------
  // The reader goroutine (`getMsg`)
  // ---------------------------------------------------------------------

  /** What one frame read gives `getMsg`: a header and a body, or a failed
      read (at either step), which is end-of-file or another error. */
  datatype Read = Frame(header: seq<byte>, body: seq<byte>) | Eof | ReadError

  /** The messages `getMsg` sends on the channel, and whether it panicked
      (a length beyond its 1024-byte buffer). */
  datatype Reader = Reader(sent: seq<string>, panicked: bool)

  const MessageBuffer: seq<byte> := Zeros(1024)

  /** `getMsg` from the buffer `buf` over the reads still to come. It
      stops after the first message that is not "pong". */
  function GetMsg(buf: seq<byte>, incoming: seq<Read>): (r: Reader)
    requires |buf| == |MessageBuffer|
    ensures |r.sent| <= |incoming|
    ensures forall i :: 0 <= i < |r.sent| - 1 ==> r.sent[i] == "pong"
    ensures r.panicked ==> incoming != [] && (r.sent == [] || r.sent[|r.sent| - 1] == "pong")
    decreases |incoming|
  {
    if incoming == [] then Reader([], false)
    else
      match incoming[0]
      case Eof => Reader(["closed"], false)
      case ReadError => Reader(["error"], false)
      case Frame(h, b) =>
        var buf1 := Fill(buf, h, HeaderLength);
        match ParseInt32(Text(buf1[..HeaderLength]))
        case None => Reader(["error"], false)
        case Some(l) =>
          if l < 0 || l > |buf1| then Reader([], true)
          else
            var buf2 := Fill(buf1, b, l);
            var msg := Text(buf2[..l]);
            if msg != "pong" then Reader([msg], false)
            else
              var rest := GetMsg(buf2, incoming[1..]);
              Reader([msg] + rest.sent, rest.panicked)
  }

  /** A message sent under its own header is delivered as sent; a
      message other than "pong" is the last one. */
  lemma FrameRead(buf: seq<byte>, msg: seq<byte>, rest: seq<Read>)
    requires |buf| == |MessageBuffer| && |msg| <= |MessageBuffer|
    ensures var r := GetMsg(buf, [Frame(Header(|msg|), msg)] + rest);
      r.sent != [] && r.sent[0] == Text(msg) && (Text(msg) != "pong" ==> r == Reader([Text(msg)], false))
  {
    var all := [Frame(Header(|msg|), msg)] + rest;
    var buf1 := Fill(buf, Header(|msg|), HeaderLength);
    assert buf1[..HeaderLength] == Header(|msg|);
    HeaderRoundTrip(|msg|);
    var buf2 := Fill(buf1, msg, |msg|);
    assert buf2[..|msg|] == msg;
    assert all[0] == Frame(Header(|msg|), msg);
  }

  // ---------------------------------------------------------------------
  // The session loop of `pingPong`
  // ---------------------------------------------------------------------

  /** What happens next: a minute passes, or a message arrives on the
      channel. A minute passing is a firing of `after` only while the timer
      is armed: `time.After` is one-shot, so once it has fired it stays
      silent until the next `time.After`. */
  datatype Event = Tick | Msg(text: string)

  /** One branch of the `select`, for an event the loop receives: the
      next `pinging` state, or None when the loop returns. */
  function OnEvent(pinging: bool, e: Event): (next: Option<bool>)
    ensures e == Tick ==> (next.Some? <==> pinging) && next != Some(true)
    ensures e.Msg? ==> (next.Some? <==> e.text == "pong") && next != Some(false)
  {
    match e
    case Tick => if pinging then Some(false) else None
    case Msg(t) => if t == "pong" then Some(true) else None
  }

  /** Where the loop arms the timer again. As written only a "pong" does
      (server/main.go:152); `Rearmed` also arms it after each "ping", which
      the "Failed to pong" branch needs in order to ever be taken. */
  datatype Timer = AsWritten | Rearmed

  /** The loop after a sequence of events: still open or returned, the
      `pinging` flag, whether `after` is armed, and how many "ping"s were
      written. */
  datatype Session = Session(open: bool, pinging: bool, armed: bool, pings: nat)

  function Run(timer: Timer, events: seq<Event>): (s: Session)
    ensures s.pings <= |events|
    ensures timer == Rearmed ==> s.armed
    decreases |events|
  {
    if events == [] then Session(true, true, true, 0)
    else
      var s := Run(timer, events[..|events| - 1]);
      var e := events[|events| - 1];
      if !s.open || (e == Tick && !s.armed) then s
      else
        match OnEvent(s.pinging, e)
        case None => s.(open := false)
        case Some(p) =>
          if e == Tick then Session(true, p, timer == Rearmed, s.pings + 1)
          else Session(true, p, true, s.pings)
  }

  /** Every message so far is "pong". */
  predicate AllPong(events: seq<Event>) {
    forall i :: 0 <= i < |events| && events[i].Msg? ==> events[i].text == "pong"
  }

  /** Minutes passed since the last message. */
  function Unanswered(events: seq<Event>): nat
    decreases |events|
  {
    if events == [] then 0
    else if events[|events| - 1] == Tick then Unanswered(events[..|events| - 1]) + 1
    else 0
  }

  /** As written, the timer is armed exactly while the loop waits to ping,
      so a firing always takes the "ping" branch and the "Failed to pong"
      branch is never taken: the session ends only on a message other than
      "pong", whatever the timer does. */
  lemma {:induction false} AsWrittenTimer(events: seq<Event>)
    ensures var s := Run(AsWritten, events);
      (s.open <==> AllPong(events)) && (s.armed <==> s.pinging) &&
      (s.open ==> (s.pinging <==> Unanswered(events) == 0))
    ensures var s := Run(AsWritten, events);
      s.open && s.armed ==> OnEvent(s.pinging, Tick) == Some(false)
    decreases |events|
  {
    if events != [] {
      var init := events[..|events| - 1];
      var e := events[|events| - 1];
      AsWrittenTimer(init);
      assert AllPong(events) <==> AllPong(init) && (e.Msg? ==> e.text == "pong") by {
        assert forall i :: 0 <= i < |init| ==> events[i] == init[i];
      }
    }
  }

  /** Minutes passing and nothing else. */
  function Ticks(k: nat): (es: seq<Event>)
    ensures |es| == k && forall i :: 0 <= i < k ==> es[i] == Tick
  {
    if k == 0 then [] else Ticks(k - 1) + [Tick]
  }

  /** A disarmed timer never fires: further minutes change nothing. */
  lemma {:induction false} TicksIdle(timer: Timer, events: seq<Event>, k: nat)
    requires !Run(timer, events).armed
    ensures Run(timer, events + Ticks(k)) == Run(timer, events)
  {
    var all := events + Ticks(k);
    if k == 0 {
      assert all == events;
    } else {
      TicksIdle(timer, events, k - 1);
      assert all[..|all| - 1] == events + Ticks(k - 1);
      assert all[|all| - 1] == Tick;
    }
  }

  /** As written, a backend that is never heard from is pinged once; from
      then on the timer is disarmed and the session stays open. */
  lemma {:induction false} TicksOnly(k: nat)
    ensures Run(AsWritten, Ticks(k)) == if k == 0 then Session(true, true, true, 0) else Session(true, false, false, 1)
  {
    if k > 0 {
      TicksOnly(k - 1);
      assert Ticks(k)[..k - 1] == Ticks(k - 1);
    }
  }

  /** As written, once the loop has pinged and no message arrives, it
      waits for ever: the session stays open, the timer stays disarmed and
      no second "ping" is written, however many minutes pass. */
  lemma SilentBackendKept(events: seq<Event>, k: nat)
    requires Run(AsWritten, events).open
    ensures var pinged := events + [Tick];
      Run(AsWritten, pinged + Ticks(k)) == Run(AsWritten, pinged) &&
      Run(AsWritten, pinged).open && !Run(AsWritten, pinged).armed &&
      Run(AsWritten, pinged).pings <= Run(AsWritten, events).pings + 1
  {
    var pinged := events + [Tick];
    AsWrittenTimer(events);
    assert pinged[..|pinged| - 1] == events;
    TicksIdle(AsWritten, pinged, k);
  }

  /** The last event of a prefix is one the protocol allows: a "pong", or
      the first firing since the last message. */
  predicate Acceptable(prefix: seq<Event>)
    requires prefix != []
  {
    match prefix[|prefix| - 1]
    case Tick => Unanswered(prefix) <= 1
    case Msg(t) => t == "pong"
  }

  /** The protocol, stated apart from the loop: every message is "pong",
      and the timer never fires twice without a message in between. */
  ghost predicate Healthy(events: seq<Event>) {
    forall i :: 1 <= i <= |events| ==> Acceptable(events[..i])
  }

  lemma HealthySnoc(events: seq<Event>, e: Event)
    ensures Healthy(events + [e]) <==> Healthy(events) && Acceptable(events + [e])
  {
    var all := events + [e];
    forall i | 1 <= i <= |events|
      ensures all[..i] == events[..i]
    {
    }
    assert all[..|all| - 0] == all;
  }

  /** With the timer armed again after each "ping", the loop keeps the
      session open exactly as long as the protocol is kept, and it is
      waiting for a "pong" exactly when the timer has fired since the last
      message. */
  lemma {:induction false} RunFollowsProtocol(events: seq<Event>)
    ensures Run(Rearmed, events).open <==> Healthy(events)
    ensures Run(Rearmed, events).open ==> (Run(Rearmed, events).pinging <==> Unanswered(events) == 0)
    decreases |events|
  {
    if events != [] {
      var init := events[..|events| - 1];
      var e := events[|events| - 1];
      assert events == init + [e];
      RunFollowsProtocol(init);
      HealthySnoc(init, e);
    }
  }

  /** With the timer armed again after each "ping", two firings without a
      message in between end any session. */
  lemma TwoTicksDisconnect(events: seq<Event>, more: seq<Event>)
    ensures !Run(Rearmed, events + [Tick, Tick] + more).open
  {
    var all := events + [Tick, Tick] + more;
    var p := events + [Tick, Tick];
    assert all[..|p|] == p;
    assert p[..|p| - 1] == events + [Tick];
    assert Unanswered(p) >= 2;
    assert !Acceptable(all[..|p|]);
    RunFollowsProtocol(all);
  }

  /** `n` rounds of a firing answered by a "pong". */
  function Rounds(n: nat): (es: seq<Event>)
    ensures |es| == 2 * n
    ensures forall i :: 0 <= i < |es| ==> es[i] == (if i % 2 == 0 then Tick else Msg("pong"))
  {
    if n == 0 then [] else Rounds(n - 1) + [Tick, Msg("pong")]
  }

  /** A backend that answers every ping stays connected, one ping per
      round, with either timer. */
  lemma {:induction false} PongsKeepAlive(timer: Timer, n: nat)
    ensures Run(timer, Rounds(n)) == Session(true, true, true, n)
  {
    if n > 0 {
      PongsKeepAlive(timer, n - 1);
      var es := Rounds(n);
      assert es[..|es| - 1] == Rounds(n - 1) + [Tick];
      assert (Rounds(n - 1) + [Tick])[..2 * n - 2] == Rounds(n - 1);
    }
  }

  // ---------------------------------------------------------------------
  // A whole connection
  // ---------------------------------------------------------------------

  /** The events that reach the loop. `pingPong` makes the channel but
      never starts `getMsg`, so as written only minutes pass; with the
      reader started, every event arrives. */
  function Delivered(readerStarted: bool, events: seq<Event>): (es: seq<Event>)
    ensures |es| <= |events|
    ensures !readerStarted ==> forall i :: 0 <= i < |es| ==> es[i] == Tick
    ensures readerStarted ==> es == events
  {
    if readerStarted || events == [] then events
    else
      var rest := Delivered(false, events[1..]);
      if events[0] == Tick then [Tick] + rest else rest
  }

  /** The result of one connection: the map afterwards, what was written,
      whether the session is still open, and whether the router crashed. */
  datatype Outcome = Outcome(conns: ConnMap, writes: seq<string>, open: bool, crashed: bool)

  /** The strings written: `n` times "ping". */
  function Pings(n: nat): (w: seq<string>)
    ensures |w| == n && forall i :: 0 <= i < n ==> w[i] == "ping"
  {
    seq(n, i => "ping")
  }

  /** `pingPong` on one connection. */
  function Serve(checked: bool, readerStarted: bool, timer: Timer, conns: ConnMap, header: Option<seq<byte>>,
                 body: Option<seq<byte>>, events: seq<Event>): (o: Outcome)
    ensures o.crashed ==> !checked
    ensures !o.crashed && !o.open ==> forall k :: k in o.conns ==> k in conns
  {
    match Connect(checked, header, body)
    case ReadFailed => Outcome(conns, [], false, false)
    case Refused => Outcome(conns, [ErrorReply], false, false)
    case Crashed => Outcome(conns, [], false, true)
    case Registered(r) =>
      var s := Run(timer, Delivered(readerStarted, events));
      Outcome(if s.open then Add(conns, r) else Delete(Add(conns, r), r), Pings(s.pings), s.open, false)
  }

  /** A registered route is in the map while its session is open and gone
      once it ends, however it ends; no other route is touched. */
  lemma ServeRemovesRoute(checked: bool, readerStarted: bool, timer: Timer, conns: ConnMap,
                          header: Option<seq<byte>>, body: Option<seq<byte>>, events: seq<Event>)
    requires Connect(checked, header, body).Registered?
    ensures var o := Serve(checked, readerStarted, timer, conns, header, body, events);
      var r := Connect(checked, header, body).route;
      (o.open ==> r in o.conns) && (!o.open ==> r !in o.conns) &&
      forall k :: k != r ==> (k in o.conns <==> k in conns)
  {
  }

  /** Two backends on one route share one key: the first to disconnect
      removes the route although the other is still connected. */
  lemma SharedRouteLost(timer: Timer, conns: ConnMap, route: seq<byte>, events: seq<Event>)
    requires |route| <= |RouteBuffer|
    requires Text(route) in conns
    requires !Run(timer, events).open
    ensures Text(route) !in Serve(true, true, timer, conns, Some(Header(|route|)), Some(route), events).conns
  {
    ConnectRoundTrip(true, route);
  }

  /** As written no message reaches the loop: whatever the backend sends,
      and however many minutes pass, the session stays open, its route
      stays in the map, and at most one "ping" is written. */
  lemma UnstartedReaderHangs(checked: bool, conns: ConnMap, header: Option<seq<byte>>,
                             body: Option<seq<byte>>, events: seq<Event>)
    requires Connect(checked, header, body).Registered?
    ensures var o := Serve(checked, false, AsWritten, conns, header, body, events);
      o.open && Connect(checked, header, body).route in o.conns && |o.writes| <= 1
  {
    var es := Delivered(false, events);
    assert es == Ticks(|es|);
    TicksOnly(|es|);
  }

  /** With the reader started, a backend that closes its end ("closed" on
      the channel) ends the session and its route leaves the map, with
      either timer. */
  lemma ClosedBackendRemoved(checked: bool, timer: Timer, conns: ConnMap, header: Option<seq<byte>>,
                             body: Option<seq<byte>>, events: seq<Event>)
    requires Connect(checked, header, body).Registered?
    ensures var o := Serve(checked, true, timer, conns, header, body, events + [Msg("closed")]);
      !o.open && Connect(checked, header, body).route !in o.conns
  {
    var all := events + [Msg("closed")];
    assert all[..|all| - 1] == events;
    ServeRemovesRoute(checked, true, timer, conns, header, body, all);
  }
}
