/** Path dispatch of the HTTP-registered drafts (`handle` of p2/proxy2.go
    and server/proxy.go, `handle` and `handleHTTP1` of
    server/socket_server/proxy.go): the first path segment is taken with
    `^(/\w*)`, "/" is the proxy's own page, a registered path is forwarded,
    and every failure is a bare status line. The socket draft formats its
    status lines with `createResponseFromCode`; the other two write fixed
    texts ending in a single CRLF. */
module PathDispatch {
  import opened Base
  import opened Registry

  // ---------------------------------------------------------------------
  // The path pattern
  // ---------------------------------------------------------------------

  /** `^(/\w*)` on a URL path: a '/' followed by the longest run of word
      characters. */
  function ExtractPath(p: string): (r: Option<string>)
    ensures r.Some? <==> p != [] && p[0] == '/'
    ensures r.Some? ==> 1 <= |r.value| <= |p| && r.value == p[..|r.value|] && r.value[0] == '/'
    ensures r.Some? ==> forall i :: 1 <= i < |r.value| ==> IsWordChar(r.value[i])
    ensures r.Some? ==> |r.value| == |p| || !IsWordChar(p[|r.value|])
  {
    if p != [] && p[0] == '/' then Some(p[..WordEnd(p, 1)]) else None
  }

  /** The match is the only prefix of that shape: a slash, word
      characters, and no word character right after it. */
  lemma ExtractPathUnique(p: string, q: string)
    requires 1 <= |q| <= |p| && q == p[..|q|] && q[0] == '/'
    requires forall i :: 1 <= i < |q| ==> IsWordChar(q[i])
    requires |q| == |p| || !IsWordChar(p[|q|])
    ensures ExtractPath(p) == Some(q)
  {
    WordEndIs(p, 1, |q|);
  }

  /** The extracted path never holds a '.', so it is never
      "/favicon.ico": the favicon branches cannot be taken. */
  lemma FaviconUnreachable(p: string)
    ensures ExtractPath(p) != Some("/favicon.ico")
  {
    if ExtractPath(p).Some? {
      var r := ExtractPath(p).value;
      if |r| == |"/favicon.ico"| {
        assert !IsWordChar("/favicon.ico"[8]);
      }
    }
  }

  // ---------------------------------------------------------------------
  // Dispatch
  // ---------------------------------------------------------------------

  /** Where a request goes: a bare status line, the listing page (with or
      without non-website entries), the favicon, or a registered
      backend. */
  datatype Route = Status(code: nat) | Page(all: bool) | Favicon | Forward(entry: Entry)

  /** The dispatch on the URL path; `all` is the `all` query value. */
  function Dispatch(reg: Table, urlPath: string, all: string): (r: Route)
    ensures r == Status(400) <==> ExtractPath(urlPath).None?
    ensures r.Page? <==> ExtractPath(urlPath) == Some("/")
    ensures r.Page? ==> (r.all <==> all == "1")
    ensures r.Forward? ==>
      ExtractPath(urlPath).Some? && ExtractPath(urlPath).value in reg && r.entry == reg[ExtractPath(urlPath).value]
  {
    match ExtractPath(urlPath)
    case None => Status(400)
    case Some(path) =>
      if path == "/" then Page(all == "1")
      else if path == "/favicon.ico" then Favicon
      else if path !in reg then Status(404)
      else Forward(reg[path])
  }

  /** The page is served without looking at the registry. */
  lemma RootNeedsNoLookup(r1: Table, r2: Table, urlPath: string, all: string)
    requires ExtractPath(urlPath) == Some("/")
    ensures Dispatch(r1, urlPath, all) == Dispatch(r2, urlPath, all) == Page(all == "1")
  {
  }

  /** An unregistered path other than "/" is 404; a registered one is
      forwarded to its entry; nothing ever reaches the favicon. */
  lemma DispatchOutcomes(reg: Table, urlPath: string, all: string)
    requires ExtractPath(urlPath).Some? && ExtractPath(urlPath).value != "/"
    ensures var path := ExtractPath(urlPath).value;
      (path !in reg ==> Dispatch(reg, urlPath, all) == Status(404)) &&
      (path in reg ==> Dispatch(reg, urlPath, all) == Forward(reg[path]))
    ensures !Dispatch(reg, urlPath, all).Favicon?
  {
    FaviconUnreachable(urlPath);
  }

  // ---------------------------------------------------------------------
  // Status lines
  // ---------------------------------------------------------------------

  /** `%d` of a Go int. */
  function FormatInt(code: int): (s: string)
    ensures code >= 0 ==> s == Decimal(code)
    ensures code < 0 ==> |s| == 1 + |Decimal(-code)| && s[0] == '-' && s[1..] == Decimal(-code)
  {
    if code < 0 then "-" + Decimal(-code) else Decimal(code)
  }

  /** `http.StatusText` for the codes the drafts use; Go gives "" for an
      unknown code. */
  function StatusText(code: int): (t: string)
    ensures code == 404 ==> t == "Not Found"
    ensures code !in {200, 400, 404, 405, 500, 504} ==> t == ""
  {
    if code == 200 then "OK"
    else if code == 400 then "Bad Request"
    else if code == 404 then "Not Found"
    else if code == 405 then "Method Not Allowed"
    else if code == 500 then "Internal Server Error"
    else if code == 504 then "Gateway Timeout"
    else ""
  }

  const StatusPrefix: string := "HTTP/1.1 "
  const HeadEnd: string := "\r\n\r\n"

  /** `createResponseFromCode`: the status line for `code` with `msg` as
      its reason, or the standard reason when `msg` is empty, and an empty
      header block. */
  function ResponseFromCode(code: int, msg: string): (r: string)
    ensures |r| > |StatusPrefix| + |HeadEnd|
    ensures r[..|StatusPrefix|] == StatusPrefix
    ensures r[|r| - |HeadEnd|..] == HeadEnd
  {
    StatusPrefix + FormatInt(code) + " " + (if msg != "" then msg else StatusText(code)) + HeadEnd
  }

  /** The slices of "a" + "b" + " " + "c" + "e". */
  lemma StatusLinePieces(a: string, b: string, c: string, e: string)
    ensures var r := a + b + " " + c + e;
      |r| == |a| + |b| + 1 + |c| + |e| && r[|a|..|a| + |b|] == b && r[|a| + |b|] == ' ' &&
      r[|a| + |b| + 1..|r| - |e|] == c
  {
    var r := a + b + " " + c + e;
    assert r[|a|..|a| + |b|] == b;
    assert r[|a| + |b| + 1..|r| - |e|] == c;
  }

  /** A status line of a non-negative code can be read back: the digits
      after the prefix give the code, and the text between the following
      space and the blank line is the message, or the standard reason. */
  lemma ResponseFromCodeReadable(code: nat, msg: string)
    ensures var r := ResponseFromCode(code, msg);
      var d := |StatusPrefix| + |Decimal(code)|;
      d < |r| && AllDigits(r[|StatusPrefix|..d]) && ParseDecimal(r[|StatusPrefix|..d]) == code && r[d] == ' ' &&
      r[d + 1..|r| - |HeadEnd|] == (if msg != "" then msg else StatusText(code))
  {
    var reason := if msg != "" then msg else StatusText(code);
    StatusLinePieces(StatusPrefix, Decimal(code), reason, HeadEnd);
    DecimalRoundTrip(code);
  }

  /** How a draft writes its status lines: p2/proxy2.go and server/proxy.go
      write "HTTP/1.1 <code> <reason>\r\n" without the blank line. */
  datatype Style = LineOnly | FromCode

  function StatusResponse(style: Style, code: nat): (r: string)
    ensures style == FromCode ==> r == ResponseFromCode(code, "")
  {
    match style
    case LineOnly => StatusPrefix + Decimal(code) + " " + StatusText(code) + "\r\n"
    case FromCode => ResponseFromCode(code, "")
  }

  /** The fixed-text drafts stop one CRLF short of a complete response. */
  lemma LineOnlyLacksBlankLine(code: nat)
    ensures StatusResponse(LineOnly, code) + "\r\n" == StatusResponse(FromCode, code)
  {
  }

  /** The fixed texts of p2/proxy2.go and server/proxy.go. */
  lemma BadRequestLine()
    ensures StatusResponse(LineOnly, 400) == "HTTP/1.1 " + "400" + " " + "Bad Request" + "\r\n"
  {
    Decimal3(400);
  }

  lemma NotFoundLine()
    ensures StatusResponse(LineOnly, 404) == "HTTP/1.1 " + "404" + " " + "Not Found" + "\r\n"
  {
    Decimal3(404);
  }

  lemma InternalErrorLine()
    ensures StatusResponse(LineOnly, 500) == "HTTP/1.1 " + "500" + " " + "Internal Server Error" + "\r\n"
  {
    Decimal3(500);
  }

  // ---------------------------------------------------------------------
  // server/socket_server/proxy.go
  // ---------------------------------------------------------------------

  /** What the socket draft does with a parsed request: route an HTTP/1
      request, do nothing for HTTP/2, refuse any other version with 400. */
  datatype Served = Routed(route: Route) | Ignored | Rejected(text: string)

  function ByProtocol(reg: Table, major: int, urlPath: string, all: string): (s: Served)
    ensures s.Routed? <==> major == 1
    ensures s.Ignored? <==> major == 2
    ensures s.Rejected? ==> s.text == ResponseFromCode(400, "")
  {
    if major == 1 then Routed(Dispatch(reg, urlPath, all))
    else if major == 2 then Ignored
    else Rejected(ResponseFromCode(400, ""))
  }

  /** The body of the socket draft's fixed page. */
  const PageBody: string := "Served from Proxy"

  /** The fixed page; its Content-Length is written as "17". */
  const FixedPage: string :=
    "HTTP/1.1 200 OK\r\nContent-Type: plaintext; charset=utf-8\r\nContent-Length: " + "17" + HeadEnd + PageBody

  /** The declared Content-Length is the length of the body that follows
      the blank line. */
  lemma FixedPageLength()
    ensures Decimal(|PageBody|) == "17"
    ensures FixedPage[|FixedPage| - |PageBody|..] == PageBody
    ensures FixedPage[|FixedPage| - |PageBody| - |HeadEnd|..|FixedPage| - |PageBody|] == HeadEnd
  {
    assert |PageBody| == 17;
  }

  /** `serveFavicon` always writes the complete 404 response. */
  function ServeFavicon(): (r: string)
    ensures r == "HTTP/1.1 " + "404" + " " + "Not Found" + "\r\n\r\n"
  {
    Decimal3(404);
    ResponseFromCode(404, "")
  }
}
