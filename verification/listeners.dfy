/** The registration endpoints of the HTTP-registered drafts: the form
    handler of p2/proxy2.go and server/srvr_listener.go (the two are the
    same), and `serversHandler` of server/socket_server/srvr_listener.go,
    which takes one URL instead of separate path and address fields.
    Form decoding, `url.Parse` and the JSON encoding of the listing are
    library calls: their results are inputs here. */
module Listeners {
  import opened Base
  import opened SyncMaps
  import opened Registry

  /** The request method, as the handlers tell them apart. */
  datatype Method = Get | Del | Post | Other

  /** What a handler writes. `Failure` is `http.Error` (status code and
      message); `Written` is a plain 200 body; `Listing` is the JSON array
      of the entries a GET returns. */
  datatype Response = Written(body: string) | Failure(status: nat, message: string) | Listing(entries: seq<Entry>)

  const InvalidMethod: Response := Failure(405, "Invalid method")

  /** The entries of one `Range` pass, in order. */
  function Values(reg: Table, order: seq<string>): (vs: seq<Entry>)
    ensures |vs| <= |order|
    ensures forall i :: 0 <= i < |vs| ==> vs[i] in reg.Values
  {
    if order == [] then []
    else (if order[0] in reg then [reg[order[0]]] else []) + Values(reg, order[1..])
  }

  // ---------------------------------------------------------------------
  // p2/proxy2.go and server/srvr_listener.go
  // ---------------------------------------------------------------------

  /** The form values the handler reads. */
  datatype Form = Form(path: string, name: string, addr: string, website: string)

  /** One response and the table afterwards. */
  datatype Handled = Handled(response: Response, reg: Table)

  const MissingForPost: Response := Failure(400, "Must provide 'addr' and 'path'")
  const MissingForDelete: Response := Failure(400, "Must provide 'addr' or 'path'")

  /** The entry a POST registers; only the form value "1" makes it a
      website. */
  function FormEntry(f: Form): (e: Entry)
    ensures e.website <==> f.website == "1"
    ensures e.path == f.path && e.name == f.name && e.addr == f.addr && !e.failed
  {
    Entry(f.path, f.name, f.website == "1", f.addr, false)
  }

  /** The handler, with the draft's keying. */
  function HandleForm(keying: KeyBy, reg: Table, order: seq<string>, m: Method, f: Form): (h: Handled)
    ensures h.response.Failure? || m == Get ==> h.reg == reg
    ensures m == Other <==> h.response == InvalidMethod
    ensures h.response.Listing? <==> m == Get
  {
    match m
    case Get => Handled(Listing(Values(reg, order)), reg)
    case Del =>
      (match Remove(reg, order, f.path, f.addr)
       case None => Handled(MissingForDelete, reg)
       case Some(t) => Handled(Written(Success), t))
    case Post =>
      if f.addr == "" || f.path == "" then Handled(MissingForPost, reg)
      else
        var r := Register(keying, reg, FormEntry(f));
        Handled(Written(r.reply), r.reg)
    case Other => Handled(InvalidMethod, reg)
  }

  /** A POST without address or path is refused and changes nothing. */
  lemma PostNeedsAddrAndPath(keying: KeyBy, reg: Table, order: seq<string>, f: Form)
    requires f.addr == "" || f.path == ""
    ensures HandleForm(keying, reg, order, Post, f) == Handled(MissingForPost, reg)
  {
  }

  /** With path keying a POST replies "success" and adds exactly the form's
      entry, or replies "path already exists" or "name already exists" and
      leaves the table as it was. */
  lemma PostByPath(reg: Table, order: seq<string>, f: Form)
    requires f.addr != "" && f.path != ""
    ensures var h := HandleForm(ByPath, reg, order, Post, f);
      (h.response == Written(Success) && f.path !in reg && h.reg == reg[f.path := FormEntry(f)]) ||
      (h.response == Written(PathExists) && f.path in reg && h.reg == reg) ||
      (h.response == Written(NameExists) && f.path !in reg && h.reg == reg)
  {
    RegisterByPath(reg, FormEntry(f));
  }

  /** A DELETE with a path removes that key only and replies "success",
      whether or not the key was there. */
  lemma DeleteByPath(keying: KeyBy, reg: Table, order: seq<string>, f: Form)
    requires f.path != ""
    ensures HandleForm(keying, reg, order, Del, f) == Handled(Written(Success), reg - {f.path})
  {
  }

  /** A DELETE by address alone removes the first entry of the pass with
      that address, or nothing. */
  lemma DeleteByAddr(keying: KeyBy, reg: Table, order: seq<string>, f: Form)
    requires Enumerates(order, reg) && f.path == "" && f.addr != ""
    ensures var h := HandleForm(keying, reg, order, Del, f);
      h.response == Written(Success) &&
      ((forall k :: k in reg ==> reg[k].addr != f.addr) ==> h.reg == reg) &&
      ((exists k :: k in reg && reg[k].addr == f.addr) ==>
        exists i: nat :: FirstWithAddr(reg, order, f.addr, i) && h.reg == reg - {order[i]})
  {
    DeleteFirstAddrSpec(reg, order, f.addr);
  }

  /** A DELETE naming neither path nor address is refused. */
  lemma DeleteNeedsPathOrAddr(keying: KeyBy, reg: Table, order: seq<string>, f: Form)
    requires f.path == "" && f.addr == ""
    ensures HandleForm(keying, reg, order, Del, f) == Handled(MissingForDelete, reg)
  {
  }

  // ---------------------------------------------------------------------
  // server/socket_server/srvr_listener.go
  // ---------------------------------------------------------------------

  /** The parts of the parsed `addr` value the handler reads. */
  datatype Url = Url(host: string, path: string)

  /** Paths the proxy serves itself (`reservedPaths`). */
  const ReservedPaths: set<string> := {"/", "/favicon.ico", "/admin"}

  const InvalidAddr: Response := Failure(400, "Invalid addr (must be /path, scheme://host, or scheme://host/path)")
  const InvalidPath: Response := Failure(400, "Invalid path")

  /** The two slips of the socket draft, each a switch: `returnsOnMissing`
      stops after the missing host-or-path error (the draft goes on), and
      `keepsAddr` stores the parsed URL in the entry (the draft leaves the
      field nil, so `LoadOrStore` dereferences a nil URL). */
  datatype SocketDraft = SocketDraft(returnsOnMissing: bool, keepsAddr: bool)

  const SocketAsWritten: SocketDraft := SocketDraft(false, false)
  const SocketCorrected: SocketDraft := SocketDraft(true, true)

  /** Everything written, in order, the table afterwards, and whether the
      handler panicked (the server then drops the connection). */
  datatype SocketHandled = SocketHandled(responses: seq<Response>, reg: Table, panicked: bool)

  /** The POST branch. */
  function SocketPost(d: SocketDraft, reg: Table, u: Url, name: string, website: string): (h: SocketHandled)
    ensures h.panicked || h.responses != []
    ensures h.panicked ==> h.reg == reg
    ensures h.reg != reg ==> d.keepsAddr && u.path !in ReservedPaths && (d.returnsOnMissing ==> u.host != "" && u.path != "")
    ensures u.path in ReservedPaths ==> !h.panicked && h.responses[|h.responses| - 1] in {MissingForPost, InvalidPath}
  {
    var missing := if u.host == "" || u.path == "" then [MissingForPost] else [];
    if missing != [] && d.returnsOnMissing then SocketHandled(missing, reg, false)
    else if u.path in ReservedPaths then SocketHandled(missing + [InvalidPath], reg, false)
    else if !d.keepsAddr then SocketHandled(missing, reg, true)
    else
      var r := Register(ByPath, reg, Entry(u.path, name, website == "1", u.host, false));
      SocketHandled(missing + [Written(r.reply)], r.reg, false)
  }

  /** The DELETE branch: a non-reserved path deletes that key, otherwise a
      host deletes the first entry with that host. The reply is spelled
      "sucess". */
  function SocketDelete(reg: Table, order: seq<string>, u: Url): (h: SocketHandled)
    ensures !h.panicked && |h.responses| == 1
    ensures h.responses == [InvalidAddr] <==> (u.path in ReservedPaths || u.path == "") && u.host == ""
  {
    if u.path !in ReservedPaths && u.path != "" then SocketHandled([Written("sucess")], Delete(reg, u.path), false)
    else if u.host != "" then SocketHandled([Written("sucess")], DeleteFirstAddr(reg, order, u.host), false)
    else SocketHandled([InvalidAddr], reg, false)
  }

  /** `serversHandler`; `addr` is None when the `addr` value does not
      parse. */
  function SocketHandle(d: SocketDraft, reg: Table, order: seq<string>, m: Method, addr: Option<Url>,
                        name: string, website: string): (h: SocketHandled)
    ensures addr.None? ==> h == SocketHandled([InvalidAddr], reg, false)
    ensures m == Get || m == Other ==> h.reg == reg
  {
    match addr
    case None => SocketHandled([InvalidAddr], reg, false)
    case Some(u) =>
      match m
      case Get => SocketHandled([Listing(Values(reg, order))], reg, false)
      case Del => SocketDelete(reg, order, u)
      case Post => SocketPost(d, reg, u, name, website)
      case Other => SocketHandled([InvalidMethod], reg, false)
  }

  /** With the corrections a POST writes exactly one response, and a
      complete, unreserved URL is registered by its path as in the other
      drafts. */
  lemma SocketPostCorrected(reg: Table, u: Url, name: string, website: string)
    ensures |SocketPost(SocketCorrected, reg, u, name, website).responses| == 1
    ensures u.host != "" && u.path != "" && u.path !in ReservedPaths ==>
      var r := Register(ByPath, reg, Entry(u.path, name, website == "1", u.host, false));
      SocketPost(SocketCorrected, reg, u, name, website) == SocketHandled([Written(r.reply)], r.reg, false)
  {
  }

  /** As written, a POST whose URL lacks a host goes on after the 400:
      with the path "/admin" two errors are written where one was meant,
      and once the URL is kept, a host-less entry is registered. */
  lemma SocketMissingHostContinues(reg: Table, name: string, website: string)
    requires "/x" !in reg
    ensures SocketPost(SocketAsWritten, reg, Url("", "/admin"), name, website).responses == [MissingForPost, InvalidPath]
    ensures SocketPost(SocketCorrected, reg, Url("", "/admin"), name, website).responses == [MissingForPost]
    ensures "/x" in SocketPost(SocketDraft(false, true), reg, Url("", "/x"), "", website).reg
    ensures SocketPost(SocketCorrected, reg, Url("", "/x"), "", website).reg == reg
  {
    assert "/x" !in ReservedPaths;
  }

  /** As written, every POST that gets past the reserved-path check
      panics on the nil URL and registers nothing. */
  lemma SocketNilAddrPanics(reg: Table, u: Url, name: string, website: string)
    requires u.path !in ReservedPaths
    ensures SocketPost(SocketAsWritten, reg, u, name, website).panicked
    ensures SocketPost(SocketAsWritten, reg, u, name, website).reg == reg
    ensures u.host != "" && u.path != "" ==> !SocketPost(SocketCorrected, reg, u, name, website).panicked
  {
  }

  /** A DELETE by a usable path removes only that key. */
  lemma SocketDeleteByPath(reg: Table, order: seq<string>, u: Url)
    requires u.path != "" && u.path !in ReservedPaths
    ensures SocketDelete(reg, order, u) == SocketHandled([Written("sucess")], reg - {u.path}, false)
  {
  }
}
