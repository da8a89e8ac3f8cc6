/** proxy.go, the earliest draft: a backend is registered under a route of
    the form "/slug/", the first slug of a request path selects it, a
    liveness probe evicts a backend on its first refusal, and the
    registration listener splits "host\troute" messages. */
module SlugProxy {
  import opened Base
  import opened Registry

  /** Index of the first `c` in `s` at or after `from`, or |s|. */
  function CharFrom(s: string, c: char, from: nat): (j: nat)
    requires from <= |s|
    ensures from <= j <= |s|
    ensures forall k :: from <= k < j ==> s[k] != c
    ensures j < |s| ==> s[j] == c
    decreases |s| - from
  {
    if from == |s| || s[from] == c then from else CharFrom(s, c, from + 1)
  }

  /** `CharFrom` is the only index with its two properties. */
  lemma {:induction false} CharFromIs(s: string, c: char, from: nat, j: nat)
    requires from <= j <= |s|
    requires forall k :: from <= k < j ==> s[k] != c
    requires j < |s| ==> s[j] == c
    ensures CharFrom(s, c, from) == j
    decreases |s| - from
  {
    if from < j {
      CharFromIs(s, c, from + 1, j);
    }
  }

  /** The end of the first slug: the second '/' of a path that starts with
      one, the first '/' of a path that does not, or the end of the path. */
  function SlugEnd(path: string): nat
    requires path != []
  {
    CharFrom(path, '/', if path[0] == '/' then 1 else 0)
  }

  /** The scan of `handle`: walk the path, let a leading '/' pass, and
      stop at the next one. */
  method SlugScan(path: string) returns (i: nat)
    requires path != []
    ensures i == SlugEnd(path)
    ensures 1 <= i <= |path|
  {
    var firstSlash := path[0] == '/';
    i := 0;
    while i < |path|
      invariant 0 <= i <= |path|
      invariant firstSlash <==> path[0] == '/' && i == 0
      invariant forall k :: (if path[0] == '/' then 1 else 0) <= k < i ==> path[k] != '/'
    {
      if path[i] == '/' {
        if !firstSlash {
          break;
        }
        firstSlash := false;
      }
      i := i + 1;
    }
    CharFromIs(path, '/', if path[0] == '/' then 1 else 0, i);
  }

  /** A route enclosed in slashes: a '/' is added in front and at the end
      when missing. */
  function Enclose(route: string): (r: string)
    requires route != []
    ensures |route| <= |r| <= |route| + 2 && (route[0] != '/' ==> |r| > |route|)
    ensures r[0] == '/' && r[|r| - 1] == '/'
    ensures route[0] == '/' ==> r[..|route|] == route
    ensures route[0] != '/' ==> r[1..|route| + 1] == route
  {
    var front := if route[0] != '/' then "/" + route else route;
    if front[|front| - 1] != '/' then front + "/" else front
  }

  /** Enclosing twice is enclosing once. */
  lemma EncloseIdempotent(route: string)
    requires route != []
    ensures Enclose(Enclose(route)) == Enclose(route)
  {
  }

  /** A route that already has both slashes is left alone. */
  lemma EncloseKeepsEnclosed(route: string)
    requires route != [] && route[0] == '/' && route[|route| - 1] == '/'
    ensures Enclose(route) == route
  {
  }

  /** The route a path is looked up under. */
  function RouteOf(path: string): (r: string)
    requires path != []
    ensures |r| >= 1 && r[0] == '/' && r[|r| - 1] == '/'
  {
    Enclose(path[..SlugEnd(path)])
  }

  /** "/images/image" and "images/image" are both looked up as
      "/images/". */
  lemma RouteSample(rest: string)
    ensures RouteOf("/images/" + rest) == "/images/"
    ensures RouteOf("images/" + rest) == "/images/"
  {
    var p := "/images/" + rest;
    CharFromIs(p, '/', 1, 7);
    assert p[..7] == "/images";
    var q := "images/" + rest;
    CharFromIs(q, '/', 0, 6);
    assert q[..6] == "images";
  }

  /** What `handle` does with a parsed request. */
  datatype SlugOutcome =
    | Panic            // an index or slice out of range: the program stops
    | Drop             // no backend for the route: close without a reply
    | Dial(host: string)

  /** Two slips of `handle`, each switched on as written: `deferNilClose`
      defers `Close` on the still-nil backend connection (proxy.go:73-74);
      evaluating a method of a nil interface value panics, and it happens
      as soon as the defer statement runs. `cutAtRead` cuts the route at
      the number of bytes read rather than at the end of the first slug
      (proxy.go:96). */
  datatype SlugDraft = SlugDraft(deferNilClose: bool, cutAtRead: bool)

  const SlugAsWritten: SlugDraft := SlugDraft(true, true)
  const SlugCorrected: SlugDraft := SlugDraft(false, false)

  /** `handle` after a successful read, with `path` the parsed URL path and
      `readLen` the number of bytes the read returned. */
  function HandleSlug(d: SlugDraft, conns: map<string, string>, path: string, readLen: nat): (o: SlugOutcome)
    ensures o.Dial? ==> exists r :: r in conns && conns[r] == o.host
    ensures d.deferNilClose ==> o == Panic
    ensures !d.deferNilClose && !d.cutAtRead && path != [] ==> !o.Panic?
  {
    if d.deferNilClose || path == [] then Panic
    else if d.cutAtRead && (readLen > |path| || readLen == 0) then Panic
    else
      var route := Enclose(if d.cutAtRead then path[..readLen] else path[..SlugEnd(path)]);
      if route !in conns then Drop else Dial(conns[route])
  }

  /** With both slips corrected, a request is sent to the backend of its
      route, and an unregistered route is dropped without a dial. */
  lemma SlugRouting(conns: map<string, string>, path: string, readLen: nat)
    requires path != []
    ensures RouteOf(path) !in conns ==> HandleSlug(SlugCorrected, conns, path, readLen) == Drop
    ensures RouteOf(path) in conns ==> HandleSlug(SlugCorrected, conns, path, readLen) == Dial(conns[RouteOf(path)])
  {
  }

  /** As written, every request that is read at all panics at the deferred
      `Close`, before it is parsed; with that line corrected, the same
      request is routed by its first slug. */
  lemma NilClosePanics(conns: map<string, string>, path: string, readLen: nat)
    requires path != []
    ensures HandleSlug(SlugAsWritten, conns, path, readLen) == Panic
    ensures HandleSlug(SlugCorrected, conns, path, readLen) != Panic
  {
  }

  /** With the deferred `Close` corrected, the cut at the length of the
      whole request read, which exceeds the path's whenever the request
      line holds the path and a method, still panics for every request. */
  lemma SlugAsWrittenPanics(conns: map<string, string>, verb: string, path: string, tail: string)
    requires path != [] && verb != []
    ensures HandleSlug(SlugDraft(false, true), conns, path, |verb + " " + path + tail|) == Panic
    ensures HandleSlug(SlugCorrected, conns, path, |verb + " " + path + tail|) != Panic
  {
  }

  // ---------------------------------------------------------------------
  // Liveness probe and registration messages
  // ---------------------------------------------------------------------

  /** One `ping` pass: a route whose host refuses the probe is deleted at
      once; any other outcome keeps it. */
  method PingSweep(conns: map<string, string>, order: seq<string>, probe: string -> Probe) returns (r: map<string, string>)
    requires Enumerates(order, conns)
    ensures forall k :: k in r <==> k in conns && probe(k) != Refused
    ensures forall k :: k in r ==> r[k] == conns[k]
  {
    r := conns;
    var i := 0;
    while i < |order|
      invariant 0 <= i <= |order|
      invariant forall k :: k in r ==> k in conns && r[k] == conns[k]
      invariant forall k :: k in conns && k !in order[..i] ==> k in r
      invariant forall k :: k in order[..i] ==> (k in r <==> k in conns && probe(k) != Refused)
    {
      var k := order[i];
      assert order[..i + 1] == order[..i] + [k];
      if probe(k) == Refused {
        r := r - {k};
      }
      i := i + 1;
    }
    assert order[..i] == order;
  }

  /** `strings.Split(msg, "\t")` read as fields 0 and 1; None when there
      is no tab (indexing field 1 then panics). Field 1 ends at the next
      tab, if any. */
  function SplitTab(msg: string): (r: Option<(string, string)>)
    ensures r.None? <==> forall i :: 0 <= i < |msg| ==> msg[i] != '\t'
    ensures r.Some? ==>
      var (host, route) := r.value;
      |host| < |msg| && msg[..|host|] == host && msg[|host|] == '\t' && '\t' !in host &&
      |host| + 1 + |route| <= |msg| && msg[|host| + 1..|host| + 1 + |route|] == route && '\t' !in route &&
      (|host| + 1 + |route| == |msg| || msg[|host| + 1 + |route|] == '\t')
  {
    var t := CharFrom(msg, '\t', 0);
    if t == |msg| then None
    else
      var u := CharFrom(msg, '\t', t + 1);
      Some((msg[..t], msg[t + 1..u]))
  }

  /** A message built from a tab-free host and route splits back into
      them. */
  lemma SplitTabRoundTrip(host: string, route: string)
    requires '\t' !in host && '\t' !in route
    ensures SplitTab(host + "\t" + route) == Some((host, route))
  {
    var msg := host + "\t" + route;
    CharFromIs(msg, '\t', 0, |host|);
    CharFromIs(msg, '\t', |host| + 1, |msg|);
    assert msg[..|host|] == host;
    assert msg[|host| + 1..|msg|] == route;
  }
}
