/** The argument handling of connector.py: both a host and a route must be
    given, one trailing '/' is taken off the host, and the route is
    enclosed in slashes, which is the form proxy.go looks routes up in. */
module Connector {
  import opened Base
  import opened SlugProxy

  /** How the script goes on: exit with a status and a message, or go on
      with the normalised values. */
  datatype Checked = Exit(status: nat, message: string) | Normalised(host: string, route: string)

  /** The host with one trailing '/' removed. */
  function StripSlash(host: string): (h: string)
    ensures host == h || host == h + "/"
    ensures host != [] && host[|host| - 1] == '/' <==> |h| < |host|
  {
    if host != [] && host[|host| - 1] == '/' then host[..|host| - 1] else host
  }

  /** The checks and rewrites before the script prints its values. An
      argument that is absent or empty counts as missing. */
  function Normalise(host: Option<string>, route: Option<string>): (c: Checked)
    ensures c.Exit? <==> host.None? || host == Some("") || route.None? || route == Some("")
    ensures c.Exit? ==> c.status == 1
    ensures c.Normalised? ==> c.route == Enclose(route.value) && c.host == StripSlash(host.value)
  {
    if host.None? || host.value == "" then Exit(1, "Must provide hostname")
    else if route.None? || route.value == "" then Exit(1, "Must provide route")
    else
      var r := if route.value[0] != '/' then "/" + route.value else route.value;
      Normalised(StripSlash(host.value), if r[|r| - 1] != '/' then r + "/" else r)
  }

  /** A missing host is reported first, whatever the route. */
  lemma MissingHostFirst(route: Option<string>)
    ensures Normalise(None, route) == Exit(1, "Must provide hostname")
    ensures Normalise(Some(""), route) == Exit(1, "Must provide hostname")
  {
  }

  /** Only one slash is stripped, and a host of a single slash becomes
      empty without being reported. */
  lemma StripOnce()
    ensures StripSlash("a//") == "a/"
    ensures Normalise(Some("/"), Some("x")) == Normalised("", "/x/")
  {
    assert "a//"[..2] == "a/";
  }

  /** Normalising a normalised route changes nothing. */
  lemma NormaliseIdempotent(host: string, route: string)
    requires host != [] && route != []
    ensures var c := Normalise(Some(host), Some(route));
      Normalise(Some(host), Some(c.route)).route == c.route
  {
    EncloseIdempotent(route);
  }

  /** A one-segment route given to the script is the route proxy.go looks
      up for any path under it, with or without the leading slash. */
  lemma RouteFound(host: string, slug: string, rest: string)
    requires host != [] && slug != [] && '/' !in slug
    ensures var c := Normalise(Some(host), Some(slug));
      c.route == RouteOf("/" + slug + "/" + rest) == RouteOf(slug + "/" + rest)
  {
    var p := "/" + slug + "/" + rest;
    CharFromIs(p, '/', 1, |slug| + 1);
    assert p[..|slug| + 1] == "/" + slug;
    var q := slug + "/" + rest;
    CharFromIs(q, '/', 0, |slug|);
    assert q[..|slug|] == slug;
  }
}
