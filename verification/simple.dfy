/** `handleConn` of simple/main.go: read the request line, answer a line
    that does not match the request-line pattern with 400, and otherwise
    take group 1 of the pattern as the site name. The draft never chooses a
    backend for that name: both pipes start with a nil connection. */
module Simple {
  import opened Base
  import opened RequestLine
  import opened Dispatcher

  /** What `handleConn` does with the first line. */
  datatype LineOutcome =
    | Closed                   // the read failed: close without a reply
    | Answered(text: string)   // a reply, then close
    | Site(name: string)       // keep the connection open for `name`

  /** `line` is None when `ReadLine` fails (timeout, EOF, or any other
      error). */
  function HandleLine(line: Option<string>): (o: LineOutcome)
    ensures line.None? <==> o.Closed?
    ensures o.Answered? ==> o.text == BadRequest
    ensures o.Site? ==> '/' !in o.name && ' ' !in o.name
  {
    match line
    case None => Closed
    case Some(l) =>
      match SiteName(l)
      case None => Answered(BadRequest)
      case Some(name) =>
        MatchShape(l);
        Site(name)
  }

  /** A line is kept open for `name` exactly when it matches the pattern
      with `name` as group 1, and refused with 400 exactly when it matches
      with no group 1 at all. */
  lemma HandleLineIff(line: string, name: string)
    ensures HandleLine(Some(line)) == Site(name) <==> Matches(line, name)
    ensures HandleLine(Some(line)) == Answered(BadRequest) <==> forall n :: !Matches(line, n)
  {
    SiteNameIff(line, name);
    if HandleLine(Some(line)) == Answered(BadRequest) {
      forall n | true
        ensures !Matches(line, n)
      {
        SiteNameIff(line, n);
      }
    } else {
      var n := SiteName(line).value;
      SiteNameIff(line, n);
    }
  }

  /** A request for the root is kept open with the empty site name. */
  lemma RootRequest(verb: string, version: string)
    requires |verb| > 0 && AllWord(verb)
    ensures HandleLine(Some(verb + " / HTTP" + version)) == Site("")
  {
    RootIsEmptyName(verb, version);
  }
}
