/** The request rewrite main.go and server/server.go apply before a request
    is forwarded: the routing segment (the site name, and the slash after it
    when a path follows) is taken out of the request target, and a
    `Forwarded` field naming the client is inserted before the blank line
    that ends the header block. */
module Rewrite {
  import opened Base
  import opened RequestLine

  /** End of the request line's routing segment: just past the site name,
      or past the slash that follows it. */
  function SegmentCut(req: string, name: string): (cut: nat)
    requires SiteName(req) == Some(name)
    ensures WordEnd(req, 0) + 2 + |name| <= cut < |req|
  {
    var p := WordEnd(req, 0) + 2 + |name|;
    if req[p] == '/' then p + 1 else p
  }

  /** The segment removed by position: the text before the site name is
      kept, then everything after the routing segment. */
  function StripSegment(req: string, name: string): (r: string)
    requires SiteName(req) == Some(name)
    ensures |r| < |req| || name == []
  {
    var w := WordEnd(req, 0);
    req[..w + 2] + req[SegmentCut(req, name)..]
  }

  /** "M /s/rest HTTP…" becomes "M /rest HTTP…" and "M /s HTTP…" becomes
      "M / HTTP…"; nothing else in the request changes. */
  lemma StripSegmentSpec(req: string, verb: string, name: string, rest: string, after: string)
    requires MatchesWith(req, verb, name, rest, after)
    ensures SiteName(req) == Some(name)
    ensures StripSegment(req, name) == verb + " /" + (if rest == [] then [] else rest[1..]) + " HTTP" + after
  {
    MethodEnd(req, verb, name, rest, after);
    var x := if rest == [] then [] else rest[1..];
    StripTail(req, verb, name, rest, after);
    calc {
      StripSegment(req, name);
      (verb + " /") + (x + " HTTP" + after);
      verb + " /" + x + " HTTP" + after;
    }
  }

  /** What the positional strip keeps after the routing segment. */
  lemma StripTail(req: string, verb: string, name: string, rest: string, after: string)
    requires MatchesWith(req, verb, name, rest, after)
    ensures SiteName(req) == Some(name)
    ensures req[SegmentCut(req, name)..] == (if rest == [] then [] else rest[1..]) + " HTTP" + after
  {
    MethodEnd(req, verb, name, rest, after);
    CutFollows(req, name, rest + " HTTP" + after);
    SkipSlash(rest, " HTTP", after);
  }

  /** The text after the site name starts with '/' exactly when a path
      follows, and dropping that '/' drops the path's first character. */
  lemma SkipSlash(rest: string, mid: string, after: string)
    requires mid != [] && mid[0] != '/' && (rest == [] || rest[0] == '/')
    ensures var t := rest + mid + after;
      t != [] && (t[0] == '/' <==> rest != []) &&
      (rest == [] ==> t == [] + mid + after) &&
      (rest != [] ==> t[1..] == rest[1..] + mid + after)
  {
    var t := rest + mid + after;
    if rest != [] {
      assert t[0] == rest[0];
      assert t[1..] == rest[1..] + mid + after;
    } else {
      assert t[0] == mid[0];
    }
  }

  /** The cut keeps what follows the site name, less a leading '/'. */
  lemma CutFollows(req: string, name: string, t: string)
    requires SiteName(req) == Some(name) && t != []
    requires req[WordEnd(req, 0) + 2 + |name|..] == t
    ensures t[0] == '/' ==> req[SegmentCut(req, name)..] == t[1..]
    ensures t[0] != '/' ==> req[SegmentCut(req, name)..] == t
  {
    var p := WordEnd(req, 0) + 2 + |name|;
    assert req[p] == t[0];
    if t[0] == '/' {
      assert req[p + 1..] == req[p..][1..];
    }
  }

  /** Stripping the segment of a request for a site name with nothing
      after it leaves a request for the root. */
  lemma StripBareIsRoot(req: string, verb: string, name: string, after: string)
    requires MatchesWith(req, verb, name, [], after)
    ensures SiteName(req) == Some(name)
    ensures SiteName(StripSegment(req, name)) == Some([])
  {
    StripSegmentSpec(req, verb, name, [], after);
    EmptyNameMatches(StripSegment(req, name), verb, after);
  }

  /** A request line with nothing between "METHOD /" and " HTTP" has the
      empty site name. */
  lemma EmptyNameMatches(r: string, verb: string, after: string)
    requires |verb| > 0 && AllWord(verb) && r == verb + " /" + [] + " HTTP" + after
    ensures SiteName(r) == Some([])
  {
    var x: string := [];
    assert r == verb + " /" + x + x + " HTTP" + after;
    SiteNameComplete(r, verb, x, x, after);
  }

  /** Stripping the segment of a request whose path has one more segment
      leaves a request routed by that segment. */
  lemma StripPathShifts(req: string, verb: string, name: string, rest: string, after: string)
    requires MatchesWith(req, verb, name, rest, after) && rest != [] && AllSegment(rest[1..])
    ensures SiteName(req) == Some(name)
    ensures SiteName(StripSegment(req, name)) == Some(rest[1..])
  {
    StripSegmentSpec(req, verb, name, rest, after);
    var r := StripSegment(req, name);
    assert r == verb + " /" + rest[1..] + [] + " HTTP" + after;
    SiteNameComplete(r, verb, rest[1..], [], after);
  }

  // ---------------------------------------------------------------------
  // The strip as the source writes it
  // ---------------------------------------------------------------------

  /** The first '/' of a matching request is the one after the method. */
  lemma FirstSlash(req: string)
    requires SiteName(req).Some?
    ensures IndexOf(req, "/") == Some(WordEnd(req, 0) + 1)
  {
    var w := WordEnd(req, 0);
    assert HasAt(req, w + 1, "/");
    forall k: nat | k < w + 1
      ensures !HasAt(req, k, "/")
    {
      assert req[k..k + 1][0] == req[k];
    }
    IndexOfIs(req, "/", w + 1);
  }

  /** `bytes.Replace` on the first occurrence: if the character after the
      site name is '/', "name/" is removed, otherwise "name". That
      character is found from the first '/' of the request; in a matching
      request the slash exists and the index is in range (`FirstSlash`,
      `SegmentCut`), where the source would otherwise panic, so the two
      fallbacks to `req` are never taken on a routed request. */
  function StripSegmentAsWritten(req: string, name: string): (r: string)
    ensures |r| <= |req| || |name| == 0
  {
    match StripPattern(req, name)
    case None => req
    case Some(pat) => ReplaceFirst(req, pat, "")
  }

  /** The text the as-written strip deletes: "name/" when the character
      after the site name is '/', otherwise "name". */
  function StripPattern(req: string, name: string): (pat: Option<string>)
    ensures pat.Some? ==> |name| <= |pat.value| <= |name| + 1 && pat.value[..|name|] == name
  {
    match IndexOf(req, "/")
    case None => None
    case Some(i) =>
      var j := i + |name| + 1;
      if j >= |req| then None
      else if req[j] == '/' then Some(name + "/") else Some(name)
  }

  /** The as-written strip looks at the character right after the site
      name. */
  lemma StripAsWrittenAt(req: string, name: string, i: nat)
    requires IndexOf(req, "/") == Some(i) && i + |name| + 1 < |req|
    ensures req[i + |name| + 1] == '/' ==>
      StripSegmentAsWritten(req, name) == ReplaceFirst(req, name + "/", "")
    ensures req[i + |name| + 1] != '/' ==>
      StripSegmentAsWritten(req, name) == ReplaceFirst(req, name, "")
  {
    var pat := if req[i + |name| + 1] == '/' then name + "/" else name;
    assert StripPattern(req, name) == Some(pat);
  }

  /** Nothing before the site name holds "name/": the method is word
      characters and the site name holds neither ' ' nor '/'. */
  lemma SlashPatternFirstAt(req: string, verb: string, name: string, rest: string, after: string)
    requires MatchesWith(req, verb, name, rest, after) && name != [] && rest != []
    ensures IndexOf(req, name + "/") == Some(|verb| + 2)
  {
    var m, n := |verb|, |name|;
    var pat := name + "/";
    assert req[m + 2..m + 2 + n] == name;
    assert req[m + 2 + n] == rest[0] == '/';
    assert req[m + 2..m + 2 + n + 1] == pat;
    forall k: nat | k < m + 2
      ensures !HasAt(req, k, pat)
    {
      if k + n + 1 <= |req| {
        if k + n < m {
          assert req[k + n] == verb[k + n];
          assert req[k..k + n + 1][n] != pat[n];
        } else if k + n == m {
          assert req[k + n] == ' ';
          assert req[k..k + n + 1][n] != pat[n];
        } else if k <= m {
          assert req[m] == ' ';
          assert req[k..k + n + 1][m - k] != pat[m - k];
        } else {
          assert k == m + 1 && req[k] == '/';
          assert req[k..k + n + 1][0] != pat[0];
        }
      }
    }
    IndexOfIs(req, pat, m + 2);
  }

  /** When the site name does not occur in the method, its first occurrence
      is the one in the request target. */
  lemma NamePatternFirstAt(req: string, verb: string, name: string, rest: string, after: string)
    requires MatchesWith(req, verb, name, rest, after) && name != []
    requires IndexOf(verb, name).None?
    ensures IndexOf(req, name) == Some(|verb| + 2)
  {
    var m, n := |verb|, |name|;
    assert req[m + 2..m + 2 + n] == name;
    IndexOfSpec(verb, name);
    forall k: nat | k < m + 2
      ensures !HasAt(req, k, name)
    {
      if k + n <= |req| {
        if k + n <= m {
          assert !HasAt(verb, k, name);
          assert req[k..k + n] == verb[k..k + n];
        } else if k <= m {
          assert req[m] == ' ';
          assert req[k..k + n][m - k] != name[m - k];
        } else {
          assert k == m + 1 && req[k] == '/';
          assert req[k..k + n][0] != name[0];
        }
      }
    }
    IndexOfIs(req, name, m + 2);
  }

  /** The first-occurrence replacement agrees with the positional strip
      whenever a path follows the site name, and otherwise whenever the
      site name does not occur inside the method token. */
  lemma StripAgrees(req: string, verb: string, name: string, rest: string, after: string)
    requires MatchesWith(req, verb, name, rest, after) && name != []
    requires rest != [] || IndexOf(verb, name).None?
    ensures SiteName(req) == Some(name)
    ensures StripSegmentAsWritten(req, name) == StripSegment(req, name)
  {
    StripAt(req, verb, name, rest, after);
    if rest != [] {
      StripAsWrittenSlash(req, verb, name, rest, after);
    } else {
      StripAsWrittenBareAt(req, verb, name, after);
    }
  }

  /** The positional strip cuts out the site name, and the slash after it
      when a path follows. */
  lemma StripAt(req: string, verb: string, name: string, rest: string, after: string)
    requires MatchesWith(req, verb, name, rest, after)
    ensures SiteName(req) == Some(name)
    ensures rest == [] ==> StripSegment(req, name) == req[..|verb| + 2] + req[|verb| + 2 + |name|..]
    ensures rest != [] ==> StripSegment(req, name) == req[..|verb| + 2] + req[|verb| + 2 + |name| + 1..]
  {
    MethodEnd(req, verb, name, rest, after);
    var p := |verb| + 2 + |name|;
    var t := rest + " HTTP" + after;
    assert req[p] == t[0];
    assert t[0] == (if rest == [] then ' ' else '/');
    assert SegmentCut(req, name) == (if rest == [] then p else p + 1);
  }

  /** Without a path, and with the site name absent from the method, the
      as-written strip deletes the site name where it stands. */
  lemma StripAsWrittenBareAt(req: string, verb: string, name: string, after: string)
    requires MatchesWith(req, verb, name, [], after) && name != []
    requires IndexOf(verb, name).None?
    ensures SiteName(req) == Some(name)
    ensures StripSegmentAsWritten(req, name) == req[..|verb| + 2] + req[|verb| + 2 + |name|..]
  {
    StripAsWrittenBare(req, verb, name, after);
    NamePatternFirstAt(req, verb, name, [], after);
    DeletesAt(req, name, name, |verb| + 2);
  }

  /** When the as-written strip deletes `pat` and `pat` first occurs at
      `k`, the text at `k` is cut out. */
  lemma DeletesAt(req: string, name: string, pat: string, k: nat)
    requires StripSegmentAsWritten(req, name) == ReplaceFirst(req, pat, "")
    requires IndexOf(req, pat) == Some(k)
    ensures StripSegmentAsWritten(req, name) == req[..k] + req[k + |pat|..]
  {
    DeleteFirst(req, pat, k);
  }

  /** With a path after the site name, the as-written strip deletes
      "name/" where it stands. */
  lemma StripAsWrittenSlash(req: string, verb: string, name: string, rest: string, after: string)
    requires MatchesWith(req, verb, name, rest, after) && name != [] && rest != []
    ensures SiteName(req) == Some(name)
    ensures StripSegmentAsWritten(req, name) == req[..|verb| + 2] + req[|verb| + 2 + |name| + 1..]
  {
    MethodEnd(req, verb, name, rest, after);
    MatchParts(req, verb, name, rest, after);
    FirstSlash(req);
    StripAsWrittenAt(req, name, |verb| + 1);
    var p := |verb| + 2 + |name|;
    assert req[p] == (rest + " HTTP" + after)[0];
    SlashPatternFirstAt(req, verb, name, rest, after);
    DeletesAt(req, name, name + "/", |verb| + 2);
  }

  /** An occurrence of the site name inside the method is its first
      occurrence in the whole request. */
  lemma NameFirstInMethod(req: string, verb: string, name: string, rest: string, after: string, i: nat)
    requires MatchesWith(req, verb, name, rest, after)
    requires IndexOf(verb, name) == Some(i)
    ensures IndexOf(req, name) == Some(i)
  {
    MatchParts(req, verb, name, rest, after);
    var n := |name|;
    assert req[..|verb|] == verb;
    IndexOfSpec(verb, name);
    forall j: nat | j < i
      ensures !HasAt(req, j, name)
    {
      assert !HasAt(verb, j, name);
      assert req[j..j + n] == verb[j..j + n];
    }
    assert req[i..i + n] == verb[i..i + n];
    IndexOfIs(req, name, i);
  }

  /** Without a path after the site name, the as-written strip replaces the
      first occurrence of the bare site name. */
  lemma StripAsWrittenBare(req: string, verb: string, name: string, after: string)
    requires MatchesWith(req, verb, name, [], after)
    ensures SiteName(req) == Some(name)
    ensures StripSegmentAsWritten(req, name) == ReplaceFirst(req, name, "")
  {
    MethodEnd(req, verb, name, [], after);
    MatchParts(req, verb, name, [], after);
    FirstSlash(req);
    StripAsWrittenAt(req, name, |verb| + 1);
    assert req[|verb| + 2 + |name|] == (" HTTP" + after)[0];
  }

  /** Cutting `n` characters at `i` out of the method part of a match. */
  lemma CutInMethod(req: string, verb: string, name: string, after: string, i: nat, n: nat)
    requires MatchesWith(req, verb, name, [], after) && i + n <= |verb|
    ensures req[..i] + req[i + n..] == verb[..i] + verb[i + n..] + " /" + name + " HTTP" + after
  {
    MatchParts(req, verb, name, [], after);
    var m := |verb|;
    assert req[..i] == verb[..i];
    assert req[i + n..] == req[i + n..m] + req[m..];
    assert req[m..] == " /" + name + " HTTP" + after;
  }

  /** When the site name occurs inside the method and nothing follows it,
      the replacement removes it from the method instead and leaves the
      site name in the target. */
  lemma StripAsWrittenHitsMethod(req: string, verb: string, name: string, after: string, i: nat)
    requires MatchesWith(req, verb, name, [], after)
    requires IndexOf(verb, name) == Some(i)
    ensures SiteName(req) == Some(name)
    ensures StripSegmentAsWritten(req, name) == verb[..i] + verb[i + |name|..] + " /" + name + " HTTP" + after
  {
    StripAsWrittenBare(req, verb, name, after);
    ReplaceInMethod(req, verb, name, after, i);
  }

  /** Deleting the first occurrence of a site name that occurs in the
      method. */
  lemma ReplaceInMethod(req: string, verb: string, name: string, after: string, i: nat)
    requires MatchesWith(req, verb, name, [], after)
    requires IndexOf(verb, name) == Some(i)
    ensures ReplaceFirst(req, name, "") == verb[..i] + verb[i + |name|..] + " /" + name + " HTTP" + after
  {
    NameFirstInMethod(req, verb, name, [], after, i);
    DeleteFirst(req, name, i);
    CutInMethod(req, verb, name, after, i, |name|);
  }

  /** The two strips then differ: at the index where the method ends in the
      as-written result, the positional strip still has a method
      character. */
  lemma StripAsWrittenDiffers(req: string, verb: string, name: string, after: string, i: nat)
    requires MatchesWith(req, verb, name, [], after) && name != []
    requires IndexOf(verb, name) == Some(i)
    ensures SiteName(req) == Some(name)
    ensures StripSegmentAsWritten(req, name) != StripSegment(req, name)
  {
    StripAsWrittenHitsMethod(req, verb, name, after, i);
    StripSegmentSpec(req, verb, name, [], after);
    var m, n := |verb|, |name|;
    var a := verb[..i] + verb[i + n..];
    assert |a| == m - n;
    assert (a + " /" + name + " HTTP" + after)[m - n] == ' ';
    assert (verb + " /" + [] + " HTTP" + after)[m - n] == verb[m - n];
  }

  /** "GET /E HTTP…" for the site "E": the replacement yields "GT /E HTTP…"
      where "GET / HTTP…" is meant. */
  lemma StripAsWrittenSample(after: string)
    ensures SiteName("GET /E HTTP" + after) == Some("E")
    ensures StripSegmentAsWritten("GET /E HTTP" + after, "E") == "GT /E HTTP" + after
    ensures StripSegment("GET /E HTTP" + after, "E") == "GET / HTTP" + after
  {
    assert "GET"[..1] + "GET"[2..] + " /" + "E" + " HTTP" == "GT /E HTTP";
    assert "GET" + " /" + [] + " HTTP" == "GET / HTTP";
    assert "GET" + " /" + "E" + [] + " HTTP" == "GET /E HTTP";
    assert HasAt("GET", 1, "E");
    assert !HasAt("GET", 0, "E") by { assert "GET"[0..1][0] != "E"[0]; }
    IndexOfIs("GET", "E", 1);
    var req := "GET /E HTTP" + after;
    StripAsWrittenHitsMethod(req, "GET", "E", after, 1);
    StripSegmentSpec(req, "GET", "E", [], after);
  }

  // ---------------------------------------------------------------------
  // The Forwarded field
  // ---------------------------------------------------------------------

  /** The blank line that ends an HTTP header block. */
  const HeaderEnd: string := "\r\n\r\n"

  /** The field line added for the client at `peer` (its "host:port"),
      with the `for=` pair that section 4 of RFC 7239 defines. */
  function ForwardedField(peer: string): (f: string)
    ensures |f| == 17 + |peer|
    ensures f[..2] == "\r\n" && f[2..13] == "Forwarded: " && f[13..17] == "for=" && f[17..] == peer
  {
    "\r\nForwarded: for=" + peer
  }

  /** The field line as main.go and server/server.go build it: the '='
      between the parameter name and its value is missing. */
  function ForwardedFieldAsWritten(peer: string): (f: string)
    ensures |f| == 16 + |peer|
    ensures f[..2] == "\r\n" && f[2..13] == "Forwarded: " && f[13..16] == "for" && f[16..] == peer
  {
    "\r\nForwarded: for" + peer
  }

  /** Insert `field` right before the first blank line; a request without
      one (its header block did not fit the first read) is left as it is. */
  function InsertField(req: string, field: string): (r: string)
    ensures IndexOf(req, HeaderEnd).None? ==> r == req
    ensures IndexOf(req, HeaderEnd).Some? ==>
      var k := IndexOf(req, HeaderEnd).value;
      |r| == |req| + |field| && r[..k] == req[..k] && r[k..k + |field|] == field && r[k + |field|..] == req[k..]
  {
    InsertFieldShape(req, field);
    ReplaceFirst(req, HeaderEnd, field + HeaderEnd)
  }

  /** Replacing the blank line by the field and the blank line inserts the
      field in front of it. */
  lemma InsertFieldShape(req: string, field: string)
    ensures IndexOf(req, HeaderEnd).None? ==> ReplaceFirst(req, HeaderEnd, field + HeaderEnd) == req
    ensures IndexOf(req, HeaderEnd).Some? ==>
      var k := IndexOf(req, HeaderEnd).value;
      var r := ReplaceFirst(req, HeaderEnd, field + HeaderEnd);
      r[..k] == req[..k] && r[k..k + |field|] == field && r[k + |field|..] == req[k..]
  {
    if IndexOf(req, HeaderEnd).Some? {
      var k := IndexOf(req, HeaderEnd).value;
      var r := ReplaceFirst(req, HeaderEnd, field + HeaderEnd);
      assert r == req[..k] + (field + HeaderEnd) + req[k + 4..];
      assert req[k..] == req[k..k + 4] + req[k + 4..];
      assert r[k + |field|..] == HeaderEnd + req[k + 4..];
    }
  }

  /** Taking the inserted field out again gives back the request. */
  lemma InsertFieldInverse(req: string, field: string)
    requires IndexOf(req, HeaderEnd).Some?
    ensures var k := IndexOf(req, HeaderEnd).value;
      var r := InsertField(req, field);
      r[..k] + r[k + |field|..] == req
  {
    var k := IndexOf(req, HeaderEnd).value;
    assert req[..k] + req[k..] == req;
  }

  /** The field main.go writes has no '=' after `for` unless the peer
      address starts with one, so it is not a `for=` pair. */
  lemma ForwardedAsWrittenLacksPair(peer: string)
    requires peer != [] && peer[0] != '='
    ensures ForwardedFieldAsWritten(peer)[16] != '='
    ensures ForwardedField(peer)[16] == '='
  {
    assert ForwardedFieldAsWritten(peer)[16..][0] == peer[0];
    assert ForwardedField(peer)[13..17][3] == '=';
  }

  /** The whole rewrite of a routed request: strip the routing segment,
      then add the Forwarded field. */
  function RewriteRequest(req: string, name: string, peer: string): (r: string)
    requires SiteName(req) == Some(name)
    ensures IndexOf(StripSegment(req, name), HeaderEnd).Some? ==> |r| == |StripSegment(req, name)| + |ForwardedField(peer)|
  {
    InsertField(StripSegment(req, name), ForwardedField(peer))
  }

  /** The rewrite as main.go writes it. */
  function RewriteRequestAsWritten(req: string, name: string, peer: string): (r: string)
    requires SiteName(req) == Some(name)
    ensures IndexOf(StripSegmentAsWritten(req, name), HeaderEnd).None? ==> r == StripSegmentAsWritten(req, name)
  {
    InsertField(StripSegmentAsWritten(req, name), ForwardedFieldAsWritten(peer))
  }
}
