/** The request-line pattern `^\w+ /([^/ ]+)?(/.+)? HTTP` that main.go,
    server/server.go and simple/main.go route on, as a hand-written scanner
    (`SiteName`) together with the language it is meant to recognise
    (`Matches`), and the proof that the two agree. `\w` is [0-9A-Za-z_] and
    `.` is any character but a line feed, as in Go's regexp syntax. */
module RequestLine {
  import opened Base

  /** A character of the class `[^/ ]`. */
  predicate IsSegmentChar(c: char) {
    c != '/' && c != ' '
  }

  /** End of the longest run of `[^/ ]` characters that starts at `i`. */
  function SegmentEnd(s: string, i: nat): (j: nat)
    requires i <= |s|
    ensures i <= j <= |s|
    ensures forall k :: i <= k < j ==> IsSegmentChar(s[k])
    ensures j == |s| || !IsSegmentChar(s[j])
    decreases |s| - i
  {
    if i < |s| && IsSegmentChar(s[i]) then SegmentEnd(s, i + 1) else i
  }

  /** `SegmentEnd` is pinned down by the run it describes. */
  lemma {:induction false} SegmentEndIs(s: string, i: nat, j: nat)
    requires i <= j <= |s|
    requires forall k :: i <= k < j ==> IsSegmentChar(s[k])
    requires j == |s| || !IsSegmentChar(s[j])
    ensures SegmentEnd(s, i) == j
    decreases j - i
  {
    if i < j {
      SegmentEndIs(s, i + 1, j);
    }
  }

  /** Cutting a sequence at increasing points and joining the pieces gives
      it back. */
  lemma Pieces(s: string, a: nat, b: nat, c: nat, d: nat)
    requires a <= b <= c <= d <= |s|
    ensures s == s[..a] + s[a..b] + s[b..c] + s[c..d] + s[d..]
  {
    assert s[..a] + s[a..b] == s[..b];
    assert s[..b] + s[b..c] == s[..c];
    assert s[..c] + s[c..d] == s[..d];
    assert s[..d] + s[d..] == s;
  }

  /** ` HTTP` occurs at or after `i` with no line feed in between. */
  function HttpWithinLine(s: string, i: nat): bool
    requires i <= |s|
    decreases |s| - i
  {
    if HasAt(s, i, " HTTP") then true
    else if i == |s| || s[i] == '\n' then false
    else HttpWithinLine(s, i + 1)
  }

  /** What may follow group 1 at `p`: ` HTTP` at once, or `/.+` then ` HTTP`. */
  predicate TailMatches(s: string, p: nat)
    requires p <= |s|
  {
    || HasAt(s, p, " HTTP")
    || (p + 1 < |s| && s[p] == '/' && s[p + 1] != '\n' && HttpWithinLine(s, p + 2))
  }

  /** Group 1 of the pattern (empty when the group does not take part), or
      None when the text does not match. Group 1 is greedy and the
      character after it must be '/' or ' ', so it is the whole run of
      `[^/ ]` characters after "METHOD /". */
  function SiteName(s: string): (r: Option<string>)
    ensures r.Some? ==> forall k :: 0 <= k < |r.value| ==> IsSegmentChar(r.value[k])
  {
    var w := WordEnd(s, 0);
    if w == 0 || w + 2 > |s| || s[w] != ' ' || s[w + 1] != '/' then None
    else
      var p := SegmentEnd(s, w + 2);
      if TailMatches(s, p) then Some(s[w + 2..p]) else None
  }

  // ---------------------------------------------------------------------
  // The language of the pattern
  // ---------------------------------------------------------------------

  predicate AllWord(t: string) {
    forall k :: 0 <= k < |t| ==> IsWordChar(t[k])
  }

  predicate AllSegment(t: string) {
    forall k :: 0 <= k < |t| ==> IsSegmentChar(t[k])
  }

  predicate NoLineFeed(t: string) {
    forall k :: 0 <= k < |t| ==> t[k] != '\n'
  }

  /** Group 2, `(/.+)?`: nothing, or a slash and at least one more
      character of the same line. */
  predicate ValidRest(t: string) {
    t == [] || (|t| >= 2 && t[0] == '/' && NoLineFeed(t[1..]))
  }

  /** One way of reading `s` as METHOD " /" NAME REST " HTTP" AFTER. */
  predicate MatchesWith(s: string, verb: string, name: string, rest: string, after: string) {
    && |verb| > 0 && AllWord(verb) && AllSegment(name) && ValidRest(rest)
    && s == verb + " /" + name + rest + " HTTP" + after
  }

  /** `s` matches the pattern with `name` as group 1. */
  ghost predicate Matches(s: string, name: string) {
    exists verb, rest, after :: MatchesWith(s, verb, name, rest, after)
  }

  /** `HttpWithinLine` finds an occurrence of ` HTTP` before any line feed. */
  lemma {:induction false} HttpWitness(s: string, i: nat) returns (k: nat)
    requires i <= |s| && HttpWithinLine(s, i)
    ensures i <= k && HasAt(s, k, " HTTP") && NoLineFeed(s[i..k])
    decreases |s| - i
  {
    if HasAt(s, i, " HTTP") {
      k := i;
    } else {
      k := HttpWitness(s, i + 1);
      assert s[i..k] == [s[i]] + s[i + 1..k];
    }
  }

  /** Any ` HTTP` reachable without a line feed is found. */
  lemma {:induction false} HttpFound(s: string, i: nat, k: nat)
    requires i <= k && HasAt(s, k, " HTTP") && NoLineFeed(s[i..k])
    ensures HttpWithinLine(s, i)
    decreases k - i
  {
    if i < k && !HasAt(s, i, " HTTP") {
      assert s[i] == s[i..k][0];
      assert s[i + 1..k] == s[i..k][1..];
      HttpFound(s, i + 1, k);
    }
  }

  /** The pieces of a line with ` HTTP` right after the site name. */
  lemma ShortForm(s: string, w: nat, p: nat)
    requires 0 < w && w + 2 <= p && HasAt(s, p, " HTTP")
    requires AllWord(s[..w]) && s[w] == ' ' && s[w + 1] == '/' && AllSegment(s[w + 2..p])
    ensures MatchesWith(s, s[..w], s[w + 2..p], [], s[p + 5..])
  {
    assert s[w..w + 2] == " /";
    Pieces(s, w, w + 2, p, p + 5);
  }

  /** The pieces of a line with a path after the site name. */
  lemma LongForm(s: string, w: nat, p: nat, k: nat)
    requires 0 < w && w + 2 <= p && p + 2 <= k && HasAt(s, k, " HTTP")
    requires AllWord(s[..w]) && s[w] == ' ' && s[w + 1] == '/' && AllSegment(s[w + 2..p])
    requires s[p] == '/' && s[p + 1] != '\n' && NoLineFeed(s[p + 2..k])
    ensures MatchesWith(s, s[..w], s[w + 2..p], s[p..k], s[k + 5..])
  {
    var rest := s[p..k];
    assert rest[1..] == [s[p + 1]] + s[p + 2..k];
    assert ValidRest(rest);
    assert s[w..w + 2] == " /";
    Pieces(s, w, w + 2, p, k);
    assert s[k..] == s[k..k + 5] + s[k + 5..];
  }

  /** Whatever the scanner returns is a match of the pattern. */
  lemma SiteNameSound(s: string)
    requires SiteName(s).Some?
    ensures Matches(s, SiteName(s).value)
  {
    var w := WordEnd(s, 0);
    var p := SegmentEnd(s, w + 2);
    var name := s[w + 2..p];
    assert SiteName(s).value == name;
    assert AllWord(s[..w]) by {
      forall k | 0 <= k < w
        ensures IsWordChar(s[..w][k])
      {
        assert s[..w][k] == s[k];
      }
    }
    assert AllSegment(name) by {
      forall k | 0 <= k < |name|
        ensures IsSegmentChar(name[k])
      {
        assert name[k] == s[w + 2 + k];
      }
    }
    if HasAt(s, p, " HTTP") {
      ShortForm(s, w, p);
      assert MatchesWith(s, s[..w], name, [], s[p + 5..]);
    } else {
      var k := HttpWitness(s, p + 2);
      LongForm(s, w, p, k);
      assert MatchesWith(s, s[..w], name, s[p..k], s[k + 5..]);
    }
  }

  /** Where the pieces of a match sit in the text. */
  lemma MatchParts(s: string, verb: string, name: string, rest: string, after: string)
    requires MatchesWith(s, verb, name, rest, after)
    ensures |s| == |verb| + 2 + |name| + |rest| + 5 + |after|
    ensures s[..|verb|] == verb && s[|verb|] == ' ' && s[|verb| + 1] == '/'
    ensures s[|verb| + 2..|verb| + 2 + |name|] == name
    ensures s[|verb| + 2 + |name|..] == rest + " HTTP" + after
  {
    var m, n := |verb|, |name|;
    var head := verb + " /" + name;
    assert s == head + (rest + " HTTP" + after);
    assert s[..m + 2 + n] == head;
    assert head[..m] == verb && head[m..m + 2] == " /" && head[m + 2..] == name;
  }

  /** What follows group 1 in a match satisfies the scanner's tail test,
      and its first character ends the run of `[^/ ]`. */
  lemma TailFound(s: string, p: nat, rest: string, after: string)
    requires p <= |s| && s[p..] == rest + " HTTP" + after && ValidRest(rest)
    ensures p < |s| && !IsSegmentChar(s[p]) && TailMatches(s, p)
  {
    var t := rest + " HTTP" + after;
    assert s[p] == t[0];
    if rest == [] {
      assert s[p..p + 5] == t[..5] == " HTTP";
    } else {
      var k := p + |rest|;
      assert s[k..k + 5] == t[|rest|..|rest| + 5] == " HTTP";
      var seg := s[p + 2..k];
      forall i | 0 <= i < |seg|
        ensures seg[i] != '\n'
      {
        assert seg[i] == s[p..][2 + i] == t[2 + i] == rest[1..][1 + i];
      }
      assert s[p + 1] == t[1] == rest[1];
      HttpFound(s, p + 2, k);
    }
  }

  /** Every match of the pattern is found, with its group 1. */
  lemma SiteNameComplete(s: string, verb: string, name: string, rest: string, after: string)
    requires MatchesWith(s, verb, name, rest, after)
    ensures SiteName(s) == Some(name)
  {
    var m, n := |verb|, |name|;
    var p := m + 2 + n;
    MatchParts(s, verb, name, rest, after);
    forall k | 0 <= k < m
      ensures IsWordChar(s[k])
    {
      assert s[k] == s[..m][k];
    }
    WordEndIs(s, 0, m);
    forall k | m + 2 <= k < p
      ensures IsSegmentChar(s[k])
    {
      assert s[k] == s[m + 2..p][k - m - 2];
    }
    TailFound(s, p, rest, after);
    SegmentEndIs(s, m + 2, p);
  }

  /** In a match, the method is the leading run of word characters and is
      followed by " /". */
  lemma MethodEnd(s: string, verb: string, name: string, rest: string, after: string)
    requires MatchesWith(s, verb, name, rest, after)
    ensures SiteName(s) == Some(name)
    ensures WordEnd(s, 0) == |verb| && s[..|verb| + 2] == verb + " /"
    ensures s[|verb| + 2 + |name|..] == rest + " HTTP" + after
  {
    SiteNameComplete(s, verb, name, rest, after);
    MatchParts(s, verb, name, rest, after);
    var m := |verb|;
    forall k | 0 <= k < m
      ensures IsWordChar(s[k])
    {
      assert s[k] == s[..m][k];
    }
    WordEndIs(s, 0, m);
    assert s[..m + 2][..m] == s[..m];
  }

  /** The scanner returns `name` exactly when the text matches the pattern
      with `name` in group 1; in particular group 1 is unique. */
  lemma SiteNameIff(s: string, name: string)
    ensures SiteName(s) == Some(name) <==> Matches(s, name)
  {
    if SiteName(s) == Some(name) {
      SiteNameSound(s);
    }
    if Matches(s, name) {
      var verb, rest, after :| MatchesWith(s, verb, name, rest, after);
      SiteNameComplete(s, verb, name, rest, after);
    }
  }

  /** A matching line starts with a non-empty run of word characters, one
      space and a slash; its site name holds neither '/' nor ' '. */
  lemma MatchShape(s: string)
    requires SiteName(s).Some?
    ensures var w := WordEnd(s, 0);
      0 < w && w + 2 <= |s| && s[w] == ' ' && s[w + 1] == '/'
    ensures '/' !in SiteName(s).value && ' ' !in SiteName(s).value
  {
  }

  /** A request for the root yields the empty site name. */
  lemma RootIsEmptyName(verb: string, version: string)
    requires |verb| > 0 && AllWord(verb)
    ensures SiteName(verb + " / HTTP" + version) == Some("")
  {
    SiteNameComplete(verb + " / HTTP" + version, verb, "", "", version);
  }
}
