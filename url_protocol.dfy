/** The URL normaliser `ensureUrlHasProtocol`: a URL that already starts with
    `http://` or `https://`, the scheme letters in any case, is returned as
    it is; any other string gets `https://` put in front of it. */
module UrlProtocol {
  import opened AsciiCase
  import opened AnchoredRegex

  /** The scheme that is put in front of a URL that lacks one. */
  const DefaultScheme: string := "https://"

  /** The regular expression `/^https?:\/\//i`. */
  const SchemePattern: Pattern := Literal("http") + [Optional('s')] + Literal("://")

  /** Reference definition of a recognised scheme: the first seven characters,
      lower-cased, are `http://`, or the first eight are `https://`. */
  predicate HasHttpScheme(s: string)
  {
    (|s| >= 7 && LowerAscii(s[..7]) == "http://") || (|s| >= 8 && LowerAscii(s[..8]) == "https://")
  }

  /** `ensureUrlHasProtocol(url)`: the regular expression decides, and the
      contract states the two outcomes in terms of the reference predicate. */
  function EnsureUrlHasProtocol(url: string): (r: string)
    ensures HasHttpScheme(url) ==> r == url
    ensures !HasHttpScheme(url) ==> r == DefaultScheme + url
  {
    SchemePatternExact(url);
    if Matches(SchemePattern, url) then url else DefaultScheme + url
  }

  /** For a lower-case literal, the `i`-flag comparison of a prefix is the
      same as comparing the lower-cased prefix. */
  lemma StartsWithLowered(s: string, w: string)
    requires forall i :: 0 <= i < |w| ==> !IsUpper(w[i])
    ensures StartsWithIgnoringCase(s, w) <==> |w| <= |s| && LowerAscii(s[..|w|]) == w
  {
    if |w| <= |s| {
      forall i | 0 <= i < |w| ensures CharMatches(s[i], w[i]) == (LowerAscii(s[..|w|])[i] == w[i]) {
        SameCanonical(s[i], w[i]);
      }
      if forall i :: 0 <= i < |w| ==> LowerAscii(s[..|w|])[i] == w[i] {
        assert LowerAscii(s[..|w|]) == w;
      }
    }
  }

  /** A prefix made of two pieces is matched piece by piece. */
  lemma StartsWithConcat(s: string, a: string, b: string)
    ensures StartsWithIgnoringCase(s, a + b) <==>
      StartsWithIgnoringCase(s, a) && StartsWithIgnoringCase(s[|a|..], b)
  {
    if StartsWithIgnoringCase(s, a) && StartsWithIgnoringCase(s[|a|..], b) {
      forall i | |a| <= i < |a| + |b| ensures CharMatches(s[i], (a + b)[i]) {
        assert s[|a|..][i - |a|] == s[i];
      }
    }
    if StartsWithIgnoringCase(s, a + b) {
      forall i | 0 <= i < |b| ensures CharMatches(s[|a|..][i], b[i]) {
        assert (a + b)[|a| + i] == b[i];
      }
    }
  }

  /** The regular expression recognises exactly the strings of the reference
      predicate: `/^https?:\/\//i` matches `s` if and only if `s` starts with
      `http://` or `https://` in any letter case. */
  lemma SchemePatternExact(s: string)
    ensures Matches(SchemePattern, s) <==> HasHttpScheme(s)
  {
    var sep := Literal("://");
    assert SchemePattern == Literal("http") + ([Optional('s')] + sep);
    MatchesLiteralThen("http", [Optional('s')] + sep, s);
    StartsWithLowered(s, "http://");
    StartsWithLowered(s, "https://");
    StartsWithConcat(s, "http", "://");
    StartsWithConcat(s, "http", "s://");
    assert "http" + "://" == "http://" && "http" + "s://" == "https://";
    if |s| >= 4 {
      var t := s[4..];
      var p := [Optional('s')] + sep;
      assert p[0] == Optional('s') && p[1..] == sep;
      assert sep + [] == sep;
      MatchesLiteralThen("://", [], t);
      if |t| > 0 {
        MatchesLiteralThen("://", [], t[1..]);
        StartsWithIgnoringCaseStep(t, "s://");
        assert "s://"[1..] == "://";
      }
      assert Matches(p, t) <==>
        (|t| > 0 && CharMatches(t[0], 's') && Matches(sep, t[1..])) || Matches(sep, t);
    }
  }

  /** Every output starts with a recognised scheme. */
  lemma OutputHasScheme(url: string)
    ensures HasHttpScheme(EnsureUrlHasProtocol(url))
  {
    if !HasHttpScheme(url) {
      var r := DefaultScheme + url;
      assert r[..8] == DefaultScheme;
      assert LowerAscii(r[..8]) == DefaultScheme;
    }
  }

  /** Normalising twice is normalising once. */
  lemma Idempotent(url: string)
    ensures EnsureUrlHasProtocol(EnsureUrlHasProtocol(url)) == EnsureUrlHasProtocol(url)
  {
    OutputHasScheme(url);
  }

  /** The input is never altered: the output is the input with either nothing
      or the default scheme in front of it. */
  lemma InputIsSuffix(url: string)
    ensures var r := EnsureUrlHasProtocol(url);
      |url| <= |r| && r[|r| - |url|..] == url && r[..|r| - |url|] in {"", DefaultScheme}
  {
  }

  /** The output is as long as the input exactly when the input already had a
      scheme, and eight characters longer otherwise. */
  lemma LengthGrowth(url: string)
    ensures |EnsureUrlHasProtocol(url)| == if HasHttpScheme(url) then |url| else |url| + 8
  {
  }

  /** Any casing of the scheme is recognised and kept as written. */
  lemma AnyCasingKept(scheme: string, rest: string)
    requires LowerAscii(scheme) == "http://" || LowerAscii(scheme) == "https://"
    ensures EnsureUrlHasProtocol(scheme + rest) == scheme + rest
  {
    var s := scheme + rest;
    assert s[..|scheme|] == scheme;
  }

  /** Two strings that differ only in the case of ASCII letters take the same
      branch; each keeps its own casing. */
  lemma DetectionIgnoresCase(s: string, t: string)
    requires LowerAscii(s) == LowerAscii(t)
    ensures HasHttpScheme(s) == HasHttpScheme(t)
    ensures (EnsureUrlHasProtocol(s) == s) == (EnsureUrlHasProtocol(t) == t)
  {
    if |s| >= 7 {
      assert LowerAscii(s[..7]) == LowerAscii(s)[..7] == LowerAscii(t)[..7] == LowerAscii(t[..7]);
    }
    if |s| >= 8 {
      assert LowerAscii(s[..8]) == LowerAscii(s)[..8] == LowerAscii(t)[..8] == LowerAscii(t[..8]);
    }
  }

  /** The match is anchored at the start: a string whose first character is
      not `h` or `H` gets the default scheme, whatever follows. */
  lemma AnchoredAtStart(url: string)
    requires |url| > 0 && LowerChar(url[0]) != 'h'
    ensures EnsureUrlHasProtocol(url) == DefaultScheme + url
  {
    if |url| >= 7 {
      assert LowerAscii(url[..7])[0] == LowerChar(url[0]);
    }
    if |url| >= 8 {
      assert LowerAscii(url[..8])[0] == LowerChar(url[0]);
    }
  }

  // Concrete cases: the unit tests, then two strings that show the match is anchored.

  /** Example: a URL with the `http` scheme is not modified. */
  lemma KeepsHttpUrl()
    ensures EnsureUrlHasProtocol("http://example.com") == "http://example.com"
  {
    AnyCasingKept("http://", "example.com");
  }

  /** Example: a URL with the `https` scheme is not modified. */
  lemma KeepsHttpsUrl()
    ensures EnsureUrlHasProtocol("https://yale.edu") == "https://yale.edu"
  {
    AnyCasingKept("https://", "yale.edu");
  }

  /** Example: a bare host name gets `https://`. */
  lemma AddsHttpsToHost()
    ensures EnsureUrlHasProtocol("yale.edu") == "https://yale.edu"
  {
    assert DefaultScheme + "yale.edu" == "https://yale.edu";
    AnchoredAtStart("yale.edu");
  }

  /** Example: a `www.` host name gets `https://`. */
  lemma AddsHttpsToWwwHost()
    ensures EnsureUrlHasProtocol("www.yale.edu") == "https://www.yale.edu"
  {
    assert DefaultScheme + "www.yale.edu" == "https://www.yale.edu";
    AnchoredAtStart("www.yale.edu");
  }

  /** Example: a subdomain gets `https://`. */
  lemma AddsHttpsToSubdomain()
    ensures EnsureUrlHasProtocol("admissions.yale.edu") == "https://admissions.yale.edu"
  {
    assert DefaultScheme + "admissions.yale.edu" == "https://admissions.yale.edu";
    AnchoredAtStart("admissions.yale.edu");
  }

  /** Example: a host with a path gets `https://`. */
  lemma AddsHttpsToPath()
    ensures EnsureUrlHasProtocol("yale.edu/admissions") == "https://yale.edu/admissions"
  {
    assert DefaultScheme + "yale.edu/admissions" == "https://yale.edu/admissions";
    AnchoredAtStart("yale.edu/admissions");
  }

  /** Example: an upper-case scheme is recognised and kept. */
  lemma KeepsUpperCaseScheme()
    ensures EnsureUrlHasProtocol("HTTPS://yale.edu") == "HTTPS://yale.edu"
  {
    assert LowerAscii("HTTPS://") == "https://";
    AnyCasingKept("HTTPS://", "yale.edu");
  }

  /** Example: a scheme other than http(s) is not recognised. */
  lemma AddsHttpsToFtpUrl()
    ensures EnsureUrlHasProtocol("ftp://yale.edu") == "https://ftp://yale.edu"
  {
    assert DefaultScheme + "ftp://yale.edu" == "https://ftp://yale.edu";
    AnchoredAtStart("ftp://yale.edu");
  }

  /** Example: `http://` further into the text is not a scheme. */
  lemma AddsHttpsBeforeLaterScheme()
    ensures EnsureUrlHasProtocol("www.yale.edu/http://") == "https://www.yale.edu/http://"
  {
    assert DefaultScheme + "www.yale.edu/http://" == "https://www.yale.edu/http://";
    AnchoredAtStart("www.yale.edu/http://");
  }
}
