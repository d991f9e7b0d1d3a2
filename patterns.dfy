/**
  The three link patterns, applied with `re.match`:

    DOI    ^http(s)?://(dx\.)?doi.org/.*$
    arXiv  ^http(s)?://arxiv.org/abs/.*$
    ADS    ^http(s)?://adsabs.harvard.edu/abs/.*$

  Each is a fixed prefix followed by `.*$`. The optional groups become
  alternative prefixes; an unescaped `.` matches any character but a
  newline, and `.*$` accepts a rest with no newline except possibly one
  final newline (without MULTILINE, `$` also matches just before a
  newline that ends the string).
 */
module Patterns {

  datatype Atom = Lit(c: char) | AnyChar

  /** A prefix written with every character literal. */
  function Lits(s: string): seq<Atom>
  {
    seq(|s|, i requires 0 <= i < |s| => Lit(s[i]))
  }

  /** A prefix written in regex syntax, where an unescaped `.` is a wildcard. */
  function Glob(s: string): seq<Atom>
  {
    seq(|s|, i requires 0 <= i < |s| => if s[i] == '.' then AnyChar else Lit(s[i]))
  }

  predicate AtomMatches(a: Atom, c: char)
  {
    match a
    case Lit(x) => c == x
    case AnyChar => c != '\n'
  }

  predicate PrefixMatches(pat: seq<Atom>, u: string)
  {
    |pat| <= |u| && forall k :: 0 <= k < |pat| ==> AtomMatches(pat[k], u[k])
  }

  /** `.*$` matched against the rest of the string. */
  predicate RestMatches(t: string)
  {
    forall k :: 0 <= k < |t| && t[k] == '\n' ==> k == |t| - 1
  }

  predicate FullMatch(pat: seq<Atom>, u: string)
  {
    PrefixMatches(pat, u) && RestMatches(u[|pat|..])
  }

  predicate MatchesAny(pats: seq<seq<Atom>>, u: string)
  {
    exists p :: p in pats && FullMatch(p, u)
  }

  const DoiPrefixes: seq<seq<Atom>> := [
    Lits("http://") + Glob("doi.org/"),
    Lits("https://") + Glob("doi.org/"),
    Lits("http://dx.") + Glob("doi.org/"),
    Lits("https://dx.") + Glob("doi.org/")
  ]

  const ArxivPrefixes: seq<seq<Atom>> := [
    Lits("http://") + Glob("arxiv.org/abs/"),
    Lits("https://") + Glob("arxiv.org/abs/")
  ]

  const AdsPrefixes: seq<seq<Atom>> := [
    Lits("http://") + Glob("adsabs.harvard.edu/abs/"),
    Lits("https://") + Glob("adsabs.harvard.edu/abs/")
  ]

  /** `DOI_REGEX.match(u)` succeeds: then `u` begins with `http` and is at least as long as `http://doi.org/`. */
  predicate DoiMatch(u: string)
    ensures DoiMatch(u) ==> |u| >= 15 && u[..4] == "http"
  {
    MatchesAny(DoiPrefixes, u)
  }

  /** `ARXIV_REGEX.match(u)` succeeds: then `u` begins with `http` and is at least as long as `http://arxiv.org/abs/`. */
  predicate ArxivMatch(u: string)
    ensures ArxivMatch(u) ==> |u| >= 21 && u[..4] == "http"
  {
    MatchesAny(ArxivPrefixes, u)
  }

  /** `ADS_REGEX.match(u)` succeeds: then `u` begins with `http` and is at least as long as `http://adsabs.harvard.edu/abs/`. */
  predicate AdsMatch(u: string)
    ensures AdsMatch(u) ==> |u| >= 30 && u[..4] == "http"
  {
    MatchesAny(AdsPrefixes, u)
  }

  /** Every pattern needs at least its scheme, so the empty string matches none. */
  lemma MatchesNonEmpty(u: string)
    requires DoiMatch(u) || ArxivMatch(u) || AdsMatch(u)
    ensures u != ""
  {
  }

  /** The literal prefix `s` matches wherever the string begins with `s`. */
  lemma LitsMatch(s: string, rest: string)
    ensures PrefixMatches(Lits(s), s + rest)
  {
  }

  /** A regex-syntax prefix matches its own spelling when it holds no newline. */
  lemma GlobMatch(s: string, rest: string)
    requires '\n' !in s
    ensures PrefixMatches(Glob(s), s + rest)
  {
    forall k | 0 <= k < |s|
      ensures AtomMatches(Glob(s)[k], (s + rest)[k])
    {
      assert s[k] in s;
    }
  }

  lemma ConcatMatch(p: seq<Atom>, q: seq<Atom>, a: string, b: string, rest: string)
    requires |p| == |a| && |q| == |b|
    requires PrefixMatches(p, a + b + rest) && PrefixMatches(q, b + rest)
    ensures PrefixMatches(p + q, a + b + rest)
  {
    forall k | |p| <= k < |p| + |q|
      ensures AtomMatches((p + q)[k], (a + b + rest)[k])
    {
      assert (a + b + rest)[k] == (b + rest)[k - |p|];
    }
  }

  /** `http(s)://` followed by `host` and the rest `rest`. */
  lemma SchemeHostMatch(scheme: string, host: string, rest: string)
    requires '\n' !in host && '\n' !in rest
    ensures FullMatch(Lits(scheme) + Glob(host), scheme + host + rest)
  {
    var u := scheme + host + rest;
    assert u == scheme + (host + rest);
    LitsMatch(scheme, host + rest);
    GlobMatch(host, rest);
    ConcatMatch(Lits(scheme), Glob(host), scheme, host, rest);
    assert u[|scheme| + |host|..] == rest;
    forall k | 0 <= k < |rest| ensures rest[k] != '\n' {
      assert rest[k] in rest;
    }
  }

  /** A prefix that disagrees with `u` at a literal position does not match `u`. */
  lemma LitMismatch(pat: seq<Atom>, u: string, k: nat)
    requires k < |pat| && k < |u| && pat[k].Lit? && pat[k].c != u[k]
    ensures !FullMatch(pat, u)
  {
  }

  /** `https://doi.org/...`, the form DOI links take, is classified DOI. */
  lemma DoiLinksMatch(rest: string)
    requires '\n' !in rest
    ensures DoiMatch("https://doi.org/" + rest)
    ensures DoiMatch("https://dx.doi.org/" + rest)
  {
    SchemeHostMatch("https://", "doi.org/", rest);
    assert "https://" + "doi.org/" + rest == "https://doi.org/" + rest;
    assert DoiPrefixes[1] == Lits("https://") + Glob("doi.org/");
    SchemeHostMatch("https://dx.", "doi.org/", rest);
    assert "https://dx." + "doi.org/" + rest == "https://dx.doi.org/" + rest;
    assert DoiPrefixes[3] == Lits("https://dx.") + Glob("doi.org/");
  }

  /** `https://arxiv.org/abs/...` matches the arXiv pattern and not the DOI one. */
  lemma ArxivLinksMatch(rest: string)
    requires '\n' !in rest
    ensures ArxivMatch("https://arxiv.org/abs/" + rest)
    ensures !DoiMatch("https://arxiv.org/abs/" + rest)
  {
    var u := "https://arxiv.org/abs/" + rest;
    SchemeHostMatch("https://", "arxiv.org/abs/", rest);
    assert "https://" + "arxiv.org/abs/" + rest == u;
    assert ArxivPrefixes[1] == Lits("https://") + Glob("arxiv.org/abs/");
    assert u[4] == 's' && u[8] == 'a';
    NotDoiAt8(u);
  }

  /** `https://adsabs.harvard.edu/abs/...` matches the ADS pattern only. */
  lemma AdsLinksMatch(rest: string)
    requires '\n' !in rest
    ensures AdsMatch("https://adsabs.harvard.edu/abs/" + rest)
    ensures !DoiMatch("https://adsabs.harvard.edu/abs/" + rest)
    ensures !ArxivMatch("https://adsabs.harvard.edu/abs/" + rest)
  {
    var u := "https://adsabs.harvard.edu/abs/" + rest;
    AdsPrefixMatch(rest);
    assert u[4] == 's' && u[8] == 'a' && u[9] == 'd';
    NotDoiAt8(u);
    NotArxivAt9(u);
  }

  lemma AdsPrefixMatch(rest: string)
    requires '\n' !in rest
    ensures FullMatch(AdsPrefixes[1], "https://adsabs.harvard.edu/abs/" + rest)
  {
    SchemeHostMatch("https://", "adsabs.harvard.edu/abs/", rest);
    assert "https://" + "adsabs.harvard.edu/abs/" == "https://adsabs.harvard.edu/abs/";
  }

  /** A string with `s` at index 4 and no `d` at index 8 matches no DOI prefix. */
  lemma NotDoiAt8(u: string)
    requires |u| > 8 && u[4] == 's' && u[8] != 'd'
    ensures !DoiMatch(u)
  {
    forall p | p in DoiPrefixes
      ensures !FullMatch(p, u)
    {
      if p == DoiPrefixes[0] || p == DoiPrefixes[2] {
        assert p[4] == Lit(':');
        LitMismatch(p, u, 4);
      } else {
        assert p[8] == Lit('d');
        LitMismatch(p, u, 8);
      }
    }
  }

  /** A string with `s` at index 4 and no `r` at index 9 matches no arXiv prefix. */
  lemma NotArxivAt9(u: string)
    requires |u| > 9 && u[4] == 's' && u[9] != 'r'
    ensures !ArxivMatch(u)
  {
    forall p | p in ArxivPrefixes
      ensures !FullMatch(p, u)
    {
      if p == ArxivPrefixes[0] {
        assert p[4] == Lit(':');
        LitMismatch(p, u, 4);
      } else {
        assert p[9] == Lit('r');
        LitMismatch(p, u, 9);
      }
    }
  }

  /**
    The dots are unescaped: `https://doi_org/...` is taken for a DOI link
    just as `https://doi.org/...` is.
   */
  lemma DotIsWildcard(rest: string)
    requires '\n' !in rest
    ensures DoiMatch("https://doi_org/" + rest)
  {
    var u := "https://doi_org/" + rest;
    var p := DoiPrefixes[1];
    assert p == Lits("https://") + Glob("doi.org/");
    assert |p| == 16;
    forall k | 0 <= k < 16
      ensures AtomMatches(p[k], u[k])
    {
    }
    assert u[16..] == rest;
    forall k | 0 <= k < |rest| ensures rest[k] != '\n' {
      assert rest[k] in rest;
    }
    assert FullMatch(p, u);
  }

  /**
    A newline anywhere but at the very end defeats every pattern: no atom of
    a prefix accepts it, and past the prefix `.*$` does not.
   */
  lemma InnerNewlineFails(u: string, k: nat)
    requires k < |u| - 1 && u[k] == '\n'
    ensures !RestMatches(u)
    ensures !DoiMatch(u) && !ArxivMatch(u) && !AdsMatch(u)
  {
    forall p | p in DoiPrefixes + ArxivPrefixes + AdsPrefixes
      ensures !FullMatch(p, u)
    {
      PrefixesNewlineFree(p);
      NewlineRejected(p, u, k);
    }
  }

  /** No atom of `p` accepts a newline. */
  predicate NewlineFree(p: seq<Atom>)
  {
    forall k :: 0 <= k < |p| ==> p[k] != Lit('\n')
  }

  lemma LitsGlobNewlineFree(s: string, t: string)
    requires '\n' !in s && '\n' !in t
    ensures NewlineFree(Lits(s) + Glob(t))
  {
    forall k | 0 <= k < |s| + |t|
      ensures (Lits(s) + Glob(t))[k] != Lit('\n')
    {
      if k < |s| {
        assert s[k] in s;
      } else {
        assert t[k - |s|] in t;
      }
    }
  }

  lemma PrefixesNewlineFree(p: seq<Atom>)
    requires p in DoiPrefixes + ArxivPrefixes + AdsPrefixes
    ensures NewlineFree(p)
  {
    LitsGlobNewlineFree("http://", "doi.org/");
    LitsGlobNewlineFree("https://", "doi.org/");
    LitsGlobNewlineFree("http://dx.", "doi.org/");
    LitsGlobNewlineFree("https://dx.", "doi.org/");
    LitsGlobNewlineFree("http://", "arxiv.org/abs/");
    LitsGlobNewlineFree("https://", "arxiv.org/abs/");
    LitsGlobNewlineFree("http://", "adsabs.harvard.edu/abs/");
    LitsGlobNewlineFree("https://", "adsabs.harvard.edu/abs/");
  }

  lemma NewlineRejected(p: seq<Atom>, u: string, k: nat)
    requires NewlineFree(p) && k < |u| - 1 && u[k] == '\n'
    ensures !FullMatch(p, u)
  {
    if k < |p| {
      assert !AtomMatches(p[k], u[k]);
    } else if |p| <= |u| {
      assert u[|p|..][k - |p|] == '\n';
    }
  }
}
