/**
 Which DNS provider solves the challenges of a domain (config/dns_match.go,
 config/config.go:143-153). path.Match is a parameter: what is said of every glob
 holds for it, and GlobLaws lists the few facts some results need.
 */
module DnsProviders {
  import opened Text
  import opened Wrappers

  type Glob = (string, string) -> bool

  /** The configured name and, for a wildcard, the apex its challenge is presented on. */
  function DomainCandidates(domain: string): seq<string> {
    if "*." <= domain then [domain, domain[2..]] else [domain]
  }

  predicate CandidateHit(glob: Glob, pattern: string, candidate: string) {
    glob(pattern, candidate) || ("*." <= pattern && pattern[2..] == candidate)
  }

  predicate MatchDomain(glob: Glob, pattern: string, domain: string) {
    var p, d := Normalize(pattern), Normalize(domain);
    && p != "" && d != ""
    && exists i | 0 <= i < |DomainCandidates(d)| :: CandidateHit(glob, p, DomainCandidates(d)[i])
  }

  predicate MatchGlobs(glob: Glob, patterns: seq<string>, domain: string) {
    exists i | 0 <= i < |patterns| :: MatchDomain(glob, patterns[i], domain)
  }

  /** The first provider from from on whose patterns hit the domain. */
  function FirstHit(glob: Glob, providers: seq<seq<string>>, domain: string, from: nat := 0): (r: Option<nat>)
    requires from <= |providers|
    ensures r.Some? ==>
      && from <= r.value < |providers| && MatchGlobs(glob, providers[r.value], domain)
      && forall j | from <= j < r.value :: !MatchGlobs(glob, providers[j], domain)
    ensures r.None? ==> forall j | from <= j < |providers| :: !MatchGlobs(glob, providers[j], domain)
    decreases |providers| - from
  {
    if from == |providers| then None
    else if MatchGlobs(glob, providers[from], domain) then Some(from)
    else FirstHit(glob, providers, domain, from + 1)
  }

  /** The provider's index; the first one is the default, and -1 says none is configured. */
  function SelectDNSProvider(glob: Glob, providers: seq<seq<string>>, domain: string): int {
    if providers == [] then -1
    else
      var hit := FirstHit(glob, providers, domain);
      if hit.Some? then hit.value else 0
  }

  /**
   What a pattern takes, both normalised: the domain by the glob; its own zone, if it is
   "*." and the domain; and for a wildcard domain whatever takes the apex so.
   */
  lemma MatchDomainMeaning(glob: Glob, pattern: string, domain: string)
    ensures MatchDomain(glob, pattern, domain) <==>
      var p, d := Normalize(pattern), Normalize(domain);
      && p != "" && d != ""
      && (|| glob(p, d)
          || p == "*." + d
          || exists z :: d == "*." + z && (glob(p, z) || p == "*." + z))
  {
    hide Normalize;
    var p, d := Normalize(pattern), Normalize(domain);
    var cands := DomainCandidates(d);
    assert "*." <= p ==> p == "*." + p[2..];
    assert "*." <= d ==> d == "*." + d[2..];
    assert forall z :: d == "*." + z ==> z == d[2..];
    forall c ensures CandidateHit(glob, p, c) <==> glob(p, c) || p == "*." + c {
      assert ("*." + c)[2..] == c;
    }
    assert cands[0] == d;
    if "*." <= d {
      assert cands[1] == d[2..];
    }
  }

  /** The first provider with a pattern that is the domain itself, case and white space aside, is selected. */
  lemma OwnPatternSelects(glob: Glob, providers: seq<seq<string>>, domain: string, i: nat, j: nat)
    requires GlobLaws(glob) && i < |providers| && j < |providers[i]|
    requires Normalize(providers[i][j]) == Normalize(domain) != ""
    requires Literal(Normalize(domain)) || "*." <= Normalize(domain)
    requires forall k | 0 <= k < i :: !MatchGlobs(glob, providers[k], domain)
    ensures SelectDNSProvider(glob, providers, domain) == i
  {
    hide Normalize, Literal, MatchDomain;
    var d := Normalize(domain);
    assert "*." <= d ==> d == "*." + d[2..];
    MatchDomainMeaning(glob, providers[i][j], domain);
    assert MatchGlobs(glob, providers[i], domain);
  }

  /** Without a provider there is none to select; a domain nobody takes goes to the first. */
  lemma DefaultSelection(glob: Glob, providers: seq<seq<string>>, domain: string)
    ensures SelectDNSProvider(glob, [], domain) == -1
    ensures providers != [] && (forall i | 0 <= i < |providers| :: !MatchGlobs(glob, providers[i], domain)) ==>
      SelectDNSProvider(glob, providers, domain) == 0
  {
    hide MatchGlobs;
  }

  // ===== a wildcard and its apex, for every glob =========================

  /** A normalised zone that is not itself a wildcard. */
  predicate IsZone(z: string) {
    IsNormal(z) && z != "" && !("*." <= z)
  }

  lemma ZoneForms(z: string)
    requires IsZone(z)
    ensures Normalize(z) == z && Normalize("*." + z) == "*." + z
    ensures DomainCandidates(z) == [z] && DomainCandidates("*." + z) == ["*." + z, z]
  {
    NormalUnchanged(z);
    var w := "*." + z;
    assert w[|w| - 1] == z[|z| - 1];
    NormalUnchanged(w);
    assert w[..2] == "*." && w[2..] == z;
  }

  /** A pattern takes the wildcard name iff it takes the name literally or takes the apex. */
  lemma WildcardOrApex(glob: Glob, pattern: string, z: string)
    requires IsZone(z)
    ensures MatchDomain(glob, pattern, z) <==> Normalize(pattern) != "" && CandidateHit(glob, Normalize(pattern), z)
    ensures MatchDomain(glob, pattern, "*." + z) <==>
      || MatchDomain(glob, pattern, z)
      || (Normalize(pattern) != "" && CandidateHit(glob, Normalize(pattern), "*." + z))
  {
    hide Normalize, IsNormal, CandidateHit;
    ZoneForms(z);
    hide DomainCandidates;
    var p, w := Normalize(pattern), "*." + z;
    assert DomainCandidates(z)[0] == z && DomainCandidates(w)[0] == w && DomainCandidates(w)[1] == z;
  }

  /** Whatever hits the apex hits the wildcard, so the wildcard's first hit is never the later one. */
  lemma WildcardHitIsNotLater(glob: Glob, providers: seq<seq<string>>, z: string)
    requires IsZone(z) && FirstHit(glob, providers, z).Some?
    ensures FirstHit(glob, providers, "*." + z).Some?
    ensures FirstHit(glob, providers, "*." + z).value <= FirstHit(glob, providers, z).value
  {
    var n := FirstHit(glob, providers, z).value;
    var i :| 0 <= i < |providers[n]| && MatchDomain(glob, providers[n][i], z);
    WildcardOrApex(glob, providers[n][i], z);
    assert MatchDomain(glob, providers[n][i], "*." + z);
    assert MatchGlobs(glob, providers[n], "*." + z);
  }

  /** One of the patterns takes the name itself, not the apex of a wildcard. */
  predicate TakesLiterally(glob: Glob, patterns: seq<string>, name: string) {
    exists i | 0 <= i < |patterns| :: Normalize(patterns[i]) != "" && CandidateHit(glob, Normalize(patterns[i]), name)
  }

  lemma GlobsWildcardOrApex(glob: Glob, patterns: seq<string>, z: string)
    requires IsZone(z)
    ensures MatchGlobs(glob, patterns, "*." + z) <==>
      TakesLiterally(glob, patterns, z) || TakesLiterally(glob, patterns, "*." + z)
    ensures MatchGlobs(glob, patterns, z) <==> TakesLiterally(glob, patterns, z)
  {
    hide Normalize, CandidateHit, MatchDomain, IsZone;
    var w := "*." + z;
    forall i | 0 <= i < |patterns|
      ensures MatchDomain(glob, patterns[i], z) <==>
        Normalize(patterns[i]) != "" && CandidateHit(glob, Normalize(patterns[i]), z)
      ensures MatchDomain(glob, patterns[i], w) <==>
        || MatchDomain(glob, patterns[i], z)
        || (Normalize(patterns[i]) != "" && CandidateHit(glob, Normalize(patterns[i]), w))
    {
      WildcardOrApex(glob, patterns[i], z);
    }
  }

  /** No provider up to this one has a pattern for the apex. */
  predicate InFrontOf(glob: Glob, providers: seq<seq<string>>, i: nat, z: string)
    requires i < |providers|
  {
    forall k | 0 <= k <= i :: !TakesLiterally(glob, providers[k], z)
  }

  /**
   Exactly when a wildcard certificate and its apex are solved by one provider, whatever
   the glob: no provider in front of the first that takes the apex takes the wildcard name
   literally, or none takes the apex and the default provider takes the wildcard name.
   */
  lemma {:induction false} SharedProviderCondition(glob: Glob, providers: seq<seq<string>>, z: string)
    requires IsZone(z) && providers != []
    ensures
      var w := "*." + z;
      SelectDNSProvider(glob, providers, z) == SelectDNSProvider(glob, providers, w) <==>
        || (forall i | 0 <= i < |providers| && InFrontOf(glob, providers, i, z) ::
              !TakesLiterally(glob, providers[i], w))
        || (TakesLiterally(glob, providers[0], w) && InFrontOf(glob, providers, |providers| - 1, z))
  {
    hide TakesLiterally, MatchGlobs, IsZone;
    forall i | 0 <= i < |providers|
      ensures MatchGlobs(glob, providers[i], z) <==> TakesLiterally(glob, providers[i], z)
      ensures MatchGlobs(glob, providers[i], "*." + z) <==>
        TakesLiterally(glob, providers[i], z) || TakesLiterally(glob, providers[i], "*." + z)
    {
      GlobsWildcardOrApex(glob, providers[i], z);
    }
    var apex, wild := FirstHit(glob, providers, z), FirstHit(glob, providers, "*." + z);
    if wild.Some? && !TakesLiterally(glob, providers[wild.value], z) {
      assert InFrontOf(glob, providers, wild.value, z);
    }
  }

  // ===== the same provider for both ======================================

  predicate Literal(s: string) {
    forall i | 0 <= i < |s| :: s[i] != '*' && s[i] != '?' && s[i] != '[' && s[i] != '\\'
  }

  /** What path.Match does with a literal, with "*", and with "*." before a literal. */
  ghost predicate GlobLaws(glob: Glob) {
    && (forall l, n | Literal(l) :: glob(l, n) <==> n == l)
    && (forall n :: glob("*", n) <==> '/' !in n)
    && (forall l, n | Literal(l) :: glob("*." + l, n) <==> RunThen("." + l, n))
  }

  /** n is a run without "/" followed by tail. */
  predicate RunThen(tail: string, n: string) {
    |tail| <= |n| && n[|n| - |tail|..] == tail && '/' !in n[..|n| - |tail|]
  }

  ghost predicate Simple(pattern: string) {
    || Literal(pattern)
    || pattern == "*"
    || ("*." <= pattern && Literal(pattern[2..]))
  }

  /** "*.l" takes "*.z" only if it takes z, or z is its own apex. */
  lemma StarDotOfWildcard(l: string, z: string)
    requires z != "" && RunThen("." + l, "*." + z)
    ensures z == l || RunThen("." + l, z)
  {
    var w, tail := "*." + z, "." + l;
    var cut := |w| - |tail|;
    assert w[cut..][0] == tail[0] == '.';
    assert w[2..] == z;
    if cut == 1 {
      assert w[1..][1..] == tail[1..] == l;
    } else {
      assert z[cut - 2..] == w[cut..];
      assert forall i | 0 <= i < cut - 2 :: z[i] == w[..cut][i + 2];
    }
  }

  lemma SimplePatternAgrees(glob: Glob, pattern: string, z: string)
    requires GlobLaws(glob) && IsZone(z) && Simple(Normalize(pattern))
    ensures MatchDomain(glob, pattern, z) <==> MatchDomain(glob, pattern, "*." + z)
  {
    WildcardOrApex(glob, pattern, z);
    var p, w := Normalize(pattern), "*." + z;
    if Literal(p) {
      assert w[0] == '*';
      assert "*." <= p ==> p[0] == '*';
    } else if p == "*" {
      assert forall i | 0 <= i < |z| :: z[i] == w[i + 2];
    } else {
      var l := p[2..];
      assert p == "*." + l && w[0] == '*';
      if glob(p, w) {
        StarDotOfWildcard(l, z);
      }
    }
  }

  /** With literals, "*." + literal and "*" only, a wildcard certificate and its apex get the same provider. */
  lemma WildcardAndApexShareProvider(glob: Glob, providers: seq<seq<string>>, z: string)
    requires GlobLaws(glob) && IsZone(z)
    requires forall i, j | 0 <= i < |providers| && 0 <= j < |providers[i]| :: Simple(Normalize(providers[i][j]))
    ensures SelectDNSProvider(glob, providers, z) == SelectDNSProvider(glob, providers, "*." + z)
  {
    forall i | 0 <= i < |providers|
      ensures MatchGlobs(glob, providers[i], z) <==> MatchGlobs(glob, providers[i], "*." + z)
    {
      forall j | 0 <= j < |providers[i]|
        ensures MatchDomain(glob, providers[i][j], z) <==> MatchDomain(glob, providers[i][j], "*." + z)
      {
        SimplePatternAgrees(glob, providers[i][j], z);
      }
    }
  }

  // ===== a glob that obeys the laws ======================================

  /** path.Match without character classes and escapes. */
  predicate SimpleGlob(pattern: string, name: string)
    decreases |pattern| + |name|
  {
    if pattern == "" then name == ""
    else if pattern[0] == '*' then
      SimpleGlob(pattern[1..], name) || (name != "" && name[0] != '/' && SimpleGlob(pattern, name[1..]))
    else
      && name != ""
      && (if pattern[0] == '?' then name[0] != '/' else name[0] == pattern[0])
      && SimpleGlob(pattern[1..], name[1..])
  }

  lemma {:induction false} LiteralMatchesItself(l: string, n: string)
    requires Literal(l)
    ensures SimpleGlob(l, n) <==> n == l
    decreases |l|
  {
    if l != "" && n != "" {
      LiteralMatchesItself(l[1..], n[1..]);
      assert l == [l[0]] + l[1..] && n == [n[0]] + n[1..];
    }
  }

  lemma RunThenStep(tail: string, n: string)
    requires n != "" && n != tail
    ensures RunThen(tail, n) <==> n[0] != '/' && RunThen(tail, n[1..])
  {
    if |tail| < |n| {
      var cut := |n| - |tail|;
      assert n[1..][cut - 1..] == n[cut..];
      assert n[..cut] == [n[0]] + n[1..][..cut - 1];
    }
  }

  /** "*" followed by a literal tail matches exactly the names that end in the tail after a run without "/". */
  lemma {:induction false} StarThenLiteral(tail: string, n: string)
    requires Literal(tail)
    ensures SimpleGlob("*" + tail, n) <==> RunThen(tail, n)
    decreases |n|
  {
    var p := "*" + tail;
    assert p[1..] == tail;
    LiteralMatchesItself(tail, n);
    if n != tail && n != "" {
      StarThenLiteral(tail, n[1..]);
      RunThenStep(tail, n);
    }
  }

  lemma {:induction false} SimpleGlobObeysLaws()
    ensures GlobLaws(SimpleGlob)
  {
    forall l, n | Literal(l)
      ensures SimpleGlob(l, n) <==> n == l
      ensures SimpleGlob("*." + l, n) <==> RunThen("." + l, n)
    {
      LiteralMatchesItself(l, n);
      StarThenLiteral("." + l, n);
      assert "*" + ("." + l) == "*." + l;
    }
    forall n ensures SimpleGlob("*", n) <==> '/' !in n {
      StarThenLiteral("", n);
      assert "*" + "" == "*" && n[..|n|] == n;
    }
  }

  /** A pattern with "?" can take the wildcard name and not the apex, and so separate the two. */
  lemma QuestionMarkSeparates()
    ensures MatchDomain(SimpleGlob, "?.a", "*.a") && !MatchDomain(SimpleGlob, "?.a", "a")
    ensures SelectDNSProvider(SimpleGlob, [["b"], ["?.a"]], "*.a") == 1
    ensures SelectDNSProvider(SimpleGlob, [["b"], ["?.a"]], "a") == 0
  {
    hide MatchDomain;
    QuestionMarkTakesWildcard();
    LiteralTakesNeither();
    var providers := [["b"], ["?.a"]];
    assert providers[1][0] == "?.a" && providers[0][0] == "b";
    assert MatchGlobs(SimpleGlob, providers[1], "*.a");
    assert !MatchGlobs(SimpleGlob, providers[0], "*.a") && !MatchGlobs(SimpleGlob, providers[0], "a");
    assert !MatchGlobs(SimpleGlob, providers[1], "a");
  }

  lemma QuestionMarkTakesWildcard()
    ensures MatchDomain(SimpleGlob, "?.a", "*.a") && !MatchDomain(SimpleGlob, "?.a", "a")
  {
    assert IsZone("a");
    assert IsNormal("?.a");
    NormalUnchanged("?.a");
    WildcardOrApex(SimpleGlob, "?.a", "a");
    var p, w := "?.a", "*.a";
    assert "*." + "a" == w;
    assert p[1..] == ".a" && w[1..] == ".a";
    LiteralMatchesItself(".a", ".a");
    assert SimpleGlob(p, w);
    assert "a"[1..] == "";
    assert !SimpleGlob(".a", "");
    assert !SimpleGlob(p, "a");
    assert p[0] == '?';
  }

  lemma LiteralTakesNeither()
    ensures !MatchDomain(SimpleGlob, "b", "*.a") && !MatchDomain(SimpleGlob, "b", "a")
  {
    hide MatchDomain, SimpleGlob;
    assert IsZone("a");
    NormalUnchanged("b");
    WildcardOrApex(SimpleGlob, "b", "a");
    LiteralMatchesItself("b", "a");
    LiteralMatchesItself("b", "*.a");
    assert "*." + "a" == "*.a";
    assert "b"[0] != "*.a"[0] && "b"[0] != "a"[0];
  }
}
