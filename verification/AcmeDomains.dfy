/**
 The list of domains the ACME manager is started with (config/config.go:393-408):
 a set filled by nested loops, read out in whatever order the map gives, and sorted.
 */
module AcmeDomains {
  import opened Text
  import opened CertStore
  import opened ObtainProtocol
  import opened ObtainTheorems

  datatype Listener = Listener(protocol: string, tlsEnabled: bool, useACME: bool, domains: seq<string>)

  predicate UsesAcme(l: Listener) {
    l.protocol == "https" && l.tlsEnabled && l.useACME
  }

  /** Some https listener with TLS and ACME switched on names the domain. */
  ghost predicate Wanted(listeners: seq<Listener>, domain: string) {
    exists l :: l in listeners && UsesAcme(l) && Covers(l.domains, domain)
  }

  // ----- the order of names ---------------------------------------------

  /** Go's string order: the first difference decides, and a proper prefix comes first. */
  predicate Before(a: string, b: string) {
    b != "" && (a == "" || a[0] < b[0] || (a[0] == b[0] && Before(a[1..], b[1..])))
  }

  predicate Increasing(s: seq<string>) {
    forall i, j | 0 <= i < j < |s| :: Before(s[i], s[j])
  }

  lemma {:induction false} BeforeIsTotal(a: string, b: string)
    ensures Before(a, b) || a == b || Before(b, a)
    ensures !(Before(a, b) && Before(b, a)) && !Before(a, a)
    decreases |a|
  {
    if a != "" && b != "" {
      BeforeIsTotal(a[1..], b[1..]);
      BeforeIsTotal(a[1..], a[1..]);
      assert a == [a[0]] + a[1..] && b == [b[0]] + b[1..];
    } else if a != "" {
      BeforeIsTotal(a[1..], a[1..]);
    }
  }

  lemma {:induction false} BeforeIsTransitive(a: string, b: string, c: string)
    requires Before(a, b) && Before(b, c)
    ensures Before(a, c)
    decreases |a|
  {
    if a != "" && a[0] == b[0] == c[0] {
      BeforeIsTransitive(a[1..], b[1..], c[1..]);
    }
  }

  /** Names are ordered by the first character in which they differ, and a proper prefix comes first. */
  lemma {:induction false} BeforeMeaning(a: string, b: string)
    ensures Before(a, b) <==>
      exists n: nat :: n <= |a| && n < |b| && a[..n] == b[..n] && (n == |a| || a[n] < b[n])
    decreases |a|
  {
    if a == "" || b == "" {
      if a == "" && b != "" {
        assert a[..0] == b[..0];
      }
    } else {
      BeforeMeaning(a[1..], b[1..]);
      if a[0] < b[0] {
        assert a[..0] == b[..0];
      }
      if a[0] == b[0] && Before(a[1..], b[1..]) {
        var n: nat :| n <= |a[1..]| && n < |b[1..]| && a[1..][..n] == b[1..][..n]
          && (n == |a[1..]| || a[1..][n] < b[1..][n]);
        assert a[..n + 1] == [a[0]] + a[1..][..n] && b[..n + 1] == [b[0]] + b[1..][..n];
      }
      if exists n: nat :: n <= |a| && n < |b| && a[..n] == b[..n] && (n == |a| || a[n] < b[n]) {
        var n: nat :| n <= |a| && n < |b| && a[..n] == b[..n] && (n == |a| || a[n] < b[n]);
        if n > 0 {
          assert a[0] == a[..n][0] == b[..n][0] == b[0];
          assert a[1..][..n - 1] == a[..n][1..] == b[..n][1..] == b[1..][..n - 1];
        }
      }
    }
  }

  // ----- slices.Sort ----------------------------------------------------

  function Insert(s: seq<string>, x: string): seq<string> {
    if s == [] || Before(x, s[0]) then [x] + s else [s[0]] + Insert(s[1..], x)
  }

  function Sorted(s: seq<string>): seq<string> {
    if s == [] then [] else Insert(Sorted(s[1..]), s[0])
  }

  predicate Distinct(s: seq<string>) {
    forall i, j | 0 <= i < j < |s| :: s[i] != s[j]
  }

  lemma {:induction false} InsertKeepsOrder(s: seq<string>, x: string)
    requires Increasing(s) && x !in s
    ensures Increasing(Insert(s, x))
    ensures forall y :: y in Insert(s, x) <==> y == x || y in s
    decreases |s|
  {
    if s == [] {
    } else if Before(x, s[0]) {
      forall j | 0 < j < |s| ensures Before(x, s[j]) {
        BeforeIsTransitive(x, s[0], s[j]);
      }
    } else {
      BeforeIsTotal(x, s[0]);
      var tail := Insert(s[1..], x);
      InsertKeepsOrder(s[1..], x);
      forall j | 0 <= j < |tail| ensures Before(s[0], tail[j]) {
        assert tail[j] in tail;
        if tail[j] != x {
          var k :| 0 <= k < |s[1..]| && s[1..][k] == tail[j];
          assert s[k + 1] == tail[j];
        }
      }
    }
  }

  lemma {:induction false} SortedIsIncreasing(s: seq<string>)
    requires Distinct(s)
    ensures Increasing(Sorted(s))
    ensures forall x :: x in Sorted(s) <==> x in s
    decreases |s|
  {
    if s != [] {
      SortedIsIncreasing(s[1..]);
      assert s[0] !in s[1..];
      InsertKeepsOrder(Sorted(s[1..]), s[0]);
      assert s == [s[0]] + s[1..];
    }
  }

  // ----- the code -------------------------------------------------------

  /** Strictly increasing, and exactly the wanted names. */
  ghost predicate IsDomainList(listeners: seq<Listener>, domains: seq<string>) {
    Increasing(domains) && forall d :: d in domains <==> Wanted(listeners, d)
  }

  method CollectDomains(listeners: seq<Listener>) returns (domains: seq<string>)
    ensures IsDomainList(listeners, domains)
  {
    var domainSet: set<string> := {};
    var i := 0;
    while i < |listeners|
      invariant i <= |listeners|
      invariant forall d :: d in domainSet <==> Wanted(listeners[..i], d)
    {
      var l := listeners[i];
      ghost var before := domainSet;
      if UsesAcme(l) {
        var j := 0;
        while j < |l.domains|
          invariant j <= |l.domains|
          invariant forall d :: d in domainSet <==> d in before || Covers(l.domains[..j], d)
        {
          assert l.domains[..j + 1][..j] == l.domains[..j];
          forall d
            ensures Covers(l.domains[..j + 1], d) <==> Covers(l.domains[..j], d) || d == Normalize(l.domains[j])
          {
            CoversSplit(l.domains[..j + 1], d);
          }
          domainSet := domainSet + {Normalize(l.domains[j])};
          j := j + 1;
        }
        assert l.domains[..j] == l.domains;
      }
      forall d
        ensures Wanted(listeners[..i + 1], d) <==> Wanted(listeners[..i], d) || (UsesAcme(l) && Covers(l.domains, d))
      {
        WantedSplit(listeners[..i], l, d);
        assert listeners[..i + 1] == listeners[..i] + [l];
      }
      i := i + 1;
    }
    assert listeners[..i] == listeners;

    domains := [];
    var unread := domainSet;
    while unread != {}
      invariant unread <= domainSet && Distinct(domains)
      invariant forall d :: d in domains <==> d in domainSet && d !in unread
    {
      var d :| d in unread;
      domains := domains + [d];
      unread := unread - {d};
    }
    SortedIsIncreasing(domains);
    domains := Sorted(domains);
  }

  lemma WantedSplit(listeners: seq<Listener>, l: Listener, d: string)
    ensures Wanted(listeners + [l], d) <==> Wanted(listeners, d) || (UsesAcme(l) && Covers(l.domains, d))
  {
    if Wanted(listeners, d) {
      var k :| k in listeners && UsesAcme(k) && Covers(k.domains, d);
      assert k in listeners + [l];
    }
    if UsesAcme(l) && Covers(l.domains, d) {
      assert l in listeners + [l];
    }
  }

  /** Only an https listener with both TLS and ACME switched on adds names, and it adds all of its own. */
  lemma ListenerAdds(listeners: seq<Listener>, l: Listener, d: string)
    ensures Wanted(listeners + [l], d) <==>
      || Wanted(listeners, d)
      || (l.protocol == "https" && l.tlsEnabled && l.useACME
          && exists i | 0 <= i < |l.domains| :: Normalize(l.domains[i]) == d)
    ensures !Wanted([], d)
  {
    WantedSplit(listeners, l, d);
  }

  // ----- what the order of the inputs does not matter for -----------------

  /** A strictly increasing list is determined by its members. */
  lemma {:induction false} IncreasingIsUnique(a: seq<string>, b: seq<string>)
    requires Increasing(a) && Increasing(b) && forall d :: d in a <==> d in b
    ensures a == b
    decreases |a|
  {
    FirstIsMember(a);
    FirstIsMember(b);
    if a != [] {
      assert a[0] in b;
      assert b[0] in a;
      HeadIsLeast(a, b[0]);
      HeadIsLeast(b, a[0]);
      BeforeIsTotal(a[0], b[0]);
      forall d ensures d in a[1..] <==> d in b[1..] {
        TailMembers(a, d);
        TailMembers(b, d);
      }
      IncreasingIsUnique(a[1..], b[1..]);
      assert a == [a[0]] + a[1..] && b == [b[0]] + b[1..];
    }
  }

  lemma FirstIsMember(a: seq<string>)
    ensures a != [] ==> exists d :: d in a
  {
    if a != [] {
      assert a[0] in a;
    }
  }

  lemma HeadIsLeast(a: seq<string>, d: string)
    requires Increasing(a) && d in a
    ensures d == a[0] || Before(a[0], d)
  {
    var k :| 0 <= k < |a| && a[k] == d;
  }

  lemma TailMembers(a: seq<string>, d: string)
    requires a != [] && Increasing(a)
    ensures d in a[1..] <==> d in a && d != a[0]
  {
    assert a == [a[0]] + a[1..];
    if d in a[1..] {
      var k :| 0 <= k < |a[1..]| && a[1..][k] == d;
      assert Before(a[0], a[k + 1]);
      BeforeIsTotal(a[0], a[0]);
    }
  }

  /** However the set is iterated and the listeners are ordered or repeated, the list comes out the same. */
  lemma DomainListIsUnique(listeners: seq<Listener>, others: seq<Listener>, a: seq<string>, b: seq<string>)
    requires forall l :: l in listeners <==> l in others
    requires IsDomainList(listeners, a) && IsDomainList(others, b)
    ensures a == b
  {
    forall d ensures d in a <==> d in b {
      assert Wanted(listeners, d) <==> Wanted(others, d);
    }
    IncreasingIsUnique(a, b);
  }

  /**
   From configuration to handshake: once EnsureDomains has returned nil for the collected
   list, every name of every ACME listener has a certificate, then and in every later state.
   */
  lemma ConfiguredNamesAreServed(
      listeners: seq<Listener>, l: Listener, i: nat,
      s: State, before: seq<Action>, after: seq<Action>, id: nat)
    requires l in listeners && UsesAcme(l) && i < |l.domains|
    requires Init(s) && id in Run(s, before).callers
    requires Run(s, before).callers[id].phase == Returned(true)
    requires IsDomainList(listeners, Run(s, before).callers[id].domains)
    ensures Lookup(Run(s, before + after).certs, Normalize(l.domains[i])).Some?
  {
    var domains, d := Run(s, before).callers[id].domains, Normalize(l.domains[i]);
    assert Covers(l.domains, d);
    assert Wanted(listeners, d);
    var j :| 0 <= j < |domains| && domains[j] == d;
    NilMeansServed(s, before, after, id, j);
    NormalizeIdempotent(l.domains[i]);
  }
}
