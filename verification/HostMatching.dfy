/**
 Which route a host belongs to (proxy/tcp_proxy.go, proxy/reverse_proxy.go), and how
 that compares with the names a wildcard certificate covers.
 */
module HostMatching {
  import opened Text
  import opened Wrappers
  import opened CertStore

  datatype Route = Route(host: string, pathPrefix: string, noTLSTermination: bool, proxyProtocol: string)

  /** matchHostShared: the route's host is normalised here, the request's by the caller. */
  predicate MatchHost(requestHost: string, routeHost: string) {
    var host := Normalize(routeHost);
    || host == "" || host == "*" || requestHost == host
    || ("*." <= host && HasSuffix(requestHost, host[1..]))
  }

  lemma SuffixMeaning(s: string, zone: string)
    ensures HasSuffix(s, "." + zone) <==> exists front :: s == front + "." + zone
  {
    if HasSuffix(s, "." + zone) {
      var front := s[..|s| - |zone| - 1];
      assert s == front + ("." + zone);
      assert front + ("." + zone) == front + "." + zone;
    }
    if exists front :: s == front + "." + zone {
      var front :| s == front + "." + zone;
      assert front + "." + zone == front + ("." + zone);
    }
  }

  lemma StarDotForm(host: string)
    ensures "*." <= host ==> host == "*." + host[2..] && host[1..] == "." + host[2..]
    ensures forall zone :: host == "*." + zone ==> "*." <= host && host[2..] == zone
  {
  }

  /** Which request hosts a route takes, for every form its host can have. */
  lemma HostMeaning(requestHost: string, routeHost: string)
    ensures MatchHost(requestHost, routeHost) <==>
      || Normalize(routeHost) == ""
      || Normalize(routeHost) == "*"
      || requestHost == Normalize(routeHost)
      || exists zone :: Normalize(routeHost) == "*." + zone && exists front :: requestHost == front + "." + zone
  {
    hide Normalize, HasSuffix;
    var host := Normalize(routeHost);
    StarDotForm(host);
    if "*." <= host {
      SuffixMeaning(requestHost, host[2..]);
    }
  }

  // ===== passthrough routing =============================================

  /** The first route whose host matches. */
  function FirstMatch(host: string, routes: seq<Route>, from: nat := 0): (r: Option<nat>)
    requires from <= |routes|
    ensures r.Some? ==>
      && from <= r.value < |routes| && MatchHost(host, routes[r.value].host)
      && forall j | from <= j < r.value :: !MatchHost(host, routes[j].host)
    ensures r.None? ==> forall j | from <= j < |routes| :: !MatchHost(host, routes[j].host)
    decreases |routes| - from
  {
    if from == |routes| then None
    else if MatchHost(host, routes[from].host) then Some(from)
    else FirstMatch(host, routes, from + 1)
  }

  method MatchRouteBySNI(sni: string, routes: seq<Route>) returns (r: Option<nat>)
    ensures r == FirstMatch(Normalize(sni), routes)
  {
    var host := Normalize(sni);
    var i := 0;
    while i < |routes|
      invariant i <= |routes| && FirstMatch(host, routes) == FirstMatch(host, routes, i)
    {
      if MatchHost(host, routes[i].host) {
        return Some(i);
      }
      i := i + 1;
    }
    r := None;
  }

  // ===== HTTP routing ====================================================

  function IndexOf(s: string, c: char): (i: nat)
    ensures i <= |s| && (forall j | 0 <= j < i :: s[j] != c) && (i < |s| ==> s[i] == c)
  {
    if s == [] || s[0] == c then 0 else 1 + IndexOf(s[1..], c)
  }

  /** The request's host without port, normalised. */
  function RequestHost(hostHeader: string): string {
    Normalize(hostHeader[..IndexOf(hostHeader, ':')])
  }

  /** A port does not matter, nor does the case of the host or white space around it. */
  lemma RequestHostMeaning(host: string, port: string)
    requires ':' !in host
    ensures RequestHost(host) == Normalize(host)
    ensures RequestHost(host + ":" + port) == Normalize(host)
  {
    hide Normalize;
    var header := host + ":" + port;
    var n := IndexOf(header, ':');
    assert header[|host|] == ':';
    assert forall k | 0 <= k < |host| :: header[k] == host[k];
    assert n == |host| && header[..n] == host;
    assert IndexOf(host, ':') == |host| && host[..|host|] == host;
  }

  predicate Matches(host: string, path: string, r: Route) {
    MatchHost(host, r.host) && r.pathPrefix <= path
  }

  /** best is the earliest of the routes with the longest prefix among those that match, or there is none. */
  ghost predicate IsBest(host: string, path: string, routes: seq<Route>, best: Option<nat>) {
    match best
    case None => forall j | 0 <= j < |routes| :: !Matches(host, path, routes[j])
    case Some(i) =>
      && i < |routes| && Matches(host, path, routes[i])
      && forall j | 0 <= j < |routes| && Matches(host, path, routes[j]) ::
           |routes[j].pathPrefix| < |routes[i].pathPrefix|
           || (|routes[j].pathPrefix| == |routes[i].pathPrefix| && i <= j)
  }

  /** The selection loop of ServeHTTP. */
  method SelectRoute(hostHeader: string, path: string, routes: seq<Route>) returns (best: Option<nat>)
    ensures IsBest(RequestHost(hostHeader), path, routes, best)
  {
    var host := RequestHost(hostHeader);
    best := None;
    var bestPrefixLen := -1;
    var i := 0;
    while i < |routes|
      invariant i <= |routes| && IsBest(host, path, routes[..i], best)
      invariant bestPrefixLen == if best.None? then -1 else |routes[best.value].pathPrefix|
    {
      if MatchHost(host, routes[i].host) {
        if routes[i].pathPrefix <= path {
          var prefixLen := |routes[i].pathPrefix|;
          if prefixLen > bestPrefixLen {
            bestPrefixLen := prefixLen;
            best := Some(i);
          }
        }
      }
      i := i + 1;
    }
    assert routes[..i] == routes;
  }

  lemma BestIsUnique(host: string, path: string, routes: seq<Route>, a: Option<nat>, b: Option<nat>)
    requires IsBest(host, path, routes, a) && IsBest(host, path, routes, b)
    ensures a == b
  {
  }

  /** A route put last wins exactly when it matches and its prefix is longer than that of every other match. */
  lemma AppendedRouteWins(host: string, path: string, routes: seq<Route>, r: Route)
    ensures IsBest(host, path, routes + [r], Some(|routes|)) <==>
      && MatchHost(host, r.host) && r.pathPrefix <= path
      && forall j | 0 <= j < |routes| && MatchHost(host, routes[j].host) && routes[j].pathPrefix <= path ::
           |routes[j].pathPrefix| < |r.pathPrefix|
  {
    hide MatchHost;
    var all := routes + [r];
    assert all[|routes|] == r;
    assert forall j | 0 <= j < |routes| :: all[j] == routes[j];
  }

  lemma WinnerAtLeast(host: string, path: string, routes: seq<Route>, best: nat, r: Route)
    requires IsBest(host, path, routes, Some(best)) && r in routes && Matches(host, path, r)
    ensures |r.pathPrefix| <= |routes[best].pathPrefix|
  {
    var j :| 0 <= j < |routes| && routes[j] == r;
  }

  lemma SameRoutes(a: seq<Route>, b: seq<Route>, r: Route)
    requires multiset(a) == multiset(b) && r in a
    ensures r in b
  {
    assert r in multiset(a);
  }

  /** Reordering the routes changes neither whether one is found nor which prefix wins. */
  lemma OrderDoesNotMatter(
    host: string, path: string, routes: seq<Route>, shuffled: seq<Route>, a: Option<nat>, b: Option<nat>)
    requires multiset(routes) == multiset(shuffled)
    requires IsBest(host, path, routes, a) && IsBest(host, path, shuffled, b)
    ensures a.Some? <==> b.Some?
    ensures a.Some? ==> routes[a.value].pathPrefix == shuffled[b.value].pathPrefix
  {
    if a.Some? {
      SameRoutes(routes, shuffled, routes[a.value]);
    }
    if b.Some? {
      SameRoutes(shuffled, routes, shuffled[b.value]);
    }
    if a.Some? && b.Some? {
      var p, q := routes[a.value].pathPrefix, shuffled[b.value].pathPrefix;
      WinnerAtLeast(host, path, shuffled, b.value, routes[a.value]);
      WinnerAtLeast(host, path, routes, a.value, shuffled[b.value]);
      assert p == path[..|p|] && q == path[..|q|];
    }
  }

  // ===== wildcard certificates and wildcard routes =======================

  lemma {:induction false} CutAtDot(name: string)
    ensures
      var dot := IndexOf(name, '.');
      && '.' !in name[..dot]
      && (dot < |name| ==> name == name[..dot] + ['.'] + name[dot + 1..] && name[dot..] == ['.'] + name[dot + 1..])
  {
    var dot := IndexOf(name, '.');
    var tail := name[dot..];
    assert name == name[..dot] + tail;
    if dot < |name| {
      assert tail == [tail[0]] + tail[1..] && tail[1..] == name[dot + 1..];
      assert name[..dot] + (['.'] + tail[1..]) == name[..dot] + ['.'] + tail[1..];
    }
  }

  /** The wildcard key of a name is "*" followed by everything from the first dot on, or nothing if there is no dot. */
  lemma {:induction false} WildcardNameMeaning(name: string)
    ensures
      var dot := IndexOf(name, '.');
      WildcardName(name) == if dot == |name| then None else Some("*" + name[dot..])
  {
    hide IndexOf, Split, Join;
    var dot := IndexOf(name, '.');
    CutAtDot(name);
    if dot == |name| {
      assert name[..dot] == name;
      SplitWithout(name, '.');
    } else {
      hide WildcardName;
      WildcardBelow(name[..dot], name[dot + 1..]);
      assert "*" + (['.'] + name[dot + 1..]) == "*." + name[dot + 1..];
    }
  }

  /** A wildcard certificate for zone z covers exactly the names one label below z. */
  lemma WildcardCoversOneLabel(name: string, z: string)
    ensures WildcardName(name) == Some("*." + z)
        <==> exists leaf: string :: '.' !in leaf && name == leaf + "." + z
  {
    WildcardNameMeaning(name);
    var dot := IndexOf(name, '.');
    if WildcardName(name) == Some("*." + z) {
      assert ("*" + name[dot..])[1..] == ("*." + z)[1..];
      assert name == name[..dot] + "." + z;
    }
    if exists leaf: string :: '.' !in leaf && name == leaf + "." + z {
      var leaf: string :| '.' !in leaf && name == leaf + "." + z;
      assert name[|leaf|] == '.' && forall j | 0 <= j < |leaf| :: name[j] == leaf[j];
      assert dot == |leaf|;
      assert "*" + name[dot..] == "*." + z;
    }
  }

  /** A wildcard route for zone z takes z's wildcard name itself and every name any number of labels below z. */
  lemma WildcardRouteMeaning(name: string, z: string)
    requires IsNormal("*." + z)
    ensures MatchHost(name, "*." + z) <==> name == "*." + z || HasSuffix(name, "." + z)
  {
    NormalUnchanged("*." + z);
    assert ("*." + z)[1..] == "." + z;
    assert ("*." + z)[..2] == "*.";
  }

  lemma WildcardNameIsNormal(name: string, key: string)
    requires IsNormal(name) && WildcardName(name) == Some(key)
    ensures IsNormal(key)
  {
    WildcardNameMeaning(name);
    var dot := IndexOf(name, '.');
    assert forall i | 0 < i < |key| :: key[i] == name[dot + i - 1];
    assert key[|key| - 1] == name[|name| - 1];
  }

  /** Every name that GetCertificate serves through a wildcard key is also matched by a route for that key. */
  lemma ServedNamesAreRouted(certs: map<string, Certificate>, serverName: string, key: string)
    requires Normalize(serverName) !in certs && key in certs
    requires WildcardName(Normalize(serverName)) == Some(key)
    ensures Lookup(certs, Normalize(serverName)) == Some(certs[key])
    ensures MatchHost(Normalize(serverName), key)
  {
    var name := Normalize(serverName);
    NormalizeIsNormal(serverName);
    WildcardNameIsNormal(name, key);
    NormalUnchanged(key);
    WildcardNameMeaning(name);
    var dot := IndexOf(name, '.');
    assert key[1..] == name[dot..];
    assert key[..2] == "*.";
  }
}
