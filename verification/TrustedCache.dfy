/**
 The cache of parsed trusted networks (proxy/reverse_proxy.go): a map keyed by the
 comma-joined list of CIDR strings. Parsing one trimmed string is a parameter.
 */
module TrustedCache {
  import opened Text
  import opened Wrappers

  function Key(cidrs: seq<string>): string {
    Join(cidrs, ",")
  }

  /** The networks of the strings that parse, in order: what an uncached call returns. */
  function ParseAll<Net>(parse: string -> Option<Net>, cidrs: seq<string>): seq<Net> {
    if cidrs == [] then []
    else
      var n := |cidrs| - 1;
      var net := parse(TrimSpace(cidrs[n]));
      ParseAll(parse, cidrs[..n]) + if net.Some? then [net.value] else []
  }

  /** The answer to a call and the cache it leaves behind. */
  function Answer<Net>(parse: string -> Option<Net>, cache: map<string, seq<Net>>, cidrs: seq<string>)
    : (seq<Net>, map<string, seq<Net>>)
  {
    if cidrs == [] then ([], cache)
    else if Key(cidrs) in cache then (cache[Key(cidrs)], cache)
    else (ParseAll(parse, cidrs), cache[Key(cidrs) := ParseAll(parse, cidrs)])
  }

  class Cache<Net> {
    const parse: string -> Option<Net>
    var trusted: map<string, seq<Net>>

    constructor (parse: string -> Option<Net>)
      ensures this.parse == parse && trusted == map[]
    {
      this.parse, trusted := parse, map[];
    }

    method ParseTrustedEdgeProxyNets(cidrs: seq<string>) returns (r: seq<Net>)
      modifies this
      ensures (r, trusted) == Answer(parse, old(trusted), cidrs)
    {
      if |cidrs| == 0 {
        return [];
      }
      var key := Join(cidrs, ",");
      if key in trusted {
        return trusted[key];
      }
      var nets: seq<Net> := [];
      var i := 0;
      while i < |cidrs|
        modifies {}
        invariant i <= |cidrs| && nets == ParseAll(parse, cidrs[..i])
      {
        assert cidrs[..i + 1][..i] == cidrs[..i];
        var net := parse(TrimSpace(cidrs[i]));
        i := i + 1;
        if net.None? {
          continue;
        }
        nets := nets + [net.value];
      }
      assert cidrs[..i] == cidrs;
      trusted := trusted[key := nets];
      r := nets;
    }
  }

  // ===== every sequence of calls =========================================

  predicate CommaFree(cidrs: seq<string>) {
    forall i | 0 <= i < |cidrs| :: ',' !in cidrs[i]
  }

  function CacheAfter<Net>(parse: string -> Option<Net>, calls: seq<seq<string>>): map<string, seq<Net>> {
    if calls == [] then map[]
    else Answer(parse, CacheAfter(parse, calls[..|calls| - 1]), calls[|calls| - 1]).1
  }

  /** Every entry is the uncached parse of the list its key splits into. */
  ghost predicate Coherent<Net>(parse: string -> Option<Net>, cache: map<string, seq<Net>>) {
    forall k | k in cache :: cache[k] == ParseAll(parse, Split(k, ','))
  }

  lemma AnswerCoherent<Net>(parse: string -> Option<Net>, cache: map<string, seq<Net>>, cidrs: seq<string>)
    requires Coherent(parse, cache) && CommaFree(cidrs)
    ensures Coherent(parse, Answer(parse, cache, cidrs).1)
    ensures Answer(parse, cache, cidrs).0 == ParseAll(parse, cidrs)
  {
    if cidrs != [] {
      SplitJoin(cidrs, ',');
    }
  }

  lemma {:induction false} CacheCoherent<Net>(parse: string -> Option<Net>, calls: seq<seq<string>>)
    requires forall c | c in calls :: CommaFree(c)
    ensures Coherent(parse, CacheAfter(parse, calls))
    decreases |calls|
  {
    if calls != [] {
      CacheCoherent(parse, calls[..|calls| - 1]);
      AnswerCoherent(parse, CacheAfter(parse, calls[..|calls| - 1]), calls[|calls| - 1]);
    }
  }

  /** After any calls with comma-free strings, a call with comma-free strings is answered as if nothing were cached. */
  lemma CachedIsUncached<Net>(parse: string -> Option<Net>, calls: seq<seq<string>>, cidrs: seq<string>)
    requires (forall c | c in calls :: CommaFree(c)) && CommaFree(cidrs)
    ensures Answer(parse, CacheAfter(parse, calls), cidrs).0 == ParseAll(parse, cidrs)
  {
    CacheCoherent(parse, calls);
    AnswerCoherent(parse, CacheAfter(parse, calls), cidrs);
  }

  /** Two non-empty comma-free lists share a key only if they are the same list. */
  lemma KeyIsInjective(a: seq<string>, b: seq<string>)
    requires a != [] && b != [] && CommaFree(a) && CommaFree(b)
    ensures Key(a) == Key(b) <==> a == b
  {
    SplitJoin(a, ',');
    SplitJoin(b, ',');
  }

  // ===== calls with commas ===============================================

  /** The earliest call that filled the entry for this key. */
  function FirstWithKey(calls: seq<seq<string>>, key: string): Option<seq<string>> {
    if calls == [] then None
    else
      var n := |calls| - 1;
      var early := FirstWithKey(calls[..n], key);
      if early.None? && calls[n] != [] && Key(calls[n]) == key then Some(calls[n]) else early
  }

  lemma {:induction false} CacheHoldsFirst<Net>(parse: string -> Option<Net>, calls: seq<seq<string>>, key: string)
    ensures
      var cache, first := CacheAfter(parse, calls), FirstWithKey(calls, key);
      && (key in cache <==> first.Some?)
      && (first.Some? ==> cache[key] == ParseAll(parse, first.value))
    decreases |calls|
  {
    if calls != [] {
      CacheHoldsFirst(parse, calls[..|calls| - 1], key);
    }
  }

  function Trimmed(cidrs: seq<string>): seq<string> {
    seq(|cidrs|, i requires 0 <= i < |cidrs| => TrimSpace(cidrs[i]))
  }

  lemma {:induction false} ParsesTrimmed<Net>(parse: string -> Option<Net>, a: seq<string>, b: seq<string>)
    requires Trimmed(a) == Trimmed(b)
    ensures ParseAll(parse, a) == ParseAll(parse, b)
    decreases |a|
  {
    assert |Trimmed(a)| == |a| && |Trimmed(b)| == |b|;
    if a != [] {
      var n := |a| - 1;
      assert Trimmed(a)[n] == Trimmed(b)[n];
      assert Trimmed(a[..n]) == Trimmed(a)[..n] == Trimmed(b)[..n] == Trimmed(b[..n]);
      ParsesTrimmed(parse, a[..n], b[..n]);
    }
  }

  function Verbatim(): string -> Option<string> {
    s => Some(s)
  }

  lemma {:induction false} VerbatimParse(cidrs: seq<string>)
    ensures ParseAll(Verbatim(), cidrs) == Trimmed(cidrs)
    decreases |cidrs|
  {
    if cidrs != [] {
      var n := |cidrs| - 1;
      VerbatimParse(cidrs[..n]);
      assert Trimmed(cidrs) == Trimmed(cidrs[..n]) + [TrimSpace(cidrs[n])];
    }
  }

  /**
   For any calls at all, commas or not: a call is answered right by every parser exactly
   when the earliest call with its key, if any, listed the same strings up to white space.
   */
  lemma CacheRightExactlyWhen(calls: seq<seq<string>>, cidrs: seq<string>)
    requires cidrs != []
    ensures
      var first := FirstWithKey(calls, Key(cidrs));
      first.None? || Trimmed(first.value) == Trimmed(cidrs)
      <==> forall parse: string -> Option<string> ::
             Answer(parse, CacheAfter(parse, calls), cidrs).0 == ParseAll(parse, cidrs)
  {
    var first := FirstWithKey(calls, Key(cidrs));
    if first.None? || Trimmed(first.value) == Trimmed(cidrs) {
      forall parse: string -> Option<string>
        ensures Answer(parse, CacheAfter(parse, calls), cidrs).0 == ParseAll(parse, cidrs)
      {
        CacheHoldsFirst(parse, calls, Key(cidrs));
        if first.Some? {
          ParsesTrimmed(parse, first.value, cidrs);
        }
      }
    } else {
      CacheHoldsFirst(Verbatim(), calls, Key(cidrs));
      VerbatimParse(first.value);
      VerbatimParse(cidrs);
      assert Answer(Verbatim(), CacheAfter(Verbatim(), calls), cidrs).0 != ParseAll(Verbatim(), cidrs);
    }
  }

  // ===== parsers that take no comma, as net.ParseCIDR ====================

  ghost predicate RejectsCommas<Net>(parse: string -> Option<Net>) {
    forall s | ',' in s :: parse(s).None?
  }

  /** The trimmed strings without a comma. */
  function Plain(cidrs: seq<string>): seq<string> {
    if cidrs == [] then []
    else
      var n := |cidrs| - 1;
      var last := TrimSpace(cidrs[n]);
      Plain(cidrs[..n]) + if ',' in last then [] else [last]
  }

  /** The networks of strings that are taken as they are. */
  function ParseEach<Net>(parse: string -> Option<Net>, strings: seq<string>): seq<Net> {
    if strings == [] then []
    else
      var n := |strings| - 1;
      var net := parse(strings[n]);
      ParseEach(parse, strings[..n]) + if net.Some? then [net.value] else []
  }

  lemma {:induction false} OnlyPlainCounts<Net>(parse: string -> Option<Net>, cidrs: seq<string>)
    requires RejectsCommas(parse)
    ensures ParseAll(parse, cidrs) == ParseEach(parse, Plain(cidrs))
    decreases |cidrs|
  {
    if cidrs != [] {
      var n := |cidrs| - 1;
      var before, last := Plain(cidrs[..n]), TrimSpace(cidrs[n]);
      OnlyPlainCounts(parse, cidrs[..n]);
      if ',' !in last {
        assert (before + [last])[..|before|] == before;
      } else {
        assert before + [] == before;
      }
    }
  }

  /** The most that a parser that rejects commas can accept. */
  function VerbatimPlain(): string -> Option<string> {
    s => if ',' in s then None else Some(s)
  }

  lemma {:induction false} VerbatimPlainParse(cidrs: seq<string>)
    ensures ParseAll(VerbatimPlain(), cidrs) == Plain(cidrs)
    decreases |cidrs|
  {
    if cidrs != [] {
      VerbatimPlainParse(cidrs[..|cidrs| - 1]);
    }
  }

  /**
   For any calls at all: a call is answered right by every parser that rejects commas
   exactly when the earliest call with its key, if any, has the same comma-free strings
   in the same order, up to white space.
   */
  lemma PlainCacheRightExactlyWhen(calls: seq<seq<string>>, cidrs: seq<string>)
    requires cidrs != []
    ensures
      var first := FirstWithKey(calls, Key(cidrs));
      first.None? || Plain(first.value) == Plain(cidrs)
      <==> forall parse: string -> Option<string> | RejectsCommas(parse) ::
             Answer(parse, CacheAfter(parse, calls), cidrs).0 == ParseAll(parse, cidrs)
  {
    var first := FirstWithKey(calls, Key(cidrs));
    if first.None? || Plain(first.value) == Plain(cidrs) {
      forall parse: string -> Option<string> | RejectsCommas(parse)
        ensures Answer(parse, CacheAfter(parse, calls), cidrs).0 == ParseAll(parse, cidrs)
      {
        CacheHoldsFirst(parse, calls, Key(cidrs));
        if first.Some? {
          OnlyPlainCounts(parse, first.value);
          OnlyPlainCounts(parse, cidrs);
        }
      }
    } else {
      var parse := VerbatimPlain();
      assert RejectsCommas(parse);
      CacheHoldsFirst(parse, calls, Key(cidrs));
      VerbatimPlainParse(first.value);
      VerbatimPlainParse(cidrs);
      assert Answer(parse, CacheAfter(parse, calls), cidrs).0 != ParseAll(parse, cidrs);
    }
  }

  /** A string with a comma can take over the key of another list, and then its answer too. */
  lemma CommaBreaksCache()
    ensures
      var parse: string -> Option<string> := s => if s == "a" || s == "b" then Some(s) else None;
      Answer(parse, CacheAfter(parse, [["a,b"]]), ["a", "b"]).0 != ParseAll(parse, ["a", "b"])
  {
    var parse: string -> Option<string> := s => if s == "a" || s == "b" then Some(s) else None;
    var calls := [["a,b"]];
    assert calls[..0] == [];
    assert ["a", "b"][1..] == ["b"];
    assert Key(["a", "b"]) == "a,b" == Key(["a,b"]);
    assert TrimSpace("a,b") == "a,b" && TrimSpace("b") == "b";
    assert ["a,b"][..0] == [];
    assert ParseAll(parse, ["a,b"]) == [];
    assert CacheAfter(parse, []) == map[];
    assert CacheAfter(parse, calls) == map["a,b" := []];
    assert |ParseAll(parse, ["a", "b"])| > 0;
  }
}
