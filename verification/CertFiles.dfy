/**
 The names of certificate files: "*" is written as "_wildcard" when a certificate
 is saved and read back by the opposite replacement.
 */
module CertFiles {
  import opened Text

  const WILDCARD := "_wildcard"

  function Escape(domain: string): string {
    ReplaceAll(domain, "*", WILDCARD)
  }

  function Unescape(base: string): string {
    ReplaceAll(base, WILDCARD, "*")
  }

  lemma WildcardLetters()
    ensures WILDCARD[0] == '_'
    ensures forall i | 0 <= i < |WILDCARD| ::
      WILDCARD[i] != '*' && !IsSpace(WILDCARD[i]) && (i > 0 ==> WILDCARD[i] != '_')
  {
    assert WILDCARD == ['_', 'w', 'i', 'l', 'd', 'c', 'a', 'r', 'd'];
  }

  lemma EscapeCons(s: string)
    requires s != []
    ensures Escape(s) == (if s[0] == '*' then WILDCARD else [s[0]]) + Escape(s[1..])
  {
    assert "*" <= s <==> s[0] == '*';
  }

  /** A piece of text with neither "*" nor "_" starts the escaped name only if it starts the name itself. */
  lemma {:induction false} PlainPrefix(s: string, t: string)
    requires forall i | 0 <= i < |t| :: t[i] != '*' && t[i] != '_'
    ensures t <= Escape(s) ==> t <= s
    decreases |t|
  {
    if t != [] && t <= Escape(s) {
      if s != [] {
        EscapeCons(s);
        assert Escape(s)[0] == t[0];
        assert t[1..] <= Escape(s)[1..];
        assert s[0] != '*';
        assert Escape(s)[1..] == Escape(s[1..]);
        PlainPrefix(s[1..], t[1..]);
        assert t == [t[0]] + t[1..] && s == [s[0]] + s[1..];
      }
    }
  }

  /** "_wildcard" starts the escaped name only where the name had "*" or "_wildcard": copies never straddle or overlap. */
  lemma MatchesAreCopies(s: string)
    requires s != [] && s[0] != '*' && WILDCARD <= Escape(s)
    ensures WILDCARD <= s
  {
    WildcardLetters();
    EscapeCons(s);
    var t := WILDCARD[1..];
    assert Escape(s)[0] == WILDCARD[0];
    assert t <= Escape(s)[1..] && Escape(s)[1..] == Escape(s[1..]);
    PlainPrefix(s[1..], t);
    assert WILDCARD == [s[0]] + t && s == [s[0]] + s[1..];
  }

  lemma {:induction false} EscapeSkipsPlain(s: string, t: string)
    requires forall i | 0 <= i < |t| :: t[i] != '*'
    ensures Escape(t + s) == t + Escape(s)
    decreases |t|
  {
    if t == [] {
      assert t + s == s;
    } else {
      EscapeCons(t + s);
      assert (t + s)[1..] == t[1..] + s;
      EscapeSkipsPlain(s, t[1..]);
      assert t == [t[0]] + t[1..];
      assert [t[0]] + (t[1..] + Escape(s)) == t + Escape(s);
    }
  }

  /** Reading an escaped name back does to it what reading would do to the name itself. */
  lemma {:induction false} UnescapeAfterEscape(s: string)
    ensures Unescape(Escape(s)) == Unescape(s)
    decreases |s|
  {
    if s == [] {
    } else if s[0] == '*' {
      EscapeCons(s);
      assert Escape(s)[|WILDCARD|..] == Escape(s[1..]);
      UnescapeAfterEscape(s[1..]);
      assert s == ['*'] + s[1..];
    } else if WILDCARD <= s {
      var rest := s[|WILDCARD|..];
      assert s == WILDCARD + rest;
      WildcardLetters();
      EscapeSkipsPlain(rest, WILDCARD);
      assert Escape(s)[|WILDCARD|..] == Escape(rest);
      UnescapeAfterEscape(rest);
    } else {
      if WILDCARD <= Escape(s) {
        MatchesAreCopies(s);
      }
      EscapeCons(s);
      assert Escape(s)[1..] == Escape(s[1..]);
      UnescapeAfterEscape(s[1..]);
    }
  }

  lemma {:induction false} UnescapeShrinks(s: string)
    ensures |Unescape(s)| <= |s|
    ensures Contains(s, WILDCARD) ==> |Unescape(s)| < |s|
    ensures !Contains(s, WILDCARD) ==> Unescape(s) == s
    decreases |s|
  {
    if WILDCARD <= s {
      UnescapeShrinks(s[|WILDCARD|..]);
    } else if s != [] {
      UnescapeShrinks(s[1..]);
    }
  }

  /** A saved name is read back unchanged exactly when it does not itself contain "_wildcard". */
  lemma FileNameRoundTrip(domain: string)
    ensures Unescape(Escape(domain)) == domain <==> !Contains(domain, WILDCARD)
  {
    UnescapeAfterEscape(domain);
    UnescapeShrinks(domain);
  }

  /** How names are written: a leading "*" becomes "_wildcard", and other text without "*" stays. */
  lemma EscapedForm(d: string)
    requires '*' !in d
    ensures Escape(d) == d
    ensures Escape("*" + d) == "_wildcard" + d
  {
    EscapeSkipsPlain([], d);
    assert d + [] == d;
    EscapeCons("*" + d);
    assert ("*" + d)[1..] == d;
  }

  // ----- white space ----------------------------------------------------

  lemma UnescapeCons(s: string)
    requires s != [] && s[0] != '_'
    ensures Unescape(s) == [s[0]] + Unescape(s[1..])
  {
    WildcardLetters();
  }

  lemma SpaceCompletesNothing(s: string, c: char)
    requires IsSpace(c) && !(WILDCARD <= s)
    ensures !(WILDCARD <= s + [c])
  {
    var n := |WILDCARD|;
    WildcardLetters();
    if |s| + 1 == n {
      assert (s + [c])[n - 1] == c;
    } else if n <= |s| {
      assert (s + [c])[..n] == s[..n];
    }
  }

  lemma {:induction false} UnescapeSnoc(s: string, c: char)
    requires IsSpace(c)
    ensures Unescape(s + [c]) == Unescape(s) + [c]
    decreases |s|
  {
    var t := s + [c];
    if WILDCARD <= s {
      assert t[|WILDCARD|..] == s[|WILDCARD|..] + [c];
      UnescapeSnoc(s[|WILDCARD|..], c);
    } else if s == [] {
      UnescapeCons(t);
      assert t[1..] == [];
    } else {
      SpaceCompletesNothing(s, c);
      assert t[1..] == s[1..] + [c];
      UnescapeSnoc(s[1..], c);
    }
  }

  lemma UnescapeEnds(s: string)
    requires s != []
    ensures Unescape(s) != []
    ensures IsSpace(Unescape(s)[0]) ==> IsSpace(s[0])
  {
  }

  lemma {:induction false} UnescapeLast(s: string)
    requires s != []
    ensures Unescape(s) != []
    ensures IsSpace(Unescape(s)[|Unescape(s)| - 1]) ==> IsSpace(s[|s| - 1])
    decreases |s|
  {
    var k := if WILDCARD <= s then |WILDCARD| else 1;
    if |s| > k {
      UnescapeLast(s[k..]);
    } else {
      assert s[k..] == [] && Unescape([]) == [];
    }
  }

  lemma {:induction false} TrimLeftUnescape(s: string)
    ensures TrimLeft(Unescape(s)) == Unescape(TrimLeft(s))
    decreases |s|
  {
    if s != [] {
      UnescapeEnds(s);
      if IsSpace(s[0]) {
        UnescapeCons(s);
        assert Unescape(s)[1..] == Unescape(s[1..]);
        TrimLeftUnescape(s[1..]);
      }
    }
  }

  lemma {:induction false} TrimRightUnescape(s: string)
    ensures TrimRight(Unescape(s)) == Unescape(TrimRight(s))
    decreases |s|
  {
    if s != [] {
      var n := |s| - 1;
      UnescapeLast(s);
      if IsSpace(s[n]) {
        assert s == s[..n] + [s[n]];
        UnescapeSnoc(s[..n], s[n]);
        assert Unescape(s)[..|Unescape(s)| - 1] == Unescape(s[..n]);
        TrimRightUnescape(s[..n]);
      }
    }
  }

  /** Reading a name back neither adds nor removes white space at its ends. */
  lemma TrimUnescape(s: string)
    ensures TrimSpace(Unescape(s)) == Unescape(TrimSpace(s))
  {
    TrimLeftUnescape(s);
    TrimRightUnescape(TrimLeft(s));
  }
}
