/**
 The string operations the proxy applies to domain names. Case and white space
 are those of ASCII.
 */
module Text {
  function LowerChar(c: char): char {
    if 'A' <= c <= 'Z' then c - 'A' + 'a' else c
  }

  function ToLower(s: string): (r: string)
    ensures |r| == |s|
  {
    seq(|s|, i requires 0 <= i < |s| => LowerChar(s[i]))
  }

  predicate IsSpace(c: char) {
    c == ' ' || '\t' <= c <= '\r'
  }

  function TrimLeft(s: string): string {
    if s != [] && IsSpace(s[0]) then TrimLeft(s[1..]) else s
  }

  function TrimRight(s: string): string {
    if s != [] && IsSpace(s[|s| - 1]) then TrimRight(s[..|s| - 1]) else s
  }

  function TrimSpace(s: string): string {
    TrimRight(TrimLeft(s))
  }

  /** strings.ToLower(strings.TrimSpace(s)) */
  function Normalize(s: string): string {
    ToLower(TrimSpace(s))
  }

  predicate HasSuffix(s: string, suffix: string) {
    |suffix| <= |s| && s[|s| - |suffix|..] == suffix
  }

  predicate Contains(s: string, part: string) {
    part <= s || (s != [] && Contains(s[1..], part))
  }

  /** strings.ReplaceAll for a non-empty pattern: leftmost matches first, none overlapping. */
  function ReplaceAll(s: string, find: string, put: string): string
    requires find != []
    decreases |s|
  {
    if find <= s then put + ReplaceAll(s[|find|..], find, put)
    else if s == [] then []
    else [s[0]] + ReplaceAll(s[1..], find, put)
  }

  /** strings.Split(s, sep) for a one-character separator. */
  function Split(s: string, sep: char): (parts: seq<string>)
    ensures parts != []
  {
    if s == [] then [[]]
    else if s[0] == sep then [[]] + Split(s[1..], sep)
    else
      var rest := Split(s[1..], sep);
      [[s[0]] + rest[0]] + rest[1..]
  }

  /** strings.Join(parts, sep) */
  function Join(parts: seq<string>, sep: string): string {
    if parts == [] then []
    else if |parts| == 1 then parts[0]
    else parts[0] + sep + Join(parts[1..], sep)
  }

  // ----- normalised names -----------------------------------------------

  /** No surrounding white space and no upper-case letter. */
  predicate IsNormal(s: string) {
    && (s != [] ==> !IsSpace(s[0]) && !IsSpace(s[|s| - 1]))
    && (forall i | 0 <= i < |s| :: LowerChar(s[i]) == s[i])
  }

  lemma {:induction false} TrimRightEnds(s: string)
    ensures TrimRight(s) <= s
    ensures TrimRight(s) != [] ==> !IsSpace(TrimRight(s)[|TrimRight(s)| - 1])
    decreases |s|
  {
    if s != [] && IsSpace(s[|s| - 1]) {
      TrimRightEnds(s[..|s| - 1]);
    }
  }

  lemma {:induction false} TrimLeftEnds(s: string)
    ensures TrimLeft(s) != [] ==> !IsSpace(TrimLeft(s)[0])
    decreases |s|
  {
    if s != [] && IsSpace(s[0]) {
      TrimLeftEnds(s[1..]);
    }
  }

  lemma NormalizeIsNormal(s: string)
    ensures IsNormal(Normalize(s))
  {
    TrimLeftEnds(s);
    TrimRightEnds(TrimLeft(s));
    var t, n := TrimSpace(s), Normalize(s);
    assert forall i | 0 <= i < |n| :: n[i] == LowerChar(t[i]);
    if n != [] {
      assert t[0] == TrimLeft(s)[0];
    }
  }

  lemma NormalUnchanged(s: string)
    requires IsNormal(s)
    ensures Normalize(s) == s
  {
    assert TrimLeft(s) == s && TrimRight(s) == s;
  }

  lemma NormalizeIdempotent(s: string)
    ensures Normalize(Normalize(s)) == Normalize(s)
  {
    NormalizeIsNormal(s);
    NormalUnchanged(Normalize(s));
  }

  // ----- what trimming and lower-casing do, character by character --------

  /** Tab, line feed, vertical tab, form feed, carriage return or space. */
  predicate Blank(c: char) {
    c as int == 32 || 9 <= c as int <= 13
  }

  predicate IsBlank(s: string) {
    forall i | 0 <= i < |s| :: Blank(s[i])
  }

  lemma OneBlank(c: char)
    requires IsSpace(c)
    ensures IsBlank([c])
  {
  }

  lemma BlankConcat(a: string, b: string)
    requires IsBlank(a) && IsBlank(b)
    ensures IsBlank(a + b)
  {
  }

  lemma {:induction false} TrimLeftSplits(s: string) returns (left: string)
    ensures IsBlank(left) && s == left + TrimLeft(s)
    decreases |s|
  {
    if s != [] && IsSpace(s[0]) {
      hide IsBlank;
      var rest := TrimLeftSplits(s[1..]);
      left := [s[0]] + rest;
      assert IsBlank([s[0]]) by { OneBlank(s[0]); }
      BlankConcat([s[0]], rest);
      assert s == [s[0]] + s[1..];
      assert [s[0]] + (rest + TrimLeft(s[1..])) == left + TrimLeft(s);
    } else {
      left := [];
    }
  }

  lemma {:induction false} TrimRightSplits(s: string) returns (right: string)
    ensures IsBlank(right) && s == TrimRight(s) + right
    decreases |s|
  {
    if s != [] && IsSpace(s[|s| - 1]) {
      var n := |s| - 1;
      hide IsBlank;
      var rest := TrimRightSplits(s[..n]);
      right := rest + [s[n]];
      assert IsBlank([s[n]]) by { OneBlank(s[n]); }
      BlankConcat(rest, [s[n]]);
      assert s == s[..n] + [s[n]];
      assert (TrimRight(s[..n]) + rest) + [s[n]] == TrimRight(s) + right;
    } else {
      right := [];
    }
  }

  /** Trimming takes off blanks at both ends, all of them, and nothing else. */
  lemma TrimSpaceMeaning(s: string) returns (left: string, right: string)
    ensures IsBlank(left) && IsBlank(right) && s == left + TrimSpace(s) + right
    ensures var t := TrimSpace(s); t != [] ==> !Blank(t[0]) && !Blank(t[|t| - 1])
  {
    left := TrimLeftSplits(s);
    right := TrimRightSplits(TrimLeft(s));
    TrimLeftEnds(s);
    TrimRightEnds(TrimLeft(s));
    var t := TrimSpace(s);
    assert s == left + (t + right);
    if t != [] {
      assert t[0] == TrimLeft(s)[0];
    }
  }

  /** The letters A to Z become a to z and every other character stays. */
  lemma ToLowerMeaning(s: string, i: nat)
    requires i < |s|
    ensures |ToLower(s)| == |s|
    ensures ToLower(s)[i] as int == if 65 <= s[i] as int <= 90 then s[i] as int + 32 else s[i] as int
  {
  }

  /** A name with blanks around it and in any case normalises to the name in lower case. */
  lemma NormalizeMeaning(left: string, s: string, right: string)
    requires IsBlank(left) && IsBlank(right)
    requires s != [] ==> !Blank(s[0]) && !Blank(s[|s| - 1])
    ensures Normalize(left + s + right) == ToLower(s)
  {
    hide TrimLeft, TrimRight, ToLower, IsBlank;
    assert left + s + right == left + (s + right);
    DropLeft(left, s + right);
    if s == [] {
      AllBlank(right);
      assert s + right == right;
    } else {
      DropRight(s, right);
      KeepsLeft(s + right);
    }
  }

  lemma KeepsLeft(s: string)
    requires s != [] && !Blank(s[0])
    ensures TrimLeft(s) == s
  {
  }

  lemma AllBlank(s: string)
    requires IsBlank(s)
    ensures TrimRight(TrimLeft(s)) == []
  {
    DropLeft(s, []);
    assert s + [] == s;
  }

  lemma {:induction false} DropLeft(left: string, s: string)
    requires IsBlank(left)
    ensures TrimLeft(left + s) == TrimLeft(s)
    decreases |left|
  {
    if left == [] {
      assert left + s == s;
    } else {
      assert (left + s)[1..] == left[1..] + s;
      DropLeft(left[1..], s);
    }
  }

  lemma {:induction false} DropRight(s: string, right: string)
    requires IsBlank(right) && s != [] && !Blank(s[|s| - 1])
    ensures TrimRight(s + right) == s
    decreases |right|
  {
    if right == [] {
      assert s + right == s;
    } else {
      var n := |right| - 1;
      assert (s + right)[..|s| + n] == s + right[..n];
      DropRight(s, right[..n]);
    }
  }

  lemma {:induction false} TrimLeftLower(s: string)
    ensures TrimLeft(ToLower(s)) == ToLower(TrimLeft(s))
    decreases |s|
  {
    if s != [] && IsSpace(s[0]) {
      assert ToLower(s)[1..] == ToLower(s[1..]);
      TrimLeftLower(s[1..]);
    }
  }

  lemma {:induction false} TrimRightLower(s: string)
    ensures TrimRight(ToLower(s)) == ToLower(TrimRight(s))
    decreases |s|
  {
    if s != [] && IsSpace(s[|s| - 1]) {
      assert ToLower(s)[..|s| - 1] == ToLower(s[..|s| - 1]);
      TrimRightLower(s[..|s| - 1]);
    }
  }

  lemma NormalizeIgnoresCase(s: string)
    ensures Normalize(ToLower(s)) == Normalize(s)
  {
    TrimLeftLower(s);
    TrimRightLower(TrimLeft(s));
    assert ToLower(ToLower(TrimSpace(s))) == ToLower(TrimSpace(s));
  }

  // ----- split and join -------------------------------------------------

  lemma JoinAfterSeparator(parts: seq<string>, sep: char)
    requires parts != []
    ensures Join([[]] + parts, [sep]) == [sep] + Join(parts, [sep])
  {
    assert ([[]] + parts)[1..] == parts;
  }

  lemma JoinGrowsFirst(parts: seq<string>, c: char, sep: char)
    requires parts != []
    ensures Join([[c] + parts[0]] + parts[1..], [sep]) == [c] + Join(parts, [sep])
  {
    var grown := [[c] + parts[0]] + parts[1..];
    assert grown[1..] == parts[1..];
    if |parts| > 1 {
      Regroup([c], parts[0], [sep], Join(parts[1..], [sep]));
    }
  }

  lemma Regroup(a: string, b: string, c: string, d: string)
    ensures (a + b) + c + d == a + (b + c + d)
  {
  }

  lemma {:induction false} JoinSplit(s: string, sep: char)
    ensures Join(Split(s, sep), [sep]) == s
    decreases |s|
  {
    if s != [] {
      JoinSplit(s[1..], sep);
      if s[0] == sep {
        JoinAfterSeparator(Split(s[1..], sep), sep);
      } else {
        JoinGrowsFirst(Split(s[1..], sep), s[0], sep);
      }
    }
  }

  lemma {:induction false} SplitAtFirst(leaf: string, rest: string, sep: char)
    requires sep !in leaf
    ensures Split(leaf + [sep] + rest, sep) == [leaf] + Split(rest, sep)
    decreases |leaf|
  {
    var s := leaf + [sep] + rest;
    if leaf == [] {
      assert s[1..] == rest;
    } else {
      assert s[1..] == leaf[1..] + [sep] + rest;
      SplitAtFirst(leaf[1..], rest, sep);
      var tail := Split(s[1..], sep);
      assert tail == [leaf[1..]] + Split(rest, sep);
      assert tail[1..] == Split(rest, sep);
      assert [s[0]] + leaf[1..] == leaf;
    }
  }

  lemma {:induction false} SplitWithout(s: string, sep: char)
    requires sep !in s
    ensures Split(s, sep) == [s]
    decreases |s|
  {
    if s != [] {
      SplitWithout(s[1..], sep);
      assert [s[0]] + s[1..] == s;
    }
  }

  /** Splitting undoes joining for a non-empty list whose parts do not contain the separator. */
  lemma {:induction false} SplitJoin(parts: seq<string>, sep: char)
    requires parts != [] && forall i | 0 <= i < |parts| :: sep !in parts[i]
    ensures Split(Join(parts, [sep]), sep) == parts
    decreases |parts|
  {
    if |parts| == 1 {
      SplitWithout(parts[0], sep);
    } else {
      SplitJoin(parts[1..], sep);
      SplitAtFirst(parts[0], Join(parts[1..], [sep]), sep);
      assert parts == [parts[0]] + parts[1..];
    }
  }
}
