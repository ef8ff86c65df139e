/**
 More input does not change an answer already given, and a reused receiver does
 not let an earlier message show through.
 */
module InputStability {
  import opened Wire
  import opened FullParser
  import opened FastParser
  import opened NameRanges

  // ===== ExtractSNI ======================================================

  lemma {:induction false} WalkStable(s: bytes, q: bytes, pos: nat, end: nat)
    requires end <= |s| && FirstServerName(s, pos, end).Found?
    ensures FirstServerName(s + q, pos, end) == FirstServerName(s, pos, end)
    decreases end - pos
  {
    hide U16;
    U16Prefix(s, q, pos);
    U16Prefix(s, q, pos + 2);
    var next := pos + 4 + U16(s, pos + 2);
    if U16(s, pos) != 0 {
      WalkStable(s, q, next, end);
    } else {
      U16Prefix(s, q, pos + 7);
    }
  }

  lemma SkipStable(s: bytes, q: bytes)
    requires SkipClientHelloHeaders(s).Found?
    ensures SkipClientHelloHeaders(s + q) == SkipClientHelloHeaders(s)
  {
    hide U16;
    U16Prefix(s, q, HELLO_SIZE + 1 + s[HELLO_SIZE]);
  }

  /** A name found in one read is the name found however much of the stream follows it. */
  lemma FoundNameIsStable(p: bytes, q: bytes)
    requires Locate(p).Found?
    ensures Locate(p + q) == Locate(p)
    ensures Slice(p + q, Locate(p + q)) == Slice(p, Locate(p))
  {
    hide U16, SkipClientHelloHeaders;
    var hs := p[5..];
    assert (p + q)[5..] == hs + q;
    SkipStable(hs, q);
    var pos := SkipClientHelloHeaders(hs).value;
    U16Prefix(hs, q, pos);
    WalkStable(hs, q, pos + 2, pos + 2 + U16(hs, pos));
    var r := Locate(p).value;
    assert (p + q)[r.lo..r.hi] == p[r.lo..r.hi];
  }

  // ===== Unmarshal =======================================================

  /** Unmarshal accepts the buffer and finds a length field for an extension block in it. */
  predicate HasBlock(buf: bytes) {
    && |buf| >= 9
    && var body := ParseBody(ZeroHello(), buf[9..]).1;
    body.Ok? && body.value + 2 <= |buf| - 9
  }

  lemma BodyStable(h: Hello, s: bytes, q: bytes)
    requires h.Valid() && ParseBody(h, s).1.Ok?
    ensures ParseBody(h, s + q) == ParseBody(h, s)
  {
    hide U16;
    var t := s + q;
    U16Prefix(s, q, 0);
    assert t[2..34] == s[2..34];
    var p2: nat := 35 + s[34] as int;
    assert t[35..p2] == s[35..p2];
    U16Prefix(s, q, p2);
    var p3 := p2 + 2 + U16(s, p2);
    CipherSuitesStable(s, q, p2 + 2, U16(s, p2) / 2);
    assert t[p3 + 1..p3 + 1 + s[p3]] == s[p3 + 1..p3 + 1 + s[p3]];
  }

  lemma CipherSuitesStable(s: bytes, q: bytes, pos: nat, count: nat)
    requires pos + 2 * count <= |s|
    ensures CipherSuitesAt(s + q, pos, count) == CipherSuitesAt(s, pos, count)
  {
    hide U16;
    forall i | 0 <= i < count ensures U16(s + q, pos + 2 * i) == U16(s, pos + 2 * i) {
      U16Prefix(s, q, pos + 2 * i);
    }
  }

  lemma {:induction false} EntryNamesStable(s: bytes, q: bytes, pos: nat, end: nat)
    requires end <= |s|
    ensures EntryNames(s + q, pos, end) == EntryNames(s, pos, end)
    decreases end - pos
  {
    hide U16;
    if pos + 3 <= end {
      U16Prefix(s, q, pos + 1);
      var next := pos + 3 + U16(s, pos + 1);
      if next <= end {
        EntryNamesStable(s, q, next, end);
        assert (s + q)[pos + 3..next] == s[pos + 3..next];
      }
    }
  }

  lemma ListNamesStable(s: bytes, q: bytes, lo: nat, hi: nat)
    requires lo <= hi <= |s|
    ensures ListNames(s + q, lo, hi) == ListNames(s, lo, hi)
  {
    hide U16;
    if hi - lo >= 2 {
      U16Prefix(s, q, lo);
      if lo + 2 + U16(s, lo) <= hi {
        EntryNamesStable(s, q, lo + 2, lo + 2 + U16(s, lo));
      }
    }
  }

  lemma {:induction false} ExtensionNamesStable(s: bytes, q: bytes, pos: nat, extEnd: nat)
    requires extEnd <= |s|
    ensures ExtensionNames(s + q, pos, extEnd) == ExtensionNames(s, pos, extEnd)
    decreases extEnd - pos
  {
    hide U16;
    if pos + 4 <= extEnd {
      U16Prefix(s, q, pos);
      U16Prefix(s, q, pos + 2);
      var next := pos + 4 + U16(s, pos + 2);
      if next <= extEnd {
        ListNamesStable(s, q, pos + 4, next);
        ExtensionNamesStable(s, q, next, extEnd);
      }
    }
  }

  lemma BlockStable(h: Hello, p: bytes, q: bytes)
    requires h.Valid() && Unmarshaled(h, p).1.Ok? && HasBlock(p)
    ensures Unmarshaled(h, p + q) == Unmarshaled(h, p)
  {
    hide U16, ParseBody;
    var s := p[9..];
    assert (p + q)[9..] == s + q;
    U16Prefix(p, q, 3);
    BodyStable(h, s, q);
    BodyEndIgnoresReceiver(h, ZeroHello(), s);
    var pos := ParseBody(h, s).1.value;
    U16Prefix(s, q, pos);
    match LocateBlock(s, pos)
    case BlockAt(start, end) => ExtensionNamesStable(s, q, start, end);
  }

  /** Without a block, two more bytes already announce one that is not there. */
  lemma NoBlockUnstable(h: Hello, p: bytes)
    requires h.Valid() && Unmarshaled(h, p).1.Ok? && !HasBlock(p)
    ensures Unmarshaled(h, p + [0xFF, 0xFF]).1 == Err(ExtensionsTruncated)
  {
    var q: bytes := [0xFF, 0xFF];
    var s := p[9..];
    assert (p + q)[9..] == s + q;
    assert U16(p + q, 3) == U16(p, 3);
    BodyStable(h, s, q);
    var pos := ParseBody(h, s).1.value;
    assert U16(s + q, pos) >= 0xFF;
  }

  /** The answer of a successful Unmarshal survives every continuation exactly when it saw a block. */
  lemma UnmarshalStableExactlyWithBlock(h: Hello, p: bytes)
    requires h.Valid() && Unmarshaled(h, p).1.Ok?
    ensures HasBlock(p) <==> forall q: bytes :: Unmarshaled(h, p + q) == Unmarshaled(h, p)
  {
    if HasBlock(p) {
      forall q: bytes ensures Unmarshaled(h, p + q) == Unmarshaled(h, p) {
        BlockStable(h, p, q);
      }
    } else {
      NoBlockUnstable(h, p);
    }
  }

  // ===== receiver reuse ==================================================

  /** What a caller reads from a receiver: every field, and the slots in use. */
  datatype View = View(
    version: uint16, random: bytes, sessionId: bytes,
    cipherSuites: seq<uint16>, compressionMethods: bytes, names: seq<bytes>)

  function Visible(h: Hello): View
    requires h.Valid()
  {
    View(h.version, h.random, h.sessionId, h.cipherSuites, h.compressionMethods, h.Names())
  }

  /** The receiver after a sequence of Unmarshal calls, whatever each of them returned. */
  function AfterCalls(h: Hello, bufs: seq<bytes>): (r: Hello)
    requires h.Valid()
    ensures r.Valid()
  {
    if bufs == [] then h
    else Unmarshaled(AfterCalls(h, bufs[..|bufs| - 1]), bufs[|bufs| - 1]).0
  }

  lemma OneCallForgets(h: Hello, g: Hello, buf: bytes)
    requires h.Valid() && g.Valid()
    ensures Unmarshaled(h, buf).1 == Unmarshaled(g, buf).1
    ensures Unmarshaled(h, buf).1.Ok? ==> Visible(Unmarshaled(h, buf).0) == Visible(Unmarshaled(g, buf).0)
  {
    hide U16;
  }

  /** After any history, a call answers and, if it succeeds, shows exactly what it would on a fresh receiver. */
  lemma ReceiverShowsNoHistory(bufs: seq<bytes>, buf: bytes)
    ensures
      var used := Unmarshaled(AfterCalls(ZeroHello(), bufs), buf);
      var unused := Unmarshaled(ZeroHello(), buf);
      used.1 == unused.1 && (used.1.Ok? ==> Visible(used.0) == Visible(unused.0))
  {
    OneCallForgets(AfterCalls(ZeroHello(), bufs), ZeroHello(), buf);
  }

  /** A refused message leaves the names of the last accepted one in place, next to its own earlier fields. */
  lemma RefusalKeepsNames(h: Hello, buf: bytes)
    requires h.Valid() && Unmarshaled(h, buf).1.Err?
    ensures Unmarshaled(h, buf).0.slots == h.slots && Unmarshaled(h, buf).0.count == h.count
  {
    hide U16;
  }
}
