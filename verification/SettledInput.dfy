/**
 When is one read enough? ExtractSNI's answer on the bytes so far is final exactly
 when they are settled, which a caller could check before deciding.
 */
module SettledInput {
  import opened Wire
  import opened FastParser
  import opened InputStability
  import opened ParserAgreement

  /** A byte already there, or zero, the least it can turn out to be. */
  function Least(s: bytes, i: nat): byte {
    if i < |s| then s[i] else 0
  }

  function LeastU16(s: bytes, pos: nat): nat {
    Least(s, pos) as int * 0x100 + Least(s, pos + 1)
  }

  /** The first entry of extension data from lo to next can still be a host name that fits. */
  predicate OpenEntry(s: bytes, lo: nat, next: nat) {
    lo + SNI_MIN_HEADER_SIZE + LeastU16(s, lo + 3) <= next && Least(s, lo + 2) == 0
  }

  /** An extension header that is not all there: it can be a server_name's, or leave room for one behind it. */
  predicate OpenHeader(s: bytes, pos: nat, end: nat) {
    LeastU16(s, pos) == 0 || pos + 8 + 0x100 * Least(s, pos + 2) <= end
  }

  /** Bytes to come can still make the walk from pos find a name. */
  predicate Open(s: bytes, pos: nat, end: nat)
    decreases end - pos
  {
    && pos + 4 <= end
    && if |s| < pos + 4 then OpenHeader(s, pos, end)
       else
         var next := pos + 4 + U16(s, pos + 2);
         if U16(s, pos) == 0 then OpenEntry(s, pos + 4, next) else Open(s, next, end)
  }

  /** No name can be found any more: by the first byte, by byte 5, or because the extension walk has been decided. */
  predicate Hopeless(p: bytes) {
    || (|p| > 0 && p[0] != TLS_HANDSHAKE)
    || (|p| > 5 && p[5] == TLS_HANDSHAKE)
    || (IsTLSHandshake(p) && SkipClientHelloHeaders(p[5..]).Found? && HopelessBlock(p[5..]))
  }

  predicate HopelessBlock(hs: bytes)
    requires SkipClientHelloHeaders(hs).Found?
  {
    var pos := SkipClientHelloHeaders(hs).value;
    !Open(hs, pos + 2, pos + 2 + U16(hs, pos))
  }

  predicate Settled(p: bytes) {
    Locate(p).Found? || Hopeless(p)
  }

  // ===== settled answers are final =======================================

  lemma LeastIsLeast(s: bytes, q: bytes, pos: nat)
    requires pos + 2 <= |s + q|
    ensures LeastU16(s, pos) <= U16(s + q, pos)
    ensures 0x100 * Least(s, pos) <= U16(s + q, pos)
    ensures LeastU16(s, pos) != 0 ==> U16(s + q, pos) != 0
  {
  }

  lemma ClosedEntry(s: bytes, q: bytes, lo: nat, next: nat)
    requires lo <= next <= |s + q| && !OpenEntry(s, lo, next)
    ensures FirstEntry(s + q, lo, next) == NoName
  {
    hide U16, LeastU16;
    if lo + 5 <= next {
      LeastIsLeast(s, q, lo + 3);
      assert Least(s, lo + 2) != 0 ==> (s + q)[lo + 2] == s[lo + 2];
    }
  }

  lemma {:induction false} ClosedWalk(s: bytes, q: bytes, pos: nat, end: nat)
    requires end <= |s + q| && !Open(s, pos, end)
    ensures FirstServerName(s + q, pos, end) == NoName
    decreases end - pos
  {
    hide U16, LeastU16, Least, FirstEntry, OpenEntry;
    var t := s + q;
    if pos + 4 <= end {
      var next := pos + 4 + U16(t, pos + 2);
      if |s| < pos + 4 {
        LeastIsLeast(s, q, pos);
        LeastIsLeast(s, q, pos + 2);
      } else {
        U16Prefix(s, q, pos);
        U16Prefix(s, q, pos + 2);
        if next > |t| {
        } else if U16(s, pos) == 0 {
          ClosedEntry(s, q, pos + 4, next);
        } else {
          ClosedWalk(s, q, next, end);
        }
      }
    }
  }

  lemma HopelessBlockStays(hs: bytes, q: bytes)
    requires SkipClientHelloHeaders(hs).Found? && HopelessBlock(hs)
    ensures NameFromExtensions(hs + q, SkipClientHelloHeaders(hs).value) == NoName
  {
    hide U16, SkipClientHelloHeaders, Open, FirstServerName;
    var pos := SkipClientHelloHeaders(hs).value;
    U16Prefix(hs, q, pos);
    var end := pos + 2 + U16(hs, pos);
    if end <= |hs + q| {
      ClosedWalk(hs, q, pos + 2, end);
    }
  }

  lemma HopelessStays(p: bytes, q: bytes)
    requires Hopeless(p)
    ensures Locate(p + q) == NoName
  {
    hide SkipClientHelloHeaders, NameFromExtensions, HopelessBlock;
    if IsTLSHandshake(p) {
      var hs := p[5..];
      assert (p + q)[5..] == hs + q;
      SkipStable(hs, q);
      HopelessBlockStays(hs, q);
    }
  }

  // ===== unsettled answers are not =======================================

  /** n zero bytes, but 5 at offset k. */
  function Fill(n: nat, k: int): (q: bytes)
    ensures |q| == n
  {
    seq(n, i => if i == k then 5 else 0)
  }

  lemma Filled(s: bytes, n: nat, k: int, i: nat)
    requires i < |s| + n
    ensures (s + Fill(n, k))[i] == if i >= |s| && i - |s| == k then 5 else Least(s, i)
  {
  }

  lemma FilledU16(s: bytes, n: nat, k: int, pos: nat)
    requires pos + 2 <= |s| + n
    ensures U16(s + Fill(n, k), pos) ==
      (if pos >= |s| && pos - |s| == k then 5 else Least(s, pos) as int) * 0x100
      + (if pos + 1 >= |s| && pos + 1 - |s| == k then 5 else Least(s, pos + 1))
  {
    hide Fill;
    Filled(s, n, k, pos);
    Filled(s, n, k, pos + 1);
  }

  /** A header for five bytes of data, all zero, is a server_name with an empty host name. */
  lemma EmptyNameFound(t: bytes, pos: nat, end: nat)
    requires pos + 4 <= end <= |t| && U16(t, pos) == 0
    requires 5 <= U16(t, pos + 2) && pos + 4 + U16(t, pos + 2) <= |t|
    requires t[pos + 6] == 0 && U16(t, pos + 7) == 0
    ensures FirstServerName(t, pos, end).Found?
  {
    hide U16;
  }

  lemma OpenEntryFound(s: bytes, pos: nat, end: nat) returns (q: bytes)
    requires pos + 4 <= end && pos + 4 <= |s| && U16(s, pos) == 0 && Open(s, pos, end)
    ensures end <= |s + q| && FirstServerName(s + q, pos, end).Found?
  {
    hide U16, Fill, Least;
    var n := end + 0x3_0000;
    q := Fill(n, -1);
    U16Prefix(s, q, pos);
    U16Prefix(s, q, pos + 2);
    Filled(s, n, -1, pos + 6);
    FilledU16(s, n, -1, pos + 7);
  }

  lemma OpenHeaderFound(s: bytes, pos: nat, end: nat) returns (q: bytes)
    requires pos + 4 <= end && |s| < pos + 4 && OpenHeader(s, pos, end)
    ensures end <= |s + q| && FirstServerName(s + q, pos, end).Found?
  {
    hide U16, Fill;
    var n := end + 0x3_0000;
    var room := pos + 4 + 0x100 * Least(s, pos + 2);
    var at := if LeastU16(s, pos) == 0 then pos else room;
    var k := at + 3 - |s|;
    q := Fill(n, k);
    FilledU16(s, n, k, pos);
    FilledU16(s, n, k, pos + 2);
    FilledU16(s, n, k, at);
    FilledU16(s, n, k, at + 2);
    Filled(s, n, k, at + 6);
    FilledU16(s, n, k, at + 7);
    EmptyNameFound(s + q, at, end);
  }

  lemma {:induction false} OpenCanBeFound(s: bytes, pos: nat, end: nat) returns (q: bytes)
    requires Open(s, pos, end)
    ensures end <= |s + q| && FirstServerName(s + q, pos, end).Found?
    decreases end - pos
  {
    hide U16, OpenEntry, OpenHeader, FirstEntry;
    if |s| < pos + 4 {
      q := OpenHeaderFound(s, pos, end);
    } else if U16(s, pos) == 0 {
      q := OpenEntryFound(s, pos, end);
    } else {
      q := OpenCanBeFound(s, pos + 4 + U16(s, pos + 2), end);
      U16Prefix(s, q, pos);
      U16Prefix(s, q, pos + 2);
    }
  }

  /** The header walk reads nothing at or behind the position it returns. */
  lemma SkipReadsHeader(a: bytes, b: bytes, pos: nat)
    requires SkipClientHelloHeaders(a) == Found(pos) && pos + 2 <= |b| && a[..pos] == b[..pos]
    ensures SkipClientHelloHeaders(b) == Found(pos)
  {
    assert forall i | 0 <= i < pos :: a[i] == a[..pos][i] == b[..pos][i] == b[i];
  }

  /** Enough zeros complete any header that has its session-id length. */
  lemma ZerosComplete(hs: bytes)
    requires |hs| > HELLO_SIZE
    ensures SkipClientHelloHeaders(hs + Fill(0x3_0000, -1)).Found?
  {
    hide U16, Fill;
  }

  /** Zeros, but a block of at least 255 bytes at pos, starting with an extension of five bytes. */
  function BlockFill(have: nat, pos: nat): (q: bytes)
    ensures |q| == 0x3_0000
  {
    seq(0x3_0000, i => if have + i == pos + 1 then 255 else if have + i == pos + 5 then 5 else 0)
  }

  lemma BlockFillFound(hs: bytes, pos: nat)
    requires pos <= |hs| + 0x1_1000 && |hs| < pos + 2
    ensures pos + 2 <= |hs| + 0x3_0000
    ensures NameFromExtensions(hs + BlockFill(|hs|, pos), pos).Found?
  {
    hide FirstServerName;
    var t := hs + BlockFill(|hs|, pos);
    assert t[pos + 1] == 255;
    var end := pos + 2 + U16(t, pos);
    assert U16(t, pos + 2) == 0 && U16(t, pos + 4) == 5;
    assert t[pos + 8] == 0 && U16(t, pos + 9) == 0;
    EmptyNameFound(t, pos + 2, end);
  }

  lemma HeaderCanComplete(hs: bytes) returns (q: bytes)
    requires |hs| > HELLO_SIZE && SkipClientHelloHeaders(hs) == NoName
    ensures SkipClientHelloHeaders(hs + q).Found?
    ensures NameFromExtensions(hs + q, SkipClientHelloHeaders(hs + q).value).Found?
  {
    hide U16, SkipClientHelloHeaders, NameFromExtensions, Fill;
    var zeros := Fill(0x3_0000, -1);
    var t := hs + zeros;
    ZerosComplete(hs);
    var pos := SkipClientHelloHeaders(t).value;
    if pos + 2 <= |hs| {
      assert t[..pos] == hs[..pos];
      SkipReadsHeader(t, hs, pos);
    }
    SkipBound(t);
    q := BlockFill(|hs|, pos);
    BlockFillFound(hs, pos);
    SameBefore(hs, pos);
    SkipReadsHeader(t, hs + q, pos);
  }

  lemma SkipBound(t: bytes)
    requires SkipClientHelloHeaders(t).Found?
    ensures SkipClientHelloHeaders(t).value <= HELLO_SIZE + 2 * 0x100 + 2 + 0x1_0000
  {
    hide U16;
  }

  lemma SameBefore(hs: bytes, pos: nat)
    requires pos <= |hs| + 0x3_0000
    ensures (hs + Fill(0x3_0000, -1))[..pos] == (hs + BlockFill(|hs|, pos))[..pos]
  {
    var a, b := hs + Fill(0x3_0000, -1), hs + BlockFill(|hs|, pos);
    assert forall i | 0 <= i < pos :: a[i] == b[i];
  }

  // ===== exactly the settled answers are final ============================

  lemma LocateBehindHeader(data: bytes)
    requires IsTLSHandshake(data) && SkipClientHelloHeaders(data[5..]).Found?
    ensures Locate(data).Found? <==>
      NameFromExtensions(data[5..], SkipClientHelloHeaders(data[5..]).value).Found?
  {
  }

  /** Short of a whole session-id length, padding to 43 bytes makes the index panic, and one byte more makes it stop. */
  lemma ShortUnsettled(p: bytes) returns (q: bytes)
    requires |p| <= 43 && !Settled(p)
    ensures Locate(p + q) != Locate(p)
  {
    hide Locate;
    if |p| == 43 {
      q := [0];
    } else {
      q := seq(43 - |p|, i => if |p| + i == 0 then TLS_HANDSHAKE else 0);
    }
    PanicsExactlyAt43(p);
    PanicsExactlyAt43(p + q);
  }

  lemma LongUnsettled(p: bytes) returns (q: bytes)
    requires |p| > 43 && !Settled(p)
    ensures Locate(p + q) != Locate(p)
  {
    hide Locate, SkipClientHelloHeaders, NameFromExtensions, Open, U16;
    var hs := p[5..];
    SkipPanics(hs);
    if SkipClientHelloHeaders(hs).NoName? {
      q := HeaderCanComplete(hs);
    } else {
      var pos := SkipClientHelloHeaders(hs).value;
      SkipRoom(hs);
      var end := pos + 2 + U16(hs, pos);
      q := OpenCanBeFound(hs, pos + 2, end);
      SkipStable(hs, q);
      U16Prefix(hs, q, pos);
      assert NameFromExtensions(hs + q, pos) == FirstServerName(hs + q, pos + 2, end) by { BlockWalk(hs + q, pos); }
    }
    assert (p + q)[5..] == hs + q;
    LocateBehindHeader(p + q);
  }

  lemma SkipPanics(hs: bytes)
    ensures SkipClientHelloHeaders(hs).IndexPanic? <==> |hs| == HELLO_SIZE
  {
  }

  lemma SkipRoom(hs: bytes)
    requires SkipClientHelloHeaders(hs).Found?
    ensures SkipClientHelloHeaders(hs).value + 2 <= |hs|
  {
  }

  /** One read is enough, for every continuation of the stream, if and only if its bytes are settled. */
  lemma FinalExactlyWhenSettled(p: bytes)
    ensures Settled(p) <==> forall q: bytes :: Locate(p + q) == Locate(p)
  {
    hide Locate, Hopeless;
    if Settled(p) {
      forall q: bytes ensures Locate(p + q) == Locate(p) {
        SettledStays(p, q);
      }
    } else if |p| <= 43 {
      var q := ShortUnsettled(p);
      assert Locate(p + q) != Locate(p);
    } else {
      var q := LongUnsettled(p);
      assert Locate(p + q) != Locate(p);
    }
  }

  lemma SettledStays(p: bytes, q: bytes)
    requires Settled(p)
    ensures Locate(p + q) == Locate(p)
    ensures Slice(p + q, Locate(p + q)) == Slice(p, Locate(p))
  {
    hide Locate, Hopeless;
    if Locate(p).Found? {
      FoundNameIsStable(p, q);
    } else {
      HopelessStays(p, q);
      HopelessStays(p, []);
      assert p + [] == p;
    }
  }
}
