/**
 When do ExtractSNI and Unmarshal report the same name? Names are compared by
 where they lie in the buffer, so that equal bytes elsewhere do not count as
 agreement.
 */
module NameAgreement {
  import opened Wire
  import opened FullParser
  import opened FastParser
  import opened NameRanges
  import opened ParserAgreement

  // ===== where Unmarshal finds the name it puts in slot 0 =================

  function FirstRange(rs: seq<Range>): (r: Outcome<Range>) {
    if rs == [] then NoName else Found(rs[0])
  }

  /** The first of the names, or none: what slot 0 of a fresh receiver says. */
  function Head(names: seq<bytes>): Outcome<bytes> {
    if names == [] then NoName else Found(names[0])
  }

  function ShiftBy(r: Outcome<Range>, k: nat): Outcome<Range> {
    if r.Found? then Found(Range(r.value.lo + k, r.value.hi + k)) else r
  }

  /** Where in buf the name that Unmarshal stores first lies. */
  function UnmarshalLocate(buf: bytes): Outcome<Range> {
    FirstRange(UnmarshalRanges(buf))
  }

  lemma LocateFirst(rs: seq<Range>, k: nat)
    ensures FirstRange(FirstFour(ShiftAll(rs, k))) == ShiftBy(FirstRange(rs), k)
  {
  }

  /** What acceptance by Unmarshal says of the buffer alone. */
  lemma AcceptedBuffer(h: Hello, buf: bytes)
    requires h.Valid() && Unmarshaled(h, buf).1.Ok?
    ensures IsTLSHandshake(buf) && ParseBody(ZeroHello(), buf[9..]).1.Ok?
    ensures ParseBody(ZeroHello(), buf[9..]).1 == ParseBody(h, buf[9..]).1
  {
    BodyEndIgnoresReceiver(h, ZeroHello(), buf[9..]);
  }

  /** After a successful Unmarshal, slot 0 holds the bytes at UnmarshalLocate and is in use exactly when there are any. */
  lemma SlotZeroIsLocated(h: Hello, buf: bytes)
    requires h.Valid() && Unmarshaled(h, buf).1.Ok?
    ensures UnmarshalLocate(buf).Found? ==> UnmarshalLocate(buf).value.lo <= UnmarshalLocate(buf).value.hi <= |buf|
    ensures Head(Unmarshaled(h, buf).0.Names()) == Slice(buf, UnmarshalLocate(buf))
  {
    hide Unmarshaled, UnmarshalRanges;
    NamesLieInOrder(h, buf);
  }

  // ===== the buffers on which the two agree ==============================

  /** The data s[lo..hi] has a list that fits it and starts with a host_name that fits the list. */
  predicate StartsWithHostName(s: bytes, lo: nat, hi: nat)
    requires lo <= hi <= |s|
  {
    && lo + 5 <= hi
    && lo + 2 + U16(s, lo) <= hi
    && s[lo + 2] == 0
    && lo + 5 + U16(s, lo + 3) <= lo + 2 + U16(s, lo)
  }

  /** The first type-0 extension from pos on fits before extEnd and starts with a host name. */
  predicate CanonicalFrom(s: bytes, pos: nat, extEnd: nat)
    requires extEnd <= |s|
    decreases extEnd - pos
  {
    && pos + 4 <= extEnd
    && var next := pos + 4 + U16(s, pos + 2);
    && next <= extEnd
    && if U16(s, pos) == 0 then StartsWithHostName(s, pos + 4, next) else CanonicalFrom(s, next, extEnd)
  }

  predicate Canonical(buf: bytes) {
    && |buf| >= 9
    && var body := ParseBody(ZeroHello(), buf[9..]).1;
    && body.Ok?
    && var block := LocateBlock(buf[9..], body.value);
    && block.BlockAt?
    && CanonicalFrom(buf[9..], block.pos, block.end)
  }

  /** The first range of a list starts behind its first header if and only if that entry is a host name that fits. */
  lemma ListHead(s: bytes, lo: nat, hi: nat)
    requires lo <= hi <= |s|
    ensures
      var rs := ListRanges(s, lo, hi);
      if StartsWithHostName(s, lo, hi)
        then rs != [] && rs[0] == Range(lo + 5, lo + 5 + U16(s, lo + 3))
        else rs == [] || rs[0].lo > lo + 5
  {
    hide U16;
    if lo + 2 <= hi && lo + 2 + U16(s, lo) <= hi && lo + 5 <= lo + 2 + U16(s, lo) {
      assert ListRanges(s, lo, hi) == EntryRanges(s, lo + 2, lo + 2 + U16(s, lo));
    }
  }

  lemma FirstBehind(s: bytes, pos: nat, extEnd: nat)
    requires extEnd <= |s| && ExtensionRanges(s, pos, extEnd) != []
    ensures ExtensionRanges(s, pos, extEnd)[0].lo >= pos + 9
  {
    hide ExtensionRanges;
  }

  /** At a server_name extension both look at the same entry exactly when it starts with a host name. */
  lemma ListAgreement(handshake: bytes, lo: nat, hi: nat, later: seq<Range>)
    requires |handshake| >= 4 && lo <= hi <= |handshake| - 4
    requires later != [] ==> later[0].lo > lo + 5
    ensures
      var s := handshake[4..];
      var fast := FirstEntry(handshake, lo + 4, hi + 4);
      var full := FirstRange(ListRanges(s, lo, hi) + later);
      StartsWithHostName(s, lo, hi) <==> fast.Found? && fast == ShiftBy(full, 4)
  {
    hide U16, ListRanges, InOrder;
    var s := handshake[4..];
    ListHead(s, lo, hi);
    if lo + 5 <= hi {
      U16Drop(handshake, 4, lo);
      U16Drop(handshake, 4, lo + 3);
      assert s[lo + 2] == handshake[lo + 6];
    }
  }

  lemma {:induction false} WalkAgreement(handshake: bytes, pos: nat, extEnd: nat)
    requires |handshake| >= 4 && extEnd <= |handshake| - 4
    ensures
      var fast := FirstServerName(handshake, pos + 4, extEnd + 4);
      CanonicalFrom(handshake[4..], pos, extEnd)
      <==> fast.Found? && fast == ShiftBy(FirstRange(ExtensionRanges(handshake[4..], pos, extEnd)), 4)
    decreases extEnd - pos
  {
    hide U16, ListRanges, InOrder, FirstEntry, StartsWithHostName, FirstRange, ShiftBy;
    var s := handshake[4..];
    if pos + 4 > extEnd {
      NothingShifted();
    } else {
      U16Drop(handshake, 4, pos);
      U16Drop(handshake, 4, pos + 2);
      var next := pos + 4 + U16(s, pos + 2);
      if next > extEnd {
        NothingShifted();
      } else if U16(s, pos) == 0 {
        var later := ExtensionRanges(s, next, extEnd);
        if later != [] {
          FirstBehind(s, next, extEnd);
        }
        ListAgreement(handshake, pos + 4, next, later);
      } else {
        WalkAgreement(handshake, next, extEnd);
      }
    }
  }

  lemma NothingShifted()
    ensures ShiftBy(FirstRange([]), 4) == NoName
  {
  }

  /**
   Whenever Unmarshal accepts a buffer, ExtractSNI finds the very name stored in
   slot 0 if and only if the buffer is canonical.
   */
  lemma ParsersAgreeExactlyOnCanonical(h: Hello, buf: bytes)
    requires h.Valid() && Unmarshaled(h, buf).1.Ok?
    ensures Canonical(buf) <==> Locate(buf).Found? && Locate(buf) == UnmarshalLocate(buf)
  {
    hide U16, ParseBody, Unmarshaled, NameFromExtensions, FirstServerName, SkipClientHelloHeaders;
    hide CanonicalFrom, ExtensionRanges, InOrder, ShiftAll, FirstFour, FirstRange;
    AcceptedBuffer(h, buf);
    var hs, p := buf[5..], ParseBody(ZeroHello(), buf[9..]).1.value;
    assert hs[4..] == buf[9..];
    WalkAfterBody(hs, p);
    if p + 2 <= |hs| - 4 {
      BlocksCoincide(hs, p);
      match LocateBlock(buf[9..], p)
      case BlockAt(start, end) =>
        WalkAgreement(hs, start, end);
        LocateFirst(ExtensionRanges(buf[9..], start, end), 9);
      case _ =>
    }
  }

  lemma BlocksCoincide(hs: bytes, p: nat)
    requires |hs| >= 4 && p + 2 <= |hs| - 4
    ensures NameFromExtensions(hs, p + 4) ==
      match LocateBlock(hs[4..], p)
      case BlockAt(start, end) => FirstServerName(hs, start + 4, end + 4)
      case _ => NoName
  {
    hide U16, FirstServerName;
    U16Drop(hs, 4, p);
  }

  // ===== the buffers in which neither finds a name =======================

  /** ExtractSNI takes a name from extension data from lo to hi. */
  predicate HasFirstName(s: bytes, lo: nat, hi: nat)
    requires lo <= hi <= |s|
  {
    lo + 5 <= hi && s[lo + 2] == 0 && lo + 5 + U16(s, lo + 3) <= hi
  }

  /** Up to the first entry that overruns the list, none is a host name. */
  predicate NoHostEntries(s: bytes, pos: nat, end: nat)
    requires end <= |s|
    decreases end - pos
  {
    pos + 3 <= end && pos + 3 + U16(s, pos + 1) <= end ==>
      s[pos] != 0 && NoHostEntries(s, pos + 3 + U16(s, pos + 1), end)
  }

  predicate NoHostList(s: bytes, lo: nat, hi: nat)
    requires lo <= hi <= |s|
  {
    lo + 2 <= hi && lo + 2 + U16(s, lo) <= hi ==> NoHostEntries(s, lo + 2, lo + 2 + U16(s, lo))
  }

  /** Up to the first extension that overruns the block, no server_name extension holds a host name. */
  predicate NoHostNames(s: bytes, pos: nat, extEnd: nat)
    requires extEnd <= |s|
    decreases extEnd - pos
  {
    pos + 4 <= extEnd && pos + 4 + U16(s, pos + 2) <= extEnd ==>
      var next := pos + 4 + U16(s, pos + 2);
      && (U16(s, pos) == 0 ==> NoHostList(s, pos + 4, next))
      && NoHostNames(s, next, extEnd)
  }

  /** The first type-0 extension that ExtractSNI reaches, bounded by the buffer, has no name for it. */
  predicate NoFirstName(s: bytes, pos: nat, extEnd: nat)
    requires extEnd <= |s|
    decreases extEnd - pos
  {
    pos + 4 <= extEnd && pos + 4 + U16(s, pos + 2) <= |s| ==>
      var next := pos + 4 + U16(s, pos + 2);
      if U16(s, pos) == 0 then !HasFirstName(s, pos + 4, next) else NoFirstName(s, next, extEnd)
  }

  /** No block, or one in which both walks come to nothing. */
  predicate Silent(buf: bytes) {
    && |buf| >= 9
    && var body := ParseBody(ZeroHello(), buf[9..]).1;
    && body.Ok?
    && match LocateBlock(buf[9..], body.value)
       case NoBlock => true
       case Truncated => false
       case BlockAt(p, end) => NoHostNames(buf[9..], p, end) && NoFirstName(buf[9..], p, end)
  }

  lemma {:induction false} NoEntryRanges(s: bytes, pos: nat, end: nat)
    requires end <= |s|
    ensures NoHostEntries(s, pos, end) <==> EntryRanges(s, pos, end) == []
    decreases end - pos
  {
    hide U16, InOrder;
    if pos + 3 <= end && pos + 3 + U16(s, pos + 1) <= end {
      NoEntryRanges(s, pos + 3 + U16(s, pos + 1), end);
    }
  }

  lemma {:induction false} NoExtensionRanges(s: bytes, pos: nat, extEnd: nat)
    requires extEnd <= |s|
    ensures NoHostNames(s, pos, extEnd) <==> ExtensionRanges(s, pos, extEnd) == []
    decreases extEnd - pos
  {
    hide U16, InOrder, NoHostEntries, EntryRanges;
    if pos + 4 <= extEnd && pos + 4 + U16(s, pos + 2) <= extEnd {
      var next := pos + 4 + U16(s, pos + 2);
      NoExtensionRanges(s, next, extEnd);
      if U16(s, pos) == 0 && pos + 6 <= next && pos + 6 + U16(s, pos + 4) <= next {
        NoEntryRanges(s, pos + 6, pos + 6 + U16(s, pos + 4));
      }
    }
  }

  lemma FirstNameInDrop(handshake: bytes, lo: nat, hi: nat)
    requires |handshake| >= 4 && lo <= hi <= |handshake| - 4
    ensures HasFirstName(handshake[4..], lo, hi) <==> FirstEntry(handshake, lo + 4, hi + 4).Found?
  {
    hide U16;
    if lo + 5 <= hi {
      U16Drop(handshake, 4, lo + 3);
      assert handshake[4..][lo + 2] == handshake[lo + 6];
    }
  }

  lemma {:induction false} NoFastName(handshake: bytes, pos: nat, extEnd: nat)
    requires |handshake| >= 4 && extEnd <= |handshake| - 4
    ensures NoFirstName(handshake[4..], pos, extEnd) <==> !FirstServerName(handshake, pos + 4, extEnd + 4).Found?
    decreases extEnd - pos
  {
    hide U16, HasFirstName, FirstEntry;
    if pos + 4 <= extEnd {
      U16Drop(handshake, 4, pos);
      U16Drop(handshake, 4, pos + 2);
      var next := pos + 4 + U16(handshake[4..], pos + 2);
      if next <= |handshake| - 4 {
        if U16(handshake[4..], pos) == 0 {
          FirstNameInDrop(handshake, pos + 4, next);
        } else {
          NoFastName(handshake, next, extEnd);
        }
      }
    }
  }

  /** Unmarshal accepts and stores no name, and ExtractSNI returns none, exactly on the silent buffers. */
  lemma SilentExactly(h: Hello, buf: bytes)
    requires h.Valid() && Unmarshaled(h, buf).1.Ok?
    ensures Silent(buf) <==> Locate(buf) == NoName && UnmarshalLocate(buf) == NoName
  {
    hide U16, ParseBody, Unmarshaled, NameFromExtensions, FirstServerName, SkipClientHelloHeaders;
    hide NoHostNames, NoFirstName, ExtensionRanges, InOrder, ShiftAll, FirstFour, FirstRange;
    AcceptedBuffer(h, buf);
    AcceptedBlock(h, buf);
    var hs, p := buf[5..], ParseBody(ZeroHello(), buf[9..]).1.value;
    assert hs[4..] == buf[9..];
    WalkAfterBody(hs, p);
    NothingFirst();
    if p + 2 <= |hs| - 4 {
      BlocksCoincide(hs, p);
      match LocateBlock(buf[9..], p)
      case BlockAt(start, end) =>
        NoFastName(hs, start, end);
        NoExtensionRanges(buf[9..], start, end);
        LocateFirst(ExtensionRanges(buf[9..], start, end), 9);
        FirstOfNone(ExtensionRanges(buf[9..], start, end));
    }
  }

  lemma AcceptedBlock(h: Hello, buf: bytes)
    requires h.Valid() && Unmarshaled(h, buf).1.Ok?
    ensures !LocateBlock(buf[9..], ParseBody(h, buf[9..]).1.value).Truncated?
  {
    hide U16, ParseBody, ExtensionNames;
  }

  lemma NothingFirst()
    ensures FirstRange([]) == NoName
  {
  }

  lemma FirstOfNone(rs: seq<Range>)
    ensures ShiftBy(FirstRange(rs), 9) == NoName <==> rs == []
  {
  }

  /** The two parsers give one answer, a name at one place or none, on exactly the canonical and the silent buffers. */
  lemma AgreementIsCanonicalOrSilent(h: Hello, buf: bytes)
    requires h.Valid() && Unmarshaled(h, buf).1.Ok?
    ensures Locate(buf) == UnmarshalLocate(buf) <==> Canonical(buf) || Silent(buf)
  {
    hide Unmarshaled, Locate, UnmarshalRanges, Canonical, Silent;
    ParsersAgreeExactlyOnCanonical(h, buf);
    SilentExactly(h, buf);
    AcceptedBuffersDoNotPanic(h, buf);
  }

  /** The fast parser refines the full one: on canonical buffers it returns SNIHostNames[0]. */
  lemma FastParserRefinesFull(h: Hello, buf: bytes)
    requires h.Valid() && Unmarshaled(h, buf).1.Ok? && Canonical(buf)
    ensures
      var after := Unmarshaled(h, buf).0;
      after.count > 0 && Slice(buf, Locate(buf)) == Found(after.slots[0])
  {
    ParsersAgreeExactlyOnCanonical(h, buf);
    SlotZeroIsLocated(h, buf);
  }

  /** A buffer Unmarshal accepts never makes ExtractSNI index past its slice. */
  lemma AcceptedBuffersDoNotPanic(h: Hello, buf: bytes)
    requires h.Valid() && Unmarshaled(h, buf).1.Ok?
    ensures !Locate(buf).IndexPanic?
  {
    hide U16, ParseBody, Unmarshaled;
    AcceptedBuffer(h, buf);
    assert buf[5..][4..] == buf[9..];
    WalkAfterBody(buf[5..], ParseBody(h, buf[9..]).1.value);
  }
}
