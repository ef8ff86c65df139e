/**
 Where in the buffer the names that Unmarshal stores lie: every one of them is a
 contiguous piece of the input, and they follow one another without overlap.
 */
module NameRanges {
  import opened Wire
  import opened FullParser

  /** The ranges lie between lo and hi, one behind the other. */
  predicate InOrder(rs: seq<Range>, lo: nat, hi: nat) {
    && (forall i | 0 <= i < |rs| :: lo <= rs[i].lo <= rs[i].hi <= hi)
    && (forall i, j | 0 <= i < j < |rs| :: rs[i].hi < rs[j].lo)
  }

  lemma InOrderWider(a: seq<Range>, lo: nat, hi: nat, lower: nat, higher: nat)
    requires InOrder(a, lo, hi) && lower <= lo && hi <= higher
    ensures InOrder(a, lower, higher)
  {
  }

  /** The host_name entries of the list in s[pos..end]. */
  function EntryRanges(s: bytes, pos: nat, end: nat): (rs: seq<Range>)
    requires end <= |s|
    ensures InOrder(rs, pos + 3, end)
    decreases end - pos
  {
    if pos + 3 > end then []
    else
      var next := pos + 3 + U16(s, pos + 1);
      if next > end then []
      else
        var rest := EntryRanges(s, next, end);
        if s[pos] == 0 then [Range(pos + 3, next)] + rest else rest
  }

  function ListRanges(s: bytes, lo: nat, hi: nat): (rs: seq<Range>)
    requires lo <= hi <= |s|
    ensures InOrder(rs, lo + 5, hi)
  {
    if hi - lo < 2 || lo + 2 + U16(s, lo) > hi then []
    else EntryRanges(s, lo + 2, lo + 2 + U16(s, lo))
  }

  function ExtensionRanges(s: bytes, pos: nat, extEnd: nat): (rs: seq<Range>)
    requires extEnd <= |s|
    ensures InOrder(rs, pos + 9, extEnd)
    decreases extEnd - pos
  {
    if pos + 4 > extEnd then []
    else
      var next := pos + 4 + U16(s, pos + 2);
      if next > extEnd then []
      else
        var rest := ExtensionRanges(s, next, extEnd);
        if U16(s, pos) == 0 then ListRanges(s, pos + 4, next) + rest else rest
  }

  function NamesAt(s: bytes, rs: seq<Range>): seq<bytes>
    requires InOrder(rs, 0, |s|)
  {
    seq(|rs|, i requires 0 <= i < |rs| => s[rs[i].lo..rs[i].hi])
  }

  lemma NamesAtConcat(s: bytes, a: seq<Range>, b: seq<Range>)
    requires InOrder(a, 0, |s|) && InOrder(b, 0, |s|) && InOrder(a + b, 0, |s|)
    ensures NamesAt(s, a + b) == NamesAt(s, a) + NamesAt(s, b)
  {
  }

  lemma NamesAtOne(s: bytes, r: Range)
    requires r.lo <= r.hi <= |s|
    ensures InOrder([r], 0, |s|) && NamesAt(s, [r]) == [s[r.lo..r.hi]]
  {
  }

  lemma NamesAtNone(s: bytes)
    ensures InOrder([], 0, |s|) && NamesAt(s, []) == []
  {
  }

  lemma {:induction false} EntryRangesAreNames(s: bytes, pos: nat, end: nat)
    requires end <= |s|
    ensures InOrder(EntryRanges(s, pos, end), 0, |s|)
    ensures NamesAt(s, EntryRanges(s, pos, end)) == EntryNames(s, pos, end)
    decreases end - pos
  {
    hide U16, InOrder, NamesAt;
    InOrderWider(EntryRanges(s, pos, end), pos + 3, end, 0, |s|);
    NamesAtNone(s);
    if pos + 3 <= end {
      var next := pos + 3 + U16(s, pos + 1);
      if next <= end {
        EntryRangesAreNames(s, next, end);
        if s[pos] == 0 {
          NamesAtOne(s, Range(pos + 3, next));
          NamesAtConcat(s, [Range(pos + 3, next)], EntryRanges(s, next, end));
        }
      }
    }
  }

  lemma ListRangesAreNames(s: bytes, lo: nat, hi: nat)
    requires lo <= hi <= |s|
    ensures InOrder(ListRanges(s, lo, hi), 0, |s|)
    ensures NamesAt(s, ListRanges(s, lo, hi)) == ListNames(s, lo, hi)
  {
    hide U16;
    if hi - lo >= 2 && lo + 2 + U16(s, lo) <= hi {
      EntryRangesAreNames(s, lo + 2, lo + 2 + U16(s, lo));
    }
  }

  lemma {:induction false} ExtensionRangesAreNames(s: bytes, pos: nat, extEnd: nat)
    requires extEnd <= |s|
    ensures InOrder(ExtensionRanges(s, pos, extEnd), 0, |s|)
    ensures NamesAt(s, ExtensionRanges(s, pos, extEnd)) == ExtensionNames(s, pos, extEnd)
    decreases extEnd - pos
  {
    hide U16, ListRanges, ListNames, InOrder, NamesAt;
    InOrderWider(ExtensionRanges(s, pos, extEnd), pos + 9, extEnd, 0, |s|);
    NamesAtNone(s);
    if pos + 4 <= extEnd {
      var next := pos + 4 + U16(s, pos + 2);
      if next <= extEnd {
        ExtensionRangesAreNames(s, next, extEnd);
        if U16(s, pos) == 0 {
          ListRangesAreNames(s, pos + 4, next);
          NamesAtConcat(s, ListRanges(s, pos + 4, next), ExtensionRanges(s, next, extEnd));
        }
      }
    }
  }

  function ShiftAll(rs: seq<Range>, k: nat): seq<Range> {
    seq(|rs|, i requires 0 <= i < |rs| => Range(rs[i].lo + k, rs[i].hi + k))
  }

  lemma NamesAtShift(buf: bytes, k: nat, rs: seq<Range>)
    requires k <= |buf| && InOrder(rs, 0, |buf| - k)
    ensures InOrder(ShiftAll(rs, k), 0, |buf|)
    ensures NamesAt(buf, ShiftAll(rs, k)) == NamesAt(buf[k..], rs)
  {
    var shifted := ShiftAll(rs, k);
    forall i | 0 <= i < |rs| ensures buf[shifted[i].lo..shifted[i].hi] == buf[k..][rs[i].lo..rs[i].hi] {
      SliceOfSlice(buf, k, |buf|, rs[i].lo, rs[i].hi);
      assert buf[k..|buf|] == buf[k..];
    }
  }

  lemma NamesAtFirstFour(s: bytes, rs: seq<Range>)
    requires InOrder(rs, 0, |s|)
    ensures InOrder(FirstFour(rs), 0, |s|)
    ensures NamesAt(s, FirstFour(rs)) == FirstFour(NamesAt(s, rs))
  {
  }

  /** The ranges of buf behind the slots an accepting Unmarshal leaves in use, in slot order. */
  function UnmarshalRanges(buf: bytes): (rs: seq<Range>)
    ensures |rs| <= MAX_NAMES
  {
    if |buf| < 9 then []
    else
      match ParseBody(ZeroHello(), buf[9..]).1
      case Err(_) => []
      case Ok(pos) =>
        match LocateBlock(buf[9..], pos)
        case BlockAt(p, end) => FirstFour(ShiftAll(ExtensionRanges(buf[9..], p, end), 9))
        case _ => []
  }

  /** Where a body ends does not depend on the receiver it is read into. */
  lemma BodyEndIgnoresReceiver(h: Hello, g: Hello, hello: bytes)
    requires h.Valid() && g.Valid()
    ensures ParseBody(h, hello).1 == ParseBody(g, hello).1
  {
  }

  /**
   After a successful Unmarshal the names in use are the bytes at UnmarshalRanges, slot by
   slot: contiguous pieces of the buffer, each one behind the one before it.
   */
  lemma NamesLieInOrder(h: Hello, buf: bytes)
    requires h.Valid() && Unmarshaled(h, buf).1.Ok?
    ensures InOrder(UnmarshalRanges(buf), 0, |buf|)
    ensures Unmarshaled(h, buf).0.Names() == NamesAt(buf, UnmarshalRanges(buf))
  {
    hide U16, ParseBody, NamesAt, ShiftAll, FirstFour, InOrder, ExtensionRanges, ExtensionNames;
    var s := buf[9..];
    BodyEndIgnoresReceiver(h, ZeroHello(), s);
    match LocateBlock(s, ParseBody(h, s).1.value)
    case BlockAt(p, end) =>
      var rs := ExtensionRanges(s, p, end);
      ExtensionRangesAreNames(s, p, end);
      NamesAtShift(buf, 9, rs);
      NamesAtFirstFour(buf, ShiftAll(rs, 9));
    case NoBlock => NothingInUse(h, buf);
  }

  lemma NothingInUse(h: Hello, buf: bytes)
    requires h.Valid()
    ensures InOrder([], 0, |buf|) && h.(count := 0).Names() == [] == NamesAt(buf, [])
  {
  }
}
