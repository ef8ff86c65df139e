/**
 ClientHello.Unmarshal (crypto/tls/hello.go): the full parser, which fills a
 receiver that callers reuse. Functions on Hello values give the receiver after
 a call, failed calls included; the class is the code, proved against them.
 */
module FullParser {
  import opened Wire

  datatype Error =
    | DataTooShort
    | NotHandshake
    | TruncatedRecord
    | NotClientHello
    | HelloTooShort
    | InvalidSessionID
    | InvalidSessionIDLength
    | InvalidCipherSuites
    | CipherSuitesTooLong
    | NoCompressionMethods
    | CompressionMethodsOutOfBounds
    | ExtensionsTruncated

  datatype Result<+T> = Ok(value: T) | Err(error: Error)

  const HANDSHAKE_TYPE_CLIENT_HELLO: byte := 0x01
  const RECORD_TYPE_HANDSHAKE: byte := 0x16
  const RECORD_HEADER_LEN := 5
  const HANDSHAKE_HEADER_LEN := 4
  const MAX_NAMES := 4

  /** The fields of a receiver; slots is the fixed array SNIHostNames, count is SNICount. */
  datatype Hello = Hello(
    version: uint16,
    random: bytes,
    sessionId: bytes,
    cipherSuites: seq<uint16>,
    compressionMethods: bytes,
    slots: seq<bytes>,
    count: nat)
  {
    ghost predicate Valid() {
      |random| == 32 && |slots| == MAX_NAMES && count <= MAX_NAMES
    }

    function Names(): seq<bytes>
      requires Valid()
    {
      slots[..count]
    }
  }

  /** A fresh receiver. */
  function ZeroHello(): (h: Hello)
    ensures h.Valid() && h.count == 0
  {
    Hello(0, seq(32, i => 0), [], [], [], [[], [], [], []], 0)
  }

  // ----- length fields --------------------------------------------------

  function CheckHeaders(buf: bytes): Result<()> {
    if |buf| < RECORD_HEADER_LEN + HANDSHAKE_HEADER_LEN then Err(DataTooShort)
    else if buf[0] != RECORD_TYPE_HANDSHAKE then Err(NotHandshake)
    else Ok(())
  }

  function SessionIDLen(hello: bytes, pos: nat): (r: Result<nat>)
    ensures r.Ok? ==> pos + 1 + r.value <= |hello|
  {
    if pos >= |hello| then Err(InvalidSessionID)
    else if pos + 1 + hello[pos] > |hello| then Err(InvalidSessionIDLength)
    else Ok(hello[pos])
  }

  function CipherLen(hello: bytes, pos: nat): (r: Result<nat>)
    ensures r.Ok? ==> pos + 2 + r.value <= |hello|
  {
    if pos + 2 > |hello| then Err(InvalidCipherSuites)
    else if pos + 2 + U16(hello, pos) > |hello| then Err(CipherSuitesTooLong)
    else Ok(U16(hello, pos))
  }

  function CompMethodsLen(hello: bytes, pos: nat): (r: Result<nat>)
    ensures r.Ok? ==> pos + 1 + r.value <= |hello|
  {
    if pos >= |hello| then Err(NoCompressionMethods)
    else if pos + 1 + hello[pos] > |hello| then Err(CompressionMethodsOutOfBounds)
    else Ok(hello[pos])
  }

  // ----- the body before the extensions ---------------------------------

  function CipherSuitesAt(hello: bytes, pos: nat, count: nat): seq<uint16>
    requires pos + 2 * count <= |hello|
  {
    seq(count, i requires 0 <= i < count => U16(hello, pos + 2 * i))
  }

  /** The receiver after parseClientHelloBody, and where the body ended or why it was refused. */
  function ParseBody(h: Hello, hello: bytes): (r: (Hello, Result<nat>))
    requires h.Valid()
    ensures r.0.Valid() && r.0.slots == h.slots && r.0.count == h.count
    ensures r.1.Ok? ==> 38 <= r.1.value <= |hello|
  {
    if |hello| < 2 + 32 then (h, Err(HelloTooShort))
    else
      var h1 := h.(version := U16(hello, 0), random := hello[2..34]);
      match SessionIDLen(hello, 34)
      case Err(e) => (h1, Err(e))
      case Ok(sidLen) =>
        var p2 := 35 + sidLen;
        var h2 := h1.(sessionId := hello[35..p2]);
        match CipherLen(hello, p2)
        case Err(e) => (h2, Err(e))
        case Ok(csLen) =>
          var p3 := p2 + 2 + csLen;
          var h3 := h2.(cipherSuites := CipherSuitesAt(hello, p2 + 2, csLen / 2));
          match CompMethodsLen(hello, p3)
          case Err(e) => (h3, Err(e))
          case Ok(cmLen) =>
            (h3.(compressionMethods := hello[p3 + 1..p3 + 1 + cmLen]), Ok(p3 + 1 + cmLen))
  }

  // ----- host names -----------------------------------------------------

  /** The host_name entries of a server-name list lying in s[pos..end]. */
  function EntryNames(s: bytes, pos: nat, end: nat): seq<bytes>
    requires end <= |s|
    decreases end - pos
  {
    if pos + 3 > end then []
    else
      var next := pos + 3 + U16(s, pos + 1);
      if next > end then []
      else if s[pos] == 0 then [s[pos + 3..next]] + EntryNames(s, next, end)
      else EntryNames(s, next, end)
  }

  /** The host names of the server_name extension whose data is s[lo..hi]. */
  function ListNames(s: bytes, lo: nat, hi: nat): seq<bytes>
    requires lo <= hi <= |s|
  {
    if hi - lo < 2 then []
    else
      var listEnd := lo + 2 + U16(s, lo);
      if listEnd > hi then [] else EntryNames(s, lo + 2, listEnd)
  }

  /** The names a walk of data[pos..end] still has to report; a list longer than its data has none. */
  function PendingNames(data: bytes, pos: nat, end: nat): seq<bytes> {
    if end > |data| then [] else EntryNames(data, pos, end)
  }

  /** The host names of every type-0 extension between pos and extEnd, in order and without a limit. */
  function ExtensionNames(s: bytes, pos: nat, extEnd: nat): seq<bytes>
    requires extEnd <= |s|
    decreases extEnd - pos
  {
    if pos + 4 > extEnd then []
    else
      var next := pos + 4 + U16(s, pos + 2);
      if next > extEnd then []
      else if U16(s, pos) == 0 then ListNames(s, pos + 4, next) + ExtensionNames(s, next, extEnd)
      else ExtensionNames(s, next, extEnd)
  }

  function FirstFour<T>(names: seq<T>): (r: seq<T>)
    ensures |r| <= MAX_NAMES
  {
    if |names| <= MAX_NAMES then names else names[..MAX_NAMES]
  }

  /** The names stored from slot 0 on; the slots behind them keep what an earlier call left there. */
  function StoreNames(h: Hello, names: seq<bytes>): (r: Hello)
    requires h.Valid()
    ensures r.Valid() && r.Names() == FirstFour(names)
    ensures r.count == if |names| < 4 then |names| else 4
    ensures |r.slots| == 4 && forall i | 0 <= i < 4 :: r.slots[i] == if i < |names| then names[i] else h.slots[i]
  {
    var kept := FirstFour(names);
    h.(slots := kept + h.slots[|kept|..], count := |kept|)
  }

  // ----- the whole call -------------------------------------------------

  /** Where a successful body leaves the extension block: absent, cut short, or at a range of hello. */
  datatype Block = NoBlock | Truncated | BlockAt(pos: nat, end: nat)

  function LocateBlock(hello: bytes, pos: nat): (b: Block)
    ensures b.BlockAt? ==> b.pos == pos + 2 && b.pos <= b.end <= |hello|
  {
    if pos + 2 > |hello| then NoBlock
    else if pos + 2 + U16(hello, pos) > |hello| then Truncated
    else BlockAt(pos + 2, pos + 2 + U16(hello, pos))
  }

  function Finish(h: Hello, hello: bytes, pos: nat): (r: (Hello, Result<()>))
    requires h.Valid()
    ensures r.0.Valid()
  {
    match LocateBlock(hello, pos)
    case NoBlock => (h.(count := 0), Ok(()))
    case Truncated => (h, Err(ExtensionsTruncated))
    case BlockAt(p, end) =>
      (StoreNames(h, ExtensionNames(hello, p, end)), Ok(()))
  }

  /** The receiver after Unmarshal(buf), and its error. */
  function Unmarshaled(h: Hello, buf: bytes): (r: (Hello, Result<()>))
    requires h.Valid()
    ensures r.0.Valid()
  {
    if CheckHeaders(buf).Err? then (h, CheckHeaders(buf))
    else if |buf| - RECORD_HEADER_LEN < U16(buf, 3) then (h, Err(TruncatedRecord))
    else if buf[5] != HANDSHAKE_TYPE_CLIENT_HELLO then (h, Err(NotClientHello))
    else
      var hello := buf[9..];
      var (h1, body) := ParseBody(h, hello);
      match body
      case Err(e) => (h1, Err(e))
      case Ok(pos) => Finish(h1, hello, pos)
  }

  // ----- facts the loops rest on ----------------------------------------

  lemma EntryNamesOfSlice(s: bytes, lo: nat, hi: nat, pos: nat, end: nat)
    requires lo <= hi <= |s| && end <= hi - lo
    ensures EntryNames(s[lo..hi], pos, end) == EntryNames(s, lo + pos, lo + end)
    decreases end - pos
  {
    var d := s[lo..hi];
    if pos + 3 <= end {
      assert U16(d, pos + 1) == U16(s, lo + pos + 1);
      var next := pos + 3 + U16(d, pos + 1);
      if next <= end {
        EntryNamesOfSlice(s, lo, hi, next, end);
        SliceOfSlice(s, lo, hi, pos + 3, next);
      }
    }
  }

  lemma ListNamesOfSlice(s: bytes, lo: nat, hi: nat)
    requires lo <= hi <= |s|
    ensures ListNames(s[lo..hi], 0, hi - lo) == ListNames(s, lo, hi)
  {
    if hi - lo >= 2 {
      assert U16(s[lo..hi], 0) == U16(s, lo);
      if 2 + U16(s, lo) <= hi - lo {
        EntryNamesOfSlice(s, lo, hi, 2, 2 + U16(s, lo));
      }
    }
  }

  lemma FillSlot(slots: seq<bytes>, names: seq<bytes>, name: bytes)
    requires |names| < |slots|
    ensures (names + slots[|names|..])[|names| := name] == (names + [name]) + slots[|names| + 1..]
  {
  }

  lemma EntryStep(s: bytes, pos: nat, end: nat, names: seq<bytes>)
    requires pos + 3 <= end <= |s|
    ensures
      var next := pos + 3 + U16(s, pos + 1);
      && (next > end ==> EntryNames(s, pos, end) == [])
      && (next <= end ==>
            names + EntryNames(s, pos, end)
            == (if s[pos] == 0 then names + [s[pos + 3..next]] else names) + EntryNames(s, next, end))
  {
  }

  lemma FirstFourReached(names: seq<bytes>, all: seq<bytes>, rest: seq<bytes>)
    requires all == names + rest && |names| <= MAX_NAMES
    requires rest == [] || |names| == MAX_NAMES
    ensures FirstFour(all) == names
  {
  }

  lemma ExtensionStep(s: bytes, pos: nat, extEnd: nat, names: seq<bytes>)
    requires pos + 4 <= extEnd <= |s|
    ensures
      var next := pos + 4 + U16(s, pos + 2);
      && (next > extEnd ==> ExtensionNames(s, pos, extEnd) == [])
      && (next <= extEnd ==>
            names + ExtensionNames(s, pos, extEnd)
            == (if U16(s, pos) == 0 && U16(s, pos + 2) >= 2 then names + ListNames(s, pos + 4, next) else names)
            + ExtensionNames(s, next, extEnd))
  {
    hide U16;
    var next := pos + 4 + U16(s, pos + 2);
    if next <= extEnd && U16(s, pos) == 0 {
      var rest := ExtensionNames(s, next, extEnd);
      assert names + (ListNames(s, pos + 4, next) + rest) == (names + ListNames(s, pos + 4, next)) + rest;
    }
  }

  lemma StoreOwnNames(h: Hello)
    requires h.Valid()
    ensures StoreNames(h, h.Names()) == h
  {
  }

  lemma StoreMore(h: Hello, found: seq<bytes>, more: seq<bytes>)
    requires h.Valid()
    ensures var g := StoreNames(h, found);
      StoreNames(g, g.Names() + more) == StoreNames(h, found + more)
  {
  }

  lemma StoreAfterReset(h: Hello, names: seq<bytes>)
    requires h.Valid()
    ensures h.(count := 0).Names() + names == names
    ensures StoreNames(h.(count := 0), names) == StoreNames(h, names)
  {
  }

  // ----- the code -------------------------------------------------------

  class ClientHello {
    var version: uint16
    var random: bytes
    var sessionId: bytes
    var cipherSuites: seq<uint16>
    var compressionMethods: bytes
    const sniHostNames: array<bytes>
    var sniCount: nat

    ghost predicate Valid()
      reads this
    {
      |random| == 32 && sniHostNames.Length == MAX_NAMES && sniCount <= MAX_NAMES
    }

    ghost function State(): (h: Hello)
      requires Valid()
      reads this, sniHostNames
      ensures h.Valid()
    {
      Hello(version, random, sessionId, cipherSuites, compressionMethods, sniHostNames[..], sniCount)
    }

    constructor ()
      ensures Valid() && fresh(sniHostNames) && State() == ZeroHello()
    {
      version, random, sessionId := 0, seq(32, i => 0), [];
      cipherSuites, compressionMethods, sniCount := [], [], 0;
      sniHostNames := new bytes[MAX_NAMES](i => []);
      new;
      assert sniHostNames[..] == [[], [], [], []];
    }

    method ParseClientHelloBody(hello: bytes) returns (r: Result<nat>)
      requires Valid()
      modifies this
      ensures Valid() && (State(), r) == ParseBody(old(State()), hello)
    {
      hide U16;
      var pos := 0;
      if |hello| < 2 + 32 {
        return Err(HelloTooShort);
      }
      version := U16(hello, pos);
      pos := pos + 2;
      random := hello[pos..pos + 32];
      pos := pos + 32;

      var sidLen := SessionIDLen(hello, pos);
      if sidLen.Err? {
        return Err(sidLen.error);
      }
      pos := pos + 1;
      sessionId := hello[pos..pos + sidLen.value];
      pos := pos + sidLen.value;

      var csLen := CipherLen(hello, pos);
      if csLen.Err? {
        return Err(csLen.error);
      }
      pos := pos + 2;
      var cipherCount := csLen.value / 2;
      cipherSuites := [];
      var i := 0;
      while i < cipherCount
        modifies this`cipherSuites
        invariant i <= cipherCount
        invariant cipherSuites == CipherSuitesAt(hello, pos, i)
      {
        cipherSuites := cipherSuites + [U16(hello, pos + i * 2)];
        i := i + 1;
      }
      pos := pos + csLen.value;

      var cmLen := CompMethodsLen(hello, pos);
      if cmLen.Err? {
        return Err(cmLen.error);
      }
      pos := pos + 1;
      compressionMethods := hello[pos..pos + cmLen.value];
      pos := pos + cmLen.value;
      r := Ok(pos);
    }

    method ParseSNIExtension(data: bytes)
      requires Valid()
      modifies this`sniCount, sniHostNames
      ensures Valid()
      ensures State() == StoreNames(old(State()), old(State()).Names() + ListNames(data, 0, |data|))
    {
      hide U16;
      ghost var before := old(State());
      ghost var names := before.Names();
      assert before.slots == names + before.slots[|names|..];
      if |data| < 2 {
        return;
      }
      var sniEnd := 2 + U16(data, 0);
      var sniPos := 2;
      ghost var left := PendingNames(data, sniPos, sniEnd);
      ghost var all := names + left;
      while sniPos + 3 <= sniEnd && sniCount < sniHostNames.Length && sniEnd <= |data|
        invariant |names| == sniCount <= MAX_NAMES
        invariant sniHostNames[..] == names + before.slots[|names|..]
        invariant all == names + left && left == PendingNames(data, sniPos, sniEnd)
        decreases sniEnd - sniPos
      {
        EntryStep(data, sniPos, sniEnd, names);
        var nameType := data[sniPos];
        var nameLen := U16(data, sniPos + 1);
        sniPos := sniPos + 3;
        if sniPos + nameLen > sniEnd {
          left := [];
          break;
        }
        left := EntryNames(data, sniPos + nameLen, sniEnd);
        if nameType == 0 {
          var name := data[sniPos..sniPos + nameLen];
          ghost var slots := sniHostNames[..];
          sniHostNames[sniCount] := name;
          assert sniHostNames[..] == slots[sniCount := name];
          sniCount := sniCount + 1;
          FillSlot(before.slots, names, name);
          names := names + [name];
        }
        sniPos := sniPos + nameLen;
      }
      FirstFourReached(names, all, left);
    }

    method ParseExtensions(hello: bytes, start: nat, extEnd: nat)
      requires Valid() && extEnd <= |hello|
      modifies this`sniCount, sniHostNames
      ensures Valid()
      ensures State() == StoreNames(old(State()), old(State()).Names() + ExtensionNames(hello, start, extEnd))
    {
      hide U16;
      var pos := start;
      ghost var before := State();
      ghost var found := before.Names();
      ghost var left := ExtensionNames(hello, pos, extEnd);
      ghost var all := found + left;
      StoreOwnNames(before);
      while pos + 4 <= extEnd
        invariant Valid() && State() == StoreNames(before, found)
        invariant all == found + left && left == ExtensionNames(hello, pos, extEnd)
        decreases extEnd - pos
      {
        ExtensionStep(hello, pos, extEnd, found);
        var extType := U16(hello, pos);
        var extDataLen := U16(hello, pos + 2);
        pos := pos + 4;
        if pos + extDataLen > extEnd {
          left := [];
          break;
        }
        left := ExtensionNames(hello, pos + extDataLen, extEnd);
        ghost var more := ListNames(hello, pos, pos + extDataLen);
        ghost var grown := if extType == 0x00 && extDataLen >= 2 then found + more else found;
        assert all == grown + left;
        if extType == 0x00 && extDataLen >= 2 {
          var data := hello[pos..pos + extDataLen];
          assert ListNames(data, 0, |data|) == more by {
            ListNamesOfSlice(hello, pos, pos + extDataLen);
          }
          assert grown == found + more;
          ghost var mid := State();
          ParseSNIExtension(data);
          assert State() == StoreNames(mid, mid.Names() + more);
          StoreMore(before, found, more);
        }
        found := grown;
        pos := pos + extDataLen;
      }
      assert all == found;
    }

    method Unmarshal(buf: bytes) returns (r: Result<()>)
      requires Valid()
      modifies this, sniHostNames
      ensures Valid() && (State(), r) == Unmarshaled(old(State()), buf)
    {
      hide U16;
      var headers := CheckHeaders(buf);
      if headers.Err? {
        return headers;
      }
      var recordLen := U16(buf, 3);
      if |buf| - RECORD_HEADER_LEN < recordLen {
        return Err(TruncatedRecord);
      }
      var handshake := buf[RECORD_HEADER_LEN..];
      if handshake[0] != HANDSHAKE_TYPE_CLIENT_HELLO {
        return Err(NotClientHello);
      }
      var hello := handshake[HANDSHAKE_HEADER_LEN..];
      assert hello == buf[9..];
      var body := ParseClientHelloBody(hello);
      if body.Err? {
        return Err(body.error);
      }
      var pos := body.value;
      if pos + 2 > |hello| {
        sniCount := 0;
        return Ok(());
      }
      var extLen := U16(hello, pos);
      pos := pos + 2;
      if pos + extLen > |hello| {
        return Err(ExtensionsTruncated);
      }
      var extEnd := pos + extLen;
      ghost var parsed := State();
      sniCount := 0;
      ParseExtensions(hello, pos, extEnd);
      StoreAfterReset(parsed, ExtensionNames(hello, pos, extEnd));
      r := Ok(());
    }
  }
}
