/**
 ExtractSNI's header walk coincides with that of Unmarshal on arbitrary bytes, and
 ExtractSNI inverts the encoder, whatever follows the name it looks for.
 */
module ParserAgreement {
  import opened Wire
  import opened ClientHelloMessage
  import opened FullParser
  import opened FastParser
  import opened ParserTheorems

  // ===== the header walks ================================================

  /** ExtractSNI's walk reaches p + 4 exactly when Unmarshal's body ends at p with room for a block length. */
  lemma HeaderWalksCoincide(h: Hello, handshake: bytes, p: nat)
    requires h.Valid() && |handshake| >= 4
    ensures SkipClientHelloHeaders(handshake) == Found(p + 4)
        <==> ParseBody(h, handshake[4..]).1 == Ok(p) && p + 2 <= |handshake| - 4
  {
    var hello := handshake[4..];
    if |hello| > 34 {
      var p2: nat := 35 + hello[34] as int;
      if p2 + 2 <= |hello| {
        assert U16(hello, p2) == U16(handshake, p2 + 4);
      }
    }
  }

  /** The one length at which ExtractSNI indexes past its slice: the bound is checked with > before an index. */
  lemma PanicsExactlyAt43(data: bytes)
    ensures Locate(data).IndexPanic? <==> IsTLSHandshake(data) && |data| == 43
  {
  }

  lemma PanicExample()
    ensures var data := [0x16] + seq(42, i => 0);
      Locate(data).IndexPanic?
  {
    var data: bytes := [0x16] + seq(42, i => 0);
    PanicsExactlyAt43(data);
  }

  // ===== the fast parser inverts the encoder =============================

  /** What the first server_name extension of a message says first. */
  function FirstName(es: seq<Extension>): Outcome<bytes> {
    if es == [] then NoName
    else
      match es[0]
      case ServerName(list) =>
        if list != [] && list[0].nameType == HOST_NAME then Found(list[0].name) else NoName
      case Other(_, _) => FirstName(es[1..])
  }

  function MessageFirstName(m: Message): Outcome<bytes> {
    if m.block.Absent? then NoName else FirstName(m.block.extensions)
  }

  lemma FirstEntryDecodes(s: bytes, lo: nat, list: seq<NameEntry>)
    requires ExtensionFits(ServerName(list)) && At(s, lo, ExtensionData(ServerName(list)))
    ensures lo + |ExtensionData(ServerName(list))| <= |s|
    ensures Slice(s, FirstEntry(s, lo, lo + |ExtensionData(ServerName(list))|)) == FirstName([ServerName(list)])
  {
    ListDecodes(s, lo, list);
    if list != [] {
      EntryHeader(s, lo + 2, list[0], EncodeEntries(list[1..]));
    }
  }

  lemma FirstServerNameStep(s: bytes, pos: nat, e: Extension, extEnd: nat)
    requires ExtensionFits(e) && pos + 4 + |ExtensionData(e)| <= extEnd <= |s|
    requires U16(s, pos) == ExtensionType(e) && U16(s, pos + 2) == |ExtensionData(e)|
    requires At(s, pos + 4, ExtensionData(e))
    ensures Slice(s, FirstServerName(s, pos, extEnd))
        == if e.ServerName? then FirstName([e])
           else Slice(s, FirstServerName(s, pos + 4 + |ExtensionData(e)|, extEnd))
  {
    hide U16, At;
    if e.ServerName? {
      FirstEntryDecodes(s, pos + 4, e.list);
    }
  }

  predicate HasServerName(es: seq<Extension>) {
    exists e :: e in es && e.ServerName?
  }

  /**
   The walk over an encoded list, in a block that ends with the list or, once the list
   holds a server_name extension, anywhere behind it.
   */
  lemma {:induction false} FirstServerNameDecodes(s: bytes, pos: nat, es: seq<Extension>, end: nat)
    requires ExtensionsFit(es) && At(s, pos, EncodeExtensions(es))
    requires pos + |EncodeExtensions(es)| <= end <= |s|
    requires end == pos + |EncodeExtensions(es)| || HasServerName(es)
    ensures Slice(s, FirstServerName(s, pos, end)) == FirstName(es)
    decreases |es|
  {
    hide U16, At, ExtensionData;
    if es != [] {
      ExtensionHeader(s, pos, es);
      FirstServerNameStep(s, pos, es[0], end);
      assert es == [es[0]] + es[1..];
      if !es[0].ServerName? {
        FirstServerNameDecodes(s, AfterFirst(pos, es), es[1..], end);
      }
    }
  }

  /** A name located in the handshake is the same bytes located in the record. */
  lemma LocateInHandshake(data: bytes, pos: nat)
    requires IsTLSHandshake(data) && SkipClientHelloHeaders(data[5..]) == Found(pos)
    ensures Slice(data, Locate(data)) == Slice(data[5..], NameFromExtensions(data[5..], pos))
  {
    var r := NameFromExtensions(data[5..], pos);
    if r.Found? {
      SliceOfSlice(data, 5, |data|, r.value.lo, r.value.hi);
      assert data[5..|data|] == data[5..];
    }
  }

  lemma BlockNameDecodes(hs: bytes, pos: nat, b: ClientHelloMessage.Block)
    requires BlockFits(b) && b.Present? && At(hs, pos, EncodeBlock(b))
    ensures Slice(hs, NameFromExtensions(hs, pos)) == FirstName(b.extensions)
  {
    hide U16, At;
    BlockDecodes(hs, pos, b);
    FirstServerNameDecodes(hs, pos + 2, b.extensions, pos + 2 + |EncodeExtensions(b.extensions)|);
  }

  lemma HandshakeAt(buf: bytes, pos: nat, chunk: bytes)
    requires |buf| >= 9 && At(buf[9..], pos, chunk)
    ensures At(buf[5..], pos + 4, chunk)
  {
    forall i | 0 <= i < |chunk| ensures buf[5..][pos + 4 + i] == chunk[i] {
      assert buf[9..][pos + i] == buf[5..][pos + 4 + i];
    }
  }

  lemma WalkAfterBody(handshake: bytes, p: nat)
    requires |handshake| >= 4 && ParseBody(ZeroHello(), handshake[4..]).1 == Ok(p)
    ensures SkipClientHelloHeaders(handshake)
        == if p + 2 <= |handshake| - 4 then Found(p + 4) else NoName
  {
    HeaderWalksCoincide(ZeroHello(), handshake, p);
    var r := SkipClientHelloHeaders(handshake);
    if r.Found? {
      HeaderWalksCoincide(ZeroHello(), handshake, r.value - 4);
    }
  }

  lemma BlockNameLocated(buf: bytes, p: nat, b: ClientHelloMessage.Block)
    requires IsTLSHandshake(buf) && ParseBody(ZeroHello(), buf[9..]).1 == Ok(p)
    requires BlockFits(b) && At(buf[9..], p, EncodeBlock(b)) && (b.Absent? ==> |buf| == 9 + p)
    ensures Slice(buf, Locate(buf)) == if b.Absent? then NoName else FirstName(b.extensions)
  {
    hide U16, At, ParseBody, SkipClientHelloHeaders, NameFromExtensions;
    var hs := buf[5..];
    assert hs[4..] == buf[9..];
    WalkAfterBody(hs, p);
    if b.Present? {
      HandshakeAt(buf, p, EncodeBlock(b));
      BlockNameDecodes(hs, p + 4, b);
      AtSlice(hs, p + 4, EncodeBlock(b));
      LocateInHandshake(buf, p + 4);
    }
  }

  /**
   ExtractSNI returns the first entry of the first server_name extension of every
   message that is sent, however many other extensions precede it.
   */
  lemma ExtractInvertsEncode(buf: bytes, m: Message)
    requires Carries(buf, m)
    ensures Slice(buf, Locate(buf)) == MessageFirstName(m)
  {
    BodyAt(buf, m);
    BodyDecodes(ZeroHello(), buf[9..], m);
    BlockNameLocated(buf, |EncodePreamble(m)|, m.block);
  }

  // ===== extension blocks of any bytes ===================================

  /** A record with m's fields before the extensions and any bytes for an extension block. */
  function Framed(m: Message, raw: bytes): bytes {
    Frame(m.recordVersion, EncodePreamble(m) + raw)
  }

  /** Both header walks end where the block begins. */
  lemma FramedDecodes(h: Hello, m: Message, raw: bytes, q: bytes)
    requires h.Valid() && PreambleFits(m) && 4 + |EncodePreamble(m) + raw| < 0x1_0000 && |raw| >= 2
    ensures
      var buf, p := Framed(m, raw) + q, |EncodePreamble(m)|;
      && IsTLSHandshake(buf) && CheckHeaders(buf).Ok? && U16(buf, 3) <= |buf| - 5
      && buf[5] == HANDSHAKE_TYPE_CLIENT_HELLO
      && ParseBody(h, buf[9..]) == (WithPreamble(h, m), Ok(p))
      && SkipClientHelloHeaders(buf[5..]) == Found(p + 4)
      && buf[9..] == EncodePreamble(m) + raw + q && buf[5..][4..] == buf[9..]
  {
    hide U16, At, ParseBody, SkipClientHelloHeaders, Frame;
    var buf, body := Framed(m, raw) + q, EncodePreamble(m) + raw;
    RecordHeader(m.recordVersion, body, q);
    assert At(body + q, 0, EncodePreamble(m)) by {
      AtSlice(body + q, 0, EncodePreamble(m));
      assert (body + q)[..|EncodePreamble(m)|] == EncodePreamble(m);
    }
    BodyDecodes(h, body + q, m);
    BodyDecodes(ZeroHello(), body + q, m);
    assert buf[5..][4..] == buf[9..];
    WalkAfterBody(buf[5..], |EncodePreamble(m)|);
  }

  /**
   A block whose first server_name extension is reached through well-formed extensions:
   ExtractSNI returns its first name, whatever bytes follow it inside and behind the block.
   */
  lemma ExtractIgnoresTheRest(m: Message, es: seq<Extension>, rest: bytes, q: bytes)
    requires PreambleFits(m) && ExtensionsFit(es) && HasServerName(es)
    requires 6 + |EncodePreamble(m)| + |EncodeExtensions(es)| + |rest| < 0x1_0000
    ensures
      var list := EncodeExtensions(es) + rest;
      var buf := Framed(m, PutU16(|list|) + list) + q;
      Slice(buf, Locate(buf)) == FirstName(es)
  {
    hide U16, At, Framed, ParseBody, SkipClientHelloHeaders, Locate, NameFromExtensions, ExtensionsFit, HasServerName;
    hide EncodePreamble, EncodeExtensions, PutU16, FirstName, PreambleFits, CheckHeaders;
    var list := EncodeExtensions(es) + rest;
    var raw, p := PutU16(|list|) + list, |EncodePreamble(m)|;
    var buf := Framed(m, raw) + q;
    FramedDecodes(ZeroHello(), m, raw, q);
    BlockAtEnd(buf[9..], EncodePreamble(m), EncodeExtensions(es), rest, q);
    HandshakeAt(buf, p, PutU16(|list|));
    HandshakeAt(buf, p + 2, EncodeExtensions(es));
    BlockGivesName(buf[5..], p + 4, es, |list|);
    LocateInHandshake(buf, p + 4);
  }

  lemma BlockGivesName(hs: bytes, pos: nat, es: seq<Extension>, len: nat)
    requires ExtensionsFit(es) && HasServerName(es)
    requires |EncodeExtensions(es)| <= len < 0x1_0000 && pos + 2 + len <= |hs|
    requires At(hs, pos, PutU16(len)) && At(hs, pos + 2, EncodeExtensions(es))
    ensures Slice(hs, NameFromExtensions(hs, pos)) == FirstName(es)
  {
    hide U16, At, FirstServerName, NameFromExtensions, HasServerName, ExtensionsFit, EncodeExtensions, FirstName;
    AtU16(hs, pos, len);
    FirstServerNameDecodes(hs, pos + 2, es, pos + 2 + len);
    BlockWalk(hs, pos);
  }

  lemma BlockAtEnd(s: bytes, preamble: bytes, list: bytes, rest: bytes, q: bytes)
    requires s == preamble + (PutU16(|list + rest|) + (list + rest)) + q
    ensures At(s, |preamble|, PutU16(|list + rest|)) && At(s, |preamble| + 2, list)
    ensures |preamble| + 2 + |list + rest| <= |s|
  {
    hide PutU16;
    var n := PutU16(|list + rest|);
    assert s[|preamble|..] == n + (list + rest + q);
    assert s[|preamble| + 2..] == list + (rest + q);
  }

  lemma BlockWalk(hs: bytes, pos: nat)
    requires pos + 2 <= |hs| && pos + 2 + U16(hs, pos) <= |hs|
    ensures NameFromExtensions(hs, pos) == FirstServerName(hs, pos + 2, pos + 2 + U16(hs, pos))
  {
  }
}
