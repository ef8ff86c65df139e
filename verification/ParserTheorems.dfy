/** Unmarshal inverts the encoder, on every receiver and whatever follows the message. */
module ParserTheorems {
  import opened Wire
  import opened ClientHelloMessage
  import opened FullParser

  // ===== the parsers invert the encoder ==================================

  lemma {:induction false} CipherSuitesDecode(s: bytes, pos: nat, cs: seq<uint16>)
    requires At(s, pos, EncodeCipherSuites(cs))
    ensures CipherSuitesAt(s, pos, |cs|) == cs
    decreases |cs|
  {
    if cs != [] {
      AtSplit(s, pos, PutU16(cs[0]), EncodeCipherSuites(cs[1..]));
      AtU16(s, pos, cs[0]);
      CipherSuitesDecode(s, pos + 2, cs[1..]);
      var rest := CipherSuitesAt(s, pos + 2, |cs| - 1);
      forall i | 0 < i < |cs| ensures CipherSuitesAt(s, pos, |cs|)[i] == cs[i] {
        assert rest[i - 1] == cs[1..][i - 1];
      }
    }
  }

  /** The receiver once the fields before the extensions have been read from m. */
  function WithPreamble(h: Hello, m: Message): Hello {
    h.(version := m.version, random := m.random, sessionId := m.sessionId,
       cipherSuites := m.cipherSuites, compressionMethods := m.compressionMethods)
  }

  /** Where each field of the encoded body lies. */
  lemma PreambleFields(s: bytes, m: Message)
    requires PreambleFits(m) && At(s, 0, EncodePreamble(m))
    ensures
      var p2 := 35 + |m.sessionId|;
      var p3 := p2 + 2 + 2 * |m.cipherSuites|;
      && p3 + 1 + |m.compressionMethods| == |EncodePreamble(m)| <= |s|
      && U16(s, 0) == m.version && At(s, 2, m.random)
      && s[34] == |m.sessionId| && At(s, 35, m.sessionId)
      && U16(s, p2) == 2 * |m.cipherSuites| && At(s, p2 + 2, EncodeCipherSuites(m.cipherSuites))
      && s[p3] == |m.compressionMethods| && At(s, p3 + 1, m.compressionMethods)
  {
    hide U16, At, EncodeSuites;
    var sid, rest := m.sessionId, EncodeSuites(m);
    AtSplit(s, 0, PutU16(m.version), m.random + (PutU8(|sid|) + (sid + rest)));
    AtSplit(s, 2, m.random, PutU8(|sid|) + (sid + rest));
    AtSplit(s, 34, PutU8(|sid|), sid + rest);
    AtSplit(s, 35, sid, rest);
    AtU16(s, 0, m.version);
    AtU8(s, 34, |sid|);
    SuiteFields(s, 35 + |sid|, m);
  }

  lemma SuiteFields(s: bytes, pos: nat, m: Message)
    requires PreambleFits(m) && At(s, pos, EncodeSuites(m))
    ensures
      var p3 := pos + 2 + 2 * |m.cipherSuites|;
      && p3 + 1 + |m.compressionMethods| <= |s|
      && U16(s, pos) == 2 * |m.cipherSuites| && At(s, pos + 2, EncodeCipherSuites(m.cipherSuites))
      && s[p3] == |m.compressionMethods| && At(s, p3 + 1, m.compressionMethods)
  {
    hide U16, At;
    var cs, cm := EncodeCipherSuites(m.cipherSuites), m.compressionMethods;
    AtSplit(s, pos, PutU16(|cs|), cs + (PutU8(|cm|) + cm));
    AtSplit(s, pos + 2, cs, PutU8(|cm|) + cm);
    AtSplit(s, pos + 2 + |cs|, PutU8(|cm|), cm);
    AtU16(s, pos, |cs|);
    AtU8(s, pos + 2 + |cs|, |cm|);
  }

  lemma BodyDecodes(h: Hello, s: bytes, m: Message)
    requires h.Valid() && PreambleFits(m) && At(s, 0, EncodePreamble(m))
    ensures ParseBody(h, s) == (WithPreamble(h, m), Ok(|EncodePreamble(m)|))
  {
    hide U16, At;
    PreambleFields(s, m);
    var p2 := 35 + |m.sessionId|;
    AtSlice(s, 2, m.random);
    AtSlice(s, 35, m.sessionId);
    AtSlice(s, p2 + 3 + 2 * |m.cipherSuites|, m.compressionMethods);
    CipherSuitesDecode(s, 37 + |m.sessionId|, m.cipherSuites);
  }

  lemma {:induction false} EntriesDecode(s: bytes, pos: nat, list: seq<NameEntry>)
    requires EntriesFit(list)
    requires At(s, pos, EncodeEntries(list))
    ensures EntryNames(s, pos, pos + |EncodeEntries(list)|) == HostNamesOf(list)
    decreases |list|
  {
    hide U16, At;
    if list != [] {
      var e, rest := list[0], EncodeEntries(list[1..]);
      EntryHeader(s, pos, e, rest);
      EntriesDecode(s, pos + 3 + |e.name|, list[1..]);
    }
  }

  lemma EntryHeader(s: bytes, pos: nat, e: NameEntry, rest: bytes)
    requires |e.name| < 0x1_0000 && At(s, pos, PutU8(e.nameType) + PutU16(|e.name|) + e.name + rest)
    ensures pos + 3 + |e.name| <= |s|
    ensures s[pos] == e.nameType && U16(s, pos + 1) == |e.name|
    ensures s[pos + 3..pos + 3 + |e.name|] == e.name
    ensures At(s, pos + 3 + |e.name|, rest)
  {
    hide U16, At;
    AtSplit(s, pos, PutU8(e.nameType) + PutU16(|e.name|) + e.name, rest);
    AtSplit(s, pos, PutU8(e.nameType) + PutU16(|e.name|), e.name);
    AtSplit(s, pos, PutU8(e.nameType), PutU16(|e.name|));
    AtU16(s, pos + 1, |e.name|);
    AtU8(s, pos, e.nameType);
    AtSlice(s, pos + 3, e.name);
  }

  function AfterFirst(pos: nat, es: seq<Extension>): nat
    requires es != []
  {
    pos + 4 + |ExtensionData(es[0])|
  }

  /** An encoded list starts with its first extension and goes on with the others. */
  lemma ExtensionHeader(s: bytes, pos: nat, es: seq<Extension>)
    requires es != [] && ExtensionsFit(es) && At(s, pos, EncodeExtensions(es))
    ensures AfterFirst(pos, es) + |EncodeExtensions(es[1..])| == pos + |EncodeExtensions(es)| <= |s|
    ensures U16(s, pos) == ExtensionType(es[0]) && U16(s, pos + 2) == |ExtensionData(es[0])|
    ensures At(s, pos + 4, ExtensionData(es[0])) && At(s, AfterFirst(pos, es), EncodeExtensions(es[1..]))
  {
    hide U16, At;
    var e := es[0];
    AtHeader(s, pos, ExtensionType(e), |ExtensionData(e)|, ExtensionData(e), EncodeExtensions(es[1..]));
  }

  lemma ListDecodes(s: bytes, lo: nat, list: seq<NameEntry>)
    requires ExtensionFits(ServerName(list)) && At(s, lo, ExtensionData(ServerName(list)))
    ensures lo + |ExtensionData(ServerName(list))| <= |s|
    ensures ListNames(s, lo, lo + |ExtensionData(ServerName(list))|) == HostNamesOf(list)
    ensures At(s, lo + 2, EncodeEntries(list))
  {
    hide U16, At, EntryNames, HostNamesOf, EncodeEntries, EntriesFit, PutU16;
    var entries := EncodeEntries(list);
    assert ExtensionData(ServerName(list)) == PutU16(|entries|) + entries;
    AtSplit(s, lo, PutU16(|entries|), entries);
    AtU16(s, lo, |entries|);
    assert ListNames(s, lo, lo + 2 + |entries|) == EntryNames(s, lo + 2, lo + 2 + |entries|);
    EntriesDecode(s, lo + 2, list);
  }

  lemma {:induction false} ExtensionsDecode(s: bytes, pos: nat, es: seq<Extension>)
    requires ExtensionsFit(es)
    requires At(s, pos, EncodeExtensions(es))
    ensures ExtensionNames(s, pos, pos + |EncodeExtensions(es)|) == HostNames(es)
    decreases |es|
  {
    hide U16, At, ExtensionData, EncodeExtension, HostNamesOf, ListNames, ExtensionFits;
    if es != [] {
      ExtensionHeader(s, pos, es);
      ExtensionDecodes(s, pos, es[0], pos + |EncodeExtensions(es)|);
      ExtensionsDecode(s, AfterFirst(pos, es), es[1..]);
    }
  }

  /** One step of the walk over an encoded extension that ends before extEnd. */
  lemma ExtensionDecodes(s: bytes, pos: nat, e: Extension, extEnd: nat)
    requires ExtensionFits(e) && pos + 4 + |ExtensionData(e)| <= extEnd <= |s|
    requires U16(s, pos) == ExtensionType(e) && U16(s, pos + 2) == |ExtensionData(e)|
    requires At(s, pos + 4, ExtensionData(e))
    ensures ExtensionNames(s, pos, extEnd)
        == (if e.ServerName? then HostNamesOf(e.list) else [])
        + ExtensionNames(s, pos + 4 + |ExtensionData(e)|, extEnd)
  {
    hide U16, At, ListNames, HostNamesOf, ExtensionData;
    if e.ServerName? {
      ListDecodes(s, pos + 4, e.list);
    }
  }

  /** The bytes after the record and handshake headers of a framed body are the body and what follows. */
  lemma RecordHeader(recordVersion: uint16, body: bytes, q: bytes)
    requires 4 + |body| < 0x1_0000
    ensures var buf := Frame(recordVersion, body) + q;
      && |buf| >= 9 && buf[0] == 0x16 && buf[5] == 0x01
      && U16(buf, 3) == 4 + |body| <= |buf| - 5
      && buf[9..] == body + q
  {
    var n := |body|;
    var head := [0x16] + PutU16(recordVersion) + PutU16(4 + n) + [0x01, 0] + PutU16(n);
    var buf := Frame(recordVersion, body) + q;
    assert buf == head + (body + q);
    assert buf[3] == PutU16(4 + n)[0] && buf[4] == PutU16(4 + n)[1];
    assert U16(buf, 3) == U16(PutU16(4 + n), 0);
  }

  lemma BlockDecodes(s: bytes, pos: nat, b: ClientHelloMessage.Block)
    requires BlockFits(b) && b.Present? && At(s, pos, EncodeBlock(b))
    ensures LocateBlock(s, pos) == BlockAt(pos + 2, pos + 2 + |EncodeExtensions(b.extensions)|)
    ensures At(s, pos + 2, EncodeExtensions(b.extensions))
  {
    hide U16, At;
    AtSplit(s, pos, PutU16(|EncodeExtensions(b.extensions)|), EncodeExtensions(b.extensions));
    AtU16(s, pos, |EncodeExtensions(b.extensions)|);
  }

  /** An encoded message, followed by anything when it has an extension block. */
  ghost predicate Carries(buf: bytes, m: Message) {
    Fits(m) && Encode(m) <= buf && (m.block.Absent? ==> buf == Encode(m))
  }

  lemma BodyAt(buf: bytes, m: Message)
    requires Carries(buf, m)
    ensures |buf| >= 9 && buf[0] == 0x16 && buf[5] == 0x01 && U16(buf, 3) <= |buf| - 5
    ensures At(buf[9..], 0, EncodePreamble(m)) && At(buf[9..], |EncodePreamble(m)|, EncodeBlock(m.block))
    ensures m.block.Absent? ==> |buf| == 9 + |EncodePreamble(m)|
  {
    var q := buf[|Encode(m)|..];
    assert buf == Encode(m) + q;
    RecordHeader(m.recordVersion, EncodeBody(m), q);
    AtSplit(buf[9..], 0, EncodePreamble(m), EncodeBlock(m.block));
  }

  /** Unmarshal recovers every field of every message it is sent, whatever the receiver held before. */
  lemma UnmarshalInvertsEncode(h: Hello, buf: bytes, m: Message)
    requires h.Valid() && Carries(buf, m)
    ensures Unmarshaled(h, buf) == (StoreNames(WithPreamble(h, m), MessageHostNames(m)), Ok(()))
  {
    hide U16, At;
    BodyAt(buf, m);
    BodyDecodes(h, buf[9..], m);
    BlockFinishes(WithPreamble(h, m), buf[9..], |EncodePreamble(m)|, m.block);
  }

  lemma BlockFinishes(h: Hello, s: bytes, pos: nat, b: ClientHelloMessage.Block)
    requires h.Valid() && BlockFits(b) && At(s, pos, EncodeBlock(b))
    requires b.Absent? ==> |s| == pos
    ensures Finish(h, s, pos)
        == (StoreNames(h, if b.Absent? then [] else HostNames(b.extensions)), Ok(()))
  {
    hide U16, At;
    if b.Present? {
      BlockDecodes(s, pos, b);
      ExtensionsDecode(s, pos + 2, b.extensions);
    } else {
      StoreNone(h);
    }
  }

  lemma StoreNone(h: Hello)
    requires h.Valid()
    ensures StoreNames(h, []) == h.(count := 0)
  {
  }
}
