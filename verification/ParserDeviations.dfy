/**
 Inputs on which ExtractSNI and Unmarshal part ways, one family for each check that
 ExtractSNI makes differently.
 */
module ParserDeviations {
  import opened Wire
  import opened ClientHelloMessage
  import opened FullParser
  import opened FastParser
  import opened ParserTheorems
  import opened ParserAgreement

  // ===== the handshake type ==============================================

  /** ExtractSNI does not look at the handshake type beyond that it is not 0x16. */
  lemma TypeIsIgnored(data: bytes, t: byte)
    requires IsTLSHandshake(data) && t != TLS_HANDSHAKE
    ensures Locate(data[5 := t]) == Locate(data)
    ensures Slice(data[5 := t], Locate(data[5 := t])) == Slice(data, Locate(data))
  {
    hide U16, SkipClientHelloHeaders, NameFromExtensions;
    var hs, hs2 := data[5..], data[5 := t][5..];
    assert hs2 == hs[0 := t];
    SkipIgnoresType(hs, t);
    var pos := SkipClientHelloHeaders(hs);
    if pos.Found? {
      NameIgnoresType(hs, t, pos.value);
      if NameFromExtensions(hs, pos.value).Found? {
        NameIsBehind(hs, pos.value);
      }
      var r := Locate(data);
      if r.Found? {
        assert data[5 := t][r.value.lo..r.value.hi] == data[r.value.lo..r.value.hi];
      }
    }
  }

  lemma U16IgnoresType(hs: bytes, t: byte, pos: nat)
    requires 0 < pos && pos + 2 <= |hs|
    ensures U16(hs[0 := t], pos) == U16(hs, pos)
  {
  }

  lemma SkipIgnoresType(hs: bytes, t: byte)
    requires |hs| > 0
    ensures SkipClientHelloHeaders(hs[0 := t]) == SkipClientHelloHeaders(hs)
    ensures SkipClientHelloHeaders(hs).Found? ==> SkipClientHelloHeaders(hs).value > 0
  {
    hide U16;
    if HELLO_SIZE < |hs| && HELLO_SIZE + 1 + hs[HELLO_SIZE] + 2 <= |hs| {
      U16IgnoresType(hs, t, HELLO_SIZE + 1 + hs[HELLO_SIZE]);
    }
  }

  lemma {:induction false} WalkIgnoresType(hs: bytes, t: byte, pos: nat, end: nat)
    requires 0 < pos && 0 < |hs| && end <= |hs|
    ensures FirstServerName(hs[0 := t], pos, end) == FirstServerName(hs, pos, end)
    decreases end - pos
  {
    hide U16;
    if pos + 4 <= end {
      U16IgnoresType(hs, t, pos);
      U16IgnoresType(hs, t, pos + 2);
      var next := pos + 4 + U16(hs, pos + 2);
      if next <= |hs| && U16(hs, pos) != 0 {
        WalkIgnoresType(hs, t, next, end);
      } else if next - pos >= 9 && next <= |hs| {
        U16IgnoresType(hs, t, pos + 7);
      }
    }
  }

  lemma NameIgnoresType(hs: bytes, t: byte, pos: nat)
    requires 0 < pos && |hs| > 0
    ensures NameFromExtensions(hs[0 := t], pos) == NameFromExtensions(hs, pos)
  {
    hide U16, FirstServerName;
    if pos + 2 <= |hs| {
      U16IgnoresType(hs, t, pos);
      if pos + 2 + U16(hs, pos) <= |hs| {
        WalkIgnoresType(hs, t, pos + 2, pos + 2 + U16(hs, pos));
      }
    }
  }

  lemma NameIsBehind(hs: bytes, pos: nat)
    requires NameFromExtensions(hs, pos).Found?
    ensures pos < NameFromExtensions(hs, pos).value.lo
  {
    hide U16, FirstServerName;
  }

  /** A message with another handshake type: Unmarshal refuses it and ExtractSNI still returns its name. */
  lemma OtherHandshakesAreRead(h: Hello, buf: bytes, m: Message, t: byte)
    requires h.Valid() && Carries(buf, m) && t != TLS_HANDSHAKE && t != HANDSHAKE_TYPE_CLIENT_HELLO
    ensures |buf| > 5
    ensures Unmarshaled(h, buf[5 := t]) == (h, Err(NotClientHello))
    ensures Slice(buf[5 := t], Locate(buf[5 := t])) == MessageFirstName(m)
  {
    hide Locate, Carries, ParseBody, MessageFirstName;
    BodyAt(buf, m);
    TypeIsIgnored(buf, t);
    ExtractInvertsEncode(buf, m);
  }

  // ===== entries behind the first ========================================

  /** A well-formed list that names something else first: Unmarshal finds the host name, ExtractSNI gives up. */
  lemma SecondEntryIsMissed(h: Hello, buf: bytes, m: Message, first: NameEntry, name: bytes)
    requires h.Valid() && Carries(buf, m) && first.nameType != HOST_NAME
    requires m.block == Present([ServerName([first, NameEntry(HOST_NAME, name)])])
    ensures Slice(buf, Locate(buf)) == NoName
    ensures Unmarshaled(h, buf).1.Ok? && Unmarshaled(h, buf).0.Names() == [name]
  {
    hide Locate, Carries, Unmarshaled;
    var list := [first, NameEntry(HOST_NAME, name)];
    assert list[1..] == [NameEntry(HOST_NAME, name)] && [NameEntry(HOST_NAME, name)][1..] == [];
    assert [ServerName(list)][1..] == [];
    assert HostNamesOf([NameEntry(HOST_NAME, name)]) == [name];
    assert HostNamesOf(list) == [name];
    assert HostNames([ServerName(list)]) == [name];
    ExtractInvertsEncode(buf, m);
    UnmarshalInvertsEncode(h, buf, m);
  }

  // ===== malformed extension blocks ======================================

  /** A block of stated length, holding one server_name extension whose list, of stated length, is one host name. */
  function OneName(blockLen: nat, listLen: nat, name: bytes): bytes {
    PutU16(blockLen) + (PutU16(0) + (PutU16(5 + |name|)
    + (PutU16(listLen) + (PutU8(0) + (PutU16(|name|) + name)))))
  }

  lemma OneNameFields(s: bytes, p: nat, blockLen: nat, listLen: nat, name: bytes)
    requires blockLen < 0x1_0000 && listLen < 0x1_0000 && 5 + |name| < 0x1_0000
    requires At(s, p, OneName(blockLen, listLen, name)) && |s| == p + 11 + |name|
    ensures U16(s, p) == blockLen && U16(s, p + 2) == 0 && U16(s, p + 4) == 5 + |name|
    ensures U16(s, p + 6) == listLen && s[p + 8] == 0 && U16(s, p + 9) == |name|
    ensures s[p + 11..] == name
  {
    hide U16, At;
    var r5 := PutU16(|name|) + name;
    var r4 := PutU8(0) + r5;
    var r3 := PutU16(listLen) + r4;
    var r2 := PutU16(5 + |name|) + r3;
    AtSplit(s, p, PutU16(blockLen), PutU16(0) + r2);
    AtSplit(s, p + 2, PutU16(0), r2);
    AtSplit(s, p + 4, PutU16(5 + |name|), r3);
    AtSplit(s, p + 6, PutU16(listLen), r4);
    AtSplit(s, p + 8, PutU8(0), r5);
    AtSplit(s, p + 9, PutU16(|name|), name);
    AtU16(s, p, blockLen);
    AtU16(s, p + 2, 0);
    AtU16(s, p + 4, 5 + |name|);
    AtU16(s, p + 6, listLen);
    AtU8(s, p + 8, 0);
    AtU16(s, p + 9, |name|);
    AtSlice(s, p + 11, name);
    assert s[p + 11..p + 11 + |name|] == s[p + 11..];
  }

  /** Whatever the list length says, and as soon as the block length covers the header, ExtractSNI returns the name. */
  lemma FastFindsOneName(hs: bytes, p: nat, blockLen: nat, listLen: nat, name: bytes)
    requires 4 <= blockLen <= 9 + |name| && listLen < 0x1_0000 && 9 + |name| < 0x1_0000
    requires |hs| == p + 15 + |name| && At(hs[4..], p, OneName(blockLen, listLen, name))
    ensures Slice(hs, NameFromExtensions(hs, p + 4)) == Found(name)
  {
    hide U16, At;
    var s := hs[4..];
    OneNameFields(s, p, blockLen, listLen, name);
    U16Drop(hs, 4, p);
    U16Drop(hs, 4, p + 2);
    U16Drop(hs, 4, p + 4);
    U16Drop(hs, 4, p + 9);
    assert s[p + 8] == hs[p + 12];
    assert hs[p + 15..p + 15 + |name|] == s[p + 11..];
  }

  /** Unmarshal does not, if the extension overruns the block or the entry overruns the list. */
  lemma FullFindsNoName(s: bytes, p: nat, blockLen: nat, listLen: nat, name: bytes)
    requires listLen < 0x1_0000 && 9 + |name| < 0x1_0000
    requires 4 <= blockLen < 9 + |name| || (blockLen == 9 + |name| && listLen < 3 + |name|)
    requires |s| == p + 11 + |name| && At(s, p, OneName(blockLen, listLen, name))
    ensures LocateBlock(s, p) == BlockAt(p + 2, p + 2 + blockLen)
    ensures ExtensionNames(s, p + 2, p + 2 + blockLen) == []
  {
    hide U16, At;
    OneNameFields(s, p, blockLen, listLen, name);
    if blockLen == 9 + |name| {
      assert EntryNames(s, p + 8, p + 8 + listLen) == [];
      assert ListNames(s, p + 6, p + 11 + |name|) == [];
      assert ExtensionNames(s, p + 11 + |name|, p + 11 + |name|) == [];
    }
  }

  /**
   The extension overruns its block, or the entry its list: Unmarshal accepts the message
   and reports no name, and ExtractSNI returns one, because it bounds extensions by the
   buffer and does not consult the length of the list.
   */
  lemma OverrunsAreRead(h: Hello, m: Message, blockLen: nat, listLen: nat, name: bytes)
    requires h.Valid() && PreambleFits(m)
    requires listLen < 0x1_0000 && 15 + |EncodePreamble(m)| + |name| < 0x1_0000
    requires 4 <= blockLen < 9 + |name| || (blockLen == 9 + |name| && listLen < 3 + |name|)
    ensures
      var buf := Framed(m, OneName(blockLen, listLen, name));
      && Unmarshaled(h, buf) == (StoreNames(WithPreamble(h, m), []), Ok(()))
      && Slice(buf, Locate(buf)) == Found(name)
  {
    hide U16, At, ParseBody, SkipClientHelloHeaders, NameFromExtensions, ExtensionNames, Framed, StoreNames, Locate;
    hide EncodePreamble, PreambleFits, WithPreamble;
    var raw, p := OneName(blockLen, listLen, name), |EncodePreamble(m)|;
    var buf := Framed(m, raw);
    FramedDecodes(h, m, raw, []);
    assert buf + [] == buf && EncodePreamble(m) + raw + [] == EncodePreamble(m) + raw;
    var hs, s := buf[5..], buf[9..];
    assert At(s, p, raw) by {
      AtSlice(s, p, raw);
      assert s[p..p + |raw|] == raw;
    }
    FastFindsOneName(hs, p, blockLen, listLen, name);
    FullFindsNoName(s, p, blockLen, listLen, name);
    LocateInHandshake(buf, p + 4);
  }
}
