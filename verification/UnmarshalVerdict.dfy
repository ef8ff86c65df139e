/**
 Which buffers Unmarshal accepts, which error it gives the others, and where each field
 comes from, spelled out in the bytes of the buffer; and the bytes that the encoder writes.
 */
module UnmarshalVerdict {
  import opened Wire
  import opened ClientHelloMessage
  import opened FullParser

  lemma U16At(s: bytes, k: nat, pos: nat)
    requires k + pos + 2 <= |s|
    ensures U16(s[k..], pos) == s[k + pos] as int * 256 + s[k + pos + 1]
  {
  }

  /** Where the fields before the extensions end, in the bytes behind the headers. */
  lemma BodyEnds(h: Hello, s: bytes, end: nat)
    requires h.Valid()
    ensures ParseBody(h, s).1 == Ok(end) <==>
      && |s| >= 35
      && var p2: nat := 35 + s[34] as int;
      && p2 + 2 <= |s|
      && var p3: nat := p2 + 2 + U16(s, p2);
      && p3 < |s| && end == p3 + 1 + s[p3] && end <= |s|
  {
    hide U16, CipherSuitesAt;
  }

  lemma StatedLength(buf: bytes)
    requires |buf| >= 9
    ensures U16(buf, 3) == buf[3] as int * 256 + buf[4]
  {
  }

  /** Success means exactly that each length the buffer states is covered by the bytes that are there. */
  lemma AcceptsExactly(h: Hello, buf: bytes)
    requires h.Valid()
    ensures Unmarshaled(h, buf).1.Ok? <==>
      && |buf| >= 44 && buf[0] == 0x16 && buf[5] == 0x01
      && buf[3] as int * 256 + buf[4] <= |buf| - 5
      && var p2: nat := 44 + buf[43] as int;
      && p2 + 2 <= |buf|
      && var p3: nat := p2 + 2 + buf[p2] as int * 256 + buf[p2 + 1];
      && p3 < |buf|
      && var p4: nat := p3 + 1 + buf[p3] as int;
      && p4 <= |buf|
      && (p4 + 2 <= |buf| ==> p4 + 2 + buf[p4] as int * 256 + buf[p4 + 1] <= |buf|)
  {
    hide U16, ExtensionNames, ParseBody, StoreNames;
    if |buf| >= 9 {
      StatedLength(buf);
      var s := buf[9..];
      var body := ParseBody(h, s).1;
      if body.Ok? {
        BodyEnds(h, s, body.value);
      }
      if |buf| >= 44 && 46 + buf[43] as int <= |buf| {
        var p2: nat := 44 + buf[43] as int;
        U16At(buf, 9, p2 - 9);
        var p3: nat := p2 + 2 + buf[p2] as int * 256 + buf[p2 + 1];
        if p3 < |buf| {
          var p4: nat := p3 + 1 + buf[p3] as int;
          BodyEnds(h, s, p4 - 9);
          if p4 + 2 <= |buf| {
            U16At(buf, 9, p4 - 9);
          }
        }
      }
    }
  }

  /** A record that announces more bytes than have arrived is refused and leaves the receiver alone. */
  lemma TruncatedRecordIsRefused(h: Hello, buf: bytes)
    requires h.Valid() && |buf| >= 9 && buf[0] == 0x16 && |buf| - 5 < buf[3] as int * 256 + buf[4]
    ensures Unmarshaled(h, buf) == (h, Err(TruncatedRecord))
  {
    hide ParseBody, Finish;
  }

  /** The errors of the two headers, in the order in which they are looked for; none touches the receiver. */
  lemma HeaderErrors(h: Hello, buf: bytes)
    requires h.Valid()
    ensures |buf| < 9 ==> Unmarshaled(h, buf) == (h, Err(DataTooShort))
    ensures |buf| >= 9 && buf[0] != 0x16 ==> Unmarshaled(h, buf) == (h, Err(NotHandshake))
    ensures |buf| >= 9 && buf[0] == 0x16 && buf[3] as int * 256 + buf[4] <= |buf| - 5 && buf[5] != 0x01 ==>
      Unmarshaled(h, buf) == (h, Err(NotClientHello))
  {
    hide ParseBody, Finish;
  }

  /** The errors behind the headers: each names the first length field that is missing or runs over the end. */
  lemma BodyErrors(h: Hello, buf: bytes)
    requires h.Valid() && |buf| >= 9 && buf[0] == 0x16 && buf[5] == 0x01
    requires buf[3] as int * 256 + buf[4] <= |buf| - 5
    ensures |buf| < 43 ==> Unmarshaled(h, buf).1 == Err(HelloTooShort)
    ensures |buf| == 43 ==> Unmarshaled(h, buf).1 == Err(InvalidSessionID)
    ensures |buf| > 43 ==>
      var p2: nat := 44 + buf[43] as int;
      if |buf| < p2 then Unmarshaled(h, buf).1 == Err(InvalidSessionIDLength)
      else if |buf| < p2 + 2 then Unmarshaled(h, buf).1 == Err(InvalidCipherSuites)
      else
        var p3: nat := p2 + 2 + buf[p2] as int * 256 + buf[p2 + 1];
        if |buf| < p3 then Unmarshaled(h, buf).1 == Err(CipherSuitesTooLong)
        else if |buf| == p3 then Unmarshaled(h, buf).1 == Err(NoCompressionMethods)
        else if |buf| < p3 + 1 + buf[p3] then Unmarshaled(h, buf).1 == Err(CompressionMethodsOutOfBounds)
        else Unmarshaled(h, buf).1.Err? ==> Unmarshaled(h, buf).1 == Err(ExtensionsTruncated)
  {
    hide U16, ExtensionNames, CipherSuitesAt;
    StatedLength(buf);
    if |buf| >= 44 && 46 + buf[43] as int <= |buf| {
      U16At(buf, 9, 35 + buf[43] as int);
    }
  }

  /** What a refusal behind the headers leaves: the fields read before it are overwritten, the others are as they were. */
  lemma RefusalLeavesPartOfIt(h: Hello, buf: bytes)
    requires h.Valid() && |buf| >= 43 && buf[0] == 0x16 && buf[5] == 0x01
    requires buf[3] as int * 256 + buf[4] <= |buf| - 5 && Unmarshaled(h, buf).1.Err?
    ensures
      var after := Unmarshaled(h, buf).0;
      && after.version == buf[9] as int * 256 + buf[10] && after.random == buf[11..43]
      && (if |buf| > 43 && 44 + buf[43] as int <= |buf| then after.sessionId == buf[44..44 + buf[43] as int]
          else after.sessionId == h.sessionId)
      && (|buf| == 43 || |buf| < 46 + buf[43] as int ==>
            after.cipherSuites == h.cipherSuites && after.compressionMethods == h.compressionMethods)
  {
    hide U16, ExtensionNames, CipherSuitesAt;
    StatedLength(buf);
    U16At(buf, 9, 0);
    SliceOfTail(buf, 9, 2, 34);
    if |buf| > 43 && 44 + buf[43] as int <= |buf| {
      SliceOfTail(buf, 9, 35, 35 + buf[43] as int);
    }
  }

  /** What an accepting call leaves in the fields before the names, whether or not the message was well formed. */
  lemma FieldsAreTheBytes(h: Hello, buf: bytes)
    requires h.Valid() && Unmarshaled(h, buf).1.Ok?
    ensures |buf| >= 44 && 46 + buf[43] as int <= |buf|
    ensures
      var after := Unmarshaled(h, buf).0;
      var p2: nat := 44 + buf[43] as int;
      var n: nat := buf[p2] as int * 256 + buf[p2 + 1];
      var p3 := p2 + 2 + n;
      && p3 < |buf| && p3 + 1 + buf[p3] <= |buf|
      && after.version == buf[9] as int * 256 + buf[10]
      && after.random == buf[11..43]
      && after.sessionId == buf[44..p2]
      && after.compressionMethods == buf[p3 + 1..p3 + 1 + buf[p3]]
      && |after.cipherSuites| == n / 2
      && forall i | 0 <= i < n / 2 ::
           after.cipherSuites[i] == buf[p2 + 2 + 2 * i] as int * 256 + buf[p2 + 3 + 2 * i]
  {
    hide U16, Unmarshaled, ParseBody, CipherSuitesAt;
    BodyIsKept(h, buf);
    BodyFields(h, buf[9..]);
    FieldPositions(buf);
    var p2: nat := 44 + buf[43] as int;
    SuitesAreBytes(buf, p2 + 2, (buf[p2] as int * 256 + buf[p2 + 1]) / 2);
  }

  /** The fields of the body, found from the start of the buffer. */
  lemma FieldPositions(buf: bytes)
    requires |buf| >= 44 && 46 + buf[43] as int <= |buf|
    requires
      var s := buf[9..];
      var p: nat := 35 + s[34] as int;
      var q: nat := p + 2 + U16(s, p);
      q < |s| && q + 1 + s[q] <= |s|
    ensures
      var s := buf[9..];
      var p2: nat := 44 + buf[43] as int;
      var n: nat := buf[p2] as int * 256 + buf[p2 + 1];
      var p3 := p2 + 2 + n;
      && s[34] == buf[43] && U16(s, p2 - 9) == n && s[p3 - 9] == buf[p3]
      && U16(s, 0) == buf[9] as int * 256 + buf[10]
      && s[2..34] == buf[11..43] && s[35..p2 - 9] == buf[44..p2]
      && p3 + 1 + buf[p3] <= |buf|
      && s[p3 - 8..p3 - 8 + buf[p3]] == buf[p3 + 1..p3 + 1 + buf[p3]]
  {
    hide U16;
    var s := buf[9..];
    var p2: nat := 44 + buf[43] as int;
    U16At(buf, 9, 0);
    U16At(buf, 9, p2 - 9);
    var p3: nat := p2 + 2 + buf[p2] as int * 256 + buf[p2 + 1];
    assert s[34] == buf[43] && s[p3 - 9] == buf[p3];
    SliceOfTail(buf, 9, 2, 34);
    SliceOfTail(buf, 9, 35, p2 - 9);
    SliceOfTail(buf, 9, p3 - 8, p3 - 8 + buf[p3]);
  }

  lemma BodyIsKept(h: Hello, buf: bytes)
    requires h.Valid() && Unmarshaled(h, buf).1.Ok?
    ensures |buf| >= 9 && ParseBody(h, buf[9..]).1.Ok?
    ensures
      var a, b := Unmarshaled(h, buf).0, ParseBody(h, buf[9..]).0;
      && a.version == b.version && a.random == b.random && a.sessionId == b.sessionId
      && a.cipherSuites == b.cipherSuites && a.compressionMethods == b.compressionMethods
  {
    hide U16, ParseBody, ExtensionNames, FirstFour;
  }

  lemma BodyFields(h: Hello, s: bytes)
    requires h.Valid() && ParseBody(h, s).1.Ok?
    ensures |s| >= 35 && 37 + s[34] as int <= |s|
    ensures
      var b := ParseBody(h, s).0;
      var p2: nat := 35 + s[34] as int;
      var p3: nat := p2 + 2 + U16(s, p2);
      && p3 < |s| && p3 + 1 + s[p3] <= |s|
      && b.version == U16(s, 0) && b.random == s[2..34] && b.sessionId == s[35..p2]
      && b.cipherSuites == CipherSuitesAt(s, p2 + 2, U16(s, p2) / 2)
      && b.compressionMethods == s[p3 + 1..p3 + 1 + s[p3]]
  {
    hide U16, CipherSuitesAt;
  }

  lemma SliceOfTail(s: bytes, k: nat, a: nat, b: nat)
    requires a <= b && k + b <= |s|
    ensures s[k..][a..b] == s[k + a..k + b]
  {
  }

  lemma SuitesAreBytes(buf: bytes, pos: nat, count: nat)
    requires 9 <= pos && pos + 2 * count <= |buf|
    ensures var cs := CipherSuitesAt(buf[9..], pos - 9, count);
      |cs| == count && forall i | 0 <= i < count :: cs[i] == buf[pos + 2 * i] as int * 256 + buf[pos + 1 + 2 * i]
  {
    forall i | 0 <= i < count
      ensures CipherSuitesAt(buf[9..], pos - 9, count)[i] == buf[pos + 2 * i] as int * 256 + buf[pos + 1 + 2 * i]
    {
      U16At(buf, 9, pos - 9 + 2 * i);
    }
  }

  // ----- the bytes of an encoded message --------------------------------

  /** A server_name extension with one host name, byte for byte as section 3 of RFC 6066 lays it out. */
  lemma ServerNameLayout(name: bytes)
    requires 5 + |name| < 0x1_0000
    ensures EncodeExtension(ServerName([NameEntry(HOST_NAME, name)])) ==
      [0x00, 0x00,
       (5 + |name|) / 256, (5 + |name|) % 256,
       (3 + |name|) / 256, (3 + |name|) % 256,
       0x00,
       |name| / 256, |name| % 256] + name
  {
    var list := [NameEntry(HOST_NAME, name)];
    assert list[1..] == [];
    var entry := [0x00, |name| / 256 % 256, |name| % 256] + name;
    assert EncodeEntries(list) == PutU8(HOST_NAME) + PutU16(|name|) + name + [] == entry;
    assert ExtensionData(ServerName(list)) == PutU16(3 + |name|) + entry;
  }

  /** The headers and fixed fields of an encoded message as sections 5.1, 4 and 4.1.2 of RFC 8446 lay them out. */
  lemma MessageLayout(m: Message)
    requires Fits(m)
    ensures var buf := Encode(m);
      && |buf| >= 44
      && buf[0] == 0x16 && buf[5] == 0x01 && buf[6] == 0
      && buf[1] as int * 256 + buf[2] == m.recordVersion
      && buf[3] as int * 256 + buf[4] == |buf| - 5
      && buf[7] as int * 256 + buf[8] == |buf| - 9
      && buf[9] as int * 256 + buf[10] == m.version
      && buf[11..43] == m.random
      && buf[43] == |m.sessionId|
  {
    hide EncodePreamble, EncodeSuites, EncodeBlock;
    var body := EncodeBody(m);
    HeaderLayout(m.recordVersion, body);
    PreambleLayout(m);
    assert body[..|EncodePreamble(m)|] == EncodePreamble(m);
    var buf := Encode(m);
    assert forall i | 0 <= i < 35 :: buf[9 + i] == buf[9..][i] == body[i] == EncodePreamble(m)[i];
    assert buf[11..43] == EncodePreamble(m)[2..34];
  }

  lemma HeaderLayout(recordVersion: uint16, body: bytes)
    requires 4 + |body| < 0x1_0000
    ensures var buf := Frame(recordVersion, body);
      && |buf| == 9 + |body| && buf[9..] == body
      && buf[0] == 0x16 && buf[5] == 0x01 && buf[6] == 0
      && buf[1] as int * 256 + buf[2] == recordVersion
      && buf[3] as int * 256 + buf[4] == 4 + |body|
      && buf[7] as int * 256 + buf[8] == |body|
  {
  }

  lemma PreambleLayout(m: Message)
    requires PreambleFits(m)
    ensures var s := EncodePreamble(m);
      && |s| >= 35
      && s[0] as int * 256 + s[1] == m.version && s[2..34] == m.random && s[34] == |m.sessionId|
  {
    hide EncodeSuites;
    var rest := PutU8(|m.sessionId|) + (m.sessionId + EncodeSuites(m));
    assert EncodePreamble(m) == PutU16(m.version) + m.random + rest;
    assert EncodePreamble(m)[34] == rest[0];
  }
}
