/**
 ClientHello messages as values and the bytes that encode them: the record of
 section 5.1, the handshake header of section 4, the body of section 4.1.2 and
 the extension list of section 4.2 of RFC 8446, with the ServerNameList of
 section 3 of RFC 6066.
 */
module ClientHelloMessage {
  import opened Wire

  const HOST_NAME: byte := 0
  const SERVER_NAME: uint16 := 0

  datatype NameEntry = NameEntry(nameType: byte, name: bytes)

  datatype Extension =
    | ServerName(list: seq<NameEntry>)
    | Other(extType: uint16, data: bytes)

  datatype Block = Absent | Present(extensions: seq<Extension>)

  datatype Message = Message(
    recordVersion: uint16,
    version: uint16,
    random: bytes,
    sessionId: bytes,
    cipherSuites: seq<uint16>,
    compressionMethods: bytes,
    block: Block)

  function EncodeEntries(list: seq<NameEntry>): bytes {
    if list == [] then []
    else PutU8(list[0].nameType) + PutU16(|list[0].name|) + list[0].name + EncodeEntries(list[1..])
  }

  function ExtensionType(e: Extension): uint16 {
    if e.ServerName? then SERVER_NAME else e.extType
  }

  function ExtensionData(e: Extension): bytes {
    match e
    case ServerName(list) => PutU16(|EncodeEntries(list)|) + EncodeEntries(list)
    case Other(_, data) => data
  }

  function EncodeExtension(e: Extension): bytes {
    PutU16(ExtensionType(e)) + PutU16(|ExtensionData(e)|) + ExtensionData(e)
  }

  function EncodeExtensions(es: seq<Extension>): bytes {
    if es == [] then [] else EncodeExtension(es[0]) + EncodeExtensions(es[1..])
  }

  function EncodeCipherSuites(cs: seq<uint16>): (s: bytes)
    ensures |s| == 2 * |cs|
  {
    if cs == [] then [] else PutU16(cs[0]) + EncodeCipherSuites(cs[1..])
  }

  function EncodeBlock(b: Block): bytes {
    if b.Absent? then []
    else PutU16(|EncodeExtensions(b.extensions)|) + EncodeExtensions(b.extensions)
  }

  /** The cipher suites and compression methods. */
  function EncodeSuites(m: Message): (s: bytes)
    ensures |s| == 3 + 2 * |m.cipherSuites| + |m.compressionMethods|
  {
    PutU16(2 * |m.cipherSuites|)
    + (EncodeCipherSuites(m.cipherSuites) + (PutU8(|m.compressionMethods|) + m.compressionMethods))
  }

  /** The ClientHello body up to the extension block. */
  function EncodePreamble(m: Message): (s: bytes)
    ensures |s| == 6 + |m.random| + |m.sessionId| + 2 * |m.cipherSuites| + |m.compressionMethods|
  {
    PutU16(m.version) + (m.random + (PutU8(|m.sessionId|) + (m.sessionId + EncodeSuites(m))))
  }

  function EncodeBody(m: Message): bytes {
    EncodePreamble(m) + EncodeBlock(m.block)
  }

  /** A body in its handshake message and record. The 24-bit handshake length is written in full below 2^16. */
  function Frame(recordVersion: uint16, body: bytes): bytes {
    ([0x16] + PutU16(recordVersion) + PutU16(4 + |body|) + [0x01, 0] + PutU16(|body|)) + body
  }

  /** The bytes a client sends. */
  function Encode(m: Message): bytes {
    Frame(m.recordVersion, EncodeBody(m))
  }

  // ----- every length field can hold the length it must state ------------

  ghost predicate EntriesFit(list: seq<NameEntry>) {
    list != [] ==> |list[0].name| < 0x1_0000 && EntriesFit(list[1..])
  }

  ghost predicate ExtensionFits(e: Extension) {
    && |ExtensionData(e)| < 0x1_0000
    && match e
       case ServerName(list) => EntriesFit(list)
       case Other(extType, _) => extType != SERVER_NAME
  }

  ghost predicate ExtensionsFit(es: seq<Extension>) {
    es != [] ==> ExtensionFits(es[0]) && ExtensionsFit(es[1..])
  }

  ghost predicate BlockFits(b: Block) {
    b.Present? ==> ExtensionsFit(b.extensions) && |EncodeExtensions(b.extensions)| < 0x1_0000
  }

  predicate PreambleFits(m: Message) {
    && |m.random| == 32
    && |m.sessionId| < 0x100
    && 2 * |m.cipherSuites| < 0x1_0000
    && |m.compressionMethods| < 0x100
  }

  /** The message fits one record, whose 16-bit length covers the handshake header and the body. */
  ghost predicate Fits(m: Message) {
    PreambleFits(m) && BlockFits(m.block) && 4 + |EncodeBody(m)| < 0x1_0000
  }

  /** The host_name entries of every server_name extension, in the order they are sent. */
  function HostNamesOf(list: seq<NameEntry>): seq<bytes> {
    if list == [] then []
    else (if list[0].nameType == HOST_NAME then [list[0].name] else []) + HostNamesOf(list[1..])
  }

  function HostNames(es: seq<Extension>): seq<bytes> {
    if es == [] then []
    else (if es[0].ServerName? then HostNamesOf(es[0].list) else []) + HostNames(es[1..])
  }

  function MessageHostNames(m: Message): seq<bytes> {
    if m.block.Absent? then [] else HostNames(m.block.extensions)
  }
}
