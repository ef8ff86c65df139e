/**
 ExtractSNI (crypto/tls/extract_sni.go): the allocation-free walk that finds the
 first host name of a ClientHello. The functions say where in the buffer it
 looks; the methods are the code. An index outside its slice, which Go turns
 into a panic, is an outcome of its own.
 */
module FastParser {
  import opened Wire

  datatype Outcome<+T> = IndexPanic | NoName | Found(value: T)

  const TLS_HANDSHAKE: byte := 0x16
  const HELLO_SIZE := 1 + 3 + 2 + 32
  const SNI_MIN_HEADER_SIZE := 5

  predicate IsTLSHandshake(data: bytes) {
    |data| >= 9 && data[0] == TLS_HANDSHAKE && data[5] != TLS_HANDSHAKE
  }

  /** Position of the extension block; the comparison before the first index is the source's. */
  function SkipClientHelloHeaders(handshake: bytes): (r: Outcome<nat>)
    ensures r.Found? ==> r.value + 2 <= |handshake|
    ensures r.IndexPanic? <==> |handshake| == HELLO_SIZE
  {
    if HELLO_SIZE > |handshake| then NoName
    else if HELLO_SIZE == |handshake| then IndexPanic
    else
      var p1 := HELLO_SIZE + 1 + handshake[HELLO_SIZE];
      if p1 + 2 > |handshake| then NoName
      else
        var p2 := p1 + 2 + U16(handshake, p1);
        if p2 + 1 > |handshake| then NoName
        else
          var p3 := p2 + 1 + handshake[p2];
          if p3 + 2 > |handshake| then NoName else Found(p3)
  }

  /** The name of the first list entry of the extension data s[lo..hi]. */
  function FirstEntry(s: bytes, lo: nat, hi: nat): (r: Outcome<Range>)
    requires lo <= hi <= |s|
    ensures !r.IndexPanic?
    ensures r.Found? ==> lo + 5 == r.value.lo <= r.value.hi <= hi
  {
    if hi - lo < SNI_MIN_HEADER_SIZE || s[lo + 2] != 0 then NoName
    else
      var nameEnd := lo + SNI_MIN_HEADER_SIZE + U16(s, lo + 3);
      if nameEnd > hi then NoName else Found(Range(lo + SNI_MIN_HEADER_SIZE, nameEnd))
  }

  /** The name in the first type-0 extension reached from pos, extensions being bounded by |s|. */
  function FirstServerName(s: bytes, pos: nat, end: nat): (r: Outcome<Range>)
    requires end <= |s|
    ensures !r.IndexPanic?
    ensures r.Found? ==> pos + 9 <= r.value.lo <= r.value.hi <= |s|
    decreases end - pos
  {
    if pos + 4 > end then NoName
    else
      var next := pos + 4 + U16(s, pos + 2);
      if next > |s| then NoName
      else if U16(s, pos) == 0 then FirstEntry(s, pos + 4, next)
      else FirstServerName(s, next, end)
  }

  function NameFromExtensions(handshake: bytes, pos: nat): (r: Outcome<Range>)
    ensures !r.IndexPanic?
    ensures r.Found? ==> r.value.lo <= r.value.hi <= |handshake|
  {
    if pos + 2 > |handshake| then NoName
    else
      var end := pos + 2 + U16(handshake, pos);
      if end > |handshake| then NoName else FirstServerName(handshake, pos + 2, end)
  }

  function Shift(r: Outcome<Range>, k: nat): (s: Outcome<Range>)
    requires r.Found? ==> r.value.lo <= r.value.hi
  {
    match r
    case Found(x) => Found(Range(x.lo + k, x.hi + k))
    case _ => r
  }

  /** Where in data the name returned by ExtractSNI lies. */
  function Locate(data: bytes): (r: Outcome<Range>)
    ensures r.Found? ==> r.value.lo <= r.value.hi <= |data|
  {
    if !IsTLSHandshake(data) then NoName
    else
      match SkipClientHelloHeaders(data[5..])
      case Found(pos) => Shift(NameFromExtensions(data[5..], pos), 5)
      case IndexPanic => IndexPanic
      case NoName => NoName
  }

  function Slice(s: bytes, r: Outcome<Range>): Outcome<bytes>
    requires r.Found? ==> r.value.lo <= r.value.hi <= |s|
  {
    match r
    case Found(x) => Found(s[x.lo..x.hi])
    case IndexPanic => IndexPanic
    case NoName => NoName
  }

  method ParseSNIExtension(sniData: bytes) returns (r: Outcome<bytes>)
    ensures r == Slice(sniData, FirstEntry(sniData, 0, |sniData|))
  {
    if |sniData| < 5 {
      return NoName;
    }
    if sniData[2] != 0 {
      return NoName;
    }
    var nameLen := U16(sniData, 3) + SNI_MIN_HEADER_SIZE;
    if nameLen > |sniData| {
      return NoName;
    }
    r := Found(sniData[5..nameLen]);
  }

  lemma EntryOfSlice(s: bytes, lo: nat, hi: nat)
    requires lo <= hi <= |s|
    ensures Slice(s[lo..hi], FirstEntry(s[lo..hi], 0, hi - lo)) == Slice(s, FirstEntry(s, lo, hi))
  {
    var d := s[lo..hi];
    if hi - lo >= 5 {
      assert U16(d, 3) == U16(s, lo + 3);
      if 5 + U16(d, 3) <= hi - lo {
        SliceOfSlice(s, lo, hi, 5, 5 + U16(d, 3));
      }
    }
  }

  method ExtractSNIFromExtensions(handshake: bytes, start: nat) returns (r: Outcome<bytes>)
    ensures r == Slice(handshake, NameFromExtensions(handshake, start))
  {
    hide U16;
    var pos := start;
    if pos + 2 > |handshake| {
      return NoName;
    }
    var extLen := U16(handshake, pos);
    pos := pos + 2;
    if pos > |handshake| {
      return NoName;
    }
    var end := pos + extLen;
    if end > |handshake| {
      return NoName;
    }
    while pos + 4 <= end
      invariant FirstServerName(handshake, pos, end) == FirstServerName(handshake, start + 2, end)
      decreases end - pos
    {
      var extType := U16(handshake, pos);
      var extDataLen := U16(handshake, pos + 2);
      pos := pos + 4;
      if pos + extDataLen > |handshake| {
        break;
      }
      if extType == 0x00 {
        EntryOfSlice(handshake, pos, pos + extDataLen);
        r := ParseSNIExtension(handshake[pos..pos + extDataLen]);
        return;
      }
      pos := pos + extDataLen;
    }
    r := NoName;
  }

  method ExtractSNI(data: bytes) returns (r: Outcome<bytes>)
    ensures r == Slice(data, Locate(data))
  {
    if !IsTLSHandshake(data) {
      return NoName;
    }
    var handshake := data[5..];
    var skipped := SkipClientHelloHeaders(handshake);
    match skipped {
      case IndexPanic => r := IndexPanic;
      case NoName => r := NoName;
      case Found(pos) =>
        r := ExtractSNIFromExtensions(handshake, pos);
        var at := NameFromExtensions(handshake, pos);
        if at.Found? {
          assert handshake[at.value.lo..at.value.hi] == data[at.value.lo + 5..at.value.hi + 5];
        }
    }
  }
}
