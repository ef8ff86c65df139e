/**
 Bytes on the wire: big-endian 16-bit fields and the statement that a chunk of
 bytes sits at a given offset of a buffer.
 */
module Wire {
  type byte = x: int | 0 <= x < 0x100
  type uint16 = x: int | 0 <= x < 0x1_0000
  type bytes = seq<byte>

  /** A half-open interval of buffer positions: what a Go slice of the buffer denotes. */
  datatype Range = Range(lo: nat, hi: nat)

  function U16(s: bytes, pos: nat): (n: uint16)
    requires pos + 2 <= |s|
  {
    s[pos] as int * 0x100 + s[pos + 1]
  }

  /** The encoder's fields keep the low-order bits, so a value is recovered exactly when it fits. */
  function PutU8(n: nat): (s: bytes)
    ensures |s| == 1 && (n < 0x100 ==> s[0] == n)
  {
    [n % 0x100]
  }

  function PutU16(n: nat): (s: bytes)
    ensures |s| == 2 && (n < 0x1_0000 ==> U16(s, 0) == n)
  {
    [n / 0x100 % 0x100, n % 0x100]
  }

  /** The chunk occupies the buffer from pos on; what surrounds it is unconstrained. */
  ghost predicate At(buf: bytes, pos: nat, chunk: bytes) {
    pos <= |buf| && chunk <= buf[pos..]
  }

  lemma AtSlice(buf: bytes, pos: nat, chunk: bytes)
    ensures At(buf, pos, chunk) <==> pos + |chunk| <= |buf| && buf[pos..pos + |chunk|] == chunk
  {
    if pos + |chunk| <= |buf| {
      assert buf[pos..pos + |chunk|] == buf[pos..][..|chunk|];
    }
  }

  lemma AtSplit(buf: bytes, pos: nat, a: bytes, b: bytes)
    requires At(buf, pos, a + b)
    ensures pos + |a| + |b| <= |buf| && At(buf, pos, a) && At(buf, pos + |a|, b)
  {
    var s := buf[pos..];
    assert s[..|a + b|] == a + b;
    assert s[..|a|] == a;
    assert buf[pos + |a|..] == s[|a|..];
    assert s[|a|..][..|b|] == (a + b)[|a|..] == b;
  }

  lemma AtU16(buf: bytes, pos: nat, n: nat)
    requires n < 0x1_0000 && At(buf, pos, PutU16(n))
    ensures pos + 2 <= |buf| && U16(buf, pos) == n
  {
    AtSlice(buf, pos, PutU16(n));
    assert PutU16(n)[0] == buf[pos] && PutU16(n)[1] == buf[pos + 1];
  }

  lemma AtU8(buf: bytes, pos: nat, n: nat)
    requires n < 0x100 && At(buf, pos, PutU8(n))
    ensures pos < |buf| && buf[pos] == n
  {
    AtSlice(buf, pos, PutU8(n));
    assert PutU8(n)[0] == buf[pos];
  }

  /** Two length fields, what they introduce, and what follows. */
  lemma AtHeader(buf: bytes, pos: nat, t: nat, n: nat, d: bytes, rest: bytes)
    requires t < 0x1_0000 && n < 0x1_0000
    requires At(buf, pos, PutU16(t) + PutU16(n) + d + rest)
    ensures pos + 4 + |d| + |rest| <= |buf|
    ensures U16(buf, pos) == t && U16(buf, pos + 2) == n
    ensures At(buf, pos + 4, d) && At(buf, pos + 4 + |d|, rest)
  {
    var head := PutU16(t) + PutU16(n);
    AtSplit(buf, pos, head + d, rest);
    AtSplit(buf, pos, head, d);
    AtSplit(buf, pos, PutU16(t), PutU16(n));
    AtU16(buf, pos, t);
    AtU16(buf, pos + 2, n);
  }

  lemma U16Prefix(s: bytes, q: bytes, pos: nat)
    requires pos + 2 <= |s|
    ensures U16(s + q, pos) == U16(s, pos)
  {
  }

  lemma U16Drop(s: bytes, k: nat, pos: nat)
    requires k + pos + 2 <= |s|
    ensures U16(s[k..], pos) == U16(s, k + pos)
  {
  }

  lemma SliceOfSlice(s: bytes, lo: nat, hi: nat, a: nat, b: nat)
    requires lo <= hi <= |s| && a <= b <= hi - lo
    ensures s[lo..hi][a..b] == s[lo + a..lo + b]
  {
    var d := s[lo..hi];
    assert forall i | 0 <= i < b - a :: d[a..b][i] == d[a + i] == s[lo + a + i] == s[lo + a..lo + b][i];
  }
}
