/**
 The passthrough relay (proxy/tcp_proxy.go): handleConn reads once to learn the host,
 replays what it read, and copyContext moves the rest. What the network does is a
 trace of events, one per Read of the copy loop; the client's bytes are a stream, and
 end of file is reported only after the last of them, as TCP does.
 */
module Relay {
  import opened Wire
  import opened Wrappers
  import opened Text
  import opened FastParser
  import opened HostMatching
  import ParserTheorems
  import ParserAgreement
  import SettledInput
  import Msg = ClientHelloMessage

  const PEEK_SIZE := 4096
  const COPY_SIZE := 32 * 1024

  datatype ReadError = NoError | Timeout | Eof | Reset

  /**
   One Read: how many bytes are ready, how it ends, whether the context is cancelled
   by the time it returns, and how many bytes the following Write accepts if it fails.
   */
  datatype Event = Event(ready: nat, error: ReadError, cancelled: bool, writeFault: Option<nat>)

  /** A connection that replays pending before it reads on: the bytes a reader has yet to get. */
  datatype Source = Source(pending: bytes, stream: bytes) {
    function All(): bytes {
      pending + stream
    }
  }

  function Min(a: nat, b: nat): nat {
    if a < b then a else b
  }

  /** A Read of the connection itself. */
  function ReadStream(stream: bytes, size: nat, ready: nat, error: ReadError): (r: (bytes, ReadError, bytes))
    ensures r.0 + r.2 == stream && |r.0| <= size
    ensures r.1.Eof? ==> r.2 == []
  {
    var n := Min(Min(ready, size), |stream|);
    (stream[..n], if error.Eof? && n < |stream| then NoError else error, stream[n..])
  }

  /** A Read of the multi-reader in front of it: the replayed bytes come first and never with an error. */
  function ReadSource(s: Source, size: nat, e: Event): (r: (bytes, ReadError, Source))
    ensures r.0 + r.2.All() == s.All() && |r.0| <= size
    ensures r.1.Eof? ==> r.2.All() == []
  {
    if s.pending != [] then
      var n := Min(size, |s.pending|);
      assert s.pending == s.pending[..n] + s.pending[n..];
      assert s.pending[..n] + (s.pending[n..] + s.stream) == s.pending + s.stream;
      (s.pending[..n], NoError, s.(pending := s.pending[n..]))
    else
      var (b, err, rest) := ReadStream(s.stream, size, e.ready, e.error);
      (b, err, s.(stream := rest))
  }

  /** As many bytes as there are, as are ready and as fit; replayed bytes are always ready. */
  lemma ReadBrings(s: Source, size: nat, e: Event)
    ensures
      var (b, err, rest) := ReadSource(s, size, e);
      if s.pending != [] then err.NoError? && (|b| == size || (|b| < size && b == s.pending))
      else if |s.stream| <= e.ready then |b| == size || (|b| < size && b == s.stream)
      else |b| == size || (|b| < size && |b| == e.ready)
  {
  }

  // ===== copyContext =====================================================

  /** How the copy ends; Running is a copy still waiting when the trace stops. */
  datatype CopyResult = Finished | Canceled | WriteFailed | ReadFailed | Running

  datatype CopyRun = CopyRun(result: CopyResult, written: bytes, rest: Source, readCount: nat)

  /** A run seen from earlier on, after count reads that brought b. */
  function After(b: bytes, count: nat, run: CopyRun): CopyRun {
    run.(written := b + run.written, readCount := count + run.readCount)
  }

  /** What the loop does over a trace, from the check of the context on. */
  function Copy(src: Source, done: bool, trace: seq<Event>): CopyRun
    decreases |trace|
  {
    if done then CopyRun(Canceled, [], src, 0)
    else if trace == [] then CopyRun(Running, [], src, 0)
    else
      var e := trace[0];
      var (b, err, src1) := ReadSource(src, COPY_SIZE, e);
      if b != [] && e.writeFault.Some? then
        CopyRun(WriteFailed, b[..Min(e.writeFault.value, |b|)], src1, 1)
      else
        match err
        case Eof => CopyRun(Finished, b, src1, 1)
        case Reset => CopyRun(ReadFailed, b, src1, 1)
        case _ => After(b, 1, Copy(src1, e.cancelled, trace[1..]))
  }

  lemma CopyEnds(src: Source, trace: seq<Event>)
    ensures Copy(src, true, trace) == CopyRun(Canceled, [], src, 0)
    ensures Copy(src, false, []) == CopyRun(Running, [], src, 0)
  {
  }

  lemma NextEvent(trace: seq<Event>, k: nat)
    requires k < |trace|
    ensures trace[k..] == [trace[k]] + trace[k + 1..]
  {
  }

  /** One turn of the loop that reads b. */
  lemma CopyTurn(src: Source, e: Event, later: seq<Event>, b: bytes, err: ReadError, src1: Source)
    requires (b, err, src1) == ReadSource(src, COPY_SIZE, e)
    ensures
      var run := Copy(src, false, [e] + later);
      var failing := b != [] && e.writeFault.Some?;
      && (failing ==> run == CopyRun(WriteFailed, b[..Min(e.writeFault.value, |b|)], src1, 1))
      && (!failing && err.Eof? ==> run == CopyRun(Finished, b, src1, 1))
      && (!failing && err.Reset? ==> run == CopyRun(ReadFailed, b, src1, 1))
      && (!failing && !err.Eof? && !err.Reset? ==> run == After(b, 1, Copy(src1, e.cancelled, later)))
  {
    hide ReadSource;
    assert ([e] + later)[1..] == later;
  }

  lemma Chain(b: bytes, w: bytes, rest: bytes, tail: bytes, all: bytes)
    requires b + tail == all && w <= tail
    ensures b + w <= all
    ensures w + rest == tail ==> (b + w) + rest == all
    ensures w == tail ==> b + w == all
  {
    assert tail == w + tail[|w|..];
    assert all == (b + w) + tail[|w|..];
  }

  lemma PartOfRead(b: bytes, k: nat, tail: bytes, all: bytes)
    requires b + tail == all && k <= |b|
    ensures b[..k] <= all
  {
    assert all == b[..k] + (b[k..] + tail);
  }

  /**
   What has been written is at every moment a prefix of everything there was to read,
   replayed bytes included; without a failed write nothing read is missing from it, and
   a nil return means it is the whole stream.
   */
  lemma {:induction false} CopyConserves(src: Source, done: bool, trace: seq<Event>)
    ensures
      var run := Copy(src, done, trace);
      && run.written <= src.All()
      && (!run.result.WriteFailed? ==> run.written + run.rest.All() == src.All())
      && (run.result.Finished? ==> run.written == src.All())
    decreases |trace|
  {
    hide ReadSource, Copy;
    if done || trace == [] {
      CopyEnds(src, trace);
      Chain([], [], src.All(), src.All(), src.All());
    } else {
      var e, later := trace[0], trace[1..];
      var (b, err, src1) := ReadSource(src, COPY_SIZE, e);
      assert trace == [e] + later;
      CopyTurn(src, e, later, b, err, src1);
      CopyConserves(src1, e.cancelled, later);
      var run := Copy(src1, e.cancelled, later);
      Chain(b, run.written, run.rest.All(), src1.All(), src.All());
      Chain(b, [], src1.All(), src1.All(), src.All());
      PartOfRead(b, if e.writeFault.Some? then Min(e.writeFault.value, |b|) else 0, src1.All(), src.All());
    }
  }

  /** Nothing but the end of the stream can end a copy over this trace. */
  predicate Healthy(trace: seq<Event>) {
    forall i | 0 <= i < |trace| :: !trace[i].cancelled && trace[i].writeFault.None? && !trace[i].error.Reset?
  }

  /** How many of the events bring bytes, if there are any left. */
  function Helpful(trace: seq<Event>): nat {
    if trace == [] then 0 else (if trace[0].ready > 0 then 1 else 0) + Helpful(trace[1..])
  }

  lemma NoErrorRun(src: Source, e: Event, later: seq<Event>)
    requires !e.cancelled && e.writeFault.None? && !e.error.Reset?
    ensures
      var (b, err, src1) := ReadSource(src, COPY_SIZE, e);
      var run := Copy(src, false, [e] + later);
      && (err.Eof? ==> run == CopyRun(Finished, b, src1, 1))
      && (!err.Eof? ==> run == After(b, 1, Copy(src1, false, later)))
  {
    hide Copy;
    var (b, err, src1) := ReadSource(src, COPY_SIZE, e);
    CopyTurn(src, e, later, b, err, src1);
  }

  lemma HelpfulReadBrings(src: Source, e: Event)
    requires src.All() != [] && e.ready > 0
    ensures |ReadSource(src, COPY_SIZE, e).2.All()| < |src.All()|
  {
    var (b, err, src1) := ReadSource(src, COPY_SIZE, e);
    assert b + src1.All() == src.All();
  }

  lemma EofEnds(src: Source, e: Event)
    requires src.All() == [] && e.error.Eof?
    ensures ReadSource(src, COPY_SIZE, e) == ([], Eof, src)
  {
  }

  /**
   Bytes move: over events none of which fails, idle timeouts between them or not, once
   as many have had something ready as there are bytes, replayed ones included, and the
   end of the stream is then reported, the copy has returned nil and everything is written.
   */
  lemma {:induction false} CopyDelivers(src: Source, trace: seq<Event>, k: nat)
    requires Healthy(trace) && k < |trace| && trace[k].error.Eof?
    requires Helpful(trace[..k]) >= |src.All()|
    ensures
      var run := Copy(src, false, trace);
      run.result.Finished? && run.written == src.All()
    decreases |trace|
  {
    hide ReadSource, Copy;
    var e, later := trace[0], trace[1..];
    assert trace == [e] + later;
    var (b, err, src1) := ReadSource(src, COPY_SIZE, e);
    NoErrorRun(src, e, later);
    if !err.Eof? {
      if k == 0 {
        EofEnds(src, e);
      } else {
        assert trace[..k][0] == e && trace[..k][1..] == later[..k - 1];
        if src.All() != [] && e.ready > 0 {
          HelpfulReadBrings(src, e);
        }
        assert |src1.All()| <= |src.All()| - |b|;
        CopyDelivers(src1, later, k - 1);
      }
    }
    CopyConserves(src, false, trace);
  }

  /** Which event ended the copy: each result has its own kind of last event, and Running has none. */
  lemma {:induction false} ResultNamesLastEvent(src: Source, trace: seq<Event>)
    ensures
      var run := Copy(src, false, trace);
      var n := run.readCount;
      && n <= |trace|
      && (run.result.Running? ==> n == |trace|)
      && (run.result.Canceled? ==> n > 0 && trace[n - 1].cancelled)
      && (run.result.Finished? ==> n > 0 && trace[n - 1].error.Eof?)
      && (run.result.ReadFailed? ==> n > 0 && trace[n - 1].error.Reset?)
      && (run.result.WriteFailed? ==> n > 0 && trace[n - 1].writeFault.Some?)
    decreases |trace|
  {
    hide ReadSource, Copy;
    if trace == [] {
      CopyEnds(src, trace);
    } else {
      var e, later := trace[0], trace[1..];
      assert trace == [e] + later;
      var (b, err, src1) := ReadSource(src, COPY_SIZE, e);
      CopyTurn(src, e, later, b, err, src1);
      ErrorIsTheEvents(src, e);
      if e.cancelled {
        CopyEnds(src1, later);
      } else {
        ResultNamesLastEvent(src1, later);
      }
    }
  }

  lemma ErrorIsTheEvents(src: Source, e: Event)
    ensures var err := ReadSource(src, COPY_SIZE, e).1; err.NoError? || err == e.error
  {
  }

  /** A reset of the connection ends the copy at once: no event is read after one that carries it. */
  lemma {:induction false} ResetEndsCopy(src: Source, trace: seq<Event>, i: nat)
    requires |src.pending| <= COPY_SIZE && i < |trace| && i < Copy(src, false, trace).readCount
    requires trace[i].error.Reset?
    requires i > 0 || src.pending == []
    ensures i + 1 == Copy(src, false, trace).readCount
    decreases |trace|
  {
    hide ReadSource, Copy;
    OneReadAfterCancel(src, false, trace);
    if trace == [] {
      CopyEnds(src, trace);
    } else {
      var e, later := trace[0], trace[1..];
      assert trace == [e] + later;
      var (b, err, src1) := ReadSource(src, COPY_SIZE, e);
      CopyTurn(src, e, later, b, err, src1);
      PendingIsReplayedAtOnce(src, e);
      if i > 0 {
        if e.cancelled {
          CopyEnds(src1, later);
        } else {
          ResetEndsCopy(src1, later, i - 1);
        }
      }
    }
  }

  lemma PendingIsReplayedAtOnce(src: Source, e: Event)
    requires |src.pending| <= COPY_SIZE
    ensures ReadSource(src, COPY_SIZE, e).2.pending == []
    ensures src.pending == [] && e.error.Reset? ==> ReadSource(src, COPY_SIZE, e).1.Reset?
  {
  }

  /** No read follows the one during which the context was cancelled, nor any at all if it was cancelled before. */
  lemma {:induction false} OneReadAfterCancel(src: Source, done: bool, trace: seq<Event>)
    ensures
      var run := Copy(src, done, trace);
      && run.readCount <= |trace| && (done ==> run.readCount == 0)
      && forall i | 0 <= i && i + 1 < run.readCount :: !trace[i].cancelled
    decreases |trace|
  {
    hide ReadSource;
    if !done && trace != [] {
      var e := trace[0];
      var (b, err, src1) := ReadSource(src, COPY_SIZE, e);
      if !(b != [] && e.writeFault.Some?) && !err.Eof? && !err.Reset? {
        OneReadAfterCancel(src1, e.cancelled, trace[1..]);
        var run := Copy(src1, e.cancelled, trace[1..]);
        forall i | 0 <= i && i + 1 < 1 + run.readCount ensures !trace[i].cancelled {
          if i > 0 {
            assert trace[i] == trace[1..][i - 1];
          }
        }
      }
    }
  }

  /** What was written when only part of the trace had happened is a prefix of what is written in the end. */
  lemma {:induction false} WrittenGrows(src: Source, done: bool, trace: seq<Event>, k: nat)
    requires k <= |trace|
    ensures Copy(src, done, trace[..k]).written <= Copy(src, done, trace).written
    decreases |trace|
  {
    hide ReadSource;
    if !done && trace != [] && k > 0 {
      var e := trace[0];
      var (b, err, src1) := ReadSource(src, COPY_SIZE, e);
      assert trace[..k][0] == e && trace[..k][1..] == trace[1..][..k - 1];
      if !(b != [] && e.writeFault.Some?) && !err.Eof? && !err.Reset? {
        WrittenGrows(src1, e.cancelled, trace[1..], k - 1);
        var part, whole := Copy(src1, e.cancelled, trace[1..][..k - 1]), Copy(src1, e.cancelled, trace[1..]);
        assert (b + whole.written)[..|b + part.written|] == b + part.written;
      }
    }
  }

  /** A timeout that found no byte to read and no cancellation. */
  predicate Idle(src: Source, e: Event) {
    src.pending == [] && e.error.Timeout? && (e.ready == 0 || src.stream == []) && !e.cancelled
  }

  /** The trace without its idle timeouts. */
  function Brisk(src: Source, trace: seq<Event>): (r: seq<Event>)
    ensures |r| <= |trace|
    decreases |trace|
  {
    if trace == [] then []
    else if Idle(src, trace[0]) then Brisk(src, trace[1..])
    else [trace[0]] + Brisk(ReadSource(src, COPY_SIZE, trace[0]).2, trace[1..])
  }

  /** However often the connection idles in between, the copy moves the same bytes and ends the same way. */
  lemma {:induction false} IdlingChangesNothing(src: Source, trace: seq<Event>)
    ensures
      var run, brisk := Copy(src, false, trace), Copy(src, false, Brisk(src, trace));
      run.result == brisk.result && run.written == brisk.written && run.rest == brisk.rest
    decreases |trace|
  {
    if trace != [] {
      var e, later := trace[0], trace[1..];
      var (b, err, src1) := ReadSource(src, COPY_SIZE, e);
      assert trace == [e] + later;
      CopyTurn(src, e, later, b, err, src1);
      if Idle(src, e) {
        IdleRead(src, e);
        IdlingChangesNothing(src, later);
      } else {
        CopyTurn(src, e, Brisk(src1, later), b, err, src1);
        if !e.cancelled {
          IdlingChangesNothing(src1, later);
        }
      }
    }
  }

  lemma IdleRead(src: Source, e: Event)
    requires Idle(src, e)
    ensures ReadSource(src, COPY_SIZE, e) == ([], Timeout, src)
  {
  }

  lemma AfterNothing(run: CopyRun)
    ensures After([], 0, run) == run
  {
  }

  lemma AfterTwice(w: bytes, n: nat, b: bytes, run: CopyRun)
    ensures After(w, n, After(b, 1, run)) == After(w + b, n + 1, run)
  {
    assert w + (b + run.written) == (w + b) + run.written;
  }

  // ----- the code -------------------------------------------------------

  class Conn {
    var stream: bytes    // what the peer has sent or will send, not yet read
    var received: bytes  // what has been written to the peer

    constructor (sent: bytes)
      ensures stream == sent && received == []
    {
      stream, received := sent, [];
    }

    method Read(size: nat, ready: nat, error: ReadError) returns (b: bytes, err: ReadError)
      modifies this`stream
      ensures (b, err, stream) == ReadStream(old(stream), size, ready, error)
    {
      var n := Min(Min(ready, size), |stream|);
      b := stream[..n];
      err := if error.Eof? && n < |stream| then NoError else error;
      stream := stream[n..];
    }

    method Write(b: bytes, fault: Option<nat>) returns (ok: bool)
      modifies this`received
      ensures ok == fault.None?
      ensures received == old(received) + (if ok then b else b[..Min(fault.value, |b|)])
    {
      ok := fault.None?;
      received := received + if ok then b else b[..Min(fault.value, |b|)];
    }
  }

  class PrependReaderConn {
    const conn: Conn
    var pending: bytes

    constructor (replayed: bytes, conn: Conn)
      ensures this.conn == conn && pending == replayed
    {
      this.conn, pending := conn, replayed;
    }

    ghost function Value(): Source
      reads this, conn
    {
      Source(pending, conn.stream)
    }

    method Read(size: nat, e: Event) returns (b: bytes, err: ReadError)
      modifies this, conn`stream
      ensures (b, err, Value()) == ReadSource(old(Value()), size, e)
    {
      if pending != [] {
        var n := Min(size, |pending|);
        b, err := pending[..n], NoError;
        pending := pending[n..];
      } else {
        b, err := conn.Read(size, e.ready, e.error);
      }
    }
  }

  method CopyContext(done: bool, dst: Conn, src: PrependReaderConn, trace: seq<Event>)
    returns (r: CopyResult, readCount: nat)
    requires dst != src.conn
    modifies src, src.conn`stream, dst`received
    ensures
      var run := Copy(old(src.Value()), done, trace);
      && r == run.result && readCount == run.readCount
      && dst.received == old(dst.received) + run.written
      && src.Value() == run.rest
  {
    hide ReadSource, Copy, Min;
    var cancelled := done;
    readCount := 0;
    ghost var goal := Copy(src.Value(), done, trace);
    ghost var before := dst.received;
    ghost var written := [];
    assert trace[0..] == trace;
    AfterNothing(goal);
    while true
      invariant readCount <= |trace| && dst.received == before + written
      invariant goal == After(written, readCount, Copy(src.Value(), cancelled, trace[readCount..]))
      decreases |trace| - readCount
    {
      CopyEnds(src.Value(), trace[readCount..]);
      if cancelled {
        return Canceled, readCount;
      }
      if readCount == |trace| {
        return Running, readCount;
      }
      NextEvent(trace, readCount);
      var e := trace[readCount];
      ghost var at, w, n, later := src.Value(), written, readCount, trace[readCount + 1..];
      var b, err := src.Read(COPY_SIZE, e);
      CopyTurn(at, e, later, b, err, src.Value());
      readCount := readCount + 1;
      if |b| > 0 {
        var ok := dst.Write(b, e.writeFault);
        if !ok {
          return WriteFailed, readCount;
        }
      }
      written := written + b;
      cancelled := e.cancelled;
      if !err.NoError? {
        if err.Timeout? {
          AfterTwice(w, n, b, Copy(src.Value(), cancelled, later));
          continue;
        }
        return if err.Eof? then Finished else ReadFailed, readCount;
      }
      AfterTwice(w, n, b, Copy(src.Value(), cancelled, later));
    }
  }

  // ===== handleConn ======================================================

  datatype Decision = Panics | Unrouted | Routed(route: nat)

  /** Go's conversion of bytes to a string, byte for byte. */
  function AsString(b: bytes): (s: string)
    ensures |s| == |b| && forall i | 0 <= i < |s| :: s[i] as int == b[i]
  {
    seq(|b|, i requires 0 <= i < |b| => b[i] as char)
  }

  function RouteFor(host: string, routes: seq<Route>): Decision {
    var r := FirstMatch(Normalize(host), routes);
    if r.Some? then Routed(r.value) else Unrouted
  }

  /** The route chosen from the bytes of one read. */
  function Decide(data: bytes, routes: seq<Route>): Decision {
    match Slice(data, Locate(data))
    case IndexPanic => Panics
    case NoName => RouteFor("", routes)
    case Found(name) => RouteFor(AsString(name), routes)
  }

  /** The first reads that make the goroutine panic, and those without a name, which go where an empty name goes. */
  lemma ShortHelloPanics(data: bytes, routes: seq<Route>)
    ensures Decide(data, routes) == Panics <==> |data| == 43 && data[0] == 0x16 && data[5] != 0x16
    ensures Locate(data) == NoName ==> Decide(data, routes) == RouteFor("", routes)
  {
    hide Locate, FirstMatch, Normalize, AsString;
    ParserAgreement.PanicsExactlyAt43(data);
  }

  /** The client's first bytes being a ClientHello, the route is that of the name it asks for first. */
  lemma {:induction false} RoutedByServerName(data: bytes, m: Msg.Message, routes: seq<Route>)
    requires ParserTheorems.Carries(data, m)
    ensures
      var name := ParserAgreement.MessageFirstName(m);
      Decide(data, routes) == RouteFor(if name.Found? then AsString(name.value) else "", routes)
  {
    ParserAgreement.ExtractInvertsEncode(data, m);
  }

  predicate FoldsTo(name: bytes, host: string) {
    && |name| == |host|
    && forall k | 0 <= k < |name| :: host[k] as int == if 65 <= name[k] <= 90 then name[k] as int + 32 else name[k] as int
  }

  lemma FoldedLower(name: bytes, host: string)
    requires FoldsTo(name, host)
    ensures ToLower(AsString(name)) == host
  {
    hide ToLower, AsString, LowerChar;
    var s := AsString(name);
    LowerLength(s);
    forall k | 0 <= k < |s| ensures ToLower(s)[k] == host[k] {
      ToLowerMeaning(s, k);
    }
  }

  /** Server name and route host agree byte for byte, upper-case letters of the name counting as lower-case ones. */
  lemma FoldedNameNormalizes(name: bytes, host: string)
    requires FoldsTo(name, host) && IsNormal(host)
    ensures Normalize(AsString(name)) == host
  {
    hide Normalize, ToLower, TrimSpace, AsString, FoldsTo, IsNormal;
    var s := AsString(name);
    FoldedLower(name, host);
    if s != [] {
      FoldedEnd(name, host, 0);
      FoldedEnd(name, host, |s| - 1);
    }
    NoBlanks();
    NormalizeMeaning([], s, []);
    assert [] + s + [] == s;
  }

  lemma NoBlanks()
    ensures IsBlank([])
  {
  }

  lemma LowerLength(s: string)
    ensures |ToLower(s)| == |s|
  {
  }

  lemma FoldedEnd(name: bytes, host: string, k: nat)
    requires FoldsTo(name, host) && IsNormal(host) && k < |name| && (k == 0 || k == |name| - 1)
    ensures !Blank(AsString(name)[k])
  {
    hide AsString;
    assert !IsSpace(host[k]);
  }

  /** A whole ClientHello of up to 4096 bytes that the first read brings is in the bytes the decision sees. */
  lemma FirstReadCarries(stream: bytes, first: Event, m: Msg.Message)
    requires m.block.Present? && Msg.Fits(m) && Msg.Encode(m) <= stream
    requires |Msg.Encode(m)| <= 4096 && first.ready >= |Msg.Encode(m)|
    ensures ParserTheorems.Carries(ReadStream(stream, PEEK_SIZE, first.ready, first.error).0, m)
  {
    hide Msg.Encode, Msg.Fits;
    var (data, err, rest) := ReadStream(stream, PEEK_SIZE, first.ready, first.error);
    assert data == stream[..|data|];
    assert |data| >= |Msg.Encode(m)|;
  }

  /**
   From bytes to route: if the first read brings an encoded ClientHello of up to 4096
   bytes, the first name it asks for is a route's host byte for byte, case aside, and no
   earlier route's host takes that name, the connection goes to that route.
   */
  lemma FirstReadRoutes(stream: bytes, first: Event, m: Msg.Message, name: bytes, routes: seq<Route>, i: nat)
    requires m.block.Present? && Msg.Fits(m) && Msg.Encode(m) <= stream
    requires |Msg.Encode(m)| <= 4096 && first.ready >= |Msg.Encode(m)|
    requires ParserAgreement.MessageFirstName(m) == Found(name)
    requires i < |routes| && FoldsTo(name, Normalize(routes[i].host))
    requires forall j | 0 <= j < i :: !MatchHost(Normalize(routes[i].host), routes[j].host)
    ensures Decide(ReadStream(stream, PEEK_SIZE, first.ready, first.error).0, routes) == Routed(i)
  {
    hide Msg.Encode, Msg.Fits, ParserTheorems.Carries, ParserAgreement.MessageFirstName;
    hide ReadStream, Decide, Normalize, AsString;
    var data := ReadStream(stream, PEEK_SIZE, first.ready, first.error).0;
    FirstReadCarries(stream, first, m);
    RoutedByServerName(data, m, routes);
    NormalizeIsNormal(routes[i].host);
    var host := Normalize(routes[i].host);
    FoldedNameNormalizes(name, host);
    assert MatchHost(host, routes[i].host);
  }

  /** A settled first read decides the route for good: a longer read would not have changed it. */
  lemma {:induction false} OneReadDecides(p: bytes, q: bytes, routes: seq<Route>)
    requires SettledInput.Settled(p)
    ensures Decide(p + q, routes) == Decide(p, routes)
  {
    hide SettledInput.Settled, Locate;
    SettledInput.SettledStays(p, q);
  }

  /** What the peek consumed and the relay replays is the client's stream, from its first byte on. */
  lemma RelayDeliversStream(stream: bytes, first: Event, done: bool, trace: seq<Event>)
    ensures
      var (data, err, rest) := ReadStream(stream, PEEK_SIZE, first.ready, first.error);
      var run := Copy(Source(data, rest), done, trace);
      && run.written <= stream
      && (!run.result.WriteFailed? ==> run.written + run.rest.All() == stream)
      && (run.result.Finished? ==> run.written == stream)
  {
    var (data, err, rest) := ReadStream(stream, PEEK_SIZE, first.ready, first.error);
    CopyConserves(Source(data, rest), done, trace);
  }

  /** The relay of a connection whose client's bytes all arrive: upstream receives every one of them. */
  lemma RelayDeliversWhole(stream: bytes, first: Event, trace: seq<Event>, k: nat)
    requires Healthy(trace) && k < |trace| && trace[k].error.Eof? && Helpful(trace[..k]) >= |stream|
    ensures
      var (data, err, rest) := ReadStream(stream, PEEK_SIZE, first.ready, first.error);
      var run := Copy(Source(data, rest), false, trace);
      run.result.Finished? && run.written == stream
  {
    hide Copy;
    var (data, err, rest) := ReadStream(stream, PEEK_SIZE, first.ready, first.error);
    CopyDelivers(Source(data, rest), trace, k);
  }

  datatype ConnResult =
    | Dropped
    | IndexPanicked
    | NoRoute
    | DialFailed(route: nat)
    | HeaderFailed(route: nat)
    | Relayed(route: nat, result: CopyResult)
    | Terminated(route: nat)

  predicate ProxyProtocolEnabled(pp: string) {
    pp == "1" || pp == "2"
  }

  /**
   One accepted connection. upstream is the connection dialling gives, if it succeeds;
   header and headerFault are the PROXY protocol header and what its write comes to.
   A terminated connection is handed on as the replaying connection.
   */
  method HandleConn(
    conn: Conn, routes: seq<Route>, first: Event, upstream: Option<Conn>,
    header: bytes, headerFault: Option<nat>, done: bool, trace: seq<Event>)
    returns (out: ConnResult, handedOn: Option<PrependReaderConn>)
    requires upstream.Some? ==> upstream.value != conn
    modifies conn`stream, if upstream.Some? then {upstream.value} else {}
    ensures out.Relayed? ==> out.route < |routes|
    ensures
      var (data, err, rest) := ReadStream(old(conn.stream), PEEK_SIZE, first.ready, first.error);
      if !err.NoError? then out == Dropped
      else
        match Decide(data, routes)
        case Panics => out == IndexPanicked
        case Unrouted => out == NoRoute
        case Routed(i) =>
          if !routes[i].noTLSTermination then
            out == Terminated(i) && handedOn.Some? && handedOn.value.Value() == Source(data, rest)
          else if upstream.None? then out == DialFailed(i)
          else if ProxyProtocolEnabled(routes[i].proxyProtocol) && headerFault.Some? then out == HeaderFailed(i)
          else
            var run := Copy(Source(data, rest), done, trace);
            && out == Relayed(i, run.result)
            && upstream.value.received == old(upstream.value.received)
                + (if ProxyProtocolEnabled(routes[i].proxyProtocol) then header else []) + run.written
    ensures handedOn.Some? <==> out.Terminated?
    ensures out.Terminated? ==> handedOn.value.Value().All() == old(conn.stream)
    ensures out.Relayed? && out.result.Finished? ==>
        upstream.value.received == old(upstream.value.received)
            + (if routes[out.route].proxyProtocol in {"1", "2"} then header else []) + old(conn.stream)
    ensures out.HeaderFailed? ==>
        && upstream.Some? && headerFault.Some?
        && upstream.value.received == old(upstream.value.received) + header[..Min(headerFault.value, |header|)]
    ensures !out.Relayed? && !out.HeaderFailed? && upstream.Some? ==>
        upstream.value.received == old(upstream.value.received)
  {
    hide Copy, Locate, Slice, FirstMatch, Normalize, AsString, ReadStream;
    handedOn := None;
    var data, err := conn.Read(PEEK_SIZE, first.ready, first.error);
    if !err.NoError? {
      return Dropped, None;
    }
    var sni := ExtractSNI(data);
    if sni.IndexPanic? {
      return IndexPanicked, None;
    }
    var host := if sni.Found? then AsString(sni.value) else "";
    var matched := MatchRouteBySNI(host, routes);
    if matched.None? {
      return NoRoute, None;
    }
    var route := routes[matched.value];
    var wrapped := new PrependReaderConn(data, conn);
    if !route.noTLSTermination {
      return Terminated(matched.value), Some(wrapped);
    }
    if upstream.None? {
      return DialFailed(matched.value), None;
    }
    var dst := upstream.value;
    if ProxyProtocolEnabled(route.proxyProtocol) {
      var ok := dst.Write(header, headerFault);
      if !ok {
        return HeaderFailed(matched.value), None;
      }
    }
    RelayDeliversStream(old(conn.stream), first, done, trace);
    var r, _ := CopyContext(done, dst, wrapped, trace);
    out := Relayed(matched.value, r);
  }
}
