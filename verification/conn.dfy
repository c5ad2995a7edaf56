/**
 One client connection and `handle_event`, the step it takes on a
 readiness event: a write phase that sends the reply to the buffered bytes,
 then a read phase that drains the socket into the buffer.
 */
module Handler {
  import opened Utf8
  import opened Reply
  import opened Io

  /** The size the buffer is reset to when a read phase starts, and the
      step it grows by when a read fills it. */
  const Chunk: nat := 4096

  /** `Conn`: the socket, the buffer and the count of valid bytes in it. */
  datatype Conn = Conn(stream: Stream, buf: seq<byte>, bufLen: nat)

  /** The connection and registrations after an event, and whether the
      connection is finished (the `Ok(true)` of `handle_event`). */
  datatype Handled = Handled(reg: Registry, conn: Conn, done: bool)

  /** The variables of the read loop: the registrations, `conn.buf`,
      `bytes_read`, `conn.buf_len` and the socket. */
  datatype DrainState = DrainState(reg: Registry, buf: seq<byte>, bytesRead: nat, bufLen: nat, stream: Stream)

  /** Where one iteration of the read loop leads: round again, out of the
      loop (`closed` when the read returned `Ok(0)`), or out of the handler
      with an error. */
  datatype DrainNext = Continue(state: DrainState) | Break(state: DrainState, closed: bool) | Fail(fault: Fault)

  /** The state when the read loop stops without error. */
  datatype Drained = Drained(state: DrainState, closed: bool)

  /** `Vec::resize(n, 0)`: truncates to `n` bytes or pads with zeros. */
  function Resize(v: seq<byte>, n: nat): (r: seq<byte>)
    ensures |r| == n
    ensures forall i :: 0 <= i < n && i < |v| ==> r[i] == v[i]
    ensures forall i :: |v| <= i < n ==> r[i] == 0
  {
    if n <= |v| then v[..n] else v + seq(n - |v|, _ => 0)
  }

  /** The buffer after a positive read of `d` at offset `bytesRead`: the
      bytes are copied in, and a buffer filled to its end grows by `Chunk`. */
  function Fill(buf: seq<byte>, bytesRead: nat, d: seq<byte>): (r: seq<byte>)
    requires bytesRead + |d| <= |buf|
    ensures |r| == if bytesRead + |d| == |buf| then |buf| + Chunk else |buf|
    ensures r[..bytesRead + |d|] == buf[..bytesRead] + d
  {
    var filled := buf[..bytesRead] + d + buf[bytesRead + |d|..];
    assert filled[..bytesRead + |d|] == buf[..bytesRead] + d;
    if bytesRead + |d| == |buf| then Resize(filled, |buf| + Chunk) else filled
  }

  /** One iteration of the read loop: read into `buf[bytesRead..]`, which
      is never empty. */
  function DrainStep(token: Token, s: DrainState): (n: DrainNext)
    requires s.bytesRead < |s.buf|
    ensures n.Fail? ==> n.fault.IoError? && n.fault.kind != WouldBlock && n.fault.kind != Interrupted
    ensures n.Break? ==> n.state == s.(stream := n.state.stream)
    ensures n.Continue? && n.state.bytesRead == s.bytesRead ==> n.state == s.(stream := n.state.stream)
    ensures n.Continue? && n.state.bytesRead != s.bytesRead ==>
              && s.bytesRead < n.state.bytesRead < |n.state.buf|
              && (|n.state.buf| == |s.buf| || |n.state.buf| == n.state.bytesRead + Chunk == |s.buf| + Chunk)
              && n.state.bufLen == n.state.bytesRead
              && n.state.reg == s.reg[token := Writable]
    ensures !n.Fail? ==> n.state.stream.writeScript == s.stream.writeScript && n.state.stream.sent == s.stream.sent
    ensures n.Continue? ==>
              || |n.state.stream.readScript| < |s.stream.readScript|
              || (&& |n.state.stream.readScript| == |s.stream.readScript|
                  && HeadSize(n.state.stream.readScript) < HeadSize(s.stream.readScript))
  {
    var (outcome, next) := s.stream.Read(|s.buf| - s.bytesRead);
    match outcome
    case Data(d) =>
      if |d| == 0 then Break(s.(stream := next), true)
      else
        var total := s.bytesRead + |d|;
        Continue(DrainState(s.reg[token := Writable], Fill(s.buf, s.bytesRead, d), total, total, next))
    case ReadErr(WouldBlock) => Break(s.(stream := next), false)
    case ReadErr(Interrupted) => Continue(s.(stream := next))
    case ReadErr(k) => Fail(IoError(k))
  }

  /** The read loop run to its end from state `s`. */
  function ReadDrain(token: Token, s: DrainState): (r: IoResult<Drained>)
    requires s.bytesRead < |s.buf|
    decreases |s.stream.readScript|, HeadSize(s.stream.readScript)
    ensures r.Err? ==> r.fault.IoError? && r.fault.kind != WouldBlock && r.fault.kind != Interrupted
    ensures r.Ok? ==> s.bytesRead <= r.value.state.bytesRead < |r.value.state.buf|
    ensures r.Ok? ==> |r.value.state.buf| == |s.buf| || |r.value.state.buf| <= r.value.state.bytesRead + Chunk
    ensures r.Ok? ==> |s.buf| <= |r.value.state.buf|
    ensures r.Ok? && r.value.state.bytesRead == s.bytesRead ==>
              r.value.state == s.(stream := r.value.state.stream)
    ensures r.Ok? && r.value.state.bytesRead != s.bytesRead ==>
              r.value.state.bufLen == r.value.state.bytesRead && r.value.state.reg == s.reg[token := Writable]
    ensures r.Ok? ==>
              && r.value.state.stream.writeScript == s.stream.writeScript
              && r.value.state.stream.sent == s.stream.sent
  {
    match DrainStep(token, s)
    case Continue(next) => ReadDrain(token, next)
    case Break(last, closed) => Ok(Drained(last, closed))
    case Fail(f) => Err(f)
  }

  /** The buffer only ever grows by whole chunks. */
  lemma {:induction false} ReadDrainGrowsByChunks(token: Token, s: DrainState)
    requires s.bytesRead < |s.buf|
    ensures ReadDrain(token, s).Ok? ==> WholeChunks(|ReadDrain(token, s).value.state.buf| - |s.buf|)
    decreases |s.stream.readScript|, HeadSize(s.stream.readScript)
  {
    match DrainStep(token, s)
    case Continue(next) =>
      ReadDrainGrowsByChunks(token, next);
      var r := ReadDrain(token, next);
      if r.Ok? && |next.buf| != |s.buf| {
        OneMoreChunk(|r.value.state.buf| - |next.buf|);
      }
    case Break(_, _) =>
    case Fail(_) =>
  }

  /** `n` is a whole number of chunks. */
  predicate WholeChunks(n: int) {
    n % Chunk == 0
  }

  lemma OneMoreChunk(grown: int)
    requires WholeChunks(grown)
    ensures WholeChunks(grown + Chunk)
  {
  }

  /** The state the read phase starts from: `buf` resized to `Chunk` bytes
      (truncating a buffer that grew before) and `bytes_read` at 0. */
  function DrainStart(reg: Registry, conn: Conn): (s: DrainState)
    ensures s.bytesRead == 0 && |s.buf| == Chunk
    ensures forall i :: 0 <= i < Chunk && i < |conn.buf| ==> s.buf[i] == conn.buf[i]
    ensures s.reg == reg && s.bufLen == conn.bufLen && s.stream == conn.stream
  {
    DrainState(reg, Resize(conn.buf, Chunk), 0, conn.bufLen, conn.stream)
  }

  /** The read loop of the read phase, written as a loop. */
  method DrainLoop(reg: Registry, token: Token, conn: Conn) returns (r: IoResult<Drained>)
    ensures r == ReadDrain(token, DrainStart(reg, conn))
    ensures r.Ok? ==> r.value.state.bytesRead < |r.value.state.buf| <= r.value.state.bytesRead + Chunk
    ensures r.Ok? && r.value.state.bytesRead > 0 ==> r.value.state.bufLen == r.value.state.bytesRead
    ensures r.Ok? && r.value.state.bytesRead == 0 ==> r.value.state.bufLen == conn.bufLen
  {
    var s := DrainStart(reg, conn);
    while true
      invariant s.bytesRead < |s.buf| <= s.bytesRead + Chunk
      invariant s.bytesRead == 0 ==> s.bufLen == conn.bufLen && s.reg == reg
      invariant s.bytesRead > 0 ==> s.bufLen == s.bytesRead && s.reg == reg[token := Writable]
      invariant ReadDrain(token, s) == ReadDrain(token, DrainStart(reg, conn))
      decreases |s.stream.readScript|, HeadSize(s.stream.readScript)
    {
      ReadDrainUnfolds(token, s);
      match DrainStep(token, s)
      case Continue(next) =>
        s := next;
      case Break(last, closed) =>
        return Ok(Drained(last, closed));
      case Fail(f) =>
        return Err(f);
    }
  }

  /** The read loop from `s` is one step followed by the loop from where
      that step leaves it. */
  lemma ReadDrainUnfolds(token: Token, s: DrainState)
    requires s.bytesRead < |s.buf|
    ensures var n := DrainStep(token, s);
            && (n.Continue? ==> ReadDrain(token, s) == ReadDrain(token, n.state))
            && (n.Break? ==> ReadDrain(token, s) == Ok(Drained(n.state, n.closed)))
            && (n.Fail? ==> ReadDrain(token, s) == Err(n.fault))
  {
  }

  /** The read phase of `handle_event`, when the event is readable. */
  function ReadPhase(reg: Registry, token: Token, conn: Conn, ev: Event): (r: IoResult<Handled>)
    ensures !ev.readable ==> r == Ok(Handled(reg, conn, false))
    ensures r.Err? ==> r.fault.IoError?
    ensures r.Ok? && ev.readable ==> Chunk <= |r.value.conn.buf| && WholeChunks(|r.value.conn.buf|)
    ensures r.Ok? && ev.readable ==>
              || (r.value.reg == reg && r.value.conn.bufLen == conn.bufLen)
              || (r.value.reg == reg[token := Writable] && r.value.conn.bufLen < |r.value.conn.buf|)
    ensures r.Ok? ==> r.value.conn.stream.writeScript == conn.stream.writeScript
    ensures r.Ok? ==> r.value.conn.stream.sent == conn.stream.sent
  {
    if !ev.readable then Ok(Handled(reg, conn, false))
    else
      ReadDrainGrowsByChunks(token, DrainStart(reg, conn));
      match ReadDrain(token, DrainStart(reg, conn))
      case Err(f) => Err(f)
      case Ok(d) => Ok(Handled(d.state.reg, Conn(d.state.stream, d.state.buf, d.state.bufLen), d.closed))
  }

  /** What one `write` call leads to: go on to the read phase, run the
      handler again (the call was interrupted), or fail. */
  datatype WriteStep = Proceed(reg: Registry, conn: Conn) | Retry(conn: Conn) | Abort(fault: Fault)

  /** One attempt of the write phase: slice the valid bytes, build the
      reply, write it once. */
  function WriteAttempt(reg: Registry, token: Token, conn: Conn): (w: WriteStep)
    ensures w.Retry? ==> |w.conn.stream.writeScript| < |conn.stream.writeScript|
    ensures !w.Abort? ==> w.conn.buf == conn.buf && w.conn.bufLen == conn.bufLen
    ensures !w.Abort? ==> w.conn.stream.readScript == conn.stream.readScript
    ensures w.Retry? ==> w.conn.stream.sent == conn.stream.sent
    ensures w == Abort(IndexPanic) <==> conn.bufLen > |conn.buf|
    ensures w.Abort? && w.fault.IoError? ==> w.fault.kind != WouldBlock && w.fault.kind != Interrupted
    ensures w.Proceed? ==>
              || (w.reg == reg && w.conn.stream.sent == conn.stream.sent)
              || (&& w.reg == reg[token := Readable]
                  && w.conn.stream.sent == conn.stream.sent + ReplyTo(conn.buf[..conn.bufLen]))
  {
    if conn.bufLen > |conn.buf| then Abort(IndexPanic)
    else
      var reply := ReplyTo(conn.buf[..conn.bufLen]);
      var (outcome, stream) := conn.stream.Write(reply);
      match outcome
      case Wrote(n) =>
        if n < |reply| then Abort(IoError(WriteZero))
        else Proceed(reg[token := Readable], conn.(stream := stream))
      case WriteErr(WouldBlock) => Proceed(reg, conn.(stream := stream))
      case WriteErr(Interrupted) => Retry(conn.(stream := stream))
      case WriteErr(k) => Abort(IoError(k))
  }

  /** The write phase as a retry loop: attempts until one is not interrupted. */
  function WritePhase(reg: Registry, token: Token, conn: Conn): (r: IoResult<(Registry, Conn)>)
    decreases |conn.stream.writeScript|
    ensures r == Err(IndexPanic) <==> conn.bufLen > |conn.buf|
    ensures r.Err? && r.fault.IoError? ==> r.fault.kind != WouldBlock && r.fault.kind != Interrupted
    ensures r.Ok? ==> r.value.1.buf == conn.buf && r.value.1.bufLen == conn.bufLen
    ensures r.Ok? ==> r.value.1.stream.readScript == conn.stream.readScript
    ensures r.Ok? ==>
              || (r.value.0 == reg && r.value.1.stream.sent == conn.stream.sent)
              || (&& r.value.0 == reg[token := Readable]
                  && r.value.1.stream.sent == conn.stream.sent + ReplyTo(conn.buf[..conn.bufLen]))
  {
    match WriteAttempt(reg, token, conn)
    case Retry(c) =>
      assert c.buf == conn.buf && c.bufLen == conn.bufLen && c.stream.sent == conn.stream.sent;
      WritePhase(reg, token, c)
    case Abort(f) => Err(f)
    case Proceed(reg', c) => Ok((reg', c))
  }

  /** `handle_event`: the write phase when the event is writable, then the
      read phase when it is readable; an interrupted write runs the whole
      handler again. */
  function HandleEvent(reg: Registry, token: Token, conn: Conn, ev: Event): (r: IoResult<Handled>)
    requires token == ev.token
    decreases |conn.stream.writeScript|
    ensures r.Ok? ==> forall t :: t != token ==> (t in r.value.reg <==> t in reg)
    ensures r.Ok? ==> forall t :: t != token && t in reg ==> r.value.reg[t] == reg[t]
    ensures r.Ok? && r.value.done ==> ev.readable
    ensures r.Ok? && !ev.readable ==> r.value.conn.buf == conn.buf && r.value.conn.bufLen == conn.bufLen
    ensures r.Ok? ==>
              || r.value.conn.stream.sent == conn.stream.sent
              || (&& ev.writable && conn.bufLen <= |conn.buf|
                  && r.value.conn.stream.sent == conn.stream.sent + ReplyTo(conn.buf[..conn.bufLen]))
    ensures r == Err(IndexPanic) <==> ev.writable && conn.bufLen > |conn.buf|
    ensures r.Ok? && token in reg ==> token in r.value.reg
  {
    if ev.writable then
      match WriteAttempt(reg, token, conn)
      case Retry(c) =>
        assert c.buf == conn.buf && c.bufLen == conn.bufLen && c.stream.sent == conn.stream.sent;
        HandleEvent(reg, token, c, ev)
      case Abort(f) => Err(f)
      case Proceed(reg', c) => ReadPhase(reg', token, c, ev)
    else ReadPhase(reg, token, conn, ev)
  }

  /** One round of the read loop moves bytes from the socket to the end of
      the valid part of the buffer and loses none. */
  lemma DrainStepKeepsBytes(token: Token, s: DrainState)
    requires s.bytesRead < |s.buf|
    ensures !DrainStep(token, s).Fail? ==>
              var n := DrainStep(token, s).state;
              s.buf[..s.bytesRead] + Payload(s.stream.readScript) == n.buf[..n.bytesRead] + Payload(n.stream.readScript)
  {
    var (outcome, next) := s.stream.Read(|s.buf| - s.bytesRead);
    if outcome.Data? && |outcome.bytes| > 0 {
      var d := outcome.bytes;
      var n := DrainStep(token, s).state;
      assert n.buf == Fill(s.buf, s.bytesRead, d) && n.bytesRead == s.bytesRead + |d| && n.stream == next;
      MovedBytes(s, n, d);
    } else if outcome.Data? {
      assert Payload(s.stream.readScript) == [] + Payload(next.readScript);
    }
  }

  /** Bytes taken from the front of the socket and put right after the
      valid part of the buffer are neither lost nor reordered. */
  lemma MovedBytes(s: DrainState, n: DrainState, d: seq<byte>)
    requires s.bytesRead + |d| <= |s.buf|
    requires n.buf == Fill(s.buf, s.bytesRead, d) && n.bytesRead == s.bytesRead + |d|
    requires Payload(s.stream.readScript) == d + Payload(n.stream.readScript)
    ensures s.buf[..s.bytesRead] + Payload(s.stream.readScript) == n.buf[..n.bytesRead] + Payload(n.stream.readScript)
  {
    var pre := s.buf[..s.bytesRead];
    var post := Payload(n.stream.readScript);
    assert pre + (d + post) == (pre + d) + post;
  }

  /** The whole read loop loses no byte either: what was in the buffer and
      the socket before is what is in the buffer and the socket after. */
  lemma {:induction false} ReadDrainKeepsBytes(token: Token, s: DrainState)
    requires s.bytesRead < |s.buf|
    ensures ReadDrain(token, s).Ok? ==>
              var d := ReadDrain(token, s).value.state;
              s.buf[..s.bytesRead] + Payload(s.stream.readScript) == d.buf[..d.bytesRead] + Payload(d.stream.readScript)
    decreases |s.stream.readScript|, HeadSize(s.stream.readScript)
  {
    DrainStepKeepsBytes(token, s);
    match DrainStep(token, s)
    case Continue(next) =>
      ReadDrainKeepsBytes(token, next);
    case Break(_, _) =>
    case Fail(_) =>
  }

  /** A read script of outcomes that keep the read loop going: non-empty
      data chunks and interrupted reads. */
  predicate Flowing(chunks: seq<ReadOutcome>) {
    forall i :: 0 <= i < |chunks| ==>
      (chunks[i].Data? && |chunks[i].bytes| > 0) || chunks[i] == ReadErr(Interrupted)
  }

  /** An outcome that ends the read loop: end of file or an error other
      than Interrupted. */
  predicate Stops(stop: ReadOutcome) {
    stop == Eof || (stop.ReadErr? && stop.kind != Interrupted)
  }

  /** How the read loop ends on a script of chunks and interrupted reads
      followed by an outcome that stops it: end of file and WouldBlock end
      the loop without error, closed exactly on end of file, with the
      script consumed up to and including that outcome; any other error is
      returned. */
  lemma {:induction false} ReadDrainStops(token: Token, s: DrainState, chunks: seq<ReadOutcome>, stop: ReadOutcome, rest: seq<ReadOutcome>)
    requires s.bytesRead < |s.buf|
    requires Flowing(chunks) && Stops(stop)
    requires s.stream.readScript == chunks + [stop] + rest
    ensures stop.ReadErr? && stop.kind != WouldBlock ==> ReadDrain(token, s) == Err(IoError(stop.kind))
    ensures stop == Eof || stop == ReadErr(WouldBlock) ==>
              && ReadDrain(token, s).Ok?
              && (ReadDrain(token, s).value.closed <==> stop == Eof)
              && ReadDrain(token, s).value.state.stream.readScript == rest
    decreases |s.stream.readScript|, HeadSize(s.stream.readScript)
  {
    var script := s.stream.readScript;
    if |chunks| == 0 {
      assert script[0] == stop && script[1..] == rest;
    } else {
      assert script[0] == chunks[0];
      var next := DrainStep(token, s).state;
      if chunks[0].Data? && |chunks[0].bytes| > |s.buf| - s.bytesRead {
        var d := chunks[0].bytes;
        var chunks' := [Data(d[|s.buf| - s.bytesRead..])] + chunks[1..];
        assert next.stream.readScript == chunks' + [stop] + rest;
        ReadDrainStops(token, next, chunks', stop, rest);
      } else {
        assert script[1..] == chunks[1..] + [stop] + rest;
        ReadDrainStops(token, next, chunks[1..], stop, rest);
      }
    }
  }

  /** On such a script ending in end of file or WouldBlock the read loop
      appends exactly the bytes of the data chunks to the valid part of the
      buffer. */
  lemma ReadDrainReadsChunks(token: Token, s: DrainState, chunks: seq<ReadOutcome>, stop: ReadOutcome, rest: seq<ReadOutcome>)
    requires s.bytesRead < |s.buf|
    requires Flowing(chunks) && (stop == Eof || stop == ReadErr(WouldBlock))
    requires s.stream.readScript == chunks + [stop] + rest
    ensures ReadDrain(token, s).Ok?
    ensures var d := ReadDrain(token, s).value.state;
            && d.bytesRead == s.bytesRead + |Payload(chunks)|
            && d.buf[..d.bytesRead] == s.buf[..s.bytesRead] + Payload(chunks)
  {
    ReadDrainStops(token, s, chunks, stop, rest);
    ReadDrainKeepsBytes(token, s);
    var d := ReadDrain(token, s).value.state;
    AppendedBytes(s.buf[..s.bytesRead], d.buf[..d.bytesRead], chunks, stop, rest);
  }

  /** Bytes put before a script's payload that reappear before the payload
      of what follows the stopping outcome are those bytes plus the chunks. */
  lemma AppendedBytes(pre: seq<byte>, got: seq<byte>, chunks: seq<ReadOutcome>, stop: ReadOutcome, rest: seq<ReadOutcome>)
    requires stop == Eof || stop.ReadErr?
    requires pre + Payload(chunks + [stop] + rest) == got + Payload(rest)
    ensures got == pre + Payload(chunks)
  {
    PayloadAround(chunks, stop, rest);
    var p := Payload(chunks);
    assert pre + (p + Payload(rest)) == (pre + p) + Payload(rest);
    CancelSuffix(pre + p, got, Payload(rest));
  }

  /** Equal sequences with equal tails have equal heads. */
  lemma CancelSuffix(a: seq<byte>, b: seq<byte>, c: seq<byte>)
    requires a + c == b + c
    ensures a == b
  {
    assert |a| == |b|;
    assert a == (a + c)[..|a|];
    assert b == (b + c)[..|b|];
  }

  /** The read phase on data chunks and interrupted reads followed by an
      outcome that stops it. An error other than WouldBlock is returned.
      Otherwise the bytes land at offset 0 whatever was buffered before,
      `buf_len` counts them (or keeps its old value when there were none),
      the registration switches to writable exactly when bytes arrived, and
      the connection is done exactly on end of file, even after bytes. */
  lemma ReadPhaseOnChunks(reg: Registry, token: Token, conn: Conn, ev: Event,
                          chunks: seq<ReadOutcome>, stop: ReadOutcome, rest: seq<ReadOutcome>)
    requires ev.readable
    requires Flowing(chunks) && Stops(stop)
    requires conn.stream.readScript == chunks + [stop] + rest
    ensures stop.ReadErr? && stop.kind != WouldBlock ==> ReadPhase(reg, token, conn, ev) == Err(IoError(stop.kind))
    ensures stop == Eof || stop == ReadErr(WouldBlock) ==>
            var r := ReadPhase(reg, token, conn, ev);
            var p := Payload(chunks);
            && r.Ok?
            && (r.value.done <==> stop == Eof)
            && |p| < |r.value.conn.buf|
            && r.value.conn.buf[..|p|] == p
            && r.value.conn.bufLen == (if |p| == 0 then conn.bufLen else |p|)
            && r.value.reg == (if |p| == 0 then reg else reg[token := Writable])
            && r.value.conn.stream.readScript == rest
  {
    var start := DrainStart(reg, conn);
    ReadDrainStops(token, start, chunks, stop, rest);
    if stop == Eof || stop == ReadErr(WouldBlock) {
      ReadDrainReadsChunks(token, start, chunks, stop, rest);
      assert start.buf[..0] == [];
    }
  }

  /** `handle_event` is the write phase, retried while interrupted, then the
      read phase: rerunning the whole handler on an interrupted write is the
      same as retrying the write alone. */
  lemma {:induction false} HandleEventPhases(reg: Registry, token: Token, conn: Conn, ev: Event)
    requires token == ev.token
    ensures HandleEvent(reg, token, conn, ev) ==
              if !ev.writable then ReadPhase(reg, token, conn, ev)
              else match WritePhase(reg, token, conn)
                   case Err(f) => Err(f)
                   case Ok((reg', c)) => ReadPhase(reg', token, c, ev)
    decreases |conn.stream.writeScript|
  {
    if ev.writable {
      match WriteAttempt(reg, token, conn)
      case Retry(c) =>
        HandleEventPhases(reg, token, c, ev);
      case Abort(_) =>
      case Proceed(_, _) =>
    }
  }

  /** The write phase by the outcome of its first `write`: a short write is
      WriteZero; a complete one delivers the reply and switches the
      registration to readable; WouldBlock (also an exhausted script)
      leaves everything as it was; Interrupted tries again; any other error
      is returned. */
  lemma WritePhaseOutcomes(reg: Registry, token: Token, conn: Conn)
    requires conn.bufLen <= |conn.buf|
    ensures var reply := ReplyTo(conn.buf[..conn.bufLen]);
            var script := conn.stream.writeScript;
            var r := WritePhase(reg, token, conn);
            if |script| == 0 then r == Ok((reg, conn))
            else
              var after := conn.(stream := conn.stream.(writeScript := script[1..]));
              match script[0]
              case Wrote(n) =>
                if n < |reply| then r == Err(IoError(WriteZero))
                else r == Ok((reg[token := Readable], after.(stream := after.stream.(sent := conn.stream.sent + reply))))
              case WriteErr(WouldBlock) => r == Ok((reg, after))
              case WriteErr(Interrupted) => r == WritePhase(reg, token, after)
              case WriteErr(k) => r == Err(IoError(k))
  {
  }

  /** The buffer of a connection that read more than one chunk is cut back
      to one chunk by the next read phase even when that phase reads
      nothing, while `buf_len` keeps the old count: a writable event that
      arrives while the registration asks for readable then slices past the
      end of the buffer. */
  lemma SpuriousWritablePanics(reg: Registry, token: Token, conn: Conn)
    requires |conn.buf| == 2 * Chunk && conn.bufLen == Chunk + 1
    requires conn.stream.readScript == [] && conn.stream.writeScript == []
    ensures var first := HandleEvent(reg, token, conn, Event(token, true, false));
            && first.Ok?
            && first.value.reg == reg
            && first.value.conn.bufLen > |first.value.conn.buf|
            && HandleEvent(first.value.reg, token, first.value.conn, Event(token, false, true)) == Err(IndexPanic)
  {
    var start := DrainStart(reg, conn);
    assert DrainStep(token, start) == Break(start, false);
  }

  /** A worked exchange: "ab" and then "c\r\n" arrive in two reads before
      the socket would block; the readable event buffers "abc\r\n" and asks
      for writable, and the writable event sends back "cba\r\n" and asks for
      readable again. */
  lemma EchoExample(reg: Registry, token: Token, conn: Conn)
    requires conn.buf == [] && conn.bufLen == 0 && conn.stream.sent == []
    requires conn.stream.readScript == [Data([0x61, 0x62]), Data([0x63, 0x0D, 0x0A]), ReadErr(WouldBlock)]
    requires conn.stream.writeScript == [Wrote(5)]
    ensures var first := HandleEvent(reg, token, conn, Event(token, true, false));
            && first.Ok? && !first.value.done
            && first.value.reg == reg[token := Writable]
            && var second := HandleEvent(first.value.reg, token, first.value.conn, Event(token, false, true));
               && second.Ok? && !second.value.done
               && second.value.reg == reg[token := Readable]
               && second.value.conn.stream.sent == [0x63, 0x62, 0x61, 0x0D, 0x0A]
  {
    var first := EchoReads(reg, token, conn);
    EchoWrites(first.reg, token, first.conn);
    assert first.reg[token := Readable] == reg[token := Readable];
  }

  /** The readable event of the exchange buffers "abc\r\n" and asks for writable. */
  lemma EchoReads(reg: Registry, token: Token, conn: Conn) returns (first: Handled)
    requires conn.buf == [] && conn.bufLen == 0 && conn.stream.sent == []
    requires conn.stream.readScript == [Data([0x61, 0x62]), Data([0x63, 0x0D, 0x0A]), ReadErr(WouldBlock)]
    requires conn.stream.writeScript == [Wrote(5)]
    ensures HandleEvent(reg, token, conn, Event(token, true, false)) == Ok(first)
    ensures !first.done && first.reg == reg[token := Writable]
    ensures first.conn.bufLen <= |first.conn.buf|
    ensures first.conn.buf[..first.conn.bufLen] == [0x61, 0x62, 0x63, 0x0D, 0x0A]
    ensures first.conn.stream.writeScript == [Wrote(5)] && first.conn.stream.sent == []
  {
    var chunks := conn.stream.readScript[..2];
    assert conn.stream.readScript == chunks + [ReadErr(WouldBlock)] + [];
    assert Flowing(chunks);
    var p := Payload(chunks);
    assert p == [0x61, 0x62, 0x63, 0x0D, 0x0A] by {
      PayloadCons(chunks);
      PayloadCons(chunks[1..]);
    }
    ReadPhaseOnChunks(reg, token, conn, Event(token, true, false), chunks, ReadErr(WouldBlock), []);
    first := HandleEvent(reg, token, conn, Event(token, true, false)).value;
  }

  /** The writable event of the exchange sends "cba\r\n" and asks for readable. */
  lemma EchoWrites(reg: Registry, token: Token, c: Conn)
    requires c.bufLen <= |c.buf|
    requires c.buf[..c.bufLen] == [0x61, 0x62, 0x63, 0x0D, 0x0A]
    requires c.stream.writeScript == [Wrote(5)] && c.stream.sent == []
    ensures var second := HandleEvent(reg, token, c, Event(token, false, true));
            && second.Ok? && !second.value.done
            && second.value.reg == reg[token := Readable]
            && second.value.conn.stream.sent == [0x63, 0x62, 0x61, 0x0D, 0x0A]
  {
    ReplyExampleAscii();
    WritePhaseOutcomes(reg, token, c);
    HandleEventPhases(reg, token, c, Event(token, false, true));
  }
}
