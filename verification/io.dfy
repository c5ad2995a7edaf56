/**
 The vocabulary the server uses to talk to the operating system, with every
 socket replaced by a script of the outcomes its calls will return.
 */
module Io {
  import opened Utf8

  /** The `io::ErrorKind`s the server distinguishes, plus every other kind. */
  datatype ErrorKind = WouldBlock | Interrupted | WriteZero | OtherKind(code: int)

  /** What ends `run`: an I/O error propagated by `?` or `return Err`, or
      the panic of slicing `buf[..buf_len]` past the end of `buf`. */
  datatype Fault = IoError(kind: ErrorKind) | IndexPanic

  /** `io::Result<T>`, widened with the panic. */
  datatype IoResult<+T> = Ok(value: T) | Err(fault: Fault)

  /** The identifier a socket is registered under (`mio::Token`). */
  type Token = nat

  /** Readiness a registration asks for; the server only ever asks for one. */
  datatype Interest = Readable | Writable

  /** The poller's registrations: which token waits for which readiness. */
  type Registry = map<Token, Interest>

  /** One scripted outcome of `read`: `Data(bytes)` offers `bytes`, of which
      the call takes as many as fit; `Data([])` is `Ok(0)`, the peer having
      closed its write side. */
  datatype ReadOutcome = Data(bytes: seq<byte>) | ReadErr(kind: ErrorKind)

  const Eof: ReadOutcome := Data([])

  /** One scripted outcome of `write`: `Wrote(n)` is `Ok(n)`. */
  datatype WriteOutcome = Wrote(n: nat) | WriteErr(kind: ErrorKind)

  /** A connected socket: the outcomes its future reads and writes will
      return, and every byte its peer has received so far. A script that
      has run out answers WouldBlock. */
  datatype Stream = Stream(readScript: seq<ReadOutcome>, writeScript: seq<WriteOutcome>, sent: seq<byte>)
  {
    /** Reads into a slice of `room` bytes: the outcome and the stream afterwards. */
    function Read(room: nat): (r: (ReadOutcome, Stream))
      requires room > 0
      ensures r.1.writeScript == writeScript && r.1.sent == sent
      ensures r.0.Data? ==> |r.0.bytes| <= room
      ensures r.0.Data? ==> Payload(readScript) == r.0.bytes + Payload(r.1.readScript)
      ensures r.0.ReadErr? ==> Payload(r.1.readScript) == Payload(readScript)
      ensures |r.1.readScript| <= |readScript|
      ensures |readScript| > 0 && !(readScript[0].Data? && |readScript[0].bytes| > room) ==> r.1.readScript == readScript[1..]
      ensures |readScript| > 0 ==>
                || |r.1.readScript| < |readScript|
                || (|r.1.readScript| == |readScript| && HeadSize(r.1.readScript) < HeadSize(readScript))
      ensures |readScript| == 0 ==> r == (ReadErr(WouldBlock), this)
      ensures |readScript| > 0 && readScript[0].ReadErr? ==> r.0 == readScript[0]
      ensures |readScript| > 0 && readScript[0].Data? ==>
                var d := readScript[0].bytes;
                r.0 == Data(if |d| <= room then d else d[..room])
      ensures |readScript| > 0 && readScript[0].Data? && |readScript[0].bytes| > room ==>
                r.1.readScript == [Data(readScript[0].bytes[room..])] + readScript[1..]
    {
      if |readScript| == 0 then (ReadErr(WouldBlock), this)
      else match readScript[0]
        case Data(d) =>
          if |d| <= room then (Data(d), this.(readScript := readScript[1..]))
          else
            PayloadCons(readScript);
            PayloadCons([Data(d[room..])] + readScript[1..]);
            assert ([Data(d[room..])] + readScript[1..])[1..] == readScript[1..];
            assert d == d[..room] + d[room..];
            (Data(d[..room]), this.(readScript := [Data(d[room..])] + readScript[1..]))
        case ReadErr(k) =>
          PayloadCons(readScript);
          (ReadErr(k), this.(readScript := readScript[1..]))
    }

    /** Writes `data`: the outcome and the stream afterwards. The peer
        receives `data` only on a complete write. */
    function Write(data: seq<byte>): (r: (WriteOutcome, Stream))
      ensures r.1.readScript == readScript
      ensures |r.1.writeScript| <= |writeScript|
      ensures |writeScript| > 0 ==> r.0 == writeScript[0] && r.1.writeScript == writeScript[1..]
      ensures |writeScript| == 0 ==> r.0 == WriteErr(WouldBlock) && r.1.writeScript == writeScript
      ensures r.0.Wrote? && r.0.n >= |data| ==> r.1.sent == sent + data
      ensures !(r.0.Wrote? && r.0.n >= |data|) ==> r.1.sent == sent
    {
      if |writeScript| == 0 then (WriteErr(WouldBlock), this)
      else
        var sent' := if writeScript[0].Wrote? && writeScript[0].n >= |data| then sent + data else sent;
        (writeScript[0], this.(writeScript := writeScript[1..], sent := sent'))
    }
  }

  /** All bytes a read script still offers, in order. */
  function Payload(readScript: seq<ReadOutcome>): seq<byte> {
    if |readScript| == 0 then []
    else (if readScript[0].Data? then readScript[0].bytes else []) + Payload(readScript[1..])
  }

  lemma PayloadCons(readScript: seq<ReadOutcome>)
    requires |readScript| > 0
    ensures Payload(readScript) == (if readScript[0].Data? then readScript[0].bytes else []) + Payload(readScript[1..])
  {
  }

  /** The bytes of two scripts in a row are the bytes of each in turn. */
  lemma {:induction false} PayloadAppend(a: seq<ReadOutcome>, b: seq<ReadOutcome>)
    ensures Payload(a + b) == Payload(a) + Payload(b)
  {
    if |a| > 0 {
      PayloadCons(a + b);
      assert (a + b)[1..] == a[1..] + b;
      PayloadAppend(a[1..], b);
    } else {
      assert a + b == b;
    }
  }

  /** An outcome without data between two scripts adds no bytes. */
  lemma PayloadAround(chunks: seq<ReadOutcome>, stop: ReadOutcome, rest: seq<ReadOutcome>)
    requires stop == Eof || stop.ReadErr?
    ensures Payload(chunks + [stop] + rest) == Payload(chunks) + Payload(rest)
  {
    var a := chunks + [stop];
    PayloadAppend(a, rest);
    PayloadAppend(chunks, [stop]);
    PayloadSilent(stop);
    var p := Payload(chunks);
    assert p + [] == p;
  }

  /** End of file and errors carry no bytes. */
  lemma PayloadSilent(stop: ReadOutcome)
    requires stop == Eof || stop.ReadErr?
    ensures Payload([stop]) == []
  {
    PayloadCons([stop]);
    assert [stop][1..] == [];
  }

  /** Bytes still offered by the first entry of a read script; with the
      script's length it measures how far a drain has progressed. */
  function HeadSize(readScript: seq<ReadOutcome>): nat {
    if |readScript| > 0 && readScript[0].Data? then |readScript[0].bytes| else 0
  }

  /** One scripted outcome of `accept`: a new connection, or an error. */
  datatype AcceptOutcome = Accepted(peer: Stream) | AcceptErr(kind: ErrorKind)

  /** The listening socket: the outcomes its future accepts will return. */
  datatype Listener = Listener(accepts: seq<AcceptOutcome>)

  /** A readiness event the poller delivers. */
  datatype Event = Event(token: Token, readable: bool, writable: bool)

  /** One call of `poll.poll`: a batch of events, or its error. */
  datatype PollOutcome = Ready(events: seq<Event>) | PollErr(kind: ErrorKind)
}
