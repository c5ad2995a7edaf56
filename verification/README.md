# Reverse echo server, modelled in Dafny

A model of `examples/mio_reverse_echo_server.rs`. This is a single-threaded TCP
server on top of mio's readiness poller. For every connection it buffers the
bytes received and answers with a reply line:

- the text decoded as UTF-8,
- with trailing white space removed,
- reversed one Unicode scalar value at a time,
- followed by CR LF.

Bytes that are not UTF-8 get the sentinel `__bad_input__` instead.

The model replaces every socket with a script of the outcomes its calls
return. The poller becomes a map from tokens to the readiness each
registration asks for. What is left is a deterministic state machine, and the
proofs are about that machine.

The model has five modules, one per file:

- `utf8.dfy` (`Utf8`): strict UTF-8 decoding and encoding, following the
  syntax in section 4 of RFC 3629. This is what `str::from_utf8` accepts.
- `reply.dfy` (`Reply`): trimming, reversal and the reply to a buffer.
- `io.dfy` (`Io`): the vocabulary shared with the operating system. It covers:
  - error kinds, and the faults that end the server;
  - tokens, interests and the registration map;
  - scripted streams, the listener, events and poll results.
- `conn.dfy` (`Handler`): `Conn` and `handle_event`. Its parts:
  - the write phase with its retry on Interrupted;
  - the read phase;
  - the read loop. It is given twice: as a recursive function and as a
    method with a loop. One shared step function, `DrainStep`, backs both.
- `echo_srv.dfy` (`EchoSrv`): `token_next`, and the body of `run`: the accept
  loop, dispatching events to connections, removing finished connections and
  propagating errors.

How the sockets are modelled:

- A `Stream` holds the outcomes its future reads and writes will return, plus
  every byte the peer has received so far.
- A read into a slice of `room` bytes works as follows:
  - it takes at most `room` bytes of the next data chunk;
  - the rest of that chunk stays at the head of the script;
  - `Data([])` is `Ok(0)`, the peer closing its side;
  - an exhausted script answers WouldBlock.
- A write returns the next scripted outcome. The peer receives the reply only
  when the write reports at least its length.
- A `Listener` holds the outcomes of its future accepts.

The panic of slicing `buf[..buf_len]` past the end of `buf`
(`examples/mio_reverse_echo_server.rs:40`) is modelled as the fault
`IndexPanic`, next to the I/O errors.

The panic is reachable. A read phase that read more than 4096 bytes leaves
`buf_len` above 4096. The next read phase truncates the buffer back to
4096 bytes. If that phase reads nothing, `buf_len` keeps its old value. A
writable event arriving at that point slices past the end of the buffer.

The registrations rule that out. After the truncation the connection is
registered for readable only. `EchoSrv.DispatchNoPanic` and
`EchoSrv.BatchNoPanic` prove that no event matching its registration ever
panics. `Handler.SpuriousWritablePanics` shows the panic for a writable event
that does not match.

Two behaviours of the code are easy to miss:

- An accept that fails with Interrupted ends the server, like every accept
  error except WouldBlock (`examples/mio_reverse_echo_server.rs:120-122`).
- `resize(4096, 0)` at the start of every read phase shrinks a buffer that had
  grown (`examples/mio_reverse_echo_server.rs:66`).

## Model

| member | source | states |
|---|---|---|
| `Utf8.EncodeOne` | examples/mio_reverse_echo_server.rs:44 | a scalar value encodes as 1 to 4 bytes: a lead byte below 0x80 or in 0xC2..0xF4, followed by continuation bytes only |
| `Utf8.DecodeOne` | examples/mio_reverse_echo_server.rs:42 | a decoded character occupies at least one byte and no more than the bytes available |
| `Utf8.DecodeOneEncodeOne` | examples/mio_reverse_echo_server.rs:42-44 | the first character decoded from an encoded scalar value, whatever follows it, is that value, occupying exactly its encoding |
| `Utf8.EncodeOneDecodeOne` | examples/mio_reverse_echo_server.rs:42 | re-encoding a decoded character reproduces the bytes it came from: the decoder accepts only shortest forms and no surrogates |
| `Utf8.EncodeAppend` | examples/mio_reverse_echo_server.rs:44 | encoding a concatenation is concatenating the encodings |
| `Utf8.DecodeEncode` | examples/mio_reverse_echo_server.rs:42-44 | decoding the encoding of any text gives that text back |
| `Utf8.EncodeDecode` | examples/mio_reverse_echo_server.rs:42 | encoding what a successful decode returns gives back the original bytes |
| `Utf8.EncodeAscii` | examples/mio_reverse_echo_server.rs:46 | ASCII text encodes byte for byte |
| `Utf8.WellFormedIffEncoding` | examples/mio_reverse_echo_server.rs:42 | `from_utf8` succeeds exactly on the byte sequences that are encodings of some text |
| `Reply.TrimEnd` | examples/mio_reverse_echo_server.rs:43 | `trim_end` returns a prefix that is empty or ends in a non-white-space character, and everything it drops is white space |
| `Reply.TrimEndUnique` | examples/mio_reverse_echo_server.rs:43 | any prefix with those two properties is the trimmed text |
| `Reply.TrimEndIdempotent` | examples/mio_reverse_echo_server.rs:43 | trimming trimmed text changes nothing |
| `Reply.Reverse` | examples/mio_reverse_echo_server.rs:44 | `chars().rev()` keeps the length and puts the i-th character from the end at position i |
| `Reply.ReverseInvolutive` | examples/mio_reverse_echo_server.rs:44 | reversing twice restores the text |
| `Reply.ReplyTo` | examples/mio_reverse_echo_server.rs:40-47 | the reply is the sentinel exactly when the buffered bytes are not valid UTF-8, and ends in CR LF exactly when they are; its content on text is stated by `Reply.ReplyToText` and on malformed bytes by `Reply.ReplyToMalformed` |
| `Reply.ReplyToWellFormed` | examples/mio_reverse_echo_server.rs:40-47 | every reply, the sentinel included, is valid UTF-8, and it ends in CR LF exactly when the buffered bytes were valid UTF-8 |
| `Reply.ReplyToText` | examples/mio_reverse_echo_server.rs:42-44 | on the encoding of text the reply is the encoding of the reversed trimmed text followed by CR LF |
| `Reply.ReplyToMalformed` | examples/mio_reverse_echo_server.rs:45-47 | on bytes that are not UTF-8 the reply is exactly `__bad_input__`, with no CR LF |
| `Reply.ReplyRestoresTrimmed` | examples/mio_reverse_echo_server.rs:43-44 | decoding a well-formed reply without its CR LF and reversing it again gives the trimmed input text |
| `Reply.ReplyExampleAscii` | examples/mio_reverse_echo_server.rs:40-47 | "abc\r\n" is answered with "cba\r\n" |
| `Reply.ReplyExampleMultiByte` | examples/mio_reverse_echo_server.rs:42-44 | C3 A9 21 ("é!") is answered with 21 C3 A9 0D 0A: multi-byte characters move as a whole |
| `Reply.ReplyExampleMalformed` | examples/mio_reverse_echo_server.rs:45-47 | a lone continuation byte is answered with the sentinel |
| `Io.Stream.Read` | examples/mio_reverse_echo_server.rs:69 | a read into `room` bytes takes at most `room` bytes; the bytes it returns followed by those the socket still offers are the bytes it offered before; a chunk that fits is consumed whole, a longer one leaves its rest at the head of the script; `Data([])` is `Ok(0)`; an exhausted script answers WouldBlock and changes nothing; nothing is written |
| `Io.Stream.Write` | examples/mio_reverse_echo_server.rs:49 | a write returns the next scripted outcome and consumes it (WouldBlock once the script is exhausted); the peer receives exactly the data when the reported count reaches its length, and nothing otherwise; reads are unaffected |
| `Handler.Resize` | examples/mio_reverse_echo_server.rs:66 | `resize(n, 0)` gives exactly n bytes, keeps the existing bytes that fit (truncating a longer buffer) and pads with zeros |
| `Handler.Fill` | examples/mio_reverse_echo_server.rs:74-78 | after a positive read the bytes read sit right after the earlier ones, and the buffer grows by exactly 4096 when and only when the read filled it |
| `Handler.DrainStep` | examples/mio_reverse_echo_server.rs:69-85 | one read either stops the loop with the state unchanged, or retries on Interrupted with the state unchanged, or advances `bytes_read` with `buf_len == bytes_read < buf.len()`, the registration set to writable and the buffer unchanged or grown by 4096; any error it returns is neither WouldBlock nor Interrupted; a read that does not stop the loop consumes script |
| `Handler.ReadDrain` | examples/mio_reverse_echo_server.rs:68-86 | the read loop keeps `bytes_read < buf.len()` and only grows the buffer; if nothing was read, buffer, `buf_len` and registrations are unchanged, and otherwise `buf_len == bytes_read` and the token is registered writable; nothing is written |
| `Handler.ReadDrainGrowsByChunks` | examples/mio_reverse_echo_server.rs:76-78 | the read loop grows the buffer by whole multiples of 4096 bytes |
| `Handler.DrainStart` | examples/mio_reverse_echo_server.rs:63-66 | the read loop starts at offset 0 of a buffer of exactly 4096 bytes that keeps the old bytes that fit, with registration, `buf_len` and socket as they were |
| `Handler.DrainLoop` | examples/mio_reverse_echo_server.rs:68-86 | the loop computes the same result as the recursive read loop, ending with `bytes_read < buf.len() <= bytes_read + 4096` and `buf_len` equal to `bytes_read` after a positive read, otherwise unchanged |
| `Handler.ReadPhase` | examples/mio_reverse_echo_server.rs:62-92 | a non-readable event changes nothing; after a readable event the buffer is a positive multiple of 4096 bytes, and either registration and `buf_len` are unchanged or the token is registered writable with `buf_len < buf.len()`; errors are I/O errors; nothing is written |
| `Handler.WriteAttempt` | examples/mio_reverse_echo_server.rs:40-59 | one attempt panics exactly when `buf_len > buf.len()`; its I/O errors are neither WouldBlock nor Interrupted; an attempt that does not fail leaves buffer, `buf_len` and read script alone and either changes neither registration nor peer or registers readable and delivers exactly the reply; an interrupted one delivers nothing and consumes a write outcome |
| `Handler.WritePhase` | examples/mio_reverse_echo_server.rs:49-59 | the write phase panics exactly when `buf_len > buf.len()`; never returns WouldBlock or Interrupted; keeps buffer and `buf_len`; either leaves registration and peer unchanged, or registers the token readable and delivers exactly the reply |
| `Handler.HandleEvent` | examples/mio_reverse_echo_server.rs:38-95 | `handle_event` touches no other token's registration and keeps its own; reports done only on readable events; leaves the buffer alone on non-readable events; delivers nothing or exactly the reply (only on writable events with `buf_len` in range); panics exactly on a writable event with `buf_len > buf.len()` |
| `Handler.DrainStepKeepsBytes` | examples/mio_reverse_echo_server.rs:69-79 | one read moves bytes from the socket to the end of the valid part of the buffer without losing or reordering any |
| `Handler.ReadDrainKeepsBytes` | examples/mio_reverse_echo_server.rs:68-86 | the valid bytes of the buffer followed by the bytes still in the socket are the same before and after the read loop |
| `Handler.ReadDrainStops` | examples/mio_reverse_echo_server.rs:68-86 | on data chunks and interrupted reads followed by end of file or WouldBlock the loop ends without error (closed exactly on end of file) having consumed exactly up to that outcome; any other error is returned as it is |
| `Handler.ReadDrainReadsChunks` | examples/mio_reverse_echo_server.rs:69-81 | on such a script the loop appends exactly the chunks' bytes to the valid part of the buffer and advances `bytes_read` by their number |
| `Handler.ReadPhaseOnChunks` | examples/mio_reverse_echo_server.rs:62-94 | a read phase puts the bytes at offset 0 whatever was buffered before; `buf_len` becomes their count or stays unchanged when there were none; the token is registered writable exactly when bytes arrived; the result is done exactly on end of file, even after bytes; other read errors are returned |
| `Handler.HandleEventPhases` | examples/mio_reverse_echo_server.rs:38-62 | `handle_event` is the write phase (retried while interrupted) followed by the read phase: rerunning the whole handler on Interrupted equals a retry loop, and the write comes before the read |
| `Handler.WritePhaseOutcomes` | examples/mio_reverse_echo_server.rs:49-59 | the write phase by its first write outcome: a short write, `Ok(0)` included, is WriteZero; a complete one registers readable and delivers the reply; WouldBlock changes nothing; Interrupted retries; any other error is returned |
| `Handler.SpuriousWritablePanics` | examples/mio_reverse_echo_server.rs:40 | after a read phase that read more than 4096 bytes (here `buf_len` 4097 in an 8192-byte buffer), a read phase that reads nothing leaves `buf_len > buf.len()`, and a writable event then panics |
| `Handler.EchoExample` | examples/mio_reverse_echo_server.rs:38-95 | "ab" then "c\r\n" followed by WouldBlock: the readable event registers writable, and the writable event delivers "cba\r\n" and registers readable |
| `EchoSrv.TokenNext` | examples/mio_reverse_echo_server.rs:32-36 | `token_next` hands out the counter's current value and advances the counter by exactly one |
| `EchoSrv.Init` | examples/mio_reverse_echo_server.rs:103-107 | the initial state has no connections, registers only the listener, readable under token 0, and starts the counter at 1, so the first connection gets token 1; it is valid and coherent |
| `EchoSrv.AcceptOne` | examples/mio_reverse_echo_server.rs:127-137 | an accepted connection is stored under the counter's value and the counter advances by one |
| `EchoSrv.AcceptDrain` | examples/mio_reverse_echo_server.rs:114-138 | an error of the accept loop is an I/O error other than WouldBlock; on success the counter never decreases and at least one accept outcome was consumed unless the queue was empty |
| `EchoSrv.AcceptDrainAddsFresh` | examples/mio_reverse_echo_server.rs:114-138 | the accept loop adds connections with empty buffers, registered readable, under exactly the tokens between the old and new counter, and changes nothing else |
| `EchoSrv.AcceptDrainFails` | examples/mio_reverse_echo_server.rs:115-123 | pending connections followed by any accept error but WouldBlock, Interrupted included, end the server with that error |
| `EchoSrv.AcceptDrainTakes` | examples/mio_reverse_echo_server.rs:114-138 | pending connections followed by WouldBlock are all stored, in order, under consecutive fresh tokens, and the accept queue is left at what follows |
| `EchoSrv.AcceptDrainValid` | examples/mio_reverse_echo_server.rs:114-138 | the accept loop keeps the state valid, and coherent when it was |
| `EchoSrv.Dispatch` | examples/mio_reverse_echo_server.rs:113-153 | token 0 runs the accept loop; an unknown token changes nothing; otherwise the handler fails exactly when the event does, with its error, a done connection is removed from the table and deregistered, and any other result is stored; the counter never decreases |
| `EchoSrv.Batch` | examples/mio_reverse_echo_server.rs:112-155 | an empty batch changes nothing, an error from the first event ends the batch with that error, and the counter never decreases |
| `EchoSrv.RunFrom` | examples/mio_reverse_echo_server.rs:109-156 | a failed poll ends the server with its error, and the counter never decreases |
| `EchoSrv.Run` | examples/mio_reverse_echo_server.rs:97-157 | every state `run` reaches is valid |
| `EchoSrv.HandleEventCoherent` | examples/mio_reverse_echo_server.rs:38-95 | on an event that matches the registration, `handle_event` never panics and leaves a connection registered writable with `buf_len` within its buffer |
| `EchoSrv.DispatchValid` | examples/mio_reverse_echo_server.rs:140-153 | every event keeps the state valid: the listener and exactly the open connections are registered, and every connection token is nonzero and below the counter |
| `EchoSrv.DispatchNoPanic` | examples/mio_reverse_echo_server.rs:140-153 | an event matching its connection's registration never panics and keeps `buf_len` within the buffer of every connection registered writable |
| `EchoSrv.DispatchFrame` | examples/mio_reverse_echo_server.rs:140-153 | an event changes no other connection or registration, and a token below the counter without a connection never gets one back |
| `EchoSrv.BatchValid` | examples/mio_reverse_echo_server.rs:112-155 | every batch keeps the state valid and never reuses a token that was free below the counter |
| `EchoSrv.BatchNoPanic` | examples/mio_reverse_echo_server.rs:112-155 | a batch of distinct-token events matching the registrations at the poll never panics and keeps the state coherent |
| `EchoSrv.RunValid` | examples/mio_reverse_echo_server.rs:109-156 | the loop state stays valid over any script of polls and events |
| `EchoSrv.BatchAppend` | examples/mio_reverse_echo_server.rs:112-155 | dispatching two runs of events in turn equals dispatching them together, and an error in the first skips the second |
| `EchoSrv.HandlerErrorEndsRun` | examples/mio_reverse_echo_server.rs:142 | a handler error ends the batch with that error, skipping the later events, and ends the server before any later poll |

## Left out

- Registry failures are not modelled. `register` (lines 104 and 128-129),
  `reregister` (lines 52 and 80) and `deregister` (line 150) always succeed.
  Their `?` errors come from the operating system.
- `peer_addr()` (line 149) is left out, and so are the error its `?` can
  return and the `println!` diagnostics (lines 89, 125 and 149). A done
  connection is always removed and deregistered.
- Creating the poller, the `Events` buffer of capacity 1024, and binding and
  parsing the address (lines 98-101) are left out, as is `main` (lines
  160-162). These are library and OS calls. A batch may hold any number of
  events.
- `poll.poll` (line 110) blocks until something is ready, and the loop of
  `run` never ends. The model runs over a finite script of poll results and
  stops when the script does.
- `EchoSrv.TokenNext`: the counter is unbounded. After 2^64 connections the
  `usize` increment of line 34 would overflow, which is not modelled.
- A short write delivers none of its bytes to the peer. The server returns
  WriteZero right after one, so those bytes play no further part.
- A write that reports more bytes than the reply has counts as complete, as
  the `Ok(_)` arm of line 51 does.
- White_Space is given concretely as the Unicode White_Space property (25
  code points), because every function needs a body. Only the worked
  examples depend on the table.
- No-panic is proved batch by batch (`EchoSrv.BatchNoPanic`), not over a
  whole run. Whether an event matches its registration depends on the
  registrations reached earlier, so the hypothesis is stated at each poll.
- Allocation failure in `resize`, `format!` and `to_string` is not modelled.
