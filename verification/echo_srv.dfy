/**
 The server's event loop: the listening socket under token 0, a map from
 tokens to connections, the poller's registrations and the counter that
 hands out fresh tokens; each readiness event either drains the accept
 queue or runs `handle_event` on its connection.
 */
module EchoSrv {
  import opened Io
  import opened Handler

  /** The token the listening socket is registered under. */
  const ServerToken: Token := 0

  /** Everything `run` keeps between events. */
  datatype LoopState = LoopState(listener: Listener, conns: map<Token, Conn>, reg: Registry, uniqueToken: Token)

  /** `token_next`: the token to hand out and the counter after it. */
  function TokenNext(curr: Token): (r: (Token, Token))
    ensures r.0 == curr
    ensures r.1 == r.0 + 1
  {
    (curr, curr + 1)
  }

  /** The state before the first poll: the listener registered readable,
      no connections, and the counter one past the server's token. */
  function Init(listener: Listener): (s: LoopState)
    ensures Valid(s) && Coherent(s)
    ensures s.conns == map[] && s.reg == map[ServerToken := Readable]
    ensures s.uniqueToken == ServerToken + 1
  {
    LoopState(listener, map[], map[ServerToken := Readable], ServerToken + 1)
  }

  /** What stays true of the loop state between events: the listener and
      exactly the open connections are registered, the listener readable,
      and every connection's token is below the counter. */
  predicate Valid(s: LoopState) {
    && ServerToken in s.reg && s.reg[ServerToken] == Readable
    && ServerToken !in s.conns
    && s.reg.Keys == s.conns.Keys + {ServerToken}
    && ServerToken < s.uniqueToken
    && (forall t :: t in s.conns ==> t < s.uniqueToken)
  }

  /** Every connection registered writable has `buf_len` within its buffer,
      so the next write phase can slice the valid bytes. */
  predicate Coherent(s: LoopState)
    requires Valid(s)
  {
    forall t :: t in s.conns && s.reg[t] == Writable ==> s.conns[t].bufLen <= |s.conns[t].buf|
  }

  /** The state after accepting `peer`: stored under the next token with
      an empty buffer and registered readable. */
  function AcceptOne(s: LoopState, peer: Stream, queue: seq<AcceptOutcome>): (r: LoopState)
    ensures r.uniqueToken == s.uniqueToken + 1
    ensures s.uniqueToken in r.conns && r.conns[s.uniqueToken].stream == peer
  {
    var (token, next) := TokenNext(s.uniqueToken);
    s.(listener := Listener(queue),
       conns := s.conns[token := Conn(peer, [], 0)],
       reg := s.reg[token := Readable],
       uniqueToken := next)
  }

  /** The accept loop run on an event for the server's token: every pending
      connection is accepted under a fresh token, registered readable and
      stored with an empty buffer, until `accept` would block; any other
      error, Interrupted included, ends the server. */
  function AcceptDrain(s: LoopState): (r: IoResult<LoopState>)
    decreases |s.listener.accepts|
    ensures r.Err? ==> r.fault.IoError? && r.fault.kind != WouldBlock
    ensures r.Ok? ==> s.uniqueToken <= r.value.uniqueToken
    ensures r.Ok? ==> |r.value.listener.accepts| < |s.listener.accepts| || |s.listener.accepts| == 0
  {
    if |s.listener.accepts| == 0 then Ok(s)
    else
      var queue := s.listener.accepts[1..];
      match s.listener.accepts[0]
      case Accepted(peer) => AcceptDrain(AcceptOne(s, peer, queue))
      case AcceptErr(WouldBlock) => Ok(s.(listener := Listener(queue)))
      case AcceptErr(k) => Err(IoError(k))
  }

  /** One event of a batch: the server's token drains the accept queue; a
      token with a connection runs `handle_event`, drops the connection and
      its registration when the handler reports it done, and ends the server
      when the handler fails; any other token is ignored. */
  function Dispatch(s: LoopState, ev: Event): (r: IoResult<LoopState>)
    ensures ev.token == ServerToken ==> r == AcceptDrain(s)
    ensures ev.token != ServerToken && ev.token !in s.conns ==> r == Ok(s)
    ensures ev.token != ServerToken && ev.token in s.conns ==>
              var h := HandleEvent(s.reg, ev.token, s.conns[ev.token], ev);
              && (h.Err? <==> r.Err?)
              && (h.Err? ==> r.fault == h.fault)
              && (h.Ok? && h.value.done ==>
                    r.value.conns == s.conns - {ev.token} && r.value.reg == h.value.reg - {ev.token})
              && (h.Ok? && !h.value.done ==>
                    r.value.conns == s.conns[ev.token := h.value.conn] && r.value.reg == h.value.reg)
    ensures r.Ok? ==> s.uniqueToken <= r.value.uniqueToken
  {
    if ev.token == ServerToken then AcceptDrain(s)
    else if ev.token !in s.conns then Ok(s)
    else
      match HandleEvent(s.reg, ev.token, s.conns[ev.token], ev)
      case Err(f) => Err(f)
      case Ok(h) =>
        if h.done then Ok(s.(conns := s.conns - {ev.token}, reg := h.reg - {ev.token}))
        else Ok(s.(conns := s.conns[ev.token := h.conn], reg := h.reg))
  }

  /** What the accept loop adds: connections with empty buffers, registered
      readable, under exactly the tokens from the old counter to the new
      one; nothing else is added, and nothing outside that range changes. */
  ghost predicate AddsFresh(s: LoopState, r: LoopState) {
    && s.uniqueToken <= r.uniqueToken
    && (forall t :: t in r.conns <==> t in s.conns || s.uniqueToken <= t < r.uniqueToken)
    && (forall t :: t in r.reg <==> t in s.reg || s.uniqueToken <= t < r.uniqueToken)
    && (forall t :: s.uniqueToken <= t < r.uniqueToken ==>
          && t in r.conns && r.conns[t].buf == [] && r.conns[t].bufLen == 0
          && t in r.reg && r.reg[t] == Readable)
    && (forall t :: t in s.conns && !(s.uniqueToken <= t < r.uniqueToken) ==>
          t in r.conns && r.conns[t] == s.conns[t])
    && (forall t :: t in s.reg && !(s.uniqueToken <= t < r.uniqueToken) ==>
          t in r.reg && r.reg[t] == s.reg[t])
  }

  lemma {:induction false} AcceptDrainAddsFresh(s: LoopState)
    ensures AcceptDrain(s).Ok? ==> AddsFresh(s, AcceptDrain(s).value)
    decreases |s.listener.accepts|
  {
    if |s.listener.accepts| > 0 && s.listener.accepts[0].Accepted? {
      var s' := AcceptOne(s, s.listener.accepts[0].peer, s.listener.accepts[1..]);
      AcceptDrainAddsFresh(s');
      AcceptOneAddsFresh(s, s.listener.accepts[0].peer, s.listener.accepts[1..]);
      if AcceptDrain(s).Ok? {
        AddsFreshTrans(s, s', AcceptDrain(s).value);
      }
    }
  }

  lemma AcceptOneAddsFresh(s: LoopState, peer: Stream, queue: seq<AcceptOutcome>)
    ensures AddsFresh(s, AcceptOne(s, peer, queue))
  {
  }

  lemma AddsFreshTrans(a: LoopState, b: LoopState, c: LoopState)
    requires AddsFresh(a, b) && AddsFresh(b, c)
    ensures AddsFresh(a, c)
  {
  }

  /** The events of one poll, dispatched in order; the first error ends the
      batch (and the server). */
  function Batch(s: LoopState, events: seq<Event>): (r: IoResult<LoopState>)
    decreases |events|
    ensures |events| == 0 ==> r == Ok(s)
    ensures |events| > 0 && Dispatch(s, events[0]).Err? ==> r == Err(Dispatch(s, events[0]).fault)
    ensures r.Ok? ==> s.uniqueToken <= r.value.uniqueToken
  {
    if |events| == 0 then Ok(s)
    else
      match Dispatch(s, events[0])
      case Err(f) => Err(f)
      case Ok(s') => Batch(s', events[1..])
  }

  /** The main loop from state `s` over a script of poll results; a failed
      poll ends the server. The loop of the server never ends on its own:
      here it stops when the script does. */
  function RunFrom(s: LoopState, polls: seq<PollOutcome>): (r: IoResult<LoopState>)
    decreases |polls|
    ensures |polls| > 0 && polls[0].PollErr? ==> r == Err(IoError(polls[0].kind))
    ensures r.Ok? ==> s.uniqueToken <= r.value.uniqueToken
  {
    if |polls| == 0 then Ok(s)
    else
      match polls[0]
      case PollErr(k) => Err(IoError(k))
      case Ready(events) =>
        match Batch(s, events)
        case Err(f) => Err(f)
        case Ok(s') => RunFrom(s', polls[1..])
  }

  /** `run`, after the listener is bound and registered. */
  function Run(listener: Listener, polls: seq<PollOutcome>): (r: IoResult<LoopState>)
    ensures r.Ok? ==> Valid(r.value)
  {
    RunValid(Init(listener), polls);
    RunFrom(Init(listener), polls)
  }

  /** An event carries only the readiness its connection is registered for
      (the interest it was registered with). */
  predicate Matches(interest: Interest, ev: Event) {
    && (ev.readable ==> interest == Readable)
    && (ev.writable ==> interest == Writable)
  }

  /** The accept loop keeps the state valid and coherent. */
  lemma AcceptDrainValid(s: LoopState)
    requires Valid(s)
    ensures AcceptDrain(s).Ok? ==> Valid(AcceptDrain(s).value)
    ensures AcceptDrain(s).Ok? && Coherent(s) ==> Coherent(AcceptDrain(s).value)
  {
    var r := AcceptDrain(s);
    AcceptDrainAddsFresh(s);
    if r.Ok? {
      var v := r.value;
      assert v.reg.Keys == v.conns.Keys + {ServerToken};
      if Coherent(s) {
        forall t | t in v.conns && v.reg[t] == Writable
          ensures v.conns[t].bufLen <= |v.conns[t].buf|
        {
          assert t in s.conns && !(s.uniqueToken <= t < v.uniqueToken);
        }
      }
    }
  }

  /** `handle_event` on an event that matches the registration cannot slice
      past the buffer, and leaves a connection registered writable with
      `buf_len` within its buffer. */
  lemma HandleEventCoherent(reg: Registry, token: Token, conn: Conn, ev: Event)
    requires token == ev.token
    requires token in reg && Matches(reg[token], ev)
    requires reg[token] == Writable ==> conn.bufLen <= |conn.buf|
    ensures HandleEvent(reg, token, conn, ev) != Err(IndexPanic)
    ensures var r := HandleEvent(reg, token, conn, ev);
            r.Ok? && token in r.value.reg && r.value.reg[token] == Writable ==> r.value.conn.bufLen <= |r.value.conn.buf|
  {
    HandleEventPhases(reg, token, conn, ev);
    if ev.writable {
      var w := WritePhase(reg, token, conn);
      if w.Ok? {
        assert !ev.readable;
      }
    } else if ev.readable {
      assert reg[token] == Readable;
    }
  }

  /** Every event keeps the state valid. */
  lemma DispatchValid(s: LoopState, ev: Event)
    requires Valid(s)
    ensures Dispatch(s, ev).Ok? ==> Valid(Dispatch(s, ev).value)
  {
    if ev.token == ServerToken {
      AcceptDrainValid(s);
    } else if ev.token in s.conns && Dispatch(s, ev).Ok? {
      var v := Dispatch(s, ev).value;
      assert v.reg.Keys == v.conns.Keys + {ServerToken};
    }
  }

  /** An event for a connection that matches its registration never panics
      and keeps the state coherent; the server's token and unknown tokens
      never panic either. */
  lemma DispatchNoPanic(s: LoopState, ev: Event)
    requires Valid(s) && Coherent(s)
    requires ev.token in s.conns ==> Matches(s.reg[ev.token], ev)
    ensures Dispatch(s, ev) != Err(IndexPanic)
    ensures Dispatch(s, ev).Ok? ==> Valid(Dispatch(s, ev).value) && Coherent(Dispatch(s, ev).value)
  {
    DispatchValid(s, ev);
    if ev.token == ServerToken {
      AcceptDrainValid(s);
    } else if ev.token in s.conns {
      var t := ev.token;
      HandleEventCoherent(s.reg, t, s.conns[t], ev);
      if Dispatch(s, ev).Ok? {
        var v := Dispatch(s, ev).value;
        forall u | u in v.conns && v.reg[u] == Writable
          ensures v.conns[u].bufLen <= |v.conns[u].buf|
        {
          if u != t {
            assert v.conns[u] == s.conns[u] && v.reg[u] == s.reg[u];
          }
        }
      }
    }
  }

  /** An event touches no connection and no registration but its own,
      apart from connections the accept loop adds under fresh tokens; so a
      token below the counter that had no connection never gets one. */
  lemma DispatchFrame(s: LoopState, ev: Event)
    requires Valid(s)
    ensures var r := Dispatch(s, ev);
            r.Ok? ==>
              && (forall t :: t != ev.token && t in s.conns ==> t in r.value.conns && r.value.conns[t] == s.conns[t])
              && (forall t :: t != ev.token && t in s.reg ==> t in r.value.reg && r.value.reg[t] == s.reg[t])
              && (forall t :: t in r.value.conns && t < s.uniqueToken ==> t in s.conns)
  {
    if ev.token == ServerToken && AcceptDrain(s).Ok? {
      AcceptDrainAddsFresh(s);
      var v := AcceptDrain(s).value;
      forall t | t in s.conns
        ensures t in v.conns && v.conns[t] == s.conns[t]
      {
        assert t < s.uniqueToken;
      }
      forall t | t in s.reg
        ensures t in v.reg && v.reg[t] == s.reg[t]
      {
        assert t == ServerToken || t in s.conns;
      }
    }
  }

  /** Events of one batch with distinct tokens, each of the listener or of
      a connection registered for what the event carries. */
  predicate BatchMatches(s: LoopState, events: seq<Event>)
    requires Valid(s)
  {
    && (forall i :: 0 <= i < |events| ==> events[i].token in s.reg)
    && (forall i :: 0 <= i < |events| && events[i].token in s.conns ==>
          Matches(s.reg[events[i].token], events[i]))
    && (forall i, j :: 0 <= i < j < |events| ==> events[i].token != events[j].token)
  }

  /** Every batch keeps the state valid, and a batch never gives a
      connection to a token below the counter it started with that had
      none. */
  lemma {:induction false} BatchValid(s: LoopState, events: seq<Event>)
    requires Valid(s)
    decreases |events|
    ensures var r := Batch(s, events);
            r.Ok? ==> Valid(r.value) && forall t :: t in r.value.conns && t < s.uniqueToken ==> t in s.conns
  {
    if |events| > 0 {
      DispatchValid(s, events[0]);
      DispatchFrame(s, events[0]);
      var d := Dispatch(s, events[0]);
      if d.Ok? {
        BatchValid(d.value, events[1..]);
      }
    }
  }

  /** A batch whose events match the registrations at the poll never panics
      and keeps the state coherent. */
  lemma {:induction false} BatchNoPanic(s: LoopState, events: seq<Event>)
    requires Valid(s) && Coherent(s) && BatchMatches(s, events)
    ensures Batch(s, events) != Err(IndexPanic)
    ensures Batch(s, events).Ok? ==> Valid(Batch(s, events).value) && Coherent(Batch(s, events).value)
    decreases |events|
  {
    if |events| > 0 {
      var ev := events[0];
      DispatchNoPanic(s, ev);
      DispatchFrame(s, ev);
      var d := Dispatch(s, ev);
      if d.Ok? {
        var s' := d.value;
        var rest := events[1..];
        forall i | 0 <= i < |rest|
          ensures rest[i].token in s'.reg
          ensures rest[i].token in s'.conns ==> Matches(s'.reg[rest[i].token], rest[i])
        {
          assert rest[i] == events[i + 1];
          assert rest[i].token != ev.token;
          if rest[i].token in s'.conns {
            assert rest[i].token in s.reg;
          }
        }
        assert BatchMatches(s', rest);
        BatchNoPanic(s', rest);
      }
    }
  }

  /** The loop state stays valid over any script of polls, whatever events
      they carry. */
  lemma {:induction false} RunValid(s: LoopState, polls: seq<PollOutcome>)
    requires Valid(s)
    ensures RunFrom(s, polls).Ok? ==> Valid(RunFrom(s, polls).value)
    decreases |polls|
  {
    if |polls| > 0 && polls[0].Ready? {
      BatchValid(s, polls[0].events);
      var b := Batch(s, polls[0].events);
      if b.Ok? {
        RunValid(b.value, polls[1..]);
      }
    }
  }

  /** A listener queue that offers the connections `peers` in order. */
  function Offers(peers: seq<Stream>): (r: seq<AcceptOutcome>)
    ensures |r| == |peers|
    ensures forall i :: 0 <= i < |peers| ==> r[i] == Accepted(peers[i])
  {
    if |peers| == 0 then [] else [Accepted(peers[0])] + Offers(peers[1..])
  }

  /** The accept loop on a queue of pending connections followed by an
      error other than WouldBlock ends the server with that error, after
      accepting them all. */
  lemma {:induction false} AcceptDrainFails(s: LoopState, peers: seq<Stream>, stop: ErrorKind, rest: seq<AcceptOutcome>)
    requires stop != WouldBlock
    requires s.listener.accepts == Offers(peers) + [AcceptErr(stop)] + rest
    ensures AcceptDrain(s) == Err(IoError(stop))
    decreases |peers|
  {
    var q := s.listener.accepts;
    if |peers| == 0 {
      assert q[0] == AcceptErr(stop);
    } else {
      assert q[0] == Accepted(peers[0]);
      assert q[1..] == Offers(peers[1..]) + [AcceptErr(stop)] + rest;
      var s' := AcceptOne(s, peers[0], q[1..]);
      assert AcceptDrain(s) == AcceptDrain(s');
      AcceptDrainFails(s', peers[1..], stop, rest);
    }
  }

  /** The connections `peers` are stored in order under consecutive tokens
      starting at `first`. */
  predicate StoredInOrder(conns: map<Token, Conn>, first: Token, peers: seq<Stream>) {
    forall t: Token :: first <= t < first + |peers| ==> t in conns && conns[t].stream == peers[t - first]
  }

  /** The accept loop on a queue of pending connections followed by
      WouldBlock stores every pending connection, in order, under
      consecutive fresh tokens and leaves the queue at what follows. */
  lemma AcceptDrainTakes(s: LoopState, peers: seq<Stream>, rest: seq<AcceptOutcome>)
    requires s.listener.accepts == Offers(peers) + [AcceptErr(WouldBlock)] + rest
    ensures var r := AcceptDrain(s);
            && r.Ok?
            && r.value.uniqueToken == s.uniqueToken + |peers|
            && r.value.listener.accepts == rest
            && StoredInOrder(r.value.conns, s.uniqueToken, peers)
  {
    AcceptDrainCounts(s, peers, rest);
    AcceptDrainStores(s, peers, rest);
  }

  /** The counter advances by one per pending connection and the queue is
      left at what follows WouldBlock. */
  lemma {:induction false} AcceptDrainCounts(s: LoopState, peers: seq<Stream>, rest: seq<AcceptOutcome>)
    requires s.listener.accepts == Offers(peers) + [AcceptErr(WouldBlock)] + rest
    ensures var r := AcceptDrain(s);
            && r.Ok?
            && r.value.uniqueToken == s.uniqueToken + |peers|
            && r.value.listener.accepts == rest
    decreases |peers|
  {
    var q := s.listener.accepts;
    if |peers| == 0 {
      assert q[0] == AcceptErr(WouldBlock) && q[1..] == rest;
    } else {
      assert q[0] == Accepted(peers[0]);
      assert q[1..] == Offers(peers[1..]) + [AcceptErr(WouldBlock)] + rest;
      AcceptDrainCounts(AcceptOne(s, peers[0], q[1..]), peers[1..], rest);
    }
  }

  /** The i-th pending connection is stored under the counter's value plus i. */
  lemma {:induction false} AcceptDrainStores(s: LoopState, peers: seq<Stream>, rest: seq<AcceptOutcome>)
    requires s.listener.accepts == Offers(peers) + [AcceptErr(WouldBlock)] + rest
    ensures var r := AcceptDrain(s);
            r.Ok? ==> StoredInOrder(r.value.conns, s.uniqueToken, peers)
    decreases |peers|
  {
    var q := s.listener.accepts;
    if |peers| > 0 {
      assert q[0] == Accepted(peers[0]);
      assert q[1..] == Offers(peers[1..]) + [AcceptErr(WouldBlock)] + rest;
      var s' := AcceptOne(s, peers[0], q[1..]);
      AcceptFirst(s, peers[0]);
      AcceptDrainCounts(s', peers[1..], rest);
      AcceptDrainStores(s', peers[1..], rest);
      AcceptedInOrder(s, s', peers);
    }
  }

  /** A pending connection at the head of the queue is accepted before the
      rest of the loop runs. */
  lemma AcceptFirst(s: LoopState, peer: Stream)
    requires |s.listener.accepts| > 0 && s.listener.accepts[0] == Accepted(peer)
    ensures AcceptDrain(s) == AcceptDrain(AcceptOne(s, peer, s.listener.accepts[1..]))
  {
  }

  lemma AcceptedInOrder(s: LoopState, s': LoopState, peers: seq<Stream>)
    requires |peers| > 0
    requires s'.uniqueToken == s.uniqueToken + 1
    requires s.uniqueToken in s'.conns && s'.conns[s.uniqueToken].stream == peers[0]
    requires AcceptDrain(s').Ok?
    requires StoredInOrder(AcceptDrain(s').value.conns, s'.uniqueToken, peers[1..])
    ensures StoredInOrder(AcceptDrain(s').value.conns, s.uniqueToken, peers)
  {
    var r := AcceptDrain(s').value;
    AcceptDrainAddsFresh(s');
    var t0 := s.uniqueToken;
    assert t0 in r.conns && r.conns[t0].stream == peers[0] by {
      assert !(s'.uniqueToken <= t0 < r.uniqueToken);
    }
    forall t: Token | t0 < t < t0 + |peers|
      ensures t in r.conns && r.conns[t].stream == peers[t - t0]
    {
      assert peers[1..][t - s'.uniqueToken] == peers[t - t0];
    }
  }

  /** Dispatching two runs of events one after the other is dispatching
      them together; an error in the first run skips the second. */
  lemma {:induction false} BatchAppend(s: LoopState, a: seq<Event>, b: seq<Event>)
    ensures Batch(s, a + b) ==
              match Batch(s, a)
              case Err(f) => Err(f)
              case Ok(s') => Batch(s', b)
    decreases |a|
  {
    if |a| == 0 {
      assert a + b == b;
    } else {
      assert (a + b)[0] == a[0] && (a + b)[1..] == a[1..] + b;
      match Dispatch(s, a[0])
      case Err(_) =>
      case Ok(s') => BatchAppend(s', a[1..], b);
    }
  }

  /** An error from `handle_event` ends the server: the events after it in
      the batch are not dispatched and no later poll happens. */
  lemma HandlerErrorEndsRun(s: LoopState, events: seq<Event>, i: nat, polls: seq<PollOutcome>)
    requires i < |events|
    requires Batch(s, events[..i]).Ok?
    requires Dispatch(Batch(s, events[..i]).value, events[i]).Err?
    ensures var f := Dispatch(Batch(s, events[..i]).value, events[i]).fault;
            && Batch(s, events) == Err(f)
            && RunFrom(s, [Ready(events)] + polls) == Err(f)
  {
    assert events == events[..i] + events[i..];
    BatchAppend(s, events[..i], events[i..]);
    assert ([Ready(events)] + polls)[0] == Ready(events);
  }
}
