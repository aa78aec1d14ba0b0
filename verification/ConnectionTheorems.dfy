/**
 What holds of every connection, whatever the messages answer and however the socket cuts the stream.
 */
module ConnectionTheorems {
  import opened Bytes
  import opened Messages
  import opened StaticBuffer
  import opened ConnectionSpec

  // ---------- reading: nothing is lost, repeated or reordered ----------

  // Octets received are those accepted by the messages, in order, followed by the readable ones; an
  // empty buffer has both cursors at zero; only a finished message leaves the connection ready.
  predicate Conserved<S>(c: Reading<S>) {
    && c.received == c.accepted + c.buffer.readable
    && c.buffer.read + |c.buffer.readable| <= CAPACITY
    && (c.buffer.readable == [] ==> c.buffer.read == 0)
  }

  predicate PhaseAgrees<S>(c: Reading<S>) {
    match c.status
    case Running => c.phase != ReadStart
    case Returned(None) => c.phase == ReadStart
    case Returned(Some(_)) => c.phase != ReadStart
    case Awaiting => c.phase != ReadStart
  }

  lemma TakeConserves<S>(c: Reading<S>, r: Consumed<S>, next: ReadPhase)
    requires Conserved(c)
    ensures Conserved(Take(c, r, next))
  {
    hide View.Consume;
    ConsumeConserves(c.accepted, c.buffer, r.reply.count);
  }

  lemma ConsumeConserves(accepted: seq<byte>, v: View, count: nat)
    requires v.read + |v.readable| <= CAPACITY && (v.readable == [] ==> v.read == 0)
    ensures var d := v.Consume(count);
      && accepted + v.readable == accepted + v.readable[..Min(count, |v.readable|)] + d.readable
      && d.read + |d.readable| <= CAPACITY && (d.readable == [] ==> d.read == 0)
  {
    var n := Min(count, |v.readable|);
    assert v.readable == v.readable[..n] + v.readable[n..];
    assert accepted + (v.readable[..n] + v.readable[n..]) == accepted + v.readable[..n] + v.readable[n..];
  }

  lemma FetchConserves<S>(c: Reading<S>)
    requires Conserved(c) && c.buffer.readable == []
    ensures Conserved(Fetch(c))
    // both cursors are zero, so the whole buffer is offered and committing never clamps
    ensures c.buffer == EMPTY && c.buffer.Writable(CAPACITY) == 4096
    ensures |Fetch(c).buffer.readable| <= CAPACITY
  {}

  lemma {:induction false} ReadStepConserves<S>(ops: Consumer<S>, c: Reading<S>)
    requires Conserved(c) && PhaseAgrees(c)
    ensures Conserved(ReadStep(ops, c)) && PhaseAgrees(ReadStep(ops, c))
  {
    hide Conserved;
    if c.status == Running {
      if c.buffer.readable == [] {
        FetchConserves(c);
      } else {
        var d := FeedHeader(ops, c);
        if c.phase == ReadHeader { TakeConserves(c, ops.header(c.msg, c.buffer.readable), ReadBody); }
        if d.status == Running && d.phase == ReadBody { TakeConserves(d, ops.body(d.msg, d.buffer.readable), ReadStart); }
      }
    }
  }

  lemma {:induction false} ReadRunConserves<S>(ops: Consumer<S>, c: Reading<S>, steps: nat)
    requires Conserved(c) && PhaseAgrees(c)
    ensures Conserved(ReadRun(ops, c, steps)) && PhaseAgrees(ReadRun(ops, c, steps))
    decreases steps
  {
    if steps > 0 {
      ReadStepConserves(ops, c);
      ReadRunConserves(ops, ReadStep(ops, c), steps - 1);
    }
  }

  // One read after another on the same connection, each observed for some number of steps.
  function Session<S>(ops: Consumer<S>, c: Reading<S>, calls: seq<(S, nat)>): Reading<S> {
    if calls == [] then c
    else
      var before := Session(ops, c, calls[..|calls| - 1]);
      var (msg, steps) := calls[|calls| - 1];
      ReadRun(ops, BeginRead(before, msg), steps)
  }

  // Stream conservation over any run of reads.
  lemma {:induction false} StreamConservation<S>(ops: Consumer<S>, c: Reading<S>, calls: seq<(S, nat)>)
    requires Conserved(c) && PhaseAgrees(c)
    ensures Conserved(Session(ops, c, calls)) && PhaseAgrees(Session(ops, c, calls))
  {
    if calls != [] {
      var before := Session(ops, c, calls[..|calls| - 1]);
      StreamConservation(ops, c, calls[..|calls| - 1]);
      ReadRunConserves(ops, BeginRead(before, calls[|calls| - 1].0), calls[|calls| - 1].1);
    }
  }

  // After an error (or while a read is still waiting) every later read returns INVALID_STATE and
  // changes nothing.
  lemma AfterError<S>(ops: Consumer<S>, c: Reading<S>, calls: seq<(S, nat)>, msg: S, steps: nat)
    requires Conserved(c) && PhaseAgrees(c)
    requires var s := Session(ops, c, calls); s.status == Awaiting || (s.status.Returned? && s.status.err.Some?)
    ensures var s := Session(ops, c, calls);
      ReadRun(ops, BeginRead(s, msg), steps) == s.(msg := msg, status := Returned(Some(INVALID_STATE)))
  {
    StreamConservation(ops, c, calls);
    RunsStop(ops, BeginRead(Session(ops, c, calls), msg), steps);
  }

  // ---------- how a read fails ----------

  // What the first answer of the socket without octets means: the end of the connection if it brought none,
  // whatever went wrong, and otherwise an error of the socket.
  function FirstFailure(arrivals: seq<Arrival>): Option<ErrorCode> {
    if arrivals == [] then None
    else
      match arrivals[0]
      case Data(bytes) => if bytes == [] then Some(CONNECTION_ENDED) else FirstFailure(arrivals[1..])
      case ReadFailed(count) => if count == 0 then Some(CONNECTION_ENDED) else Some(SOCKET_READ_ERROR)
  }

  lemma FetchFails<S>(c: Reading<S>)
    requires Conserved(c) && c.buffer.readable == [] && c.status == Running
    ensures var d := Fetch(c);
      && (d.status == Running ==> FirstFailure(d.arrivals) == FirstFailure(c.arrivals))
      && (d.status.Returned? ==> d.status.err.Some? && FirstFailure(c.arrivals) == d.status.err)
      && (d.status == Awaiting ==> FirstFailure(c.arrivals) == None)
  {
    FetchConserves(c);
    if c.arrivals != [] && c.arrivals[0].Data? {
      var later := Fetch(c).arrivals;
      if later != [] && later[0].Data? { assert later[1..] == c.arrivals[1..] || later == c.arrivals[1..]; }
    }
  }

  // After `k` steps the message has octets to read, and refuses them.
  predicate Refuses<S>(ops: Consumer<S>, c: Reading<S>, k: nat, e: ErrorCode) {
    var m := ReadRun(ops, c, k);
    m.status == Running && m.buffer.readable != [] && ReadStep(ops, m).status == Returned(Some(e))
  }

  // A read fails only as the message says or as the socket's first failure says; and while it goes on, that
  // failure is still to come.
  lemma {:induction false} ReadFails<S>(ops: Consumer<S>, c: Reading<S>, steps: nat)
    requires Conserved(c) && PhaseAgrees(c) && c.status == Running
    ensures var d := ReadRun(ops, c, steps);
      && (d.status == Running ==> FirstFailure(d.arrivals) == FirstFailure(c.arrivals))
      && (d.status.Returned? && d.status.err.Some? ==>
            FirstFailure(c.arrivals) == d.status.err || exists k :: 0 <= k < steps && Refuses(ops, c, k, d.status.err.value))
      && (d.status == Awaiting ==> FirstFailure(c.arrivals) == None)
    decreases steps
  {
    if steps > 0 {
      var s, d := ReadStep(ops, c), ReadRun(ops, c, steps);
      ReadStepConserves(ops, c);
      hide Conserved, PhaseAgrees, Take, FirstFailure;
      if c.buffer.readable == [] { FetchFails(c); } else { FeedKeepsArrivals(ops, c); }
      hide ReadStep;
      if s.status == Running {
        ReadFails(ops, s, steps - 1);
        if d.status.Returned? && d.status.err.Some? && FirstFailure(c.arrivals) != d.status.err {
          var k :| 0 <= k < steps - 1 && Refuses(ops, s, k, d.status.err.value);
          assert ReadRun(ops, c, k + 1) == ReadRun(ops, s, k);
          assert Refuses(ops, c, k + 1, d.status.err.value);
        }
      } else {
        RunsStop(ops, s, steps - 1);
        if c.buffer.readable != [] && s.status.Returned? && s.status.err.Some? {
          assert ReadRun(ops, c, 0) == c;
          assert Refuses(ops, c, 0, s.status.err.value);
        }
      }
    }
  }

  lemma FeedKeepsArrivals<S>(ops: Consumer<S>, c: Reading<S>)
    requires c.status == Running && c.buffer.readable != []
    ensures ReadStep(ops, c).arrivals == c.arrivals && ReadStep(ops, c).status != Awaiting
  {}

  // ---------- writing: what was produced is what is sent ----------

  predicate Flowing<S>(c: Writing<S>) {
    && c.produced == c.wire + c.buffer.readable
    && c.buffer.read + |c.buffer.readable| <= CAPACITY
    && (c.buffer.readable == [] ==> c.buffer.read == 0)
  }

  lemma PutFlows<S>(c: Writing<S>, p: Produced<S>, next: WritePhase)
    requires Flowing(c)
    ensures Flowing(Put(c, p, next))
  {
    var bytes := Fitting(c.buffer, p.bytes);
    assert c.wire + c.buffer.readable + bytes == c.wire + (c.buffer.readable + bytes);
  }

  lemma DrainFlows<S>(c: Writing<S>)
    requires Flowing(c) && c.buffer.readable != []
    ensures Flowing(Drain(c))
  {
    var readable := c.buffer.readable;
    assert forall n :: 0 <= n <= |readable| ==> c.wire + readable == c.wire + readable[..n] + readable[n..];
  }

  // ---------- exact transmission of a message with a header and a body ----------

  const OUTGOING: Producer<Outgoing> := Producer(
    (o: Outgoing, space: nat) => if o.Valid() then ProduceHeader(o, space) else Produced(o, Reply(Some(INVALID_MESSAGE), true, 0), []),
    (o: Outgoing, space: nat) => if o.Valid() then ProduceBody(o, space) else Produced(o, Reply(Some(INVALID_MESSAGE), true, 0), []))

  // `o` is the message before anything was sent, `start` what the connection had produced before it.
  predicate OnTheWay(c: Writing<Outgoing>, o: Outgoing, start: seq<byte>) {
    && c.msg.Valid() && c.msg.header == o.header && c.msg.body == o.body
    && (c.done ==> c.phase == WriteStart && !c.filling)
    && (c.status == Returned(None) ==> c.done && c.buffer == EMPTY)
    && (match c.phase
        case WriteHeader => c.produced == start + o.header[..c.msg.headerAt] && c.msg.bodyAt == 0
        case WriteBody => c.produced == start + o.header + o.body[..c.msg.bodyAt] && c.msg.headerAt == 0
        case WriteStart => c.done && c.produced == start + o.header + o.body && c.msg == o)
  }

  lemma PutIs<S>(c: Writing<S>, p: Produced<S>, next: WritePhase)
    requires p.reply.err == None && |p.bytes| <= Space(c)
    ensures Put(c, p, next) == c.(msg := p.msg, buffer := c.buffer.Commit(p.bytes), produced := c.produced + p.bytes,
      phase := if p.reply.complete then next else c.phase, done := p.reply.complete && next == WriteStart,
      filling := !(p.reply.complete && next == WriteStart))
  {
    assert p.bytes[..|p.bytes|] == p.bytes;
  }

  // The octets in front of `data`, its first `at` ones, and the next piece of it.
  lemma NextPiece(front: seq<byte>, data: seq<byte>, at: nat, n: nat)
    requires at + n <= |data|
    ensures front + data[..at] + data[at..at + n] == front + data[..at + n]
    ensures at + n == |data| ==> front + data[..at + n] == front + data
    ensures front + data[..0] == front
  {}

  lemma PutOnTheWay(c: Writing<Outgoing>, o: Outgoing, start: seq<byte>)
    requires Flowing(c) && OnTheWay(c, o, start) && c.status == Running && c.filling && Space(c) > 0
    requires o.headerAt == 0 && o.bodyAt == 0
    ensures OnTheWay(FillHeader(OUTGOING, c), o, start)
    ensures FillHeader(OUTGOING, c).status == Running && FillHeader(OUTGOING, c).filling
    ensures Flowing(FillHeader(OUTGOING, c))
  {
    hide Put, Space, Flowing;
    if c.phase == WriteHeader {
      var p := ProduceHeader(c.msg, Space(c));
      PutFlows(c, p, WriteBody);
      PutIs(c, p, WriteBody);
      NextPiece(start, o.header, c.msg.headerAt, p.reply.count);
      NextPiece(start + o.header, o.body, 0, 0);
    }
  }

  lemma FillOnTheWay(c: Writing<Outgoing>, o: Outgoing, start: seq<byte>)
    requires Flowing(c) && OnTheWay(c, o, start) && c.status == Running && c.filling
    requires o.headerAt == 0 && o.bodyAt == 0
    ensures OnTheWay(FillBody(OUTGOING, c), o, start) && Flowing(FillBody(OUTGOING, c))
  {
    hide Put, Space, Flowing;
    if c.phase == WriteBody {
      var p := ProduceBody(c.msg, Space(c));
      PutFlows(c, p, WriteStart);
      PutIs(c, p, WriteStart);
      NextPiece(start + o.header, o.body, c.msg.bodyAt, p.reply.count);
    }
  }

  lemma {:induction false} WriteStepOnTheWay(c: Writing<Outgoing>, o: Outgoing, start: seq<byte>)
    requires Flowing(c) && OnTheWay(c, o, start) && o.headerAt == 0 && o.bodyAt == 0
    ensures var d := WriteStep(OUTGOING, c); Flowing(d) && OnTheWay(d, o, start)
  {
    if c.status == Running {
      if c.filling {
        if Space(c) > 0 {
          PutOnTheWay(c, o, start);
          FillOnTheWay(FillHeader(OUTGOING, c), o, start);
        }
      } else if c.buffer.readable != [] {
        DrainFlows(c);
      }
    }
  }

  lemma {:induction false} WriteRunOnTheWay(c: Writing<Outgoing>, o: Outgoing, start: seq<byte>, steps: nat)
    requires Flowing(c) && OnTheWay(c, o, start) && o.headerAt == 0 && o.bodyAt == 0
    ensures var d := WriteRun(OUTGOING, c, steps); Flowing(d) && OnTheWay(d, o, start)
    decreases steps
  {
    if steps > 0 {
      WriteStepOnTheWay(c, o, start);
      WriteRunOnTheWay(WriteStep(OUTGOING, c), o, start, steps - 1);
    }
  }

  // Whatever partial writes the socket makes, and whatever an earlier write left in the buffer: at any
  // time the wire holds a prefix of that, the header and the body, and when the write succeeds it holds
  // exactly those, the connection is ready again with an empty buffer, and the message is back at its
  // start, so that writing it again sends the same octets.
  lemma ExactTransmission(c: Writing<Outgoing>, o: Outgoing, steps: nat)
    requires c.phase == WriteStart && Flowing(c) && o.headerAt == 0 && o.bodyAt == 0
    ensures var d, all := WriteRun(OUTGOING, BeginWrite(c, o), steps), c.wire + c.buffer.readable + o.header + o.body;
      && c.wire <= d.wire && d.wire <= all
      && (d.status == Returned(None) ==>
            && d.wire == all && d.produced == d.wire
            && d.phase == WriteStart && d.buffer == EMPTY && d.msg == o)
  {
    var b := BeginWrite(c, o);
    assert c.produced + o.header[..0] == c.produced;
    WriteRunOnTheWay(b, o, c.produced, steps);
    var d := WriteRun(OUTGOING, b, steps);
    WireGrows(OUTGOING, b, steps);
    assert d.produced <= c.produced + o.header + o.body by {
      assert c.produced + o.header[..d.msg.headerAt] <= c.produced + o.header;
    }
    assert d.wire + [] == d.wire;
  }

  lemma {:induction false} WireGrows<S>(ops: Producer<S>, c: Writing<S>, steps: nat)
    ensures c.wire <= WriteRun(ops, c, steps).wire
    decreases steps
  {
    if steps > 0 { WireGrows(ops, WriteStep(ops, c), steps - 1); }
  }

  // ---------- a write gets through ----------

  // The socket takes at least one octet each time.
  predicate AllTaken(departures: seq<Departure>) {
    forall k :: 0 <= k < |departures| ==> departures[k].Sent? && departures[k].count > 0
  }

  // What the message has still to produce.
  function ToProduce(c: Writing<Outgoing>): int {
    match c.phase
    case WriteHeader => |c.msg.header| - c.msg.headerAt + |c.msg.body|
    case WriteBody => |c.msg.body| - c.msg.bodyAt
    case WriteStart => 0
  }

  function PhasesLeft(p: WritePhase): nat {
    match p case WriteHeader => 2 case WriteBody => 1 case WriteStart => 0
  }

  // Every step lowers this: producing, draining, or turning from one to the other.
  function Effort(c: Writing<Outgoing>): int {
    5 * (ToProduce(c) + PhasesLeft(c.phase)) + 3 * |c.buffer.readable|
    + (if c.filling then 1 else if c.buffer.readable == [] then 2 else 0)
  }

  // The socket has an answer for every octet still to be sent.
  predicate Willing(c: Writing<Outgoing>) {
    AllTaken(c.departures) && |c.departures| >= ToProduce(c) + |c.buffer.readable|
  }

  lemma HeaderProgress(c: Writing<Outgoing>, o: Outgoing, start: seq<byte>)
    requires Flowing(c) && OnTheWay(c, o, start) && c.status == Running && c.filling && Space(c) > 0
    ensures var d := FillHeader(OUTGOING, c);
      && d.departures == c.departures && ToProduce(d) + |d.buffer.readable| == ToProduce(c) + |c.buffer.readable|
      && ToProduce(d) + PhasesLeft(d.phase) <= ToProduce(c) + PhasesLeft(c.phase)
      && (c.phase == WriteHeader ==> ToProduce(d) + PhasesLeft(d.phase) < ToProduce(c) + PhasesLeft(c.phase))
  {
    hide Put, Space, Flowing;
    if c.phase == WriteHeader { PutIs(c, ProduceHeader(c.msg, Space(c)), WriteBody); }
  }

  // After the header step the span may be full; then the body step adds nothing.
  lemma BodyProgress(c: Writing<Outgoing>, o: Outgoing, start: seq<byte>)
    requires Flowing(c) && OnTheWay(c, o, start) && c.status == Running && c.filling
    ensures var d := FillBody(OUTGOING, c);
      && d.status == Running
      && d.departures == c.departures && ToProduce(d) + |d.buffer.readable| == ToProduce(c) + |c.buffer.readable|
      && ToProduce(d) + PhasesLeft(d.phase) <= ToProduce(c) + PhasesLeft(c.phase)
      && (c.phase == WriteBody && Space(c) > 0 ==> ToProduce(d) + PhasesLeft(d.phase) < ToProduce(c) + PhasesLeft(c.phase))
      && (d.filling || ToProduce(d) + PhasesLeft(d.phase) < ToProduce(c) + PhasesLeft(c.phase))
  {
    hide Put, Space, Flowing;
    if c.phase == WriteBody { PutIs(c, ProduceBody(c.msg, Space(c)), WriteStart); }
  }

  lemma FillProgress(c: Writing<Outgoing>, o: Outgoing, start: seq<byte>)
    requires Flowing(c) && OnTheWay(c, o, start) && o.headerAt == 0 && o.bodyAt == 0
    requires c.status == Running && c.filling && Space(c) > 0 && Willing(c)
    ensures var d := FillBody(OUTGOING, FillHeader(OUTGOING, c));
      d.status == Running && Willing(d) && Effort(d) < Effort(c)
  {
    PutOnTheWay(c, o, start);
    HeaderProgress(c, o, start);
    var h := FillHeader(OUTGOING, c);
    BodyProgress(h, o, start);
    hide Space, Flowing, AllTaken, ToProduce;
  }

  lemma DrainProgress(c: Writing<Outgoing>)
    requires c.status == Running && !c.filling && c.buffer.readable != [] && Willing(c) && c.msg.Valid()
    ensures var d := Drain(c);
      d.status == Running && Willing(d) && Effort(d) < Effort(c)
  {
    assert c.departures[0].Sent? && c.departures[0].count > 0;
    assert ToProduce(c) >= 0;
  }

  lemma {:induction false} WriteProgress(c: Writing<Outgoing>, o: Outgoing, start: seq<byte>)
    requires Flowing(c) && OnTheWay(c, o, start) && o.headerAt == 0 && o.bodyAt == 0
    requires c.status == Running && Willing(c)
    ensures var d := WriteStep(OUTGOING, c);
      d.status == Returned(None) || (d.status == Running && Willing(d) && Effort(d) < Effort(c))
  {
    if c.filling && Space(c) > 0 {
      FillProgress(c, o, start);
    } else if !c.filling && c.buffer.readable != [] {
      DrainProgress(c);
    }
  }

  lemma {:induction false} WriteRunReturns(c: Writing<Outgoing>, o: Outgoing, start: seq<byte>, steps: nat)
    requires Flowing(c) && OnTheWay(c, o, start) && o.headerAt == 0 && o.bodyAt == 0
    requires c.status == Running && Willing(c) && steps > Effort(c)
    ensures WriteRun(OUTGOING, c, steps).status == Returned(None)
    decreases steps
  {
    EffortIsNotNegative(c);
    hide Flowing, OnTheWay, Willing, Effort, WriteStep;
    WriteProgress(c, o, start);
    WriteStepOnTheWay(c, o, start);
    var d := WriteStep(OUTGOING, c);
    if d.status == Running { WriteRunReturns(d, o, start, steps - 1); } else { WritesStop(OUTGOING, d, steps - 1); }
  }

  lemma EffortIsNotNegative(c: Writing<Outgoing>)
    requires c.msg.Valid()
    ensures Effort(c) >= 0
  {}

  // With an answer of at least one octet for every octet to be sent, the write succeeds, within a bound
  // given by the size of the message and of what is left in the buffer.
  lemma WriteSucceeds(c: Writing<Outgoing>, o: Outgoing, steps: nat)
    requires c.phase == WriteStart && Flowing(c) && o.headerAt == 0 && o.bodyAt == 0
    requires AllTaken(c.departures) && |c.departures| >= |o.header| + |o.body| + |c.buffer.readable|
    requires steps > 5 * (|o.header| + |o.body|) + 3 * |c.buffer.readable| + 11
    ensures WriteRun(OUTGOING, BeginWrite(c, o), steps).status == Returned(None)
  {
    var b := BeginWrite(c, o);
    assert c.produced + o.header[..0] == c.produced;
    WriteRunReturns(b, o, c.produced, steps);
  }

  // ---------- one write after another ----------

  lemma WriteStepFlows<S>(ops: Producer<S>, c: Writing<S>)
    requires Flowing(c)
    ensures Flowing(WriteStep(ops, c))
  {
    hide Flowing, Put;
    if c.status == Running {
      if c.filling {
        var d := FillHeader(ops, c);
        if c.phase == WriteHeader { PutFlows(c, ops.header(c.msg, Space(c)), WriteBody); }
        if d.status == Running && d.phase == WriteBody { PutFlows(d, ops.body(d.msg, Space(d)), WriteStart); }
        TurnFlows(c, false);
      } else if c.buffer.readable != [] {
        DrainFlows(c);
      } else {
        TurnFlows(c, true);
        ReturnFlows(c);
      }
    }
  }

  lemma TurnFlows<S>(c: Writing<S>, filling: bool)
    requires Flowing(c)
    ensures Flowing(c.(filling := filling))
  {}

  lemma ReturnFlows<S>(c: Writing<S>)
    requires Flowing(c)
    ensures Flowing(c.(status := Returned(None)))
  {}

  // A message has produced everything exactly if the connection is back at its start.
  predicate DoneAtStart<S>(c: Writing<S>) {
    && (c.done <==> c.phase == WriteStart) && (c.status == Running && c.filling ==> !c.done)
    && (c.status == Returned(None) ==> c.done)
  }

  lemma WriteStepDone<S>(ops: Producer<S>, c: Writing<S>)
    requires DoneAtStart(c)
    ensures DoneAtStart(WriteStep(ops, c))
  {}

  lemma {:induction false} WriteRunFlows<S>(ops: Producer<S>, c: Writing<S>, steps: nat)
    requires Flowing(c) && DoneAtStart(c)
    ensures Flowing(WriteRun(ops, c, steps)) && DoneAtStart(WriteRun(ops, c, steps))
    decreases steps
  {
    hide Flowing, DoneAtStart, WriteStep;
    if steps > 0 {
      WriteStepFlows(ops, c);
      WriteStepDone(ops, c);
      WriteRunFlows(ops, WriteStep(ops, c), steps - 1);
    }
  }

  // One write after another on the same connection, each observed for some number of steps.
  function WriteSession<S>(ops: Producer<S>, c: Writing<S>, calls: seq<(S, nat)>): Writing<S> {
    if calls == [] then c
    else
      var before := WriteSession(ops, c, calls[..|calls| - 1]);
      var (msg, steps) := calls[|calls| - 1];
      WriteRun(ops, BeginWrite(before, msg), steps)
  }

  // Over any run of writes of any messages, whatever the sockets did: what the messages produced, in
  // order, is what is on the wire followed by what is in the buffer. After a write, the next one is
  // refused exactly if that write's message has not produced everything, and then changes nothing.
  lemma {:induction false} WriteConservation<S>(ops: Producer<S>, c: Writing<S>, calls: seq<(S, nat)>, msg: S, steps: nat)
    requires Flowing(c) && DoneAtStart(c)
    ensures var s := WriteSession(ops, c, calls);
      && Flowing(s) && DoneAtStart(s)
      && (s.done <==> BeginWrite(s, msg).status == Running)
      && (!s.done ==> WriteRun(ops, BeginWrite(s, msg), steps) == s.(msg := msg, status := Returned(Some(INVALID_STATE))))
    decreases |calls|
  {
    hide Flowing;
    if calls != [] {
      var before := WriteSession(ops, c, calls[..|calls| - 1]);
      WriteConservation(ops, c, calls[..|calls| - 1], msg, steps);
      BeginFlows(before, calls[|calls| - 1].0);
      WriteRunFlows(ops, BeginWrite(before, calls[|calls| - 1].0), calls[|calls| - 1].1);
    }
    var s := WriteSession(ops, c, calls);
    if !s.done { WritesStop(ops, BeginWrite(s, msg), steps); }
  }

  lemma BeginFlows<S>(c: Writing<S>, msg: S)
    requires Flowing(c) && DoneAtStart(c)
    ensures Flowing(BeginWrite(c, msg)) && DoneAtStart(BeginWrite(c, msg))
  {}

  // A write whose last octets the socket refuses fails, but leaves the connection at its start with
  // those octets in the buffer; the next write is accepted, and sends them first.
  lemma LeftoverIsSent(c: Writing<Outgoing>, o: Outgoing, next: Outgoing, refused: nat, steps: nat)
    requires c.phase == WriteStart && c.buffer == EMPTY && c.produced == c.wire
    requires o.headerAt == o.bodyAt == next.headerAt == next.bodyAt == 0 && 0 < |o.header| + |o.body| <= CAPACITY
    requires refused > 0 && c.departures != [] && c.departures[0] == WriteFailed(refused)
    ensures var failed := WriteRun(OUTGOING, BeginWrite(c, o), 2);
      && failed.status == Returned(Some(SOCKET_WRITE_ERROR)) && failed.wire == c.wire
      && failed.phase == WriteStart && failed.buffer.readable == o.header + o.body
      && var d := WriteRun(OUTGOING, BeginWrite(failed, next), steps);
      (d.status == Returned(None) ==> d.wire == c.wire + (o.header + o.body) + next.header + next.body)
  {
    var b := BeginWrite(c, o);
    FillsAtOnce(b, o);
    var f := WriteStep(OUTGOING, b);
    var failed := WriteStep(OUTGOING, f);
    assert WriteRun(OUTGOING, b, 2) == WriteRun(OUTGOING, f, 1) == WriteRun(OUTGOING, failed, 0) == failed;
    hide WriteRun, WriteStep;
    ExactTransmission(failed, next, steps);
  }

  lemma FillsAtOnce(b: Writing<Outgoing>, o: Outgoing)
    requires b.phase == WriteHeader && b.buffer == EMPTY && b.msg == o && b.filling && b.status == Running
    requires o.headerAt == o.bodyAt == 0 && 0 < |o.header| + |o.body| <= CAPACITY
    ensures var f := WriteStep(OUTGOING, b);
      f == b.(msg := o, buffer := View(0, o.header + o.body), produced := b.produced + o.header + o.body, phase := WriteStart,
              done := true, filling := false)
  {
    hide Put;
    assert Space(b) == CAPACITY && o.header[0..|o.header|] == o.header && o.body[0..|o.body|] == o.body;
    PutIs(b, ProduceHeader(o, CAPACITY), WriteBody);
    var h := FillHeader(OUTGOING, b);
    assert [] + o.header == o.header;
    assert h.buffer == View(0, o.header) && h.msg == o && h.phase == WriteBody;
    PutIs(h, ProduceBody(o, CAPACITY - |o.header|), WriteStart);
  }

  // ---------- how a write fails ----------

  function FirstWriteFailure(departures: seq<Departure>): Option<ErrorCode> {
    if departures == [] then None
    else
      match departures[0]
      case Sent(count) => if count == 0 then Some(CONNECTION_ENDED) else FirstWriteFailure(departures[1..])
      case WriteFailed(count) => if count == 0 then Some(CONNECTION_ENDED) else Some(SOCKET_WRITE_ERROR)
  }

  lemma DrainFails<S>(c: Writing<S>)
    requires c.buffer.readable != [] && c.status == Running
    ensures var d := Drain(c);
      && (d.status == Running ==> FirstWriteFailure(d.departures) == FirstWriteFailure(c.departures))
      && (d.status.Returned? ==> d.status.err.Some? && FirstWriteFailure(c.departures) == d.status.err)
      && (d.status == Awaiting ==> FirstWriteFailure(c.departures) == None)
  {}

  // After `k` steps the message has room to fill, and fails to.
  predicate FailsToFill<S>(ops: Producer<S>, c: Writing<S>, k: nat, e: ErrorCode) {
    var m := WriteRun(ops, c, k);
    m.status == Running && m.filling && Space(m) > 0 && WriteStep(ops, m).status == Returned(Some(e))
  }

  // A write fails only as the message says or as the socket's first failure says; and while it goes on, that
  // failure is still to come.
  lemma {:induction false} WriteFails<S>(ops: Producer<S>, c: Writing<S>, steps: nat)
    requires c.status == Running
    ensures var d := WriteRun(ops, c, steps);
      && (d.status == Running ==> FirstWriteFailure(d.departures) == FirstWriteFailure(c.departures))
      && (d.status.Returned? && d.status.err.Some? ==>
            FirstWriteFailure(c.departures) == d.status.err
            || exists k :: 0 <= k < steps && FailsToFill(ops, c, k, d.status.err.value))
      && (d.status == Awaiting ==> FirstWriteFailure(c.departures) == None)
    decreases steps
  {
    if steps > 0 {
      var s, d := WriteStep(ops, c), WriteRun(ops, c, steps);
      if !c.filling && c.buffer.readable != [] { DrainFails(c); } else { FillKeepsDepartures(ops, c); }
      hide WriteStep, FirstWriteFailure, Space;
      if s.status == Running {
        WriteFails(ops, s, steps - 1);
        if d.status.Returned? && d.status.err.Some? && FirstWriteFailure(c.departures) != d.status.err {
          var k :| 0 <= k < steps - 1 && FailsToFill(ops, s, k, d.status.err.value);
          assert WriteRun(ops, c, k + 1) == WriteRun(ops, s, k);
          assert FailsToFill(ops, c, k + 1, d.status.err.value);
        }
      } else {
        WritesStop(ops, s, steps - 1);
        if s.status.Returned? && s.status.err.Some? && FirstWriteFailure(c.departures) != s.status.err {
          assert WriteRun(ops, c, 0) == c;
          assert FailsToFill(ops, c, 0, s.status.err.value);
        }
      }
    }
  }

  lemma FillKeepsDepartures<S>(ops: Producer<S>, c: Writing<S>)
    requires c.status == Running && (c.filling || c.buffer.readable == [])
    ensures var d := WriteStep(ops, c);
      && d.departures == c.departures && d.status != Awaiting
      && (d.status.Returned? && d.status.err.Some? ==> c.filling && Space(c) > 0)
  {}
}
