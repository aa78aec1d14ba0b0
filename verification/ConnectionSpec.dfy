/**
 The connection's read and write coroutines, as the steps between their suspension points. A message
 is any state with the four transition functions a connection calls; the socket is any list of
 outcomes. `received`, `accepted`, `produced` and `wire` record what has passed each interface.
 */
module ConnectionSpec {
  import opened Bytes
  import opened Messages
  import opened StaticBuffer

  const CAPACITY := 4096

  // How far a coroutine has got. Awaiting: the socket has not answered.
  datatype Status = Running | Returned(err: Option<ErrorCode>) | Awaiting

  // ---------- reading ----------

  datatype ReadPhase = ReadStart | ReadHeader | ReadBody

  datatype Arrival = Data(bytes: seq<byte>) | ReadFailed(count: nat)

  datatype Consumed<+S> = Consumed(msg: S, reply: Reply)

  datatype Consumer<!S> = Consumer(header: (S, seq<byte>) -> Consumed<S>, body: (S, seq<byte>) -> Consumed<S>)

  datatype Reading<+S> = Reading(
    phase: ReadPhase, buffer: View, msg: S, status: Status,
    arrivals: seq<Arrival>, received: seq<byte>, accepted: seq<byte>)

  // The call: refused unless the last one has finished its message.
  function BeginRead<S>(c: Reading<S>, msg: S): Reading<S> {
    if c.phase != ReadStart then c.(msg := msg, status := Returned(Some(INVALID_STATE)))
    else c.(phase := ReadHeader, msg := msg, status := Running)
  }

  function Fetch<S>(c: Reading<S>): Reading<S> {
    if c.arrivals == [] then c.(status := Awaiting)
    else
      match c.arrivals[0]
      case ReadFailed(count) =>
        c.(status := Returned(Some(if count == 0 then CONNECTION_ENDED else SOCKET_READ_ERROR)), arrivals := c.arrivals[1..])
      case Data(bytes) =>
        // a socket delivers at most what the span holds; the rest comes later
        var space := c.buffer.Writable(CAPACITY);
        var n := if space <= 0 then 0 else Min(|bytes|, space);
        var later := if n < |bytes| then [Data(bytes[n..])] + c.arrivals[1..] else c.arrivals[1..];
        if n == 0 then c.(status := Returned(Some(CONNECTION_ENDED)), arrivals := later)
        else c.(buffer := c.buffer.Commit(bytes[..n]), arrivals := later, received := c.received + bytes[..n])
  }

  // One answer of the message is taken.
  function Take<S>(c: Reading<S>, r: Consumed<S>, next: ReadPhase): Reading<S> {
    if r.reply.err.Some? then c.(msg := r.msg, status := Returned(r.reply.err))
    else
      var readable := c.buffer.readable;
      c.(msg := r.msg, buffer := c.buffer.Consume(r.reply.count),
         accepted := c.accepted + readable[..Min(r.reply.count, |readable|)],
         phase := if r.reply.complete then next else c.phase,
         status := if r.reply.complete && next == ReadStart then Returned(None) else Running)
  }

  function FeedHeader<S>(ops: Consumer<S>, c: Reading<S>): Reading<S> {
    if c.phase == ReadHeader then Take(c, ops.header(c.msg, c.buffer.readable), ReadBody) else c
  }

  function FeedBody<S>(ops: Consumer<S>, c: Reading<S>): Reading<S> {
    if c.status == Running && c.phase == ReadBody then Take(c, ops.body(c.msg, c.buffer.readable), ReadStart) else c
  }

  function ReadStep<S>(ops: Consumer<S>, c: Reading<S>): Reading<S> {
    if c.status != Running then c
    else if c.buffer.readable == [] then Fetch(c)
    else FeedBody(ops, FeedHeader(ops, c))
  }

  function ReadRun<S>(ops: Consumer<S>, c: Reading<S>, steps: nat): Reading<S>
    decreases steps
  {
    if steps == 0 then c else ReadRun(ops, ReadStep(ops, c), steps - 1)
  }

  // ---------- writing ----------

  datatype WritePhase = WriteStart | WriteHeader | WriteBody

  datatype Departure = Sent(count: nat) | WriteFailed(count: nat)

  datatype Producer<!S> = Producer(header: (S, nat) -> Produced<S>, body: (S, nat) -> Produced<S>)

  // `filling`: messages fill the buffer; otherwise the socket drains it. `done`: nothing more to fill.
  datatype Writing<+S> = Writing(
    phase: WritePhase, buffer: View, msg: S, filling: bool, done: bool, status: Status,
    departures: seq<Departure>, produced: seq<byte>, wire: seq<byte>)

  function BeginWrite<S>(c: Writing<S>, msg: S): Writing<S> {
    if c.phase != WriteStart then c.(msg := msg, status := Returned(Some(INVALID_STATE)))
    else c.(phase := WriteHeader, msg := msg, filling := true, done := false, status := Running)
  }

  // The octets a message really gets to put into the span.
  function Fitting(c: View, bytes: seq<byte>): seq<byte> {
    var space := c.Writable(CAPACITY);
    if space <= 0 then [] else bytes[..Min(|bytes|, space)]
  }

  function Put<S>(c: Writing<S>, p: Produced<S>, next: WritePhase): Writing<S> {
    if p.reply.err.Some? then c.(msg := p.msg, status := Returned(p.reply.err))
    else
      var bytes := Fitting(c.buffer, p.bytes);
      c.(msg := p.msg, buffer := c.buffer.Commit(bytes), produced := c.produced + bytes,
         phase := if p.reply.complete then next else c.phase,
         done := p.reply.complete && next == WriteStart,
         filling := !(p.reply.complete && next == WriteStart))
  }

  function FillHeader<S>(ops: Producer<S>, c: Writing<S>): Writing<S> {
    if c.phase == WriteHeader then Put(c, ops.header(c.msg, Space(c)), WriteBody) else c
  }

  function FillBody<S>(ops: Producer<S>, c: Writing<S>): Writing<S> {
    if c.status == Running && c.phase == WriteBody then Put(c, ops.body(c.msg, Space(c)), WriteStart) else c
  }

  function Space<S>(c: Writing<S>): nat {
    var space := c.buffer.Writable(CAPACITY);
    if space <= 0 then 0 else space
  }

  function Drain<S>(c: Writing<S>): Writing<S> {
    if c.departures == [] then c.(status := Awaiting)
    else
      var later := c.departures[1..];
      match c.departures[0]
      case WriteFailed(count) =>
        c.(status := Returned(Some(if count == 0 then CONNECTION_ENDED else SOCKET_WRITE_ERROR)), departures := later)
      case Sent(count) =>
        // a socket sends at most what it is given
        var n := Min(count, |c.buffer.readable|);
        if n == 0 then c.(status := Returned(Some(CONNECTION_ENDED)), departures := later)
        else c.(buffer := c.buffer.Consume(n), departures := later, wire := c.wire + c.buffer.readable[..n])
  }

  function WriteStep<S>(ops: Producer<S>, c: Writing<S>): Writing<S> {
    if c.status != Running then c
    else if c.filling then
      if Space(c) == 0 then c.(filling := false) else FillBody(ops, FillHeader(ops, c))
    else if c.buffer.readable != [] then Drain(c)
    else if c.done then c.(status := Returned(None))
    else c.(filling := true)
  }

  function WriteRun<S>(ops: Producer<S>, c: Writing<S>, steps: nat): Writing<S>
    decreases steps
  {
    if steps == 0 then c else WriteRun(ops, WriteStep(ops, c), steps - 1)
  }

  lemma RunsStop<S>(ops: Consumer<S>, c: Reading<S>, steps: nat)
    requires c.status != Running
    ensures ReadRun(ops, c, steps) == c
  {}

  lemma WritesStop<S>(ops: Producer<S>, c: Writing<S>, steps: nat)
    requires c.status != Running
    ensures WriteRun(ops, c, steps) == c
  {}
}
