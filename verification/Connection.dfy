/**
 The connection as the source writes it: nested loops that move octets between two fixed buffers, a
 socket and the message. Each call is observed for a number of loop turns and proved to be that many
 steps of the specification.
 */
module Connection {
  import opened Bytes
  import opened Messages
  import StaticBuffer
  import opened ConnectionSpec

  class Connection {
    const readBuffer: StaticBuffer.StaticBuffer
    const writeBuffer: StaticBuffer.StaticBuffer
    var readState: ReadPhase
    var writeState: WritePhase

    // What the socket is going to answer, and what has passed each interface.
    var arrivals: seq<Arrival>
    var departures: seq<Departure>
    ghost var received: seq<byte>
    ghost var accepted: seq<byte>
    ghost var produced: seq<byte>
    ghost var wire: seq<byte>

    constructor (arrivals: seq<Arrival>, departures: seq<Departure>)
      ensures Valid() && readState == ReadStart && writeState == WriteStart
      ensures readBuffer.Contents() == writeBuffer.Contents() == StaticBuffer.EMPTY
      ensures received == accepted == produced == wire == []
    {
      readBuffer := new StaticBuffer.StaticBuffer(CAPACITY);
      writeBuffer := new StaticBuffer.StaticBuffer(CAPACITY);
      readState, writeState := ReadStart, WriteStart;
      this.arrivals, this.departures := arrivals, departures;
      received, accepted, produced, wire := [], [], [], [];
    }

    predicate Valid()
      reads this, readBuffer, writeBuffer
    {
      && readBuffer.Valid() && writeBuffer.Valid() && readBuffer != writeBuffer
      && readBuffer.buffer != writeBuffer.buffer
      && readBuffer.buffer.Length == writeBuffer.buffer.Length == CAPACITY
    }

    ghost function Reading<S>(msg: S, status: Status): ConnectionSpec.Reading<S>
      requires Valid()
      reads this, readBuffer, readBuffer.buffer, writeBuffer
    {
      ConnectionSpec.Reading(readState, readBuffer.Contents(), msg, status, arrivals, received, accepted)
    }

    ghost function Writing<S>(msg: S, filling: bool, done: bool, status: Status): ConnectionSpec.Writing<S>
      requires Valid()
      reads this, readBuffer, writeBuffer, writeBuffer.buffer
    {
      ConnectionSpec.Writing(writeState, writeBuffer.Contents(), msg, filling, done, status, departures, produced, wire)
    }

    // ---------- reading ----------

    // The socket answers a read into the writable span.
    method ReadSome<S>(ghost msg: S) returns (status: Status)
      requires Valid() && readBuffer.Empty()
      modifies this`arrivals, this`received, readBuffer`write, readBuffer.buffer
      ensures Valid()
      ensures Reading(msg, status) == Fetch(old(Reading(msg, Running)))
    {
      if arrivals == [] { return Awaiting; }
      var space := readBuffer.WritableSize();
      match arrivals[0] {
        case ReadFailed(count) =>
          arrivals := arrivals[1..];
          if count == 0 { return Returned(Some(CONNECTION_ENDED)); }
          return Returned(Some(SOCKET_READ_ERROR));
        case Data(bytes) =>
          var n := Min(|bytes|, space);
          arrivals := if n < |bytes| then [Data(bytes[n..])] + arrivals[1..] else arrivals[1..];
          if n == 0 { return Returned(Some(CONNECTION_ENDED)); }
          readBuffer.Fill(bytes[..n]);
          readBuffer.Commit(n);
          received := received + bytes[..n];
          status := Running;
      }
    }

    // One answer of the message: its error, or octets accepted and perhaps the next state.
    method Accept<S>(r: Consumed<S>, next: ReadPhase, ghost msg: S) returns (status: Status)
      requires Valid()
      modifies this`readState, this`accepted, readBuffer`read, readBuffer`write
      ensures Valid()
      ensures Reading(r.msg, status) == Take(old(Reading(msg, Running)), r, next)
    {
      hide StaticBuffer.View.Consume;
      ghost var before := Reading(msg, Running);
      if r.reply.err.Some? { return Returned(r.reply.err); }
      ghost var readable := readBuffer.ReadableSpan();
      assert readable == before.buffer.readable;
      readBuffer.Consume(r.reply.count);
      assert readBuffer.Contents() == before.buffer.Consume(r.reply.count);
      accepted := accepted + readable[..Min(r.reply.count, |readable|)];
      if r.reply.complete { readState := next; }
      status := if r.reply.complete && next == ReadStart then Returned(None) else Running;
    }

    // One turn of the inner loop: the header's answer, then the body's if the header is complete.
    method Feed<S>(ops: Consumer<S>, msg0: S) returns (msg: S, status: Status)
      requires Valid()
      modifies this`readState, this`accepted, readBuffer`read, readBuffer`write
      ensures Valid()
      ensures Reading(msg, status) == FeedBody(ops, FeedHeader(ops, old(Reading(msg0, Running))))
    {
      hide Take;
      msg, status := msg0, Running;
      if readState == ReadHeader {
        var r := ops.header(msg, readBuffer.ReadableSpan());
        status := Accept(r, ReadBody, msg);
        msg := r.msg;
        if status != Running { return; }
      }
      assert Reading(msg, status) == FeedHeader(ops, old(Reading(msg0, Running)));
      if readState == ReadBody {
        var r := ops.body(msg, readBuffer.ReadableSpan());
        status := Accept(r, ReadStart, msg);
        msg := r.msg;
      }
    }

    method Read<S>(ops: Consumer<S>, msg0: S, steps: nat) returns (msg: S, status: Status)
      requires Valid()
      modifies this`readState, this`arrivals, this`received, this`accepted, readBuffer, readBuffer.buffer
      ensures Valid()
      ensures Reading(msg, status) == ReadRun(ops, BeginRead(old(Reading(msg0, Running)), msg0), steps)
    {
      hide Fetch, FeedHeader, FeedBody, ReadRun;
      msg, status := msg0, Running;
      ghost var begun := BeginRead(Reading(msg0, Running), msg0);
      if readState != ReadStart {
        status := Returned(Some(INVALID_STATE));
        RunsStop(ops, begun, steps);
        return;
      }
      readState := ReadHeader;

      var budget: nat := steps;
      while true
        invariant Valid() && status == Running
        invariant ReadRun(ops, begun, steps) == ReadRun(ops, Reading(msg, status), budget)
        decreases budget
      {
        ghost var outer := budget;
        if readBuffer.Empty() {
          RunsNone(ops, Reading(msg, status));
          if budget == 0 { return; }
          budget := budget - 1;
          RunsOne(ops, Reading(msg, status), budget);
          status := ReadSome(msg);
          if status != Running {
            RunsStop(ops, Reading(msg, status), budget);
            return;
          }
        }
        while !readBuffer.Empty()
          invariant Valid() && status == Running
          invariant budget < outer || (budget == outer && !readBuffer.Empty())
          invariant ReadRun(ops, begun, steps) == ReadRun(ops, Reading(msg, status), budget)
          decreases budget
        {
          RunsNone(ops, Reading(msg, status));
          if budget == 0 { return; }
          budget := budget - 1;
          RunsOne(ops, Reading(msg, status), budget);
          msg, status := Feed(ops, msg);
          if status != Running {
            RunsStop(ops, Reading(msg, status), budget);
            return;
          }
        }
      }
    }

    // ---------- writing ----------

    // One answer of the message: its error, or octets it put into the writable span.
    method Fill<S>(p: Produced<S>, next: WritePhase, ghost msg: S) returns (done: bool, status: Status)
      requires Valid()
      modifies this`writeState, this`produced, writeBuffer`write, writeBuffer.buffer
      ensures Valid()
      ensures next != WriteStart || p.reply.err.Some? ==> !done
      ensures Writing(p.msg, !done, done, status) == Put(old(Writing(msg, true, false, Running)), p, next)
    {
      done, status := false, Running;
      if p.reply.err.Some? { return false, Returned(p.reply.err); }
      var bytes := p.bytes[..Min(|p.bytes|, writeBuffer.WritableSize())];
      writeBuffer.Fill(bytes);
      writeBuffer.Commit(|bytes|);
      produced := produced + bytes;
      if p.reply.complete { writeState := next; }
      done := p.reply.complete && next == WriteStart;
    }

    // The socket answers a write of the readable span.
    method WriteSome<S>(ghost msg: S, ghost done: bool) returns (status: Status)
      requires Valid()
      modifies this`departures, this`wire, writeBuffer`read, writeBuffer`write
      ensures Valid()
      ensures Writing(msg, false, done, status) == Drain(old(Writing(msg, false, done, Running)))
    {
      if departures == [] { return Awaiting; }
      var departure := departures[0];
      departures := departures[1..];
      match departure {
        case WriteFailed(count) =>
          if count == 0 { return Returned(Some(CONNECTION_ENDED)); }
          return Returned(Some(SOCKET_WRITE_ERROR));
        case Sent(count) =>
          var readable := writeBuffer.ReadableSpan();
          var n := Min(count, |readable|);
          if n == 0 { return Returned(Some(CONNECTION_ENDED)); }
          wire := wire + readable[..n];
          writeBuffer.Consume(n);
          status := Running;
      }
    }

    // One turn of the filling loop.
    method FillOnce<S>(ops: Producer<S>, msg0: S) returns (msg: S, done: bool, status: Status)
      requires Valid()
      modifies this`writeState, this`produced, writeBuffer`write, writeBuffer.buffer
      ensures Valid()
      ensures Writing(msg, !done, done, status) == FillBody(ops, FillHeader(ops, old(Writing(msg0, true, false, Running))))
    {
      hide Put;
      msg, done, status := msg0, false, Running;
      if writeState == WriteHeader {
        var p := ops.header(msg, writeBuffer.WritableSize());
        done, status := Fill(p, WriteBody, msg);
        msg := p.msg;
        if status != Running { return; }
      }
      assert Writing(msg, true, false, status) == FillHeader(ops, old(Writing(msg0, true, false, Running)));
      if writeState == WriteBody {
        var p := ops.body(msg, writeBuffer.WritableSize());
        done, status := Fill(p, WriteStart, msg);
        msg := p.msg;
      }
    }

    // Fills the buffer until it is full or the message is complete.
    method FillBuffer<S>(ops: Producer<S>, msg0: S, steps: nat) returns (msg: S, done: bool, status: Status, budget: nat)
      requires Valid()
      modifies this`writeState, this`produced, writeBuffer`write, writeBuffer.buffer
      ensures Valid() && budget <= steps
      ensures WriteRun(ops, old(Writing(msg0, true, false, Running)), steps) == WriteRun(ops, Writing(msg, !done, done, status), budget)
      ensures status == Running && budget > 0 && !done ==> writeBuffer.WritableSize() == 0
      ensures status == Running || budget == 0
    {
      hide WriteRun, FillHeader, FillBody, Drain;
      msg, done, status, budget := msg0, false, Running, steps;
      while writeBuffer.WritableSize() > 0 && budget > 0
        invariant Valid() && status == Running && !done && budget <= steps
        invariant WriteRun(ops, old(Writing(msg0, true, false, Running)), steps) == WriteRun(ops, Writing(msg, true, false, status), budget)
        decreases budget
      {
        budget := budget - 1;
        WritesOne(ops, Writing(msg, true, false, status), budget);
        msg, done, status := FillOnce(ops, msg);
        if status != Running {
          WritesStop(ops, Writing(msg, !done, done, status), budget);
          WritesStop(ops, Writing(msg, !done, done, status), 0);
          budget := 0;
          return;
        }
        if done { break; }
      }
    }

    // Drains the buffer into the socket.
    method DrainBuffer<S>(ops: Producer<S>, msg: S, done: bool, steps: nat) returns (status: Status, budget: nat)
      requires Valid()
      modifies this`departures, this`wire, writeBuffer`read, writeBuffer`write
      ensures Valid() && budget <= steps
      ensures WriteRun(ops, old(Writing(msg, false, done, Running)), steps) == WriteRun(ops, Writing(msg, false, done, status), budget)
      ensures status == Running && budget > 0 ==> writeBuffer.Empty()
      ensures status == Running || budget == 0
    {
      hide WriteRun, FillHeader, FillBody, Drain;
      status, budget := Running, steps;
      while !writeBuffer.Empty() && budget > 0
        invariant Valid() && status == Running && budget <= steps
        invariant WriteRun(ops, old(Writing(msg, false, done, Running)), steps) == WriteRun(ops, Writing(msg, false, done, status), budget)
        decreases budget
      {
        budget := budget - 1;
        WritesOne(ops, Writing(msg, false, done, status), budget);
        status := WriteSome(msg, done);
        if status != Running {
          WritesStop(ops, Writing(msg, false, done, status), budget);
          WritesStop(ops, Writing(msg, false, done, status), 0);
          budget := 0;
          return;
        }
      }
    }

    method Write<S>(ops: Producer<S>, msg0: S, steps: nat) returns (msg: S, ghost filling: bool, done: bool, status: Status)
      requires Valid()
      modifies this`writeState, this`departures, this`produced, this`wire, writeBuffer, writeBuffer.buffer
      ensures Valid()
      ensures Writing(msg, filling, done, status)
           == WriteRun(ops, BeginWrite(old(Writing(msg0, true, false, Running)), msg0), steps)
    {
      hide Drain, FillHeader, FillBody, WriteRun;
      msg, filling, done, status := msg0, true, false, Running;
      ghost var begun := BeginWrite(Writing(msg0, true, false, Running), msg0);
      if writeState != WriteStart {
        status := Returned(Some(INVALID_STATE));
        WritesStop(ops, begun, steps);
        return;
      }
      writeState := WriteHeader;

      var budget: nat := steps;
      while !done
        invariant Valid() && (status == Running || budget == 0) && (!done ==> filling) && (budget > 0 && done ==> !filling)
        invariant done && budget > 0 ==> writeBuffer.Empty()
        invariant WriteRun(ops, begun, steps) == WriteRun(ops, Writing(msg, filling, done, status), budget)
        decreases !done, budget
      {
        WritesNone(ops, Writing(msg, filling, done, status));
        if budget == 0 { return; }
        msg, done, status, budget := FillBuffer(ops, msg, budget);
        filling := !done;
        WritesNone(ops, Writing(msg, filling, done, status));
        if budget == 0 { return; }
        if !done {
          budget := budget - 1;
          WritesOne(ops, Writing(msg, filling, done, status), budget);
          filling := false;
        }
        status, budget := DrainBuffer(ops, msg, done, budget);
        WritesNone(ops, Writing(msg, filling, done, status));
        if budget == 0 { return; }
        if !done {
          budget := budget - 1;
          WritesOne(ops, Writing(msg, filling, done, status), budget);
          filling := true;
        }
      }
      WritesNone(ops, Writing(msg, filling, done, status));
      if budget == 0 { return; }
      WritesOne(ops, Writing(msg, filling, done, status), budget - 1);
      status := Returned(None);
      WritesStop(ops, Writing(msg, filling, done, status), budget - 1);
    }
  }

  lemma RunsOne<S>(ops: Consumer<S>, c: ConnectionSpec.Reading<S>, budget: nat)
    ensures ReadRun(ops, c, budget + 1) == ReadRun(ops, ReadStep(ops, c), budget)
  {}

  lemma RunsNone<S>(ops: Consumer<S>, c: ConnectionSpec.Reading<S>)
    ensures ReadRun(ops, c, 0) == c
  {}

  lemma WritesOne<S>(ops: Producer<S>, c: ConnectionSpec.Writing<S>, budget: nat)
    ensures WriteRun(ops, c, budget + 1) == WriteRun(ops, WriteStep(ops, c), budget)
  {}

  lemma WritesNone<S>(ops: Producer<S>, c: ConnectionSpec.Writing<S>)
    ensures WriteRun(ops, c, 0) == c
  {}
}
