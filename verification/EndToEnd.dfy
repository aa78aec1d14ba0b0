/**
 From one end to the other: a packed value crosses the stream however the sockets cut it, and what
 follows it on the stream stays unread.
 */
module EndToEnd {
  import opened Bytes
  import opened Messages
  import opened Words
  import opened StaticBuffer
  import opened ConnectionSpec
  import opened ConnectionTheorems
  import opened BinaryMessage
  import opened Delivery
  import MsgPackSpec
  import MsgPackTheorems
  import HeadSpec
  import Response
  import ResponseHead
  import ResponseText

  // The eight octets of the length reach the message in one call.
  predicate HeaderTogether<S>(c: Reading<S>) {
    if c.buffer.readable != [] then |c.buffer.readable| >= 8
    else c.arrivals != [] && c.arrivals[0].Data? ==> |c.arrivals[0].bytes| >= 8
  }

  function Framed(body: seq<byte>): seq<byte> {
    BigEndian(|body|, 8) + body
  }

  // Receiving `body`, with `start` accepted before it and `rest` behind it on the stream.
  predicate Arriving(c: Reading<Incoming>, start: seq<byte>, body: seq<byte>, rest: seq<byte>) {
    && c.msg.Valid()
    && (c.status.Returned? ==> c.status.err in {None, Some(CONNECTION_ENDED), Some(SOCKET_READ_ERROR)})
    && (c.status == Returned(None) <==> c.phase == ReadStart)
    && (match c.phase
        case ReadHeader =>
          && c.msg.headIdx == c.msg.bodyIdx == 0
          && c.accepted == start && Stream(c) == Framed(body) + rest
          && (c.status == Running ==> HeaderTogether(c))
        case ReadBody => Filling(c.msg, body) && c.accepted == start + BigEndian(|body|, 8) + body[..c.msg.bodyIdx]
          && Stream(c) == body[c.msg.bodyIdx..] + rest
        case ReadStart => c.msg.buffer == body && c.accepted == start + BigEndian(|body|, 8) + body && Stream(c) == rest)
  }

  predicate Filling(m: Incoming, body: seq<byte>) {
    && m.length == |body| && m.bodyIdx <= |body|
    && (m.bodyIdx > 0 ==> |m.buffer| == |body| && m.buffer[..m.bodyIdx] == body[..m.bodyIdx])
  }

  lemma FetchKeepsHeader<S>(c: Reading<S>)
    requires Conserved(c) && c.buffer.readable == [] && c.status == Running && HeaderTogether(c)
    ensures Fetch(c).status == Running ==> HeaderTogether(Fetch(c))
  {
    FetchConserves(c);
  }

  lemma FetchArrives(c: Reading<Incoming>, start: seq<byte>, body: seq<byte>, rest: seq<byte>)
    requires Conserved(c) && c.buffer.readable == [] && c.status == Running && Arriving(c, start, body, rest)
    ensures Arriving(Fetch(c), start, body, rest)
  {
    FetchKeepsStream(c);
    if c.phase == ReadHeader { FetchKeepsHeader(c); }
    hide Stream, HeaderTogether, Framed, Filling;
  }

  lemma HeaderArrives(c: Reading<Incoming>, start: seq<byte>, body: seq<byte>, rest: seq<byte>)
    requires Conserved(c) && c.buffer.readable != [] && c.status == Running && Arriving(c, start, body, rest)
    requires |body| < Pow256(8)
    ensures var d := FeedHeader(INCOMING, c); d.status == Running && d.phase == ReadBody && Arriving(d, start, body, rest)
  {
    if c.phase == ReadHeader {
      var header := BigEndian(|body|, 8);
      assert header + body + rest == header + (body + rest);
      TakenOff(c.buffer.readable, Pending(c.arrivals), header, body + rest);
      var block := Overwritten(Memory(c.msg.length), 0, c.buffer.readable[..8]);
      assert block == header;
      WordRoundTrip(|body|, 8);
      assert body[..0] == [] && body[0..] == body && start + header + [] == start + header;
      assert c.buffer.readable[8..] + Pending(c.arrivals) == body + rest;
    }
  }

  lemma BodyArrives(c: Reading<Incoming>, start: seq<byte>, body: seq<byte>, rest: seq<byte>)
    requires Conserved(c) && c.status == Running && c.phase == ReadBody && Arriving(c, start, body, rest)
    ensures var d := FeedBody(INCOMING, c);
      && Arriving(d, start, body, rest) && (d.status == Running ==> d.msg.bodyIdx < |body|)
      && d.arrivals == c.arrivals && (d.status == Running || d.status == Returned(None))
  {
    hide BigEndian, Overwritten, Conserved;
    var at, data := c.msg.bodyIdx, c.buffer.readable;
    TakenOff(data, Pending(c.arrivals), body[at..], rest);
    var n := Min(|data|, |body| - at);
    BlockGrows(Resized(c.msg.buffer, |body|), at, data[..n], body);
    Joined(start + BigEndian(|body|, 8), body, at, n);
    assert data[..Min(n, |data|)] == data[..n];
  }

  // Between two steps a running read still wants octets.
  predicate Between(c: Reading<Incoming>, start: seq<byte>, body: seq<byte>, rest: seq<byte>) {
    && Conserved(c) && Arriving(c, start, body, rest)
    && (c.status == Running && c.phase == ReadBody ==> c.msg.bodyIdx < |body|)
  }

  lemma {:induction false} StepArrives(c: Reading<Incoming>, start: seq<byte>, body: seq<byte>, rest: seq<byte>)
    requires Between(c, start, body, rest) && |body| < Pow256(8)
    ensures Between(ReadStep(INCOMING, c), start, body, rest)
  {
    if c.status == Running {
      if c.buffer.readable == [] {
        FetchArrives(c, start, body, rest);
        FetchConserves(c);
        hide Arriving, Conserved;
      } else {
        ReadStepConserves(INCOMING, c);
        HeaderConserves(c);
        HeaderArrives(c, start, body, rest);
        BodyArrives(FeedHeader(INCOMING, c), start, body, rest);
        hide Arriving, Conserved, FeedHeader, FeedBody;
      }
    }
  }

  lemma HeaderConserves(c: Reading<Incoming>)
    requires Conserved(c)
    ensures Conserved(FeedHeader(INCOMING, c))
  {
    hide Conserved;
    if c.phase == ReadHeader { TakeConserves(c, INCOMING.header(c.msg, c.buffer.readable), ReadBody); }
  }

  lemma {:induction false} RunArrives(c: Reading<Incoming>, start: seq<byte>, body: seq<byte>, rest: seq<byte>, steps: nat)
    requires Between(c, start, body, rest) && |body| < Pow256(8)
    ensures Between(ReadRun(INCOMING, c, steps), start, body, rest)
    decreases steps
  {
    hide Between, ReadStep;
    if steps > 0 {
      StepArrives(c, start, body, rest);
      RunArrives(ReadStep(INCOMING, c), start, body, rest, steps - 1);
    }
  }

  // ---------- it gets there ----------

  lemma HeaderShrinks(c: Reading<Incoming>)
    requires c.status == Running && c.msg.Valid() && c.msg.headIdx == c.msg.bodyIdx == 0 && |c.buffer.readable| >= 8
    ensures var d := FeedHeader(INCOMING, c);
      d.arrivals == c.arrivals && |d.buffer.readable| <= |c.buffer.readable|
      && (c.phase == ReadHeader ==> |d.buffer.readable| < |c.buffer.readable|)
  {}

  lemma BodyShrinks(c: Reading<Incoming>)
    requires c.status == Running && c.msg.Valid()
    ensures var d := FeedBody(INCOMING, c);
      d.arrivals == c.arrivals && |d.buffer.readable| <= |c.buffer.readable|
      && (c.phase == ReadBody && c.msg.bodyIdx < c.msg.length && c.buffer.readable != [] ==>
            |d.buffer.readable| < |c.buffer.readable|)
  {}

  lemma FeedProgress(c: Reading<Incoming>, start: seq<byte>, body: seq<byte>, rest: seq<byte>)
    requires Between(c, start, body, rest) && |body| < Pow256(8) && c.status == Running && c.buffer.readable != []
    ensures var d := ReadStep(INCOMING, c);
      d.arrivals == c.arrivals && Left(d) <= Left(c) && (d.status == Returned(None) || (d.status == Running && Left(d) < Left(c)))
  {
    HeaderArrives(c, start, body, rest);
    HeaderConserves(c);
    var h := FeedHeader(INCOMING, c);
    if c.phase == ReadHeader { HeaderShrinks(c); }
    BodyArrives(h, start, body, rest);
    BodyShrinks(h);
    hide Stream, HeaderTogether, Filling, Conserved, BigEndian, FeedHeader, FeedBody;
  }

  lemma {:induction false} StepProgress(c: Reading<Incoming>, start: seq<byte>, body: seq<byte>, rest: seq<byte>)
    requires Between(c, start, body, rest) && |body| < Pow256(8) && c.status == Running && AllArrive(c.arrivals)
    ensures var d := ReadStep(INCOMING, c);
      AllArrive(d.arrivals) && Left(d) <= Left(c) && (d.status == Returned(None) || (d.status == Running && Left(d) < Left(c)))
  {
    if c.buffer.readable == [] {
      assert Stream(c) != [] by { assert Stream(c) == Pending(c.arrivals); }
      FetchProgress(c);
    } else {
      FeedProgress(c, start, body, rest);
    }
  }

  lemma {:induction false} RunDelivers(c: Reading<Incoming>, start: seq<byte>, body: seq<byte>, rest: seq<byte>, steps: nat)
    requires Between(c, start, body, rest) && |body| < Pow256(8) && c.status == Running && AllArrive(c.arrivals)
    requires steps > Left(c)
    ensures var d := ReadRun(INCOMING, c, steps);
      d.status == Returned(None) && AllArrive(d.arrivals) && Left(d) <= Left(c)
    decreases steps
  {
    hide Between, ReadStep, Left, AllArrive;
    StepProgress(c, start, body, rest);
    StepArrives(c, start, body, rest);
    var d := ReadStep(INCOMING, c);
    if d.status == Running { RunDelivers(d, start, body, rest, steps - 1); } else { RunsStop(INCOMING, d, steps - 1); }
  }

  // ---------- one framed body ----------

  // A connection ready to read, with a frame next on its stream.
  predicate FrameNext(c: Reading<Incoming>, m: Incoming, body: seq<byte>, rest: seq<byte>) {
    && Conserved(c) && c.phase == ReadStart && |body| < Pow256(8)
    && m.length < Pow256(8) && m.headIdx == m.bodyIdx == 0
    && Stream(c) == Framed(body) + rest && HeaderTogether(c)
  }

  lemma FrameBegins(c: Reading<Incoming>, m: Incoming, body: seq<byte>, rest: seq<byte>)
    requires FrameNext(c, m, body, rest)
    ensures var b := BeginRead(c, m);
      Between(b, c.accepted, body, rest) && b.status == Running && b.arrivals == c.arrivals && Left(b) == Left(c) && |body| < Pow256(8)
  {
    hide Framed;
  }

  lemma FrameEnds(d: Reading<Incoming>, start: seq<byte>, body: seq<byte>, rest: seq<byte>)
    requires Between(d, start, body, rest)
    ensures d.status == Returned(None) ==>
      d.phase == ReadStart && d.msg.buffer == body && Stream(d) == rest && d.accepted == start + BigEndian(|body|, 8) + body
    ensures d.status.Returned? ==> d.status.err in {None, Some(CONNECTION_ENDED), Some(SOCKET_READ_ERROR)}
  {
    hide Stream, Filling, Framed, BigEndian;
  }

  // Whatever the cutting, a read that succeeds has taken exactly the frame, holds its body, and leaves
  // the rest unread; only the socket makes it fail; and it succeeds if the socket delivers.
  lemma {:induction false} FrameReceived(c: Reading<Incoming>, m: Incoming, body: seq<byte>, rest: seq<byte>, steps: nat)
    requires FrameNext(c, m, body, rest)
    ensures var d := ReadRun(INCOMING, BeginRead(c, m), steps);
      && (d.status == Returned(None) ==>
            d.phase == ReadStart && d.msg.buffer == body && Stream(d) == rest && d.accepted == c.accepted + BigEndian(|body|, 8) + body)
      && (d.status.Returned? ==> d.status.err in {None, Some(CONNECTION_ENDED), Some(SOCKET_READ_ERROR)})
      && (AllArrive(c.arrivals) && steps > Left(c) ==> d.status == Returned(None) && AllArrive(d.arrivals) && Left(d) <= Left(c))
  {
    hide *;
    FrameBegins(c, m, body, rest);
    RunArrives(BeginRead(c, m), c.accepted, body, rest, steps);
    FrameEnds(ReadRun(INCOMING, BeginRead(c, m), steps), c.accepted, body, rest);
    if AllArrive(c.arrivals) && steps > Left(c) { RunDelivers(BeginRead(c, m), c.accepted, body, rest, steps); }
  }

  // ---------- frames one after another ----------

  function Frames(bodies: seq<seq<byte>>): seq<byte> {
    if bodies == [] then [] else Framed(bodies[0]) + Frames(bodies[1..])
  }

  function ReadOne(c: Reading<Incoming>, m: Incoming, steps: nat): Reading<Incoming> {
    ReadRun(INCOMING, BeginRead(c, m), steps)
  }

  // The connection, holding the last message, after one read for each of `n` messages.
  function ReadEach(c: Reading<Incoming>, m: Incoming, n: nat, steps: nat): Reading<Incoming>
    decreases n
  {
    if n == 0 then c else ReadEach(ReadOne(c, m, steps), m, n - 1, steps)
  }

  // Where frame `k` begins.
  function FrameAt(bodies: seq<seq<byte>>, k: nat): nat
    requires k <= |bodies|
  {
    if k == 0 then 0 else |Framed(bodies[0])| + FrameAt(bodies[1..], k - 1)
  }

  // No piece of the stream ends inside the length of a frame.
  predicate LengthsTogether(c: Reading<Incoming>, bodies: seq<seq<byte>>) {
    AllArrive(c.arrivals) && forall k :: 0 <= k < |bodies| ==>
      var f := FrameAt(bodies, k); f < |Stream(c)| && EndIn(c, f) >= f + 8
  }

  // Ready to read, from a socket that delivers, within the steps allowed.
  predicate Fed(c: Reading<Incoming>, steps: nat) {
    Conserved(c) && PhaseAgrees(c) && c.phase == ReadStart && AllArrive(c.arrivals) && steps > Left(c)
  }

  predicate Unused(m: Incoming) {
    m.length < Pow256(8) && m.headIdx == m.bodyIdx == 0
  }

  predicate Delivered(c: Reading<Incoming>, body: seq<byte>) {
    c.status == Returned(None) && c.msg.buffer == body
  }

  lemma FirstTogether<S>(c: Reading<S>)
    requires AllArrive(c.arrivals) && Stream(c) != [] && EndIn(c, 0) >= 8
    ensures HeaderTogether(c)
  {
    if c.buffer.readable == [] {
      LaterPending(c.arrivals);
      assert EndAfter(Piece(c.arrivals), Later(c.arrivals), 0) == Piece(c.arrivals);
    }
  }

  lemma OneFrame(c: Reading<Incoming>, m: Incoming, body: seq<byte>, rest: seq<byte>, steps: nat)
    requires Fed(c, steps) && Unused(m) && |body| < Pow256(8) && HeaderTogether(c) && Stream(c) == Framed(body) + rest
    ensures var d := ReadOne(c, m, steps);
      Fed(d, steps) && Stream(d) == rest && Delivered(d, body) && |d.accepted| == |c.accepted| + |Framed(body)|
  {
    assert FrameNext(c, m, body, rest);
    ReadRunConserves(INCOMING, BeginRead(c, m), steps);
    hide ReadRun, Conserved, Stream, AllArrive, Left, FrameNext, PhaseAgrees;
    FrameReceived(c, m, body, rest, steps);
  }

  lemma LaterTogether(c: Reading<Incoming>, m: Incoming, bodies: seq<seq<byte>>, steps: nat)
    requires Conserved(c) && c.phase == ReadStart && bodies != [] && LengthsTogether(c, bodies)
    requires |ReadOne(c, m, steps).accepted| == |c.accepted| + |Framed(bodies[0])|
    ensures LengthsTogether(ReadOne(c, m, steps), bodies[1..])
  {
    var b, d, rest := BeginRead(c, m), ReadOne(c, m, steps), bodies[1..];
    hide Framed, Conserved;
    RunMoves(INCOMING, b, steps, 0);
    forall k | 0 <= k < |rest|
      ensures var f := FrameAt(rest, k); f < |Stream(d)| && EndIn(d, f) >= f + 8
    {
      assert FrameAt(bodies, k + 1) == |Framed(bodies[0])| + FrameAt(rest, k);
      RunMoves(INCOMING, b, steps, FrameAt(bodies, k + 1));
      assert EndIn(b, FrameAt(bodies, k + 1)) == EndIn(c, FrameAt(bodies, k + 1));
    }
  }

  // Pipelined frames, on a stream no piece of which ends inside a length, are received one per read, in
  // order, and the last read stops where they end.
  lemma {:induction false} FramesReceived(c: Reading<Incoming>, m: Incoming, bodies: seq<seq<byte>>, rest: seq<byte>, steps: nat)
    requires Fed(c, steps) && Unused(m) && LengthsTogether(c, bodies)
    requires Stream(c) == Frames(bodies) + rest && forall k :: 0 <= k < |bodies| ==> |bodies[k]| < Pow256(8)
    ensures Stream(ReadEach(c, m, |bodies|, steps)) == rest
    ensures forall k :: 0 <= k < |bodies| ==> Delivered(ReadEach(c, m, k + 1, steps), bodies[k])
    decreases |bodies|
  {
    hide Unused, Stream, HeaderTogether, ReadOne, Framed, Conserved, PhaseAgrees, AllArrive, Left, EndIn;
    if bodies == [] {
      assert [] + rest == rest;
    } else {
      var d, later := ReadOne(c, m, steps), Frames(bodies[1..]);
      assert Framed(bodies[0]) + later + rest == Framed(bodies[0]) + (later + rest);
      assert FrameAt(bodies, 0) == 0;
      FirstTogether(c);
      OneFrame(c, m, bodies[0], later + rest, steps);
      LaterTogether(c, m, bodies, steps);
      FramesReceived(d, m, bodies[1..], rest, steps);
      forall k | 0 <= k < |bodies| ensures Delivered(ReadEach(c, m, k + 1, steps), bodies[k]) {
        assert ReadEach(c, m, k + 1, steps) == ReadEach(d, m, k, steps);
        if k > 0 { assert bodies[1..][k - 1] == bodies[k]; }
      }
    }
  }

  // ---------- a value ----------

  lemma SameFront(front: seq<byte>, stream: seq<byte>, header: seq<byte>, body: seq<byte>, rest: seq<byte>)
    requires front + stream == front + header + body + rest
    ensures stream == header + body + rest
  {
    assert stream == (front + stream)[|front|..];
    assert header + body + rest == (front + header + body + rest)[|front|..];
  }

  // A value packed, sent by a write that succeeded and received by a read that succeeds, whatever the
  // two sockets did, unpacks, to the very value exactly when it is lossless, and the connection is
  // ready for what follows it.
  lemma ValueCrosses(kind: MsgPackSpec.Type, v: MsgPackSpec.Value, w: Writing<Outgoing>, sending: nat,
                     c: Reading<Incoming>, m: Incoming, rest: seq<byte>, receiving: nat)
    requires MsgPackSpec.WellFormed(kind) && MsgPackSpec.HasType(kind, v) && MsgPackSpec.Pack(kind, v).Some?
    requires w.phase == WriteStart && Flowing(w)
    requires var body := MsgPackSpec.Pack(kind, v).value;
      var sent := WriteRun(OUTGOING, BeginWrite(w, Outgoing(BigEndian(|body|, 8), 0, body, 0)), sending);
      && sent.status == Returned(None) && w.wire + w.buffer.readable + Stream(c) == sent.wire + rest && HeaderTogether(c)
      && Conserved(c) && c.phase == ReadStart && |body| < Pow256(8)
      && m.length < Pow256(8) && m.headIdx == m.bodyIdx == 0
    ensures var d := ReadRun(INCOMING, BeginRead(c, m), receiving);
      && (d.status == Returned(None) ==>
            var r := MsgPackSpec.Unpack(kind, d.msg.buffer);
            && r.Some? && r.value.used == |d.msg.buffer|
            && (r.value.v == v <==> MsgPackTheorems.Lossless(kind, v))
            && d.phase == ReadStart && Stream(d) == rest)
      && (AllArrive(c.arrivals) && receiving > Left(c) ==> d.status == Returned(None))
  {
    var body := MsgPackSpec.Pack(kind, v).value;
    var o := Outgoing(BigEndian(|body|, 8), 0, body, 0);
    ExactTransmission(w, o, sending);
    SameFront(w.wire + w.buffer.readable, Stream(c), o.header, o.body, rest);
    assert FrameNext(c, m, body, rest);
    hide *;
    FrameReceived(c, m, body, rest, receiving);
    MsgPackTheorems.RoundTrip(kind, v, []);
    assert body + [] == body;
  }

  // ---------- a response ----------

  // What a message puts on the wire is a response that parses to the head `h`, exactly, followed by
  // exactly as many octets of body as the head announces.
  ghost predicate Carries(sent: seq<byte>, h: ResponseHead.Head, body: seq<byte>, max: nat)
  {
    && |body| <= |sent| && sent[|sent| - |body|..] == body && ResponseText.LastNumber(h.fields, |body|)
    && ResponseHead.ReadsBack(sent, h, |sent| - |body|, max)
  }

  // A response, whatever was set on it, under any partial writes: a write that succeeds has put it on
  // the wire, and it succeeds if the socket has an answer of at least one octet for each of its octets.
  lemma {:induction false} ResponseCrosses(r: Response.Response, max: nat, c: Writing<Outgoing>, steps: nat)
    requires r.Building() && ResponseHead.ValidHead(r.head) && |r.CompletedHead().fields| <= max
    requires c.phase == WriteStart && Flowing(c)
    ensures ResponseHead.ValidHead(r.CompletedHead()) && r.head.fields <= r.CompletedHead().fields
    ensures ResponseText.Adds(r.head.fields, r.CompletedHead().fields[|r.head.fields|..], r.head.version != Ascii("1.0"), r.isBodyString,
                              |r.body| + |r.stringBody| > 0, |r.Data()|)
    ensures ResponseText.Sends(r.head.fields, r.Data(), r.Out().body)
    ensures var sent := r.Out().header + r.Out().body;
      && Carries(sent, r.CompletedHead(), r.Out().body, max)
      && var d := WriteRun(OUTGOING, BeginWrite(c, r.Out()), steps);
      && (d.status == Returned(None) ==> d.wire == c.wire + c.buffer.readable + sent)
      && (AllTaken(c.departures) && |c.departures| >= |sent| + |c.buffer.readable| && steps > 5 * |sent| + 3 * |c.buffer.readable| + 11 ==>
            d.status == Returned(None))
  {
    hide Response.Announced, ResponseHead.Printed, Response.Completed, ResponseHead.ReadsBack, WriteRun, AllTaken,
      ResponseText.LastNumber, ResponseText.Adds, ResponseText.Sends;
    var o, h := r.Out(), r.CompletedHead();
    var sent := o.header + o.body;
    ExactTransmission(c, o, steps);
    assert c.wire + c.buffer.readable + o.header + o.body == c.wire + c.buffer.readable + sent;
    if AllTaken(c.departures) && |c.departures| >= |sent| + |c.buffer.readable| && steps > 5 * |sent| + 3 * |c.buffer.readable| + 11 {
      WriteSucceeds(c, o, steps);
    }
    Response.WhatGoesOut(r, max);
    Response.CompletedIsValid(r.head, r.defaultKeepAlive, r.isBodyString, |r.body| + |r.stringBody| > 0, |r.Data()|);
    ResponseHead.ResponseRoundTrip(h, o.body, max);
    assert sent[|o.header|..] == o.body;
  }
}
