/**
 Exactly when a request is received as it was sent, and several requests on one stream.
 */
module RequestExactly {
  import opened Bytes
  import opened Messages
  import opened HeadSpec
  import opened HeadStability
  import opened StaticBuffer
  import opened ConnectionSpec
  import opened ConnectionTheorems
  import opened Delivery
  import opened RequestSpec
  import opened RequestTheorems
  import opened RequestMeaning
  import opened RequestOnStream
  import T = HeadText

  // ---------- a piece that reaches across the end of the head ----------

  // The head is there and more, or more is at hand, and the counter does not show 4.
  predicate Hidden(m: Receiving, h: seq<byte>, more: bool) {
    && |h| <= m.idx <= |m.buffer| && m.buffer[..|h|] == h && m.scan.numFound != 4
    && (m.idx > |h| || more)
  }

  // The piece that holds the last octet of the head holds more.
  predicate Crosses(c: Reading<Receiving>, n: nat) {
    AllArrive(c.arrivals) && 0 < n <= |Stream(c)| && EndIn(c, n - 1) > n
  }

  // Part of the head is there, the rest of it is next, and a piece is going to reach across its end.
  predicate Ahead(c: Reading<Receiving>, h: seq<byte>) {
    && PartThere(c.msg, h) && |h| < |c.msg.buffer| && Crosses(c, |h| - c.msg.idx)
    && Stream(c)[..|h| - c.msg.idx] == h[c.msg.idx..]
  }

  predicate Failed(c: Reading<Receiving>) {
    c.status.Returned? && c.status.err.Some?
  }

  // Once a piece has reached across the end of the head, too much will have been accepted.
  predicate Overrun(c: Reading<Receiving>, start: nat, h: seq<byte>, length: nat) {
    Failed(c)
    || match c.phase
       case ReadHeader => HeadOverrun(c, start, h)
       case ReadBody =>
         && |c.accepted| > start + |h| + c.msg.bodyIdx && c.msg.idx <= |c.msg.buffer|
         && c.msg.head == Understood(NOTHING, h).0 && c.msg.bodyIdx <= length && c.msg.bodyIdx <= |c.msg.body|
       case ReadStart => |c.accepted| > start + |h| + length
  }

  predicate HeadOverrun(c: Reading<Receiving>, start: nat, h: seq<byte>) {
    && c.msg.head == NOTHING && c.msg.bodyIdx == 0 && |c.accepted| == start + c.msg.idx
    && (c.status == Running ==> Ahead(c, h) || Hidden(c.msg, h, c.buffer.readable != []))
  }

  lemma {:induction false} FetchStaysAhead(c: Reading<Receiving>, h: seq<byte>)
    requires Conserved(c) && c.buffer.readable == [] && c.status == Running && Ahead(c, h)
    ensures Ahead(Fetch(c), h)
  {
    FetchKeepsStream(c);
    FetchMoves(c, |h| - c.msg.idx - 1);
    FetchKeepsMessage(c);
    hide PartThere, Stream, EndIn, AllArrive, Left, Fetch, Conserved;
  }

  lemma FetchKeepsMessage(c: Reading<Receiving>)
    ensures var d := Fetch(c); d.msg == c.msg && d.phase == c.phase && d.accepted == c.accepted
  {}

  lemma {:induction false} FetchOverruns(c: Reading<Receiving>, start: nat, h: seq<byte>, length: nat)
    requires Conserved(c) && c.buffer.readable == [] && c.status == Running && Overrun(c, start, h, length)
    ensures Overrun(Fetch(c), start, h, length)
  {
    if c.phase == ReadHeader && Ahead(c, h) { FetchStaysAhead(c, h); }
    FetchKeepsMessage(c);
    hide Fetch, Ahead, Understood;
  }

  // How a span lies in what follows in the head.
  lemma AcrossTheEnd(data: seq<byte>, pending: seq<byte>, wanted: seq<byte>)
    requires |wanted| <= |data| + |pending| && (data + pending)[..|wanted|] == wanted
    ensures |data| <= |wanted| ==> data == wanted[..|data|] && pending[..|wanted| - |data|] == wanted[|data|..]
    ensures |data| > |wanted| ==> data == wanted + data[|wanted|..]
  {
    var front := (data + pending)[..|wanted|];
    if |data| <= |wanted| {
      assert front[..|data|] == data && front[|data|..] == pending[..|wanted| - |data|];
    } else {
      assert front == data[..|wanted|];
    }
  }

  lemma FrontStays(m: Receiving, data: seq<byte>, h: seq<byte>)
    requires |h| <= m.idx && m.idx + |data| <= |m.buffer| && m.buffer[..|h|] == h
    ensures Overwritten(m.buffer, m.idx, data)[..|h|] == h
  {}

  // A hidden head: every call takes something more, until one is refused or recognises it too late.
  lemma {:induction false} HiddenGoesOn(m: Receiving, h: seq<byte>, data: seq<byte>)
    requires IsHead(h) && Hidden(m, h, true) && data != []
    ensures var r := TakeHead(m, data);
      r.reply.err.None? ==>
        && r.msg.idx == m.idx + r.reply.count > |h|
        && (r.reply.complete ==> r.msg.head == Understood(m.head, h).0)
        && (!r.reply.complete ==> Hidden(r.msg, h, false) && r.msg.head == m.head)
        && r.msg.bodyIdx == m.bodyIdx && r.msg.body == m.body && r.reply.count <= |data|
  {
    hide ParseRequest, Understood, ScanAll;
    var span := data[..Min(|data|, |m.buffer| - m.idx)];
    var n := Kept(m.scan, span);
    if span == [] {
      ScanOfNothing(m.scan);
    } else {
      FrontStays(m, span[..n], h);
      var buffer := Overwritten(m.buffer, m.idx, span[..n]);
      assert Agree(h, buffer, |h|) by { assert forall k :: 0 <= k < |h| ==> buffer[k] == buffer[..|h|][k]; }
      UnderstoodPrefix(m.head, h, buffer);
    }
  }

  // The call whose span reaches across the end of the head.
  lemma {:induction false} CrossTaken(m: Receiving, h: seq<byte>, data: seq<byte>, behind: seq<byte>)
    requires IsHead(h) && EndsWithBlankLine(h) && PartThere(m, h) && |h| < |m.buffer|
    requires data == h[m.idx..] + behind && behind != []
    ensures var r := TakeHead(m, data);
      r.reply.err.None? ==>
        && r.msg.idx == m.idx + r.reply.count
        && (r.reply.complete ==> r.msg.idx > |h| && r.msg.head == Understood(NOTHING, h).0)
        && (!r.reply.complete ==> Hidden(r.msg, h, r.reply.count < |data|) && r.msg.head == NOTHING)
        && r.msg.bodyIdx == m.bodyIdx && r.msg.body == m.body && r.reply.count <= |data|
  {
    hide ParseRequest, Understood, ScanAll;
    HeadScan(h);
    EndTaken(m, h, data, behind);
    var span := data[..Min(|data|, |m.buffer| - m.idx)];
    var at, n := |h| - m.idx, Kept(m.scan, span);
    assert span[..at] == h[m.idx..] && h[..m.idx] + h[m.idx..] == h;
    ScanJoin(START, h[..m.idx], span[..at]);
    assert LastHit(m.scan, span) >= at;
    ReceivedNext(m, span[..n]);
    assert (h[..m.idx] + span[..n])[..|h|] == h;
    var buffer := Overwritten(m.buffer, m.idx, span[..n]);
    assert buffer[..|h|] == buffer[..m.idx + n][..|h|];
  }

  lemma TakeFacts(c: Reading<Receiving>, r: Consumed<Receiving>, next: ReadPhase)
    requires next != ReadHeader
    ensures var d := Take(c, r, next);
      && d.msg == r.msg && d.arrivals == c.arrivals
      && (r.reply.err.Some? ==> d.status == Returned(r.reply.err) && d.phase == c.phase && d.accepted == c.accepted)
      && (r.reply.err.None? && r.reply.count <= |c.buffer.readable| ==>
            && |d.accepted| == |c.accepted| + r.reply.count && d.buffer.readable == c.buffer.readable[r.reply.count..]
            && d.phase == (if r.reply.complete then next else c.phase)
            && d.status == (if r.reply.complete && next == ReadStart then Returned(None) else Running))
  {}

  // What one header step comes to.
  predicate Onward(c: Reading<Receiving>, d: Reading<Receiving>, h: seq<byte>) {
    Failed(d)
    || (&& d.status == Running && |d.accepted| - |c.accepted| == d.msg.idx - c.msg.idx
        && d.msg.bodyIdx == 0 && d.msg.idx <= |d.msg.buffer|
        && (d.phase == ReadHeader ==> d.msg.head == NOTHING && (Ahead(d, h) || Hidden(d.msg, h, d.buffer.readable != [])))
        && (d.phase == ReadBody ==> d.msg.idx > |h| && d.msg.head == Understood(NOTHING, h).0)
        && d.phase != ReadStart)
  }

  lemma FeedHeaderIs(c: Reading<Receiving>)
    requires c.phase == ReadHeader && c.msg.idx <= |c.msg.buffer|
    ensures FeedHeader(REQUEST, c) == Take(c, TakeHead(c.msg, c.buffer.readable), ReadBody)
  {
    hide TakeHead, Take;
  }

  // One more piece while the end of the head is ahead.
  lemma {:induction false} AheadGoesOn(c: Reading<Receiving>, h: seq<byte>)
    requires c.status == Running && c.phase == ReadHeader && Ahead(c, h)
    requires IsHead(h) && EndsWithBlankLine(h) && c.msg.bodyIdx == 0
    ensures Onward(c, FeedHeader(REQUEST, c), h)
  {
    var m, data, n := c.msg, c.buffer.readable, |h| - c.msg.idx;
    var r := TakeHead(m, data);
    AcrossTheEnd(data, Pending(c.arrivals), h[m.idx..]);
    FeedHeaderIs(c);
    TakeFacts(c, r, ReadBody);
    if |data| < n {
      StillAhead(c, h);
    } else {
      assert EndIn(c, n - 1) == |data| > n by { hide TakeHead, Take, Understood, ScanAll, IsHead; }
      CrossTaken(m, h, data, data[n..]);
    }
    hide Take, TakeHead, Understood, ScanAll, IsHead, EndsWithBlankLine, Ahead, Hidden, FeedHeader;
  }

  lemma {:induction false} StillAhead(c: Reading<Receiving>, h: seq<byte>)
    requires c.status == Running && c.phase == ReadHeader && Ahead(c, h) && |c.buffer.readable| < |h| - c.msg.idx
    requires IsHead(h)
    ensures var r, d := TakeHead(c.msg, c.buffer.readable), Take(c, TakeHead(c.msg, c.buffer.readable), ReadBody);
      && r.reply == Reply(None, false, |c.buffer.readable|) && r.msg.idx == c.msg.idx + r.reply.count <= |r.msg.buffer|
      && r.msg.head == NOTHING && r.msg.bodyIdx == c.msg.bodyIdx && Ahead(d, h)
  {
    hide *;
    var m, data := c.msg, c.buffer.readable;
    AheadFacts(c, h);
    var r := TakeHead(m, data);
    HeadScan(h);
    PartTaken(m, h, data);
    TakeFacts(c, r, ReadBody);
    CrossesStill(c, r, |h| - m.idx);
    NothingReadable(data);
    StreamIsPending(Take(c, r, ReadBody));
    AheadAgain(Take(c, r, ReadBody), h);
  }

  lemma NothingReadable(data: seq<byte>)
    ensures data[|data|..] == []
  {}

  lemma AheadFacts(c: Reading<Receiving>, h: seq<byte>)
    requires Ahead(c, h) && |c.buffer.readable| < |h| - c.msg.idx
    ensures var m, end := c.msg, c.msg.idx + |c.buffer.readable|;
      && m.idx <= end < |h| < |m.buffer| && m.Received() == h[..m.idx] && m.scan == ScanAll(START, h[..m.idx])
      && m.head == NOTHING && Crosses(c, |h| - m.idx) && c.buffer.readable == h[m.idx..end]
      && |h| - end <= |Pending(c.arrivals)| && Pending(c.arrivals)[..|h| - end] == h[end..]
  {
    hide ScanAll, EndIn, AllArrive;
    AcrossTheEnd(c.buffer.readable, Pending(c.arrivals), h[c.msg.idx..]);
    HeadSlices([], h, c.msg.idx, |c.buffer.readable|);
  }

  lemma AheadAgain(d: Reading<Receiving>, h: seq<byte>)
    requires d.msg.idx < |h| < |d.msg.buffer| && d.msg.Received() == h[..d.msg.idx] && d.msg.head == NOTHING
    requires d.msg.scan == ScanAll(START, h[..d.msg.idx]) && Crosses(d, |h| - d.msg.idx)
    requires |h| - d.msg.idx <= |Stream(d)| && Stream(d)[..|h| - d.msg.idx] == h[d.msg.idx..]
    ensures Ahead(d, h)
  {
    hide ScanAll, Stream, Crosses;
  }

  lemma CrossesStill(c: Reading<Receiving>, r: Consumed<Receiving>, n: nat)
    requires Crosses(c, n) && r.reply == Reply(None, false, |c.buffer.readable|) && |c.buffer.readable| < n
    ensures Crosses(Take(c, r, ReadBody), n - |c.buffer.readable|)
  {
    TakeMoves(c, r, ReadBody, n - 1);
    TakeFacts(c, r, ReadBody);
    hide Take, Stream, EndIn, AllArrive, Left;
  }

  lemma StreamIsPending(c: Reading<Receiving>)
    requires c.buffer.readable == []
    ensures Stream(c) == Pending(c.arrivals)
  {}

  lemma {:induction false} HiddenTurn(c: Reading<Receiving>, h: seq<byte>)
    requires c.status == Running && c.phase == ReadHeader && c.buffer.readable != [] && Hidden(c.msg, h, true)
    requires IsHead(h) && c.msg.head == NOTHING && c.msg.bodyIdx == 0
    ensures Onward(c, FeedHeader(REQUEST, c), h)
  {
    HiddenGoesOn(c.msg, h, c.buffer.readable);
    FeedHeaderIs(c);
    TakeFacts(c, TakeHead(c.msg, c.buffer.readable), ReadBody);
    hide Take, TakeHead, Understood, ScanAll, IsHead, FeedHeader;
  }

  // The body step counts what it accepts.
  lemma BodyCounts(c: Reading<Receiving>, length: nat)
    requires c.status == Running && c.phase == ReadBody && c.msg.idx <= |c.msg.buffer|
    requires c.msg.head.contentLength.GetOr(0) == length <= MAX_BODY_SIZE && Supported(c.msg.head)
    requires c.msg.bodyIdx <= length && c.msg.bodyIdx <= |c.msg.body|
    ensures var d := FeedBody(REQUEST, c);
      && |d.accepted| - |c.accepted| == d.msg.bodyIdx - c.msg.bodyIdx
      && d.msg.head == c.msg.head && d.msg.bodyIdx <= length && d.msg.bodyIdx <= |d.msg.body| && d.msg.idx <= |d.msg.buffer|
      && (if d.msg.bodyIdx == length then d.phase == ReadStart && d.status == Returned(None)
          else d.phase == ReadBody && d.status == Running)
  {
    FeedBodyIs(c);
    TakeFacts(c, TakeBody(c.msg, c.buffer.readable), ReadStart);
    hide Take;
  }

  lemma {:induction false} FeedOverruns(c: Reading<Receiving>, start: nat, h: seq<byte>, body: seq<byte>)
    requires c.buffer.readable != [] && c.status == Running && Overrun(c, start, h, |body|) && Acceptable(h, body)
    ensures Overrun(ReadStep(REQUEST, c), start, h, |body|)
  {
    var d := FeedHeader(REQUEST, c);
    if c.phase == ReadHeader {
      if Ahead(c, h) { AheadGoesOn(c, h); } else { HiddenTurn(c, h); }
    }
    if d.status == Running && d.phase == ReadBody { BodyCounts(d, |body|); }
    hide FeedHeader, FeedBody, Understood, IsHead, Ahead, Hidden, EndsWithBlankLine;
  }

  lemma {:induction false} StepOverruns(c: Reading<Receiving>, start: nat, h: seq<byte>, body: seq<byte>)
    requires Conserved(c) && Overrun(c, start, h, |body|) && Acceptable(h, body)
    ensures Overrun(ReadStep(REQUEST, c), start, h, |body|)
  {
    hide Overrun, Acceptable, FeedHeader, FeedBody, Fetch, Conserved;
    if c.status == Running {
      if c.buffer.readable == [] {
        FetchOverruns(c, start, h, |body|);
      } else {
        FeedOverruns(c, start, h, body);
      }
    }
  }

  lemma {:induction false} RunOverruns(c: Reading<Receiving>, start: nat, h: seq<byte>, body: seq<byte>, steps: nat)
    requires Conserved(c) && PhaseAgrees(c) && Overrun(c, start, h, |body|) && Acceptable(h, body)
    ensures Overrun(ReadRun(REQUEST, c, steps), start, h, |body|)
    decreases steps
  {
    hide Overrun, Acceptable, ReadStep, Conserved, PhaseAgrees;
    if steps > 0 {
      StepOverruns(c, start, h, body);
      ReadStepConserves(REQUEST, c);
      RunOverruns(ReadStep(REQUEST, c), start, h, body, steps - 1);
    }
  }

  // ---------- exactly when a request is received ----------

  lemma {:induction false} EndsAtIs(n: nat, arrivals: seq<Arrival>, e: nat)
    requires AllArrive(arrivals) && 0 < e <= n + |Pending(arrivals)|
    ensures n <= e && EndsAt(arrivals, e - n) <==> EndAfter(n, arrivals, e - 1) == e
    decreases |Pending(arrivals)|
  {
    if n < e {
      LaterPending(arrivals);
      EndsAtIs(Piece(arrivals), Later(arrivals), e - n);
    }
  }

  // Ready to read, from a socket that delivers, within the steps allowed.
  predicate Supplied(c: Reading<Receiving>, steps: nat) {
    Conserved(c) && PhaseAgrees(c) && c.phase == ReadStart && AllArrive(c.arrivals) && steps > Left(c)
  }

  // The head fits the buffer, and a piece ends where it does, or it leaves no room in the buffer.
  predicate EndsWell(c: Reading<Receiving>, end: nat, h: seq<byte>, buffer: seq<byte>) {
    AllArrive(c.arrivals) && 0 < end <= |Stream(c)| && (EndIn(c, end - 1) == end || |buffer| == |h|)
  }

  ghost predicate GotRequest(d: Reading<Receiving>, r: T.Request, body: seq<byte>) {
    d.status == Returned(None) && Knows(d.msg.head, r) && d.msg.body == body
  }

  lemma CrossingOverruns(c: Reading<Receiving>, buffer: seq<byte>, h: seq<byte>, body: seq<byte>, rest: seq<byte>)
    requires AllArrive(c.arrivals) && c.phase == ReadStart && |h| < |buffer| && h != []
    requires Stream(c) == h + (body + rest) && EndIn(c, |h| - 1) != |h|
    ensures Overrun(BeginRead(c, NewRequest(buffer)), |c.accepted|, h, |body|)
  {
    hide Understood;
    var b := BeginRead(c, NewRequest(buffer));
    assert h[..0] == [] && h[0..] == h && NewRequest(buffer).Received() == [];
    assert Stream(b)[..|h|] == h;
    assert Ahead(b, h);
  }

  // From a socket that delivers, one read receives the request, and leaves what follows unread, exactly
  // if a piece of the stream ends where the head does, or the head just fills the buffer. Otherwise the
  // read fails or waits, or it swallows some of what follows.
  lemma {:induction false} ReceivedExactly(c: Reading<Receiving>, buffer: seq<byte>, r: T.Request, body: seq<byte>, rest: seq<byte>, steps: nat)
    requires Supplied(c, steps) && IsRequest(r, body)
    requires |T.SpellRequest(r)| <= |buffer| && Stream(c) == T.SpellRequest(r) + (body + rest)
    ensures T.SpellRequest(r) != []
    ensures var h, d := T.SpellRequest(r), ReadRun(REQUEST, BeginRead(c, NewRequest(buffer)), steps);
      && (GotRequest(d, r, body) && Stream(d) == rest <==> EndIn(c, |h| - 1) == |h| || |buffer| == |h|)
      && (EndIn(c, |h| - 1) != |h| && |buffer| != |h| && d.status == Returned(None) ==> |Stream(d)| < |rest|)
  {
    hide *;
    var h := T.SpellRequest(r);
    RequestAcceptable(r, body);
    HeadIsSome(h, body);
    SuppliedFacts(c, steps);
    GotReturned(ReadRun(REQUEST, BeginRead(c, NewRequest(buffer)), steps), r, body);
    StreamEndsAt(c, h, body + rest);
    if EndIn(c, |h| - 1) == |h| || |buffer| == |h| {
      RequestReceived(c, buffer, r, body, rest, steps);
      Got(ReadRun(REQUEST, BeginRead(c, NewRequest(buffer)), steps), r, body);
    } else {
      CrossingSwallows(c, buffer, h, body, rest, steps);
    }
  }

  lemma {:induction false} HeadIsSome(h: seq<byte>, body: seq<byte>)
    requires Acceptable(h, body)
    ensures h != []
  {
    hide Understood;
  }

  lemma SuppliedFacts(c: Reading<Receiving>, steps: nat)
    requires Supplied(c, steps)
    ensures Conserved(c) && PhaseAgrees(c) && c.phase == ReadStart && AllArrive(c.arrivals) && steps > Left(c)
  {
    hide Conserved, PhaseAgrees, AllArrive, Left;
  }

  lemma StreamEndsAt(c: Reading<Receiving>, h: seq<byte>, behind: seq<byte>)
    requires AllArrive(c.arrivals) && h != [] && Stream(c) == h + behind
    ensures PieceEndsAt(c, |h|) <==> EndIn(c, |h| - 1) == |h|
  {
    EndsAtIs(|c.buffer.readable|, c.arrivals, |h|);
  }

  lemma Got(d: Reading<Receiving>, r: T.Request, body: seq<byte>)
    requires d.status == Returned(None) && Knows(d.msg.head, r) && d.msg.body == body
    ensures GotRequest(d, r, body)
  {
    hide Knows;
  }

  lemma GotReturned(d: Reading<Receiving>, r: T.Request, body: seq<byte>)
    ensures GotRequest(d, r, body) ==> d.status == Returned(None)
  {}

  lemma {:induction false} CrossingSwallows(c: Reading<Receiving>, buffer: seq<byte>, h: seq<byte>, body: seq<byte>, rest: seq<byte>, steps: nat)
    requires Supplied(c, steps) && Acceptable(h, body) && h != [] && |h| < |buffer| && Stream(c) == h + (body + rest)
    requires EndIn(c, |h| - 1) != |h|
    ensures var d := ReadRun(REQUEST, BeginRead(c, NewRequest(buffer)), steps);
      d.status == Returned(None) ==> |Stream(d)| < |rest|
  {
    var b := BeginRead(c, NewRequest(buffer));
    CrossingOverruns(c, buffer, h, body, rest);
    hide ReadRun, Acceptable, AllArrive, Left, Conserved, Understood, EndIn;
    RunOverruns(b, |c.accepted|, h, body, steps);
    ReadRunConserves(REQUEST, b, steps);
    RunMoves(REQUEST, b, steps, 0);
    assert Stream(b) == Stream(c);
    hide Stream;
  }

  // ---------- requests one after another ----------

  datatype Sent = Sent(head: T.Request, body: seq<byte>) {
    function Text(): seq<byte> {
      T.SpellRequest(head)
    }
  }

  function AllSent(requests: seq<Sent>): seq<byte> {
    if requests == [] then [] else requests[0].Text() + requests[0].body + AllSent(requests[1..])
  }

  // Where the head of request `k` ends.
  function HeadEnd(requests: seq<Sent>, k: nat): nat
    requires k < |requests|
  {
    if k == 0 then |requests[0].Text()|
    else |requests[0].Text()| + |requests[0].body| + HeadEnd(requests[1..], k - 1)
  }

  predicate AllEndWell(c: Reading<Receiving>, requests: seq<Sent>, buffer: seq<byte>) {
    forall k :: 0 <= k < |requests| ==> EndsWell(c, HeadEnd(requests, k), requests[k].Text(), buffer)
  }

  ghost predicate AreRequests(requests: seq<Sent>, buffer: seq<byte>) {
    forall k :: 0 <= k < |requests| ==> IsRequest(requests[k].head, requests[k].body) && |requests[k].Text()| <= |buffer|
  }

  function ReadRequest(c: Reading<Receiving>, buffer: seq<byte>, steps: nat): Reading<Receiving> {
    ReadRun(REQUEST, BeginRead(c, NewRequest(buffer)), steps)
  }

  // The connection after `n` reads, each into a fresh request.
  function ReadRequests(c: Reading<Receiving>, buffer: seq<byte>, n: nat, steps: nat): Reading<Receiving>
    decreases n
  {
    if n == 0 then c else ReadRequests(ReadRequest(c, buffer, steps), buffer, n - 1, steps)
  }

  // After a read that succeeds the connection can be read again, and its stream has been used up by what
  // was accepted.
  lemma AfterRead(c: Reading<Receiving>, buffer: seq<byte>, steps: nat, f: nat)
    requires Supplied(c, steps)
    ensures var d := ReadRequest(c, buffer, steps);
      && Moved(c, d, f) && |d.accepted| + |Stream(d)| == |c.accepted| + |Stream(c)|
      && (d.status == Returned(None) ==> Supplied(d, steps))
  {
    var b := BeginRead(c, NewRequest(buffer));
    ReadRunConserves(REQUEST, b, steps);
    RunMoves(REQUEST, b, steps, f);
    BeginMoves(c, NewRequest(buffer), ReadRun(REQUEST, b, steps), f);
    hide Stream, EndIn, AllArrive, Conserved, ReadRun;
  }

  lemma BeginMoves(c: Reading<Receiving>, m: Receiving, d: Reading<Receiving>, f: nat)
    requires Moved(BeginRead(c, m), d, f)
    ensures Moved(c, d, f)
  {
    assert Stream(BeginRead(c, m)) == Stream(c);
    hide AllArrive;
  }

  lemma {:induction false} OneRequest(c: Reading<Receiving>, buffer: seq<byte>, r: Sent, rest: seq<byte>, steps: nat)
    requires Supplied(c, steps) && IsRequest(r.head, r.body) && |r.Text()| <= |buffer| && Stream(c) == r.Text() + (r.body + rest)
    requires EndsWell(c, |r.Text()|, r.Text(), buffer)
    ensures var d := ReadRequest(c, buffer, steps);
      && Supplied(d, steps) && Stream(d) == rest && GotRequest(d, r.head, r.body)
      && |d.accepted| == |c.accepted| + |r.Text()| + |r.body|
  {
    AfterRead(c, buffer, steps, 0);
    hide Supplied, Moved, Stream, IsRequest, ReadRun, BeginRead, AllArrive, EndIn, Understood;
    ReceivedExactly(c, buffer, r.head, r.body, rest, steps);
  }

  lemma LaterEndsWell(c: Reading<Receiving>, d: Reading<Receiving>, end: nat, h: seq<byte>, buffer: seq<byte>)
    requires EndsWell(c, end, h, buffer) && Moved(c, d, end - 1) && |c.accepted| + |Stream(c)| == |d.accepted| + |Stream(d)|
    requires |c.accepted| <= |d.accepted| < |c.accepted| + end
    ensures EndsWell(d, end - (|d.accepted| - |c.accepted|), h, buffer)
  {
    hide AllArrive, Stream, EndIn, Left;
  }

  lemma {:induction false} LaterEndWell(c: Reading<Receiving>, buffer: seq<byte>, requests: seq<Sent>, steps: nat)
    requires Supplied(c, steps) && requests != [] && AllEndWell(c, requests, buffer) && AreRequests(requests, buffer)
    requires |ReadRequest(c, buffer, steps).accepted| == |c.accepted| + |requests[0].Text()| + |requests[0].body|
    ensures AllEndWell(ReadRequest(c, buffer, steps), requests[1..], buffer)
  {
    var d, rest := ReadRequest(c, buffer, steps), requests[1..];
    forall k | 0 <= k < |rest| ensures EndsWell(d, HeadEnd(rest, k), rest[k].Text(), buffer) {
      assert rest[k] == requests[k + 1];
      LaterEndWellAt(c, buffer, requests, steps, k);
    }
    hide ReadRequest, EndsWell, HeadEnd, Sent.Text;
  }

  lemma {:induction false} LaterEndWellAt(c: Reading<Receiving>, buffer: seq<byte>, requests: seq<Sent>, steps: nat, k: nat)
    requires Supplied(c, steps) && k + 1 < |requests| && AreRequests(requests, buffer)
    requires EndsWell(c, HeadEnd(requests, k + 1), requests[k + 1].Text(), buffer)
    requires |ReadRequest(c, buffer, steps).accepted| == |c.accepted| + |requests[0].Text()| + |requests[0].body|
    ensures EndsWell(ReadRequest(c, buffer, steps), HeadEnd(requests[1..], k), requests[k + 1].Text(), buffer)
  {
    hide *;
    var end := HeadEnd(requests, k + 1);
    HeadAfter(requests, buffer, k);
    AfterRead(c, buffer, steps, end - 1);
    LaterEndsWell(c, ReadRequest(c, buffer, steps), end, requests[k + 1].Text(), buffer);
  }

  lemma HeadAfter(requests: seq<Sent>, buffer: seq<byte>, k: nat)
    requires k + 1 < |requests| && AreRequests(requests, buffer)
    ensures HeadEnd(requests, k + 1) == |requests[0].Text()| + |requests[0].body| + HeadEnd(requests[1..], k)
    ensures HeadEnd(requests[1..], k) > 0
  {
    hide IsRequest, Sent.Text;
    assert requests[1..][k] == requests[k + 1];
    HeadNotEmpty(requests[1..], k);
  }

  lemma {:induction false} HeadNotEmpty(requests: seq<Sent>, k: nat)
    requires k < |requests| && IsRequest(requests[k].head, requests[k].body)
    ensures HeadEnd(requests, k) > 0
  {
    hide Knows, Understood, T.SpellRequest;
    RequestAcceptable(requests[k].head, requests[k].body);
    if k > 0 { HeadNotEmpty(requests[1..], k - 1); }
  }

  // Pipelined requests, each with a piece of the stream ending where its head does, are received one per
  // read, in order, and the last read stops where they end.
  lemma {:induction false} RequestsReceived(c: Reading<Receiving>, buffer: seq<byte>, requests: seq<Sent>, rest: seq<byte>, steps: nat)
    requires Supplied(c, steps) && AreRequests(requests, buffer) && AllEndWell(c, requests, buffer)
    requires Stream(c) == AllSent(requests) + rest
    ensures Stream(ReadRequests(c, buffer, |requests|, steps)) == rest
    ensures forall k :: 0 <= k < |requests| ==> GotRequest(ReadRequests(c, buffer, k + 1, steps), requests[k].head, requests[k].body)
    decreases |requests|
  {
    hide Stream, ReadRequest, GotRequest, IsRequest, EndsWell, Conserved, PhaseAgrees, AllArrive, Left, T.SpellRequest, Sent.Text;
    if requests == [] {
      assert [] + rest == rest;
    } else {
      var d, r, later := ReadRequest(c, buffer, steps), requests[0], AllSent(requests[1..]);
      assert r.Text() + r.body + later + rest == r.Text() + r.body + (later + rest);
      assert HeadEnd(requests, 0) == |r.Text()|;
      OneRequest(c, buffer, r, later + rest, steps);
      LaterEndWell(c, buffer, requests, steps);
      RequestsReceived(d, buffer, requests[1..], rest, steps);
      forall k | 0 <= k < |requests|
        ensures GotRequest(ReadRequests(c, buffer, k + 1, steps), requests[k].head, requests[k].body)
      {
        assert ReadRequests(c, buffer, k + 1, steps) == ReadRequests(d, buffer, k, steps);
        if k > 0 { assert requests[1..][k - 1] == requests[k]; }
      }
    }
  }
}
