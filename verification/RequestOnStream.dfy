/**
 A request with a body of announced length, or none, on a connection, in pieces one of which ends where
 its head does.
 */
module RequestOnStream {
  import opened Bytes
  import opened Messages
  import opened HeadSpec
  import opened StaticBuffer
  import opened ConnectionSpec
  import opened ConnectionTheorems
  import opened Delivery
  import opened RequestSpec
  import opened RequestTheorems
  import opened HeadExactly
  import opened RequestMeaning
  import T = HeadText

  const REQUEST: Consumer<Receiving> := Consumer(
    (m: Receiving, data: seq<byte>) =>
      if m.idx <= |m.buffer| then TakeHead(m, data) else Consumed(m, Reply(Some(INVALID_MESSAGE), true, 0)),
    (m: Receiving, data: seq<byte>) =>
      if m.Valid() && Supported(m.head) then TakeBody(m, data) else Consumed(m, Reply(Some(INVALID_MESSAGE), true, 0)))

  // Some piece the socket delivers ends after exactly `n` more octets, unless it fails before.
  predicate EndsAt(arrivals: seq<Arrival>, n: nat)
    decreases |Pending(arrivals)|, |arrivals|
  {
    if n == 0 || arrivals == [] || arrivals[0].ReadFailed? || arrivals[0].bytes == [] then true
    else
      LaterPending(arrivals);
      Piece(arrivals) <= n && EndsAt(Later(arrivals), n - Piece(arrivals))
  }

  predicate PieceEndsAt(c: Reading<Receiving>, n: nat) {
    |c.buffer.readable| <= n && EndsAt(c.arrivals, n - |c.buffer.readable|)
  }

  // A head that ends with a blank line and is understood, and a body of the length understood.
  predicate Acceptable(h: seq<byte>, body: seq<byte>) {
    && IsHead(h) && EndsWithBlankLine(h) && |body| <= MAX_BODY_SIZE
    && Understood(NOTHING, h).1
    && Understood(NOTHING, h).0.contentLength.GetOr(0) == |body| && Supported(Understood(NOTHING, h).0)
  }

  // Receiving the request, with `start` accepted before it and `rest` behind it on the stream.
  predicate Coming(c: Reading<Receiving>, start: seq<byte>, h: seq<byte>, body: seq<byte>, rest: seq<byte>) {
    && (c.status.Returned? ==> c.status.err in {None, Some(CONNECTION_ENDED), Some(SOCKET_READ_ERROR)})
    && (c.status == Returned(None) <==> c.phase == ReadStart)
    && (match c.phase
        case ReadHeader =>
          && PartThere(c.msg, h) && c.msg.body == [] && c.msg.bodyIdx == 0
          && c.accepted == start + h[..c.msg.idx] && Stream(c) == h[c.msg.idx..] + (body + rest)
          && (c.status == Running ==> PieceEndsAt(c, |h| - c.msg.idx) || |c.msg.buffer| == |h|)
        case ReadBody =>
          && c.msg.head == Understood(NOTHING, h).0 && BodyThere(c.msg, body)
          && c.accepted == start + h + body[..c.msg.bodyIdx] && Stream(c) == body[c.msg.bodyIdx..] + rest
        case ReadStart =>
          && c.msg.head == Understood(NOTHING, h).0 && c.msg.body == body
          && c.accepted == start + h + body && Stream(c) == rest)
  }

  predicate BodyThere(m: Receiving, body: seq<byte>) {
    && m.idx <= |m.buffer| && m.bodyIdx <= |body| && m.bodyIdx <= |m.body|
    && (m.bodyIdx == 0 ==> m.body == [] || |m.body| == |body|)
    && (m.bodyIdx > 0 ==> |m.body| == |body| && m.body[..m.bodyIdx] == body[..m.bodyIdx])
  }

  lemma FetchKeepsPieces(c: Reading<Receiving>, n: nat)
    requires Conserved(c) && c.buffer.readable == [] && c.status == Running && PieceEndsAt(c, n) && n > 0
    ensures Fetch(c).status == Running ==> PieceEndsAt(Fetch(c), n)
  {
    FetchConserves(c);
  }

  lemma {:induction false} FetchComes(c: Reading<Receiving>, start: seq<byte>, h: seq<byte>, body: seq<byte>, rest: seq<byte>)
    requires Conserved(c) && c.buffer.readable == [] && c.status == Running && Coming(c, start, h, body, rest)
    ensures Coming(Fetch(c), start, h, body, rest)
  {
    FetchKeepsStream(c);
    if c.phase == ReadHeader && |c.msg.buffer| != |h| { FetchKeepsPieces(c, |h| - c.msg.idx); }
    hide Stream, PieceEndsAt, PartThere, BodyThere, Understood;
  }

  // One piece of the head: as much of it as belongs to the head is taken; with the end of the head the
  // head is understood.
  lemma {:induction false} HeadComes(c: Reading<Receiving>, start: seq<byte>, h: seq<byte>, body: seq<byte>, rest: seq<byte>)
    requires Conserved(c) && c.buffer.readable != [] && c.status == Running && Coming(c, start, h, body, rest)
    requires Acceptable(h, body) && c.phase == ReadHeader
    ensures var d := FeedHeader(REQUEST, c);
      && d.status == Running && d.arrivals == c.arrivals && |d.buffer.readable| < |c.buffer.readable|
      && (d.phase == ReadHeader ==> d.buffer.readable == []) && Coming(d, start, h, body, rest)
  {
    hide IsHead, EndsWithBlankLine, Understood, ScanAll, TakeHead, PieceEndsAt;
    var m, data, wanted := c.msg, c.buffer.readable, h[c.msg.idx..];
    var n := Min(|data|, |wanted|);
    TakenOff(data, Pending(c.arrivals), wanted, body + rest);
    HeadSlices(start, h, m.idx, n);
    if |m.buffer| != |h| { PieceUsed(c, FeedHeader(REQUEST, c), |wanted|); }
    if m.idx + |data| < |h| {
      assert data[..n] == data && data[n..] == [];
      HeadScan(h);
      PartTaken(m, h, data);
    } else {
      assert data == data[..n] + data[n..];
      WholeTaken(m, h, data, data[n..]);
      assert body[..0] == [] && body[0..] == body && start + h + [] == start + h;
    }
  }

  lemma PieceUsed(c: Reading<Receiving>, d: Reading<Receiving>, n: nat)
    requires PieceEndsAt(c, n)
    ensures |c.buffer.readable| <= n
    ensures d.arrivals == c.arrivals && d.buffer.readable == [] ==> PieceEndsAt(d, n - |c.buffer.readable|)
  {}

  lemma HeadSlices(start: seq<byte>, h: seq<byte>, i: nat, n: nat)
    requires i + n <= |h|
    ensures h[i..][..n] == h[i..i + n] && h[i..][n..] == h[i + n..]
    ensures start + h[..i] + h[i..i + n] == start + h[..i + n]
    ensures h[..|h|] == h && h[|h|..] == []
  {
    assert h[..i] + h[i..i + n] == h[..i + n];
    assert start + h[..i] + h[i..i + n] == start + (h[..i] + h[i..i + n]);
  }

  // The end of the head, with nothing behind it that the request looks at.
  lemma {:induction false} WholeTaken(m: Receiving, h: seq<byte>, data: seq<byte>, behind: seq<byte>)
    requires IsHead(h) && EndsWithBlankLine(h) && Understood(NOTHING, h).1
    requires PartThere(m, h) && data == h[m.idx..] + behind && (behind == [] || |m.buffer| == |h|)
    ensures var r := TakeHead(m, data);
      && r.reply == Reply(None, true, |h| - m.idx) && r.msg.head == Understood(NOTHING, h).0
      && r.msg.idx == |h| <= |r.msg.buffer| && r.msg.body == m.body && r.msg.bodyIdx == m.bodyIdx
  {
    hide IsHead, EndsWithBlankLine, Understood, ScanAll;
    HeadScan(h);
    assert h + behind[..Min(|behind|, |m.buffer| - |h|)] == h;
    EndTaken(m, h, data, behind);
  }

  lemma {:induction false} BodyComes(c: Reading<Receiving>, start: seq<byte>, h: seq<byte>, body: seq<byte>, rest: seq<byte>)
    requires Conserved(c) && c.status == Running && c.phase == ReadBody && Coming(c, start, h, body, rest)
    requires Acceptable(h, body)
    ensures var d := FeedBody(REQUEST, c);
      && Coming(d, start, h, body, rest) && (d.status == Running ==> d.msg.bodyIdx < |body|)
      && d.arrivals == c.arrivals && (d.status == Running || d.status == Returned(None))
      && |d.buffer.readable| <= |c.buffer.readable|
      && (d.status == Running && c.buffer.readable != [] ==> |d.buffer.readable| < |c.buffer.readable|)
  {
    assert c.msg.head.contentLength.GetOr(0) == |body| <= MAX_BODY_SIZE && Supported(c.msg.head);
    BodyFed(c, start + h, body, rest);
    assert body[..|body|] == body && body[|body|..] == [] && [] + rest == rest;
    hide Acceptable, Understood, FeedBody, Conserved, Stream, BodyThere;
  }

  lemma BodyFed(c: Reading<Receiving>, front: seq<byte>, body: seq<byte>, rest: seq<byte>)
    requires c.status == Running && c.phase == ReadBody && BodyThere(c.msg, body)
    requires c.msg.head.contentLength.GetOr(0) == |body| <= MAX_BODY_SIZE && Supported(c.msg.head)
    requires c.accepted == front + body[..c.msg.bodyIdx] && Stream(c) == body[c.msg.bodyIdx..] + rest
    ensures var d := FeedBody(REQUEST, c);
      && d.arrivals == c.arrivals && BodyThere(d.msg, body) && d.msg.head == c.msg.head
      && d.accepted == front + body[..d.msg.bodyIdx] && Stream(d) == body[d.msg.bodyIdx..] + rest
      && (if d.msg.bodyIdx == |body| then d.status == Returned(None) && d.phase == ReadStart && d.msg.body == body
          else d.status == Running && d.phase == ReadBody)
      && |d.buffer.readable| <= |c.buffer.readable|
      && (d.status == Running && c.buffer.readable != [] ==> |d.buffer.readable| < |c.buffer.readable|)
  {
    var m, data := c.msg, c.buffer.readable;
    var at, n := m.bodyIdx, Min(|data|, |body| - m.bodyIdx);
    TakenOff(data, Pending(c.arrivals), body[at..], rest);
    assert body[at..][..n] == data[..n];
    BodyTaken(m, body, data);
    FeedBodyIs(c);
    Joined(front, body, at, n);
    TakeIs(c, TakeBody(m, data), ReadStart);
    hide TakeBody, BodyThere, Take, FeedBody, Supported;
  }

  lemma FeedBodyIs(c: Reading<Receiving>)
    requires c.status == Running && c.phase == ReadBody && c.msg.Valid() && Supported(c.msg.head)
    ensures FeedBody(REQUEST, c) == Take(c, TakeBody(c.msg, c.buffer.readable), ReadStart)
  {
    hide TakeBody, Take;
  }

  lemma TakeIs(c: Reading<Receiving>, r: Consumed<Receiving>, next: ReadPhase)
    requires r.reply.err == None && r.reply.count <= |c.buffer.readable|
    ensures Take(c, r, next) == c.(msg := r.msg, buffer := Take(c, r, next).buffer,
      accepted := c.accepted + c.buffer.readable[..r.reply.count], phase := if r.reply.complete then next else c.phase,
      status := if r.reply.complete && next == ReadStart then Returned(None) else Running)
    ensures Take(c, r, next).buffer.readable == c.buffer.readable[r.reply.count..]
  {}

  lemma BodyTaken(m: Receiving, body: seq<byte>, data: seq<byte>)
    requires BodyThere(m, body) && m.head.contentLength.GetOr(0) == |body| <= MAX_BODY_SIZE && Supported(m.head)
    requires var n := Min(|data|, |body| - m.bodyIdx); data[..n] == body[m.bodyIdx..][..n]
    ensures m.Valid()
    ensures var r, end := TakeBody(m, data), m.bodyIdx + Min(|data|, |body| - m.bodyIdx);
      && r.reply == Reply(None, end == |body|, end - m.bodyIdx)
      && BodyThere(r.msg, body) && r.msg.bodyIdx == end && r.msg.head == m.head && (end == |body| ==> r.msg.body == body)
  {
    if body != [] {
      var n := Min(|data|, |body| - m.bodyIdx);
      assert body[m.bodyIdx..][..n] == body[m.bodyIdx..m.bodyIdx + n];
      BlockGrows(Resized(m.body, |body|), m.bodyIdx, data[..n], body);
      hide Overwritten, Resized;
    }
  }

  // Underway two steps a running read still wants octets.
  predicate Underway(c: Reading<Receiving>, start: seq<byte>, h: seq<byte>, body: seq<byte>, rest: seq<byte>) {
    && Conserved(c) && Coming(c, start, h, body, rest)
    && (c.status == Running && c.phase == ReadBody ==> c.msg.bodyIdx < |body|)
  }

  lemma {:induction false} FeedHeaderConserves(c: Reading<Receiving>)
    requires Conserved(c)
    ensures Conserved(FeedHeader(REQUEST, c))
  {
    hide Conserved;
    if c.phase == ReadHeader { TakeConserves(c, REQUEST.header(c.msg, c.buffer.readable), ReadBody); }
  }

  lemma {:induction false} FeedComes(c: Reading<Receiving>, start: seq<byte>, h: seq<byte>, body: seq<byte>, rest: seq<byte>)
    requires Underway(c, start, h, body, rest) && Acceptable(h, body) && c.status == Running && c.buffer.readable != []
    ensures var d := ReadStep(REQUEST, c);
      && Underway(d, start, h, body, rest) && d.arrivals == c.arrivals && Left(d) <= Left(c)
      && (d.status == Returned(None) || (d.status == Running && Left(d) < Left(c)))
  {
    hide Acceptable;
    var f := FeedHeader(REQUEST, c);
    FeedHeaderConserves(c);
    if c.phase == ReadHeader { HeadComes(c, start, h, body, rest); }
    var d := FeedBody(REQUEST, f);
    if f.phase == ReadBody {
      BodyComes(f, start, h, body, rest);
      TakeConserves(f, REQUEST.body(f.msg, f.buffer.readable), ReadStart);
    }
    hide Conserved, Coming, FeedHeader, Take;
  }

  lemma {:induction false} StepComes(c: Reading<Receiving>, start: seq<byte>, h: seq<byte>, body: seq<byte>, rest: seq<byte>)
    requires Underway(c, start, h, body, rest) && Acceptable(h, body)
    ensures var d := ReadStep(REQUEST, c);
      && Underway(d, start, h, body, rest)
      && (c.status == Running && AllArrive(c.arrivals) ==>
            AllArrive(d.arrivals) && (d.status == Returned(None) || (d.status == Running && Left(d) < Left(c))))
  {
    if c.status == Running {
      if c.buffer.readable == [] {
        FetchComes(c, start, h, body, rest);
        FetchConserves(c);
        if AllArrive(c.arrivals) {
          assert Stream(c) != [] && Stream(c) == Pending(c.arrivals);
          FetchProgress(c);
        }
        hide Coming, Conserved, Left;
      } else {
        FeedComes(c, start, h, body, rest);
      }
    }
  }

  lemma {:induction false} RunComes(c: Reading<Receiving>, start: seq<byte>, h: seq<byte>, body: seq<byte>, rest: seq<byte>, steps: nat)
    requires Underway(c, start, h, body, rest) && Acceptable(h, body)
    ensures var d := ReadRun(REQUEST, c, steps);
      && Underway(d, start, h, body, rest)
      && (c.status == Running && AllArrive(c.arrivals) && steps > Left(c) ==> d.status == Returned(None))
    decreases steps
  {
    hide Underway, ReadStep, Left, AllArrive, Acceptable;
    if steps > 0 {
      StepComes(c, start, h, body, rest);
      RunComes(ReadStep(REQUEST, c), start, h, body, rest, steps - 1);
      if ReadStep(REQUEST, c).status != Running { RunsStop(REQUEST, ReadStep(REQUEST, c), steps - 1); }
    }
  }

  // A connection ready to read into a fresh request, with a request next on its stream.
  predicate RequestNext(c: Reading<Receiving>, buffer: seq<byte>, h: seq<byte>, body: seq<byte>, rest: seq<byte>) {
    && Conserved(c) && c.phase == ReadStart && Acceptable(h, body) && |h| <= |buffer|
    && Stream(c) == h + (body + rest) && (PieceEndsAt(c, |h|) || |buffer| == |h|)
  }

  lemma {:induction false} RequestBegins(c: Reading<Receiving>, buffer: seq<byte>, h: seq<byte>, body: seq<byte>, rest: seq<byte>)
    requires RequestNext(c, buffer, h, body, rest)
    ensures var b := BeginRead(c, NewRequest(buffer));
      && Underway(b, c.accepted, h, body, rest) && b.status == Running && b.arrivals == c.arrivals && Left(b) == Left(c)
  {
    hide Understood;
    assert h[..0] == [] && h[0..] == h && NewRequest(buffer).Received() == [] && c.accepted + [] == c.accepted && |h| > 0;
  }

  lemma RequestEnds(d: Reading<Receiving>, start: seq<byte>, h: seq<byte>, body: seq<byte>, rest: seq<byte>)
    requires Underway(d, start, h, body, rest)
    ensures d.status == Returned(None) ==>
      && d.phase == ReadStart && d.msg.head == Understood(NOTHING, h).0 && d.msg.body == body
      && Stream(d) == rest && d.accepted == start + h + body
    ensures d.status.Returned? ==> d.status.err in {None, Some(CONNECTION_ENDED), Some(SOCKET_READ_ERROR)}
  {
    hide Stream, Understood;
  }

  // A request as text: a head of at most 32 lines that ends with CRLFCRLF, and a body of the length it
  // announces, or none if it names neither a length nor the chunked coding.
  ghost predicate IsRequest(r: T.Request, body: seq<byte>) {
    && T.ValidRequest(r) && |r.fields.lines| <= 32 && EndsWithBlankLine(T.SpellRequest(r)) && |body| <= 1024 * 1024
    && if NoLength(r.fields.lines) then body == [] && !NamesChunked(r.fields.lines) else Announces(r.fields.lines, |body|)
  }

  lemma RequestAcceptable(r: T.Request, body: seq<byte>)
    requires IsRequest(r, body)
    ensures Acceptable(T.SpellRequest(r), body) && Knows(Understood(NOTHING, T.SpellRequest(r)).0, r)
  {
    hide ParseRequest, Understood, T.ValidRequest, T.SpellRequest, NoLength, NamesChunked, Announces, FieldsSay, TargetSays,
      EndsWithBlankLine, RequestAt;
    var h := T.SpellRequest(r);
    assert h + [] == h;
    Understands(r, []);
    assert At(h, 0, h);
    RequestRead(h, r, 32);
  }

  // However a request arrives, as long as a piece ends where its head does, or its head just fills the
  // buffer: a read that succeeds has taken exactly the request, knows what its head says, holds its body and
  // leaves the rest unread; only the socket makes it fail; and it succeeds if the socket delivers.
  lemma {:induction false} RequestReceived(c: Reading<Receiving>, buffer: seq<byte>, r: T.Request, body: seq<byte>, rest: seq<byte>, steps: nat)
    requires Conserved(c) && c.phase == ReadStart && IsRequest(r, body)
    requires var h := T.SpellRequest(r);
      |h| <= |buffer| && Stream(c) == h + (body + rest) && (PieceEndsAt(c, |h|) || |buffer| == |h|)
    ensures var h, d := T.SpellRequest(r), ReadRun(REQUEST, BeginRead(c, NewRequest(buffer)), steps);
      && (d.status == Returned(None) ==>
            && d.phase == ReadStart && Knows(d.msg.head, r) && d.msg.body == body
            && Stream(d) == rest && d.accepted == c.accepted + h + body)
      && (d.status.Returned? ==> d.status.err in {None, Some(CONNECTION_ENDED), Some(SOCKET_READ_ERROR)})
      && (AllArrive(c.arrivals) && steps > Left(c) ==> d.status == Returned(None))
  {
    hide *;
    var h := T.SpellRequest(r);
    RequestAcceptable(r, body);
    RequestIsNext(c, buffer, h, body, rest);
    RequestBegins(c, buffer, h, body, rest);
    RunComes(BeginRead(c, NewRequest(buffer)), c.accepted, h, body, rest, steps);
    RequestEnds(ReadRun(REQUEST, BeginRead(c, NewRequest(buffer)), steps), c.accepted, h, body, rest);
  }

  lemma {:induction false} RequestIsNext(c: Reading<Receiving>, buffer: seq<byte>, h: seq<byte>, body: seq<byte>, rest: seq<byte>)
    requires Conserved(c) && c.phase == ReadStart && Acceptable(h, body) && |h| <= |buffer|
    requires Stream(c) == h + (body + rest) && (PieceEndsAt(c, |h|) || |buffer| == |h|)
    ensures RequestNext(c, buffer, h, body, rest)
  {
    hide Conserved, Acceptable, Stream, PieceEndsAt;
  }

  // A length of more than 1 MiB is refused when the body begins, and nothing changes.
  lemma {:induction false} BodyTooLong(m: Receiving, r: T.Request, n: nat, data: seq<byte>)
    requires m.Valid() && Supported(m.head) && Knows(m.head, r) && Announces(r.fields.lines, n) && n > 1024 * 1024
    ensures TakeBody(m, data) == Consumed(m, Reply(Some(INVALID_MESSAGE), true, 0))
  {
    hide Announces, NoLength, NamesChunked, FieldsSay, TargetSays, Overwritten, Resized;
    assert m.head.contentLength == Some(n);
  }
}
