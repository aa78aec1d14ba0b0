/**
 What a socket has still to deliver to a connection, and how reading uses it up.
 */
module Delivery {
  import opened Bytes
  import opened StaticBuffer
  import opened ConnectionSpec
  import opened ConnectionTheorems

  // The octets the socket is still to deliver.
  function Pending(arrivals: seq<Arrival>): seq<byte> {
    if arrivals == [] then []
    else (if arrivals[0].Data? then arrivals[0].bytes else []) + Pending(arrivals[1..])
  }

  function Stream<S>(c: Reading<S>): seq<byte> {
    c.buffer.readable + Pending(c.arrivals)
  }

  lemma FetchKeepsStream<S>(c: Reading<S>)
    requires Conserved(c) && c.buffer.readable == [] && c.status == Running
    ensures Stream(Fetch(c)) == Stream(c)
  {
    FetchConserves(c);
    if c.arrivals != [] && c.arrivals[0].Data? {
      var bytes := c.arrivals[0].bytes;
      var n := Min(|bytes|, CAPACITY);
      assert c.arrivals[1..] == ([Data(bytes[n..])] + c.arrivals[1..])[1..];
      assert bytes == bytes[..n] + bytes[n..];
      assert bytes[..n] + (bytes[n..] + Pending(c.arrivals[1..])) == bytes + Pending(c.arrivals[1..]);
      if n == |bytes| { assert bytes[..n] == bytes; }
    }
  }

  // What one call takes off the stream.
  lemma TakenOff(readable: seq<byte>, pending: seq<byte>, wanted: seq<byte>, rest: seq<byte>)
    requires readable + pending == wanted + rest
    ensures var n := Min(|readable|, |wanted|);
      && readable[..n] == wanted[..n]
      && readable[n..] + pending == wanted[n..] + rest
  {
    var n := Min(|readable|, |wanted|);
    var s := readable + pending;
    assert readable[..n] == s[..n] == wanted[..n];
    assert readable[n..] + pending == s[n..] == wanted[n..] + rest;
  }

  // The block agrees with the body up to `at`, and after the copy up to the end of what was copied.
  lemma BlockGrows(block: seq<byte>, at: nat, data: seq<byte>, body: seq<byte>)
    requires |block| == |body| && at + |data| <= |body|
    requires block[..at] == body[..at] && data == body[at..at + |data|]
    ensures var r := Overwritten(block, at, data);
      r[..at + |data|] == body[..at + |data|] && (at + |data| == |body| ==> r == body)
  {}

  lemma Joined(front: seq<byte>, body: seq<byte>, at: nat, n: nat)
    requires at + n <= |body|
    ensures front + body[..at] + body[at..][..n] == front + body[..at + n]
    ensures body[at..][n..] == body[at + n..] && body[at..][..n] == body[at..at + n]
    ensures at + n == |body| ==> body[..at + n] == body && body[at + n..] == []
  {}

  // The socket delivers something each time, and never fails.
  predicate AllArrive(arrivals: seq<Arrival>) {
    arrivals == [] || (arrivals[0].Data? && arrivals[0].bytes != [] && AllArrive(arrivals[1..]))
  }

  // Every step moves octets from the socket to the buffer, or from the buffer to the message.
  function Left<S>(c: Reading<S>): nat {
    2 * |Pending(c.arrivals)| + |c.buffer.readable|
  }

  lemma FetchProgress<S>(c: Reading<S>)
    requires Conserved(c) && c.buffer.readable == [] && c.status == Running && AllArrive(c.arrivals) && Pending(c.arrivals) != []
    ensures var d := Fetch(c); d.status == Running && AllArrive(d.arrivals) && Left(d) < Left(c)
  {
    FetchConserves(c);
    FetchKeepsStream(c);
    var bytes := c.arrivals[0].bytes;
    var n := Min(|bytes|, CAPACITY);
    assert c.arrivals[1..] == ([Data(bytes[n..])] + c.arrivals[1..])[1..];
  }

  // ---------- where the pieces end ----------

  // How much of the next answer one read takes, and what is left of the answers.
  function Piece(arrivals: seq<Arrival>): nat
    requires arrivals != [] && arrivals[0].Data?
  {
    Min(|arrivals[0].bytes|, CAPACITY)
  }

  function Later(arrivals: seq<Arrival>): seq<Arrival>
    requires arrivals != [] && arrivals[0].Data?
  {
    var n := Piece(arrivals);
    if n < |arrivals[0].bytes| then [Data(arrivals[0].bytes[n..])] + arrivals[1..] else arrivals[1..]
  }

  lemma LaterPending(arrivals: seq<Arrival>)
    requires arrivals != [] && arrivals[0].Data? && arrivals[0].bytes != []
    ensures Piece(arrivals) > 0 && (AllArrive(arrivals) ==> AllArrive(Later(arrivals)))
    ensures |Pending(arrivals)| == Piece(arrivals) + |Pending(Later(arrivals))|
  {
    var bytes, n := arrivals[0].bytes, Piece(arrivals);
    assert ([Data(bytes[n..])] + arrivals[1..])[1..] == arrivals[1..];
  }

  // With `n` octets in the buffer and these answers to come: where the piece ends that holds octet `f`
  // of the stream.
  function EndAfter(n: nat, arrivals: seq<Arrival>, f: nat): (r: nat)
    requires AllArrive(arrivals) && f < n + |Pending(arrivals)|
    ensures f < r
    decreases |Pending(arrivals)|
  {
    if f < n then n
    else
      LaterPending(arrivals);
      n + EndAfter(Piece(arrivals), Later(arrivals), f - n)
  }

  function EndIn<S>(c: Reading<S>, f: nat): (r: nat)
    requires AllArrive(c.arrivals) && f < |Stream(c)|
    ensures f < r
  {
    EndAfter(|c.buffer.readable|, c.arrivals, f)
  }

  // `d` is `c` after `a` octets of its stream have been taken: the pieces end where they did.
  predicate Moved<S>(c: Reading<S>, d: Reading<S>, f: nat) {
    && AllArrive(c.arrivals) && AllArrive(d.arrivals) && Left(d) <= Left(c)
    && |c.accepted| <= |d.accepted| && |c.accepted| + |Stream(c)| == |d.accepted| + |Stream(d)|
    && (|d.accepted| - |c.accepted| <= f < |Stream(c)| ==>
          EndIn(d, f - (|d.accepted| - |c.accepted|)) == EndIn(c, f) - (|d.accepted| - |c.accepted|))
  }

  lemma TakeMoves<S>(c: Reading<S>, r: Consumed<S>, next: ReadPhase, f: nat)
    requires AllArrive(c.arrivals)
    ensures Moved(c, Take(c, r, next), f)
  {
    var d := Take(c, r, next);
    assert d.arrivals == c.arrivals;
  }

  lemma FetchMoves<S>(c: Reading<S>, f: nat)
    requires Conserved(c) && c.buffer.readable == [] && AllArrive(c.arrivals)
    ensures Moved(c, Fetch(c), f)
  {
    FetchConserves(c);
    if Pending(c.arrivals) == [] {
      assert c.arrivals == [];
    } else {
      LaterPending(c.arrivals);
      var d := Fetch(c);
      assert d.arrivals == Later(c.arrivals) && |d.buffer.readable| == Piece(c.arrivals);
    }
  }

  // One move after another.
  lemma MovedAgain<S>(c: Reading<S>, d: Reading<S>, e: Reading<S>, f: nat)
    requires Moved(c, d, f)
    requires |d.accepted| - |c.accepted| <= f ==> Moved(d, e, f - (|d.accepted| - |c.accepted|))
    requires Moved(d, e, 0)
    ensures Moved(c, e, f)
  {
    hide EndIn, AllArrive, Stream, Left;
  }

  lemma {:induction false} StepMoves<S>(ops: Consumer<S>, c: Reading<S>, f: nat)
    requires Conserved(c) && AllArrive(c.arrivals)
    ensures Moved(c, ReadStep(ops, c), f)
  {
    if c.status == Running {
      if c.buffer.readable == [] {
        FetchMoves(c, f);
      } else {
        var d := FeedHeader(ops, c);
        HeaderMoves(ops, c, f);
        BodyMoves(ops, d, 0);
        if |d.accepted| - |c.accepted| <= f { BodyMoves(ops, d, f - (|d.accepted| - |c.accepted|)); }
        MovedAgain(c, d, FeedBody(ops, d), f);
        hide Moved;
      }
    }
  }

  lemma HeaderMoves<S>(ops: Consumer<S>, c: Reading<S>, f: nat)
    requires AllArrive(c.arrivals)
    ensures Moved(c, FeedHeader(ops, c), f) && AllArrive(FeedHeader(ops, c).arrivals)
  {
    if c.phase == ReadHeader { TakeMoves(c, ops.header(c.msg, c.buffer.readable), ReadBody, f); }
  }

  lemma BodyMoves<S>(ops: Consumer<S>, c: Reading<S>, f: nat)
    requires AllArrive(c.arrivals)
    ensures Moved(c, FeedBody(ops, c), f)
  {
    if c.status == Running && c.phase == ReadBody { TakeMoves(c, ops.body(c.msg, c.buffer.readable), ReadStart, f); }
  }

  // Over any run the stream is used up from its front, and its pieces end where they did.
  lemma {:induction false} RunMoves<S>(ops: Consumer<S>, c: Reading<S>, steps: nat, f: nat)
    requires Conserved(c) && PhaseAgrees(c) && AllArrive(c.arrivals)
    ensures Moved(c, ReadRun(ops, c, steps), f)
    decreases steps
  {
    hide Conserved, ReadStep, EndIn, AllArrive, Stream, Left, PhaseAgrees;
    if steps > 0 {
      var d := ReadStep(ops, c);
      StepMoves(ops, c, f);
      ReadStepConserves(ops, c);
      RunMoves(ops, d, steps - 1, 0);
      if |d.accepted| - |c.accepted| <= f { RunMoves(ops, d, steps - 1, f - (|d.accepted| - |c.accepted|)); }
      MovedAgain(c, d, ReadRun(ops, c, steps), f);
    }
  }
}
