/**
 The request as the source writes it: an object that copies header octets into its buffer, scans them,
 parses the buffer where it lies, and collects a body.
 */
module Request {
  import opened Bytes
  import opened Messages
  import opened Decimal
  import opened Paths
  import opened HeadSpec
  import opened ConnectionSpec
  import opened RequestSpec
  import HeadParser

  class Request {
    const headerBuffer: array<byte>
    var headerBufferIdx: nat
    var last: byte
    var numFound: nat

    var method_: seq<byte>
    var target: seq<byte>
    var version: seq<byte>
    var fields: seq<Field>
    var contentLength: Option<nat>
    var chunked: bool
    var path: seq<Text>
    var params: seq<Pair>

    var body: seq<byte>
    var bodyIdx: nat

    constructor (span: array<byte>)
      ensures headerBuffer == span && Now() == Receiving(span[..], 0, START, NOTHING, [], 0)
    {
      headerBuffer := span;
      headerBufferIdx, last, numFound := 0, 0, 0;
      method_, target, version, fields, contentLength, chunked, path, params := [], [], [], [], None, false, [], [];
      body, bodyIdx := [], 0;
    }

    function Known(): Head
      reads this
    {
      Head(method_, target, version, fields, contentLength, chunked, path, params)
    }

    function Now(): Receiving
      reads this, headerBuffer
    {
      Receiving(headerBuffer[..], headerBufferIdx, Scan(numFound, last), Known(), body, bodyIdx)
    }

    // The counter over one span, and how much of it to keep: up to the last octet at which the counter
    // showed 4, or all of it.
    method ScanSpan(data: seq<byte>) returns (numRead: nat)
      modifies this`last, this`numFound
      ensures Scan(numFound, last) == ScanAll(old(Scan(numFound, last)), data)
      ensures numRead == Kept(old(Scan(numFound, last)), data)
    {
      ghost var sc := Scan(numFound, last);
      numRead := |data|;
      assert data[..0] == [];
      for i := 0 to |data|
        invariant Scan(numFound, last) == ScanAll(sc, data[..i])
        invariant numRead == if LastHit(sc, data[..i]) == 0 then |data| else LastHit(sc, data[..i])
      {
        assert data[..i + 1][..i] == data[..i];
        var c := data[i];
        if c == CR && last != CR { numFound := (numFound + 1) % 256; }
        else if c == LF && last == CR { numFound := (numFound + 1) % 256; }
        else { numFound := 0; }
        last := c;
        if numFound == 4 { numRead := i + 1; }
      }
      assert data[..|data|] == data;
    }

    // Parses the whole buffer, whatever lies behind the received octets.
    method Deserialize(sse: bool) returns (success: bool)
      modifies this`method_, this`target, this`version, this`fields, this`contentLength, this`chunked, this`path, this`params
      ensures (Known(), success) == Understood(old(Known()), headerBuffer[..])
    {
      hide ParseRequest, First, FromChars, IsChunked, Segments, Pairs, Find, FieldsOf, HeadSpec.TextAt;
      var s := headerBuffer[..];
      var r := HeadParser.PhrParseRequest(sse, s, MAX_HEADERS, 0);
      if !r.Good? { return false; }
      method_, target := HeadSpec.TextAt(s, r.value.method_), HeadSpec.TextAt(s, r.value.path);
      version := if r.value.minor == 0 then VERSION_1_0 else VERSION_1_1;
      fields := CollectFields(s, r.value.headers, r.next);
      var length := First(fields, CONTENT_LENGTH, CONTENT_LENGTH_LOWER);
      if length.Some? {
        var n := FromChars(length.value);
        if n.None? { return false; }
        contentLength := n;
      }
      if contentLength.None? && IsChunked(fields) { chunked := true; }

      ParseTarget();
      success := true;
    }

    // The segments of the path and the pairs of the query are added to those there are.
    method ParseTarget()
      modifies this`path, this`params
      ensures var mark := Find(target, QUESTION, 0);
        && path == old(path) + Segments(target[..mark])
        && params == old(params) + (if mark < |target| then Pairs(target[mark + 1..]) else [])
    {
      hide Find, Segments, Pairs;
      var mark := Find(target, QUESTION, 0);
      var segments := Split(target[..mark]);
      path := path + segments;
      if mark == |target| {
        assert params + [] == params;
        return;
      }
      var pairs := ParseQuery(target[mark + 1..]);
      params := params + pairs;
    }

    method ConsumeHeaderSome(sse: bool, data: seq<byte>) returns (reply: Reply)
      requires headerBufferIdx <= headerBuffer.Length
      modifies this`headerBufferIdx, this`last, this`numFound, this`method_, this`target, this`version, this`fields,
               this`contentLength, this`chunked, this`path, this`params, headerBuffer
      ensures Consumed(Now(), reply) == TakeHead(old(Now()), data)
    {
      hide Understood, ScanAll, Kept;
      var writeable := headerBuffer.Length - headerBufferIdx;
      var maxRead := Min(|data|, writeable);
      var numRead := ScanSpan(data[..maxRead]);
      var finished := numFound == 4;
      if numRead == writeable && !finished { return Reply(Some(INVALID_MESSAGE), true, 0); }
      assert data[..maxRead][..numRead] == data[..numRead];
      Write(headerBuffer, headerBufferIdx, data[..numRead]);
      assert headerBuffer[..] == Overwritten(old(headerBuffer[..]), old(headerBufferIdx), data[..numRead]);
      headerBufferIdx := headerBufferIdx + numRead;
      if finished {
        var success := Deserialize(sse);
        if !success { return Reply(Some(INVALID_MESSAGE), true, 0); }
      }
      reply := Reply(None, finished, numRead);
    }

    // Octets for a body of announced length; chunked bodies are not part of this method.
    method ConsumeBodySome(data: seq<byte>) returns (reply: Reply)
      requires Now().Valid() && Supported(Known())
      modifies this`body, this`bodyIdx
      ensures Consumed(Now(), reply) == TakeBody(old(Now()), data)
    {
      if contentLength.Some? && contentLength.value > 0 {
        if contentLength.value > MAX_BODY_SIZE { return Reply(Some(INVALID_MESSAGE), true, 0); }
        if |body| != contentLength.value { body := Resized(body, contentLength.value); }
        assert body == Resized(old(body), contentLength.value);
        var writeable := contentLength.value - bodyIdx;
        var numCopy := Min(|data|, writeable);
        body := Overwritten(body, bodyIdx, data[..numCopy]);
        bodyIdx := bodyIdx + numCopy;
        var finished := bodyIdx >= contentLength.value;
        return Reply(None, finished, numCopy);
      }
      reply := Reply(None, true, 0);
    }
  }

  method CollectFields(s: seq<byte>, headers: seq<Header>, next: nat) returns (fields: seq<Field>)
    requires next <= |s| && forall h :: h in headers ==> Fits(h, next)
    ensures (forall h :: h in headers ==> Fits(h, |s|)) && fields == FieldsOf(s, headers)
  {
    fields := [];
    assert forall h :: h in headers ==> Fits(h, |s|);
    for i := 0 to |headers|
      invariant |fields| == i && forall k :: 0 <= k < i ==> fields[k] == FieldOf(s, headers[k])
    {
      fields := fields + [FieldOf(s, headers[i])];
    }
  }
}
