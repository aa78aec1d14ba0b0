/**
 What a message tells the connection: an error, or whether its part is complete and how many octets
 it took from, or put into, the span it was given.
 */
module Messages {
  import opened Bytes

  datatype Option<+T> = None | Some(value: T) {
    function GetOr(default: T): T {
      if Some? then value else default
    }
  }

  datatype ErrorCode =
    | SERIALIZATION_ERROR | DESERIALIZATION_ERROR | NULL_VALUE | INVALID_STATE | INVALID_MESSAGE
    | SOCKET_READ_ERROR | SOCKET_WRITE_ERROR | CONNECTION_ENDED

  datatype Reply = Reply(err: Option<ErrorCode>, complete: bool, count: nat)

  // A message on its way out: a header and a body, each sent up to a cursor that goes back to the
  // start once everything has been handed over.
  datatype Outgoing = Outgoing(header: seq<byte>, headerAt: nat, body: seq<byte>, bodyAt: nat) {
    predicate Valid() {
      headerAt <= |header| && bodyAt <= |body|
    }
  }

  datatype Produced<+S> = Produced(msg: S, reply: Reply, bytes: seq<byte>)

  function ProduceHeader(o: Outgoing, space: nat): (p: Produced<Outgoing>)
    requires o.Valid()
    ensures p.msg.Valid() && |p.bytes| == p.reply.count <= space
  {
    var n := Min(space, |o.header| - o.headerAt);
    var end := o.headerAt + n;
    Produced(o.(headerAt := if end == |o.header| then 0 else end), Reply(None, end == |o.header|, n), o.header[o.headerAt..end])
  }

  function ProduceBody(o: Outgoing, space: nat): (p: Produced<Outgoing>)
    requires o.Valid()
    ensures p.msg.Valid() && |p.bytes| == p.reply.count <= space
  {
    var n := Min(space, |o.body| - o.bodyAt);
    var end := o.bodyAt + n;
    Produced(o.(bodyAt := if end == |o.body| then 0 else end), Reply(None, end == |o.body|, n), o.body[o.bodyAt..end])
  }
}
