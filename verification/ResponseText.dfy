/**
 What the fields of a response say, and what completing its head adds to them, told without the code.
 */
module ResponseText {
  import opened Bytes
  import opened Decimal
  import opened HeadSpec

  predicate Named(f: Field, name: seq<byte>, lower: seq<byte>) {
    f.name == name || f.name == lower
  }

  predicate NoneNamed(fields: seq<Field>, name: seq<byte>, lower: seq<byte>) {
    forall k :: 0 <= k < |fields| ==> !Named(fields[k], name, lower)
  }

  ghost predicate SaysNumber(f: Field, n: nat) {
    Named(f, Ascii("Content-Length"), Ascii("content-length")) && n < TWO_TO_THE_64 && StartsWith(f.value, n)
  }

  // The last Content-Length field that holds a number holds this one.
  ghost predicate LastNumber(fields: seq<Field>, n: nat) {
    exists k :: 0 <= k < |fields| && SaysNumber(fields[k], n)
      && forall j, m: nat :: k < j < |fields| ==> !SaysNumber(fields[j], m)
  }

  // The fields announce a positive length.
  ghost predicate Positive(fields: seq<Field>) {
    exists n: nat :: n > 0 && LastNumber(fields, n)
  }

  // A type is missing exactly if there is a body and the user set none.
  predicate MissingType(fields: seq<Field>, isString: bool, hasBody: bool, missing: seq<Field>) {
    missing == if hasBody && NoneNamed(fields, Ascii("Content-Type"), Ascii("content-type"))
               then [Field(Ascii("Content-Type"), Ascii(if isString then "text/plain" else "application/octet-stream"))] else []
  }

  // A connection exactly if the user set none.
  predicate MissingConnection(fields: seq<Field>, keepAlive: bool, missing: seq<Field>) {
    missing == if NoneNamed(fields, Ascii("Connection"), Ascii("connection"))
               then [Field(Ascii("Connection"), Ascii(if keepAlive then "keep-alive" else "close"))] else []
  }

  // A length exactly if the user announced no positive one.
  ghost predicate MissingLength(fields: seq<Field>, size: nat, missing: seq<Field>) {
    if Positive(fields) then missing == []
    else |missing| == 1 && missing[0].name == Ascii("Content-Length") && IsNumeral(missing[0].value, size)
  }

  // Completing the head adds what is missing.
  ghost predicate Adds(fields: seq<Field>, added: seq<Field>, keepAlive: bool, isString: bool, hasBody: bool, size: nat) {
    exists t, c, l :: added == t + c + l
      && MissingType(fields, isString, hasBody, t) && MissingConnection(fields, keepAlive, c) && MissingLength(fields, size, l)
  }

  // The body that goes out: cut, or filled up with zeros, to the positive length announced, if any.
  ghost predicate Sends(fields: seq<Field>, data: seq<byte>, body: seq<byte>) {
    && (!Positive(fields) ==> body == data)
    && forall n: nat :: n > 0 && LastNumber(fields, n) ==>
         && |body| == n
         && forall k :: 0 <= k < n ==> body[k] == if k < |data| then data[k] else 0
  }
}
