/**
 The response under construction: its head printed into a growing buffer, its body, and the cursors
 from which both are sent.
 */
module Response {
  import opened Bytes
  import opened Messages
  import opened Decimal
  import opened HeadSpec
  import opened ResponseHead
  import opened ResponseText
  import T = HeadText

  const CONTENT_TYPE := Ascii("Content-Type")
  const CONTENT_TYPE_LOWER := Ascii("content-type")
  const CONNECTION := Ascii("Connection")
  const CONNECTION_LOWER := Ascii("connection")
  const TEXT_PLAIN := Ascii("text/plain")
  const OCTET_STREAM := Ascii("application/octet-stream")
  const KEEP_ALIVE := Ascii("keep-alive")
  const CLOSE := Ascii("close")

  predicate IsContentType(name: seq<byte>) { name == CONTENT_TYPE || name == CONTENT_TYPE_LOWER }
  predicate IsConnection(name: seq<byte>) { name == CONNECTION || name == CONNECTION_LOWER }
  predicate IsContentLength(name: seq<byte>) { name == CONTENT_LENGTH || name == CONTENT_LENGTH_LOWER }

  // ---------- what the fields say ----------

  predicate Has(fields: seq<Field>, named: seq<byte> -> bool) {
    exists f :: f in fields && named(f.name)
  }

  // The body length the fields announce: the number the last Content-Length field that holds one
  // starts with, or 0.
  function Announced(fields: seq<Field>): (n: nat)
    ensures n < TWO_TO_THE_64
  {
    if fields == [] then 0
    else
      var before, f := Announced(fields[..|fields| - 1]), fields[|fields| - 1];
      if IsContentLength(f.name) then FromChars(f.value).GetOr(before) else before
  }

  lemma HasAppend(fields: seq<Field>, f: Field, named: seq<byte> -> bool)
    ensures Has(fields + [f], named) == (Has(fields, named) || named(f.name))
  {
    if Has(fields, named) {
      var g :| g in fields && named(g.name);
      assert g in fields + [f];
    }
    assert f in fields + [f];
  }

  lemma PrintedAppend(h: Head, f: Field)
    ensures Printed(h.(fields := h.fields + [f])) == Printed(h) + FieldLine(f)
    ensures Announced(h.fields + [f])
      == if IsContentLength(f.name) then FromChars(f.value).GetOr(Announced(h.fields)) else Announced(h.fields)
  {
    assert (h.fields + [f])[..|h.fields|] == h.fields;
  }

  // The length announced at the end: what the user asked for, or else the size of the body.
  function FinalLength(fields: seq<Field>, size: nat): nat {
    if Announced(fields) != 0 then Announced(fields) else size
  }

  function Typed(fields: seq<Field>, isString: bool, hasBody: bool): seq<Field> {
    if Has(fields, IsContentType) || !hasBody then fields
    else fields + [Field(CONTENT_TYPE, if isString then TEXT_PLAIN else OCTET_STREAM)]
  }

  lemma TypedAnnounces(fields: seq<Field>, isString: bool, hasBody: bool)
    ensures var done := Typed(fields, isString, hasBody);
      && Announced(done) == Announced(fields) && fields <= done
      && Has(done, IsConnection) == Has(fields, IsConnection) && (hasBody ==> Has(done, IsContentType))
  {
    var ct := Field(CONTENT_TYPE, if isString then TEXT_PLAIN else OCTET_STREAM);
    NamesDiffer();
    FlagsAfter(Head([], [], [], fields), ct);
  }

  function Connected(fields: seq<Field>, keepAlive: bool): seq<Field> {
    if Has(fields, IsConnection) then fields else fields + [Field(CONNECTION, if keepAlive then KEEP_ALIVE else CLOSE)]
  }

  lemma ConnectedAnnounces(fields: seq<Field>, keepAlive: bool)
    ensures var done := Connected(fields, keepAlive);
      && Announced(done) == Announced(fields) && fields <= done
      && Has(done, IsConnection) && Has(done, IsContentType) == Has(fields, IsContentType)
  {
    var cn := Field(CONNECTION, if keepAlive then KEEP_ALIVE else CLOSE);
    NamesDiffer();
    FlagsAfter(Head([], [], [], fields), cn);
  }

  function Measured(fields: seq<Field>, size: nat): seq<Field> {
    if Announced(fields) != 0 then fields else fields + [Field(CONTENT_LENGTH, ToChars(size))]
  }

  lemma MeasuredAnnounces(fields: seq<Field>, size: nat)
    requires size < TWO_TO_THE_64
    ensures var done := Measured(fields, size);
      && Announced(done) == FinalLength(fields, size) && fields <= done
      && Has(done, IsConnection) == Has(fields, IsConnection) && Has(done, IsContentType) == Has(fields, IsContentType)
  {
    hide FromChars, ToChars;
    var cl := Field(CONTENT_LENGTH, ToChars(size));
    NamesDiffer();
    FlagsAfter(Head([], [], [], fields), cl);
    DecimalRoundTrip(size, []);
    assert ToChars(size) + [] == ToChars(size);
  }

  // The fields added when the head is completed.
  function Completed(fields: seq<Field>, keepAlive: bool, isString: bool, hasBody: bool, size: nat): seq<Field> {
    Measured(Connected(Typed(fields, isString, hasBody), keepAlive), size)
  }

  lemma NoneIsNotHas(fields: seq<Field>)
    ensures NoneNamed(fields, CONTENT_TYPE, CONTENT_TYPE_LOWER) <==> !Has(fields, IsContentType)
    ensures NoneNamed(fields, CONNECTION, CONNECTION_LOWER) <==> !Has(fields, IsConnection)
  {
    if Has(fields, IsContentType) {
      var f :| f in fields && IsContentType(f.name);
      var k :| 0 <= k < |fields| && fields[k] == f;
      assert Named(fields[k], CONTENT_TYPE, CONTENT_TYPE_LOWER);
    }
    if Has(fields, IsConnection) {
      var f :| f in fields && IsConnection(f.name);
      var k :| 0 <= k < |fields| && fields[k] == f;
      assert Named(fields[k], CONNECTION, CONNECTION_LOWER);
    }
  }

  lemma OneNumber(f: Field, n: nat)
    ensures SaysNumber(f, n) <==> IsContentLength(f.name) && FromChars(f.value) == Some(n)
  {
    hide FromChars, StartsWith;
    ReadsExactly(f.value, n);
  }

  // What the code understands is the number of the last field that holds one, if any.
  lemma {:induction false} AnnouncedIs(fields: seq<Field>, n: nat)
    ensures LastNumber(fields, n) ==> Announced(fields) == n
    ensures n > 0 && Announced(fields) == n ==> LastNumber(fields, n)
    decreases |fields|
  {
    hide FromChars, SaysNumber, IsContentLength;
    if fields != [] {
      var front, f := fields[..|fields| - 1], fields[|fields| - 1];
      AnnouncedIs(front, n);
      OneNumber(f, n);
      if IsContentLength(f.name) && FromChars(f.value).Some? {
        OneNumber(f, FromChars(f.value).value);
        LastSays(front, f, n, FromChars(f.value).value);
      } else {
        forall m: nat ensures !SaysNumber(f, m) { OneNumber(f, m); }
        LastDoesNotSay(front, f, n);
      }
      assert fields == front + [f];
    }
  }

  lemma LastSays(front: seq<Field>, f: Field, n: nat, m: nat)
    requires SaysNumber(f, m) && (SaysNumber(f, n) ==> n == m)
    ensures LastNumber(front + [f], n) <==> n == m
  {
    hide SaysNumber;
    var fields := front + [f];
    assert fields[|front|] == f;
  }

  lemma LastDoesNotSay(front: seq<Field>, f: Field, n: nat)
    requires forall m: nat :: !SaysNumber(f, m)
    ensures LastNumber(front + [f], n) <==> LastNumber(front, n)
  {
    hide SaysNumber;
    var fields := front + [f];
    assert fields[|front|] == f && forall k :: 0 <= k < |front| ==> fields[k] == front[k];
    if LastNumber(fields, n) {
      var k :| 0 <= k < |fields| && SaysNumber(fields[k], n) && forall j, m: nat :: k < j < |fields| ==> !SaysNumber(fields[j], m);
      assert k < |front| && SaysNumber(front[k], n);
    }
    if LastNumber(front, n) {
      var k :| 0 <= k < |front| && SaysNumber(front[k], n) && forall j, m: nat :: k < j < |front| ==> !SaysNumber(front[j], m);
      assert SaysNumber(fields[k], n);
    }
  }

  lemma PositiveIs(fields: seq<Field>)
    ensures Positive(fields) <==> Announced(fields) != 0
  {
    hide LastNumber, Announced;
    if Announced(fields) != 0 { AnnouncedIs(fields, Announced(fields)); }
    if n: nat :| n > 0 && LastNumber(fields, n) { AnnouncedIs(fields, n); }
  }

  // The completed head is the user's, the fields that were missing behind it; it announces the final length.
  lemma CompletedAnnounces(fields: seq<Field>, keepAlive: bool, isString: bool, hasBody: bool, size: nat)
    requires size < TWO_TO_THE_64
    ensures var done := Completed(fields, keepAlive, isString, hasBody, size);
      && fields <= done && Adds(fields, done[|fields|..], keepAlive, isString, hasBody, size)
      && Announced(done) == FinalLength(fields, size) && LastNumber(done, FinalLength(fields, size))
      && Has(done, IsConnection)
      && (hasBody ==> Has(done, IsContentType))
  {
    hide Typed, Connected, Measured, Has, Adds, LastNumber;
    TypedAnnounces(fields, isString, hasBody);
    ConnectedAnnounces(Typed(fields, isString, hasBody), keepAlive);
    MeasuredAnnounces(Connected(Typed(fields, isString, hasBody), keepAlive), size);
    MeasuredSays(Connected(Typed(fields, isString, hasBody), keepAlive), size);
    CompletedAdds(fields, keepAlive, isString, hasBody, size);
  }

  lemma CompletedLength(fields: seq<Field>, keepAlive: bool, isString: bool, hasBody: bool, size: nat)
    requires size < TWO_TO_THE_64
    ensures Announced(Completed(fields, keepAlive, isString, hasBody, size)) == FinalLength(fields, size)
  {
    hide Adds, LastNumber, Has;
    CompletedAnnounces(fields, keepAlive, isString, hasBody, size);
  }

  lemma MeasuredSays(fields: seq<Field>, size: nat)
    requires size < TWO_TO_THE_64
    ensures LastNumber(Measured(fields, size), FinalLength(fields, size))
  {
    hide FromChars, ToChars, LastNumber, SaysNumber;
    if Announced(fields) != 0 {
      AnnouncedIs(fields, Announced(fields));
    } else {
      var cl := Field(CONTENT_LENGTH, ToChars(size));
      DecimalRoundTrip(size, []);
      assert ToChars(size) + [] == ToChars(size);
      NamesDiffer();
      OneNumber(cl, size);
      LastSays(fields, cl, size, size);
    }
  }

  lemma CompletedAdds(fields: seq<Field>, keepAlive: bool, isString: bool, hasBody: bool, size: nat)
    ensures var done := Completed(fields, keepAlive, isString, hasBody, size);
      fields <= done && Adds(fields, done[|fields|..], keepAlive, isString, hasBody, size)
  {
    hide *;
    var typed := Typed(fields, isString, hasBody);
    var connected := Connected(typed, keepAlive);
    var done := Measured(connected, size);
    PartsAdded(fields, keepAlive, isString, hasBody, size);
    Chain(fields, typed, connected, done);
    AddsParts(fields, typed[|fields|..], connected[|typed|..], done[|connected|..], keepAlive, isString, hasBody, size);
  }

  lemma Chain(a: seq<Field>, b: seq<Field>, c: seq<Field>, d: seq<Field>)
    requires a <= b <= c <= d
    ensures a <= d && d[|a|..] == b[|a|..] + c[|b|..] + d[|c|..]
  {}

  lemma PartsAdded(fields: seq<Field>, keepAlive: bool, isString: bool, hasBody: bool, size: nat)
    ensures var typed := Typed(fields, isString, hasBody);
      var connected := Connected(typed, keepAlive);
      var done := Measured(connected, size);
      && fields <= typed <= connected <= done && done == Completed(fields, keepAlive, isString, hasBody, size)
      && MissingType(fields, isString, hasBody, typed[|fields|..])
      && MissingConnection(fields, keepAlive, connected[|typed|..])
      && MissingLength(fields, size, done[|connected|..])
  {
    hide Has, Announced, NoneNamed, Positive, ToChars, IsNumeral;
    TypedAnnounces(fields, isString, hasBody);
    ConnectedAnnounces(Typed(fields, isString, hasBody), keepAlive);
    NoneIsNotHas(fields);
    PositiveIs(fields);
    Prints(size);
  }

  lemma AddsParts(fields: seq<Field>, t: seq<Field>, c: seq<Field>, l: seq<Field>,
                  keepAlive: bool, isString: bool, hasBody: bool, size: nat)
    requires MissingType(fields, isString, hasBody, t) && MissingConnection(fields, keepAlive, c) && MissingLength(fields, size, l)
    ensures Adds(fields, t + c + l, keepAlive, isString, hasBody, size)
  {
    hide MissingType, MissingConnection, MissingLength;
  }

  // Field names ignore case, although the code knows only two spellings.
  function Lowered(name: seq<byte>): (r: seq<byte>)
    ensures |r| == |name|
  {
    seq(|name|, k requires 0 <= k < |name| => if 65 <= name[k] <= 90 then name[k] + 32 else name[k])
  }

  predicate IsLength(name: seq<byte>) {
    Lowered(name) == CONTENT_LENGTH_LOWER
  }

  lemma LengthNames(name: seq<byte>)
    ensures IsContentLength(name) ==> IsLength(name)
    ensures !IsLength(CONTENT_TYPE) && !IsLength(CONNECTION) && IsLength(CONTENT_LENGTH)
  {
    assert Lowered(CONTENT_LENGTH) == CONTENT_LENGTH_LOWER == Lowered(CONTENT_LENGTH_LOWER);
    assert |CONTENT_LENGTH_LOWER| == 14 && |CONTENT_TYPE| == 12 && |CONNECTION| == 10;
  }

  // How many fields announce a length, in whatever spelling.
  function Lengths(fields: seq<Field>): nat {
    if fields == [] then 0
    else Lengths(fields[..|fields| - 1]) + (if IsLength(fields[|fields| - 1].name) then 1 else 0)
  }

  lemma LengthsAppend(fields: seq<Field>, f: Field)
    ensures Lengths(fields + [f]) == Lengths(fields) + (if IsLength(f.name) then 1 else 0)
  {
    assert (fields + [f])[..|fields|] == fields;
  }

  lemma {:induction false} NoLength(fields: seq<Field>)
    requires Lengths(fields) == 0
    ensures Announced(fields) == 0 && forall f :: f in fields ==> !IsLength(f.name)
  {
    hide IsLength, IsContentLength, FromChars;
    if fields != [] {
      var n := |fields| - 1;
      NoLength(fields[..n]);
      LengthNames(fields[n].name);
    }
  }

  // If there is one, and the code has understood a positive length, that field says it.
  lemma {:induction false} OnlyLength(fields: seq<Field>)
    requires Lengths(fields) == 1 && Announced(fields) != 0
    ensures forall f :: f in fields && IsLength(f.name) ==> FromChars(f.value) == Some(Announced(fields))
  {
    hide IsLength, IsContentLength, FromChars;
    var n := |fields| - 1;
    LengthNames(fields[n].name);
    if IsLength(fields[n].name) { NoLength(fields[..n]); } else { OnlyLength(fields[..n]); }
  }

  // Completing adds a length unless the code has understood a positive one. So the head that goes out
  // has exactly one, in whatever spelling, if, and only if, the user set none, or one that the code
  // understood as positive; and that one says the size of the body that goes out.
  lemma {:induction false} LengthsPrinted(fields: seq<Field>, keepAlive: bool, isString: bool, hasBody: bool, size: nat)
    requires size < TWO_TO_THE_64
    ensures var done := Completed(fields, keepAlive, isString, hasBody, size);
      && Lengths(done) == Lengths(fields) + (if Announced(fields) == 0 then 1 else 0)
      && (Lengths(done) == 1 <==> Lengths(fields) == 0 || (Lengths(fields) == 1 && Announced(fields) != 0))
      && (Lengths(done) == 1 ==>
            forall f :: f in done && IsLength(f.name) ==> FromChars(f.value) == Some(FinalLength(fields, size)))
  {
    hide ToChars, FromChars, IsContentLength, IsLength, Typed, Connected;
    var connected := Connected(Typed(fields, isString, hasBody), keepAlive);
    OthersAreNoLengths(fields, keepAlive, isString, hasBody);
    LengthNames([]);
    LengthsAppend(connected, Field(CONTENT_LENGTH, ToChars(size)));
    if Lengths(fields) == 0 { NoLength(fields); }
    if Lengths(Measured(connected, size)) == 1 { LengthSaid(connected, size); }
  }

  // The other fields added are no lengths.
  lemma OthersAreNoLengths(fields: seq<Field>, keepAlive: bool, isString: bool, hasBody: bool)
    ensures var connected := Connected(Typed(fields, isString, hasBody), keepAlive);
      Lengths(connected) == Lengths(fields) && Announced(connected) == Announced(fields) && fields <= connected
  {
    hide IsContentLength, IsLength, Has, Announced;
    LengthNames([]);
    var typed := Typed(fields, isString, hasBody);
    LengthsAppend(fields, Field(CONTENT_TYPE, if isString then TEXT_PLAIN else OCTET_STREAM));
    TypedAnnounces(fields, isString, hasBody);
    LengthsAppend(typed, Field(CONNECTION, if keepAlive then KEEP_ALIVE else CLOSE));
    ConnectedAnnounces(typed, keepAlive);
  }

  lemma LengthSaid(fields: seq<Field>, size: nat)
    requires size < TWO_TO_THE_64 && Lengths(Measured(fields, size)) == 1
    ensures forall f :: f in Measured(fields, size) && IsLength(f.name) ==> FromChars(f.value) == Some(FinalLength(fields, size))
  {
    hide ToChars, FromChars, IsContentLength, IsLength;
    if Announced(fields) != 0 {
      OnlyLength(fields);
    } else {
      LengthNames([]);
      LengthsAppend(fields, Field(CONTENT_LENGTH, ToChars(size)));
      NoLength(fields);
      DecimalRoundTrip(size, []);
      assert ToChars(size) + [] == ToChars(size);
    }
  }

  // A user who sets one length that the code does not understand as positive, and a body, sends two.
  lemma TwoLengths(f: Field, keepAlive: bool, isString: bool, size: nat)
    requires IsLength(f.name) && Announced([f]) == 0
    ensures var done := Completed([f], keepAlive, isString, size > 0, size);
      Lengths(done) == 2 && f in done && Field(CONTENT_LENGTH, ToChars(size)) in done
  {
    hide ToChars, FromChars, IsContentLength, IsLength, Typed, Connected;
    assert [] + [f] == [f] && Lengths([]) == 0;
    LengthsAppend([], f);
    var connected := Connected(Typed([f], isString, size > 0), keepAlive);
    OthersAreNoLengths([f], keepAlive, isString, size > 0);
    assert [f][0] == f && connected[0] == f;
    LengthNames([]);
    LengthsAppend(connected, Field(CONTENT_LENGTH, ToChars(size)));
  }

  const CONTENT_LENGTH_UPPER := Ascii("CONTENT-LENGTH")

  // Two ways to do so: a length of 0 beside a body, and a spelling the code does not know.
  lemma ConflictingLengths(keepAlive: bool, isString: bool, size: nat)
    requires size > 0
    ensures var zero := Field(CONTENT_LENGTH, ToChars(0));
      var done := Completed([zero], keepAlive, isString, true, size);
      Lengths(done) == 2 && zero in done && Field(CONTENT_LENGTH, ToChars(size)) in done && ToChars(0) != ToChars(size)
  {
    var zero := Field(CONTENT_LENGTH, ToChars(0));
    DecimalRoundTrip(0, []);
    assert ToChars(0) + [] == ToChars(0);
    ValueOfToChars(0);
    ValueOfToChars(size);
    hide ToChars, FromChars, IsLength;
    LengthNames([]);
    NamesDiffer();
    AnnouncedAlone(zero);
    TwoLengths(zero, keepAlive, isString, size);
  }

  lemma {:induction false} UnknownSpelling(keepAlive: bool, isString: bool, said: nat, size: nat)
    requires size > 0 && said != size
    ensures var user := Field(CONTENT_LENGTH_UPPER, ToChars(said));
      var done := Completed([user], keepAlive, isString, true, size);
      Lengths(done) == 2 && user in done && Field(CONTENT_LENGTH, ToChars(size)) in done && ToChars(said) != ToChars(size)
  {
    var user := Field(CONTENT_LENGTH_UPPER, ToChars(said));
    assert Lowered(CONTENT_LENGTH_UPPER) == CONTENT_LENGTH_LOWER;
    assert CONTENT_LENGTH_UPPER[1] == 79 && CONTENT_LENGTH[1] == 111 && CONTENT_LENGTH_LOWER[1] == 111;
    ValueOfToChars(said);
    ValueOfToChars(size);
    hide ToChars, FromChars;
    AnnouncedAlone(user);
    TwoLengths(user, keepAlive, isString, size);
  }

  lemma AnnouncedAlone(f: Field)
    ensures Announced([f]) == if IsContentLength(f.name) then FromChars(f.value).GetOr(0) else 0
  {
    assert [f][..0] == [] && Announced([]) == 0;
  }

  lemma PrintedStart(version: seq<byte>, status: seq<byte>, reason: seq<byte>)
    ensures [] + StatusLine(version, status, reason) == Printed(Head(version, status, reason, []))
    ensures Announced([]) == 0 && !Has([], IsContentType) && !Has([], IsConnection)
  {
    assert FieldLines([]) == [];
  }

  lemma NamesDiffer()
    ensures !IsContentLength(CONTENT_TYPE) && !IsContentLength(CONNECTION)
    ensures IsContentType(CONTENT_TYPE) && IsConnection(CONNECTION) && IsContentLength(CONTENT_LENGTH)
    ensures !IsConnection(CONTENT_TYPE) && !IsContentType(CONNECTION)
    ensures !IsConnection(CONTENT_LENGTH) && !IsContentType(CONTENT_LENGTH)
  {
    assert |CONTENT_TYPE| == 12 && |CONNECTION| == 10 && |CONTENT_LENGTH| == 14;
  }

  class Response {
    var headerBuffer: array<byte>
    var headerBufferIdx: nat
    var headerSize: nat
    var defaultKeepAlive: bool
    var contentLength: nat
    var hasContentType: bool
    var hasConnection: bool
    var serialized: bool
    var stringBody: seq<byte>
    var body: seq<byte>
    var bodyIdx: nat
    var isBodyString: bool

    ghost var head: Head   // what has been printed
    ghost var copied: nat  // octets copied by all regrowths of the buffer

    // The buffer holds what was written, and regrowing it has cost at most twice its size.
    predicate Buffered()
      reads this
    {
      headerBufferIdx <= headerBuffer.Length
    }

    ghost predicate Amortized()
      reads this
    {
      copied <= 2 * headerBuffer.Length
    }

    function Written(): seq<byte>
      requires Buffered()
      reads this, headerBuffer
    {
      headerBuffer[..headerBufferIdx]
    }

    // Room for `num` more octets; nothing written is lost.
    method Alloc(num: nat)
      requires Buffered() && Amortized()
      modifies this`headerBuffer, this`copied
      ensures Buffered() && Amortized()
      ensures headerBufferIdx + num <= headerBuffer.Length
      ensures Written() == old(Written())
      ensures headerBuffer == old(headerBuffer) || fresh(headerBuffer)
      ensures headerBuffer.Length >= old(headerBuffer.Length)
    {
      if headerBuffer.Length <= headerBufferIdx + num {
        var half := headerBuffer.Length / 2;
        var newSize := if headerBuffer.Length + half + 1 >= headerBufferIdx + num
                       then headerBuffer.Length + half + 1 else headerBufferIdx + num;
        var capacity: nat :| newSize <= capacity;
        var newBuf := new byte[capacity];
        Write(newBuf, 0, headerBuffer[..headerBufferIdx]);
        copied := copied + headerBufferIdx;
        headerBuffer := newBuf;
      }
    }

    method Append(data: seq<byte>)
      requires headerBufferIdx + |data| <= headerBuffer.Length
      modifies this`headerBufferIdx, headerBuffer
      ensures Buffered() && headerBufferIdx == old(headerBufferIdx) + |data|
      ensures Written() == old(headerBuffer[..headerBufferIdx]) + data
    {
      Write(headerBuffer, headerBufferIdx, data);
      headerBufferIdx := headerBufferIdx + |data|;
    }

    method AppendStatusLine(status: seq<byte>, reason: seq<byte>, version: seq<byte>)
      requires headerBufferIdx + 9 + |version| + |status| + |reason| <= headerBuffer.Length
      modifies this`headerBufferIdx, headerBuffer
      ensures Buffered() && Written() == old(headerBuffer[..headerBufferIdx]) + StatusLine(version, status, reason)
    {
      hide StatusLine;
      ghost var written := headerBuffer[..headerBufferIdx];
      var first: seq<byte> := [72, 84, 84, 80, 47];
      AppendThree(first, version, [SP]);
      AppendThree(status, [SP], reason);
      Append(CRLF);
      StatusLineJoins(written, version, status, reason);
    }

    method AppendThree(a: seq<byte>, b: seq<byte>, c: seq<byte>)
      requires headerBufferIdx + |a| + |b| + |c| <= headerBuffer.Length
      modifies this`headerBufferIdx, headerBuffer
      ensures Buffered() && headerBufferIdx == old(headerBufferIdx) + |a| + |b| + |c|
      ensures Written() == old(headerBuffer[..headerBufferIdx]) + a + b + c
    {
      Append(a);
      Append(b);
      Append(c);
    }

    method AppendField(name: seq<byte>, value: seq<byte>)
      requires headerBufferIdx + |name| + 2 + |value| + 2 <= headerBuffer.Length
      modifies this`headerBufferIdx, headerBuffer
      ensures Buffered() && Written() == old(headerBuffer[..headerBufferIdx]) + FieldLine(Field(name, value))
    {
      ghost var written := headerBuffer[..headerBufferIdx];
      Append(name);
      Append([COLON, SP]);
      Append(value);
      Append(CRLF);
      assert Written() == written + FieldLine(Field(name, value));
    }

    // ---------- the two lives of a response ----------

    function Data(): seq<byte>
      reads this
    {
      if isBodyString then stringBody else body
    }

    // Being put together: nothing has been handed out yet.
    ghost predicate Building()
      reads this, headerBuffer
    {
      && Buffered() && Amortized() && !serialized && Written() == Printed(head) && bodyIdx == 0
      && hasContentType == Has(head.fields, IsContentType)
      && hasConnection == Has(head.fields, IsConnection)
      && contentLength == Announced(head.fields)
      && defaultKeepAlive == (head.version != VERSION_1_0)
      && |stringBody| < TWO_TO_THE_64 && |body| < TWO_TO_THE_64
    }

    // Being sent: the head is complete and the cursors say how far.
    ghost predicate Sending()
      reads this, headerBuffer
    {
      && serialized && headerSize <= headerBuffer.Length && headerBufferIdx <= headerSize
      && headerBuffer[..headerSize] == Printed(head) + CRLF
      && contentLength == Announced(head.fields)
      && bodyIdx <= |Payload()|
    }

    ghost predicate Ready()
      reads this, headerBuffer
    {
      if serialized then Sending() else Building()
    }

    function Payload(): seq<byte>
      reads this
    {
      Resized(Data(), if contentLength > 0 then contentLength else |Data()|)
    }

    ghost function CompletedHead(): Head
      reads this
    {
      head.(fields := Completed(head.fields, defaultKeepAlive, isBodyString, |body| + |stringBody| > 0, |Data()|))
    }

    // What is still to be sent, and from where.
    ghost function Out(): Outgoing
      reads this, headerBuffer
      requires Ready()
      ensures Out().Valid()
    {
      if serialized then Outgoing(headerBuffer[..headerSize], headerBufferIdx, Payload(), bodyIdx)
      else Outgoing(Printed(CompletedHead()) + CRLF, 0, Resized(Data(), FinalLength(head.fields, |Data()|)), 0)
    }

    // ---------- construction ----------

    constructor (status: seq<byte>, reason: seq<byte>, version: seq<byte>, span: array<byte>)
      modifies span
      ensures Building() && head == Head(version, status, reason, []) && Data() == []
      ensures headerBuffer == span || fresh(headerBuffer)
    {
      headerBuffer := span;
      headerBufferIdx, headerSize := 0, 0;
      defaultKeepAlive := version != VERSION_1_0;
      contentLength, hasContentType, hasConnection := 0, false, false;
      serialized, stringBody, body, bodyIdx := false, [], [], 0;
      head, copied := Head(version, status, reason, []), 0;
      new;
      hide StatusLine, Announced, Has, FieldLines;
      Alloc(5 + |version| + 1 + |status| + 1 + |reason| + 2);
      AppendStatusLine(status, reason, version);
      PrintedStart(version, status, reason);
    }

    // Prints one more field. Values are taken not to lie inside the header buffer.
    method Set(field: seq<byte>, value: seq<byte>)
      requires Buffered() && Amortized()
      modifies this`headerBuffer, this`headerBufferIdx, this`hasContentType, this`hasConnection, this`contentLength,
               this`head, this`copied, headerBuffer
      ensures Buffered() && Amortized()
      ensures Written() == old(Written()) + FieldLine(Field(field, value))
      ensures head == old(head.(fields := head.fields + [Field(field, value)]))
      ensures old(Building()) ==> Building()
      ensures headerBuffer == old(headerBuffer) || fresh(headerBuffer)
    {
      hide Announced, Has, Printed, FieldLine, IsContentType, IsConnection, IsContentLength;
      if IsContentType(field) {
        hasContentType := true;
      } else if IsConnection(field) {
        hasConnection := true;
      } else if IsContentLength(field) {
        contentLength := FromChars(value).GetOr(contentLength);
      }
      Alloc(|field| + 2 + |value| + 2);
      AppendField(field, value);
      ghost var f := Field(field, value);
      FlagsAfter(head, f);
      head := head.(fields := head.fields + [f]);
    }

    method SetBody(data: seq<byte>, asString: bool)
      requires |data| < TWO_TO_THE_64
      modifies this`stringBody, this`body, this`isBodyString
      ensures Data() == data && isBodyString == asString && |body| + |stringBody| == |data|
      ensures old(Building()) ==> Building()
    {
      if asString {
        body := [];
        stringBody := data;
      } else {
        stringBody := [];
        body := data;
      }
      isBodyString := asString;
    }

    // ---------- sending ----------

    method SetMissingType()
      requires Building()
      modifies this`headerBuffer, this`headerBufferIdx, this`hasContentType, this`hasConnection, this`contentLength,
               this`head, this`copied, headerBuffer
      ensures Building() && (headerBuffer == old(headerBuffer) || fresh(headerBuffer))
      ensures head == old(head.(fields := Typed(head.fields, isBodyString, |body| + |stringBody| > 0)))
    {
      hide Building, Has, FieldLine;
      TypeFlag();
      if !hasContentType && |body| + |stringBody| > 0 {
        Set(CONTENT_TYPE, if isBodyString then TEXT_PLAIN else OCTET_STREAM);
      }
    }

    method SetMissingConnection()
      requires Building()
      modifies this`headerBuffer, this`headerBufferIdx, this`hasContentType, this`hasConnection, this`contentLength,
               this`head, this`copied, headerBuffer
      ensures Building() && (headerBuffer == old(headerBuffer) || fresh(headerBuffer))
      ensures head == old(head.(fields := Connected(head.fields, defaultKeepAlive)))
    {
      hide Building, Has, FieldLine;
      TypeFlag();
      if !hasConnection {
        Set(CONNECTION, if defaultKeepAlive then KEEP_ALIVE else CLOSE);
      }
    }

    method SetMissingLength()
      requires Building()
      modifies this`headerBuffer, this`headerBufferIdx, this`hasContentType, this`hasConnection, this`contentLength,
               this`head, this`copied, headerBuffer
      ensures Building() && (headerBuffer == old(headerBuffer) || fresh(headerBuffer))
      ensures head == old(head.(fields := Measured(head.fields, |Data()|)))
    {
      hide Building, Announced, FieldLine, ToChars;
      TypeFlag();
      if contentLength == 0 {
        var buf := ToChars(|Data()|);
        Set(CONTENT_LENGTH, buf);
      }
    }

    // The flags of a response being built say what its fields say.
    lemma TypeFlag()
      requires Building()
      ensures Buffered() && Amortized() && |Data()| < TWO_TO_THE_64
      ensures hasContentType == Has(head.fields, IsContentType)
      ensures hasConnection == Has(head.fields, IsConnection)
      ensures contentLength == Announced(head.fields)
    {}

    // Completes the head: the fields the user did not set, then the blank line.
    method Serialize()
      requires Building()
      modifies this`headerBuffer, this`headerBufferIdx, this`hasContentType, this`hasConnection, this`contentLength,
               this`head, this`copied, this`serialized, headerBuffer
      ensures Buffered() && Amortized() && serialized
      ensures head == old(CompletedHead()) && Written() == Printed(head) + CRLF
      ensures contentLength == Announced(head.fields) == old(FinalLength(head.fields, |Data()|))
      ensures old(head.fields) <= head.fields
      ensures Adds(old(head.fields), head.fields[|old(head.fields)|..], old(head.version) != Ascii("1.0"), old(isBodyString),
                   old(|body| + |stringBody| > 0), old(|Data()|))
      ensures headerBuffer == old(headerBuffer) || fresh(headerBuffer)
    {
      hide Typed, Connected, Measured, Announced, Has, Printed, Adds;
      CompletedAdds(head.fields, defaultKeepAlive, isBodyString, |body| + |stringBody| > 0, |Data()|);
      CompletedLength(head.fields, defaultKeepAlive, isBodyString, |body| + |stringBody| > 0, |Data()|);
      SetMissingType();
      SetMissingConnection();
      SetMissingLength();
      serialized := true;
      Alloc(2);
      Append(CRLF);
    }

    // The first request for octets completes the head.
    method StartSending()
      requires Building()
      modifies this`headerBuffer, this`headerBufferIdx, this`headerSize, this`hasContentType, this`hasConnection,
               this`contentLength, this`head, this`copied, this`serialized, headerBuffer
      ensures Sending() && Out() == old(Out())
      ensures head == old(CompletedHead()) && Amortized()
      ensures headerBuffer == old(headerBuffer) || fresh(headerBuffer)
    {
      hide Announced, Has, Printed, Completed, CRLF, Adds, CompletedHead, Resized;
      Serialize();
      headerSize := headerBufferIdx;
      headerBufferIdx := 0;
      assert headerBuffer[..headerSize] == Printed(head) + CRLF;
    }

    method ProduceHeaderSome(space: nat) returns (reply: Reply, bytes: seq<byte>)
      requires Ready()
      modifies this`headerBuffer, this`headerBufferIdx, this`headerSize, this`hasContentType, this`hasConnection,
               this`contentLength, this`head, this`copied, this`serialized, headerBuffer
      ensures Sending()
      ensures Produced(Out(), reply, bytes) == ProduceHeader(old(Out()), space)
      ensures head == if old(serialized) then old(head) else old(CompletedHead())
      ensures headerBuffer == old(headerBuffer) || fresh(headerBuffer)
    {
      hide Announced, Printed, Resized, Building, CompletedHead;
      if !serialized { StartSending(); }
      ghost var out := Out();
      var remaining := headerSize - headerBufferIdx;
      var numCopy := Min(space, remaining);
      bytes := headerBuffer[headerBufferIdx..headerBufferIdx + numCopy];
      assert bytes == headerBuffer[..headerSize][headerBufferIdx..headerBufferIdx + numCopy];
      headerBufferIdx := headerBufferIdx + numCopy;
      var finished := headerBufferIdx >= headerSize;
      if finished { headerBufferIdx := 0; }
      reply := Reply(None, finished, numCopy);
    }

    // The body is cut or padded to the announced length.
    method FitBody()
      requires Sending()
      modifies this`stringBody, this`body
      ensures Sending() && Out() == old(Out()) && Data() == Payload() == old(Payload())
    {
      hide Announced, Printed, Building, CompletedHead, FinalLength;
      if isBodyString {
        if contentLength > 0 && contentLength != |stringBody| { stringBody := Resized(stringBody, contentLength); }
      } else {
        if contentLength > 0 && contentLength != |body| { body := Resized(body, contentLength); }
      }
      assert Data() == old(Payload()) && Payload() == Data();
    }

    method ProduceBodySome(space: nat) returns (reply: Reply, bytes: seq<byte>)
      requires Sending()
      modifies this`stringBody, this`body, this`bodyIdx
      ensures Sending()
      ensures Produced(Out(), reply, bytes) == ProduceBody(old(Out()), space)
    {
      hide Announced, Printed, Building, CompletedHead, FinalLength, Resized;
      FitBody();
      var data := Data();
      if |data| == 0 { return Reply(None, true, 0), []; }
      var remaining := |data| - bodyIdx;
      var numCopy := Min(space, remaining);
      bytes := data[bodyIdx..bodyIdx + numCopy];
      bodyIdx := bodyIdx + numCopy;
      var finished := bodyIdx >= |data|;
      if finished { bodyIdx := 0; }
      reply := Reply(None, finished, numCopy);
    }
  }

  lemma StatusLineJoins(written: seq<byte>, version: seq<byte>, status: seq<byte>, reason: seq<byte>)
    ensures written + [72, 84, 84, 80, 47] + version + [SP] + status + [SP] + reason + CRLF
      == written + StatusLine(version, status, reason)
  {}

  // How one more field shows in the flags.
  lemma FlagsAfter(h: Head, f: Field)
    ensures Printed(h.(fields := h.fields + [f])) == Printed(h) + FieldLine(f)
    ensures Has(h.fields + [f], IsContentType) == (Has(h.fields, IsContentType) || IsContentType(f.name))
    ensures Has(h.fields + [f], IsConnection) == (Has(h.fields, IsConnection) || IsConnection(f.name))
    ensures Announced(h.fields + [f])
      == if IsContentLength(f.name) then FromChars(f.value).GetOr(Announced(h.fields)) else Announced(h.fields)
    ensures !(IsContentType(f.name) && IsConnection(f.name))
    ensures !(IsContentType(f.name) && IsContentLength(f.name)) && !(IsConnection(f.name) && IsContentLength(f.name))
  {
    PrintedAppend(h, f);
    HasAppend(h.fields, f, IsContentType);
    HasAppend(h.fields, f, IsConnection);
  }

  // ---------- what goes out ----------

  predicate IsToken(text: string) {
    text != [] && forall k :: 0 <= k < |text| ==> 'a' <= text[k] <= 'z' || 'A' <= text[k] <= 'Z' || text[k] == '-'
  }

  predicate IsPlain(text: string) {
    forall k :: 0 <= k < |text| ==> ' ' <= text[k] <= '~'
  }

  lemma AsciiField(name: string, value: string)
    requires IsToken(name) && IsPlain(value)
    ensures ValidField(Field(Ascii(name), Ascii(value)))
  {
    assert T.TOKEN_MARKS[8] == 45;
  }

  lemma AddedFieldsAreValid(size: nat)
    ensures ValidField(Field(CONTENT_TYPE, TEXT_PLAIN)) && ValidField(Field(CONTENT_TYPE, OCTET_STREAM))
    ensures ValidField(Field(CONNECTION, KEEP_ALIVE)) && ValidField(Field(CONNECTION, CLOSE))
    ensures ValidField(Field(CONTENT_LENGTH, ToChars(size)))
  {
    AsciiField("Content-Type", "text/plain");
    AsciiField("Content-Type", "application/octet-stream");
    AsciiField("Connection", "keep-alive");
    AsciiField("Connection", "close");
    AsciiField("Content-Length", "");
  }

  lemma {:induction false} CompletedIsValid(h: Head, keepAlive: bool, isString: bool, hasBody: bool, size: nat)
    requires ValidHead(h)
    ensures ValidHead(h.(fields := Completed(h.fields, keepAlive, isString, hasBody, size)))
  {
    hide ValidField, ToChars, Has, Announced;
    AddedFieldsAreValid(size);
  }

  lemma BodySent(fields: seq<Field>, data: seq<byte>)
    requires |data| < TWO_TO_THE_64
    ensures Sends(fields, data, Resized(data, FinalLength(fields, |data|)))
  {
    hide LastNumber, Announced;
    PositiveIs(fields);
    forall n: nat | n > 0 && LastNumber(fields, n) ensures Announced(fields) == n { AnnouncedIs(fields, n); }
  }

  // The head that goes out parses back to the user's fields, in order, followed by what was missing; the body
  // that goes out has the length that the last number among its Content-Length fields says. When the head names
  // exactly one length, in whatever spelling, it is that one.
  ghost predicate GoesOut(user: Head, isString: bool, hasBody: bool, data: seq<byte>,
                          h: Head, header: seq<byte>, body: seq<byte>, max: nat) {
    && h == user.(fields := h.fields) && user.fields <= h.fields
    && Adds(user.fields, h.fields[|user.fields|..], user.version != Ascii("1.0"), isString, hasBody, |data|)
    && ReadsBack(header, h, |header|, max)
    && LastNumber(h.fields, |body|) && Sends(user.fields, data, body)
    && (Lengths(h.fields) == 1 <==> Lengths(user.fields) == 0 || (Lengths(user.fields) == 1 && Announced(user.fields) != 0))
    && (Lengths(h.fields) == 1 ==> forall f :: f in h.fields && IsLength(f.name) ==> FromChars(f.value) == Some(|body|))
  }

  // Whatever was set.
  lemma {:induction false} WhatGoesOut(r: Response, max: nat)
    requires r.Building() && ValidHead(r.head) && |r.CompletedHead().fields| <= max
    ensures GoesOut(r.head, r.isBodyString, |r.body| + |r.stringBody| > 0, r.Data(),
                    r.CompletedHead(), r.Out().header, r.Out().body, max)
  {
    hide Printed, Announced, ReadsBack, ValidHead, Completed, Lengths, IsLength, FromChars, Adds, LastNumber, Sends;
    var h := r.CompletedHead();
    CompletedIsValid(r.head, r.defaultKeepAlive, r.isBodyString, |r.body| + |r.stringBody| > 0, |r.Data()|);
    r.TypeFlag();
    CompletedAnnounces(r.head.fields, r.defaultKeepAlive, r.isBodyString, |r.body| + |r.stringBody| > 0, |r.Data()|);
    LengthsPrinted(r.head.fields, r.defaultKeepAlive, r.isBodyString, |r.body| + |r.stringBody| > 0, |r.Data()|);
    BodySent(r.head.fields, r.Data());
    ResponseRoundTrip(h, [], max);
    assert Printed(h) + CRLF + [] == Printed(h) + CRLF;
  }
}
