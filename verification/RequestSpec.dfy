/**
 A request as it is received: what one call does with a span of octets, and what any sequence of calls
 comes to.
 */
module RequestSpec {
  import opened Bytes
  import opened Messages
  import opened Decimal
  import opened Paths
  import opened HeadSpec
  import opened HeadStability
  import opened HeadEnd
  import opened ConnectionSpec

  const MAX_HEADERS := 32
  const MAX_BODY_SIZE := 1024 * 1024
  const QUESTION: byte := 63

  // ---------- the scan for the blank line ----------

  function ScanCount(count: nat, last: byte, c: byte): nat {
    if c == CR && last != CR then (count + 1) % 256
    else if c == LF && last == CR then (count + 1) % 256
    else 0
  }

  // The octet before position `n`; the scan starts as if after a zero.
  function Before(s: seq<byte>, n: nat): byte
    requires n <= |s|
  {
    if n == 0 then 0 else s[n - 1]
  }

  // The counter after the first `n` octets. It is one octet wide, so it wraps.
  function Scanned(s: seq<byte>, n: nat): (r: nat)
    requires n <= |s|
    ensures r < 256
  {
    if n == 0 then 0 else ScanCount(Scanned(s, n - 1), Before(s, n - 1), s[n - 1])
  }

  // How long the alternation of CR and LF before position `n` really is.
  function Alternation(s: seq<byte>, n: nat): (r: nat)
    requires n <= |s|
    ensures r <= n
  {
    if n == 0 then 0
    else if (s[n - 1] == CR && Before(s, n - 1) != CR) || (s[n - 1] == LF && Before(s, n - 1) == CR) then
      Alternation(s, n - 1) + 1
    else 0
  }

  // The counter is its last eight bits.
  lemma {:induction false} AlternationCounts(s: seq<byte>, n: nat)
    requires n <= |s|
    ensures Alternation(s, n) % 256 == Scanned(s, n)
  {
    if n > 0 {
      AlternationCounts(s, n - 1);
      OneMoreWraps(Alternation(s, n - 1));
    }
  }

  lemma OneMoreWraps(a: nat)
    ensures (a + 1) % 256 == (a % 256 + 1) % 256
  {}

  predicate PartAt(text: seq<byte>, k: nat, part: seq<byte>) {
    k + |part| <= |text| && text[k..k + |part|] == part
  }

  predicate Contains(text: seq<byte>, part: seq<byte>) {
    exists k :: 0 <= k <= |text| && PartAt(text, k, part)
  }

  predicate HasBlankLine(s: seq<byte>) {
    Contains(s, BLANK_LINE)
  }

  lemma BlankLineAt(s: seq<byte>, p: nat)
    requires p + 4 <= |s| && s[p] == CR && s[p + 1] == LF && s[p + 2] == CR && s[p + 3] == LF
    ensures HasBlankLine(s)
  {
    assert s[p..p + 4] == BLANK_LINE;
    assert PartAt(s, p, BLANK_LINE);
  }

  // Whenever the counter shows 4, a blank line has gone by: it ends here, or, when the alternation
  // began with the LF of a CR that followed another CR, one octet before.
  lemma CountedFour(s: seq<byte>, n: nat)
    requires n <= |s| && Scanned(s, n) == 4
    ensures HasBlankLine(s[..n])
  {
    AlternationCounts(s, n);
    assert Alternation(s, n) >= 4 && Alternation(s, n - 1) >= 3 && Alternation(s, n - 2) >= 2 && Alternation(s, n - 3) >= 1;
    if s[n - 1] == LF { BlankLineAt(s[..n], n - 4); } else { BlankLineAt(s[..n], n - 5); }
  }

  // Conversely the counter shows 4 behind a blank line unless a CR stands in front of it, or the
  // alternation that leads there began earlier.
  lemma FourAfterBlankLine(s: seq<byte>)
    requires |s| >= 4 && s[|s| - 4..] == BLANK_LINE && Scanned(s, |s| - 4) == 0 && Before(s, |s| - 4) != CR
    ensures Scanned(s, |s|) == 4
  {
    var n := |s|;
    LastFour(s);
    assert Scanned(s, n - 3) == 1 && Scanned(s, n - 2) == 2 && Scanned(s, n - 1) == 3;
  }

  lemma LastFour(s: seq<byte>)
    requires |s| >= 4 && s[|s| - 4..] == BLANK_LINE
    ensures s[|s| - 4] == CR && s[|s| - 3] == LF && s[|s| - 2] == CR && s[|s| - 1] == LF
  {
    var last := s[|s| - 4..];
    assert last[0] == s[|s| - 4] && last[1] == s[|s| - 3] && last[2] == s[|s| - 2] && last[3] == s[|s| - 1];
  }

  lemma {:induction false} ScannedPrefix(s: seq<byte>, t: seq<byte>, n: nat)
    requires n <= |s| && s <= t
    ensures Scanned(t, n) == Scanned(s, n)
  {
    if n > 0 { ScannedPrefix(s, t, n - 1); }
  }

  lemma BlankLineStays(s: seq<byte>, t: seq<byte>)
    requires HasBlankLine(s) && s <= t
    ensures HasBlankLine(t)
  {
    var p :| 0 <= p <= |s| && PartAt(s, p, BLANK_LINE);
    assert t[p..p + 4] == s[p..p + 4];
    assert PartAt(t, p, BLANK_LINE);
  }

  // The scan's state, carried from call to call.
  datatype Scan = Scan(numFound: nat, last: byte)

  const START := Scan(0, 0)

  function ScanAll(sc: Scan, data: seq<byte>): Scan {
    if data == [] then sc
    else
      var before, c := ScanAll(sc, data[..|data| - 1]), data[|data| - 1];
      Scan(ScanCount(before.numFound, before.last, c), c)
  }

  lemma {:induction false} ScanJoin(sc: Scan, a: seq<byte>, b: seq<byte>)
    ensures ScanAll(sc, a + b) == ScanAll(ScanAll(sc, a), b)
  {
    if b == [] {
      assert a + b == a;
    } else {
      ScanJoin(sc, a, b[..|b| - 1]);
      assert (a + b)[..|a + b| - 1] == a + b[..|b| - 1];
    }
  }

  // From the start it is the counter.
  lemma {:induction false} ScanIsCounter(s: seq<byte>)
    ensures ScanAll(START, s) == Scan(Scanned(s, |s|), Before(s, |s|))
  {
    if s != [] {
      var front := s[..|s| - 1];
      ScanIsCounter(front);
      ScannedPrefix(front, s, |front|);
    }
  }

  // Where in a span the counter shows 4 last, or 0.
  function LastHit(sc: Scan, span: seq<byte>): (r: nat)
    ensures r <= |span| && (r > 0 ==> ScanAll(sc, span[..r]).numFound == 4)
    ensures forall k :: r < k <= |span| ==> ScanAll(sc, span[..k]).numFound != 4
  {
    assert span[..|span|] == span;
    if span == [] then 0
    else if ScanAll(sc, span).numFound == 4 then |span|
    else
      var front := span[..|span| - 1];
      assert forall k :: 0 <= k <= |front| ==> front[..k] == span[..k];
      LastHit(sc, front)
  }

  // How much of a span is kept.
  function Kept(sc: Scan, span: seq<byte>): (r: nat)
    ensures r <= |span|
  {
    if LastHit(sc, span) == 0 then |span| else LastHit(sc, span)
  }

  // ---------- what a head says ----------

  datatype Head = Head(
    method_: seq<byte>, target: seq<byte>, version: seq<byte>, fields: seq<Field>,
    contentLength: Option<nat>, chunked: bool, path: seq<Text>, params: seq<Pair>)

  const NOTHING := Head([], [], [], [], None, false, [], [])

  const VERSION_1_1 := Ascii("1.1")
  const TRANSFER_ENCODING := Ascii("Transfer-Encoding")
  const TRANSFER_ENCODING_LOWER := Ascii("transfer-encoding")
  const CHUNKED := Ascii("chunked")

  // A line that continues the header before it is kept as a field without a name.
  function FieldOf(s: seq<byte>, h: Header): Field
    requires Fits(h, |s|)
  {
    Field(if h.Line? then HeadSpec.TextAt(s, h.name) else [], HeadSpec.TextAt(s, h.value))
  }

  function FieldsOf(s: seq<byte>, headers: seq<Header>): (r: seq<Field>)
    requires forall h :: h in headers ==> Fits(h, |s|)
    ensures |r| == |headers|
  {
    seq(|headers|, k requires 0 <= k < |headers| => FieldOf(s, headers[k]))
  }

  // The first field of either name.
  function First(fields: seq<Field>, name: seq<byte>, lower: seq<byte>): Option<seq<byte>> {
    if fields == [] then None
    else if fields[0].name == name || fields[0].name == lower then Some(fields[0].value)
    else First(fields[1..], name, lower)
  }

  predicate IsChunked(fields: seq<Field>) {
    exists f :: f in fields && (f.name == TRANSFER_ENCODING || f.name == TRANSFER_ENCODING_LOWER) && Contains(f.value, CHUNKED)
  }

  // What the request knows after parsing `s`, and whether it accepts it. A head that does not parse
  // changes nothing; one that names a Content-Length that is not a number is refused half way.
  function Understood(h: Head, s: seq<byte>): (Head, bool) {
    var r := ParseRequest(s, MAX_HEADERS);
    if r.Good? then Meaning(h, s, r.value) else (h, false)
  }

  function Meaning(h: Head, s: seq<byte>, r: ParsedRequest): (Head, bool)
    requires forall h :: h in r.headers ==> Fits(h, |s|)
    requires r.method_.off + r.method_.len <= |s| && r.path.off + r.path.len <= |s|
  {
    var fields, target := FieldsOf(s, r.headers), HeadSpec.TextAt(s, r.path);
    var named := h.(method_ := HeadSpec.TextAt(s, r.method_), target := target,
                    version := if r.minor == 0 then VERSION_1_0 else VERSION_1_1, fields := fields);
    var length := First(fields, CONTENT_LENGTH, CONTENT_LENGTH_LOWER);
    if length.Some? && FromChars(length.value).None? then (named, false)
    else
      var known := if length.Some? then FromChars(length.value) else h.contentLength;
      var mark := Find(target, QUESTION, 0);
      (named.(contentLength := known, chunked := h.chunked || (known.None? && IsChunked(fields)),
              path := h.path + Segments(target[..mark]),
              params := h.params + (if mark < |target| then Pairs(target[mark + 1..]) else [])), true)
  }

  lemma TextPrefix(s: seq<byte>, t: seq<byte>, n: nat, v: Slice)
    requires Agree(s, t, n) && v.off + v.len <= n
    ensures HeadSpec.TextAt(s, v) == HeadSpec.TextAt(t, v)
  {}

  lemma MeaningPrefix(h: Head, s: seq<byte>, t: seq<byte>, n: nat, r: ParsedRequest)
    requires Agree(s, t, n)
    requires (forall h :: h in r.headers ==> Fits(h, n) && Fits(h, |s|) && Fits(h, |t|))
    requires r.method_.off + r.method_.len <= n && r.path.off + r.path.len <= n
    ensures Meaning(h, s, r) == Meaning(h, t, r)
  {
    hide First, FromChars, IsChunked, Segments, Pairs, Find;
    assert FieldsOf(s, r.headers) == FieldsOf(t, r.headers) by {
      forall k | 0 <= k < |r.headers| ensures FieldOf(s, r.headers[k]) == FieldOf(t, r.headers[k]) {
        var line := r.headers[k];
        assert line in r.headers;
        TextPrefix(s, t, n, line.value);
        if line.Line? { TextPrefix(s, t, n, line.name); }
      }
    }
    TextPrefix(s, t, n, r.path);
    TextPrefix(s, t, n, r.method_);
  }

  // Octets behind a head that parses do not matter to what is understood.
  lemma {:induction false} UnderstoodPrefix(h: Head, s: seq<byte>, t: seq<byte>)
    requires ParseRequest(s, MAX_HEADERS).Good? && Agree(s, t, ParseRequest(s, MAX_HEADERS).next)
    ensures Understood(h, t) == Understood(h, s)
  {
    hide ParseRequest, Meaning;
    var r := ParseRequest(s, MAX_HEADERS);
    PrefixStability(s, MAX_HEADERS);
    assert forall line :: line in r.value.headers ==> Fits(line, r.next) && Fits(line, |s|) && Fits(line, |t|);
    MeaningPrefix(h, s, t, r.next, r.value);
  }

  // Reading the head from the whole buffer is reading it from what was received.
  lemma {:induction false} UnderstoodWholeBuffer(h: Head, whole: seq<byte>, received: nat)
    requires received <= |whole| && HasBlankLine(whole[..received])
    ensures Understood(h, whole) == Understood(h, whole[..received])
  {
    hide ParseRequest, Meaning;
    var p :| 0 <= p <= received && PartAt(whole[..received], p, BLANK_LINE);
    assert whole[p..p + 4] == BLANK_LINE;
    WholeBufferIsHarmless(whole, received, p, MAX_HEADERS);
    if ParseRequest(whole, MAX_HEADERS).Good? { UnderstoodPrefix(h, whole[..received], whole); }
  }

  // ---------- one call ----------

  // The head's buffer with `idx` octets of it received, the scan, what was understood, and the body.
  datatype Receiving = Receiving(buffer: seq<byte>, idx: nat, scan: Scan, head: Head, body: seq<byte>, bodyIdx: nat) {
    predicate Valid() {
      idx <= |buffer| && bodyIdx <= head.contentLength.GetOr(0) && bodyIdx <= |body|
    }

    function Received(): seq<byte>
      requires idx <= |buffer|
    {
      buffer[..idx]
    }
  }

  function TakeHead(m: Receiving, data: seq<byte>): (r: Consumed<Receiving>)
    requires m.idx <= |m.buffer|
    ensures r.msg.idx <= |r.msg.buffer| == |m.buffer| && r.reply.count <= |data|
  {
    var room := |m.buffer| - m.idx;
    var span := data[..Min(|data|, room)];
    var scan, n := ScanAll(m.scan, span), Kept(m.scan, span);
    if n == room && scan.numFound != 4 then
      Consumed(m.(scan := scan), Reply(Some(INVALID_MESSAGE), true, 0))
    else
      var buffer := Overwritten(m.buffer, m.idx, span[..n]);
      var taken := m.(buffer := buffer, idx := m.idx + n, scan := scan);
      if scan.numFound != 4 then Consumed(taken, Reply(None, false, n))
      else
        var (head, ok) := Understood(m.head, buffer);
        Consumed(taken.(head := head), if ok then Reply(None, true, n) else Reply(Some(INVALID_MESSAGE), true, 0))
  }

  // Bodies of announced length, and none; chunked bodies are not part of this model.
  predicate Supported(h: Head) {
    h.chunked ==> h.contentLength.GetOr(0) > 0
  }

  function TakeBody(m: Receiving, data: seq<byte>): (r: Consumed<Receiving>)
    requires m.Valid() && Supported(m.head)
    ensures r.msg.Valid() && r.reply.count <= |data|
  {
    var length := m.head.contentLength.GetOr(0);
    if length > MAX_BODY_SIZE then Consumed(m, Reply(Some(INVALID_MESSAGE), true, 0))
    else if length == 0 then Consumed(m, Reply(None, true, 0))
    else
      var n := Min(|data|, length - m.bodyIdx);
      var body := Overwritten(Resized(m.body, length), m.bodyIdx, data[..n]);
      Consumed(m.(body := body, bodyIdx := m.bodyIdx + n), Reply(None, m.bodyIdx + n == length, n))
  }
}
