/**
 The request and response head parser, read one octet at a time: what each parsing routine returns
 on a buffer `s` from position `i`. A result is a value with the position after it, a definite
 rejection (the source's -1), or a request for more input (the source's -2).
 */
module HeadSpec {
  import opened Bytes

  datatype Result<+T> = Good(value: T, next: nat) | Bad | Partial {
    predicate IsFailure() { !Good? }
    function PropagateFailure<U>(): Result<U>
      requires IsFailure()
    {
      if Bad? then Bad else Partial
    }
    function Extract(): (T, nat)
      requires Good?
    {
      (value, next)
    }
  }

  // A token inside the buffer, as the source's pointer and length.
  datatype Slice = Slice(off: nat, len: nat)

  function TextAt(s: seq<byte>, t: Slice): seq<byte>
    requires t.off + t.len <= |s|
  {
    s[t.off..t.off + t.len]
  }

  // `name` is absent on a line that continues the previous header.
  datatype Header = Line(name: Slice, value: Slice) | Continued(value: Slice)

  // The header lies within the first `n` octets.
  predicate Fits(h: Header, n: nat) {
    h.value.off + h.value.len <= n && (h.Line? ==> h.name.off + h.name.len <= n)
  }

  // A field as it is set or found.
  datatype Field = Field(name: seq<byte>, value: seq<byte>)

  const CONTENT_LENGTH := Ascii("Content-Length")
  const CONTENT_LENGTH_LOWER := Ascii("content-length")
  const VERSION_1_0 := Ascii("1.0")

  datatype ParsedRequest = ParsedRequest(method_: Slice, path: Slice, minor: nat, headers: seq<Header>)
  datatype ParsedResponse = ParsedResponse(minor: nat, status: nat, msg: Slice, headers: seq<Header>)

  predicate IsBlank(c: byte) { c == SP || c == HT }
  predicate IsControl(c: byte) { (c < 32 && c != HT) || c == DEL }
  predicate IsPrintable(c: byte) { 32 <= c < 127 }

  // The characters of a token, in section 3.2.6 of RFC 7230.
  predicate IsTokenChar(c: byte) {
    || c == 33 || 35 <= c <= 39 || c == 42 || c == 43 || c == 45 || c == 46 || IsDigit(c)
    || 65 <= c <= 90 || 94 <= c <= 122 || c == 124 || c == 126
  }

  // ---------- pieces ----------

  // A token that started at `start`, up to but not including `stop`.
  function TokenFrom(s: seq<byte>, start: nat, j: nat, stop: byte): (r: Result<Slice>)
    requires start <= j <= |s|
    ensures r.Good? ==> j <= r.next < |s| && s[r.next] == stop && r.value == Slice(start, r.next - start)
    decreases |s| - j
  {
    if j == |s| then Partial
    else if s[j] == stop then Good(Slice(start, j - start), j)
    else if !IsTokenChar(s[j]) then Bad
    else TokenFrom(s, start, j + 1, stop)
  }

  // A request target: anything but controls, up to but not including a space.
  function TargetFrom(s: seq<byte>, start: nat, j: nat): (r: Result<Slice>)
    requires start <= j <= |s|
    ensures r.Good? ==> j <= r.next < |s| && s[r.next] == SP && r.value == Slice(start, r.next - start)
    decreases |s| - j
  {
    if j == |s| then Partial
    else if s[j] == SP then Good(Slice(start, j - start), j)
    else if s[j] < 32 || s[j] == DEL then Bad
    else TargetFrom(s, start, j + 1)
  }

  // CR LF or LF.
  function LineEnd(s: seq<byte>, j: nat): (r: Result<()>)
    requires j < |s|
    ensures r.Good? ==> j < r.next <= |s| && r.next <= j + 2 && s[r.next - 1] == LF
  {
    if s[j] == CR then
      if j + 1 == |s| then Partial else if s[j + 1] != LF then Bad else Good((), j + 2)
    else if s[j] == LF then Good((), j + 1)
    else Bad
  }

  // The rest of a line that started at `start`, without its line end.
  function LineFrom(s: seq<byte>, start: nat, j: nat): (r: Result<Slice>)
    requires start <= j <= |s|
    ensures r.Good? ==> j < r.next <= |s| && r.value.off == start && j <= start + r.value.len < r.next
    ensures r.Good? ==> IsControl(s[start + r.value.len])
    decreases |s| - j
  {
    if j == |s| then Partial
    else if IsControl(s[j]) then
      var (_, next) :- LineEnd(s, j);
      Good(Slice(start, j - start), next)
    else LineFrom(s, start, j + 1)
  }

  // The next octet that is not a space.
  function SpacesFrom(s: seq<byte>, j: nat): (r: Result<()>)
    requires j <= |s|
    ensures r.Good? ==> j <= r.next < |s| && s[r.next] != SP
    decreases |s| - j
  {
    if j == |s| then Partial else if s[j] == SP then SpacesFrom(s, j + 1) else Good((), j)
  }

  // The next octet that is neither space nor tab.
  function BlanksFrom(s: seq<byte>, j: nat): (r: Result<()>)
    requires j <= |s|
    ensures r.Good? ==> j <= r.next < |s| && !IsBlank(s[r.next])
    decreases |s| - j
  {
    if j == |s| then Partial else if IsBlank(s[j]) then BlanksFrom(s, j + 1) else Good((), j)
  }

  const HTTP_1: seq<byte> := [72, 84, 84, 80, 47, 49, 46] // "HTTP/1."

  // "HTTP/1." and a digit; one more octet must be there.
  function Version(s: seq<byte>, j: nat): (r: Result<nat>)
    requires j <= |s|
    ensures r.Good? ==> r.next == j + 8 < |s|
  {
    if |s| - j < 9 then Partial
    else if s[j..j + 7] != HTTP_1 || !IsDigit(s[j + 7]) then Bad
    else Good(Digit(s[j + 7]), j + 8)
  }

  // ---------- header lines ----------

  function TrimEnd(s: seq<byte>, t: Slice): (r: Slice)
    requires t.off + t.len <= |s|
    ensures r.off == t.off && r.len <= t.len
    decreases t.len
  {
    if t.len > 0 && IsBlank(s[t.off + t.len - 1]) then TrimEnd(s, t.(len := t.len - 1)) else t
  }

  function HeaderLine(s: seq<byte>, i: nat, first: bool): (r: Result<Header>)
    requires i < |s|
    ensures r.Good? ==> i < r.next <= |s| && Fits(r.value, r.next)
  {
    if !first && IsBlank(s[i]) then
      var (value, next) :- LineFrom(s, i, i);
      Good(Continued(TrimEnd(s, value)), next)
    else
      var (name, j) :- TokenFrom(s, i, i, COLON);
      if name.len == 0 then Bad
      else
        var (_, k) :- BlanksFrom(s, j + 1);
        var (value, next) :- LineFrom(s, k, k);
        Good(Line(name, TrimEnd(s, value)), next)
  }

  // Header lines after `got`, up to and including the empty line.
  function HeadersFrom(s: seq<byte>, i: nat, got: seq<Header>, max: nat): (r: Result<seq<Header>>)
    requires i <= |s|
    ensures r.Good? ==> i < r.next <= |s| && got <= r.value
    ensures r.Good? ==> forall k :: |got| <= k < |r.value| ==> Fits(r.value[k], r.next)
    decreases |s| - i
  {
    if i == |s| then Partial
    else if s[i] == CR || s[i] == LF then
      var (_, next) :- LineEnd(s, i);
      Good(got, next)
    else if |got| == max then Bad
    else
      var (h, next) :- HeaderLine(s, i, got == []);
      HeadersFrom(s, next, got + [h], max)
  }

  // ---------- heads ----------

  // One empty line before the request line is skipped.
  function RequestStart(s: seq<byte>): (r: Result<()>)
    ensures r.Good? ==> r.next <= |s|
  {
    if s == [] then Partial
    else if s[0] == CR || s[0] == LF then LineEnd(s, 0)
    else Good((), 0)
  }

  // The request line after the space that ends the target, and the headers.
  function RequestTail(s: seq<byte>, i: nat, method_: Slice, path: Slice, max: nat): (r: Result<ParsedRequest>)
    requires i <= |s|
    ensures r.Good? ==> i < r.next <= |s| && r.value.method_ == method_ && r.value.path == path
    ensures r.Good? ==> forall h :: h in r.value.headers ==> Fits(h, r.next)
  {
    var (_, e) :- SpacesFrom(s, i);
    if method_.len == 0 || path.len == 0 then Bad
    else
      var (minor, f) :- Version(s, e);
      var (_, g) :- LineEnd(s, f);
      var (headers, n) :- HeadersFrom(s, g, [], max);
      Good(ParsedRequest(method_, path, minor, headers), n)
  }

  function ParseRequest(s: seq<byte>, max: nat): (r: Result<ParsedRequest>)
    ensures r.Good? ==> r.next <= |s| && forall h :: h in r.value.headers ==> Fits(h, r.next)
    ensures r.Good? ==>
      r.value.method_.off + r.value.method_.len <= r.next && r.value.path.off + r.value.path.len <= r.next
  {
    var (_, a) :- RequestStart(s);
    var (method_, b) :- TokenFrom(s, a, a, SP);
    var (_, c) :- SpacesFrom(s, b + 1);
    var (path, d) :- TargetFrom(s, c, c);
    RequestTail(s, d + 1, method_, path, max)
  }

  // The reason phrase without the spaces before it. A reason must start with a space or be empty.
  function Reason(s: seq<byte>, t: Slice): (r: Result<Slice>)
    requires t.off + t.len < |s|
    ensures r.Good? ==> r.value.off + r.value.len == t.off + t.len
    decreases t.len
  {
    if t.len == 0 then Good(t, 0)
    else if s[t.off] != SP then Bad
    else Good(DropSpaces(s, t), 0)
  }

  function DropSpaces(s: seq<byte>, t: Slice): (r: Slice)
    requires t.off + t.len <= |s|
    ensures t.off <= r.off && r.off + r.len == t.off + t.len
    decreases t.len
  {
    if t.len > 0 && s[t.off] == SP then DropSpaces(s, Slice(t.off + 1, t.len - 1)) else t
  }

  // The status code, the reason and the headers.
  function ResponseTail(s: seq<byte>, b: nat, max: nat): (r: Result<(nat, Slice, seq<Header>)>)
    requires b < |s|
    ensures r.Good? ==> b + 3 < r.next <= |s| && r.value.1.off + r.value.1.len <= r.next
    ensures r.Good? ==> forall h :: h in r.value.2 ==> Fits(h, r.next)
  {
    if |s| - b < 4 then Partial
    else if !IsDigit(s[b]) || !IsDigit(s[b + 1]) || !IsDigit(s[b + 2]) then Bad
    else
      var status := 100 * Digit(s[b]) + 10 * Digit(s[b + 1]) + Digit(s[b + 2]);
      var (line, c) :- LineFrom(s, b + 3, b + 3);
      var (msg, _) :- Reason(s, line);
      var (headers, n) :- HeadersFrom(s, c, [], max);
      Good((status, msg, headers), n)
  }

  function ParseResponse(s: seq<byte>, max: nat): (r: Result<ParsedResponse>)
    ensures r.Good? ==> r.next <= |s| && forall h :: h in r.value.headers ==> Fits(h, r.next)
    ensures r.Good? ==> r.value.msg.off + r.value.msg.len <= r.next
  {
    var (minor, a) :- Version(s, 0);
    if s[a] != SP then Bad
    else
      var (_, b) :- SpacesFrom(s, a + 1);
      var (tail, n) :- ResponseTail(s, b, max);
      Good(ParsedResponse(minor, tail.0, tail.1, tail.2), n)
  }

  // ---------- the completeness pre-check ----------

  // Scans from `j` for two line ends in a row; `ends` have just been seen.
  function CompleteFrom(s: seq<byte>, j: nat, ends: nat): (r: Result<()>)
    requires j <= |s|
    ensures r.Good? ==> j < r.next <= |s|
    decreases |s| - j
  {
    if j == |s| then Partial
    else if s[j] == CR || s[j] == LF then
      var (_, next) :- LineEnd(s, j);
      if ends + 1 == 2 then Good((), next) else CompleteFrom(s, next, ends + 1)
    else CompleteFrom(s, j + 1, 0)
  }

  function Complete(s: seq<byte>, lastLen: nat): Result<()>
    requires lastLen <= |s|
  {
    CompleteFrom(s, if lastLen < 3 then 0 else lastLen - 3, 0)
  }

  // The entry points: with `lastLen` set the head must look complete before it is parsed.
  function RequestAfter(s: seq<byte>, max: nat, lastLen: nat): Result<ParsedRequest>
    requires lastLen <= |s|
  {
    if lastLen != 0 && !Complete(s, lastLen).Good? then Complete(s, lastLen).PropagateFailure()
    else ParseRequest(s, max)
  }

  function ResponseAfter(s: seq<byte>, max: nat, lastLen: nat): Result<ParsedResponse>
    requires lastLen <= |s|
  {
    if lastLen != 0 && !Complete(s, lastLen).Good? then Complete(s, lastLen).PropagateFailure()
    else ParseResponse(s, max)
  }

  // ---------- skipping does not change the result ----------

  lemma {:induction false} TokenSkip(s: seq<byte>, start: nat, i: nat, j: nat, stop: byte)
    requires start <= i <= j <= |s| && forall k :: i <= k < j ==> IsTokenChar(s[k]) && s[k] != stop
    ensures TokenFrom(s, start, i, stop) == TokenFrom(s, start, j, stop)
    decreases j - i
  {
    if i < j { TokenSkip(s, start, i + 1, j, stop); }
  }

  lemma {:induction false} TargetSkip(s: seq<byte>, start: nat, i: nat, j: nat)
    requires start <= i <= j <= |s| && forall k :: i <= k < j ==> 32 < s[k] && s[k] != DEL
    ensures TargetFrom(s, start, i) == TargetFrom(s, start, j)
    decreases j - i
  {
    if i < j { TargetSkip(s, start, i + 1, j); }
  }

  lemma {:induction false} LineSkip(s: seq<byte>, start: nat, i: nat, j: nat)
    requires start <= i <= j <= |s| && forall k :: i <= k < j ==> !IsControl(s[k])
    ensures LineFrom(s, start, i) == LineFrom(s, start, j)
    decreases j - i
  {
    if i < j { LineSkip(s, start, i + 1, j); }
  }

  lemma {:induction false} BlanksSkip(s: seq<byte>, i: nat, j: nat)
    requires i <= j <= |s| && forall k :: i <= k < j ==> IsBlank(s[k])
    ensures BlanksFrom(s, i) == BlanksFrom(s, j)
    decreases j - i
  {
    if i < j { BlanksSkip(s, i + 1, j); }
  }
}
