/**
 The head parser as the source writes it: scanning loops over the buffer that first skip sixteen
 octets at a time (with SSE 4.2) or eight (without), each proved to return what the octet-by-octet
 definition returns. `sse` says which of the two builds it is.
 */
module HeadParser {
  import opened Bytes
  import opened HeadSpec

  // ---------- block scans ----------

  datatype Range = Range(lo: byte, hi: byte)

  predicate InRanges(ranges: seq<Range>, c: byte) {
    exists r :: r in ranges && r.lo <= c <= r.hi
  }

  const TOKEN_STOPS: seq<Range> :=
    [Range(0, 32), Range(34, 34), Range(40, 41), Range(44, 44), Range(47, 47), Range(58, 64), Range(91, 93), Range(123, 255)]
  const TARGET_STOPS: seq<Range> := [Range(0, 32), Range(127, 127)]
  const LINE_STOPS: seq<Range> := [Range(0, 8), Range(10, 31), Range(127, 127)]

  // Octets a block scan may skip cannot end or spoil what is being scanned.
  lemma TokenStopsCover(c: byte)
    ensures !InRanges(TOKEN_STOPS, c) ==> IsTokenChar(c) && c != SP && c != COLON
  {
    assert Range(0, 32) in TOKEN_STOPS && Range(34, 34) in TOKEN_STOPS && Range(40, 41) in TOKEN_STOPS
        && Range(44, 44) in TOKEN_STOPS && Range(47, 47) in TOKEN_STOPS && Range(58, 64) in TOKEN_STOPS
        && Range(91, 93) in TOKEN_STOPS && Range(123, 255) in TOKEN_STOPS;
  }

  lemma TargetStopsCover(c: byte)
    ensures !InRanges(TARGET_STOPS, c) ==> 32 < c && c != DEL
  {
    assert Range(0, 32) in TARGET_STOPS && Range(127, 127) in TARGET_STOPS;
  }

  lemma LineStopsCover(c: byte)
    ensures InRanges(LINE_STOPS, c) <==> IsControl(c)
  {
    assert Range(0, 8) in LINE_STOPS && Range(10, 31) in LINE_STOPS && Range(127, 127) in LINE_STOPS;
  }

  // The compare-ranges instruction: the index of the first octet of the block in one of the ranges, or 16.
  function CompareRanges(ranges: seq<Range>, block: seq<byte>, k: nat := 0): (r: nat)
    requires |block| == 16 && k <= 16
    ensures k <= r <= 16
    ensures forall j :: k <= j < r ==> !InRanges(ranges, block[j])
    ensures r < 16 ==> InRanges(ranges, block[r])
    decreases 16 - k
  {
    if k == 16 || InRanges(ranges, block[k]) then k else CompareRanges(ranges, block, k + 1)
  }

  method FindCharFast(sse: bool, s: seq<byte>, at: nat, ranges: seq<Range>) returns (buf: nat, found: bool)
    requires at <= |s|
    ensures at <= buf <= |s|
    ensures forall k :: at <= k < buf ==> !InRanges(ranges, s[k])
    ensures found ==> buf < |s| && InRanges(ranges, s[buf])
  {
    buf, found := at, false;
    if sse && |s| - at >= 16 {
      var left := (|s| - at) / 16 * 16;
      while left != 0
        invariant at <= buf && left % 16 == 0 && 0 <= left <= |s| - buf
        invariant forall k :: at <= k < buf ==> !InRanges(ranges, s[k])
        decreases left
      {
        var block := s[buf..buf + 16];
        var r := CompareRanges(ranges, block);
        assert forall k :: buf <= k < buf + 16 ==> s[k] == block[k - buf];
        if r != 16 {
          buf, found := buf + r, true;
          break;
        }
        buf := buf + 16;
        left := left - 16;
      }
    }
  }

  // ---------- tokens and lines ----------

  method ParseToken(sse: bool, s: seq<byte>, at: nat, nextChar: byte) returns (r: Result<Slice>)
    requires at <= |s| && (nextChar == SP || nextChar == COLON)
    ensures r == TokenFrom(s, at, at, nextChar)
  {
    var buf, found := FindCharFast(sse, s, at, TOKEN_STOPS);
    forall k | at <= k < buf ensures IsTokenChar(s[k]) && s[k] != nextChar { TokenStopsCover(s[k]); }
    TokenSkip(s, at, at, buf, nextChar);
    if !found {
      if buf == |s| { return Partial; }
    }
    while true
      invariant at <= buf < |s| && TokenFrom(s, at, at, nextChar) == TokenFrom(s, at, buf, nextChar)
      decreases |s| - buf
    {
      if s[buf] == nextChar { break; }
      if !IsTokenChar(s[buf]) { return Bad; }
      buf := buf + 1;
      if buf == |s| { return Partial; }
    }
    r := Good(Slice(at, buf - at), buf);
  }

  method AdvanceToken(sse: bool, s: seq<byte>, at: nat) returns (r: Result<Slice>)
    requires at <= |s|
    ensures r == TargetFrom(s, at, at)
  {
    var buf, found := FindCharFast(sse, s, at, TARGET_STOPS);
    forall k | at <= k < buf ensures 32 < s[k] && s[k] != DEL { TargetStopsCover(s[k]); }
    TargetSkip(s, at, at, buf);
    if !found {
      if buf == |s| { return Partial; }
    }
    while true
      invariant at <= buf < |s| && TargetFrom(s, at, at) == TargetFrom(s, at, buf)
      decreases |s| - buf
    {
      if s[buf] == SP { break; }
      if !IsPrintable(s[buf]) {
        if s[buf] < 32 || s[buf] == DEL { return Bad; }
      }
      buf := buf + 1;
      if buf == |s| { return Partial; }
    }
    r := Good(Slice(at, buf - at), buf);
  }

  // Eight octets at a time; stops at the first control octet, or with fewer than eight left.
  method SkipEights(s: seq<byte>, at: nat) returns (buf: nat, ctl: bool)
    requires at <= |s|
    ensures at <= buf <= |s|
    ensures forall k :: at <= k < buf ==> !IsControl(s[k])
    ensures ctl ==> buf < |s| && IsControl(s[buf])
  {
    buf, ctl := at, false;
    while |s| - buf >= 8
      invariant at <= buf <= |s|
      invariant forall k :: at <= k < buf ==> !IsControl(s[k])
      decreases |s| - buf
    {
      var k, block := 0, buf;
      while k < 8 && IsPrintable(s[buf])
        invariant k <= 8 && buf == block + k && |s| - block >= 8
        invariant forall k :: at <= k < buf ==> !IsControl(s[k])
      {
        buf := buf + 1;
        k := k + 1;
      }
      if k < 8 {
        if IsControl(s[buf]) {
          ctl := true;
          return;
        }
        buf := buf + 1;
      }
    }
  }

  method GetTokenToEol(sse: bool, s: seq<byte>, at: nat) returns (r: Result<Slice>)
    requires at <= |s|
    ensures r == LineFrom(s, at, at)
  {
    var buf, ctl;
    if sse {
      buf, ctl := FindCharFast(sse, s, at, LINE_STOPS);
      forall k | at <= k < buf ensures !IsControl(s[k]) { LineStopsCover(s[k]); }
      if ctl { LineStopsCover(s[buf]); }
    } else {
      buf, ctl := SkipEights(s, at);
    }
    LineSkip(s, at, at, buf);
    while !ctl
      invariant at <= buf <= |s| && LineFrom(s, at, at) == LineFrom(s, at, buf)
      invariant ctl ==> buf < |s| && IsControl(s[buf])
      decreases !ctl, |s| - buf
    {
      if buf == |s| { return Partial; }
      if !IsPrintable(s[buf]) && IsControl(s[buf]) {
        ctl := true;
      } else {
        buf := buf + 1;
      }
    }
    var len := buf - at;
    if s[buf] == CR {
      buf := buf + 1;
      if buf == |s| { return Partial; }
      if s[buf] != LF { return Bad; }
      buf := buf + 1;
    } else if s[buf] == LF {
      buf := buf + 1;
    } else {
      return Bad;
    }
    r := Good(Slice(at, len), buf);
  }

  method SkipSpaces(s: seq<byte>, at: nat) returns (r: Result<()>)
    requires at < |s|
    ensures r == SpacesFrom(s, at + 1)
  {
    var buf := at + 1;
    if buf == |s| { return Partial; }
    while s[buf] == SP
      invariant at < buf < |s| && SpacesFrom(s, at + 1) == SpacesFrom(s, buf)
      decreases |s| - buf
    {
      buf := buf + 1;
      if buf == |s| { return Partial; }
    }
    r := Good((), buf);
  }

  // ---------- headers ----------

  method ParseHeader(sse: bool, s: seq<byte>, at: nat, first: bool) returns (r: Result<Header>)
    requires at < |s|
    ensures r == HeaderLine(s, at, first)
  {
    var buf := at;
    var name := Slice(0, 0);
    var continued := !first && IsBlank(s[buf]);
    if !continued {
      var token := ParseToken(sse, s, buf, COLON);
      if !token.Good? { return token.PropagateFailure(); }
      name := token.value;
      if name.len == 0 { return Bad; }
      buf := token.next + 1;
      while true
        invariant token.next < buf <= |s| && BlanksFrom(s, token.next + 1) == BlanksFrom(s, buf)
        decreases |s| - buf
      {
        if buf == |s| { return Partial; }
        if !IsBlank(s[buf]) { break; }
        buf := buf + 1;
      }
    }
    var line := GetTokenToEol(sse, s, buf);
    if !line.Good? { return line.PropagateFailure(); }
    var value := line.value;
    while value.len != 0
      invariant value.off + value.len <= |s| && TrimEnd(s, line.value) == TrimEnd(s, value)
    {
      if !IsBlank(s[value.off + value.len - 1]) { break; }
      value := value.(len := value.len - 1);
    }
    r := Good(if continued then Continued(value) else Line(name, value), line.next);
  }

  method ParseHeaders(sse: bool, s: seq<byte>, at: nat, max: nat) returns (r: Result<seq<Header>>)
    requires at <= |s|
    ensures r == HeadersFrom(s, at, [], max)
  {
    var buf := at;
    var headers := [];
    while true
      invariant buf <= |s| && HeadersFrom(s, at, [], max) == HeadersFrom(s, buf, headers, max)
      decreases |s| - buf
    {
      if buf == |s| { return Partial; }
      if s[buf] == CR {
        buf := buf + 1;
        if buf == |s| { return Partial; }
        if s[buf] != LF { return Bad; }
        buf := buf + 1;
        break;
      } else if s[buf] == LF {
        buf := buf + 1;
        break;
      }
      if |headers| == max { return Bad; }
      var h := ParseHeader(sse, s, buf, headers == []);
      if !h.Good? { return h.PropagateFailure(); }
      headers := headers + [h.value];
      buf := h.next;
    }
    r := Good(headers, buf);
  }

  // ---------- the completeness pre-check ----------

  method IsComplete(s: seq<byte>, lastLen: nat) returns (r: Result<()>)
    requires lastLen <= |s|
    ensures r == Complete(s, lastLen)
  {
    var count := 0;
    var buf := if lastLen < 3 then 0 else lastLen - 3;
    while true
      invariant buf <= |s| && count < 2 && Complete(s, lastLen) == CompleteFrom(s, buf, count)
      decreases |s| - buf
    {
      if buf == |s| { return Partial; }
      if s[buf] == CR {
        buf := buf + 1;
        if buf == |s| { return Partial; }
        if s[buf] != LF { return Bad; }
        buf := buf + 1;
        count := count + 1;
      } else if s[buf] == LF {
        buf := buf + 1;
        count := count + 1;
      } else {
        buf := buf + 1;
        count := 0;
      }
      if count == 2 { return Good((), buf); }
    }
  }

  // ---------- entry points ----------

  method PhrParseRequest(sse: bool, s: seq<byte>, maxHeaders: nat, lastLen: nat) returns (r: Result<ParsedRequest>)
    requires lastLen <= |s|
    ensures r == RequestAfter(s, maxHeaders, lastLen)
  {
    hide TokenFrom, TargetFrom, SpacesFrom, HeadersFrom, Complete;
    if lastLen != 0 {
      var complete := IsComplete(s, lastLen);
      if !complete.Good? { return complete.PropagateFailure(); }
    }
    if s == [] { return Partial; }
    var start := RequestStart(s);
    if !start.Good? { return start.PropagateFailure(); }
    var method_ := ParseToken(sse, s, start.next, SP);
    if !method_.Good? { return method_.PropagateFailure(); }
    var c := SkipSpaces(s, method_.next);
    if !c.Good? { return c.PropagateFailure(); }
    var path := AdvanceToken(sse, s, c.next);
    if !path.Good? { return path.PropagateFailure(); }
    var e := SkipSpaces(s, path.next);
    if !e.Good? { return e.PropagateFailure(); }
    if method_.value.len == 0 || path.value.len == 0 { return Bad; }
    var version := Version(s, e.next);
    if !version.Good? { return version.PropagateFailure(); }
    var g := LineEnd(s, version.next);
    if !g.Good? { return g.PropagateFailure(); }
    var headers := ParseHeaders(sse, s, g.next, maxHeaders);
    if !headers.Good? { return headers.PropagateFailure(); }
    r := Good(ParsedRequest(method_.value, path.value, version.value, headers.value), headers.next);
  }

  // The reason behind a status code, its leading spaces removed.
  method ReasonText(s: seq<byte>, line: Slice) returns (r: Result<Slice>)
    requires line.off + line.len < |s| && s[line.off + line.len] != SP
    ensures r == Reason(s, line)
  {
    var msg := line;
    if msg.len != 0 {
      if s[msg.off] != SP { return Bad; }
      while s[msg.off] == SP // the line end behind the message is not a space
        invariant msg.off + msg.len == line.off + line.len
        invariant DropSpaces(s, line) == DropSpaces(s, msg)
        decreases msg.len
      {
        msg := Slice(msg.off + 1, msg.len - 1);
      }
    }
    r := Good(msg, 0);
  }

  method PhrParseResponse(sse: bool, s: seq<byte>, maxHeaders: nat, lastLen: nat) returns (r: Result<ParsedResponse>)
    requires lastLen <= |s|
    ensures r == ResponseAfter(s, maxHeaders, lastLen)
  {
    hide LineFrom, SpacesFrom, HeadersFrom, Complete, Version, Reason;
    if lastLen != 0 {
      var complete := IsComplete(s, lastLen);
      if !complete.Good? { return complete.PropagateFailure(); }
    }
    var version := Version(s, 0);
    if !version.Good? { return version.PropagateFailure(); }
    if s[version.next] != SP { return Bad; }
    var b := SkipSpaces(s, version.next);
    if !b.Good? { return b.PropagateFailure(); }
    var buf := b.next;
    if |s| - buf < 4 { return Partial; }
    if !IsDigit(s[buf]) || !IsDigit(s[buf + 1]) || !IsDigit(s[buf + 2]) { return Bad; }
    var status := 100 * Digit(s[buf]) + 10 * Digit(s[buf + 1]) + Digit(s[buf + 2]);
    var line := GetTokenToEol(sse, s, buf + 3);
    if !line.Good? { return line.PropagateFailure(); }
    var msg := ReasonText(s, line.value);
    if !msg.Good? { return msg.PropagateFailure(); }
    var headers := ParseHeaders(sse, s, line.next, maxHeaders);
    if !headers.Good? { return headers.PropagateFailure(); }
    r := Good(ParsedResponse(version.value, status, msg.value, headers.value), headers.next);
  }
}
