/**
 When a request head is recognised: over any calls, over any cutting of a head, and with octets behind
 it in the same span.
 */
module RequestTheorems {
  import opened Bytes
  import opened Messages
  import opened HeadSpec
  import opened HeadStability
  import opened HeadEnd
  import opened ConnectionSpec
  import opened RequestSpec

  // ---------- the scan and what is kept ----------

  // Unless a blank line has been received, the scan is where the received octets end.
  predicate InStep(m: Receiving) {
    m.idx <= |m.buffer| && (HasBlankLine(m.Received()) || m.scan == ScanAll(START, m.Received()))
  }

  lemma HitIsBlankLine(s: seq<byte>)
    requires ScanAll(START, s).numFound == 4
    ensures HasBlankLine(s)
  {
    hide HasBlankLine;
    ScanIsCounter(s);
    CountedFour(s, |s|);
    assert s[..|s|] == s;
  }

  // If the scan is in step, the octets kept up to a place where the counter shows 4 hold a blank line.
  lemma KeptBlankLine(m: Receiving, span: seq<byte>, n: nat)
    requires InStep(m) && n <= |span| && ScanAll(m.scan, span[..n]).numFound == 4
    ensures HasBlankLine(m.Received() + span[..n])
  {
    hide HasBlankLine;
    if HasBlankLine(m.Received()) {
      BlankLineStays(m.Received(), m.Received() + span[..n]);
    } else {
      ScanJoin(START, m.Received(), span[..n]);
      HitIsBlankLine(m.Received() + span[..n]);
    }
  }

  lemma ReceivedNext(m: Receiving, data: seq<byte>)
    requires m.idx + |data| <= |m.buffer|
    ensures Overwritten(m.buffer, m.idx, data)[..m.idx + |data|] == m.Received() + data
  {}

  // A call that succeeds leaves the scan in step; and what it understood, or refused, is what the
  // received octets say, whatever lies behind them in the buffer.
  lemma TakeHeadInStep(m: Receiving, data: seq<byte>)
    requires InStep(m)
    ensures var r := TakeHead(m, data);
      && (r.reply.err.None? ==> InStep(r.msg) && r.msg.Received() == m.Received() + data[..r.reply.count])
      && (r.msg.scan.numFound == 4 ==>
            && HasBlankLine(r.msg.Received())
            && r.msg.Received() == m.Received() + data[..Min(|data|, |m.buffer| - m.idx)]
            && (r.reply.err.None? <==> Understood(m.head, r.msg.Received()).1)
            && r.msg.head == Understood(m.head, r.msg.Received()).0)
      && (r.msg.scan.numFound != 4 ==> r.msg.head == m.head && !(r.reply.err.None? && r.reply.complete))
  {
    hide HasBlankLine, Understood, ScanAll;
    var span := data[..Min(|data|, |m.buffer| - m.idx)];
    var n := Kept(m.scan, span);
    assert span[..|span|] == span && span[..n] == data[..n];
    ReceivedNext(m, span[..n]);
    ScanJoin(START, m.Received(), span);
    if LastHit(m.scan, span) > 0 { KeptBlankLine(m, span, n); }
    if HasBlankLine(m.Received()) { BlankLineStays(m.Received(), m.Received() + span[..n]); }
    if ScanAll(m.scan, span).numFound == 4 {
      ScanOfNothing(m.scan);
      KeptBlankLine(m, span, |span|);
      UnderstoodWholeBuffer(m.head, Overwritten(m.buffer, m.idx, span[..n]), m.idx + n);
    }
  }

  lemma ScanOfNothing(sc: Scan)
    ensures ScanAll(sc, []) == sc
  {}

  // ---------- any calls ----------

  // A fresh request on a buffer that may hold anything.
  function NewRequest(buffer: seq<byte>): Receiving {
    Receiving(buffer, 0, START, NOTHING, [], 0)
  }

  // One call after another, until one completes or refuses the head.
  function TakeHeads(m: Receiving, spans: seq<seq<byte>>): (r: Consumed<Receiving>)
    requires m.idx <= |m.buffer| && spans != []
    ensures r.msg.idx <= |r.msg.buffer| == |m.buffer|
    decreases |spans|
  {
    var r := TakeHead(m, spans[0]);
    if |spans| == 1 || r.reply.err.Some? || r.reply.complete then r else TakeHeads(r.msg, spans[1..])
  }

  // What a call looks at: as much of its span as there is room for.
  function Looked(m: Receiving, span: seq<byte>): seq<byte>
    requires m.idx <= |m.buffer|
  {
    span[..Min(|span|, |m.buffer| - m.idx)]
  }

  function LookedAll(m: Receiving, spans: seq<seq<byte>>): seq<byte>
    requires m.idx <= |m.buffer|
    decreases |spans|
  {
    if spans == [] then [] else Looked(m, spans[0]) + LookedAll(TakeHead(m, spans[0]).msg, spans[1..])
  }

  // The span takes all the room there is, and the counter shows 4 nowhere in it.
  predicate Overfull(m: Receiving, span: seq<byte>)
    requires m.idx <= |m.buffer|
  {
    && |span| >= |m.buffer| - m.idx && LastHit(m.scan, Looked(m, span)) == 0
    && ScanAll(m.scan, Looked(m, span)).numFound != 4
  }

  // None of the calls but the last ends with the counter at 4, or overfull.
  predicate GoingOn(m: Receiving, spans: seq<seq<byte>>)
    requires m.idx <= |m.buffer|
    decreases |spans|
  {
    |spans| > 1 ==>
      && ScanAll(m.scan, Looked(m, spans[0])).numFound != 4 && !Overfull(m, spans[0])
      && GoingOn(TakeHead(m, spans[0]).msg, spans[1..])
  }

  predicate LastOverfull(m: Receiving, spans: seq<seq<byte>>)
    requires m.idx <= |m.buffer| && spans != []
    decreases |spans|
  {
    if |spans| == 1 then Overfull(m, spans[0]) else LastOverfull(TakeHead(m, spans[0]).msg, spans[1..])
  }

  // A call ends the head in one of two ways, and otherwise goes on.
  lemma OneCall(m: Receiving, span: seq<byte>)
    requires m.idx <= |m.buffer|
    ensures var r := TakeHead(m, span);
      && r.msg.scan == ScanAll(m.scan, Looked(m, span))
      && (Overfull(m, span) ==> r.reply == Reply(Some(INVALID_MESSAGE), true, 0) && r.msg.idx == m.idx && r.msg.head == m.head)
      && (r.msg.scan.numFound != 4 && !Overfull(m, span) ==> r.reply.err.None? && !r.reply.complete)
      && (r.msg.scan.numFound == 4 ==> r.reply.complete)
  {
    hide ScanAll, Understood;
    var span' := Looked(m, span);
    assert span'[..|span'|] == span';
    var n := LastHit(m.scan, span');
  }

  lemma {:induction false} AnyCallsFrom(m: Receiving, spans: seq<seq<byte>>)
    requires InStep(m) && m.idx <= |m.buffer| && spans != [] && GoingOn(m, spans)
    ensures var r, scan := TakeHeads(m, spans), ScanAll(m.scan, LookedAll(m, spans));
      && r.msg.scan == scan
      && (scan.numFound == 4 ==>
            && HasBlankLine(r.msg.Received())
            && r.msg.head == Understood(m.head, r.msg.Received()).0
            && r.reply.complete && (r.reply.err.None? <==> Understood(m.head, r.msg.Received()).1))
      && (scan.numFound != 4 ==>
            && r.msg.head == m.head
            && (LastOverfull(m, spans) ==> r.reply == Reply(Some(INVALID_MESSAGE), true, 0))
            && (!LastOverfull(m, spans) ==> r.reply.err.None? && !r.reply.complete && InStep(r.msg)))
    decreases |spans|
  {
    hide Understood, HasBlankLine, InStep, ScanAll, TakeHead, Looked, Overfull;
    var r := TakeHead(m, spans[0]);
    TakeHeadInStep(m, spans[0]);
    OneCall(m, spans[0]);
    if |spans| == 1 {
      assert Looked(m, spans[0]) + [] == Looked(m, spans[0]);
    } else {
      ScanJoin(m.scan, Looked(m, spans[0]), LookedAll(r.msg, spans[1..]));
      AnyCallsFrom(r.msg, spans[1..]);
    }
  }

  // From a fresh request, whatever spans are given it, whatever of them it keeps: the head ends in the
  // first call at whose end the counter over all octets looked at shows 4, where it is recognised or
  // refused by what the octets kept say, or whose span takes all the room without the counter showing 4,
  // where it is refused; and in no other.
  lemma AnyCalls(buffer: seq<byte>, spans: seq<seq<byte>>)
    requires spans != [] && GoingOn(NewRequest(buffer), spans)
    ensures var r, s := TakeHeads(NewRequest(buffer), spans), LookedAll(NewRequest(buffer), spans);
      && (r.reply.complete <==> Scanned(s, |s|) == 4 || LastOverfull(NewRequest(buffer), spans))
      && (!r.reply.complete ==> r.reply.err.None?)
      && (Scanned(s, |s|) != 4 ==> !(r.reply.complete && r.reply.err.None?) && r.msg.head == NOTHING)
      && (Scanned(s, |s|) == 4 ==>
            && HasBlankLine(r.msg.Received())
            && r.msg.head == Understood(NOTHING, r.msg.Received()).0
            && (r.reply.err.None? <==> Understood(NOTHING, r.msg.Received()).1))
  {
    FreshInStep(buffer);
    hide Understood, HasBlankLine, TakeHeads, Scanned, LastOverfull, GoingOn, LookedAll;
    AnyCallsFrom(NewRequest(buffer), spans);
    ScanIsCounter(LookedAll(NewRequest(buffer), spans));
  }

  lemma FreshInStep(buffer: seq<byte>)
    ensures InStep(NewRequest(buffer)) && NewRequest(buffer).Received() == []
  {}

  // ---------- a head, cut up ----------

  // A head that the parser takes as a whole.
  predicate IsHead(h: seq<byte>) {
    var r := ParseRequest(h, MAX_HEADERS);
    r.Good? && r.next == |h|
  }

  predicate EndsWithBlankLine(h: seq<byte>) {
    |h| >= 4 && h[|h| - 4..] == BLANK_LINE
  }

  lemma BlankLineIsDoubleEnd(h: seq<byte>, n: nat)
    requires n <= |h| && HasBlankLine(h[..n])
    ensures exists e :: 4 <= e <= n && DoubleEnd(h, e) && h[e - 4..e] == BLANK_LINE
  {
    var p :| 0 <= p <= n && PartAt(h[..n], p, BLANK_LINE);
    assert h[p..p + 4] == BLANK_LINE;
    assert forall k :: p <= k < p + 4 ==> h[k] == h[p..p + 4][k - p];
    assert DoubleEnd(h, p + 4);
  }

  predicate NeverFour(h: seq<byte>) {
    forall n :: 0 <= n < |h| ==> ScanAll(START, h[..n]).numFound != 4
  }

  // Inside a head the counter never shows 4; at its end it does exactly if the head ends with CRLFCRLF.
  lemma {:induction false} HeadScan(h: seq<byte>)
    requires IsHead(h)
    ensures NeverFour(h)
    ensures ScanAll(START, h).numFound == 4 <==> EndsWithBlankLine(h)
  {
    hide ParseRequest, ScanAll, HasBlankLine;
    RequestEnd(h, MAX_HEADERS);
    forall n | 0 <= n < |h| ensures ScanAll(START, h[..n]).numFound != 4 {
      if ScanAll(START, h[..n]).numFound == 4 {
        HitIsBlankLine(h[..n]);
        BlankLineIsDoubleEnd(h, n);
      }
    }
    assert h[..|h|] == h;
    if ScanAll(START, h).numFound == 4 {
      HitIsBlankLine(h);
      BlankLineIsDoubleEnd(h, |h|);
    }
    if EndsWithBlankLine(h) { BlankLineCounts(h); }
  }

  lemma BlankLineCounts(h: seq<byte>)
    requires FirstDoubleEnd(h, 0, |h|) && PairedCR(h, 0, |h|) && EndsWithBlankLine(h)
    ensures ScanAll(START, h).numFound == 4
  {
    NothingBeforeBlankLine(h);
    hide FirstDoubleEnd, PairedCR;
    ScanIsCounter(h);
    FourAfterBlankLine(h);
  }

  // No CR and no line end stands right before the blank line that ends a head.
  lemma NothingBeforeBlankLine(h: seq<byte>)
    requires FirstDoubleEnd(h, 0, |h|) && PairedCR(h, 0, |h|) && EndsWithBlankLine(h)
    ensures Scanned(h, |h| - 4) == 0 && Before(h, |h| - 4) != CR
  {
    var n := |h| - 4;
    LastFour(h);
    if n > 0 {
      assert h[n - 1] != CR && !DoubleEnd(h, n + 2);
      hide FirstDoubleEnd, PairedCR;
    }
  }

  // One call on part of a head: all of it is kept, and the head is not there yet.
  lemma PartTaken(m: Receiving, h: seq<byte>, span: seq<byte>)
    requires m.idx + |span| < |h| && m.idx + |span| < |m.buffer|
    requires m.Received() == h[..m.idx] && m.scan == ScanAll(START, h[..m.idx])
    requires span == h[m.idx..m.idx + |span|]
    requires NeverFour(h)
    ensures var r := TakeHead(m, span);
      && r.reply == Reply(None, false, |span|) && r.msg.idx == m.idx + |span| && |r.msg.buffer| == |m.buffer|
      && r.msg.Received() == h[..r.msg.idx] && r.msg.scan == ScanAll(START, h[..r.msg.idx])
      && r.msg.head == m.head && r.msg.body == m.body && r.msg.bodyIdx == m.bodyIdx
  {
    hide Understood, ScanAll;
    assert span[..|span|] == span;
    forall k | 0 <= k <= |span| ensures ScanAll(m.scan, span[..k]) == ScanAll(START, h[..m.idx + k]) {
      assert h[..m.idx] + span[..k] == h[..m.idx + k];
      ScanJoin(START, h[..m.idx], span[..k]);
    }
    assert LastHit(m.scan, span) == 0;
    ReceivedNext(m, span);
    assert h[..m.idx] + span == h[..m.idx + |span|];
  }

  // The call whose span holds the end of the head, and `behind` more octets as far as there is room.
  lemma {:induction false} EndTaken(m: Receiving, h: seq<byte>, data: seq<byte>, behind: seq<byte>)
    requires IsHead(h)
    requires m.idx < |h| <= |m.buffer| && m.Received() == h[..m.idx] && m.scan == ScanAll(START, h[..m.idx])
    requires data == h[m.idx..] + behind
    ensures var r, seen := TakeHead(m, data), h + behind[..Min(|behind|, |m.buffer| - |h|)];
      && (ScanAll(START, seen).numFound == 4 ==>
            && r.reply == (if Understood(m.head, h).1 then Reply(None, true, |seen| - m.idx) else Reply(Some(INVALID_MESSAGE), true, 0))
            && r.msg == m.(buffer := r.msg.buffer, idx := |seen|, scan := ScanAll(START, seen), head := Understood(m.head, h).0)
            && r.msg.Received() == seen)
      && (ScanAll(START, seen).numFound != 4 ==> !(r.reply.err.None? && r.reply.complete) && r.msg.head == m.head)
  {
    hide ParseRequest, Understood, ScanAll;
    var seen := h + behind[..Min(|behind|, |m.buffer| - |h|)];
    var span := data[..Min(|data|, |m.buffer| - m.idx)];
    assert h[..m.idx] + span == seen;
    ScanJoin(START, h[..m.idx], span);
    assert span[..|span|] == span;
    if ScanAll(START, seen).numFound == 4 {
      assert Kept(m.scan, span) == |span|;
      ReceivedNext(m, span);
      var whole := Overwritten(m.buffer, m.idx, span);
      assert Agree(h, whole, |h|) by {
        assert forall k :: 0 <= k < |h| ==> whole[..|seen|][k] == seen[k] == h[k];
      }
      UnderstoodPrefix(m.head, h, whole);
    }
  }

  // Some octets of the head, fewer than all, are there.
  predicate PartThere(m: Receiving, h: seq<byte>) {
    && m.idx < |h| <= |m.buffer| && m.Received() == h[..m.idx] && m.scan == ScanAll(START, h[..m.idx])
    && m.head == NOTHING
  }

  predicate Recognised(r: Consumed<Receiving>) {
    r.reply.err.None? && r.reply.complete
  }

  lemma {:induction false} HeadPieces(m: Receiving, h: seq<byte>, behind: seq<byte>, spans: seq<seq<byte>>)
    requires IsHead(h) && PartThere(m, h) && spans != []
    requires Concat(spans) == h[m.idx..] + behind && |spans[|spans| - 1]| > |behind|
    ensures var r, seen := TakeHeads(m, spans), h + behind[..Min(|behind|, |m.buffer| - |h|)];
      && (Recognised(r) <==> ScanAll(START, seen).numFound == 4 && Understood(NOTHING, h).1)
      && (Recognised(r) ==> r.msg.head == Understood(NOTHING, h).0 && r.msg.Received() == seen)
      && (ScanAll(START, seen).numFound != 4 ==> r.msg.head == NOTHING)
    decreases |spans|
  {
    hide ParseRequest, Understood, ScanAll, TakeHead;
    var span, rest := spans[0], Concat(spans[1..]);
    if |spans| == 1 {
      assert span + [] == span;
      EndTaken(m, h, span, behind);
    } else {
      LastFits(spans[1..]);
      HeadScan(h);
      FrontOf(h[m.idx..], behind, span, rest);
      assert h[m.idx..][..|span|] == h[m.idx..m.idx + |span|] && h[m.idx..][|span|..] == h[m.idx + |span|..];
      PartTaken(m, h, span);
      HeadPieces(TakeHead(m, span).msg, h, behind, spans[1..]);
    }
  }

  lemma {:induction false} LastFits(spans: seq<seq<byte>>)
    requires spans != []
    ensures |Concat(spans)| >= |spans[|spans| - 1]|
  {
    if |spans| > 1 { LastFits(spans[1..]); }
  }

  lemma FrontOf(wanted: seq<byte>, behind: seq<byte>, span: seq<byte>, rest: seq<byte>)
    requires span + rest == wanted + behind && |rest| > |behind|
    ensures |span| < |wanted| && span == wanted[..|span|] && rest == wanted[|span|..] + behind
  {
    assert span == (span + rest)[..|span|] == (wanted + behind)[..|span|];
    assert rest == (span + rest)[|span|..] == (wanted + behind)[|span|..];
  }

  // A head, cut in any manner into the spans of successive calls on a fresh request, with `behind` more
  // octets in the span that holds its end: it is recognised in that call exactly if the counter shows 4
  // at the end of that span (or where the buffer is full) and the head is understood. If not, it is
  // hidden: the request knows nothing.
  lemma {:induction false} HeadAndBehind(buffer: seq<byte>, h: seq<byte>, behind: seq<byte>, spans: seq<seq<byte>>)
    requires IsHead(h) && |h| <= |buffer| && spans != []
    requires Concat(spans) == h + behind && |spans[|spans| - 1]| > |behind|
    ensures var r, seen := TakeHeads(NewRequest(buffer), spans), h + behind[..Min(|behind|, |buffer| - |h|)];
      && (Recognised(r) <==> Scanned(seen, |seen|) == 4 && Understood(NOTHING, h).1)
      && (Recognised(r) ==> r.msg.head == Understood(NOTHING, h).0 && r.msg.Received() == seen)
      && (Scanned(seen, |seen|) != 4 ==> r.msg.head == NOTHING)
  {
    var m := NewRequest(buffer);
    assert h[0..] == h && h[..0] == [] && m.Received() == [] && |h| > 0;
    hide ParseRequest, Understood, TakeHeads, Scanned;
    HeadPieces(m, h, behind, spans);
    ScanIsCounter(h + behind[..Min(|behind|, |buffer| - |h|)]);
  }

  // With nothing behind it in its last span, a head is recognised, whatever the cutting, exactly if it
  // ends with CRLFCRLF and its Content-Length, if any, is a number.
  lemma {:induction false} HeadInPieces(buffer: seq<byte>, h: seq<byte>, spans: seq<seq<byte>>)
    requires IsHead(h) && |h| <= |buffer| && spans != [] && Concat(spans) == h && spans[|spans| - 1] != []
    ensures var r := TakeHeads(NewRequest(buffer), spans);
      && (Recognised(r) <==> EndsWithBlankLine(h) && Understood(NOTHING, h).1)
      && (Recognised(r) ==> r.msg.head == Understood(NOTHING, h).0 && r.msg.Received() == h)
  {
    hide ParseRequest, Understood, TakeHeads, Scanned, IsHead;
    assert h + [] == h;
    HeadAndBehind(buffer, h, [], spans);
    HeadScan(h);
    ScanIsCounter(h);
  }

  // ---------- a head that is too long ----------

  lemma {:induction false} TooLongFrom(m: Receiving, h: seq<byte>, spans: seq<seq<byte>>)
    requires IsHead(h) && m.idx < |m.buffer| < |h| && m.head == NOTHING && spans != []
    requires m.Received() == h[..m.idx] && m.scan == ScanAll(START, h[..m.idx])
    requires |Concat(spans)| - |spans[|spans| - 1]| < |m.buffer| - m.idx <= |Concat(spans)|
    requires Concat(spans)[..|m.buffer| - m.idx] == h[m.idx..|m.buffer|]
    ensures var r := TakeHeads(m, spans);
      && r.reply == Reply(Some(INVALID_MESSAGE), true, 0) && r.msg.head == NOTHING
      && r.msg.idx == m.idx + |Concat(spans)| - |spans[|spans| - 1]|
    decreases |spans|
  {
    hide *;
    var span, rest := spans[0], Concat(spans[1..]);
    HeadsUnfold(m, spans);
    HeadScan(h);
    if |spans| == 1 {
      FillingRefused(m, h, span);
    } else {
      LastFits(spans[1..]);
      SplitOff(span, rest, h, m.idx, |m.buffer|);
      PartTaken(m, h, span);
      TooLongFrom(TakeHead(m, span).msg, h, spans[1..]);
    }
  }

  lemma HeadsUnfold(m: Receiving, spans: seq<seq<byte>>)
    requires m.idx <= |m.buffer| && spans != []
    ensures |spans| == 1 ==> TakeHeads(m, spans) == TakeHead(m, spans[0]) && Concat(spans) == spans[0]
    ensures Concat(spans) == spans[0] + Concat(spans[1..])
    ensures |spans| > 1 ==> spans[|spans| - 1] == spans[1..][|spans| - 2]
    ensures |spans| > 1 && !TakeHead(m, spans[0]).reply.complete && TakeHead(m, spans[0]).reply.err.None? ==>
      TakeHeads(m, spans) == TakeHeads(TakeHead(m, spans[0]).msg, spans[1..])
  {
    hide TakeHead;
    assert spans[0] + [] == spans[0];
  }

  lemma NextOctets(h: seq<byte>, i: nat, n: nat, k: nat)
    requires i + k <= n <= |h|
    ensures h[..i] + h[i..n][..k] == h[..i + k]
  {}

  lemma SplitOff(span: seq<byte>, rest: seq<byte>, h: seq<byte>, i: nat, n: nat)
    requires i + |span| <= n <= |h| && n - i <= |span| + |rest| && (span + rest)[..n - i] == h[i..n]
    ensures span == h[i..i + |span|] && rest[..n - i - |span|] == h[i + |span|..n]
  {
    var front := (span + rest)[..n - i];
    assert front[..|span|] == span && front[|span|..] == rest[..n - i - |span|];
    assert h[i..n][..|span|] == h[i..i + |span|] && h[i..n][|span|..] == h[i + |span|..n];
  }

  lemma FillingRefused(m: Receiving, h: seq<byte>, span: seq<byte>)
    requires m.idx < |m.buffer| < |h| && m.Received() == h[..m.idx] && m.scan == ScanAll(START, h[..m.idx])
    requires |span| >= |m.buffer| - m.idx && span[..|m.buffer| - m.idx] == h[m.idx..|m.buffer|]
    requires NeverFour(h)
    ensures var r := TakeHead(m, span);
      r.reply == Reply(Some(INVALID_MESSAGE), true, 0) && r.msg.head == m.head && r.msg.idx == m.idx
  {
    hide ScanAll, Understood, TakeHead;
    var looked := Looked(m, span);
    forall k | 0 <= k <= |looked| ensures ScanAll(m.scan, looked[..k]).numFound != 4 {
      NextOctets(h, m.idx, |m.buffer|, k);
      ScanJoin(START, h[..m.idx], looked[..k]);
    }
    assert looked[..|looked|] == looked;
    OneCall(m, span);
  }

  // A head longer than the buffer, however cut, is refused in the call whose span reaches the end of the
  // buffer; the octets before that span have been taken, and nothing is known.
  lemma {:induction false} HeadTooLong(buffer: seq<byte>, h: seq<byte>, spans: seq<seq<byte>>)
    requires IsHead(h) && |buffer| < |h| && spans != []
    requires |Concat(spans)| - |spans[|spans| - 1]| < |buffer| <= |Concat(spans)| && Concat(spans)[..|buffer|] == h[..|buffer|]
    ensures var r := TakeHeads(NewRequest(buffer), spans);
      && r.reply == Reply(Some(INVALID_MESSAGE), true, 0) && r.msg.head == NOTHING
      && r.msg.idx == |Concat(spans)| - |spans[|spans| - 1]|
  {
    LastFits(spans);
    var m := NewRequest(buffer);
    assert h[0..|buffer|] == h[..|buffer|] && h[..0] == [] && m.Received() == [];
    hide ParseRequest, TakeHeads;
    TooLongFrom(m, h, spans);
  }

  // ---------- a head that is hidden ----------

  // "G / HTTP/1.1" and the blank line: the shortest kind of request head.
  const SHORTEST: seq<byte> := [71, SP, 47, SP] + (HTTP_1 + [49]) + CRLF + CRLF

  lemma ShortestOctets()
    ensures |SHORTEST| == 16 && SHORTEST[0] == 71 && SHORTEST[1] == SP && SHORTEST[2] == 47 && SHORTEST[3] == SP
    ensures SHORTEST[4..11] == HTTP_1 && SHORTEST[11] == 49
    ensures SHORTEST[12] == CR && SHORTEST[13] == LF && SHORTEST[14] == CR && SHORTEST[15] == LF
  {}

  lemma ShortestParses()
    ensures ParseRequest(SHORTEST, MAX_HEADERS) == Good(ParsedRequest(Slice(0, 1), Slice(2, 1), 1, []), 16)
  {
    ShortestOctets();
    var s := SHORTEST;
    assert RequestStart(s) == Good((), 0);
    assert TokenFrom(s, 0, 1, SP) == Good(Slice(0, 1), 1) && TokenFrom(s, 0, 0, SP) == TokenFrom(s, 0, 1, SP);
    assert SpacesFrom(s, 2) == Good((), 2);
    assert TargetFrom(s, 2, 3) == Good(Slice(2, 1), 3) && TargetFrom(s, 2, 2) == TargetFrom(s, 2, 3);
    assert SpacesFrom(s, 4) == Good((), 4);
    assert Version(s, 4) == Good(1, 12);
    assert LineEnd(s, 12) == Good((), 14);
    assert HeadersFrom(s, 14, [], MAX_HEADERS) == Good([], 16);
  }

  lemma ShortestUnderstood()
    ensures Understood(NOTHING, SHORTEST).1
  {
    ShortestParses();
    hide ParseRequest;
    assert First([], CONTENT_LENGTH, CONTENT_LENGTH_LOWER) == None;
  }

  // Any head, with one more octet, not a CR or LF, behind it in its span, is hidden: the call takes the
  // head and reports it as incomplete, and the request knows nothing of it.
  lemma {:induction false} HiddenHead(buffer: seq<byte>, h: seq<byte>, x: byte)
    requires IsHead(h) && EndsWithBlankLine(h) && |buffer| > |h| && x != CR && x != LF
    ensures var r := TakeHead(NewRequest(buffer), h + [x]);
      r.reply == Reply(None, false, |h|) && r.msg.Received() == h && r.msg.head == NOTHING
  {
    var t := h + [x];
    HeadScan(h);
    assert t[..|h|] == h && t[..|t|] == t;
    assert ScanAll(START, t).numFound == 0 by { assert t[..|t| - 1] == h; }
    hide ScanAll, IsHead, EndsWithBlankLine, Understood;
    LastHitAt(START, t, |h|);
    ReceivedNext(NewRequest(buffer), h);
  }

  lemma LastHitAt(sc: Scan, t: seq<byte>, n: nat)
    requires 0 < n < |t| && ScanAll(sc, t[..n]).numFound == 4 && forall k :: n < k <= |t| ==> ScanAll(sc, t[..k]).numFound != 4
    ensures Kept(sc, t) == n
  {
    hide ScanAll;
    var r := LastHit(sc, t);
  }

  // There is such a head: alone it is recognised, and with an X behind it it is not.
  lemma ShortestHidden(buffer: seq<byte>)
    requires |buffer| > 16
    ensures Recognised(TakeHead(NewRequest(buffer), SHORTEST))
    ensures var r := TakeHead(NewRequest(buffer), SHORTEST + [88]);
      r.reply == Reply(None, false, 16) && r.msg.head == NOTHING
  {
    ShortestOctets();
    ShortestParses();
    ShortestUnderstood();
    var s := SHORTEST;
    hide ParseRequest, Understood, SHORTEST, TakeHead, Recognised;
    assert s[12..] == BLANK_LINE;
    assert s + [] == s && Concat([s]) == s;
    HeadInPieces(buffer, s, [s]);
    HiddenHead(buffer, s, 88);
  }
}
