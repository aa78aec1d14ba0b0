/**
 Where a successful parse stops: exactly at the first two line ends in a row. Hence the fast
 completeness check finds the same end, and octets of a buffer behind a blank line cannot matter.
 */
module HeadEnd {
  import opened Bytes
  import opened HeadSpec
  import opened HeadStability

  // s[..e] ends with LF LF or LF CR LF.
  predicate DoubleEnd(s: seq<byte>, e: nat) {
    2 <= e <= |s| && s[e - 1] == LF && (s[e - 2] == LF || (e >= 3 && s[e - 2] == CR && s[e - 3] == LF))
  }

  predicate Clean(s: seq<byte>, lo: nat, hi: nat) {
    hi <= |s| && forall k :: lo <= k < hi ==> s[k] != CR && s[k] != LF
  }

  // s[lo..hi] is one line, not empty, with its line end.
  predicate OneLine(s: seq<byte>, lo: nat, hi: nat) {
    && lo < hi <= |s| && s[lo] != CR && s[lo] != LF && s[hi - 1] == LF
    && (Clean(s, lo, hi - 1) || (s[hi - 2] == CR && Clean(s, lo, hi - 2)))
  }

  // Every CR before `hi` is followed by LF.
  predicate PairedCR(s: seq<byte>, lo: nat, hi: nat) {
    hi <= |s| && forall k :: lo <= k < hi && s[k] == CR ==> k + 1 < hi && s[k + 1] == LF
  }

  predicate FirstDoubleEnd(s: seq<byte>, lo: nat, n: nat) {
    DoubleEnd(s, n) && forall e :: lo < e < n ==> !DoubleEnd(s, e)
  }

  // ---------- what the pieces of a line contain ----------

  lemma {:induction false} TokenClean(s: seq<byte>, start: nat, j: nat, stop: byte)
    requires start <= j <= |s| && TokenFrom(s, start, j, stop).Good?
    ensures Clean(s, j, TokenFrom(s, start, j, stop).next)
    decreases |s| - j
  {
    if s[j] != stop { TokenClean(s, start, j + 1, stop); }
  }

  lemma {:induction false} TargetClean(s: seq<byte>, start: nat, j: nat)
    requires start <= j <= |s| && TargetFrom(s, start, j).Good?
    ensures Clean(s, j, TargetFrom(s, start, j).next)
    decreases |s| - j
  {
    if s[j] != SP { TargetClean(s, start, j + 1); }
  }

  lemma {:induction false} SpacesClean(s: seq<byte>, j: nat)
    requires j <= |s| && SpacesFrom(s, j).Good?
    ensures Clean(s, j, SpacesFrom(s, j).next)
    decreases |s| - j
  {
    if s[j] == SP { SpacesClean(s, j + 1); }
  }

  lemma {:induction false} BlanksClean(s: seq<byte>, j: nat)
    requires j <= |s| && BlanksFrom(s, j).Good?
    ensures Clean(s, j, BlanksFrom(s, j).next)
    decreases |s| - j
  {
    if IsBlank(s[j]) { BlanksClean(s, j + 1); }
  }

  // A line whose beginning, s[lo..j], is clean.
  lemma {:induction false} LineIsOne(s: seq<byte>, lo: nat, start: nat, j: nat)
    requires lo <= start <= j <= |s| && Clean(s, lo, j) && LineFrom(s, start, j).Good?
    requires lo < j || (s[lo] != CR && s[lo] != LF)
    ensures OneLine(s, lo, LineFrom(s, start, j).next)
    decreases |s| - j
  {
    if !IsControl(s[j]) { LineIsOne(s, lo, start, j + 1); }
  }

  lemma HeaderLineIsOne(s: seq<byte>, i: nat, first: bool)
    requires i < |s| && s[i] != CR && s[i] != LF && HeaderLine(s, i, first).Good?
    ensures OneLine(s, i, HeaderLine(s, i, first).next)
  {
    hide TokenFrom, BlanksFrom, LineFrom;
    if !first && IsBlank(s[i]) {
      LineIsOne(s, i, i, i);
    } else {
      var j := TokenFrom(s, i, i, COLON).next;
      TokenClean(s, i, i, COLON);
      BlanksClean(s, j + 1);
      var k := BlanksFrom(s, j + 1).next;
      LineIsOne(s, i, k, k);
    }
  }

  lemma OneLineHasNoDoubleEnd(s: seq<byte>, lo: nat, hi: nat)
    requires OneLine(s, lo, hi)
    ensures forall e :: lo < e <= hi ==> !DoubleEnd(s, e)
    ensures PairedCR(s, lo, hi)
  {}

  // ---------- where a successful parse stops ----------

  lemma {:induction false} HeadersEnd(s: seq<byte>, i: nat, got: seq<Header>, max: nat)
    requires 0 < i <= |s| && s[i - 1] == LF && HeadersFrom(s, i, got, max).Good?
    ensures var n := HeadersFrom(s, i, got, max).next;
      FirstDoubleEnd(s, i, n) && PairedCR(s, i, n)
    decreases |s| - i
  {
    if s[i] != CR && s[i] != LF {
      hide HeaderLine;
      var h := HeaderLine(s, i, got == []);
      HeaderLineIsOne(s, i, got == []);
      OneLineHasNoDoubleEnd(s, i, h.next);
      HeadersEnd(s, h.next, got + [h.value], max);
    }
  }

  lemma RequestTailEnd(s: seq<byte>, lo: nat, i: nat, method_: Slice, path: Slice, max: nat)
    requires lo < i <= |s| && Clean(s, lo, i) && RequestTail(s, i, method_, path, max).Good?
    ensures var n := RequestTail(s, i, method_, path, max).next;
      FirstDoubleEnd(s, lo, n) && PairedCR(s, lo, n)
  {
    hide SpacesFrom, HeadersFrom;
    var e := SpacesFrom(s, i).next;
    SpacesClean(s, i);
    assert Clean(s, e, e + 8) by {
      assert forall k :: e <= k < e + 7 ==> s[k] == s[e..e + 7][k - e];
    }
    var g := LineEnd(s, e + 8).next;
    assert OneLine(s, lo, g);
    OneLineHasNoDoubleEnd(s, lo, g);
    HeadersEnd(s, g, [], max);
  }

  lemma {:induction false} RequestEnd(s: seq<byte>, max: nat)
    requires ParseRequest(s, max).Good?
    ensures var n := ParseRequest(s, max).next;
      FirstDoubleEnd(s, 0, n) && PairedCR(s, 0, n)
  {
    hide TokenFrom, SpacesFrom, TargetFrom, RequestTail;
    var a := RequestStart(s).next;
    TokenClean(s, a, a, SP);
    var b := TokenFrom(s, a, a, SP);
    SpacesClean(s, b.next + 1);
    var c := SpacesFrom(s, b.next + 1).next;
    TargetClean(s, c, c);
    var d := TargetFrom(s, c, c);
    RequestTailEnd(s, a, d.next + 1, b.value, d.value, max);
    assert forall e :: 0 < e <= a ==> !DoubleEnd(s, e);
  }

  // Where the parts of a status line lie: version and spaces up to `b`, a code, and a line up to `c`.
  lemma {:induction false} ResponseParts(s: seq<byte>, max: nat) returns (b: nat, c: nat)
    requires ParseResponse(s, max).Good?
    ensures 0 < b && b + 3 <= |s| && Clean(s, 0, b + 3)
    ensures LineFrom(s, b + 3, b + 3).Good? && c == LineFrom(s, b + 3, b + 3).next
    ensures HeadersFrom(s, c, [], max).Good? && HeadersFrom(s, c, [], max).next == ParseResponse(s, max).next
  {
    hide SpacesFrom, LineFrom, Reason, HeadersFrom, Version;
    var a := Version(s, 0).next;
    VersionClean(s);
    SpacesClean(s, a + 1);
    b := SpacesFrom(s, a + 1).next;
    c := LineFrom(s, b + 3, b + 3).next;
  }

  lemma VersionClean(s: seq<byte>)
    requires Version(s, 0).Good?
    ensures Clean(s, 0, Version(s, 0).next)
  {
    assert forall k :: 0 <= k < 7 ==> s[k] == s[0..7][k];
  }

  lemma ResponseEnd(s: seq<byte>, max: nat)
    requires ParseResponse(s, max).Good?
    ensures var n := ParseResponse(s, max).next;
      FirstDoubleEnd(s, 0, n) && PairedCR(s, 0, n)
  {
    hide ParseResponse, LineFrom, HeadersFrom;
    var b, c := ResponseParts(s, max);
    LineIsOne(s, 0, b + 3, b + 3);
    OneLineHasNoDoubleEnd(s, 0, c);
    HeadersEnd(s, c, [], max);
  }

  // ---------- the completeness pre-check ----------

  lemma {:induction false} CompleteHits(s: seq<byte>, n: nat, j: nat, ends: nat)
    requires FirstDoubleEnd(s, 0, n) && PairedCR(s, 0, n) && j < n && ends <= 1
    // the line end that opens the final pair has been seen last, or is still ahead
    requires var opening := if s[n - 2] == LF then n - 2 else n - 3;
      if ends == 1 then j > 0 && s[j - 1] == LF && opening >= j - 1 else opening >= j
    ensures CompleteFrom(s, j, ends) == Good((), n)
    decreases n - j
  {
    if s[j] == CR || s[j] == LF {
      var next := LineEnd(s, j).next;
      if ends == 1 { assert DoubleEnd(s, next); } else { CompleteHits(s, n, next, 1); }
    } else {
      CompleteHits(s, n, j + 1, 0);
    }
  }

  lemma CompleteFindsEnd(s: seq<byte>, n: nat, lastLen: nat)
    requires FirstDoubleEnd(s, 0, n) && PairedCR(s, 0, n) && lastLen < n
    ensures Complete(s, lastLen) == Good((), n)
  {
    CompleteHits(s, n, if lastLen < 3 then 0 else lastLen - 3, 0);
  }

  // The pre-check agrees with the parser.
  lemma PreCheckAgrees(s: seq<byte>, max: nat, lastLen: nat)
    requires lastLen <= |s|
    ensures var r := ParseRequest(s, max);
      r.Good? && lastLen < r.next ==> Complete(s, lastLen) == Good((), r.next) && RequestAfter(s, max, lastLen) == r
    ensures RequestAfter(s, max, lastLen).Good? ==> ParseRequest(s, max) == RequestAfter(s, max, lastLen)
    ensures var r := ParseResponse(s, max);
      r.Good? && lastLen < r.next ==> Complete(s, lastLen) == Good((), r.next) && ResponseAfter(s, max, lastLen) == r
    ensures ResponseAfter(s, max, lastLen).Good? ==> ParseResponse(s, max) == ResponseAfter(s, max, lastLen)
  {
    hide ParseRequest, ParseResponse, Complete;
    var r, q := ParseRequest(s, max), ParseResponse(s, max);
    if r.Good? && lastLen < r.next {
      RequestEnd(s, max);
      CompleteFindsEnd(s, r.next, lastLen);
    }
    if q.Good? && lastLen < q.next {
      ResponseEnd(s, max);
      CompleteFindsEnd(s, q.next, lastLen);
    }
  }

  // ---------- a buffer filled beyond what was received ----------

  const BLANK_LINE: seq<byte> := [CR, LF, CR, LF]

  // Once CR LF CR LF is among the first `received` octets, parsing the whole buffer succeeds exactly
  // when parsing the received octets does, with the same result, whatever the rest holds.
  lemma {:induction false} WholeBufferIsHarmless(whole: seq<byte>, received: nat, p: nat, max: nat)
    requires p + 4 <= received <= |whole| && whole[p..p + 4] == BLANK_LINE
    ensures var r, q := ParseRequest(whole, max), ParseRequest(whole[..received], max);
      (r.Good? <==> q.Good?) && (r.Good? ==> r == q && r.next <= received)
  {
    hide ParseRequest;
    var r, q := ParseRequest(whole, max), ParseRequest(whole[..received], max);
    if r.Good? {
      RequestEnd(whole, max);
      assert DoubleEnd(whole, p + 4) by {
        assert forall k :: p <= k < p + 4 ==> whole[k] == whole[p..p + 4][k - p];
      }
      RequestStable(whole, whole[..received], received, max);
    }
    if q.Good? { RequestStable(whole[..received], whole, received, max); }
  }
}
