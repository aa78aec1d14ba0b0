/**
 What a request says, told from the text of its head, and the proof that this is what is understood.
 */
module RequestMeaning {
  import opened Bytes
  import opened Messages
  import opened Decimal
  import opened Paths
  import opened HeadSpec
  import opened HeadExactly
  import opened RequestSpec
  import T = HeadText

  // ---------- what the lines say ----------

  predicate IsLength(l: T.Line) {
    l.Named? && (l.name == Ascii("Content-Length") || l.name == Ascii("content-length"))
  }

  predicate NoLength(lines: seq<T.Line>) {
    forall k :: 0 <= k < |lines| ==> !IsLength(lines[k])
  }

  // The first line that names a length has a value that starts with `n`.
  ghost predicate Announces(lines: seq<T.Line>, n: nat) {
    n < TWO_TO_THE_64
    && exists k :: 0 <= k < |lines| && IsLength(lines[k]) && NoLength(lines[..k]) && StartsWith(lines[k].value, n)
  }

  predicate IsCoding(l: T.Line) {
    l.Named? && (l.name == Ascii("Transfer-Encoding") || l.name == Ascii("transfer-encoding"))
  }

  ghost predicate IsInside(part: seq<byte>, text: seq<byte>) {
    exists before, after :: text == before + part + after
  }

  ghost predicate NamesChunked(lines: seq<T.Line>) {
    exists k :: 0 <= k < |lines| && IsCoding(lines[k]) && IsInside(Ascii("chunked"), lines[k].value)
  }

  // Up to its first question mark the target is texts between slashes, of which the path has the ones that
  // are not empty, and an empty one for a final slash; behind it, texts between ampersands.
  ghost predicate TargetSays(target: seq<byte>, path: seq<Text>, params: seq<Pair>) {
    exists texts, entries :: TargetSplit(target, texts, entries) && path == PathOf(texts) && AreParams(entries, params)
  }

  predicate TargetSplit(target: seq<byte>, texts: seq<Text>, entries: seq<Text>) {
    && texts != [] && Free(texts, SLASH) && '?' as int !in Join(texts, SLASH) && Free(entries, AMP)
    && target == Join(texts, SLASH) + (if entries == [] then [] else ['?' as int] + Join(entries, AMP))
  }

  function PathOf(texts: seq<Text>): seq<Text>
    requires texts != []
  {
    NonEmpty(texts) + (if |texts| > 1 && texts[|texts| - 1] == [] then [[]] else [])
  }

  // Every entry but an empty last one is a parameter, split at its first equals sign.
  predicate AreParams(entries: seq<Text>, params: seq<Pair>) {
    if entries == [] then params == []
    else |params| == |Shown(entries)| && forall k :: 0 <= k < |params| ==> IsPairOf(params[k], Shown(entries)[k])
  }

  // A line that continues the one before it counts as a field without a name.
  predicate FieldsSay(lines: seq<T.Line>, fields: seq<Field>) {
    && |fields| == |lines|
    && forall k :: 0 <= k < |lines| ==> fields[k] == Field(if lines[k].Named? then lines[k].name else [], lines[k].value)
  }

  // The request knows what the text says.
  ghost predicate Knows(h: Head, r: T.Request) {
    && h.method_ == r.method_ && h.target == r.target && h.version == Ascii(if r.minor == 0 then "1.0" else "1.1")
    && FieldsSay(r.fields.lines, h.fields)
    && (h.contentLength.None? <==> NoLength(r.fields.lines))
    && (forall n: nat :: h.contentLength == Some(n) <==> Announces(r.fields.lines, n))
    && (h.chunked <==> NoLength(r.fields.lines) && NamesChunked(r.fields.lines))
    && TargetSays(r.target, h.path, h.params)
  }

  // ---------- fields and lines ----------

  lemma {:induction false} FirstFound(lines: seq<T.Line>, fields: seq<Field>) returns (k: nat)
    requires FieldsSay(lines, fields)
    ensures k <= |lines| && NoLength(lines[..k]) && (k < |lines| ==> IsLength(lines[k]))
    ensures First(fields, CONTENT_LENGTH, CONTENT_LENGTH_LOWER) == if k == |lines| then None else Some(lines[k].value)
  {
    if lines == [] {
      k := 0;
    } else if IsLength(lines[0]) {
      k := 0;
    } else {
      k := FirstFound(lines[1..], fields[1..]);
      NamesNotEmpty();
      assert lines[..k + 1] == [lines[0]] + lines[1..][..k];
      k := k + 1;
    }
  }

  lemma NamesNotEmpty()
    ensures CONTENT_LENGTH != [] && CONTENT_LENGTH_LOWER != [] && TRANSFER_ENCODING != [] && TRANSFER_ENCODING_LOWER != []
  {
    assert |CONTENT_LENGTH| == 14 && |CONTENT_LENGTH_LOWER| == 14;
    assert |TRANSFER_ENCODING| == 17 && |TRANSFER_ENCODING_LOWER| == 17;
  }

  lemma NoneBefore(lines: seq<T.Line>, k: nat, j: nat)
    requires k <= |lines| && NoLength(lines[..k]) && j < k
    ensures !IsLength(lines[j])
  {
    assert lines[..k][j] == lines[j];
  }

  lemma FirstIsUnique(lines: seq<T.Line>, k: nat, j: nat)
    requires k < |lines| && IsLength(lines[k]) && NoLength(lines[..k])
    requires j < |lines| && IsLength(lines[j]) && NoLength(lines[..j])
    ensures j == k
  {
    hide IsLength, NoLength;
    if j < k { NoneBefore(lines, k, j); }
    if k < j { NoneBefore(lines, j, k); }
  }

  lemma LengthUnderstood(lines: seq<T.Line>, fields: seq<Field>)
    requires FieldsSay(lines, fields)
    ensures var length := First(fields, CONTENT_LENGTH, CONTENT_LENGTH_LOWER);
      && (length.None? <==> NoLength(lines))
      && (length.Some? ==> forall n: nat :: FromChars(length.value) == Some(n) <==> Announces(lines, n))
      && (length.None? ==> forall n: nat :: !Announces(lines, n))
  {
    hide First, FromChars, IsLength, StartsWith;
    var k := FirstFound(lines, fields);
    if k == |lines| {
      assert lines[..k] == lines;
    } else {
      forall n: nat ensures FromChars(lines[k].value) == Some(n) <==> Announces(lines, n) {
        ReadsExactly(lines[k].value, n);
        if Announces(lines, n) {
          var j :| 0 <= j < |lines| && IsLength(lines[j]) && NoLength(lines[..j]) && StartsWith(lines[j].value, n);
          FirstIsUnique(lines, k, j);
        }
      }
    }
  }

  lemma ContainsInside(text: seq<byte>, part: seq<byte>)
    ensures Contains(text, part) <==> IsInside(part, text)
  {
    if Contains(text, part) {
      var k :| 0 <= k <= |text| && PartAt(text, k, part);
      assert text == text[..k] + part + text[k + |part|..];
    }
    if IsInside(part, text) {
      var before, after :| text == before + part + after;
      assert text[|before|..|before| + |part|] == part;
      assert PartAt(text, |before|, part);
    }
  }

  lemma ChunkedUnderstood(lines: seq<T.Line>, fields: seq<Field>)
    requires FieldsSay(lines, fields)
    ensures IsChunked(fields) <==> NamesChunked(lines)
  {
    hide Contains, IsInside;
    NamesNotEmpty();
    if IsChunked(fields) {
      var f :| f in fields && (f.name == TRANSFER_ENCODING || f.name == TRANSFER_ENCODING_LOWER) && Contains(f.value, CHUNKED);
      var k :| 0 <= k < |fields| && fields[k] == f;
      ContainsInside(f.value, CHUNKED);
      assert IsCoding(lines[k]);
    }
    if NamesChunked(lines) {
      var k :| 0 <= k < |lines| && IsCoding(lines[k]) && IsInside(CHUNKED, lines[k].value);
      ContainsInside(lines[k].value, CHUNKED);
      assert fields[k] in fields;
    }
  }

  lemma {:induction false} TargetUnderstood(target: seq<byte>)
    ensures var mark := Find(target, QUESTION, 0);
      TargetSays(target, Segments(target[..mark]), if mark < |target| then Pairs(target[mark + 1..]) else [])
  {
    hide *;
    var mark := Find(target, QUESTION, 0);
    var texts := Splits(target[..mark], SLASH);
    SegmentsOfJoin(texts);
    if mark < |target| {
      var entries := Splits(target[mark + 1..], AMP);
      PairsOfJoin(entries);
      MarkSplits(target, mark);
      WithQuery(target, texts, entries, Pairs(target[mark + 1..]));
    } else {
      WithoutQuery(target, texts);
    }
  }

  lemma MarkSplits(target: seq<byte>, mark: nat)
    requires mark < |target| && target[mark] == QUESTION
    ensures target == target[..mark] + ([QUESTION] + target[mark + 1..])
  {}

  lemma {:induction false} WithQuery(target: seq<byte>, texts: seq<Text>, entries: seq<Text>, params: seq<Pair>)
    requires texts != [] && Free(texts, SLASH) && QUESTION !in Join(texts, SLASH)
    requires entries != [] && Free(entries, AMP)
    requires target == Join(texts, SLASH) + ([QUESTION] + Join(entries, AMP))
    requires |params| == |Shown(entries)| && forall k :: 0 <= k < |params| ==> IsPairOf(params[k], Shown(entries)[k])
    ensures TargetSays(target, NonEmpty(texts) + (if |texts| > 1 && texts[|texts| - 1] == [] then [[]] else []), params)
  {
    hide IsPairOf, Shown, Free, Join, NonEmpty;
    assert TargetSplit(target, texts, entries);
    assert AreParams(entries, params);
  }

  lemma {:induction false} WithoutQuery(target: seq<byte>, texts: seq<Text>)
    requires QUESTION !in target && texts != [] && Free(texts, SLASH) && Join(texts, SLASH) == target
    ensures TargetSays(target, NonEmpty(texts) + (if |texts| > 1 && texts[|texts| - 1] == [] then [[]] else []), [])
  {
    hide Join, NonEmpty;
    assert target + [] == target;
    assert TargetSplit(target, texts, []) && AreParams([], []);
  }

  lemma FieldsShow(s: seq<byte>, headers: seq<Header>, lines: seq<T.Line>)
    requires |headers| == |lines| && forall k :: 0 <= k < |headers| ==> Shows(s, headers[k], lines[k])
    ensures (forall h :: h in headers ==> Fits(h, |s|)) && FieldsSay(lines, FieldsOf(s, headers))
  {
    forall h | h in headers ensures Fits(h, |s|) {
      var k :| 0 <= k < |headers| && headers[k] == h;
      assert Shows(s, headers[k], lines[k]);
    }
    forall k | 0 <= k < |lines|
      ensures FieldOf(s, headers[k]) == Field(if lines[k].Named? then lines[k].name else [], lines[k].value)
    {
      assert Shows(s, headers[k], lines[k]);
    }
  }

  // ---------- what is understood ----------

  // What a request that knew nothing makes of a parsed head.
  lemma MeaningIs(s: seq<byte>, p: ParsedRequest)
    requires (forall h :: h in p.headers ==> Fits(h, |s|))
    requires p.method_.off + p.method_.len <= |s| && p.path.off + p.path.len <= |s|
    ensures var u, fields, target := Meaning(NOTHING, s, p), FieldsOf(s, p.headers), HeadSpec.TextAt(s, p.path);
      var length, mark := First(fields, CONTENT_LENGTH, CONTENT_LENGTH_LOWER), Find(target, QUESTION, 0);
      var known := if length.Some? then FromChars(length.value) else None;
      && (u.1 <==> length.None? || known.Some?)
      && (u.1 ==>
            u.0 == Head(HeadSpec.TextAt(s, p.method_), target, Ascii(if p.minor == 0 then "1.0" else "1.1"), fields,
                        known, known.None? && IsChunked(fields),
                        Segments(target[..mark]), if mark < |target| then Pairs(target[mark + 1..]) else []))
  {
    hide First, FromChars, IsChunked, Segments, Pairs, Find, FieldsOf, HeadSpec.TextAt;
    var target := HeadSpec.TextAt(s, p.path);
    var mark := Find(target, QUESTION, 0);
    assert [] + Segments(target[..mark]) == Segments(target[..mark]);
    var params := if mark < |target| then Pairs(target[mark + 1..]) else [];
    assert [] + params == params;
  }

  lemma KnowsParts(h: Head, r: T.Request, known: Option<nat>)
    requires h.method_ == r.method_ && h.target == r.target && h.version == Ascii(if r.minor == 0 then "1.0" else "1.1")
    requires FieldsSay(r.fields.lines, h.fields) && TargetSays(r.target, h.path, h.params) && h.contentLength == known
    requires (known.None? <==> NoLength(r.fields.lines)) && forall n: nat :: known == Some(n) <==> Announces(r.fields.lines, n)
    requires h.chunked <==> known.None? && NamesChunked(r.fields.lines)
    ensures Knows(h, r)
  {
    hide FieldsSay, TargetSays, NoLength, Announces, NamesChunked;
  }

  lemma MeaningKnows(s: seq<byte>, p: ParsedRequest, r: T.Request)
    requires p.method_.off + p.method_.len <= |s| && HeadSpec.TextAt(s, p.method_) == r.method_
    requires p.path.off + p.path.len <= |s| && HeadSpec.TextAt(s, p.path) == r.target
    requires p.minor == r.minor && |p.headers| == |r.fields.lines|
    requires forall k :: 0 <= k < |p.headers| ==> Shows(s, p.headers[k], r.fields.lines[k])
    ensures forall h :: h in p.headers ==> Fits(h, |s|)
    ensures var u := Meaning(NOTHING, s, p);
      && (u.1 <==> NoLength(r.fields.lines) || exists n: nat :: Announces(r.fields.lines, n))
      && (u.1 ==> Knows(u.0, r))
  {
    hide *;
    FieldsShow(s, p.headers, r.fields.lines);
    var u, fields := Meaning(NOTHING, s, p), FieldsOf(s, p.headers);
    MeaningIs(s, p);
    LengthUnderstood(r.fields.lines, fields);
    ChunkedUnderstood(r.fields.lines, fields);
    TargetUnderstood(r.target);
    var length := First(fields, CONTENT_LENGTH, CONTENT_LENGTH_LOWER);
    var known := if length.Some? then FromChars(length.value) else None;
    if known.Some? { assert Announces(r.fields.lines, known.value); }
    if u.1 { KnowsParts(u.0, r, known); }
  }

  // Any head of at most 32 lines, in front of anything, is understood as its text says, unless it names a
  // length that is no number.
  lemma Understands(r: T.Request, rest: seq<byte>)
    requires T.ValidRequest(r) && |r.fields.lines| <= 32
    ensures var u := Understood(NOTHING, T.SpellRequest(r) + rest);
      && (u.1 <==> NoLength(r.fields.lines) || exists n: nat :: Announces(r.fields.lines, n))
      && (u.1 ==> Knows(u.0, r))
  {
    hide ParseRequest, Meaning, T.ValidRequest, T.SpellRequest, Knows, NoLength, Announces, Shows, RequestAt;
    var s, p := T.SpellRequest(r) + rest, RequestAt(r);
    assert At(s, 0, T.SpellRequest(r)) by { assert s[..|T.SpellRequest(r)|] == T.SpellRequest(r); }
    RequestRead(s, r, 32);
    RequestTexts(s, r);
    MeaningKnows(s, p, r);
  }

  // A head of more lines than 32 is not understood.
  lemma {:induction false} TooManyLines(r: T.Request, rest: seq<byte>)
    requires T.ValidRequest(r) && |r.fields.lines| > 32
    ensures Understood(NOTHING, T.SpellRequest(r) + rest) == (NOTHING, false)
  {
    hide ParseRequest, T.ValidRequest, T.SpellRequest, RequestAt, Meaning;
    var s, n := T.SpellRequest(r) + rest, |r.fields.lines|;
    assert At(s, 0, T.SpellRequest(r)) by { assert s[..|T.SpellRequest(r)|] == T.SpellRequest(r); }
    RequestRead(s, r, n);
    if ParseRequest(s, 32).Good? {
      var other := RequestIs(s, 32);
      RequestRead(s, other, n);
      LinesAt(r);
      LinesAt(other);
    }
  }

  lemma LinesAt(r: T.Request)
    ensures |RequestAt(r).headers| == |r.fields.lines|
  {}
}
