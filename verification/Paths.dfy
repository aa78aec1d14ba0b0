/**
 Splitting a path into segments, which the router and the request do alike, and a query into pairs;
 both undo rendering.
 */
module Paths {
  import opened Bytes

  const SLASH: byte := 47
  const AMP: byte := 38
  const EQUALS: byte := 61

  type Text = seq<byte>

  // The position of the first `c` at or after `from`, or the length.
  function Find(s: Text, c: byte, from: nat): (r: nat)
    requires from <= |s|
    ensures from <= r <= |s| && (forall k :: from <= k < r ==> s[k] != c) && (r < |s| ==> s[r] == c)
    decreases |s| - from
  {
    if from == |s| || s[from] == c then from else Find(s, c, from + 1)
  }

  // ---------- texts and what separates them ----------

  function Join(texts: seq<Text>, sep: byte): Text {
    if texts == [] then [] else if |texts| == 1 then texts[0] else texts[0] + ([sep] + Join(texts[1..], sep))
  }

  predicate Free(texts: seq<Text>, c: byte) {
    forall k :: 0 <= k < |texts| ==> c !in texts[k]
  }

  // Every text is some texts without the separator, joined by it.
  lemma {:induction false} Splits(s: Text, sep: byte) returns (texts: seq<Text>)
    ensures texts != [] && Free(texts, sep) && Join(texts, sep) == s
    decreases |s|
  {
    hide Find;
    var n := Find(s, sep, 0);
    if n == |s| {
      texts := [s];
    } else {
      var later := Splits(s[n + 1..], sep);
      texts := [s[..n]] + later;
      assert texts[1..] == later;
      assert s == s[..n] + ([sep] + s[n + 1..]);
    }
  }

  function NonEmpty(texts: seq<Text>): seq<Text> {
    if texts == [] then [] else (if texts[0] == [] then [] else [texts[0]]) + NonEmpty(texts[1..])
  }

  // ---------- paths ----------

  // The stretches between slashes from `start` on, empty ones left out.
  function Pieces(s: Text, start: nat): seq<Text>
    requires start <= |s|
    decreases |s| - start
  {
    if start == |s| then []
    else if s[start] == SLASH then Pieces(s, start + 1)
    else
      var slash := Find(s, SLASH, start);
      [s[start..slash]] + (if slash == |s| then [] else Pieces(s, slash + 1))
  }

  // A final slash stands for a final empty segment.
  function Segments(s: Text): seq<Text> {
    Pieces(s, 0) + (if s != [] && s[|s| - 1] == SLASH then [[]] else [])
  }

  function PiecesFrom(s: Text, start: nat): seq<Text> {
    if start <= |s| then Pieces(s, start) else []
  }

  // One turn of the splitting loop.
  lemma PiecesStep(s: Text, start: nat, before: seq<Text>)
    requires start < |s|
    ensures var slash := Find(s, SLASH, start);
      before + PiecesFrom(s, start)
      == (if slash == start then before else before + [s[start..slash]]) + PiecesFrom(s, slash + 1)
  {
    var slash := Find(s, SLASH, start);
    if slash > start {
      assert Pieces(s, start) == [s[start..slash]] + PiecesFrom(s, slash + 1);
      hide Pieces;
      assert before + ([s[start..slash]] + PiecesFrom(s, slash + 1)) == before + [s[start..slash]] + PiecesFrom(s, slash + 1);
    }
  }

  method Split(path: Text) returns (segments: seq<Text>)
    ensures segments == Segments(path)
  {
    hide Pieces, Find, PiecesFrom;
    segments := [];
    var start := 0;
    PiecesEnds(path);
    while start < |path|
      invariant start <= |path| + 1
      invariant segments + PiecesFrom(path, start) == Pieces(path, 0)
    {
      PiecesStep(path, start, segments);
      var slash := Find(path, SLASH, start);
      if slash == start {
        start := start + 1;
        continue;
      }
      segments := segments + [path[start..slash]];
      start := slash + 1;
    }
    assert segments + [] == segments;
    if path != [] && path[|path| - 1] == SLASH { segments := segments + [[]]; }
  }

  lemma PiecesEnds(s: Text)
    ensures [] + PiecesFrom(s, 0) == Pieces(s, 0)
    ensures PiecesFrom(s, |s|) == PiecesFrom(s, |s| + 1) == []
  {}

  lemma {:induction false} PiecesShift(front: Text, s: Text, start: nat)
    requires start <= |s|
    ensures Pieces(front + s, |front| + start) == Pieces(s, start)
    decreases |s| - start
  {
    var t, n := front + s, |front|;
    if start < |s| {
      assert t[n + start] == s[start];
      if s[start] == SLASH {
        PiecesShift(front, s, start + 1);
      } else {
        var slash := Find(s, SLASH, start);
        if slash < |s| { PiecesShift(front, s, slash + 1); }
        PiecesShiftStep(front, s, start, slash);
      }
    }
  }

  lemma PiecesShiftStep(front: Text, s: Text, start: nat, slash: nat)
    requires start < |s| && s[start] != SLASH && slash == Find(s, SLASH, start)
    requires slash < |s| ==> Pieces(front + s, |front| + slash + 1) == Pieces(s, slash + 1)
    ensures Pieces(front + s, |front| + start) == Pieces(s, start)
  {
    hide Pieces, Find;
    var t, n := front + s, |front|;
    FindAt(t, SLASH, n + start, n + slash);
    assert t[n + start] == s[start] && t[n + start..n + slash] == s[start..slash];
    PieceIs(s, start, slash);
    PieceIs(t, n + start, n + slash);
  }

  lemma PieceIs(s: Text, start: nat, slash: nat)
    requires start < |s| && s[start] != SLASH && slash == Find(s, SLASH, start)
    ensures Pieces(s, start) == [s[start..slash]] + (if slash == |s| then [] else Pieces(s, slash + 1))
  {
    hide Find;
  }

  lemma FindAt(s: Text, c: byte, from: nat, to: nat)
    requires from <= to <= |s| && (forall k :: from <= k < to ==> s[k] != c) && (to < |s| ==> s[to] == c)
    ensures Find(s, c, from) == to
  {}

  lemma SkipSlash(rest: Text)
    ensures Pieces([SLASH] + rest, 0) == Pieces(rest, 0)
  {
    PiecesShift([SLASH], rest, 0);
  }

  lemma OnePiece(text: Text)
    requires SLASH !in text
    ensures Pieces(text, 0) == if text == [] then [] else [text]
  {
    if text != [] {
      FindAt(text, SLASH, 0, |text|);
      assert text[0..|text|] == text;
    }
  }

  lemma FirstPiece(first: Text, rest: Text)
    requires first != [] && SLASH !in first && rest != [] && rest[0] == SLASH
    ensures Pieces(first + rest, 0) == [first] + Pieces(rest, 0)
  {
    FindAt(first + rest, SLASH, 0, |first|);
    assert (first + rest)[|first|] == SLASH;
    assert (first + rest)[0..|first|] == first;
    PiecesShift(first, rest, 1);
  }

  lemma {:induction false} PiecesOfJoin(texts: seq<Text>)
    requires texts != [] && Free(texts, SLASH)
    ensures Pieces(Join(texts, SLASH), 0) == NonEmpty(texts)
  {
    hide Pieces;
    var first, rest := texts[0], Join(texts[1..], SLASH);
    if |texts| == 1 {
      OnePiece(first);
      assert NonEmpty(texts[1..]) == [];
    } else {
      PiecesOfJoin(texts[1..]);
      SkipSlash(rest);
      if first == [] {
        assert [] + ([SLASH] + rest) == [SLASH] + rest && [] + NonEmpty(texts[1..]) == NonEmpty(texts[1..]);
      } else {
        FirstPiece(first, [SLASH] + rest);
      }
    }
  }

  lemma {:induction false} LastOfJoin(texts: seq<Text>)
    requires |texts| > 1 && Free(texts, SLASH)
    ensures var s := Join(texts, SLASH);
      s != [] && (s[|s| - 1] == SLASH <==> texts[|texts| - 1] == [])
  {
    var rest, last := Join(texts[1..], SLASH), texts[|texts| - 1];
    assert Join(texts, SLASH) == texts[0] + ([SLASH] + rest);
    if |texts| > 2 {
      LastOfJoin(texts[1..]);
      assert texts[1..][|texts| - 2] == last;
    } else {
      assert rest == last;
      if last != [] { assert last[|last| - 1] in last; }
    }
  }

  // The segments of a path are the texts between its slashes that are not empty, and one more, empty,
  // if a slash ends it.
  lemma {:induction false} SegmentsOfJoin(texts: seq<Text>)
    requires texts != [] && Free(texts, SLASH)
    ensures Segments(Join(texts, SLASH)) == NonEmpty(texts) + (if |texts| > 1 && texts[|texts| - 1] == [] then [[]] else [])
  {
    hide Pieces, NonEmpty;
    PiecesOfJoin(texts);
    if |texts| > 1 { LastOfJoin(texts); } else if texts[0] != [] { assert texts[0][|texts[0]| - 1] in texts[0]; }
  }

  function Render(segments: seq<Text>): Text {
    if segments == [] then [] else [SLASH] + segments[0] + Render(segments[1..])
  }

  // Segments hold no slash, and only the last may be empty.
  predicate Renderable(segments: seq<Text>) {
    && segments != [] && Free(segments, SLASH)
    && (forall k :: 0 <= k < |segments| - 1 ==> segments[k] != [])
  }

  lemma {:induction false} RenderIsJoin(segments: seq<Text>)
    requires segments != []
    ensures Render(segments) == [SLASH] + Join(segments, SLASH)
  {
    if |segments| > 1 { RenderIsJoin(segments[1..]); }
  }

  lemma {:induction false} NonEmptyButLast(segments: seq<Text>)
    requires segments != [] && forall k :: 0 <= k < |segments| - 1 ==> segments[k] != []
    ensures segments == NonEmpty(segments) + (if segments[|segments| - 1] == [] then [[]] else [])
  {
    if |segments| > 1 { NonEmptyButLast(segments[1..]); } else { assert NonEmpty(segments[1..]) == []; }
  }

  // Splitting undoes rendering.
  lemma PathRoundTrip(segments: seq<Text>)
    requires Renderable(segments)
    ensures Segments(Render(segments)) == segments
  {
    hide Segments, Render;
    var texts := [[]] + segments;
    RenderIsJoin(segments);
    assert texts[1..] == segments && [] + ([SLASH] + Join(segments, SLASH)) == Render(segments);
    assert [] + NonEmpty(segments) == NonEmpty(segments);
    SegmentsOfJoin(texts);
    NonEmptyButLast(segments);
  }

  // ---------- queries ----------

  datatype Pair = Pair(key: Text, value: Text)

  function PairOf(text: Text): Pair {
    var eq := Find(text, EQUALS, 0);
    if eq < |text| then Pair(text[..eq], text[eq + 1..]) else Pair(text, [])
  }

  // The stretches between ampersands from `start` on; nothing follows a final one.
  function Entries(query: Text, start: nat): seq<Text>
    requires start <= |query|
    decreases |query| - start
  {
    if start == |query| then []
    else
      var amp := Find(query, AMP, start);
      [query[start..amp]] + (if amp == |query| then [] else Entries(query, amp + 1))
  }

  lemma EntriesStep(s: Text, start: nat, amp: nat, text: Text)
    requires start < |s| && amp == Find(s, AMP, start) && text == s[start..amp]
    ensures amp == |s| ==> Entries(s, start) == [text]
    ensures amp < |s| ==> Entries(s, start) == [text] + Entries(s, amp + 1)
  {
    hide Find;
  }

  lemma EntriesEnd(s: Text)
    ensures Entries(s, |s|) == []
  {}

  function Pairs(query: Text): (r: seq<Pair>)
    ensures |r| == |Entries(query, 0)| && forall k :: 0 <= k < |r| ==> r[k] == PairOf(Entries(query, 0)[k])
  {
    var entries := Entries(query, 0);
    seq(|entries|, k requires 0 <= k < |entries| => PairOf(entries[k]))
  }

  method ParsePair(text: Text) returns (p: Pair)
    ensures p == PairOf(text)
  {
    var eq := Find(text, EQUALS, 0);
    if eq < |text| { return Pair(text[..eq], text[eq + 1..]); }
    p := Pair(text, []);
  }

  method ParseQuery(query: Text) returns (params: seq<Pair>)
    ensures params == Pairs(query)
  {
    hide PairOf, Pairs, Entries, Find;
    params := [];
    var start := 0;
    ghost var all, rest := Entries(query, 0), Entries(query, 0);
    while start < |query|
      invariant start <= |query| ==> rest == Entries(query, start)
      invariant start > |query| ==> rest == []
      invariant |params| + |rest| == |all| && all[|params|..] == rest
      invariant forall k :: 0 <= k < |params| ==> params[k] == PairOf(all[k])
    {
      var amp := Find(query, AMP, start);
      EntriesStep(query, start, amp, query[start..amp]);
      assert rest[0] == query[start..amp] && rest[0] == all[|params|];
      var entry := ParsePair(query[start..amp]);
      rest := rest[1..];
      params := params + [entry];
      start := amp + 1;
    }
    EntriesEnd(query);
    assert params == Pairs(query);
  }

  function RenderPair(p: Pair): Text {
    p.key + [EQUALS] + p.value
  }

  predicate RenderablePair(p: Pair) {
    EQUALS !in p.key && AMP !in p.key && AMP !in p.value
  }

  lemma PairRoundTrip(p: Pair)
    requires RenderablePair(p)
    ensures PairOf(RenderPair(p)) == p && AMP !in RenderPair(p) && RenderPair(p) != []
  {
    var text := RenderPair(p);
    FindAt(text, EQUALS, 0, |p.key|);
    assert text[..|p.key|] == p.key && text[|p.key| + 1..] == p.value;
  }

  lemma EntriesShiftStep(front: Text, s: Text, start: nat, amp: nat)
    requires start < |s| && amp == Find(s, AMP, start)
    requires amp < |s| ==> Entries(front + s, |front| + amp + 1) == Entries(s, amp + 1)
    ensures Entries(front + s, |front| + start) == Entries(s, start)
  {
    hide Entries;
    var t, n := front + s, |front|;
    var text := s[start..amp];
    FindAt(t, AMP, n + start, n + amp);
    assert t[n + start..n + amp] == text;
    EntriesStep(s, start, amp, text);
    EntriesStep(t, n + start, n + amp, text);
  }

  lemma {:induction false} EntriesShift(front: Text, s: Text, start: nat)
    requires start <= |s|
    ensures Entries(front + s, |front| + start) == Entries(s, start)
    decreases |s| - start
  {
    hide Entries;
    if start == |s| {
      EntriesEnd(s);
      EntriesEnd(front + s);
    } else {
      var amp := Find(s, AMP, start);
      if amp < |s| { EntriesShift(front, s, amp + 1); }
      EntriesShiftStep(front, s, start, amp);
    }
  }

  lemma FirstEntry(first: Text, rest: Text)
    requires AMP !in first
    ensures Entries(first + ([AMP] + rest), 0) == [first] + Entries(rest, 0)
  {
    var s := first + ([AMP] + rest);
    FindAt(s, AMP, 0, |first|);
    assert s[0..|first|] == first;
    EntriesShift(first, [AMP] + rest, 1);
    EntriesShift([AMP], rest, 0);
  }

  lemma OneEntry(text: Text)
    requires AMP !in text && text != []
    ensures Entries(text, 0) == [text]
  {
    FindAt(text, AMP, 0, |text|);
    assert text[0..|text|] == text;
  }

  // Nothing follows a final ampersand.
  function Shown(texts: seq<Text>): seq<Text>
    requires texts != []
  {
    if texts[|texts| - 1] == [] then texts[..|texts| - 1] else texts
  }

  lemma {:induction false} EntriesOfJoin(texts: seq<Text>)
    requires texts != [] && Free(texts, AMP)
    ensures Entries(Join(texts, AMP), 0) == Shown(texts)
  {
    hide Entries;
    if |texts| == 1 {
      if texts[0] == [] { EntriesEnd([]); } else { OneEntry(texts[0]); }
    } else {
      FirstEntry(texts[0], Join(texts[1..], AMP));
      EntriesOfJoin(texts[1..]);
    }
  }

  // A pair is split at its first equals sign.
  predicate IsPairOf(p: Pair, text: Text) {
    if EQUALS in text then text == p.key + [EQUALS] + p.value && EQUALS !in p.key else p == Pair(text, [])
  }

  lemma PairIs(text: Text, p: Pair)
    ensures IsPairOf(p, text) <==> PairOf(text) == p
  {
    var eq := Find(text, EQUALS, 0);
    if EQUALS in text {
      assert text == text[..eq] + [EQUALS] + text[eq + 1..];
      if text == p.key + [EQUALS] + p.value && EQUALS !in p.key {
        FindAt(text, EQUALS, 0, |p.key|);
        assert text[..|p.key|] == p.key && text[|p.key| + 1..] == p.value;
      }
    }
  }

  // The parameters of a query are the texts between its ampersands but for an empty last one, each split
  // at its first equals sign.
  lemma {:induction false} PairsOfJoin(texts: seq<Text>)
    requires texts != [] && Free(texts, AMP)
    ensures var r := Pairs(Join(texts, AMP));
      |r| == |Shown(texts)| && forall k :: 0 <= k < |r| ==> IsPairOf(r[k], Shown(texts)[k])
  {
    hide Entries, PairOf, IsPairOf;
    EntriesOfJoin(texts);
    forall k | 0 <= k < |Shown(texts)| ensures IsPairOf(PairOf(Shown(texts)[k]), Shown(texts)[k]) {
      PairIs(Shown(texts)[k], PairOf(Shown(texts)[k]));
    }
  }

  function RenderPairs(params: seq<Pair>): (r: seq<Text>)
    ensures |r| == |params| && forall k :: 0 <= k < |r| ==> r[k] == RenderPair(params[k])
  {
    seq(|params|, k requires 0 <= k < |params| => RenderPair(params[k]))
  }

  function RenderQuery(params: seq<Pair>): Text {
    Join(RenderPairs(params), AMP)
  }

  // Parsing a query undoes rendering.
  lemma {:induction false} QueryRoundTrip(params: seq<Pair>)
    requires forall k :: 0 <= k < |params| ==> RenderablePair(params[k])
    ensures Pairs(RenderQuery(params)) == params
  {
    hide Entries, RenderPair, PairOf, RenderPairs, Join;
    var texts := RenderPairs(params);
    forall k | 0 <= k < |params| ensures PairOf(texts[k]) == params[k] && AMP !in texts[k] && texts[k] != [] {
      PairRoundTrip(params[k]);
    }
    if params == [] { NoEntries(); } else { EntriesOfJoin(texts); }
  }

  lemma NoEntries()
    ensures Entries(Join([], AMP), 0) == [] && RenderPairs([]) == []
  {}
}
