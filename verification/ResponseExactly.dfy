/**
 The same for responses: the parser accepts exactly the spellings of their heads.
 */
module ResponseExactly {
  import opened Bytes
  import opened HeadSpec
  import opened HeadExactly
  import T = HeadText

  // Where the parts of a head stand that begins the buffer.
  function ResponseAt(r: T.Response): ParsedResponse {
    var reason := 8 + |r.gap| + 3 + |r.lead|;
    ParsedResponse(r.minor, r.status, Slice(reason, |r.reason|), HeadersAt(r.fields.lines, reason + |r.reason| + |r.end|))
  }

  predicate ResponseParts(s: seq<byte>, r: T.Response) {
    var b := 8 + |r.gap|;
    var c := b + 3 + |r.lead| + |r.reason|;
    && At(s, 0, T.HTTP + [DIGITS[r.minor]]) && At(s, 8, r.gap) && At(s, b, T.ThreeDigits(r.status))
    && At(s, b + 3, r.lead) && At(s, b + 3 + |r.lead|, r.reason) && At(s, c, r.end) && At(s, c + |r.end|, T.SpellFields(r.fields))
  }

  lemma PartsOfResponse(s: seq<byte>, r: T.Response)
    ensures At(s, 0, T.SpellResponse(r)) <==> ResponseParts(s, r)
    ensures |T.SpellResponse(r)|
      == 8 + |r.gap| + 3 + |r.lead| + |r.reason| + |r.end| + |T.SpellLines(r.fields.lines)| + |r.fields.end|
  {
    hide At, T.SpellLines;
    var version, status, fields := T.HTTP + [DIGITS[r.minor]], T.ThreeDigits(r.status), T.SpellFields(r.fields);
    var b := version + r.gap;
    var c := b + status;
    var d := c + (r.lead + r.reason);
    assert |version| == 8;
    AtJoin(s, 0, version, r.gap);
    AtJoin(s, 0, b, status);
    AtJoin(s, 0, c, r.lead + r.reason);
    AtJoin(s, |c|, r.lead, r.reason);
    AtJoin(s, 0, d, r.end);
    AtJoin(s, 0, d + r.end, fields);
  }

  lemma {:induction false} ThreeDigitsRead(s: seq<byte>, b: nat, n: nat)
    requires b + 3 <= |s| && n < 1000
    ensures At(s, b, T.ThreeDigits(n)) <==>
      && IsDigit(s[b]) && IsDigit(s[b + 1]) && IsDigit(s[b + 2])
      && n == 100 * Digit(s[b]) + 10 * Digit(s[b + 1]) + Digit(s[b + 2])
  {
    DigitIs(s[b], n / 100);
    DigitIs(s[b + 1], n / 10 % 10);
    DigitIs(s[b + 2], n % 10);
    if IsDigit(s[b]) && IsDigit(s[b + 1]) && IsDigit(s[b + 2]) {
      ThreePlaces(n, Digit(s[b]), Digit(s[b + 1]), Digit(s[b + 2]));
    }
    ThreeAt(s, b, n);
    hide *;
  }

  lemma ThreePlaces(n: nat, x: nat, y: nat, z: nat)
    requires x < 10 && y < 10 && z < 10
    ensures n == 100 * x + 10 * y + z <==> n / 100 == x && n / 10 % 10 == y && n % 10 == z
  {}

  lemma ThreeAt(s: seq<byte>, b: nat, n: nat)
    requires b + 3 <= |s| && n < 1000
    ensures At(s, b, T.ThreeDigits(n)) <==>
      s[b] == DIGITS[n / 100] && s[b + 1] == DIGITS[n / 10 % 10] && s[b + 2] == DIGITS[n % 10]
  {
    hide DIGITS;
    assert s[b..b + 3] == [s[b], s[b + 1], s[b + 2]];
  }

  // The reason begins behind the spaces.
  lemma {:induction false} SpacesDropped(s: seq<byte>, t: Slice, n: nat)
    requires t.off + t.len <= |s| && n <= t.len
    ensures DropSpaces(s, t) == Slice(t.off + n, t.len - n)
      <==> (n < t.len ==> s[t.off + n] != SP) && forall k :: t.off <= k < t.off + n ==> s[k] == SP
    decreases n
  {
    if n > 0 {
      if s[t.off] == SP {
        SpacesDropped(s, Slice(t.off + 1, t.len - 1), n - 1);
      }
    }
  }

  // What stands between the status and the line end.
  lemma ReasonRead(s: seq<byte>, i: nat, lead: seq<byte>, reason: seq<byte>, end: seq<byte>)
    requires At(s, i, lead) && At(s, i + |lead|, reason) && At(s, i + |lead| + |reason|, end) && T.IsEnd(end)
    requires T.AllSpaces(lead) && T.IsText(reason) && (if lead == [] then reason == [] else reason == [] || reason[0] != SP)
    ensures var n := |lead| + |reason|;
      && LineFrom(s, i, i) == Good(Slice(i, n), i + n + |end|) && i + n < |s|
      && Reason(s, Slice(i, n)) == Good(Slice(i + |lead|, |reason|), 0)
  {
    hide At, LineFrom, DropSpaces;
    var e := i + |lead| + |reason|;
    forall j | i <= j < e ensures j < |s| && NoControl(s[j]) && (j < i + |lead| ==> s[j] == SP) {
      if j < i + |lead| { AtOctet(s, i, lead, j - i); } else { AtOctet(s, i + |lead|, reason, j - i - |lead|); }
    }
    AtOctet(s, e, end, 0);
    LineStops(s, i, i, e, end);
    if reason != [] { AtOctet(s, i + |lead|, reason, 0); }
    SpacesDropped(s, Slice(i, |lead| + |reason|), |lead|);
  }

  lemma ReasonIs(s: seq<byte>, i: nat) returns (lead: seq<byte>, reason: seq<byte>, end: seq<byte>)
    requires i <= |s| && LineFrom(s, i, i).Good? && Reason(s, LineFrom(s, i, i).value).Good?
    ensures var r := LineFrom(s, i, i);
      && r.next == i + |lead| + |reason| + |end| && Reason(s, r.value).value == Slice(i + |lead|, |reason|)
    ensures T.AllSpaces(lead) && T.IsText(reason) && (if lead == [] then reason == [] else reason == [] || reason[0] != SP)
    ensures T.IsEnd(end) && At(s, i, lead) && At(s, i + |lead|, reason) && At(s, i + |lead| + |reason|, end)
  {
    hide LineFrom, T.IsEnd;
    var r := LineFrom(s, i, i);
    LineFound(s, i, i);
    var e, t := i + r.value.len, Reason(s, r.value).value;
    SpacesDropped(s, r.value, t.off - i);
    lead, reason, end := s[i..t.off], s[t.off..e], s[e..r.next];
  }

  lemma ResponseFacts(s: seq<byte>, r: T.Response)
    requires T.ValidResponse(r) && ResponseParts(s, r)
    ensures r.gap != [] && T.AllSpaces(r.gap) && T.IsEnd(r.end) && T.ValidFields(r.fields)
    ensures T.AllSpaces(r.lead) && T.IsText(r.reason)
    ensures if r.lead == [] then r.reason == [] else r.reason == [] || r.reason[0] != SP
    ensures var b := 8 + |r.gap|;
      At(s, 0, T.HTTP + [DIGITS[r.minor]]) && At(s, 8, r.gap) && At(s, b, T.ThreeDigits(r.status))
    ensures var b := 8 + |r.gap|;
      var c := b + 3 + |r.lead| + |r.reason|;
      && At(s, b + 3, r.lead) && At(s, b + 3 + |r.lead|, r.reason) && At(s, c, r.end)
      && At(s, c + |r.end|, T.SpellFields(r.fields))
  {
    hide At, T.AllSpaces, T.IsText, T.IsEnd, T.ValidFields, T.SpellFields;
  }

  lemma StatusFirst(s: seq<byte>, b: nat, status: nat)
    requires status < 1000 && At(s, b, T.ThreeDigits(status))
    ensures b + 3 <= |s| && s[b] != SP
  {
    ThreeDigitsRead(s, b, status);
  }

  lemma TailIs(s: seq<byte>, b: nat, max: nat)
    requires b + 3 < |s| && IsDigit(s[b]) && IsDigit(s[b + 1]) && IsDigit(s[b + 2])
    requires LineFrom(s, b + 3, b + 3).Good?
    requires Reason(s, LineFrom(s, b + 3, b + 3).value).Good?
    requires HeadersFrom(s, LineFrom(s, b + 3, b + 3).next, [], max).Good?
    ensures var line := LineFrom(s, b + 3, b + 3);
      var headers := HeadersFrom(s, line.next, [], max);
      ResponseTail(s, b, max) == Good((100 * Digit(s[b]) + 10 * Digit(s[b + 1]) + Digit(s[b + 2]),
                                       Reason(s, line.value).value, headers.value), headers.next)
  {
    hide LineFrom, Reason, HeadersFrom;
  }

  // A head in front of anything is read to its end.
  lemma ResponseRead(s: seq<byte>, r: T.Response, max: nat)
    requires T.ValidResponse(r) && |r.fields.lines| <= max && At(s, 0, T.SpellResponse(r))
    ensures ParseResponse(s, max) == Good(ResponseAt(r), |T.SpellResponse(r)|)
  {
    hide *;
    var b := 8 + |r.gap|;
    PartsOfResponse(s, r);
    ResponseFacts(s, r);
    ReasonRead(s, b + 3, r.lead, r.reason, r.end);
    StatusFirst(s, b, r.status);
    ThreeDigitsRead(s, b, r.status);
    VersionIs(s, 0, r.minor);
    SpacesAre(s, 8, r.gap);
    FieldsRead(s, b + 3 + |r.lead| + |r.reason| + |r.end|, r.fields, max);
    TailIs(s, b, max);
    ResponseIsRead(s, max, r.minor, b);
    PlaceOf(r);
  }

  lemma PlaceOf(r: T.Response)
    ensures var reason := 8 + |r.gap| + 3 + |r.lead|;
      ResponseAt(r)
      == ParsedResponse(r.minor, r.status, Slice(reason, |r.reason|), HeadersAt(r.fields.lines, reason + |r.reason| + |r.end|))
  {}

  lemma ResponseIsRead(s: seq<byte>, max: nat, minor: nat, b: nat)
    requires 9 <= b < |s| && Version(s, 0) == Good(minor, 8) && s[8] == SP && SpacesFrom(s, 9) == Good((), b)
    requires ResponseTail(s, b, max).Good?
    ensures var tail := ResponseTail(s, b, max);
      ParseResponse(s, max) == Good(ParsedResponse(minor, tail.value.0, tail.value.1, tail.value.2), tail.next)
  {
    hide SpacesFrom, ResponseTail, Version;
  }

  lemma {:induction false} ResponseLineIs(s: seq<byte>, max: nat) returns (b: nat)
    requires ParseResponse(s, max).Good?
    ensures Version(s, 0).Good? && Version(s, 0).next == 8 && 9 <= b < |s| && s[8] == SP && SpacesFrom(s, 9) == Good((), b)
    ensures b + 3 < |s| && IsDigit(s[b]) && IsDigit(s[b + 1]) && IsDigit(s[b + 2])
    ensures LineFrom(s, b + 3, b + 3).Good? && LineFrom(s, b + 3, b + 3).next <= |s|
    ensures Reason(s, LineFrom(s, b + 3, b + 3).value).Good?
    ensures HeadersFrom(s, LineFrom(s, b + 3, b + 3).next, [], max).Good?
    ensures ResponseTail(s, b, max).Good?
  {
    hide SpacesFrom, Version, LineFrom, Reason, HeadersFrom;
    b := SpacesFrom(s, 9).next;
    assert SpacesFrom(s, 9).value == ();
  }

  lemma ResponseMade(s: seq<byte>, r: T.Response)
    requires r.gap != [] && T.AllSpaces(r.gap) && T.IsEnd(r.end) && T.ValidFields(r.fields)
    requires T.AllSpaces(r.lead) && T.IsText(r.reason)
    requires if r.lead == [] then r.reason == [] else r.reason == [] || r.reason[0] != SP
    ensures T.ValidResponse(r)
    ensures var b := 8 + |r.gap|;
      var c := b + 3 + |r.lead| + |r.reason|;
      var first := At(s, 0, T.HTTP + [DIGITS[r.minor]]) && At(s, 8, r.gap) && At(s, b, T.ThreeDigits(r.status));
      var second := At(s, b + 3, r.lead) && At(s, b + 3 + |r.lead|, r.reason) && At(s, c, r.end);
      first && second && At(s, c + |r.end|, T.SpellFields(r.fields)) ==> ResponseParts(s, r)
  {
    hide At, T.AllSpaces, T.IsText, T.IsEnd, T.ValidFields, T.SpellFields;
  }

  lemma StatusFound(s: seq<byte>, b: nat) returns (status: nat)
    requires b + 3 < |s| && IsDigit(s[b]) && IsDigit(s[b + 1]) && IsDigit(s[b + 2])
    ensures status == 100 * Digit(s[b]) + 10 * Digit(s[b + 1]) + Digit(s[b + 2]) < 1000 && At(s, b, T.ThreeDigits(status))
  {
    status := 100 * Digit(s[b]) + 10 * Digit(s[b + 1]) + Digit(s[b + 2]);
    ThreeDigitsRead(s, b, status);
  }

  // A head that was read is the spelling of one.
  lemma ResponseIs(s: seq<byte>, max: nat) returns (r: T.Response)
    requires ParseResponse(s, max).Good?
    ensures T.ValidResponse(r) && |r.fields.lines| <= max && At(s, 0, T.SpellResponse(r))
    ensures ParseResponse(s, max) == Good(ResponseAt(r), |T.SpellResponse(r)|)
  {
    hide *;
    var b := ResponseLineIs(s, max);
    var minor := MinorFound(s, 0);
    GapIs(s, 8, b);
    var status := StatusFound(s, b);
    var lead, reason, end := ReasonIs(s, b + 3);
    var f := FieldsFound(s, LineFrom(s, b + 3, b + 3).next, max);
    r := T.Response(minor, s[8..b], status, lead, reason, end, f);
    ResponseMade(s, r);
    PartsOfResponse(s, r);
    ResponseRead(s, r, max);
  }

  predicate ReadAs(s: seq<byte>, max: nat, r: T.Response, p: ParsedResponse, n: nat) {
    && T.ValidResponse(r) && |r.fields.lines| <= max && At(s, 0, T.SpellResponse(r))
    && n == |T.SpellResponse(r)| && p == ResponseAt(r)
  }

  // The parser succeeds exactly if the buffer begins with a head of at most `max` lines, reads all of it
  // and nothing behind it, and says where its parts stand.
  lemma Exactly(s: seq<byte>, max: nat, p: ParsedResponse, n: nat)
    ensures ParseResponse(s, max) == Good(p, n) <==> exists r :: ReadAs(s, max, r, p, n)
  {
    hide ParseResponse, T.ValidResponse, T.SpellResponse, At, ResponseAt;
    if r :| ReadAs(s, max, r, p, n) { ResponseRead(s, r, max); }
    if ParseResponse(s, max) == Good(p, n) {
      var r := ResponseIs(s, max);
      assert ReadAs(s, max, r, p, n);
    }
  }

  // The reported slices hold the reason and, of every line, the name and the value.
  lemma Texts(s: seq<byte>, r: T.Response)
    requires T.ValidResponse(r) && At(s, 0, T.SpellResponse(r))
    ensures var p := ResponseAt(r);
      && p.minor == r.minor && p.status == r.status
      && p.msg.off + p.msg.len <= |s| && TextAt(s, p.msg) == r.reason
      && |p.headers| == |r.fields.lines| && forall k :: 0 <= k < |p.headers| ==> Shows(s, p.headers[k], r.fields.lines[k])
  {
    hide *;
    var reason := 8 + |r.gap| + 3 + |r.lead|;
    PartsOfResponse(s, r);
    ResponseFacts(s, r);
    PlaceOf(r);
    AtSlice(s, reason, r.reason);
    FieldsShown(s, reason + |r.reason| + |r.end|, r.fields);
  }
}
