/**
 The head of a response as it is printed, and the proof that the parser reads it back.
 */
module ResponseHead {
  import opened Bytes
  import opened HeadSpec
  import opened HeadExactly
  import ResponseExactly
  import T = HeadText

  datatype Head = Head(version: seq<byte>, status: seq<byte>, reason: seq<byte>, fields: seq<Field>)

  function StatusLine(version: seq<byte>, status: seq<byte>, reason: seq<byte>): seq<byte> {
    [72, 84, 84, 80, 47] + version + [SP] + status + [SP] + reason + CRLF
  }

  function FieldLine(f: Field): seq<byte> {
    f.name + [COLON, SP] + f.value + CRLF
  }

  function FieldLines(fields: seq<Field>): seq<byte> {
    if fields == [] then [] else FieldLines(fields[..|fields| - 1]) + FieldLine(fields[|fields| - 1])
  }

  // The head without the blank line that ends it.
  function Printed(h: Head): seq<byte> {
    StatusLine(h.version, h.status, h.reason) + FieldLines(h.fields)
  }

  // ---------- what can be read back ----------

  predicate ValidField(f: Field) {
    T.IsToken(f.name) && T.IsText(f.value)
  }

  predicate ValidFields(fields: seq<Field>) {
    forall k :: 0 <= k < |fields| ==> ValidField(fields[k])
  }

  predicate ValidHead(h: Head) {
    && |h.version| == 3 && h.version[..2] == Ascii("1.") && h.version[2] in DIGITS
    && |h.status| == 3 && (forall k :: 0 <= k < 3 ==> h.status[k] in DIGITS)
    && T.IsText(h.reason) && (h.reason != [] ==> h.reason[0] != SP)
    && ValidFields(h.fields)
  }

  // A field value without the spaces and tabs around it.
  function TrimLeft(v: seq<byte>): (r: seq<byte>)
    ensures |r| <= |v| && r == v[|v| - |r|..] && (r != [] ==> !IsBlank(r[0]))
    ensures forall k :: 0 <= k < |v| - |r| ==> IsBlank(v[k])
  {
    if v != [] && IsBlank(v[0]) then TrimLeft(v[1..]) else v
  }

  function TrimRight(v: seq<byte>): (r: seq<byte>)
    ensures r <= v && (r != [] ==> !IsBlank(r[|r| - 1]))
    ensures forall k :: |r| <= k < |v| ==> IsBlank(v[k])
  {
    if v != [] && IsBlank(v[|v| - 1]) then TrimRight(v[..|v| - 1]) else v
  }

  function Trim(v: seq<byte>): seq<byte> {
    TrimRight(TrimLeft(v))
  }

  predicate NoOuterBlanks(v: seq<byte>) {
    v != [] ==> !IsBlank(v[0]) && !IsBlank(v[|v| - 1])
  }

  lemma TrimNothing(v: seq<byte>)
    ensures Trim(v) == v <==> NoOuterBlanks(v)
  {}

  // The parsed header `h` of buffer `s` says what the field says: its name, and its value without the
  // blanks around it, which is its value if there are none.
  predicate Says(s: seq<byte>, h: Header, f: Field) {
    && h.Line? && Fits(h, |s|) && TextAt(s, h.name) == f.name && TextAt(s, h.value) == Trim(f.value)
    && (TextAt(s, h.value) == f.value <==> NoOuterBlanks(f.value))
  }

  // ---------- printed fields are lines ----------

  // A printed field as a line: the blanks around the value belong to the line.
  function LineOf(f: Field): T.Line {
    var left, text := TrimLeft(f.value), Trim(f.value);
    T.Named(f.name, [SP] + f.value[..|f.value| - |left|], text, left[|text|..], CRLF)
  }

  // A value is its text and the blanks around it.
  lemma LeadParts(v: seq<byte>)
    ensures var left := TrimLeft(v);
      v == v[..|v| - |left|] + left && T.AllBlank(v[..|v| - |left|]) && (left != [] ==> !T.Blank(left[0]))
  {
    hide TrimLeft;
    var left := TrimLeft(v);
    assert v == v[..|v| - |left|] + v[|v| - |left|..];
  }

  lemma TrailParts(left: seq<byte>)
    requires left != [] ==> !T.Blank(left[0])
    ensures var text := TrimRight(left);
      && left == text + left[|text|..] && T.AllBlank(left[|text|..])
      && (text != [] ==> !T.Blank(text[|text| - 1])) && if text == [] then left[|text|..] == [] else !T.Blank(text[0])
  {
    hide TrimRight;
  }

  lemma TextInside(lead: seq<byte>, text: seq<byte>, trail: seq<byte>)
    requires T.IsText(lead + (text + trail))
    ensures T.IsText(text)
  {
    forall k | 0 <= k < |text| ensures text[k] == (lead + (text + trail))[|lead| + k] {}
  }

  lemma LinePieces(name: seq<byte>, lead: seq<byte>, text: seq<byte>, trail: seq<byte>)
    ensures name + [COLON] + ([SP] + lead) + (text + trail + CRLF) == name + [COLON, SP] + (lead + (text + trail)) + CRLF
  {}

  lemma BlanksJoin(lead: seq<byte>)
    requires T.AllBlank(lead)
    ensures T.AllBlank([SP] + lead)
  {}

  lemma {:induction false} LineIsPrinted(f: Field)
    requires ValidField(f)
    ensures T.ValidLine(LineOf(f)) && T.Spell(LineOf(f)) == FieldLine(f)
  {
    hide *;
    var left, text := TrimLeft(f.value), TrimRight(TrimLeft(f.value));
    LeadParts(f.value);
    TrailParts(left);
    var lead, trail := f.value[..|f.value| - |left|], left[|text|..];
    LinePieces(f.name, lead, text, trail);
    BlanksJoin(lead);
    LineOfIs(f);
    NamedLine(LineOf(f), 0);
    TextInside(lead, text, trail);
  }

  lemma {:induction false} LineOfIs(f: Field)
    requires ValidField(f)
    ensures var left, text := TrimLeft(f.value), TrimRight(TrimLeft(f.value));
      var lead, trail := f.value[..|f.value| - |left|], left[|text|..];
      && LineOf(f) == T.Named(f.name, [SP] + lead, text, trail, CRLF)
      && T.Spell(LineOf(f)) == f.name + [COLON] + ([SP] + lead) + (text + trail + CRLF)
    ensures FieldLine(f) == f.name + [COLON, SP] + f.value + CRLF && T.IsToken(f.name) && T.IsText(f.value) && T.IsEnd(CRLF)
  {
    hide TrimLeft, TrimRight, T.IsToken, T.IsText;
  }

  function LinesOf(fields: seq<Field>): (r: seq<T.Line>)
    ensures |r| == |fields| && forall k :: 0 <= k < |r| ==> r[k] == LineOf(fields[k])
  {
    seq(|fields|, k requires 0 <= k < |fields| => LineOf(fields[k]))
  }

  lemma {:induction false} SpellLast(lines: seq<T.Line>, last: T.Line)
    ensures T.SpellLines(lines + [last]) == T.SpellLines(lines) + T.Spell(last)
  {
    hide T.Spell;
    if lines == [] {
      assert [] + [last] == [last] && [last][1..] == [];
      assert T.Spell(last) + [] == [] + T.Spell(last);
    } else {
      SpellLast(lines[1..], last);
      assert (lines + [last])[1..] == lines[1..] + [last];
    }
  }

  lemma {:induction false} LinesGrow(front: seq<Field>, f: Field)
    ensures LinesOf(front + [f]) == LinesOf(front) + [LineOf(f)]
    ensures FieldLines(front + [f]) == FieldLines(front) + FieldLine(f)
    ensures ValidFields(front + [f]) <==> ValidFields(front) && ValidField(f)
  {
    hide LineOf, FieldLine, ValidField;
    assert (front + [f])[..|front|] == front;
    assert forall k :: 0 <= k < |front| ==> (front + [f])[k] == front[k];
    assert (front + [f])[|front|] == f;
  }

  lemma LinesStayValid(lines: seq<T.Line>, l: T.Line)
    requires T.ValidLines(lines) && T.ValidLine(l) && l.Named?
    ensures T.ValidLines(lines + [l])
  {}

  lemma NothingPrinted()
    ensures T.ValidLines(LinesOf([])) && T.SpellLines(LinesOf([])) == FieldLines([])
  {}

  lemma {:induction false} LinesArePrinted(fields: seq<Field>)
    requires ValidFields(fields)
    ensures T.ValidLines(LinesOf(fields)) && T.SpellLines(LinesOf(fields)) == FieldLines(fields)
  {
    hide *;
    if fields == [] {
      NothingPrinted();
    } else {
      var front, f := fields[..|fields| - 1], fields[|fields| - 1];
      assert front + [f] == fields;
      LinesGrow(front, f);
      LinesArePrinted(front);
      LineIsPrinted(f);
      NamedLineOf(f);
      LinesStayValid(LinesOf(front), LineOf(f));
      SpellLast(LinesOf(front), LineOf(f));
    }
  }

  lemma NamedLineOf(f: Field)
    ensures LineOf(f).Named?
  {}

  function FieldsText(fields: seq<Field>): T.Fields {
    T.Fields(LinesOf(fields), CRLF)
  }

  lemma {:induction false} FieldsArePrinted(fields: seq<Field>)
    requires ValidFields(fields)
    ensures T.ValidFields(FieldsText(fields)) && T.SpellFields(FieldsText(fields)) == FieldLines(fields) + CRLF
  {
    hide T.SpellLines, T.ValidLines, FieldLines;
    LinesArePrinted(fields);
  }

  lemma SaysShown(s: seq<byte>, h: Header, f: Field)
    requires Shows(s, h, LineOf(f))
    ensures Says(s, h, f)
  {
    TrimNothing(f.value);
    hide TrimLeft, TrimRight;
  }

  // ---------- reading the head back ----------

  // The printed head as a text of its parts.
  lemma HeadIsPrinted(h: Head) returns (r: T.Response)
    requires ValidHead(h)
    ensures T.ValidResponse(r) && T.SpellResponse(r) == Printed(h) + CRLF
    ensures r.fields == FieldsText(h.fields) && r.reason == h.reason
    ensures DIGITS[r.minor] == h.version[2] && T.ThreeDigits(r.status) == h.status
  {
    hide FieldLines, LinesOf, T.ValidFields, T.SpellFields, ValidFields;
    var m := DigitOf(h.version[2]);
    var x := DigitOf(h.status[0]);
    var y := DigitOf(h.status[1]);
    var z := DigitOf(h.status[2]);
    var status := 100 * x + 10 * y + z;
    ResponseExactly.ThreePlaces(status, x, y, z);
    r := T.Response(m, [SP], status, [SP], h.reason, CRLF, FieldsText(h.fields));
    FieldsArePrinted(h.fields);
    StatusLineParts(h, m, status);
    var front := T.HTTP + [DIGITS[m]] + [SP] + T.ThreeDigits(status) + ([SP] + h.reason) + CRLF;
    assert front + (FieldLines(h.fields) + CRLF) == front + FieldLines(h.fields) + CRLF;
  }

  lemma DigitOf(c: byte) returns (v: nat)
    requires c in DIGITS
    ensures v < 10 && DIGITS[v] == c
  {
    v :| 0 <= v < 10 && DIGITS[v] == c;
  }

  lemma StatusLineParts(h: Head, minor: nat, status: nat)
    requires |h.version| == 3 && h.version[..2] == Ascii("1.") && minor < 10 && h.version[2] == DIGITS[minor]
    requires |h.status| == 3 && status < 1000 && h.status[0] == DIGITS[status / 100]
    requires h.status[1] == DIGITS[status / 10 % 10] && h.status[2] == DIGITS[status % 10]
    ensures h.status == T.ThreeDigits(status)
    ensures T.HTTP + [DIGITS[minor]] + [SP] + T.ThreeDigits(status) + ([SP] + h.reason) + CRLF
      == StatusLine(h.version, h.status, h.reason)
  {
    hide DIGITS;
    assert T.HTTP == [72, 84, 84, 80, 47] + Ascii("1.");
    assert h.version == Ascii("1.") + [h.version[2]];
    assert [72, 84, 84, 80, 47] + Ascii("1.") + [h.version[2]] == [72, 84, 84, 80, 47] + (Ascii("1.") + [h.version[2]]);
    var front := [72, 84, 84, 80, 47] + h.version + [SP] + h.status;
    assert front + ([SP] + h.reason) == front + [SP] + h.reason;
  }

  // The parser reads the head in the first `n` octets: its digits, its reason, its fields in order.
  predicate ReadsBack(s: seq<byte>, h: Head, n: nat, max: nat) {
    var r := ParseResponse(s, max);
    && r.Good? && r.next == n
    && r.value.minor < 10 && |h.version| == 3 && DIGITS[r.value.minor] == h.version[2]
    && r.value.status < 1000 && T.ThreeDigits(r.value.status) == h.status
    && TextAt(s, r.value.msg) == h.reason
    && |r.value.headers| == |h.fields|
    && forall k :: 0 <= k < |h.fields| ==> Says(s, r.value.headers[k], h.fields[k])
  }

  // The parser, given a printed head and anything behind it, returns exactly what was printed.
  lemma {:induction false} ResponseRoundTrip(h: Head, rest: seq<byte>, max: nat)
    requires ValidHead(h) && |h.fields| <= max
    ensures ReadsBack(Printed(h) + CRLF + rest, h, |Printed(h)| + 2, max)
  {
    assert |h.version| == 3;
    var text := HeadIsPrinted(h);
    hide ValidHead, Printed, ParseResponse, Says, Shows, T.ValidResponse, T.SpellResponse, ResponseExactly.ResponseAt, LineOf, T.ThreeDigits,
      DIGITS;
    var s := Printed(h) + CRLF + rest;
    assert At(s, 0, T.SpellResponse(text)) by { assert s[..|Printed(h) + CRLF|] == Printed(h) + CRLF; }
    ResponseExactly.ResponseRead(s, text, max);
    ResponseExactly.Texts(s, text);
    var headers := ResponseExactly.ResponseAt(text).headers;
    forall k | 0 <= k < |h.fields| ensures Says(s, headers[k], h.fields[k]) { SaysShown(s, headers[k], h.fields[k]); }
  }
}
