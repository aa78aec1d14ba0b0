/**
 Message heads as text, apart from any parser (section 3 of RFC 7230, with what the source's parser
 puts up with), and where in a head its parts stand.
 */
module HeadText {
  import opened Bytes

  const TOKEN_MARKS := Ascii("!#$%&'*+-.^_`|~")
  const HTTP := Ascii("HTTP/1.")

  // tchar of section 3.2.6: a mark, a digit or a letter.
  predicate TokenChar(c: byte) {
    || c in TOKEN_MARKS || '0' as int <= c <= '9' as int || 'A' as int <= c <= 'Z' as int || 'a' as int <= c <= 'z' as int
  }

  predicate IsToken(t: seq<byte>) {
    t != [] && forall k :: 0 <= k < |t| ==> TokenChar(t[k])
  }

  predicate IsTarget(t: seq<byte>) {
    t != [] && forall k :: 0 <= k < |t| ==> 32 < t[k] && t[k] != 127
  }

  predicate Blank(c: byte) {
    c == SP || c == HT
  }

  predicate AllBlank(t: seq<byte>) {
    forall k :: 0 <= k < |t| ==> Blank(t[k])
  }

  predicate AllSpaces(t: seq<byte>) {
    forall k :: 0 <= k < |t| ==> t[k] == SP
  }

  // No control but tabs.
  predicate IsText(t: seq<byte>) {
    forall k :: 0 <= k < |t| ==> t[k] == HT || (32 <= t[k] && t[k] != 127)
  }

  predicate IsEnd(e: seq<byte>) {
    e == CRLF || e == [LF]
  }

  // A header line; or one that continues the line before it, which begins with a blank.
  datatype Line =
    | Named(name: seq<byte>, before: seq<byte>, value: seq<byte>, after: seq<byte>, end: seq<byte>)
    | Folded(value: seq<byte>, after: seq<byte>, end: seq<byte>)

  predicate ValidLine(l: Line) {
    && IsText(l.value) && AllBlank(l.after) && IsEnd(l.end) && (l.value != [] ==> !Blank(l.value[|l.value| - 1]))
    && match l
       case Named(name, before, value, after, _) =>
         IsToken(name) && AllBlank(before) && if value == [] then after == [] else !Blank(value[0])
       case Folded(value, after, _) => value + after != [] && Blank((value + after)[0])
  }

  function Spell(l: Line): seq<byte> {
    match l
    case Named(name, before, value, after, end) => name + [COLON] + before + (value + after + end)
    case Folded(value, after, end) => value + after + end
  }

  predicate ValidLines(lines: seq<Line>) {
    && (forall k :: 0 <= k < |lines| ==> ValidLine(lines[k]))
    && (lines != [] ==> lines[0].Named?)
  }

  function SpellLines(lines: seq<Line>): seq<byte> {
    if lines == [] then [] else Spell(lines[0]) + SpellLines(lines[1..])
  }

  // The lines and the empty one behind them.
  datatype Fields = Fields(lines: seq<Line>, end: seq<byte>)

  predicate ValidFields(f: Fields) {
    ValidLines(f.lines) && IsEnd(f.end)
  }

  function SpellFields(f: Fields): seq<byte> {
    SpellLines(f.lines) + f.end
  }

  type OneDigit = n: nat | n < 10
  type UpTo999 = n: nat | n < 1000

  // A request head: one empty line may stand in front, and several spaces between its parts.
  datatype Request = Request(
    empty: seq<byte>, method_: seq<byte>, gap: seq<byte>, target: seq<byte>, gap2: seq<byte>, minor: OneDigit, end: seq<byte>, fields: Fields)

  predicate ValidRequest(r: Request) {
    && (r.empty == [] || IsEnd(r.empty)) && IsToken(r.method_) && r.gap != [] && AllSpaces(r.gap)
    && IsTarget(r.target) && r.gap2 != [] && AllSpaces(r.gap2) && IsEnd(r.end) && ValidFields(r.fields)
  }

  function SpellRequest(r: Request): seq<byte> {
    r.empty + r.method_ + r.gap + r.target + r.gap2 + (HTTP + [DIGITS[r.minor]]) + r.end + SpellFields(r.fields)
  }

  // A response head; what stands between the status and the line end is nothing, or a space and a reason.
  datatype Response = Response(minor: OneDigit, gap: seq<byte>, status: UpTo999, lead: seq<byte>, reason: seq<byte>, end: seq<byte>, fields: Fields)

  predicate ValidResponse(r: Response) {
    && r.gap != [] && AllSpaces(r.gap)
    && AllSpaces(r.lead) && IsText(r.reason) && (if r.lead == [] then r.reason == [] else r.reason == [] || r.reason[0] != SP)
    && IsEnd(r.end) && ValidFields(r.fields)
  }

  function ThreeDigits(n: UpTo999): seq<byte> {
    [DIGITS[n / 100], DIGITS[n / 10 % 10], DIGITS[n % 10]]
  }

  function SpellResponse(r: Response): seq<byte> {
    HTTP + [DIGITS[r.minor]] + r.gap + ThreeDigits(r.status) + (r.lead + r.reason) + r.end + SpellFields(r.fields)
  }
}
