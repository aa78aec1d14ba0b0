/**
 The head parser accepts exactly the spellings of heads, and reports where their parts stand.
 */
module HeadExactly {
  import opened Bytes
  import opened HeadSpec
  import T = HeadText

  // ---------- characters ----------

  lemma TokenChars(c: byte)
    ensures IsTokenChar(c) <==> T.TokenChar(c)
  {
    assert T.TOKEN_MARKS == [33, 35, 36, 37, 38, 39, 42, 43, 45, 46, 94, 95, 96, 124, 126];
  }

  // `t` stands in `s` at `i`.
  predicate At(s: seq<byte>, i: nat, t: seq<byte>) {
    i + |t| <= |s| && s[i..i + |t|] == t
  }

  lemma AtJoin(s: seq<byte>, i: nat, a: seq<byte>, b: seq<byte>)
    ensures At(s, i, a + b) <==> At(s, i, a) && At(s, i + |a|, b)
  {
    var m, n := i + |a|, i + |a| + |b|;
    if n <= |s| {
      assert s[i..n] == s[i..m] + s[m..n];
      assert (a + b)[..|a|] == a && (a + b)[|a|..] == b;
      assert s[i..n][..|a|] == s[i..m] && s[i..n][|a|..] == s[m..n];
    }
  }

  lemma AtOctet(s: seq<byte>, i: nat, t: seq<byte>, k: nat)
    requires At(s, i, t) && k < |t|
    ensures i + k < |s| && s[i + k] == t[k]
  {
    assert s[i..i + |t|][k] == s[i + k];
  }

  lemma AtSlice(s: seq<byte>, i: nat, t: seq<byte>)
    requires At(s, i, t)
    ensures i + |t| <= |s| && TextAt(s, Slice(i, |t|)) == t
  {}

  // ---------- pieces: each scan stops where, and only where, it should ----------

  lemma {:induction false} TokenStops(s: seq<byte>, start: nat, j: nat, stop: byte, e: nat)
    requires start <= j <= e < |s| && !T.TokenChar(stop)
    ensures TokenFrom(s, start, j, stop) == Good(Slice(start, e - start), e)
      <==> s[e] == stop && forall k :: j <= k < e ==> T.TokenChar(s[k])
    decreases e - j
  {
    TokenChars(stop);
    TokenChars(s[j]);
    if j < e { TokenStops(s, start, j + 1, stop, e); }
  }

  lemma {:induction false} TargetStops(s: seq<byte>, start: nat, j: nat, e: nat)
    requires start <= j <= e < |s|
    ensures TargetFrom(s, start, j) == Good(Slice(start, e - start), e)
      <==> s[e] == SP && forall k :: j <= k < e ==> 32 < s[k] && s[k] != 127
    decreases e - j
  {
    if j < e { TargetStops(s, start, j + 1, e); }
  }

  lemma {:induction false} SpacesStop(s: seq<byte>, j: nat, e: nat)
    requires j <= e < |s|
    ensures SpacesFrom(s, j) == Good((), e) <==> s[e] != SP && forall k :: j <= k < e ==> s[k] == SP
    decreases e - j
  {
    if j < e { SpacesStop(s, j + 1, e); }
  }

  lemma {:induction false} BlanksStop(s: seq<byte>, j: nat, e: nat)
    requires j <= e < |s|
    ensures BlanksFrom(s, j) == Good((), e) <==> !T.Blank(s[e]) && forall k :: j <= k < e ==> T.Blank(s[k])
    decreases e - j
  {
    if j < e { BlanksStop(s, j + 1, e); }
  }

  predicate NoControl(c: byte) {
    c == HT || (32 <= c && c != 127)
  }

  lemma EndRead(s: seq<byte>, j: nat, e: seq<byte>)
    requires T.IsEnd(e) && At(s, j, e)
    ensures j < |s| && LineEnd(s, j) == Good((), j + |e|) && (s[j] == CR || s[j] == LF)
  {
    AtOctet(s, j, e, 0);
    if e == CRLF { AtOctet(s, j, e, 1); }
  }

  lemma EndFound(s: seq<byte>, j: nat)
    requires j < |s| && LineEnd(s, j).Good?
    ensures var n := LineEnd(s, j).next;
      n <= |s| && j < n && T.IsEnd(s[j..n]) && At(s, j, s[j..n])
  {}

  lemma {:induction false} LineStops(s: seq<byte>, start: nat, j: nat, e: nat, end: seq<byte>)
    requires start <= j <= e && T.IsEnd(end) && At(s, e, end)
    requires forall k :: j <= k < e ==> NoControl(s[k])
    ensures LineFrom(s, start, j) == Good(Slice(start, e - start), e + |end|)
    decreases e - j
  {
    EndRead(s, e, end);
    if j < e { LineStops(s, start, j + 1, e, end); }
  }

  lemma {:induction false} LineFound(s: seq<byte>, start: nat, j: nat)
    requires start <= j <= |s| && LineFrom(s, start, j).Good?
    ensures var r := LineFrom(s, start, j);
      var e := start + r.value.len;
      && j <= e < r.next <= |s| && T.IsEnd(s[e..r.next]) && forall k :: j <= k < e ==> NoControl(s[k])
    decreases |s| - j
  {
    if IsControl(s[j]) { EndFound(s, j); } else { LineFound(s, start, j + 1); }
  }

  lemma {:induction false} TrimEndStops(s: seq<byte>, t: Slice, n: nat)
    requires t.off + t.len <= |s| && n <= t.len
    ensures TrimEnd(s, t) == Slice(t.off, n)
      <==> (n > 0 ==> !T.Blank(s[t.off + n - 1])) && forall k :: t.off + n <= k < t.off + t.len ==> T.Blank(s[k])
    decreases t.len
  {
    if t.len > n { TrimEndStops(s, t.(len := t.len - 1), n); }
  }

  // ---------- one line ----------

  function HeaderAt(l: T.Line, i: nat): Header {
    match l
    case Named(name, before, value, _, _) => Line(Slice(i, |name|), Slice(i + |name| + 1 + |before|, |value|))
    case Folded(value, _, _) => Continued(Slice(i, |value|))
  }

  lemma PartsOfNamed(s: seq<byte>, i: nat, l: T.Line)
    requires l.Named?
    ensures var j := i + |l.name|;
      var k := j + 1 + |l.before|;
      At(s, i, T.Spell(l)) <==>
        At(s, i, l.name) && At(s, j, [COLON]) && At(s, j + 1, l.before)
        && At(s, k, l.value) && At(s, k + |l.value|, l.after) && At(s, k + |l.value| + |l.after|, l.end)
  {
    hide At;
    AtJoin(s, i, l.name + [COLON] + l.before, l.value + l.after + l.end);
    AtJoin(s, i, l.name + [COLON], l.before);
    AtJoin(s, i, l.name, [COLON]);
    ValueParts(s, i + |l.name| + 1 + |l.before|, l.value, l.after, l.end);
  }

  lemma ValueParts(s: seq<byte>, k: nat, value: seq<byte>, after: seq<byte>, end: seq<byte>)
    ensures At(s, k, value + after + end) <==>
      At(s, k, value) && At(s, k + |value|, after) && At(s, k + |value| + |after|, end)
  {
    hide At;
    AtJoin(s, k, value + after, end);
    AtJoin(s, k, value, after);
  }

  // A value and the blanks behind it, up to the end of the line.
  lemma ValueRead(s: seq<byte>, k: nat, value: seq<byte>, after: seq<byte>, end: seq<byte>)
    requires At(s, k, value) && At(s, k + |value|, after) && At(s, k + |value| + |after|, end)
    requires T.IsText(value) && T.AllBlank(after) && T.IsEnd(end) && (value != [] ==> !T.Blank(value[|value| - 1]))
    ensures var n := |value| + |after|;
      && LineFrom(s, k, k) == Good(Slice(k, n), k + n + |end|)
      && TrimEnd(s, Slice(k, n)) == Slice(k, |value|)
  {
    hide At, LineFrom, TrimEnd, T.IsText, T.AllBlank, T.IsEnd;
    var e := k + |value| + |after|;
    ValueOctets(s, k, value, after, end);
    LineStops(s, k, k, e, end);
    TrimEndStops(s, Slice(k, |value| + |after|), |value|);
  }

  lemma ValueOctets(s: seq<byte>, k: nat, value: seq<byte>, after: seq<byte>, end: seq<byte>)
    requires At(s, k, value) && At(s, k + |value|, after) && At(s, k + |value| + |after|, end)
    requires T.IsText(value) && T.AllBlank(after) && (value != [] ==> !T.Blank(value[|value| - 1]))
    ensures var e := k + |value| + |after|;
      && e <= |s| && (forall j :: k <= j < e ==> NoControl(s[j])) && (forall j :: k + |value| <= j < e ==> T.Blank(s[j]))
      && (value != [] ==> !T.Blank(s[k + |value| - 1]))
  {
    var e := k + |value| + |after|;
    forall j | k <= j < e ensures NoControl(s[j]) && (j >= k + |value| ==> T.Blank(s[j])) {
      if j < k + |value| { AtOctet(s, k, value, j - k); } else { AtOctet(s, k + |value|, after, j - k - |value|); }
    }
    if value != [] { AtOctet(s, k, value, |value| - 1); }
  }

  lemma FirstIsNotBlank(s: seq<byte>, k: nat, value: seq<byte>, after: seq<byte>, end: seq<byte>)
    requires At(s, k, value) && At(s, k + |value|, after) && At(s, k + |value| + |after|, end) && T.IsEnd(end)
    requires if value == [] then after == [] else !T.Blank(value[0])
    ensures k < |s| && !T.Blank(s[k])
  {
    if value == [] { AtOctet(s, k, end, 0); } else { AtOctet(s, k, value, 0); }
  }

  lemma NameRead(s: seq<byte>, i: nat, name: seq<byte>, before: seq<byte>, k: nat)
    requires T.IsToken(name) && At(s, i, name) && At(s, i + |name|, [COLON]) && At(s, i + |name| + 1, before)
    requires T.AllBlank(before) && k == i + |name| + 1 + |before| < |s| && !T.Blank(s[k])
    ensures TokenFrom(s, i, i, COLON) == Good(Slice(i, |name|), i + |name|) && !IsBlank(s[i])
    ensures BlanksFrom(s, i + |name| + 1) == Good((), k)
  {
    hide At, TokenFrom, BlanksFrom;
    TokenRead(s, i, name, COLON);
    var j := i + |name|;
    forall m | j + 1 <= m < k ensures T.Blank(s[m]) { AtOctet(s, j + 1, before, m - j - 1); }
    BlanksStop(s, j + 1, k);
  }

  lemma {:induction false} TokenRead(s: seq<byte>, i: nat, name: seq<byte>, stop: byte)
    requires T.IsToken(name) && At(s, i, name) && At(s, i + |name|, [stop]) && !T.TokenChar(stop)
    ensures i < |s| && TokenFrom(s, i, i, stop) == Good(Slice(i, |name|), i + |name|) && T.TokenChar(s[i])
  {
    hide TokenFrom;
    var j := i + |name|;
    forall m | i <= m < j ensures T.TokenChar(s[m]) { AtOctet(s, i, name, m - i); }
    AtOctet(s, j, [stop], 0);
    TokenStops(s, i, i, stop, j);
  }

  lemma NamedRead(s: seq<byte>, i: nat, l: T.Line, first: bool)
    requires l.Named? && T.ValidLine(l) && At(s, i, T.Spell(l))
    ensures i < |s| && T.TokenChar(s[i]) && HeaderLine(s, i, first) == Good(HeaderAt(l, i), i + |T.Spell(l)|)
  {
    hide *;
    NamedLine(l, i);
    var k := i + |l.name| + 1 + |l.before|;
    PartsOfNamed(s, i, l);
    FirstIsNotBlank(s, k, l.value, l.after, l.end);
    NameRead(s, i, l.name, l.before, k);
    ValueRead(s, k, l.value, l.after, l.end);
    FirstOfToken(s, i, l.name);
    HeaderLineIs(s, i, first, k);
  }

  lemma FirstOfToken(s: seq<byte>, i: nat, name: seq<byte>)
    requires T.IsToken(name) && At(s, i, name)
    ensures name != [] && i < |s| && T.TokenChar(s[i])
  {
    AtOctet(s, i, name, 0);
  }

  lemma HeaderLineIs(s: seq<byte>, i: nat, first: bool, k: nat)
    requires i < |s| && !IsBlank(s[i]) && k <= |s|
    requires var name := TokenFrom(s, i, i, COLON);
      name.Good? && name.value.len > 0 && BlanksFrom(s, name.next + 1) == Good((), k)
    requires LineFrom(s, k, k).Good?
    ensures var value := LineFrom(s, k, k);
      HeaderLine(s, i, first) == Good(Line(TokenFrom(s, i, i, COLON).value, TrimEnd(s, value.value)), value.next)
  {
    hide TokenFrom, BlanksFrom, LineFrom, TrimEnd;
  }

  lemma FoldedRead(s: seq<byte>, i: nat, l: T.Line)
    requires l.Folded? && T.ValidLine(l) && At(s, i, T.Spell(l))
    ensures i < |s| && T.Blank(s[i]) && HeaderLine(s, i, false) == Good(HeaderAt(l, i), i + |T.Spell(l)|)
  {
    hide At, LineFrom, TrimEnd;
    ValueParts(s, i, l.value, l.after, l.end);
    ValueRead(s, i, l.value, l.after, l.end);
    if l.value == [] { AtOctet(s, i, l.after, 0); } else { AtOctet(s, i, l.value, 0); }
  }

  lemma LineRead(s: seq<byte>, i: nat, l: T.Line, first: bool)
    requires T.ValidLine(l) && At(s, i, T.Spell(l)) && (first ==> l.Named?)
    ensures i < |s| && s[i] != CR && s[i] != LF && HeaderLine(s, i, first) == Good(HeaderAt(l, i), i + |T.Spell(l)|)
  {
    hide At, HeaderLine, HeaderAt, T.Spell, T.ValidLine, T.TokenChar;
    if l.Named? {
      NamedRead(s, i, l, first);
      TokenChars(s[i]);
    } else {
      FoldedRead(s, i, l);
    }
  }

  // A line that was read is the spelling of one.
  lemma LineIs(s: seq<byte>, i: nat, first: bool) returns (l: T.Line)
    requires i < |s| && HeaderLine(s, i, first).Good?
    ensures var r := HeaderLine(s, i, first);
      && T.ValidLine(l) && At(s, i, T.Spell(l)) && (first ==> l.Named?)
      && r == Good(HeaderAt(l, i), i + |T.Spell(l)|)
  {
    if !first && IsBlank(s[i]) { l := FoldedIs(s, i); } else { l := NamedIs(s, i, first); }
  }

  lemma ValueIs(s: seq<byte>, k: nat) returns (value: seq<byte>, after: seq<byte>, end: seq<byte>)
    requires k <= |s| && LineFrom(s, k, k).Good?
    ensures var r := LineFrom(s, k, k);
      && r.next == k + |value| + |after| + |end| && r.value == Slice(k, |value| + |after|)
      && TrimEnd(s, r.value) == Slice(k, |value|)
    ensures T.IsText(value) && T.AllBlank(after) && T.IsEnd(end) && (value != [] ==> !T.Blank(value[|value| - 1]))
    ensures At(s, k, value) && At(s, k + |value|, after) && At(s, k + |value| + |after|, end)
  {
    hide LineFrom, TrimEnd, At, T.IsEnd;
    var r := LineFrom(s, k, k);
    LineFound(s, k, k);
    var n := TrimEnd(s, r.value).len;
    var e := k + r.value.len;
    TrimEndStops(s, r.value, n);
    value, after, end := s[k..k + n], s[k + n..e], s[e..r.next];
    AtSelf(s, k, k + n);
    AtSelf(s, k + n, e);
    AtSelf(s, e, r.next);
  }

  lemma FoldedIs(s: seq<byte>, i: nat) returns (l: T.Line)
    requires i < |s| && IsBlank(s[i]) && HeaderLine(s, i, false).Good?
    ensures T.ValidLine(l) && At(s, i, T.Spell(l)) && HeaderLine(s, i, false) == Good(HeaderAt(l, i), i + |T.Spell(l)|)
  {
    hide LineFrom, TrimEnd;
    var value, after, end := ValueIs(s, i);
    l := T.Folded(value, after, end);
    ValueParts(s, i, value, after, end);
    if value != [] { AtOctet(s, i, value, 0); } else if after != [] { AtOctet(s, i, after, 0); }
  }

  lemma {:induction false} NameIs(s: seq<byte>, i: nat, first: bool) returns (j: nat, k: nat)
    requires i < |s| && (first || !IsBlank(s[i])) && HeaderLine(s, i, first).Good?
    ensures i < j < k <= |s| && T.IsToken(s[i..j]) && s[j] == COLON && T.AllBlank(s[j + 1..k]) && k < |s| && !T.Blank(s[k])
    ensures LineFrom(s, k, k).Good?
    ensures var r := LineFrom(s, k, k);
      HeaderLine(s, i, first) == Good(Line(Slice(i, j - i), TrimEnd(s, r.value)), r.next)
  {
    hide TokenFrom, BlanksFrom, LineFrom, TrimEnd;
    j := TokenFrom(s, i, i, COLON).next;
    k := BlanksFrom(s, j + 1).next;
    TokenStops(s, i, i, COLON, j);
    assert BlanksFrom(s, j + 1).value == ();
    BlanksStop(s, j + 1, k);
  }

  lemma NamedIs(s: seq<byte>, i: nat, first: bool) returns (l: T.Line)
    requires i < |s| && (first || !IsBlank(s[i])) && HeaderLine(s, i, first).Good?
    ensures l.Named? && T.ValidLine(l) && At(s, i, T.Spell(l)) && HeaderLine(s, i, first) == Good(HeaderAt(l, i), i + |T.Spell(l)|)
  {
    hide *;
    var j, k := NameIs(s, i, first);
    var value, after, end := ValueIs(s, k);
    l := T.Named(s[i..j], s[j + 1..k], value, after, end);
    NothingBlank(s, k, value, after);
    AtSelf(s, i, j);
    AtSelf(s, j, j + 1);
    AtSelf(s, j + 1, k);
    assert s[j..j + 1] == [COLON];
    PartsOfNamed(s, i, l);
    NamedLine(l, i);
  }

  lemma AtSelf(s: seq<byte>, i: nat, j: nat)
    requires i <= j <= |s|
    ensures At(s, i, s[i..j])
  {}

  lemma NamedLine(l: T.Line, i: nat)
    requires l.Named?
    ensures |T.Spell(l)| == |l.name| + 1 + |l.before| + |l.value| + |l.after| + |l.end|
    ensures HeaderAt(l, i) == Line(Slice(i, |l.name|), Slice(i + |l.name| + 1 + |l.before|, |l.value|))
    ensures T.ValidLine(l) <==>
      && T.IsText(l.value) && T.AllBlank(l.after) && T.IsEnd(l.end) && (l.value != [] ==> !T.Blank(l.value[|l.value| - 1]))
      && T.IsToken(l.name) && T.AllBlank(l.before) && if l.value == [] then l.after == [] else !T.Blank(l.value[0])
  {}

  lemma NothingBlank(s: seq<byte>, k: nat, value: seq<byte>, after: seq<byte>)
    requires k < |s| && !T.Blank(s[k]) && At(s, k, value) && At(s, k + |value|, after) && T.AllBlank(after)
    ensures if value == [] then after == [] else !T.Blank(value[0])
  {
    if value != [] { AtOctet(s, k, value, 0); } else if after != [] { AtOctet(s, k, after, 0); }
  }

  // ---------- all the lines ----------

  function HeadersAt(lines: seq<T.Line>, i: nat): (r: seq<Header>)
    ensures |r| == |lines|
  {
    if lines == [] then [] else [HeaderAt(lines[0], i)] + HeadersAt(lines[1..], i + |T.Spell(lines[0])|)
  }

  // Lines behind the first may be folded.
  predicate ValidFrom(lines: seq<T.Line>, first: bool) {
    (forall k :: 0 <= k < |lines| ==> T.ValidLine(lines[k])) && (first && lines != [] ==> lines[0].Named?)
  }

  lemma {:induction false} LinesRead(s: seq<byte>, i: nat, lines: seq<T.Line>, end: seq<byte>, got: seq<Header>, max: nat)
    requires |got| + |lines| <= max && ValidFrom(lines, got == []) && T.IsEnd(end) && At(s, i, T.SpellLines(lines) + end)
    ensures HeadersFrom(s, i, got, max) == Good(got + HeadersAt(lines, i), i + |T.SpellLines(lines)| + |end|)
    decreases |lines|
  {
    hide At, HeaderLine, T.Spell, T.ValidLine, T.IsEnd, HeaderAt;
    if lines == [] {
      assert [] + end == end && got + [] == got;
      EndRead(s, i, end);
    } else {
      var line, rest := T.Spell(lines[0]), T.SpellLines(lines[1..]) + end;
      assert T.SpellLines(lines) + end == line + rest;
      AtJoin(s, i, line, rest);
      LineRead(s, i, lines[0], got == []);
      var h := HeaderAt(lines[0], i);
      LinesRead(s, i + |line|, lines[1..], end, got + [h], max);
      assert got + [h] + HeadersAt(lines[1..], i + |line|) == got + ([h] + HeadersAt(lines[1..], i + |line|));
    }
  }

  lemma {:induction false} LinesAre(s: seq<byte>, i: nat, got: seq<Header>, max: nat) returns (lines: seq<T.Line>, end: seq<byte>)
    requires i <= |s| && |got| <= max && HeadersFrom(s, i, got, max).Good?
    ensures |got| + |lines| <= max
    ensures ValidFrom(lines, got == []) && T.IsEnd(end) && At(s, i, T.SpellLines(lines) + end)
    ensures HeadersFrom(s, i, got, max) == Good(got + HeadersAt(lines, i), i + |T.SpellLines(lines)| + |end|)
    decreases |s| - i
  {
    hide At, HeaderLine, T.Spell, T.ValidLine, HeaderAt;
    if s[i] == CR || s[i] == LF {
      lines, end := [], s[i..LineEnd(s, i).next];
      NoLines(s, i, got);
    } else {
      var l := LineIs(s, i, got == []);
      var h, next := HeaderAt(l, i), i + |T.Spell(l)|;
      lines, end := LinesAre(s, next, got + [h], max);
      LinesJoin(s, i, l, lines, end, got);
      lines := [l] + lines;
    }
  }

  lemma NoLines(s: seq<byte>, i: nat, got: seq<Header>)
    requires i < |s| && LineEnd(s, i).Good?
    ensures var end := s[i..LineEnd(s, i).next];
      T.IsEnd(end) && At(s, i, T.SpellLines([]) + end) && LineEnd(s, i).next == i + |T.SpellLines([])| + |end|
    ensures ValidFrom([], got == []) && got + HeadersAt([], i) == got
  {
    EndFound(s, i);
    var end := s[i..LineEnd(s, i).next];
    assert [] + end == end && got + [] == got;
  }

  lemma {:induction false} LinesJoin(s: seq<byte>, i: nat, l: T.Line, later: seq<T.Line>, end: seq<byte>, got: seq<Header>)
    requires T.ValidLine(l) && (got == [] ==> l.Named?) && At(s, i, T.Spell(l))
    requires var next := i + |T.Spell(l)|; ValidFrom(later, false) && At(s, next, T.SpellLines(later) + end)
    ensures var h, next, lines := HeaderAt(l, i), i + |T.Spell(l)|, [l] + later;
      && ValidFrom(lines, got == []) && At(s, i, T.SpellLines(lines) + end)
      && |T.SpellLines(lines)| == |T.Spell(l)| + |T.SpellLines(later)|
      && got + [h] + HeadersAt(later, next) == got + HeadersAt(lines, i)
  {
    hide At, T.Spell, T.ValidLine, HeaderAt;
    var h, next, lines := HeaderAt(l, i), i + |T.Spell(l)|, [l] + later;
    assert lines[1..] == later;
    AtJoin(s, i, T.Spell(l), T.SpellLines(later) + end);
    assert T.Spell(l) + (T.SpellLines(later) + end) == T.SpellLines(lines) + end;
    assert got + [h] + HeadersAt(later, next) == got + ([h] + HeadersAt(later, next));
  }

  // ---------- requests ----------

  lemma VersionIs(s: seq<byte>, j: nat, minor: nat)
    requires j + 8 < |s| && minor < 10
    ensures Version(s, j) == Good(minor, j + 8) <==> At(s, j, T.HTTP + [DIGITS[minor]])
  {
    assert T.HTTP == HTTP_1;
    AtJoin(s, j, T.HTTP, [DIGITS[minor]]);
    DigitIs(s[j + 7], minor);
    assert s[j + 7..j + 8] == [s[j + 7]];
  }

  lemma SpacesAre(s: seq<byte>, i: nat, gap: seq<byte>)
    requires gap != [] && i + |gap| < |s| && s[i + |gap|] != SP
    ensures T.AllSpaces(gap) && At(s, i, gap) ==> s[i] == SP && SpacesFrom(s, i + 1) == Good((), i + |gap|)
    ensures s[i] == SP && SpacesFrom(s, i + 1) == Good((), i + |gap|) && gap == s[i..i + |gap|] ==> T.AllSpaces(gap) && At(s, i, gap)
  {
    SpacesStop(s, i + 1, i + |gap|);
    if T.AllSpaces(gap) && At(s, i, gap) {
      forall k | i <= k < i + |gap| ensures s[k] == SP { AtOctet(s, i, gap, k - i); }
    }
  }

  // Where the parts of a head stand that begins the buffer.
  function RequestAt(r: T.Request): ParsedRequest {
    var target := |r.empty| + |r.method_| + |r.gap|;
    var lines := target + |r.target| + |r.gap2| + 8 + |r.end|;
    ParsedRequest(Slice(|r.empty|, |r.method_|), Slice(target, |r.target|), r.minor, HeadersAt(r.fields.lines, lines))
  }

  predicate RequestParts(s: seq<byte>, r: T.Request) {
    var a := |r.empty|;
    var b := a + |r.method_|;
    var c := b + |r.gap|;
    var d := c + |r.target|;
    var e := d + |r.gap2|;
    && At(s, 0, r.empty) && At(s, a, r.method_) && At(s, b, r.gap) && At(s, c, r.target) && At(s, d, r.gap2)
    && At(s, e, T.HTTP + [DIGITS[r.minor]]) && At(s, e + 8, r.end) && At(s, e + 8 + |r.end|, T.SpellFields(r.fields))
  }

  lemma PartsOfRequest(s: seq<byte>, r: T.Request)
    ensures At(s, 0, T.SpellRequest(r)) <==> RequestParts(s, r)
    ensures |T.SpellRequest(r)|
      == |r.empty| + |r.method_| + |r.gap| + |r.target| + |r.gap2| + 8 + |r.end| + |T.SpellLines(r.fields.lines)| + |r.fields.end|
  {
    hide At, T.SpellLines;
    var version, fields := T.HTTP + [DIGITS[r.minor]], T.SpellFields(r.fields);
    var a, b := r.empty, r.empty + r.method_;
    var c, d, e := b + r.gap, b + r.gap + r.target, b + r.gap + r.target + r.gap2;
    assert |version| == 8;
    AtJoin(s, 0, a, r.method_);
    AtJoin(s, 0, b, r.gap);
    AtJoin(s, 0, c, r.target);
    AtJoin(s, 0, d, r.gap2);
    AtJoin(s, 0, e, version);
    AtJoin(s, 0, e + version, r.end);
    AtJoin(s, 0, e + version + r.end, fields);
  }

  lemma StartRead(s: seq<byte>, empty: seq<byte>)
    requires (empty == [] || T.IsEnd(empty)) && At(s, 0, empty) && |empty| < |s| && (empty == [] ==> T.TokenChar(s[0]))
    ensures RequestStart(s) == Good((), |empty|)
  {
    TokenChars(s[0]);
    if empty != [] { EndRead(s, 0, empty); }
  }

  lemma {:induction false} TargetRead(s: seq<byte>, c: nat, target: seq<byte>)
    requires T.IsTarget(target) && At(s, c, target) && At(s, c + |target|, [SP])
    ensures c + |target| < |s| && TargetFrom(s, c, c) == Good(Slice(c, |target|), c + |target|) && s[c] != SP
  {
    hide TargetFrom;
    var d := c + |target|;
    forall m | c <= m < d ensures 32 < s[m] && s[m] != 127 { AtOctet(s, c, target, m - c); }
    AtOctet(s, d, [SP], 0);
    TargetStops(s, c, c, d);
  }

  lemma GapFirst(s: seq<byte>, i: nat, gap: seq<byte>)
    requires gap != [] && T.AllSpaces(gap) && At(s, i, gap)
    ensures At(s, i, [SP])
  {
    AtOctet(s, i, gap, 0);
  }

  lemma {:induction false} FieldsRead(s: seq<byte>, g: nat, f: T.Fields, max: nat)
    requires T.ValidFields(f) && |f.lines| <= max && At(s, g, T.SpellFields(f))
    ensures HeadersFrom(s, g, [], max) == Good(HeadersAt(f.lines, g), g + |T.SpellLines(f.lines)| + |f.end|)
  {
    hide At, HeadersFrom, T.SpellLines, HeadersAt, T.ValidLine, T.IsEnd;
    LinesRead(s, g, f.lines, f.end, [], max);
    assert [] + HeadersAt(f.lines, g) == HeadersAt(f.lines, g);
  }

  lemma RequestFacts(s: seq<byte>, r: T.Request)
    requires T.ValidRequest(r) && RequestParts(s, r)
    ensures (r.empty == [] || T.IsEnd(r.empty)) && T.IsToken(r.method_) && T.IsTarget(r.target) && T.IsEnd(r.end) && T.ValidFields(r.fields)
    ensures r.gap != [] && T.AllSpaces(r.gap) && r.gap2 != [] && T.AllSpaces(r.gap2)
    ensures var b, c := |r.empty| + |r.method_|, |r.empty| + |r.method_| + |r.gap|;
      At(s, 0, r.empty) && At(s, |r.empty|, r.method_) && At(s, b, r.gap) && At(s, c, r.target)
    ensures var d := |r.empty| + |r.method_| + |r.gap| + |r.target|;
      var e := d + |r.gap2|;
      && At(s, d, r.gap2) && At(s, e, T.HTTP + [DIGITS[r.minor]])
      && At(s, e + 8, r.end) && At(s, e + 8 + |r.end|, T.SpellFields(r.fields))
  {
    hide At, T.IsToken, T.IsTarget, T.AllSpaces, T.IsEnd, T.ValidFields, T.SpellFields;
  }

  lemma {:induction false} TargetLineRead(s: seq<byte>, r: T.Request)
    requires T.ValidRequest(r) && RequestParts(s, r)
    ensures var a, b, c := |r.empty|, |r.empty| + |r.method_|, |r.empty| + |r.method_| + |r.gap|;
      var d := c + |r.target|;
      && d < |s| && RequestStart(s) == Good((), a) && TokenFrom(s, a, a, SP) == Good(Slice(a, |r.method_|), b)
      && SpacesFrom(s, b + 1) == Good((), c) && TargetFrom(s, c, c) == Good(Slice(c, |r.target|), d)
  {
    hide *;
    var a, b, c := |r.empty|, |r.empty| + |r.method_|, |r.empty| + |r.method_| + |r.gap|;
    RequestFacts(s, r);
    GapFirst(s, b, r.gap);
    GapFirst(s, c + |r.target|, r.gap2);
    SpaceIsNoToken();
    TokenRead(s, a, r.method_, SP);
    StartRead(s, r.empty);
    TargetRead(s, c, r.target);
    SpacesAre(s, b, r.gap);
  }

  lemma SpaceIsNoToken()
    ensures !T.TokenChar(SP)
  {
    TokenChars(SP);
  }

  lemma VersionFirst(s: seq<byte>, e: nat, minor: nat)
    requires minor < 10 && At(s, e, T.HTTP + [DIGITS[minor]])
    ensures e < |s| && s[e] != SP
  {
    assert T.HTTP[0] == 72;
    AtOctet(s, e, T.HTTP + [DIGITS[minor]], 0);
  }

  lemma VersionLineRead(s: seq<byte>, r: T.Request, max: nat)
    requires T.ValidRequest(r) && RequestParts(s, r) && |r.fields.lines| <= max
    ensures var d := |r.empty| + |r.method_| + |r.gap| + |r.target|;
      var e := d + |r.gap2|;
      && d < |s| && SpacesFrom(s, d + 1) == Good((), e) && Version(s, e) == Good(r.minor, e + 8)
      && e + 8 < |s| && LineEnd(s, e + 8) == Good((), e + 8 + |r.end|)
      && HeadersFrom(s, e + 8 + |r.end|, [], max) == Good(HeadersAt(r.fields.lines, e + 8 + |r.end|),
           e + 8 + |r.end| + |T.SpellLines(r.fields.lines)| + |r.fields.end|)
  {
    hide *;
    var d := |r.empty| + |r.method_| + |r.gap| + |r.target|;
    var e := d + |r.gap2|;
    RequestFacts(s, r);
    EndRead(s, e + 8, r.end);
    VersionIs(s, e, r.minor);
    VersionFirst(s, e, r.minor);
    SpacesAre(s, d, r.gap2);
    FieldsRead(s, e + 8 + |r.end|, r.fields, max);
  }

  // A head in front of anything is read to its end.
  lemma RequestRead(s: seq<byte>, r: T.Request, max: nat)
    requires T.ValidRequest(r) && |r.fields.lines| <= max && At(s, 0, T.SpellRequest(r))
    ensures ParseRequest(s, max) == Good(RequestAt(r), |T.SpellRequest(r)|)
  {
    hide At, RequestStart, TokenFrom, SpacesFrom, TargetFrom, HeadersFrom, Version, LineEnd, T.SpellRequest, HeadersAt, T.SpellLines,
      RequestParts, T.ValidFields;
    PartsOfRequest(s, r);
    TargetLineRead(s, r);
    VersionLineRead(s, r, max);
  }

  lemma StartIs(s: seq<byte>)
    requires RequestStart(s).Good?
    ensures var a := RequestStart(s).next;
      a <= |s| && (s[..a] == [] || T.IsEnd(s[..a])) && At(s, 0, s[..a])
  {
    if s[0] == CR || s[0] == LF { EndFound(s, 0); }
  }

  // Where the scans of the request line stopped.
  lemma {:induction false} RequestLineIs(s: seq<byte>, max: nat) returns (a: nat, b: nat, c: nat, d: nat, e: nat, g: nat)
    requires ParseRequest(s, max).Good?
    ensures a < b < c < d < e && e + 8 < g <= |s|
    ensures RequestStart(s) == Good((), a) && TokenFrom(s, a, a, SP) == Good(Slice(a, b - a), b)
    ensures SpacesFrom(s, b + 1) == Good((), c) && TargetFrom(s, c, c) == Good(Slice(c, d - c), d)
    ensures SpacesFrom(s, d + 1) == Good((), e) && Version(s, e).Good? && Version(s, e).next == e + 8
    ensures LineEnd(s, e + 8) == Good((), g) && HeadersFrom(s, g, [], max).Good?
    ensures var headers := HeadersFrom(s, g, [], max);
      ParseRequest(s, max) == Good(ParsedRequest(Slice(a, b - a), Slice(c, d - c), Version(s, e).value, headers.value), headers.next)
  {
    hide RequestStart, TokenFrom, SpacesFrom, TargetFrom, HeadersFrom, Version, LineEnd;
    a := RequestStart(s).next;
    assert RequestStart(s).value == ();
    b := TokenFrom(s, a, a, SP).next;
    c := SpacesFrom(s, b + 1).next;
    assert SpacesFrom(s, b + 1).value == ();
    d := TargetFrom(s, c, c).next;
    e := SpacesFrom(s, d + 1).next;
    assert SpacesFrom(s, d + 1).value == ();
    g := LineEnd(s, e + 8).next;
    assert LineEnd(s, e + 8).value == ();
  }

  lemma TokenIs(s: seq<byte>, a: nat, b: nat)
    requires a < b < |s| && TokenFrom(s, a, a, SP) == Good(Slice(a, b - a), b)
    ensures T.IsToken(s[a..b]) && At(s, a, s[a..b]) && s[b] == SP
  {
    hide TokenFrom;
    SpaceIsNoToken();
    TokenStops(s, a, a, SP, b);
  }

  lemma TargetIs(s: seq<byte>, c: nat, d: nat)
    requires c < d < |s| && TargetFrom(s, c, c) == Good(Slice(c, d - c), d)
    ensures T.IsTarget(s[c..d]) && At(s, c, s[c..d]) && s[d] == SP
  {
    hide TargetFrom;
    TargetStops(s, c, c, d);
  }

  lemma GapIs(s: seq<byte>, b: nat, c: nat)
    requires b < c < |s| && s[b] == SP && SpacesFrom(s, b + 1) == Good((), c)
    ensures s[b..c] != [] && T.AllSpaces(s[b..c]) && At(s, b, s[b..c])
  {
    hide SpacesFrom;
    SpacesStop(s, b + 1, c);
    SpacesAre(s, b, s[b..c]);
  }

  lemma MinorFound(s: seq<byte>, e: nat) returns (minor: nat)
    requires e <= |s| && Version(s, e).Good?
    ensures minor == Version(s, e).value < 10 && At(s, e, T.HTTP + [DIGITS[minor]])
  {
    minor := Version(s, e).value;
    VersionIs(s, e, minor);
  }

  lemma FieldsFound(s: seq<byte>, g: nat, max: nat) returns (f: T.Fields)
    requires g <= |s| && HeadersFrom(s, g, [], max).Good?
    ensures T.ValidFields(f) && |f.lines| <= max && At(s, g, T.SpellFields(f))
    ensures HeadersFrom(s, g, [], max) == Good(HeadersAt(f.lines, g), g + |T.SpellLines(f.lines)| + |f.end|)
  {
    hide At, HeadersFrom, T.SpellLines, HeadersAt, T.ValidLine, T.IsEnd;
    var lines, end := LinesAre(s, g, [], max);
    f := T.Fields(lines, end);
    assert [] + HeadersAt(f.lines, g) == HeadersAt(f.lines, g);
  }

  lemma RequestMade(s: seq<byte>, r: T.Request)
    requires r.empty == [] || T.IsEnd(r.empty)
    requires T.IsToken(r.method_) && r.gap != [] && T.AllSpaces(r.gap) && T.IsTarget(r.target) && r.gap2 != [] && T.AllSpaces(r.gap2)
    requires T.IsEnd(r.end) && T.ValidFields(r.fields)
    ensures T.ValidRequest(r)
    ensures var b, c := |r.empty| + |r.method_|, |r.empty| + |r.method_| + |r.gap|;
      var d := c + |r.target|;
      var e := d + |r.gap2|;
      var first := At(s, 0, r.empty) && At(s, |r.empty|, r.method_) && At(s, b, r.gap) && At(s, c, r.target);
      var second := At(s, d, r.gap2) && At(s, e, T.HTTP + [DIGITS[r.minor]]) && At(s, e + 8, r.end);
      first && second && At(s, e + 8 + |r.end|, T.SpellFields(r.fields)) ==> RequestParts(s, r)
    ensures var c := |r.empty| + |r.method_| + |r.gap|;
      var g := c + |r.target| + |r.gap2| + 8 + |r.end|;
      RequestAt(r) == ParsedRequest(Slice(|r.empty|, |r.method_|), Slice(c, |r.target|), r.minor, HeadersAt(r.fields.lines, g))
  {
    hide At, T.IsToken, T.IsTarget, T.AllSpaces, T.IsEnd, T.ValidFields, T.SpellFields, HeadersAt;
  }

  // A head that was read is the spelling of one.
  lemma {:induction false} RequestIs(s: seq<byte>, max: nat) returns (r: T.Request)
    requires ParseRequest(s, max).Good?
    ensures T.ValidRequest(r) && |r.fields.lines| <= max && At(s, 0, T.SpellRequest(r))
    ensures ParseRequest(s, max) == Good(RequestAt(r), |T.SpellRequest(r)|)
  {
    hide *;
    var a, b, c, d, e, g := RequestLineIs(s, max);
    StartIs(s);
    TokenIs(s, a, b);
    GapIs(s, b, c);
    TargetIs(s, c, d);
    GapIs(s, d, e);
    var minor := MinorFound(s, e);
    EndFound(s, e + 8);
    var f := FieldsFound(s, g, max);
    r := T.Request(s[..a], s[a..b], s[b..c], s[c..d], s[d..e], minor, s[e + 8..g], f);
    RequestMade(s, r);
    PartsOfRequest(s, r);
  }

  predicate ReadAs(s: seq<byte>, max: nat, r: T.Request, p: ParsedRequest, n: nat) {
    && T.ValidRequest(r) && |r.fields.lines| <= max && At(s, 0, T.SpellRequest(r))
    && n == |T.SpellRequest(r)| && p == RequestAt(r)
  }

  // The parser succeeds exactly if the buffer begins with a head of at most `max` lines, reads all of it
  // and nothing behind it, and says where its parts stand.
  lemma RequestExactly(s: seq<byte>, max: nat, p: ParsedRequest, n: nat)
    ensures ParseRequest(s, max) == Good(p, n) <==> exists r :: ReadAs(s, max, r, p, n)
  {
    hide ParseRequest, T.ValidRequest, T.SpellRequest, At, RequestAt;
    if r :| ReadAs(s, max, r, p, n) { RequestRead(s, r, max); }
    if ParseRequest(s, max) == Good(p, n) {
      var r := RequestIs(s, max);
      assert ReadAs(s, max, r, p, n);
    }
  }

  // ---------- what the slices hold ----------

  // The header holds the texts of the line.
  predicate Shows(s: seq<byte>, h: Header, l: T.Line) {
    && Fits(h, |s|) && TextAt(s, h.value) == l.value
    && match l
       case Named(name, _, _, _, _) => h.Line? && TextAt(s, h.name) == name
       case Folded(_, _, _) => h.Continued?
  }

  lemma LineShown(s: seq<byte>, i: nat, l: T.Line)
    requires At(s, i, T.Spell(l))
    ensures Shows(s, HeaderAt(l, i), l)
  {
    match l
    case Named(name, before, value, after, end) =>
      PartsOfNamed(s, i, l);
      AtSlice(s, i, name);
      AtSlice(s, i + |name| + 1 + |before|, value);
    case Folded(value, after, end) =>
      ValueParts(s, i, value, after, end);
      AtSlice(s, i, value);
  }

  lemma {:induction false} LinesShown(s: seq<byte>, i: nat, lines: seq<T.Line>, k: nat)
    requires At(s, i, T.SpellLines(lines)) && k < |lines|
    ensures Shows(s, HeadersAt(lines, i)[k], lines[k])
    decreases |lines|
  {
    hide At, Shows, T.Spell, HeaderAt;
    AtJoin(s, i, T.Spell(lines[0]), T.SpellLines(lines[1..]));
    if k == 0 { LineShown(s, i, lines[0]); } else { LinesShown(s, i + |T.Spell(lines[0])|, lines[1..], k - 1); }
  }

  lemma FieldsShown(s: seq<byte>, g: nat, f: T.Fields)
    requires At(s, g, T.SpellFields(f))
    ensures forall k :: 0 <= k < |f.lines| ==> Shows(s, HeadersAt(f.lines, g)[k], f.lines[k])
  {
    hide At, Shows, HeadersAt, T.SpellLines;
    AtJoin(s, g, T.SpellLines(f.lines), f.end);
    forall k | 0 <= k < |f.lines| ensures Shows(s, HeadersAt(f.lines, g)[k], f.lines[k]) { LinesShown(s, g, f.lines, k); }
  }

  // The reported slices hold the method, the target, and of every line the name and the value.
  lemma {:induction false} RequestTexts(s: seq<byte>, r: T.Request)
    requires T.ValidRequest(r) && At(s, 0, T.SpellRequest(r))
    ensures var p := RequestAt(r);
      && p.method_.off + p.method_.len <= |s| && TextAt(s, p.method_) == r.method_
      && p.path.off + p.path.len <= |s| && TextAt(s, p.path) == r.target
      && p.minor == r.minor && |p.headers| == |r.fields.lines|
      && forall k :: 0 <= k < |p.headers| ==> Shows(s, p.headers[k], r.fields.lines[k])
  {
    hide *;
    PartsOfRequest(s, r);
    RequestFacts(s, r);
    PlaceOf(r);
    AtSlice(s, |r.empty|, r.method_);
    AtSlice(s, |r.empty| + |r.method_| + |r.gap|, r.target);
    FieldsShown(s, |r.empty| + |r.method_| + |r.gap| + |r.target| + |r.gap2| + 8 + |r.end|, r.fields);
  }

  lemma PlaceOf(r: T.Request)
    ensures var c := |r.empty| + |r.method_| + |r.gap|;
      var g := c + |r.target| + |r.gap2| + 8 + |r.end|;
      RequestAt(r) == ParsedRequest(Slice(|r.empty|, |r.method_|), Slice(c, |r.target|), r.minor, HeadersAt(r.fields.lines, g))
  {}
}
