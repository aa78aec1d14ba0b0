/**
 What a head parser has decided does not depend on octets it has not needed: a success on n octets
 stands on every buffer that shares those n octets, a rejection stands under every extension, and
 every shorter prefix of a successful head is reported as incomplete.
 */
module HeadStability {
  import opened Bytes
  import opened HeadSpec

  predicate Agree(s: seq<byte>, t: seq<byte>, m: nat) {
    m <= |s| && m <= |t| && forall k :: 0 <= k < m ==> s[k] == t[k]
  }

  // `r` was decided on `s` from its first `m` octets alone: a success that looked at `seen` octets,
  // or a rejection and `s` has no others.
  predicate Decided<T>(s: seq<byte>, m: nat, r: Result<T>, ahead: nat) {
    match r
    case Good(_, next) => next + ahead <= m
    case Bad => m == |s|
    case Partial => false
  }

  lemma {:induction false} TokenStable(s: seq<byte>, t: seq<byte>, m: nat, start: nat, j: nat, stop: byte)
    requires Agree(s, t, m) && start <= j <= m && Decided(s, m, TokenFrom(s, start, j, stop), 1)
    ensures TokenFrom(t, start, j, stop) == TokenFrom(s, start, j, stop)
    decreases |s| - j
  {
    if j < |s| && s[j] != stop && IsTokenChar(s[j]) { TokenStable(s, t, m, start, j + 1, stop); }
  }

  lemma {:induction false} TargetStable(s: seq<byte>, t: seq<byte>, m: nat, start: nat, j: nat)
    requires Agree(s, t, m) && start <= j <= m && Decided(s, m, TargetFrom(s, start, j), 1)
    ensures TargetFrom(t, start, j) == TargetFrom(s, start, j)
    decreases |s| - j
  {
    if j < |s| && s[j] != SP && s[j] >= 32 && s[j] != DEL { TargetStable(s, t, m, start, j + 1); }
  }

  lemma {:induction false} LineStable(s: seq<byte>, t: seq<byte>, m: nat, start: nat, j: nat)
    requires Agree(s, t, m) && start <= j <= m && Decided(s, m, LineFrom(s, start, j), 0)
    ensures LineFrom(t, start, j) == LineFrom(s, start, j)
    decreases |s| - j
  {
    if j < |s| && !IsControl(s[j]) { LineStable(s, t, m, start, j + 1); }
  }

  lemma {:induction false} SpacesStable(s: seq<byte>, t: seq<byte>, m: nat, j: nat)
    requires Agree(s, t, m) && j <= m && Decided(s, m, SpacesFrom(s, j), 1)
    ensures SpacesFrom(t, j) == SpacesFrom(s, j)
    decreases |s| - j
  {
    if j < |s| && s[j] == SP { SpacesStable(s, t, m, j + 1); }
  }

  lemma {:induction false} BlanksStable(s: seq<byte>, t: seq<byte>, m: nat, j: nat)
    requires Agree(s, t, m) && j <= m && Decided(s, m, BlanksFrom(s, j), 1)
    ensures BlanksFrom(t, j) == BlanksFrom(s, j)
    decreases |s| - j
  {
    if j < |s| && IsBlank(s[j]) { BlanksStable(s, t, m, j + 1); }
  }

  lemma VersionStable(s: seq<byte>, t: seq<byte>, m: nat, j: nat)
    requires Agree(s, t, m) && j <= m && Decided(s, m, Version(s, j), 1)
    ensures Version(t, j) == Version(s, j)
  {
    assert s[j..j + 7] == t[j..j + 7];
  }

  lemma {:induction false} TrimStable(s: seq<byte>, t: seq<byte>, m: nat, v: Slice)
    requires Agree(s, t, m) && v.off + v.len <= m
    ensures TrimEnd(t, v) == TrimEnd(s, v)
    decreases v.len
  {
    if v.len > 0 && IsBlank(s[v.off + v.len - 1]) { TrimStable(s, t, m, v.(len := v.len - 1)); }
  }

  lemma HeaderLineStable(s: seq<byte>, t: seq<byte>, m: nat, i: nat, first: bool)
    requires Agree(s, t, m) && i < m && Decided(s, m, HeaderLine(s, i, first), 0)
    ensures HeaderLine(t, i, first) == HeaderLine(s, i, first)
  {
    hide TokenFrom, BlanksFrom, LineFrom, TrimEnd;
    if !first && IsBlank(s[i]) {
      LineStable(s, t, m, i, i);
      var r := LineFrom(s, i, i);
      if r.Good? { TrimStable(s, t, m, r.value); }
    } else {
      TokenStable(s, t, m, i, i, COLON);
      var r := TokenFrom(s, i, i, COLON);
      if r.Good? && r.value.len > 0 {
        BlanksStable(s, t, m, r.next + 1);
        var k := BlanksFrom(s, r.next + 1);
        if k.Good? {
          LineStable(s, t, m, k.next, k.next);
          var v := LineFrom(s, k.next, k.next);
          if v.Good? { TrimStable(s, t, m, v.value); }
        }
      }
    }
  }

  lemma {:induction false} HeadersStable(s: seq<byte>, t: seq<byte>, m: nat, i: nat, got: seq<Header>, max: nat)
    requires Agree(s, t, m) && i <= m && Decided(s, m, HeadersFrom(s, i, got, max), 0)
    ensures HeadersFrom(t, i, got, max) == HeadersFrom(s, i, got, max)
    decreases |s| - i
  {
    hide HeaderLine;
    if i < |s| && s[i] != CR && s[i] != LF && |got| != max {
      HeaderLineStable(s, t, m, i, got == []);
      var h := HeaderLine(s, i, got == []);
      if h.Good? { HeadersStable(s, t, m, h.next, got + [h.value], max); }
    }
  }

  lemma RequestTailStable(s: seq<byte>, t: seq<byte>, m: nat, i: nat, method_: Slice, path: Slice, max: nat)
    requires Agree(s, t, m) && i <= m && Decided(s, m, RequestTail(s, i, method_, path, max), 0)
    ensures RequestTail(t, i, method_, path, max) == RequestTail(s, i, method_, path, max)
  {
    hide SpacesFrom, Version, HeadersFrom;
    SpacesStable(s, t, m, i);
    var e := SpacesFrom(s, i);
    if e.Good? && method_.len != 0 && path.len != 0 {
      VersionStable(s, t, m, e.next);
      var f := Version(s, e.next);
      if f.Good? {
        var g := LineEnd(s, f.next);
        if g.Good? { HeadersStable(s, t, m, g.next, [], max); }
      }
    }
  }

  lemma {:induction false} RequestStable(s: seq<byte>, t: seq<byte>, m: nat, max: nat)
    requires Agree(s, t, m) && Decided(s, m, ParseRequest(s, max), 0)
    ensures ParseRequest(t, max) == ParseRequest(s, max)
  {
    hide TokenFrom, SpacesFrom, TargetFrom, RequestTail;
    var a := RequestStart(s);
    if a.Good? {
      TokenStable(s, t, m, a.next, a.next, SP);
      var b := TokenFrom(s, a.next, a.next, SP);
      if b.Good? {
        SpacesStable(s, t, m, b.next + 1);
        var c := SpacesFrom(s, b.next + 1);
        if c.Good? {
          TargetStable(s, t, m, c.next, c.next);
          var d := TargetFrom(s, c.next, c.next);
          if d.Good? { RequestTailStable(s, t, m, d.next + 1, b.value, d.value, max); }
        }
      }
    }
  }

  lemma {:induction false} DropSpacesStable(s: seq<byte>, t: seq<byte>, m: nat, v: Slice)
    requires Agree(s, t, m) && v.off + v.len <= m
    ensures DropSpaces(t, v) == DropSpaces(s, v)
    decreases v.len
  {
    if v.len > 0 && s[v.off] == SP { DropSpacesStable(s, t, m, Slice(v.off + 1, v.len - 1)); }
  }

  // The parts of a response head from its status code on.
  lemma ResponseTailStable(s: seq<byte>, t: seq<byte>, m: nat, b: nat, max: nat)
    requires Agree(s, t, m) && b < m
    requires Decided(s, m, ResponseTail(s, b, max), 0)
    ensures ResponseTail(t, b, max) == ResponseTail(s, b, max)
  {
    hide LineFrom, HeadersFrom, DropSpaces;
    if |s| - b >= 4 && IsDigit(s[b]) && IsDigit(s[b + 1]) && IsDigit(s[b + 2]) {
      LineStable(s, t, m, b + 3, b + 3);
      var line := LineFrom(s, b + 3, b + 3);
      if line.Good? {
        DropSpacesStable(s, t, m, line.value);
        if Reason(s, line.value).Good? { HeadersStable(s, t, m, line.next, [], max); }
      }
    }
  }

  lemma ResponseStable(s: seq<byte>, t: seq<byte>, m: nat, max: nat)
    requires Agree(s, t, m) && Decided(s, m, ParseResponse(s, max), 0)
    ensures ParseResponse(t, max) == ParseResponse(s, max)
  {
    hide Version, SpacesFrom, ResponseTail;
    VersionStable(s, t, m, 0);
    var a := Version(s, 0);
    if a.Good? && s[a.next] == SP {
      SpacesStable(s, t, m, a.next + 1);
      var b := SpacesFrom(s, a.next + 1);
      if b.Good? { ResponseTailStable(s, t, m, b.next, max); }
    }
  }

  // Prefix stability of the request parser.
  lemma PrefixStability(s: seq<byte>, max: nat)
    ensures var r := ParseRequest(s, max);
      && (r.Good? ==> forall t :: Agree(s, t, r.next) ==> ParseRequest(t, max) == r)
      && (r.Good? ==> forall k :: 0 <= k < r.next ==> ParseRequest(s[..k], max) == Partial)
      && (r.Bad? ==> forall t :: s <= t ==> ParseRequest(t, max) == Bad)
  {
    hide ParseRequest;
    var r := ParseRequest(s, max);
    forall t | r.Good? && Agree(s, t, r.next) ensures ParseRequest(t, max) == r {
      RequestStable(s, t, r.next, max);
    }
    forall k | r.Good? && 0 <= k < r.next ensures ParseRequest(s[..k], max) == Partial {
      if ParseRequest(s[..k], max) != Partial { RequestStable(s[..k], s, k, max); }
    }
    forall t | r.Bad? && s <= t ensures ParseRequest(t, max) == Bad {
      RequestStable(s, t, |s|, max);
    }
  }

  // Prefix stability of the response parser.
  lemma ResponsePrefixStability(s: seq<byte>, max: nat)
    ensures var r := ParseResponse(s, max);
      && (r.Good? ==> forall t :: Agree(s, t, r.next) ==> ParseResponse(t, max) == r)
      && (r.Good? ==> forall k :: 0 <= k < r.next ==> ParseResponse(s[..k], max) == Partial)
      && (r.Bad? ==> forall t :: s <= t ==> ParseResponse(t, max) == Bad)
  {
    hide ParseResponse;
    var r := ParseResponse(s, max);
    forall t | r.Good? && Agree(s, t, r.next) ensures ParseResponse(t, max) == r {
      ResponseStable(s, t, r.next, max);
    }
    forall k | r.Good? && 0 <= k < r.next ensures ParseResponse(s[..k], max) == Partial {
      if ParseResponse(s[..k], max) != Partial { ResponseStable(s[..k], s, k, max); }
    }
    forall t | r.Bad? && s <= t ensures ParseResponse(t, max) == Bad {
      ResponseStable(s, t, |s|, max);
    }
  }
}
