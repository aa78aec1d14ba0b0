/**
 What it means for a registered pattern to match a path, and which of several matches wins.
 */
module RouterSpec {
  import opened Bytes
  import opened Messages
  import opened Paths

  // A normalised pattern: what `:name` is called does not matter.
  datatype Edge = Lit(text: Text) | Param | Wild

  type Pattern = seq<Edge>

  const STAR: Text := [42]
  const COLON_CHAR: byte := 58

  function EdgeOf(segment: Text): Edge {
    if segment == STAR then Wild
    else if |segment| > 0 && segment[0] == COLON_CHAR then Param
    else Lit(segment)
  }

  // A segment `*` is a wildcard, one that begins with a colon a parameter; every other stands for itself.
  lemma EdgesOfSegments(segment: Text)
    ensures EdgeOf(segment) == Wild <==> segment == Ascii("*")
    ensures EdgeOf(segment) == Param <==> segment != [] && segment[0] == ':' as int
    ensures EdgeOf(segment) == Lit(segment) <==> segment != Ascii("*") && !(segment != [] && segment[0] == ':' as int)
  {
    assert Ascii("*") == [42];
  }

  function Normal(segments: seq<Text>): (p: Pattern)
    ensures |p| == |segments|
  {
    seq(|segments|, k requires 0 <= k < |segments| => EdgeOf(segments[k]))
  }

  lemma NormalGrows(segments: seq<Text>, i: nat)
    requires i < |segments|
    ensures Normal(segments[..i + 1]) == Normal(segments[..i]) + [EdgeOf(segments[i])]
  {}

  // A literal matches itself, a parameter any one segment, a wildcard one or more.
  predicate Matches(p: Pattern, path: seq<Text>) {
    if p == [] then path == []
    else
      match p[0]
      case Lit(text) => path != [] && path[0] == text && Matches(p[1..], path[1..])
      case Param => path != [] && Matches(p[1..], path[1..])
      case Wild => exists n :: 1 <= n <= |path| && Matches(p[1..], path[n..])
  }

  // ---------- derivations and their priority ----------

  datatype Choice = Literally | AnyOne | Wildly(n: nat)

  type Derivation = seq<Choice>

  function Taken(c: Choice): nat {
    if c.Wildly? then c.n else 1
  }

  // The derivation uses up the path.
  predicate Covers(d: Derivation, path: seq<Text>) {
    if d == [] then path == [] else 1 <= Taken(d[0]) <= |path| && Covers(d[1..], path[Taken(d[0])..])
  }

  // The pattern it reads the path as.
  function PatternOf(d: Derivation, path: seq<Text>): Pattern
    requires Covers(d, path)
  {
    if d == [] then [] else [EdgeTaken(d[0], path)] + PatternOf(d[1..], path[Taken(d[0])..])
  }

  function EdgeTaken(c: Choice, path: seq<Text>): Edge
    requires path != []
  {
    match c case Literally => Lit(path[0]) case AnyOne => Param case Wildly(_) => Wild
  }

  // Literal before parameter before wildcard, shorter wildcard first.
  function Rank(c: Choice): nat {
    match c case Literally => 0 case AnyOne => 1 case Wildly(n) => 2 + n
  }

  predicate NotAfter(d: Derivation, e: Derivation) {
    if d == [] then true
    else if e == [] then false
    else Rank(d[0]) < Rank(e[0]) || (Rank(d[0]) == Rank(e[0]) && NotAfter(d[1..], e[1..]))
  }

  // ---------- the search ----------

  // The first derivation of the path, in the order of the search, whose pattern behind `prefix` is
  // registered.
  function Search(registered: set<Pattern>, prefix: Pattern, path: seq<Text>): (r: Option<Derivation>)
    ensures r.Some? && path != [] ==> r.value != []
    decreases |path|, |path| + 1
  {
    if path == [] then (if prefix in registered then Some([]) else None)
    else
      var literal := Search(registered, prefix + [Lit(path[0])], path[1..]);
      if literal.Some? then Some([Literally] + literal.value)
      else
        var param := Search(registered, prefix + [Param], path[1..]);
        if param.Some? then Some([AnyOne] + param.value)
        else SearchWild(registered, prefix, path, 1)
  }

  // The same, for wildcards that take `n` segments or more.
  function SearchWild(registered: set<Pattern>, prefix: Pattern, path: seq<Text>, n: nat): (r: Option<Derivation>)
    requires 1 <= n <= |path| + 1
    ensures r.Some? ==> r.value != []
    decreases |path|, |path| + 1 - n
  {
    if n > |path| then None
    else
      var r := Search(registered, prefix + [Wild], path[n..]);
      if r.Some? then Some([Wildly(n)] + r.value) else SearchWild(registered, prefix, path, n + 1)
  }

  // ---------- the search finds the best match ----------

  predicate Hits(registered: set<Pattern>, prefix: Pattern, path: seq<Text>, d: Derivation) {
    Covers(d, path) && prefix + PatternOf(d, path) in registered
  }

  ghost predicate Best(registered: set<Pattern>, prefix: Pattern, path: seq<Text>, r: Option<Derivation>) {
    && (r.Some? ==> Hits(registered, prefix, path, r.value))
    && (forall e :: Hits(registered, prefix, path, e) ==> r.Some? && NotAfter(r.value, e))
  }

  // How a derivation begins.
  lemma HitsStep(registered: set<Pattern>, prefix: Pattern, path: seq<Text>, d: Derivation)
    requires d != [] && path != []
    ensures Hits(registered, prefix, path, d) <==>
      1 <= Taken(d[0]) <= |path| && Hits(registered, prefix + [EdgeTaken(d[0], path)], path[Taken(d[0])..], d[1..])
  {
    if Covers(d, path) {
      var edge, rest := EdgeTaken(d[0], path), PatternOf(d[1..], path[Taken(d[0])..]);
      assert prefix + ([edge] + rest) == prefix + [edge] + rest;
    }
  }

  lemma {:induction false} SearchIsBest(registered: set<Pattern>, prefix: Pattern, path: seq<Text>)
    ensures Best(registered, prefix, path, Search(registered, prefix, path))
    decreases |path|, |path| + 1
  {
    hide Hits;
    var r := Search(registered, prefix, path);
    if path == [] {
      forall e ensures Hits(registered, prefix, path, e) <==> e == [] && prefix in registered { HitsEnd(registered, prefix, e); }
    } else {
      SearchIsBest(registered, prefix + [Lit(path[0])], path[1..]);
      SearchIsBest(registered, prefix + [Param], path[1..]);
      SearchWildIsBest(registered, prefix, path, 1);
      if r.Some? { HitsStep(registered, prefix, path, r.value); }
      forall e | Hits(registered, prefix, path, e) ensures r.Some? && NotAfter(r.value, e) {
        HitsNotEmpty(registered, prefix, path, e);
        HitsStep(registered, prefix, path, e);
      }
    }
  }

  lemma {:induction false} SearchWildIsBest(registered: set<Pattern>, prefix: Pattern, path: seq<Text>, n: nat)
    requires 1 <= n <= |path| + 1 && path != []
    ensures var r := SearchWild(registered, prefix, path, n);
      && (r.Some? ==> Hits(registered, prefix, path, r.value) && r.value[0].Wildly? && r.value[0].n >= n)
      && (forall e: Derivation :: Hits(registered, prefix, path, e) && e != [] && e[0].Wildly? && e[0].n >= n ==> r.Some? && NotAfter(r.value, e))
    decreases |path|, |path| + 1 - n
  {
    hide Hits;
    var r := SearchWild(registered, prefix, path, n);
    if n <= |path| {
      SearchIsBest(registered, prefix + [Wild], path[n..]);
      SearchWildIsBest(registered, prefix, path, n + 1);
      if r.Some? { HitsStep(registered, prefix, path, r.value); }
    }
    forall e: Derivation | Hits(registered, prefix, path, e) && e != [] && e[0].Wildly? && e[0].n >= n ensures r.Some? && NotAfter(r.value, e) {
      HitsStep(registered, prefix, path, e);
    }
  }

  lemma HitsEnd(registered: set<Pattern>, prefix: Pattern, e: Derivation)
    ensures Hits(registered, prefix, [], e) <==> e == [] && prefix in registered
  {
    assert prefix + [] == prefix;
  }

  lemma HitsNotEmpty(registered: set<Pattern>, prefix: Pattern, path: seq<Text>, e: Derivation)
    requires Hits(registered, prefix, path, e) && path != []
    ensures e != []
  {}

  // ---------- derivations are matches ----------

  lemma {:induction false} DerivationMatches(d: Derivation, path: seq<Text>)
    requires Covers(d, path)
    ensures Matches(PatternOf(d, path), path)
    decreases |d|
  {
    if d != [] {
      var rest := PatternOf(d[1..], path[Taken(d[0])..]);
      DerivationMatches(d[1..], path[Taken(d[0])..]);
      assert PatternOf(d, path)[1..] == rest;
    }
  }

  lemma {:induction false} MatchDerives(p: Pattern, path: seq<Text>) returns (d: Derivation)
    requires Matches(p, path)
    ensures Covers(d, path) && PatternOf(d, path) == p
    decreases |p|
  {
    if p == [] { return []; }
    var c;
    match p[0] {
      case Lit(_) => c := Literally;
      case Param => c := AnyOne;
      case Wild =>
        var n :| 1 <= n <= |path| && Matches(p[1..], path[n..]);
        c := Wildly(n);
    }
    var rest := MatchDerives(p[1..], path[Taken(c)..]);
    d := [c] + rest;
    assert d[1..] == rest;
  }

  // The search finds something exactly when some registered pattern matches.
  lemma SearchFindsMatches(registered: set<Pattern>, path: seq<Text>)
    ensures Search(registered, [], path).Some? <==> exists p :: p in registered && Matches(p, path)
  {
    SearchIsBest(registered, [], path);
    var r := Search(registered, [], path);
    if r.Some? {
      DerivationMatches(r.value, path);
      assert [] + PatternOf(r.value, path) == PatternOf(r.value, path);
    }
    if exists p :: p in registered && Matches(p, path) {
      var p :| p in registered && Matches(p, path);
      var d := MatchDerives(p, path);
      assert [] + p == p;
      assert Hits(registered, [], path, d);
    }
  }

  // ---------- a path registered literally finds itself ----------

  predicate AllLiteral(path: seq<Text>) {
    forall k :: 0 <= k < |path| ==> EdgeOf(path[k]).Lit?
  }

  function Literals(n: nat): (d: Derivation)
    ensures |d| == n && forall k :: 0 <= k < n ==> d[k] == Literally
  {
    seq(n, _ => Literally)
  }

  lemma {:induction false} LiteralsCover(path: seq<Text>)
    requires AllLiteral(path)
    ensures Covers(Literals(|path|), path) && PatternOf(Literals(|path|), path) == Normal(path)
    decreases |path|
  {
    var d := Literals(|path|);
    if path != [] {
      LiteralsCover(path[1..]);
      LiteralsFirst(path);
    }
  }

  lemma LiteralsFirst(path: seq<Text>)
    requires path != []
    ensures Literals(|path|)[1..] == Literals(|path| - 1) && Normal(path) == [EdgeOf(path[0])] + Normal(path[1..])
  {}

  lemma {:induction false} NothingBeforeLiterals(d: Derivation, path: seq<Text>)
    requires Covers(d, path) && NotAfter(d, Literals(|path|))
    ensures d == Literals(|path|)
    decreases |d|
  {
    if d != [] {
      assert Literals(|path|)[1..] == Literals(|path| - 1);
      NothingBeforeLiterals(d[1..], path[1..]);
      assert d == [d[0]] + d[1..];
    }
  }

  lemma LiteralPathFindsItself(registered: set<Pattern>, path: seq<Text>)
    requires AllLiteral(path) && Normal(path) in registered
    ensures var r := Search(registered, [], path);
      r.Some? && Covers(r.value, path) && PatternOf(r.value, path) == Normal(path)
  {
    SearchIsBest(registered, [], path);
    LiteralsCover(path);
    assert [] + Normal(path) == Normal(path);
    assert Hits(registered, [], path, Literals(|path|));
    NothingBeforeLiterals(Search(registered, [], path).value, path);
  }

  // ---------- registration ----------

  datatype Route<+H> = Route(path: Text, handler: H)

  function PatternAt(path: Text): Pattern {
    Normal(Segments(path))
  }

  // The handlers after registering `routes` one after another.
  function Table<H>(routes: seq<Route<H>>): map<Pattern, H> {
    if routes == [] then map[]
    else
      var last := routes[|routes| - 1];
      Table(routes[..|routes| - 1])[PatternAt(last.path) := last.handler]
  }

  predicate IsLast<H>(routes: seq<Route<H>>, p: Pattern, k: nat) {
    k < |routes| && PatternAt(routes[k].path) == p && forall j :: k < j < |routes| ==> PatternAt(routes[j].path) != p
  }

  // Of several routes with one pattern the last counts.
  lemma {:induction false} LastRegistrationCounts<H>(routes: seq<Route<H>>, p: Pattern)
    ensures p in Table(routes) <==> exists k :: 0 <= k < |routes| && PatternAt(routes[k].path) == p
    ensures p in Table(routes) ==> exists k: nat :: IsLast(routes, p, k) && Table(routes)[p] == routes[k].handler
  {
    if routes != [] {
      hide PatternAt;
      var n := |routes| - 1;
      LastRegistrationCounts(routes[..n], p);
      if PatternAt(routes[n].path) == p {
        assert IsLast(routes, p, n);
      } else {
        assert forall k :: 0 <= k < n ==> routes[..n][k] == routes[k];
        if p in Table(routes) {
          var k: nat :| IsLast(routes[..n], p, k) && Table(routes[..n])[p] == routes[..n][k].handler;
          assert IsLast(routes, p, k);
        }
      }
    }
  }

  predicate DistinctPatterns<H>(routes: seq<Route<H>>) {
    forall j, k :: 0 <= j < k < |routes| ==> PatternAt(routes[j].path) != PatternAt(routes[k].path)
  }

  // Routes with different patterns may be registered in any order.
  lemma {:induction false} OrderDoesNotMatter<H>(a: seq<Route<H>>, b: seq<Route<H>>)
    requires DistinctPatterns(a) && DistinctPatterns(b) && multiset(a) == multiset(b)
    ensures Table(a) == Table(b)
  {
    SameRoutes(a, b);
    SameRoutes(b, a);
  }

  lemma SameRoutes<H>(a: seq<Route<H>>, b: seq<Route<H>>)
    requires DistinctPatterns(b) && multiset(a) == multiset(b)
    ensures forall p :: p in Table(a) ==> p in Table(b) && Table(b)[p] == Table(a)[p]
  {
    hide PatternAt, Table;
    forall p | p in Table(a) ensures p in Table(b) && Table(b)[p] == Table(a)[p] {
      LastRegistrationCounts(a, p);
      var k: nat :| IsLast(a, p, k) && Table(a)[p] == a[k].handler;
      assert a[k] in multiset(a) && a[k] in multiset(b);
      var j :| 0 <= j < |b| && b[j] == a[k];
      LastRegistrationCounts(b, p);
    }
  }

  // The handler that serves a path, if any does.
  function Chosen<H>(routes: seq<Route<H>>, path: seq<Text>): (r: Option<H>)
    ensures r.Some? <==> exists k :: 0 <= k < |routes| && Matches(PatternAt(routes[k].path), path)
  {
    var table := Table(routes);
    var d := Search(table.Keys, [], path);
    SomeRouteMatches(routes, path);
    if d.None? then None
    else
      SearchIsBest(table.Keys, [], path);
      assert [] + PatternOf(d.value, path) == PatternOf(d.value, path);
      Some(table[PatternOf(d.value, path)])
  }

  // The derivation reads the path as the pattern of route `k`, the last with that pattern.
  predicate Serves<H>(routes: seq<Route<H>>, path: seq<Text>, k: nat, d: Derivation) {
    Covers(d, path) && IsLast(routes, PatternOf(d, path), k)
  }

  // The handler chosen is that of a last route with its pattern, by a derivation that comes no later than
  // any by which any route matches.
  lemma ChosenIsBest<H>(routes: seq<Route<H>>, path: seq<Text>)
    ensures Chosen(routes, path).Some? ==>
      exists k: nat, d :: Serves(routes, path, k, d) && Chosen(routes, path).value == routes[k].handler
        && forall j: nat, e :: Serves(routes, path, j, e) ==> NotAfter(d, e)
  {
    if Chosen(routes, path).Some? {
      var table := Table(routes);
      var d := Search(table.Keys, [], path).value;
      SearchIsBest(table.Keys, [], path);
      assert [] + PatternOf(d, path) == PatternOf(d, path);
      LastRegistrationCounts(routes, PatternOf(d, path));
      hide Search, Table, Covers, PatternOf, NotAfter, PatternAt;
      var k: nat :| IsLast(routes, PatternOf(d, path), k) && table[PatternOf(d, path)] == routes[k].handler;
      assert Serves(routes, path, k, d);
      forall j: nat, e | Serves(routes, path, j, e) ensures NotAfter(d, e) {
        LastRegistrationCounts(routes, PatternOf(e, path));
        assert [] + PatternOf(e, path) == PatternOf(e, path);
        assert Hits(table.Keys, [], path, e);
      }
    }
  }

  lemma SomeRouteMatches<H>(routes: seq<Route<H>>, path: seq<Text>)
    ensures Search(Table(routes).Keys, [], path).Some?
      <==> exists k :: 0 <= k < |routes| && Matches(PatternAt(routes[k].path), path)
  {
    hide Matches, Search, Table, PatternAt;
    SearchFindsMatches(Table(routes).Keys, path);
    forall p ensures p in Table(routes) <==> exists k :: 0 <= k < |routes| && PatternAt(routes[k].path) == p {
      LastRegistrationCounts(routes, p);
    }
  }

  // A path registered with no `*` or `:` segments is served by the last handler registered for it,
  // whatever was registered before it, after it and beside it.
  lemma LiteralPathIsServed<H>(routes: seq<Route<H>>, k: nat)
    requires k < |routes| && AllLiteral(Segments(routes[k].path)) && IsLast(routes, PatternAt(routes[k].path), k)
    ensures Chosen(routes, Segments(routes[k].path)) == Some(routes[k].handler)
  {
    hide Search, Table, Segments;
    var path := Segments(routes[k].path);
    LastRegistrationCounts(routes, PatternAt(routes[k].path));
    LiteralPathFindsItself(Table(routes).Keys, path);
  }
}
