/**
 The router: a tree of nodes linked in place, walked down by `Add` and searched with backtracking by
 `Find`. `at` records which node stands for which pattern.
 */
module Router {
  import opened Bytes
  import opened Messages
  import opened Paths
  import opened RouterSpec

  lemma ParentOf(p: Pattern, e: Edge)
    ensures p + [e] != [] && (p + [e])[..|p + [e]| - 1] == p && (p + [e])[|p|] == e && p + [e] != p
  {}

  class Node<H> {
    var children: map<Text, Node<H>>
    var paramChild: Node?<H>
    var wildcardChild: Node?<H>
    var handler: Option<H>

    constructor ()
      ensures children == map[] && paramChild == null && wildcardChild == null && handler == None
    {
      children, paramChild, wildcardChild, handler := map[], null, null, None;
    }

    function Child(e: Edge): Node?<H>
      reads this`children, this`paramChild, this`wildcardChild
    {
      match e
      case Lit(text) => if text in children then children[text] else null
      case Param => paramChild
      case Wild => wildcardChild
    }

    method Link(e: Edge, child: Node<H>)
      modifies this`children, this`paramChild, this`wildcardChild
      ensures Child(e) == child
      ensures forall f :: f != e ==> Child(f) == old(Child(f))
    {
      match e {
        case Wild => wildcardChild := child;
        case Param => paramChild := child;
        case Lit(text) => children := children[text := child];
      }
    }
  }

  ghost function NodeAt<H>(at: map<Pattern, Node<H>>, p: Pattern): Node?<H> {
    if p in at then at[p] else null
  }

  // A prefix-closed set of patterns, each with a node of its own.
  ghost predicate Shape<H>(at: map<Pattern, Node<H>>, root: Node<H>) {
    && [] in at && at[[]] == root
    && (forall p :: p in at && p != [] ==> p[..|p| - 1] in at)
    && (forall p, q :: p in at && q in at && at[p] == at[q] ==> p == q)
  }

  lemma ShapeGrows<H>(at: map<Pattern, Node<H>>, root: Node<H>, p: Pattern, e: Edge, child: Node<H>)
    requires Shape(at, root) && p in at && p + [e] !in at && child !in at.Values
    ensures Shape(at[p + [e] := child], root)
    ensures forall f :: p + [e] + [f] !in at[p + [e] := child]
    ensures forall q, f :: q in at && q != p ==> q + [f] != p + [e]
    ensures forall f :: f != e ==> p + [f] != p + [e]
  {
    ParentOf(p, e);
    forall f ensures p + [e] + [f] !in at[p + [e] := child] { ParentOf(p + [e], f); }
    forall q, f | q + [f] == p + [e] ensures q == p && f == e {
      ParentOf(q, f);
      assert |q| == |p|;
    }
  }

  lemma {:induction false} LinksGrow<H>(at: map<Pattern, Node<H>>, root: Node<H>, p: Pattern, e: Edge, child: Node<H>)
    requires Shape(at, root) && p in at && p + [e] !in at && child !in at.Values
    requires forall f :: child.Child(f) == null
    requires at[p].Child(e) == child && forall f :: f != e ==> at[p].Child(f) == NodeAt(at, p + [f])
    requires forall q, f :: q in at && q != p ==> at[q].Child(f) == NodeAt(at, q + [f])
    ensures var grown := at[p + [e] := child];
      Shape(grown, root) && forall q, f :: q in grown ==> grown[q].Child(f) == NodeAt(grown, q + [f])
  {
    hide Shape;
    ShapeGrows(at, root, p, e, child);
  }

  class Router<H> {
    const root: Node<H>
    var notFoundHandler: Option<H>
    ghost var at: map<Pattern, Node<H>>
    ghost var routes: seq<Route<H>>

    // The nodes form a tree, and `at` says where each of them is.
    ghost predicate Tree()
      reads this`at, at.Values`children, at.Values`paramChild, at.Values`wildcardChild
    {
      Shape(at, root) && forall p, e :: p in at ==> at[p].Child(e) == NodeAt(at, p + [e])
    }

    // The handlers in the tree are those of the table.
    ghost predicate Holds(table: map<Pattern, H>)
      reads this`at, at.Values`handler
    {
      forall p :: (p in table <==> p in at && at[p].handler.Some?) && (p in table ==> at[p].handler == Some(table[p]))
    }

    ghost predicate Valid()
      reads this, at.Values
    {
      Tree() && Holds(Table(routes))
    }

    constructor ()
      ensures Valid() && routes == [] && notFoundHandler == None && fresh(at.Values)
    {
      root := new Node<H>();
      notFoundHandler := None;
      new;
      at, routes := map[[] := root], [];
    }

    // A new node along an edge that leads nowhere yet.
    method Grow(n: Node<H>, ghost p: Pattern, edge: Edge) returns (child: Node<H>)
      requires Tree() && p in at && at[p] == n && n.Child(edge) == null
      modifies this`at, n`children, n`paramChild, n`wildcardChild
      ensures Tree() && fresh(child) && child.handler == None
      ensures p + [edge] !in old(at) && at == old(at)[p + [edge] := child]
    {
      hide Shape;
      ghost var here, before := p + [edge], at;
      NothingThere(n, p, edge);
      child := new Node<H>();
      n.Link(edge, child);
      at := at[here := child];
      assert forall q, f :: q in before && q != p ==> before[q].Child(f) == NodeAt(before, q + [f]);
      LinksGrow(before, root, p, edge, child);
      hide NodeAt;
    }

    lemma NothingThere(n: Node<H>, p: Pattern, edge: Edge)
      requires Tree() && p in at && at[p] == n && n.Child(edge) == null
      ensures p + [edge] !in at && forall q :: q in at && q != p ==> at[q] != n
    {
      assert n.Child(edge) == NodeAt(at, p + [edge]);
    }

    // The child along one edge, created if it is not there.
    method Descend(n: Node<H>, ghost p: Pattern, segment: Text) returns (child: Node?<H>)
      requires Tree() && p in at && at[p] == n
      modifies this`at, n`children, n`paramChild, n`wildcardChild
      ensures Tree() && child != null
      ensures p + [EdgeOf(segment)] in at && at[p + [EdgeOf(segment)]] == child
      ensures fresh(at.Values - old(at.Values))
      ensures old(Holds(Table(routes))) ==> Holds(Table(routes))
    {
      hide Table, EdgeOf, Tree;
      var edge := EdgeOf(segment);
      ChildIs(p, edge);
      child := n.Child(edge);
      if child == null {
        child := Grow(n, p, edge);
      }
    }

    // Registers a handler; the table of handlers grows by exactly this route.
    method Add(path: Text, func: H)
      requires Valid()
      modifies this`at, this`routes, at.Values
      ensures Valid() && routes == old(routes) + [Route(path, func)]
      ensures fresh(at.Values - old(at.Values))
    {
      hide Table, Segments, Normal;
      ghost var table := Table(routes);
      var segments := Split(path);
      var n := Walk(segments);
      SetHandler(n, Normal(segments), func);
      routes := routes + [Route(path, func)];
      TableAfter(old(routes), Route(path, func));
    }

    method SetHandler(n: Node<H>, ghost p: Pattern, func: H)
      requires Tree() && p in at && at[p] == n
      modifies n`handler
      ensures Tree()
      ensures old(Holds(Table(routes))) ==> Holds(Table(routes)[p := func])
    {
      hide Table;
      n.handler := Some(func);
    }

    // Walks down from the root, adding the nodes that are missing.
    method Walk(segments: seq<Text>) returns (n: Node<H>)
      requires Valid()
      modifies this`at, at.Values`children, at.Values`paramChild, at.Values`wildcardChild
      ensures Tree() && Holds(Table(routes))
      ensures Normal(segments) in at && at[Normal(segments)] == n
      ensures fresh(at.Values - old(at.Values))
    {
      hide Table;
      n := root;
      ghost var p: Pattern := [];
      assert [] in at && at[[]] == root;
      hide Tree, Holds;
      for i := 0 to |segments|
        invariant Tree() && Holds(Table(routes))
        invariant p == Normal(segments[..i]) && p in at && at[p] == n
        invariant fresh(at.Values - old(at.Values))
      {
        var child := Descend(n, p, segments[i]);
        n := child;
        NormalGrows(segments, i);
        p := p + [EdgeOf(segments[i])];
      }
      assert segments[..|segments|] == segments;
    }

    // Where no node stands nothing below is registered.
    lemma {:induction false} NothingBelow(p: Pattern, path: seq<Text>)
      requires Valid() && p !in at
      ensures Search(Table(routes).Keys, p, path) == None
    {
      hide Table;
      SearchIsBest(Table(routes).Keys, p, path);
      var r := Search(Table(routes).Keys, p, path);
      if r.Some? { NoNodeBelow(p, PatternOf(r.value, path)); }
    }

    lemma {:induction false} NoNodeBelow(p: Pattern, rest: Pattern)
      requires Tree() && p !in at
      ensures p + rest !in at
      decreases |rest|
    {
      if rest == [] {
        assert p + rest == p;
      } else {
        NoNodeBelow(p, rest[..|rest| - 1]);
        assert (p + rest)[..|p + rest| - 1] == p + rest[..|rest| - 1];
      }
    }

    // The node that the first derivation in the order of the search leads to.
    ghost predicate Finds(r: Node?<H>, p: Pattern, path: seq<Text>, d: Option<Derivation>)
      reads this, at.Values
    {
      match d
      case None => r == null
      case Some(d) => Covers(d, path) && p + PatternOf(d, path) in at && r == at[p + PatternOf(d, path)] && r.handler.Some?
    }

    method Find(n: Node<H>, ghost p: Pattern, path: seq<Text>) returns (r: Node?<H>)
      requires Valid() && p in at && at[p] == n
      ensures Finds(r, p, path, Search(Table(routes).Keys, p, path))
      decreases |path|, |path| + 1
    {
      hide Table, Finds, Search, SearchWild, Tree, Holds;
      ghost var keys := Table(routes).Keys;
      if path == [] {
        FoundHere(n, p);
        if n.handler.Some? { return n; }
        return null;
      }
      SearchUnfolds(keys, p, path);
      ChildIs(p, Lit(path[0]));
      if path[0] in n.children {
        r := Find(n.children[path[0]], p + [Lit(path[0])], path[1..]);
        FoundBelow(r, p, path, Literally, Search(keys, p + [Lit(path[0])], path[1..]));
        if r != null { return; }
      } else {
        NothingBelow(p + [Lit(path[0])], path[1..]);
      }
      ChildIs(p, Param);
      if n.paramChild != null {
        r := Find(n.paramChild, p + [Param], path[1..]);
        FoundBelow(r, p, path, AnyOne, Search(keys, p + [Param], path[1..]));
        if r != null { return; }
      } else {
        NothingBelow(p + [Param], path[1..]);
      }
      r := FindWild(n, p, path);
    }

    // The wildcard edge, with one segment first, then two, and so on.
    method FindWild(n: Node<H>, ghost p: Pattern, path: seq<Text>) returns (r: Node?<H>)
      requires Valid() && p in at && at[p] == n && path != []
      ensures Finds(r, p, path, SearchWild(Table(routes).Keys, p, path, 1))
      decreases |path|, |path|
    {
      hide Table, Finds, Search, SearchWild, Tree, Holds;
      ghost var keys := Table(routes).Keys;
      ChildIs(p, Wild);
      for i := 1 to |path| + 1
        invariant SearchWild(keys, p, path, 1) == SearchWild(keys, p, path, i)
      {
        SearchWildUnfolds(keys, p, path, i);
        if n.wildcardChild != null {
          r := Find(n.wildcardChild, p + [Wild], path[i..]);
          FoundBelow(r, p, path, Wildly(i), Search(keys, p + [Wild], path[i..]));
          if r != null { return; }
        } else {
          NothingBelow(p + [Wild], path[i..]);
        }
      }
      SearchWildUnfolds(keys, p, path, |path| + 1);
      FoundNothing(p, path);
      r := null;
    }

    lemma ChildIs(p: Pattern, e: Edge)
      requires Tree() && p in at
      ensures at[p].Child(e) == NodeAt(at, p + [e])
    {}

    lemma {:induction false} FoundHere(n: Node<H>, p: Pattern)
      requires Valid() && p in at && at[p] == n
      ensures Finds(if n.handler.Some? then n else null, p, [], Search(Table(routes).Keys, p, []))
    {
      assert p + [] == p;
    }

    lemma FoundNothing(p: Pattern, path: seq<Text>)
      ensures Finds(null, p, path, None)
    {}

    // A node found below one edge is found from above.
    lemma FoundBelow(r: Node?<H>, p: Pattern, path: seq<Text>, c: Choice, d: Option<Derivation>)
      requires path != [] && 1 <= Taken(c) <= |path|
      requires Finds(r, p + [EdgeTaken(c, path)], path[Taken(c)..], d)
      ensures r != null <==> d.Some?
      ensures d.Some? ==> Finds(r, p, path, Some([c] + d.value))
    {
      if d.Some? {
        var whole := [c] + d.value;
        assert whole[1..] == d.value;
        assert p + PatternOf(whole, path) == p + [EdgeTaken(c, path)] + PatternOf(d.value, path[Taken(c)..]);
      }
    }

    method NotFound(func: H)
      modifies this`notFoundHandler
      ensures notFoundHandler == Some(func)
    {
      notFoundHandler := Some(func);
    }

    // The handler that is called for a path.
    method Handle(path: seq<Text>) returns (r: Option<H>)
      requires Valid()
      ensures r == if Chosen(routes, path).Some? then Chosen(routes, path) else notFoundHandler
    {
      hide Table, Search, Tree, Finds;
      RootIs();
      var node := Find(root, [], path);
      FoundIsChosen(node, path);
      if node != null { return node.handler; }
      return notFoundHandler;
    }

    lemma RootIs()
      requires Valid()
      ensures [] in at && at[[]] == root
    {}

    lemma {:induction false} FoundIsChosen(node: Node?<H>, path: seq<Text>)
      requires Valid() && Finds(node, [], path, Search(Table(routes).Keys, [], path))
      ensures Chosen(routes, path) == if node == null then None else node.handler
      ensures node != null ==> node.handler.Some?
    {
      hide Table, Search, Tree;
      var d := Search(Table(routes).Keys, [], path);
      if d.Some? { assert [] + PatternOf(d.value, path) == PatternOf(d.value, path); }
    }
  }

  lemma SearchUnfolds(keys: set<Pattern>, p: Pattern, path: seq<Text>)
    requires path != []
    ensures var literal, param := Search(keys, p + [Lit(path[0])], path[1..]), Search(keys, p + [Param], path[1..]);
      Search(keys, p, path)
      == if literal.Some? then Some([Literally] + literal.value)
         else if param.Some? then Some([AnyOne] + param.value)
         else SearchWild(keys, p, path, 1)
  {}

  lemma SearchWildUnfolds(keys: set<Pattern>, p: Pattern, path: seq<Text>, n: nat)
    requires 1 <= n <= |path| + 1
    ensures n > |path| ==> SearchWild(keys, p, path, n) == None
    ensures n <= |path| ==>
      SearchWild(keys, p, path, n) == (
        var r := Search(keys, p + [Wild], path[n..]);
        if r.Some? then Some([Wildly(n)] + r.value) else SearchWild(keys, p, path, n + 1))
  {}

  lemma TableAfter<H>(routes: seq<Route<H>>, route: Route<H>)
    ensures Table(routes + [route]) == Table(routes)[PatternAt(route.path) := route.handler]
  {
    assert (routes + [route])[..|routes|] == routes;
  }
}
