/**
 Which packed values are one item of the format. The members of a tuple stand one after another, so that a
 container of tuples announces fewer items, or more, than follow it.
 */
module MsgPackItems {
  import opened Bytes
  import opened MsgPackSpec
  import opened MsgPackFormat
  import opened MsgPackWire
  import opened Messages

  // How many items a value of the type is.
  function Arity(t: Type): nat
    decreases t, 1
  {
    if t.Tuple? then ArityOf(t.elems) else 1
  }

  function ArityOf(ts: seq<Type>): nat
    decreases ts, 0
  {
    if ts == [] then 0 else Arity(ts[0]) + ArityOf(ts[1..])
  }

  // Every element of an array, and every entry of a map, is as many items as the header counts it for. What
  // a variant holds stands apart.
  predicate Plain(t: Type)
    decreases t, 1
  {
    match t
    case Array(elem) => Plain(elem) && Arity(elem) == 1
    case Map(kt, vt) => Plain(kt) && Plain(vt) && Arity(kt) + Arity(vt) == 2
    case Tuple(ts) => AllPlain(ts)
    case _ => true
  }

  predicate AllPlain(ts: seq<Type>)
    decreases ts, 0
  {
    ts == [] || (Plain(ts[0]) && AllPlain(ts[1..]))
  }

  lemma WantedStep(t: Token, rest: seq<Token>, n: nat)
    requires n > 0
    ensures Wanted([t] + rest, n) == Wanted(rest, n - 1 + Announced(t))
  {
    assert ([t] + rest)[1..] == rest;
  }

  lemma Joined(a: seq<Token>, b: seq<Token>, rest: seq<Token>)
    ensures a + b + rest == a + (b + rest)
  {}

  // A value takes as many of the items wanted as it has, whatever follows.
  lemma {:induction false} TakesItems(t: Type, v: Value, rest: seq<Token>, n: nat)
    requires HasType(t, v) && Plain(t)
    ensures Wanted(Tokens(t, v) + rest, n + Arity(t)) == Wanted(rest, n)
    decreases v, 1
  {
    hide Wanted;
    match t {
      case Array(elem) => ArrayTakesItem(elem, v, rest, n);
      case Map(kt, vt) => MapTakesItem(kt, vt, v, rest, n);
      case Tuple(ts) => MembersTakeItems(ts, v.items, rest, n);
      case _ => WantedStep(Tokens(t, v)[0], rest, n + 1);
    }
  }

  lemma {:induction false} ArrayTakesItem(elem: Type, v: Value, rest: seq<Token>, n: nat)
    requires HasType(Array(elem), v) && Plain(elem) && Arity(elem) == 1
    ensures Wanted(Tokens(Array(elem), v) + rest, n + 1) == Wanted(rest, n)
    decreases v, 0
  {
    hide *;
    ContainerTokens(Array(elem), v);
    var k := |v.items|;
    Joined([TArray(k)], SameTokens(elem, v.items), rest);
    WantedStep(TArray(k), SameTokens(elem, v.items) + rest, n + 1);
    SameTakeItems(elem, v.items, rest, n);
  }

  lemma {:induction false} MapTakesItem(kt: Type, vt: Type, v: Value, rest: seq<Token>, n: nat)
    requires HasType(Map(kt, vt), v) && Plain(kt) && Plain(vt) && Arity(kt) + Arity(vt) == 2
    ensures Wanted(Tokens(Map(kt, vt), v) + rest, n + 1) == Wanted(rest, n)
    decreases v, 0
  {
    hide *;
    ContainerTokens(Map(kt, vt), v);
    var k := |v.entries|;
    Joined([TMap(k)], EntryTokens(kt, vt, v.entries), rest);
    WantedStep(TMap(k), EntryTokens(kt, vt, v.entries) + rest, n + 1);
    EntriesTakeItems(kt, vt, v.entries, rest, n);
  }

  lemma {:induction false} SameTakeItems(t: Type, vs: seq<Value>, rest: seq<Token>, n: nat)
    requires SameTyped(t, vs) && Plain(t)
    ensures Wanted(SameTokens(t, vs) + rest, n + |vs| * Arity(t)) == Wanted(rest, n)
    decreases vs, 0
  {
    hide Wanted, Tokens, Plain, Arity, HasType;
    if vs == [] {
      assert [] + rest == rest;
    } else {
      var later := SameTokens(t, vs[1..]);
      Joined(Tokens(t, vs[0]), later, rest);
      assert |vs| * Arity(t) == (|vs| - 1) * Arity(t) + Arity(t);
      TakesItems(t, vs[0], later + rest, n + (|vs| - 1) * Arity(t));
      SameTakeItems(t, vs[1..], rest, n);
    }
  }

  lemma {:induction false} MembersTakeItems(ts: seq<Type>, vs: seq<Value>, rest: seq<Token>, n: nat)
    requires ItemsTyped(ts, vs) && AllPlain(ts)
    ensures Wanted(ItemTokens(ts, vs) + rest, n + ArityOf(ts)) == Wanted(rest, n)
    decreases vs, 0
  {
    hide Wanted, Tokens, Plain, Arity, HasType;
    if vs == [] {
      assert [] + rest == rest;
    } else {
      var later := ItemTokens(ts[1..], vs[1..]);
      Joined(Tokens(ts[0], vs[0]), later, rest);
      TakesItems(ts[0], vs[0], later + rest, n + ArityOf(ts[1..]));
      MembersTakeItems(ts[1..], vs[1..], rest, n);
    }
  }

  lemma {:induction false} EntryTakesItems(kt: Type, vt: Type, e: Entry, rest: seq<Token>, n: nat)
    requires EntryTyped(kt, vt, e) && Plain(kt) && Plain(vt)
    ensures Wanted(PairTokens(kt, vt, e) + rest, n + (Arity(kt) + Arity(vt))) == Wanted(rest, n)
    decreases e, 0
  {
    hide Wanted, Tokens, Plain, Arity, HasType;
    Joined(Tokens(kt, e.key), Tokens(vt, e.value), rest);
    TakesItems(kt, e.key, Tokens(vt, e.value) + rest, n + Arity(vt));
    TakesItems(vt, e.value, rest, n);
  }

  lemma {:induction false} EntriesTakeItems(kt: Type, vt: Type, entries: seq<Entry>, rest: seq<Token>, n: nat)
    requires EntriesTyped(kt, vt, entries) && Plain(kt) && Plain(vt)
    ensures Wanted(EntryTokens(kt, vt, entries) + rest, n + |entries| * (Arity(kt) + Arity(vt))) == Wanted(rest, n)
    decreases entries, 0
  {
    hide Wanted, PairTokens, Plain, Arity, EntryTyped;
    if entries == [] {
      assert [] + rest == rest;
    } else {
      var later, a := EntryTokens(kt, vt, entries[1..]), Arity(kt) + Arity(vt);
      Joined(PairTokens(kt, vt, entries[0]), later, rest);
      assert |entries| * a == (|entries| - 1) * a + a;
      EntryTakesItems(kt, vt, entries[0], later + rest, n + (|entries| - 1) * a);
      EntriesTakeItems(kt, vt, entries[1..], rest, n);
    }
  }

  // A value of a plain type is as many items as its type says.
  lemma PlainValues(t: Type, v: Value)
    requires HasType(t, v) && Plain(t)
    ensures AreItems(Tokens(t, v), Arity(t))
  {
    TakesItems(t, v, [], 0);
    assert Tokens(t, v) + [] == Tokens(t, v);
    hide Tokens, Plain, Arity;
  }

  lemma {:induction false} WantedMore(tokens: seq<Token>, n: nat, more: nat)
    requires Wanted(tokens, n).Some?
    ensures Wanted(tokens, n + more) == Some(Wanted(tokens, n).value + more)
    decreases |tokens|
  {
    if tokens != [] { WantedMore(tokens[1..], n - 1 + Announced(tokens[0]), more); }
  }

  // Tokens that are some number of items are not another number.
  lemma OneNumber(tokens: seq<Token>, n: nat, m: nat)
    requires AreItems(tokens, n)
    ensures AreItems(tokens, m) <==> m == n
  {
    hide Wanted;
    if n < m { WantedMore(tokens, n, m - n); }
    if m < n && AreItems(tokens, m) { WantedMore(tokens, m, n - m); }
  }

  lemma SameAreItems(t: Type, vs: seq<Value>)
    requires SameTyped(t, vs) && Plain(t)
    ensures AreItems(SameTokens(t, vs), |vs| * Arity(t))
  {
    SameTakeItems(t, vs, [], 0);
    assert SameTokens(t, vs) + [] == SameTokens(t, vs);
    hide SameTokens, Plain, Arity, SameTyped;
  }

  lemma EntriesAreItems(kt: Type, vt: Type, entries: seq<Entry>)
    requires EntriesTyped(kt, vt, entries) && Plain(kt) && Plain(vt)
    ensures AreItems(EntryTokens(kt, vt, entries), |entries| * (Arity(kt) + Arity(vt)))
  {
    EntriesTakeItems(kt, vt, entries, [], 0);
    assert EntryTokens(kt, vt, entries) + [] == EntryTokens(kt, vt, entries);
    hide EntryTokens, Plain, Arity, EntriesTyped;
  }

  // A container is one item if what follows its header is as many as that announces.
  lemma HeaderFirst(t: Token, tokens: seq<Token>)
    ensures AreItems([t] + tokens, 1) <==> AreItems(tokens, Announced(t))
  {
    WantedStep(t, tokens, 1);
  }

  lemma ContainerTokens(t: Type, v: Value)
    requires HasType(t, v)
    ensures t.Array? ==> v.VArray? && SameTyped(t.elem, v.items)
    ensures t.Array? ==> Tokens(t, v) == [TArray(|v.items|)] + SameTokens(t.elem, v.items)
    ensures t.Map? ==> v.VMap? && EntriesTyped(t.key, t.value, v.entries)
    ensures t.Map? ==> Tokens(t, v) == [TMap(|v.entries|)] + EntryTokens(t.key, t.value, v.entries)
    ensures forall n: nat :: Announced(TArray(n)) == n && Announced(TMap(n)) == 2 * n
  {
    hide SameTyped, EntriesTyped, SameTokens, EntryTokens, DistinctKeys;
  }

  // An array is one item exactly if it is empty or each of its elements is one.
  lemma ArraysAreItems(elem: Type, v: Value)
    requires HasType(Array(elem), v) && Plain(elem)
    ensures AreItems(Tokens(Array(elem), v), 1) <==> v.items == [] || Arity(elem) == 1
  {
    hide *;
    ContainerTokens(Array(elem), v);
    var tokens, n := SameTokens(elem, v.items), |v.items|;
    SameAreItems(elem, v.items);
    HeaderFirst(TArray(n), tokens);
    OneNumber(tokens, n * Arity(elem), n);
    Times(n, Arity(elem), 1);
  }

  // A map exactly if it is empty or each of its entries is two.
  lemma MapsAreItems(kt: Type, vt: Type, v: Value)
    requires HasType(Map(kt, vt), v) && Plain(kt) && Plain(vt)
    ensures AreItems(Tokens(Map(kt, vt), v), 1) <==> v.entries == [] || Arity(kt) + Arity(vt) == 2
  {
    hide *;
    ContainerTokens(Map(kt, vt), v);
    var tokens, n := EntryTokens(kt, vt, v.entries), |v.entries|;
    EntriesAreItems(kt, vt, v.entries);
    HeaderFirst(TMap(n), tokens);
    OneNumber(tokens, n * (Arity(kt) + Arity(vt)), 2 * n);
    Times(n, Arity(kt) + Arity(vt), 2);
  }

  lemma Times(n: nat, a: nat, b: nat)
    ensures n * a == n * b <==> n == 0 || a == b
  {
    if n * a == n * b { assert n * (a - b) == 0; }
  }
}
