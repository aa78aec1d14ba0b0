/**
 The unpacker at work: a position moves over the data, and an exception ends the work.
 */
module Unpacker {
  import opened Bytes
  import opened Messages
  import opened Words
  import opened MsgPackSpec
  import Timestamp

  lemma DropTwice<T>(s: seq<T>, a: nat, b: nat)
    requires a <= |s| && b <= |s| - a
    ensures s[a..][b..] == s[a + b..]
  {}

  lemma SliceOfRest<T>(s: seq<T>, a: nat, b: nat, c: nat)
    requires a <= |s| && b <= c <= |s| - a
    ensures s[a..][b..c] == s[a + b..a + c]
  {}

  lemma OneOctetWord(s: seq<byte>, at: nat)
    requires at < |s|
    ensures FromBigEndian(s[at..at + 1]) == s[at]
  {
    var one := s[at..at + 1];
    assert FromBigEndian(one[..0]) == 0 && one[0] == s[at];
  }

  // The words of the three forms of a timestamp.
  lemma Slices(s: seq<byte>, at: nat)
    requires at <= |s|
    ensures |s| - at >= 6 ==> s[at..][2..6] == s[at + 2..at + 6]
    ensures |s| - at >= 10 ==> s[at..][2..10] == s[at + 2..at + 10]
    ensures |s| - at >= 15 ==> s[at..][3..7] == s[at + 3..at + 7] && s[at..][7..15] == s[at + 7..at + 15]
  {}

  lemma ManyTail(t: Type, s: seq<byte>, n: nat)
    requires n > 0
    ensures Unpack(t, s).None? ==> UnpackMany(t, s, n).None?
    ensures Unpack(t, s).Some? ==>
      var first := Unpack(t, s).value;
      UnpackMany(t, s, n) == Behind([first.v], first.used, UnpackMany(t, s[first.used..], n - 1))
  {
    hide Unpack;
  }

  lemma EachTail(ts: seq<Type>, s: seq<byte>)
    requires ts != []
    ensures Unpack(ts[0], s).None? ==> UnpackEach(ts, s).None?
    ensures Unpack(ts[0], s).Some? ==>
      var first := Unpack(ts[0], s).value;
      UnpackEach(ts, s) == Behind([first.v], first.used, UnpackEach(ts[1..], s[first.used..]))
  {
    hide Unpack;
  }

  lemma EntriesTail(kt: Type, vt: Type, s: seq<byte>, n: nat, got: seq<Entry>, key: Got<Value>, value: Got<Value>)
    requires n > 0 && Unpack(kt, s) == Some(key) && key.used <= |s| && Unpack(vt, s[key.used..]) == Some(value)
    ensures key.used + value.used <= |s|
    ensures UnpackEntries(kt, vt, s, n, got) == After(key.used + value.used,
      UnpackEntries(kt, vt, s[key.used + value.used..], n - 1, Inserted(got, Entry(key.v, value.v))))
  {
    hide Unpack;
  }

  lemma EntriesFail(kt: Type, vt: Type, s: seq<byte>, n: nat, got: seq<Entry>)
    requires n > 0
    requires Unpack(kt, s).None? || Unpack(vt, s[Unpack(kt, s).value.used..]).None?
    ensures UnpackEntries(kt, vt, s, n, got).None?
  {
    hide Unpack;
  }

  lemma NothingUnpacked(t: Type, kt: Type, vt: Type, s: seq<byte>, got: seq<Entry>)
    ensures UnpackMany(t, s, 0) == Some(Got([], 0)) && UnpackEach([], s) == Some(Got([], 0))
    ensures UnpackEntries(kt, vt, s, 0, got) == Some(Got(got, 0))
  {}

  // A result with more values, or more octets, in front.
  function Behind(items: seq<Value>, used: nat, r: Option<Got<seq<Value>>>): Option<Got<seq<Value>>> {
    if r.None? then None else Some(Got(items + r.value.v, used + r.value.used))
  }

  function After(used: nat, r: Option<Got<seq<Entry>>>): Option<Got<seq<Entry>>> {
    if r.None? then None else Some(Got(r.value.v, used + r.value.used))
  }

  lemma BehindAgain(items: seq<Value>, used: nat, more: seq<Value>, moreUsed: nat, r: Option<Got<seq<Value>>>)
    ensures Behind(items, used, Behind(more, moreUsed, r)) == Behind(items + more, used + moreUsed, r)
  {
    if r.Some? { assert items + (more + r.value.v) == items + more + r.value.v; }
  }

  lemma BehindFails(items: seq<Value>, used: nat)
    ensures Behind(items, used, None) == None
  {}

  lemma BehindNothing(items: seq<Value>, used: nat, r: Option<Got<seq<Value>>>)
    ensures Behind([], 0, r) == r && Behind(items, used, Some(Got([], 0))) == Some(Got(items, used))
  {
    assert items + [] == items;
    if r.Some? { assert [] + r.value.v == r.value.v; }
  }

  class Unpacker {
    const data: seq<byte>
    var position: nat

    constructor (data: seq<byte>)
      ensures this.data == data && position == 0
    {
      this.data, position := data, 0;
    }

    predicate Valid()
      reads this
    {
      position <= |data|
    }

    function Ahead(): seq<byte>
      requires Valid()
      reads this
    {
      data[position..]
    }

    // Whether `r` was found at the old position, and is now behind the new one.
    twostate predicate Took<T>(ok: bool, new v: T, new r: Option<Got<T>>)
      reads this
    {
      && Valid() && old(position) <= position
      && ok == r.Some?
      && (ok ==> r.value == Got(v, position - old(position)))
    }

    // current()
    method Current() returns (ok: bool, octet: byte)
      requires Valid()
      ensures ok == (position < |data|) && (ok ==> octet == data[position])
    {
      ok, octet := position < |data|, 0;
      if ok { octet := data[position]; }
    }

    method Increment(count: nat) returns (ok: bool)
      requires Valid()
      modifies this
      ensures Valid() && ok == (old(position) + count <= |data|)
      ensures position == if ok then old(position) + count else old(position)
    {
      ok := position + count <= |data|;
      if ok { position := position + count; }
    }

    method ReadIntegral(w: nat) returns (ok: bool, n: nat)
      requires Valid()
      modifies this
      ensures Valid() && ok == (old(position) + w <= |data|)
      ensures ok ==> position == old(position) + w && n == FromBigEndian(data[old(position)..position])
      ensures !ok ==> position == old(position)
    {
      ok, n := position + w <= |data|, 0;
      if ok {
        n := FromBigEndian(data[position..position + w]);
        ok := Increment(w);
      }
    }

    // A format octet already looked at, and the word behind it.
    method Formatted(w: nat) returns (ok: bool, n: nat)
      requires Valid() && position < |data|
      modifies this
      ensures Took(ok, n, Word(old(Ahead()), w))
      ensures ok ==> n < Pow256(w)
    {
      ok := Increment(1);
      SliceOfRest(data, old(position), 1, Min(1 + w, |data| - old(position)));
      ok, n := ReadIntegral(w);
    }

    // read_conditional: nothing happens unless the current octet is `format`.
    method ReadConditional(format: byte, w: nat) returns (hit: bool, ok: bool, n: nat)
      requires Valid() && position < |data|
      modifies this
      ensures hit == (data[old(position)] == format)
      ensures hit ==> Took(ok, n, Word(old(Ahead()), w))
      ensures !hit ==> position == old(position) && Valid()
    {
      hit, ok, n := data[position] == format, false, 0;
      if hit { ok, n := Formatted(w); }
    }

    method UnpackMapHeader() returns (ok: bool, n: nat)
      requires Valid()
      modifies this
      ensures Took(ok, n, MapSize(old(Ahead())))
    {
      hide Word;
      var octet;
      ok, octet := Current();
      n := 0;
      if !ok { return; }
      var hit;
      hit, ok, n := ReadConditional(0xdf, 4);
      if hit { return; }
      hit, ok, n := ReadConditional(0xde, 2);
      if hit { return; }
      n := octet % 16;
      ok := Increment(1);
    }

    method UnpackArrayHeader() returns (ok: bool, n: nat)
      requires Valid()
      modifies this
      ensures Took(ok, n, ArraySize(old(Ahead())))
    {
      hide Word;
      var octet;
      ok, octet := Current();
      n := 0;
      if !ok { return; }
      var hit;
      hit, ok, n := ReadConditional(0xdd, 4);
      if hit { return; }
      hit, ok, n := ReadConditional(0xdc, 2);
      if hit { return; }
      n := octet % 16;
      ok := Increment(1);
    }

    method UnpackStrHeader() returns (ok: bool, n: nat)
      requires Valid()
      modifies this
      ensures Took(ok, n, StrSize(old(Ahead())))
    {
      hide Word;
      var octet;
      ok, octet := Current();
      n := 0;
      if !ok { return; }
      var hit;
      hit, ok, n := ReadConditional(0xdb, 4);
      if hit { return; }
      hit, ok, n := ReadConditional(0xda, 2);
      if hit { return; }
      hit, ok, n := ReadConditional(0xd9, 1);
      if hit { return; }
      n := octet % 32;
      ok := Increment(1);
    }

    method UnpackBinHeader() returns (ok: bool, n: nat)
      requires Valid()
      modifies this
      ensures Took(ok, n, BinSize(old(Ahead())))
    {
      hide Word;
      var octet;
      ok, octet := Current();
      n := 0;
      if !ok { return; }
      var hit;
      hit, ok, n := ReadConditional(0xc6, 4);
      if hit { return; }
      hit, ok, n := ReadConditional(0xc5, 2);
      if hit { return; }
      hit, ok, n := ReadConditional(0xc4, 1);
      if !hit { ok := false; }
    }

    method UnpackExtHeader() returns (ok: bool, n: nat)
      requires Valid()
      modifies this
      ensures Took(ok, n, ExtSize(old(Ahead())))
    {
      hide Word;
      var octet;
      ok, octet := Current();
      n := 0;
      if !ok { return; }
      match octet
      case 0xd4 =>
        ok := Increment(1);
        n := 1;
      case 0xd5 =>
        ok := Increment(1);
        n := 2;
      case 0xd6 =>
        ok := Increment(1);
        n := 4;
      case 0xd7 =>
        ok := Increment(1);
        n := 8;
      case 0xd8 =>
        ok := Increment(1);
        n := 16;
      case 0xc7 => ok, n := Formatted(1);
      case 0xc8 => ok, n := Formatted(2);
      case 0xc9 => ok, n := Formatted(4);
      case _ => ok := false;
    }

    // The octets a header announced.
    method TakeOctets(ghost start: nat, n: nat) returns (ok: bool, v: Value)
      requires Valid() && start <= position
      modifies this
      ensures Valid() && old(position) <= position
      ensures var r := Sized(Some(Got(n, old(position) - start)), data[start..]);
        ok == r.Some? && (ok ==> r.value == Got(v, position - start))
    {
      ok, v := position + n <= |data|, VNil;
      if ok {
        SliceOfRest(data, start, position - start, position - start + n);
        v := VOctets(data[position..position + n]);
        ok := Increment(n);
      }
    }

    method UnpackInt(w: Width) returns (ok: bool, n: int)
      requires Valid()
      modifies this
      ensures Took(ok, n, UnpackSigned(w, old(Ahead())))
      decreases Octets(w)
    {
      hide Word;
      Pow256Values();
      var octet;
      ok, octet := Current();
      n := 0;
      if !ok { return; }
      if w == W64 && octet == 0xd3 {
        ok, n := Formatted(8);
        n := Signed(n, 8);
      } else if w == W64 && octet == 0xd2 {
        ok, n := UnpackInt(W32);
      } else if w == W32 && octet == 0xd2 {
        ok, n := Formatted(4);
        n := Signed(n, 4);
      } else if (w == W64 || w == W32) && octet == 0xd1 {
        ok, n := UnpackInt(W16);
      } else if w == W16 && octet == 0xd1 {
        ok, n := Formatted(2);
        n := Signed(n, 2);
      } else if w != W8 && octet == 0xd0 {
        ok, n := UnpackInt(W8);
      } else if octet == 0xd0 {
        ok, n := Formatted(1);
        n := Signed(n, 1);
      } else {
        n := if w == W8 || w == W16 then Signed(octet, 1) else octet;
        ok := Increment(1);
      }
    }

    method UnpackUInt(w: Width) returns (ok: bool, n: int)
      requires Valid()
      modifies this
      ensures Took(ok, n, UnpackUnsigned(w, old(Ahead())))
    {
      hide Word;
      var octet;
      ok, octet := Current();
      n := 0;
      if !ok { return; }
      if octet == 0xcf && w == W64 {
        ok, n := Formatted(8);
      } else if octet == 0xce && (w == W64 || w == W32) {
        ok, n := Formatted(4);
      } else if octet == 0xcd && w != W8 {
        ok, n := Formatted(2);
      } else if octet == 0xcc {
        ok, n := Formatted(1);
      } else {
        n := octet;
        ok := Increment(1);
      }
    }

    // `ok` is false where the unpacker throws.
    method UnpackType(t: Type) returns (ok: bool, v: Value)
      requires Valid()
      modifies this
      ensures Took(ok, v, Unpack(t, old(Ahead())))
      decreases t, 3
    {
      hide UnpackSigned, UnpackUnsigned, StrSize, BinSize, Word;
      var octet, n;
      v := VNil;
      match t {
        case SInt(w) =>
          ok, n := UnpackInt(w);
          v := VInt(n);
        case UInt(w) =>
          ok, n := UnpackUInt(w);
          v := VInt(n);
        case Bool =>
          ok, octet := Current();
          if ok && (octet == 0xc2 || octet == 0xc3) {
            v := VBool(octet != 0xc2);
            ok := Increment(1);
          } else {
            ok := false;
          }
        case Nil =>
          ok, octet := Current();
          if ok && octet == 0xc0 { ok := Increment(1); } else { ok := false; }
        case Float32 => ok, v := UnpackFloat(0xca, 4);
        case Float64 => ok, v := UnpackFloat(0xcb, 8);
        case Str =>
          ok, n := UnpackStrHeader();
          if ok { ok, v := TakeOctets(old(position), n); }
        case Bin =>
          ok, n := UnpackBinHeader();
          if ok { ok, v := TakeOctets(old(position), n); }
        case Array(elem) => ok, v := UnpackArray(elem);
        case Map(kt, vt) => ok, v := UnpackMap(kt, vt);
        case Tuple(ts) =>
          var items;
          ok, items := UnpackTuple(ts);
          v := VArray(items);
        case Variant(ts) => ok, v := UnpackVariant(ts);
      }
    }

    method UnpackFloat(format: byte, w: nat) returns (ok: bool, v: Value)
      requires Valid()
      modifies this
      ensures var s := old(Ahead());
        Took(ok, v, if s != [] && s[0] == format then Mapped(Word(s, w), n => VFloat(n)) else None)
    {
      hide Word;
      var octet;
      ok, octet := Current();
      v := VNil;
      if ok && octet == format {
        var n;
        ok, n := Formatted(w);
        v := VFloat(n);
      } else {
        ok := false;
      }
    }

    method UnpackArray(elem: Type) returns (ok: bool, v: Value)
      requires Valid()
      modifies this
      ensures Took(ok, v, Unpack(Array(elem), old(Ahead())))
      decreases Array(elem), 0
    {
      hide ArraySize, MsgPackSpec.UnpackMany;
      var n, items;
      v := VNil;
      ok, n := UnpackArrayHeader();
      if !ok { return; }
      DropTwice(data, old(position), position - old(position));
      ok, items := UnpackItems(elem, n);
      v := VArray(items);
    }

    method UnpackItems(t: Type, n: nat) returns (ok: bool, items: seq<Value>)
      requires Valid()
      modifies this
      ensures Took(ok, items, UnpackMany(t, old(Ahead()), n))
      decreases t, 4
    {
      hide MsgPackSpec.Unpack, UnpackMany, Behind;
      ok, items := true, [];
      BehindNothing([], 0, UnpackMany(t, Ahead(), n));
      for i := 0 to n
        invariant Valid() && old(position) <= position
        invariant UnpackMany(t, old(Ahead()), n) == Behind(items, position - old(position), UnpackMany(t, Ahead(), n - i))
      {
        ghost var at := position;
        var v;
        ManyTail(t, Ahead(), n - i);
        BehindFails(items, at - old(position));
        ok, v := UnpackType(t);
        if !ok { return; }
        DropTwice(data, at, position - at);
        BehindAgain(items, at - old(position), [v], position - at, UnpackMany(t, Ahead(), n - i - 1));
        items := items + [v];
      }
      NothingUnpacked(t, t, t, Ahead(), []);
      BehindNothing(items, position - old(position), None);
    }

    method UnpackTuple(ts: seq<Type>) returns (ok: bool, items: seq<Value>)
      requires Valid()
      modifies this
      ensures Took(ok, items, UnpackEach(ts, old(Ahead())))
      decreases ts, 0
    {
      hide MsgPackSpec.Unpack, UnpackEach, Behind;
      ok, items := true, [];
      assert ts[0..] == ts;
      BehindNothing([], 0, UnpackEach(ts, Ahead()));
      for i := 0 to |ts|
        invariant Valid() && old(position) <= position
        invariant UnpackEach(ts, old(Ahead())) == Behind(items, position - old(position), UnpackEach(ts[i..], Ahead()))
      {
        ghost var at := position;
        var v;
        EachTail(ts[i..], Ahead());
        BehindFails(items, at - old(position));
        ok, v := UnpackType(ts[i]);
        if !ok { return; }
        DropTwice(data, at, position - at);
        assert ts[i..][1..] == ts[i + 1..];
        BehindAgain(items, at - old(position), [v], position - at, UnpackEach(ts[i + 1..], Ahead()));
        items := items + [v];
      }
      NothingUnpacked(Nil, Nil, Nil, Ahead(), []);
      BehindNothing(items, position - old(position), None);
    }

    method UnpackMap(kt: Type, vt: Type) returns (ok: bool, v: Value)
      requires Valid()
      modifies this
      ensures Took(ok, v, Unpack(Map(kt, vt), old(Ahead())))
      decreases Map(kt, vt), 2
    {
      hide MapSize, UnpackEntries;
      var n, entries;
      v := VNil;
      ok, n := UnpackMapHeader();
      if !ok { return; }
      DropTwice(data, old(position), position - old(position));
      ok, entries := UnpackPairs(kt, vt, n);
      v := VMap(entries);
    }

    method UnpackPairs(kt: Type, vt: Type, n: nat) returns (ok: bool, entries: seq<Entry>)
      requires Valid()
      modifies this
      ensures Took(ok, entries, UnpackEntries(kt, vt, old(Ahead()), n, []))
      decreases Map(kt, vt), 1
    {
      hide MsgPackSpec.Unpack, UnpackEntries, Inserted;
      ok, entries := true, [];
      for i := 0 to n
        invariant Valid() && old(position) <= position
        invariant UnpackEntries(kt, vt, old(Ahead()), n, [])
          == After(position - old(position), UnpackEntries(kt, vt, Ahead(), n - i, entries))
      {
        var e;
        ok, e := UnpackPair(kt, vt, n - i, entries);
        if !ok { return; }
        entries := Inserted(entries, e);
      }
      NothingUnpacked(Nil, kt, vt, Ahead(), entries);
    }

    // One entry, seen as the first of the `n` still to come.
    method UnpackPair(kt: Type, vt: Type, ghost n: nat, ghost got: seq<Entry>) returns (ok: bool, e: Entry)
      requires Valid() && n > 0
      modifies this
      ensures Valid() && old(position) <= position
      ensures !ok ==> UnpackEntries(kt, vt, old(Ahead()), n, got).None?
      ensures ok ==>
        var later := UnpackEntries(kt, vt, Ahead(), n - 1, Inserted(got, e));
        UnpackEntries(kt, vt, old(Ahead()), n, got) == After(position - old(position), later)
      decreases Map(kt, vt), 0
    {
      hide MsgPackSpec.Unpack, UnpackEntries, Inserted, After;
      ghost var s := Ahead();
      var key, value;
      e := Entry(VNil, VNil);
      ok, key := UnpackType(kt);
      if !ok {
        EntriesFail(kt, vt, s, n, got);
        return;
      }
      ghost var used := position - old(position);
      DropTwice(data, old(position), used);
      ok, value := UnpackType(vt);
      if !ok {
        EntriesFail(kt, vt, s, n, got);
        return;
      }
      EntriesTail(kt, vt, s, n, got, Got(key, used), Got(value, position - old(position) - used));
      DropTwice(data, old(position), position - old(position));
      e := Entry(key, value);
    }

    // The content is unpacked by an unpacker of its own, from the span its size announces.
    method UnpackVariant(ts: seq<Type>) returns (ok: bool, v: Value)
      requires Valid()
      modifies this
      ensures Took(ok, v, Unpack(Variant(ts), old(Ahead())))
      decreases Variant(ts), 0
    {
      hide ExtSize, FromBigEndian, UnpackAlternative;
      v := VNil;
      var size;
      ok, size := UnpackExtHeader();
      if ok { ok, v := UnpackContent(ts, old(position), size); }
    }

    method UnpackContent(ts: seq<Type>, ghost start: nat, size: nat) returns (ok: bool, v: Value)
      requires Valid() && start <= position
      modifies this
      ensures Valid() && old(position) <= position
      ensures var r := UnpackAlternative(ts, data[start..], Got(size, old(position) - start));
        ok == r.Some? && (ok ==> r.value == Got(v, position - start))
      decreases ts, 0
    {
      hide FromBigEndian, MsgPackSpec.Unpack;
      var index, content;
      v := VNil;
      ok, index := ReadIntegral(1);
      if !ok { return; }
      OneOctetWord(data, position - 1);
      var signed := Signed(index, 1);
      if signed < 0 || signed > Signed((|ts| - 1) % 256, 1) { return false, v; }
      var at := position;
      ok := Increment(size);
      if !ok || index >= |ts| { return false, v; }
      SliceOfRest(data, start, at - start, position - start);
      var inner := new Unpacker(data[at..position]);
      ok, content := inner.UnpackType(ts[index]);
      v := VVariant(index, content);
    }

    // A time point of a nanosecond clock.
    method UnpackTime() returns (r: Timestamp.Outcome)
      requires Valid()
      modifies this
      ensures Valid() && r == Timestamp.Decode(old(Ahead()))
      ensures r.Instant? ==> position == old(position) + r.used
    {
      hide FromBigEndian, Timestamp.Sum;
      Slices(data, position);
      var ok, octet, word, nanos, seconds;
      r := Timestamp.Thrown;
      ok, octet := Current();
      if !ok || (octet != 0xd6 && octet != 0xd7 && octet != 0xc7) { return; }
      ok := Increment(1);
      if octet == 0xc7 {
        ok, word := ReadIntegral(1);
        if !ok { return; }
      }
      var extension;
      ok, extension := Current();
      if !ok || extension != 0xff { return; }
      ok := Increment(1);
      match octet
      case 0xd6 =>
        ok, word := ReadIntegral(4);
        if ok { r := Timestamp.Sum(0, word, 6); }
      case 0xd7 =>
        ok, word := ReadIntegral(8);
        if ok { r := Timestamp.Sum(word / Timestamp.TWO_TO_THE_34, word % Timestamp.TWO_TO_THE_34, 10); }
      case _ =>
        ok, nanos := ReadIntegral(4);
        if !ok { return; }
        ok, seconds := ReadIntegral(8);
        if ok { r := Timestamp.Sum(nanos, Signed(seconds, 8), 15); }
    }
  }
}
