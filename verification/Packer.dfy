/**
 The packer at work: octets go one at a time through its inserter, which either appends them to a
 buffer or only counts them.
 */
module Packer {
  import opened Bytes
  import opened Messages
  import opened Words
  import opened MsgPackSpec
  import Timestamp

  lemma AppendAgain(done: seq<byte>, a: Option<seq<byte>>, b: Option<seq<byte>>)
    ensures Append(Some(done), Append(a, b)) == if a.None? then None else Append(Some(done + a.value), b)
  {
    if a.Some? && b.Some? { assert done + (a.value + b.value) == done + a.value + b.value; }
  }

  lemma AppendNothing(a: Option<seq<byte>>)
    ensures Append(Some([]), a) == a && Append(a, Some([])) == a
  {
    if a.Some? { assert [] + a.value == a.value && a.value + [] == a.value; }
  }

  lemma AllAndNone<T>(items: seq<T>)
    ensures items[0..] == items && items[|items|..] == []
  {}

  lemma NothingPacked(t: Type, kt: Type, vt: Type)
    ensures SameTyped(t, []) && PackSame(t, []) == Some([])
    ensures ItemsTyped([], []) && PackItems([], []) == Some([])
    ensures EntriesTyped(kt, vt, []) && PackEntries(kt, vt, []) == Some([])
  {}

  lemma SameTail(t: Type, vs: seq<Value>, i: nat)
    requires i < |vs| && SameTyped(t, vs[i..])
    ensures HasType(t, vs[i]) && SameTyped(t, vs[i + 1..])
    ensures PackSame(t, vs[i..]) == Append(Pack(t, vs[i]), PackSame(t, vs[i + 1..]))
  {
    hide HasType, Pack;
    assert vs[i..][1..] == vs[i + 1..];
  }

  lemma ItemsTail(ts: seq<Type>, vs: seq<Value>, i: nat)
    requires |ts| == |vs| && i < |vs| && ItemsTyped(ts[i..], vs[i..])
    ensures HasType(ts[i], vs[i]) && ItemsTyped(ts[i + 1..], vs[i + 1..])
    ensures PackItems(ts[i..], vs[i..]) == Append(Pack(ts[i], vs[i]), PackItems(ts[i + 1..], vs[i + 1..]))
  {
    hide HasType, Pack;
    assert vs[i..][1..] == vs[i + 1..] && ts[i..][1..] == ts[i + 1..];
  }

  lemma EntriesTail(kt: Type, vt: Type, entries: seq<Entry>, i: nat)
    requires i < |entries| && EntriesTyped(kt, vt, entries[i..])
    ensures EntryTyped(kt, vt, entries[i]) && EntriesTyped(kt, vt, entries[i + 1..])
    ensures PackEntries(kt, vt, entries[i..]) == Append(PackEntry(kt, vt, entries[i]), PackEntries(kt, vt, entries[i + 1..]))
  {
    hide EntryTyped, PackEntry;
    assert entries[i..][1..] == entries[i + 1..];
  }

  lemma Regroup(before: seq<byte>, a: seq<byte>, b: seq<byte>, c: seq<byte>)
    ensures before + a + b + c == before + (a + (b + c)) && before <= before + a <= before + a + b + c
  {}

  lemma VariantUnfolds(ts: seq<Type>, v: Value)
    requires HasType(Variant(ts), v)
    ensures v.VVariant? && v.index < |ts| && HasType(ts[v.index], v.content)
    ensures var content := Pack(ts[v.index], v.content);
      && (content.None? ==> Pack(Variant(ts), v).None?)
      && (content.Some? ==>
            var header := ExtHeader(|content.value|);
            && (header.None? ==> Pack(Variant(ts), v).None?)
            && (header.Some? ==> Pack(Variant(ts), v) == Some(header.value + ([v.index % 256] + content.value))))
  {
    hide ExtHeader;
  }

  lemma FloorIsUnique(count: int, seconds: int, nanos: int)
    requires count == seconds * Timestamp.BILLION + nanos && 0 <= nanos < Timestamp.BILLION
    ensures seconds == Timestamp.Seconds(count) && nanos == Timestamp.Nanos(count)
  {}

  class Packer {
    const counting: bool
    var store: seq<byte>
    var size: nat
    ghost var put: seq<byte>

    // Whatever the kind of inserter, it has seen the octets `put`.
    ghost predicate Valid()
      reads this
    {
      if counting then size == |put| else store == put
    }

    constructor (counting: bool)
      ensures Valid() && this.counting == counting && put == []
    {
      this.counting, store, size, put := counting, [], 0, [];
    }

    method Put(octet: byte)
      requires Valid()
      modifies this
      ensures Valid() && put == old(put) + [octet]
    {
      if counting { size := size + 1; } else { store := store + [octet]; }
      put := put + [octet];
    }

    method PutAll(octets: seq<byte>)
      requires Valid()
      modifies this
      ensures Valid() && put == old(put) + octets
    {
      for i := 0 to |octets|
        invariant Valid() && put == old(put) + octets[..i]
      {
        Put(octets[i]);
      }
    }

    method EmplaceIntegral(n: nat, w: nat)
      requires Valid()
      modifies this
      ensures Valid() && put == old(put) + BigEndian(n, w)
    {
      PutAll(BigEndian(n, w));
    }

    method EmplaceCombined(format: byte, n: nat, w: nat)
      requires Valid()
      modifies this
      ensures Valid() && put == old(put) + Combined(format, n, w)
    {
      Put(format);
      EmplaceIntegral(n, w);
    }

    // Octets of format, and a word.
    method EmplaceBehind(format: seq<byte>, n: nat, w: nat)
      requires Valid()
      modifies this
      ensures Valid() && put == old(put) + (format + BigEndian(n, w))
    {
      PutAll(format);
      EmplaceIntegral(n, w);
    }

    method PackMapHeader(n: nat) returns (ok: bool)
      requires Valid()
      modifies this
      ensures Valid() && ok == MapHeader(n).Some? && put == old(put) + MapHeader(n).GetOr([])
    {
      ok := true;
      if n < 16 { Put(0x80 + n); }
      else if n < 0xffff { EmplaceCombined(0xde, n, 2); }
      else if n < 0xffff_ffff { EmplaceCombined(0xdf, n, 4); }
      else { ok := false; }
    }

    method PackArrayHeader(n: nat) returns (ok: bool)
      requires Valid()
      modifies this
      ensures Valid() && ok == ArrayHeader(n).Some? && put == old(put) + ArrayHeader(n).GetOr([])
    {
      ok := true;
      if n < 16 { Put(0x90 + n); }
      else if n < 0xffff { EmplaceCombined(0xdc, n, 2); }
      else if n < 0xffff_ffff { EmplaceCombined(0xdd, n, 4); }
      else { ok := false; }
    }

    method PackStrHeader(n: nat) returns (ok: bool)
      requires Valid()
      modifies this
      ensures Valid() && ok == StrHeader(n).Some? && put == old(put) + StrHeader(n).GetOr([])
    {
      ok := true;
      if n < 32 {
        Put(0xa0 + n);
      } else if n < 0xff {
        Put(0xd9);
        Put(n);
        OneOctet(n);
      }
      else if n < 0xffff { EmplaceCombined(0xda, n, 2); }
      else if n < 0xffff_ffff { EmplaceCombined(0xdb, n, 4); }
      else { ok := false; }
    }

    method PackBinHeader(n: nat) returns (ok: bool)
      requires Valid()
      modifies this
      ensures Valid() && ok == BinHeader(n).Some? && put == old(put) + BinHeader(n).GetOr([])
    {
      ok := true;
      if n < 0xff {
        Put(0xc4);
        Put(n);
        OneOctet(n);
      }
      else if n < 0xffff { EmplaceCombined(0xc5, n, 2); }
      else if n < 0xffff_ffff { EmplaceCombined(0xc6, n, 4); }
      else { ok := false; }
    }

    method PackExtHeader(n: nat) returns (ok: bool)
      requires Valid()
      modifies this
      ensures Valid() && ok == ExtHeader(n).Some? && put == old(put) + ExtHeader(n).GetOr([])
    {
      ok := true;
      if n == 1 { Put(0xd4); }
      else if n == 2 { Put(0xd5); }
      else if n == 4 { Put(0xd6); }
      else if n == 8 { Put(0xd7); }
      else if n == 16 { Put(0xd8); }
      else if n < 0xff { EmplaceCombined(0xc7, n, 1); }
      else if n < 0xffff { EmplaceCombined(0xc8, n, 2); }
      else if n < 0xffff_ffff { EmplaceCombined(0xc9, n, 4); }
      else { ok := false; }
    }

    method PackInt(w: Width, v: int)
      requires Valid() && FitsSigned(v, Octets(w))
      modifies this
      ensures Valid() && put == old(put) + MsgPackSpec.PackSigned(w, v)
      decreases Octets(w)
    {
      hide BigEndian;
      Pow256Values();
      match w {
        case W8 =>
          if v > 31 || v < -32 { Put(0xd0); }
          OneOctet(Unsigned(v, 1));
          Put(Unsigned(v, 1));
        case W16 =>
          if -128 < v < 127 { PackInt(W8, v); } else { EmplaceCombined(0xd1, Unsigned(v, 2), 2); }
        case W32 =>
          if -0x8000 < v < 0x7fff { PackInt(W16, v); } else { EmplaceCombined(0xd2, Unsigned(v, 4), 4); }
        case W64 =>
          if -0x8000_0000 < v < 0x7fff_ffff { PackInt(W32, v); } else { EmplaceCombined(0xd3, Unsigned(v, 8), 8); }
      }
    }

    method PackUInt(w: Width, v: nat)
      requires Valid() && v < Pow256(Octets(w))
      modifies this
      ensures Valid() && put == old(put) + MsgPackSpec.PackUnsigned(w, v)
      decreases Octets(w)
    {
      hide BigEndian;
      Pow256Values();
      match w {
        case W8 =>
          if v >= 0x80 { Put(0xcc); }
          OneOctet(v);
          Put(v);
        case W16 => if v > 0xff { EmplaceCombined(0xcd, v, 2); } else { PackUInt(W8, v); }
        case W32 => if v > 0xffff { EmplaceCombined(0xce, v, 4); } else { PackUInt(W16, v); }
        case W64 => if v > 0xffff_ffff { EmplaceCombined(0xcf, v, 8); } else { PackUInt(W32, v); }
      }
    }

    // `ok` is false where the packer throws; what it had put by then stays put.
    method PackType(t: Type, v: Value) returns (ok: bool)
      requires Valid() && HasType(t, v)
      modifies this
      ensures Valid() && old(put) <= put
      ensures ok == Pack(t, v).Some?
      ensures ok ==> put == old(put) + Pack(t, v).value
      decreases v, 1
    {
      hide PackSigned, PackUnsigned, Combined;
      ok := true;
      match t {
        case SInt(w) => PackInt(w, v.n);
        case UInt(w) => PackUInt(w, v.n);
        case Bool => Put(if v.b then 0xc3 else 0xc2);
        case Nil => Put(0xc0);
        case Float32 => EmplaceCombined(0xca, v.bits, 4);
        case Float64 => EmplaceCombined(0xcb, v.bits, 8);
        case Str => ok := PackText(t, v);
        case Bin => ok := PackText(t, v);
        case Array(elem) => ok := PackArray(elem, v);
        case Map(kt, vt) => ok := PackMap(kt, vt, v);
        case Tuple(ts) => ok := PackTuple(ts, v.items);
        case Variant(ts) => ok := PackVariant(ts, v);
      }
    }

    method PackText(t: Type, v: Value) returns (ok: bool)
      requires Valid() && (t == Str || t == Bin) && HasType(t, v)
      modifies this
      ensures Valid() && old(put) <= put
      ensures ok == Pack(t, v).Some?
      ensures ok ==> put == old(put) + Pack(t, v).value
    {
      hide StrHeader, BinHeader;
      if t == Str { ok := PackStrHeader(|v.octets|); } else { ok := PackBinHeader(|v.octets|); }
      if ok { PutAll(v.octets); }
    }

    method PackArray(elem: Type, v: Value) returns (ok: bool)
      requires Valid() && HasType(Array(elem), v)
      modifies this
      ensures Valid() && old(put) <= put
      ensures ok == Pack(Array(elem), v).Some?
      ensures ok ==> put == old(put) + Pack(Array(elem), v).value
      decreases v, 0
    {
      hide ArrayHeader, PackSame, SameTyped;
      ok := PackArrayHeader(|v.items|);
      if ok { ok := PackEach(elem, v.items); }
    }

    method PackEach(t: Type, items: seq<Value>) returns (ok: bool)
      requires Valid() && SameTyped(t, items)
      modifies this
      ensures Valid() && old(put) <= put
      ensures ok == PackSame(t, items).Some?
      ensures ok ==> put == old(put) + PackSame(t, items).value
      decreases items, 0
    {
      hide *;
      ok := true;
      ghost var done := [];
      AllAndNone(items);
      AppendNothing(PackSame(t, items));
      for i := 0 to |items|
        invariant Valid() && put == old(put) + done
        invariant SameTyped(t, items[i..])
        invariant PackSame(t, items) == Append(Some(done), PackSame(t, items[i..]))
      {
        SameTail(t, items, i);
        AppendAgain(done, Pack(t, items[i]), PackSame(t, items[i + 1..]));
        ok := PackType(t, items[i]);
        if !ok { return; }
        done := done + Pack(t, items[i]).value;
      }
      NothingPacked(t, t, t);
      AppendNothing(Some(done));
    }

    method PackMap(kt: Type, vt: Type, v: Value) returns (ok: bool)
      requires Valid() && HasType(Map(kt, vt), v)
      modifies this
      ensures Valid() && old(put) <= put
      ensures ok == Pack(Map(kt, vt), v).Some?
      ensures ok ==> put == old(put) + Pack(Map(kt, vt), v).value
      decreases v, 0
    {
      hide MapHeader, PackEntries, EntriesTyped;
      ok := PackMapHeader(|v.entries|);
      if ok { ok := PackPairs(kt, vt, v.entries); }
    }

    method PackPairs(kt: Type, vt: Type, entries: seq<Entry>) returns (ok: bool)
      requires Valid() && EntriesTyped(kt, vt, entries)
      modifies this
      ensures Valid() && old(put) <= put
      ensures ok == PackEntries(kt, vt, entries).Some?
      ensures ok ==> put == old(put) + PackEntries(kt, vt, entries).value
      decreases entries, 0
    {
      hide *;
      ok := true;
      ghost var done := [];
      AllAndNone(entries);
      AppendNothing(PackEntries(kt, vt, entries));
      for i := 0 to |entries|
        invariant Valid() && put == old(put) + done
        invariant EntriesTyped(kt, vt, entries[i..])
        invariant PackEntries(kt, vt, entries) == Append(Some(done), PackEntries(kt, vt, entries[i..]))
      {
        EntriesTail(kt, vt, entries, i);
        AppendAgain(done, PackEntry(kt, vt, entries[i]), PackEntries(kt, vt, entries[i + 1..]));
        ok := PackPair(kt, vt, entries[i]);
        if !ok { return; }
        done := done + PackEntry(kt, vt, entries[i]).value;
      }
      NothingPacked(kt, kt, vt);
      AppendNothing(Some(done));
    }

    method PackPair(kt: Type, vt: Type, e: Entry) returns (ok: bool)
      requires Valid() && EntryTyped(kt, vt, e)
      modifies this
      ensures Valid() && old(put) <= put
      ensures ok == PackEntry(kt, vt, e).Some?
      ensures ok ==> put == old(put) + PackEntry(kt, vt, e).value
      decreases e, 0
    {
      hide Pack, HasType;
      ok := PackType(kt, e.key);
      if ok { ok := PackType(vt, e.value); }
    }

    method PackTuple(ts: seq<Type>, items: seq<Value>) returns (ok: bool)
      requires Valid() && ItemsTyped(ts, items)
      modifies this
      ensures Valid() && old(put) <= put
      ensures ok == PackItems(ts, items).Some?
      ensures ok ==> put == old(put) + PackItems(ts, items).value
      decreases items, 0
    {
      hide *;
      ok := true;
      ghost var done := [];
      AllAndNone(items);
      AllAndNone(ts);
      AppendNothing(PackItems(ts, items));
      for i := 0 to |items|
        invariant Valid() && put == old(put) + done
        invariant ItemsTyped(ts[i..], items[i..])
        invariant PackItems(ts, items) == Append(Some(done), PackItems(ts[i..], items[i..]))
      {
        ItemsTail(ts, items, i);
        AppendAgain(done, Pack(ts[i], items[i]), PackItems(ts[i + 1..], items[i + 1..]));
        ok := PackType(ts[i], items[i]);
        if !ok { return; }
        done := done + Pack(ts[i], items[i]).value;
      }
      NothingPacked(Nil, Nil, Nil);
      AppendNothing(Some(done));
    }

    lemma Counted()
      requires Valid() && counting
      ensures size == |put|
    {}

    // The content is packed twice: through a counting inserter for its size, then for good.
    method PackVariant(ts: seq<Type>, v: Value) returns (ok: bool)
      requires Valid() && HasType(Variant(ts), v)
      modifies this
      ensures Valid() && old(put) <= put
      ensures ok == Pack(Variant(ts), v).Some?
      ensures ok ==> put == old(put) + Pack(Variant(ts), v).value
      decreases v, 0
    {
      VariantUnfolds(ts, v);
      hide *;
      var counter := new Packer(true);
      ok := counter.PackType(ts[v.index], v.content);
      if !ok { return; }
      counter.Counted();
      ghost var before, content := put, Pack(ts[v.index], v.content).value;
      ok := PackExtHeader(counter.size);
      if !ok { return; }
      EmplaceIntegral(v.index % 256, 1);
      OneOctet(v.index % 256);
      ok := PackType(ts[v.index], v.content);
      Regroup(before, ExtHeader(|content|).value, [v.index % 256], content);
    }

    // A time point of a nanosecond clock. `nanos` and `seconds` start out rounded towards zero.
    method PackTime(count: int)
      requires Valid() && FitsSigned(count, 8)
      modifies this
      ensures Valid() && put == old(put) + Timestamp.Encode(count)
    {
      hide BigEndian;
      Timestamp.Bounds(count);
      var towardsZero := if count < 0 then -(-count / Timestamp.BILLION) else count / Timestamp.BILLION;
      var nanos, seconds := count - towardsZero * Timestamp.BILLION, 0;
      if nanos < 0 {
        nanos := Timestamp.BILLION + nanos;
        seconds := seconds - 1;
      }
      seconds := seconds + towardsZero;
      FloorIsUnique(count, seconds, nanos);
      PackSeconds(count, seconds, nanos);
    }

    method PackSeconds(ghost count: int, seconds: int, nanos: nat)
      requires Valid() && FitsSigned(count, 8)
      requires seconds == Timestamp.Seconds(count) && nanos == Timestamp.Nanos(count)
      modifies this
      ensures Valid() && put == old(put) + Timestamp.Encode(count)
    {
      hide BigEndian, FitsSigned;
      Timestamp.Bounds(count);
      if seconds / Timestamp.TWO_TO_THE_34 == 0 {
        var data := nanos * Timestamp.TWO_TO_THE_34 + seconds;
        Timestamp.Split34(nanos, seconds);
        if data / Timestamp.TWO_TO_THE_34 == 0 {
          EmplaceBehind([0xd6, 0xff], data % Timestamp.TWO_TO_THE_32, 4);
        } else {
          EmplaceBehind([0xd7, 0xff], data, 8);
        }
      } else {
        EmplaceBehind([0xc7, 12, 0xff], nanos, 4);
        EmplaceIntegral(Unsigned(seconds, 8), 8);
      }
    }
  }
}
