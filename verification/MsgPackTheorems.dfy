/**
 Unpacking what was packed: which value comes back, for every value, and when it is the one packed.
 */
module MsgPackTheorems {
  import opened Bytes
  import opened Messages
  import opened Words
  import opened MsgPackSpec

  // ---------- the value that comes back ----------

  // The wider signed types read the one-octet form of a negative number without its sign.
  predicate LosesSign(w: Width, n: int) {
    (w == W32 || w == W64) && -32 <= n <= -1
  }

  function Decoded(t: Type, v: Value): Value
    requires HasType(t, v)
    decreases v, 1
  {
    match t
    case SInt(w) => if LosesSign(w, v.n) then VInt(v.n + 256) else v
    case Array(elem) => VArray(DecodedSame(elem, v.items))
    case Map(kt, vt) => VMap(InsertAll([], DecodedEntries(kt, vt, v.entries)))
    case Tuple(ts) => VArray(DecodedItems(ts, v.items))
    case Variant(ts) => VVariant(v.index, Decoded(ts[v.index], v.content))
    case _ => v
  }

  function DecodedSame(t: Type, vs: seq<Value>): (r: seq<Value>)
    requires SameTyped(t, vs)
    ensures |r| == |vs|
    decreases vs, 0
  {
    if vs == [] then [] else [Decoded(t, vs[0])] + DecodedSame(t, vs[1..])
  }

  function DecodedItems(ts: seq<Type>, vs: seq<Value>): (r: seq<Value>)
    requires ItemsTyped(ts, vs)
    ensures |r| == |vs|
    decreases vs, 0
  {
    if vs == [] then [] else [Decoded(ts[0], vs[0])] + DecodedItems(ts[1..], vs[1..])
  }

  function DecodedEntry(kt: Type, vt: Type, e: Entry): Entry
    requires EntryTyped(kt, vt, e)
    decreases e, 0
  {
    Entry(Decoded(kt, e.key), Decoded(vt, e.value))
  }

  function DecodedEntries(kt: Type, vt: Type, entries: seq<Entry>): (r: seq<Entry>)
    requires EntriesTyped(kt, vt, entries)
    ensures |r| == |entries|
    decreases entries, 0
  {
    if entries == [] then [] else [DecodedEntry(kt, vt, entries[0])] + DecodedEntries(kt, vt, entries[1..])
  }

  function InsertAll(got: seq<Entry>, entries: seq<Entry>): seq<Entry>
    decreases |entries|
  {
    if entries == [] then got else InsertAll(Inserted(got, entries[0]), entries[1..])
  }

  // ---------- integers ----------

  lemma WordReads(format: byte, n: nat, w: nat, rest: seq<byte>)
    requires n < Pow256(w)
    ensures Word(Combined(format, n, w) + rest, w) == Some(Got(n, w + 1)) && (Combined(format, n, w) + rest)[0] == format
  {
    WordRoundTrip(n, w);
    assert (Combined(format, n, w) + rest)[1..w + 1] == BigEndian(n, w);
  }

  lemma SignedWord(v: int, w: nat)
    requires FitsSigned(v, w) && w > 0
    ensures 0 <= Unsigned(v, w) < Pow256(w) && Signed(Unsigned(v, w), w) == v
  {}

  lemma Signed8RoundTrip(v: int, rest: seq<byte>)
    requires FitsSigned(v, 1)
    ensures UnpackSigned(W8, PackSigned(W8, v) + rest) == Some(Got(v, |PackSigned(W8, v)|))
    ensures var s := PackSigned(W8, v);
      if -32 <= v <= 31 then s == [Unsigned(v, 1)] else s == Combined(0xd0, Unsigned(v, 1), 1)
  {
    Pow256Values();
    SignedWord(v, 1);
    OneOctet(Unsigned(v, 1));
    WordReads(0xd0, Unsigned(v, 1), 1, rest);
  }

  lemma Signed16RoundTrip(v: int, rest: seq<byte>)
    requires FitsSigned(v, 2)
    ensures UnpackSigned(W16, PackSigned(W16, v) + rest) == Some(Got(v, |PackSigned(W16, v)|))
    ensures PackSigned(W16, v) == if -128 < v < 127 then PackSigned(W8, v) else Combined(0xd1, Unsigned(v, 2), 2)
  {
    hide BigEndian;
    Pow256Values();
    SignedWord(v, 2);
    if -128 < v < 127 { Signed8RoundTrip(v, rest); } else { WordReads(0xd1, Unsigned(v, 2), 2, rest); }
  }

  lemma Signed32RoundTrip(v: int, rest: seq<byte>)
    requires FitsSigned(v, 4)
    ensures UnpackSigned(W32, PackSigned(W32, v) + rest)
      == Some(Got(if LosesSign(W32, v) then v + 256 else v, |PackSigned(W32, v)|))
    ensures PackSigned(W32, v) == if -0x8000 < v < 0x7fff then PackSigned(W16, v) else Combined(0xd2, Unsigned(v, 4), 4)
  {
    hide BigEndian;
    Pow256Values();
    SignedWord(v, 4);
    if -0x8000 < v < 0x7fff {
      Signed16RoundTrip(v, rest);
      if -128 < v < 127 { Signed8RoundTrip(v, rest); } else { WordReads(0xd1, Unsigned(v, 2), 2, rest); }
    } else {
      WordReads(0xd2, Unsigned(v, 4), 4, rest);
    }
  }

  lemma Signed64RoundTrip(v: int, rest: seq<byte>)
    requires FitsSigned(v, 8)
    ensures UnpackSigned(W64, PackSigned(W64, v) + rest)
      == Some(Got(if LosesSign(W64, v) then v + 256 else v, |PackSigned(W64, v)|))
  {
    hide BigEndian;
    Pow256Values();
    SignedWord(v, 8);
    if -0x8000_0000 < v < 0x7fff_ffff {
      Signed32RoundTrip(v, rest);
      if -0x8000 < v < 0x7fff {
        Signed16RoundTrip(v, rest);
        if -128 < v < 127 { Signed8RoundTrip(v, rest); } else { WordReads(0xd1, Unsigned(v, 2), 2, rest); }
      } else {
        WordReads(0xd2, Unsigned(v, 4), 4, rest);
      }
    } else {
      WordReads(0xd3, Unsigned(v, 8), 8, rest);
    }
  }

  lemma SignedRoundTrip(w: Width, v: int, rest: seq<byte>)
    requires FitsSigned(v, Octets(w))
    ensures UnpackSigned(w, PackSigned(w, v) + rest)
      == Some(Got(if LosesSign(w, v) then v + 256 else v, |PackSigned(w, v)|))
  {
    match w
    case W8 => Signed8RoundTrip(v, rest);
    case W16 => Signed16RoundTrip(v, rest);
    case W32 => Signed32RoundTrip(v, rest);
    case W64 => Signed64RoundTrip(v, rest);
  }

  lemma UnsignedRoundTrip(w: Width, v: nat, rest: seq<byte>)
    requires v < Pow256(Octets(w))
    ensures UnpackUnsigned(w, PackUnsigned(w, v) + rest) == Some(Got(v, |PackUnsigned(w, v)|))
  {
    Pow256Values();
    UnsignedForm(w, v);
    hide PackUnsigned, BigEndian;
    if v < 0x80 { assert ([v as byte] + rest)[0] == v; }
    else if v <= 0xff { WordReads(0xcc, v, 1, rest); }
    else if v <= 0xffff { WordReads(0xcd, v, 2, rest); }
    else if v <= 0xffff_ffff { WordReads(0xce, v, 4, rest); }
    else { WordReads(0xcf, v, 8, rest); }
  }

  lemma UnsignedForm(w: Width, v: nat)
    requires v < Pow256(Octets(w))
    ensures PackUnsigned(w, v) ==
      if v < 0x80 then [v] else if v <= 0xff then Combined(0xcc, v, 1) else if v <= 0xffff then Combined(0xcd, v, 2)
      else if v <= 0xffff_ffff then Combined(0xce, v, 4) else Combined(0xcf, v, 8)
    decreases Octets(w)
  {
    Pow256Values();
    if v <= 0xff { OneOctet(v); }
    match w
    case W8 =>
    case W16 =>
    case W32 => if v <= 0xffff { UnsignedForm(W16, v); }
    case W64 => if v <= 0xffff_ffff { UnsignedForm(W32, v); }
  }

  // ---------- sizes ----------

  lemma SizesRoundTrip(n: nat, rest: seq<byte>)
    ensures StrHeader(n).Some? ==> StrSize(StrHeader(n).value + rest) == Some(Got(n, |StrHeader(n).value|))
    ensures BinHeader(n).Some? ==> BinSize(BinHeader(n).value + rest) == Some(Got(n, |BinHeader(n).value|))
    ensures ArrayHeader(n).Some? ==> ArraySize(ArrayHeader(n).value + rest) == Some(Got(n, |ArrayHeader(n).value|))
    ensures MapHeader(n).Some? ==> MapSize(MapHeader(n).value + rest) == Some(Got(n, |MapHeader(n).value|))
  {
    hide BigEndian, Word, Combined;
    Pow256Values();
    if n < 0xff { WordReads(0xd9, n, 1, rest); WordReads(0xc4, n, 1, rest); }
    if n < 0xffff {
      WordReads(0xda, n, 2, rest);
      WordReads(0xc5, n, 2, rest);
      WordReads(0xdc, n, 2, rest);
      WordReads(0xde, n, 2, rest);
    }
    if n < 0xffff_ffff {
      WordReads(0xdb, n, 4, rest);
      WordReads(0xc6, n, 4, rest);
      WordReads(0xdd, n, 4, rest);
      WordReads(0xdf, n, 4, rest);
    }
    CombinedLength(n);
  }

  lemma CombinedLength(n: nat)
    ensures forall format: byte, w: nat :: |Combined(format, n, w)| == w + 1
  {}

  lemma ExtSizeRoundTrip(n: nat, rest: seq<byte>)
    requires ExtHeader(n).Some?
    ensures ExtSize(ExtHeader(n).value + rest) == Some(Got(n, |ExtHeader(n).value|))
  {
    hide BigEndian, Word, Combined;
    Pow256Values();
    if n < 0xff { WordReads(0xc7, n, 1, rest); }
    if n < 0xffff { WordReads(0xc8, n, 2, rest); }
    if n < 0xffff_ffff { WordReads(0xc9, n, 4, rest); }
    CombinedLength(n);
  }

  // ---------- values ----------

  lemma {:induction false} UnpackPacked(t: Type, v: Value, rest: seq<byte>)
    requires WellFormed(t) && HasType(t, v) && Pack(t, v).Some?
    ensures Unpack(t, Pack(t, v).value + rest) == Some(Got(Decoded(t, v), |Pack(t, v).value|))
    decreases v, 1
  {
    hide PackSigned, PackUnsigned, UnpackSigned, UnpackUnsigned, Word, Combined;
    match t {
      case SInt(w) => SignedRoundTrip(w, v.n, rest);
      case UInt(w) => UnsignedRoundTrip(w, v.n, rest);
      case Bool =>
      case Nil =>
      case Float32 => WordReads(0xca, v.bits, 4, rest); CombinedLength(v.bits);
      case Float64 => WordReads(0xcb, v.bits, 8, rest); CombinedLength(v.bits);
      case Str => UnpackText(t, v, rest);
      case Bin => UnpackText(t, v, rest);
      case Array(elem) => UnpackArray(elem, v, rest);
      case Map(kt, vt) => UnpackMap(kt, vt, v, rest);
      case Tuple(ts) => UnpackItems(ts, v.items, rest);
      case Variant(ts) => UnpackVariant(ts, v, rest);
    }
  }

  lemma TextReads(header: seq<byte>, octets: seq<byte>, rest: seq<byte>)
    ensures Sized(Some(Got(|octets|, |header|)), header + octets + rest) == Some(Got(VOctets(octets), |header + octets|))
  {
    assert (header + octets + rest)[|header|..|header| + |octets|] == octets;
  }

  lemma UnpackText(t: Type, v: Value, rest: seq<byte>)
    requires (t == Str || t == Bin) && HasType(t, v) && Pack(t, v).Some?
    ensures Unpack(t, Pack(t, v).value + rest) == Some(Got(v, |Pack(t, v).value|))
  {
    hide StrHeader, BinHeader, StrSize, BinSize, Sized;
    var header := if t == Str then StrHeader(|v.octets|).value else BinHeader(|v.octets|).value;
    SizesRoundTrip(|v.octets|, v.octets + rest);
    assert header + v.octets + rest == header + (v.octets + rest);
    TextReads(header, v.octets, rest);
  }

  lemma {:induction false} UnpackArray(elem: Type, v: Value, rest: seq<byte>)
    requires WellFormed(elem) && HasType(Array(elem), v) && Pack(Array(elem), v).Some?
    ensures Unpack(Array(elem), Pack(Array(elem), v).value + rest) == Some(Got(Decoded(Array(elem), v), |Pack(Array(elem), v).value|))
    decreases v, 0
  {
    hide ArrayHeader, ArraySize, PackSame, UnpackMany;
    var header, items := ArrayHeader(|v.items|).value, PackSame(elem, v.items).value;
    UnpackSame(elem, v.items, rest);
    SizesRoundTrip(|v.items|, items + rest);
    assert header + items + rest == header + (items + rest);
    assert (header + (items + rest))[|header|..] == items + rest;
  }

  // One value in front of others.
  lemma UnpackManyStep(t: Type, s: seq<byte>, n: nat, first: Got<Value>, later: Got<seq<Value>>)
    requires n > 0 && Unpack(t, s) == Some(first) && UnpackMany(t, s[first.used..], n - 1) == Some(later)
    ensures UnpackMany(t, s, n) == Some(Got([first.v] + later.v, first.used + later.used))
  {
    hide Unpack;
  }

  lemma PackSameStep(t: Type, vs: seq<Value>, rest: seq<byte>)
    requires vs != [] && SameTyped(t, vs) && PackSame(t, vs).Some?
    ensures Pack(t, vs[0]).Some? && PackSame(t, vs[1..]).Some?
    ensures var first, later, all := Pack(t, vs[0]).value, PackSame(t, vs[1..]).value, PackSame(t, vs).value;
      && |all| == |first| + |later|
      && all + rest == first + (later + rest)
      && (all + rest)[|first|..] == later + rest
  {
    hide Pack, HasType;
    var first, later := Pack(t, vs[0]).value, PackSame(t, vs[1..]).value;
    assert first + later + rest == first + (later + rest);
    assert (first + (later + rest))[|first|..] == later + rest;
  }

  lemma {:induction false} UnpackSame(t: Type, vs: seq<Value>, rest: seq<byte>)
    requires WellFormed(t) && SameTyped(t, vs) && PackSame(t, vs).Some?
    ensures UnpackMany(t, PackSame(t, vs).value + rest, |vs|) == Some(Got(DecodedSame(t, vs), |PackSame(t, vs).value|))
    decreases vs, 0
  {
    hide Pack, Unpack, Decoded, HasType, WellFormed;
    if vs != [] {
      PackSameStep(t, vs, rest);
      var first, later, all := Pack(t, vs[0]).value, PackSame(t, vs[1..]).value, PackSame(t, vs).value;
      hide PackSame, UnpackMany;
      UnpackPacked(t, vs[0], later + rest);
      UnpackSame(t, vs[1..], rest);
      UnpackManyStep(t, all + rest, |vs|, Got(Decoded(t, vs[0]), |first|), Got(DecodedSame(t, vs[1..]), |later|));
    }
  }

  lemma {:induction false} UnpackItems(ts: seq<Type>, vs: seq<Value>, rest: seq<byte>)
    requires AllWellFormed(ts) && ItemsTyped(ts, vs) && PackItems(ts, vs).Some?
    ensures UnpackEach(ts, PackItems(ts, vs).value + rest) == Some(Got(DecodedItems(ts, vs), |PackItems(ts, vs).value|))
    decreases vs, 0
  {
    hide Pack, Unpack, Decoded, HasType, WellFormed;
    if vs != [] {
      var first, later := Pack(ts[0], vs[0]).value, PackItems(ts[1..], vs[1..]).value;
      UnpackPacked(ts[0], vs[0], later + rest);
      UnpackItems(ts[1..], vs[1..], rest);
      assert first + later + rest == first + (later + rest);
      assert (first + (later + rest))[|first|..] == later + rest;
    }
  }

  lemma VariantPacks(ts: seq<Type>, v: Value) returns (header: seq<byte>, content: seq<byte>)
    requires HasType(Variant(ts), v) && Pack(Variant(ts), v).Some?
    ensures v.VVariant? && v.index < |ts| && HasType(ts[v.index], v.content) && Pack(ts[v.index], v.content) == Some(content)
    ensures ExtHeader(|content|) == Some(header)
    ensures Pack(Variant(ts), v).value == header + ([v.index % 256] + content)
    ensures Decoded(Variant(ts), v) == VVariant(v.index, Decoded(ts[v.index], v.content))
  {
    hide ExtHeader;
    content := Pack(ts[v.index], v.content).value;
    header := ExtHeader(|content|).value;
  }

  lemma {:induction false} UnpackVariant(ts: seq<Type>, v: Value, rest: seq<byte>)
    requires |ts| <= 128 && AllWellFormed(ts) && HasType(Variant(ts), v) && Pack(Variant(ts), v).Some?
    ensures Unpack(Variant(ts), Pack(Variant(ts), v).value + rest)
      == Some(Got(Decoded(Variant(ts), v), |Pack(Variant(ts), v).value|))
    decreases v, 0
  {
    hide *;
    var header, content := VariantPacks(ts, v);
    AlternativeWellFormed(ts, v.index);
    UnpackPacked(ts[v.index], v.content, []);
    assert content + [] == content;
    VariantOnWire(ts, header, v.index, content, rest);
  }

  lemma {:induction false} AlternativeWellFormed(ts: seq<Type>, k: nat)
    requires AllWellFormed(ts) && k < |ts|
    ensures WellFormed(ts[k])
  {
    if k > 0 { AlternativeWellFormed(ts[1..], k - 1); }
  }

  lemma VariantReads(header: seq<byte>, index: nat, content: seq<byte>, rest: seq<byte>)
    requires index < 128
    ensures var s, n := header + ([index as byte] + content + rest), |header|;
      && header + ([index as byte] + content) + rest == s
      && s[n] == index && s[n + 1..n + 1 + |content|] == content
  {}

  lemma VariantUnfolds(ts: seq<Type>, s: seq<byte>, size: Got<nat>, index: nat, content: seq<byte>)
    requires ExtSize(s) == Some(size) && index < |ts| <= 128
    requires size.used + 1 + size.v <= |s| && s[size.used] == index && content == s[size.used + 1..size.used + 1 + size.v]
    ensures var r := Unpack(ts[index], content);
      Unpack(Variant(ts), s) == if r.None? then None else Some(Got(VVariant(index, r.value.v), size.used + 1 + size.v))
  {
    assert Unpack(Variant(ts), s) == UnpackAlternative(ts, s, size) by { hide ExtSize, UnpackAlternative; }
    hide Unpack, ExtSize;
    assert index <= Signed((|ts| - 1) % 256, 1);
  }

  lemma VariantOnWire(ts: seq<Type>, header: seq<byte>, index: nat, content: seq<byte>, rest: seq<byte>)
    requires ExtHeader(|content|) == Some(header) && index < |ts| <= 128
    ensures var s, r := header + ([index as byte] + content), Unpack(ts[index], content);
      Unpack(Variant(ts), s + rest) == if r.None? then None else Some(Got(VVariant(index, r.value.v), |s|))
  {
    hide *;
    ExtSizeRoundTrip(|content|, [index as byte] + content + rest);
    VariantReads(header, index, content, rest);
    VariantUnfolds(ts, header + ([index as byte] + content + rest), Got(|content|, |header|), index, content);
  }

  lemma {:induction false} UnpackMap(kt: Type, vt: Type, v: Value, rest: seq<byte>)
    requires WellFormed(Map(kt, vt)) && HasType(Map(kt, vt), v) && Pack(Map(kt, vt), v).Some?
    ensures Unpack(Map(kt, vt), Pack(Map(kt, vt), v).value + rest)
      == Some(Got(Decoded(Map(kt, vt), v), |Pack(Map(kt, vt), v).value|))
    decreases v, 0
  {
    hide MapHeader, MapSize, PackEntries, UnpackEntries;
    var header, entries := MapHeader(|v.entries|).value, PackEntries(kt, vt, v.entries).value;
    UnpackPairs(kt, vt, v.entries, rest, []);
    SizesRoundTrip(|v.entries|, entries + rest);
    assert header + entries + rest == header + (entries + rest);
    assert (header + (entries + rest))[|header|..] == entries + rest;
  }

  lemma {:induction false} UnpackEntriesStep(kt: Type, vt: Type, s: seq<byte>, n: nat, got: seq<Entry>, key: Got<Value>, value: Got<Value>,
                          after: Got<seq<Entry>>)
    requires n > 0 && Unpack(kt, s) == Some(key) && Unpack(vt, s[key.used..]) == Some(value)
    requires key.used + value.used <= |s|
    requires UnpackEntries(kt, vt, s[key.used + value.used..], n - 1, Inserted(got, Entry(key.v, value.v))) == Some(after)
    ensures UnpackEntries(kt, vt, s, n, got) == Some(Got(after.v, key.used + value.used + after.used))
  {
    hide Unpack;
  }

  lemma PackEntriesStep(kt: Type, vt: Type, entries: seq<Entry>, rest: seq<byte>) returns (first: seq<byte>, later: seq<byte>)
    requires entries != [] && EntriesTyped(kt, vt, entries)
    requires EntryTyped(kt, vt, entries[0]) && EntriesTyped(kt, vt, entries[1..])
    requires PackEntries(kt, vt, entries).Some?
    ensures PackEntry(kt, vt, entries[0]) == Some(first) && PackEntries(kt, vt, entries[1..]) == Some(later)
    ensures var all := PackEntries(kt, vt, entries).value;
      && |all| == |first| + |later|
      && all + rest == first + (later + rest)
      && (all + rest)[|first|..] == later + rest
  {
    hide PackEntry, HasType;
    first, later := PackEntry(kt, vt, entries[0]).value, PackEntries(kt, vt, entries[1..]).value;
    assert first + later + rest == first + (later + rest);
    assert (first + (later + rest))[|first|..] == later + rest;
  }

  // One entry unpacks to its key, and behind it to its value.
  lemma {:induction false} UnpackPair(kt: Type, vt: Type, e: Entry, rest: seq<byte>) returns (key: Got<Value>, value: Got<Value>)
    requires WellFormed(kt) && WellFormed(vt) && EntryTyped(kt, vt, e)
    requires PackEntry(kt, vt, e).Some?
    ensures Entry(key.v, value.v) == DecodedEntry(kt, vt, e) && key.used + value.used == |PackEntry(kt, vt, e).value|
    ensures var s := PackEntry(kt, vt, e).value + rest;
      Unpack(kt, s) == Some(key) && key.used <= |s| && Unpack(vt, s[key.used..]) == Some(value)
    decreases e, 0
  {
    hide Pack, Unpack, Decoded, HasType, WellFormed;
    var k, v := Pack(kt, e.key).value, Pack(vt, e.value).value;
    UnpackPacked(kt, e.key, v + rest);
    UnpackPacked(vt, e.value, rest);
    assert k + v + rest == k + (v + rest);
    assert (k + (v + rest))[|k|..] == v + rest;
    key, value := Got(Decoded(kt, e.key), |k|), Got(Decoded(vt, e.value), |v|);
  }

  lemma EntriesUnfold(kt: Type, vt: Type, entries: seq<Entry>)
    requires entries != [] && EntriesTyped(kt, vt, entries)
    ensures EntryTyped(kt, vt, entries[0]) && EntriesTyped(kt, vt, entries[1..])
    ensures DecodedEntries(kt, vt, entries) == [DecodedEntry(kt, vt, entries[0])] + DecodedEntries(kt, vt, entries[1..])
  {
    hide EntryTyped, DecodedEntry;
  }

  lemma UnpackNone(kt: Type, vt: Type, rest: seq<byte>, got: seq<Entry>)
    ensures PackEntries(kt, vt, []).Some? && DecodedEntries(kt, vt, []) == [] && InsertAll(got, []) == got
    ensures UnpackEntries(kt, vt, PackEntries(kt, vt, []).value + rest, 0, got) == Some(Got(got, |PackEntries(kt, vt, []).value|))
  {}

  lemma {:induction false} UnpackPairs(kt: Type, vt: Type, entries: seq<Entry>, rest: seq<byte>, got: seq<Entry>)
    requires WellFormed(kt) && WellFormed(vt) && EntriesTyped(kt, vt, entries) && PackEntries(kt, vt, entries).Some?
    ensures UnpackEntries(kt, vt, PackEntries(kt, vt, entries).value + rest, |entries|, got)
      == Some(Got(InsertAll(got, DecodedEntries(kt, vt, entries)), |PackEntries(kt, vt, entries).value|))
    decreases entries, 0
  {
    hide *;
    if entries == [] {
      UnpackNone(kt, vt, rest, got);
    } else {
      var all := PackEntries(kt, vt, entries).value;
      EntriesUnfold(kt, vt, entries);
      var first, later := PackEntriesStep(kt, vt, entries, rest);
      var key, value := UnpackPair(kt, vt, entries[0], later + rest);
      var d := DecodedEntry(kt, vt, entries[0]);
      UnpackPairs(kt, vt, entries[1..], rest, Inserted(got, d));
      InsertAllStep(got, d, DecodedEntries(kt, vt, entries[1..]));
      UnpackEntriesStep(kt, vt, all + rest, |entries|, got, key, value,
        Got(InsertAll(Inserted(got, d), DecodedEntries(kt, vt, entries[1..])), |later|));
    }
  }

  lemma InsertAllStep(got: seq<Entry>, e: Entry, later: seq<Entry>)
    ensures InsertAll(got, [e] + later) == InsertAll(Inserted(got, e), later)
  {
    assert ([e] + later)[1..] == later;
  }

  // ---------- when the value survives ----------

  predicate Lossless(t: Type, v: Value)
    requires HasType(t, v)
    decreases v, 1
  {
    match t
    case SInt(w) => !LosesSign(w, v.n)
    case Array(elem) => SameLossless(elem, v.items)
    case Map(kt, vt) => EntriesLossless(kt, vt, v.entries)
    case Tuple(ts) => ItemsLossless(ts, v.items)
    case Variant(ts) => Lossless(ts[v.index], v.content)
    case _ => true
  }

  predicate SameLossless(t: Type, vs: seq<Value>)
    requires SameTyped(t, vs)
    decreases vs, 0
  {
    vs == [] || (Lossless(t, vs[0]) && SameLossless(t, vs[1..]))
  }

  predicate ItemsLossless(ts: seq<Type>, vs: seq<Value>)
    requires ItemsTyped(ts, vs)
    decreases vs, 0
  {
    vs == [] || (Lossless(ts[0], vs[0]) && ItemsLossless(ts[1..], vs[1..]))
  }

  predicate EntryLossless(kt: Type, vt: Type, e: Entry)
    requires EntryTyped(kt, vt, e)
    decreases e, 0
  {
    Lossless(kt, e.key) && Lossless(vt, e.value)
  }

  predicate EntriesLossless(kt: Type, vt: Type, entries: seq<Entry>)
    requires EntriesTyped(kt, vt, entries)
    decreases entries, 0
  {
    entries == [] || (EntryLossless(kt, vt, entries[0]) && EntriesLossless(kt, vt, entries[1..]))
  }

  // A value comes back as it was exactly when no signed integer in it is read without its sign.
  lemma {:induction false} LosslessExactly(t: Type, v: Value)
    requires HasType(t, v)
    ensures Decoded(t, v) == v <==> Lossless(t, v)
    decreases v, 1
  {
    match t
    case SInt(w) =>
    case Array(elem) => SameExactly(elem, v.items);
    case Map(kt, vt) => MapExactly(kt, vt, v.entries);
    case Tuple(ts) => ItemsExactly(ts, v.items);
    case Variant(ts) => LosslessExactly(ts[v.index], v.content);
    case _ =>
  }

  lemma FrontAndRest<T>(x: T, xs: seq<T>, ys: seq<T>)
    requires ys != []
    ensures [x] + xs == ys <==> x == ys[0] && xs == ys[1..]
  {
    assert ys == [ys[0]] + ys[1..];
    assert ([x] + xs)[0] == x && ([x] + xs)[1..] == xs;
  }

  lemma {:induction false} SameExactly(t: Type, vs: seq<Value>)
    requires SameTyped(t, vs)
    ensures DecodedSame(t, vs) == vs <==> SameLossless(t, vs)
    decreases vs, 0
  {
    hide HasType, Decoded, Lossless;
    if vs != [] {
      LosslessExactly(t, vs[0]);
      SameExactly(t, vs[1..]);
      FrontAndRest(Decoded(t, vs[0]), DecodedSame(t, vs[1..]), vs);
    }
  }

  lemma {:induction false} ItemsExactly(ts: seq<Type>, vs: seq<Value>)
    requires ItemsTyped(ts, vs)
    ensures DecodedItems(ts, vs) == vs <==> ItemsLossless(ts, vs)
    decreases vs, 0
  {
    hide HasType, Decoded, Lossless;
    if vs != [] {
      LosslessExactly(ts[0], vs[0]);
      ItemsExactly(ts[1..], vs[1..]);
      FrontAndRest(Decoded(ts[0], vs[0]), DecodedItems(ts[1..], vs[1..]), vs);
    }
  }

  lemma EntryExactly(kt: Type, vt: Type, e: Entry)
    requires EntryTyped(kt, vt, e)
    ensures DecodedEntry(kt, vt, e) == e <==> EntryLossless(kt, vt, e)
    decreases e, 0
  {
    hide HasType, Decoded, Lossless;
    LosslessExactly(kt, e.key);
    LosslessExactly(vt, e.value);
  }

  lemma {:induction false} EntriesExactly(kt: Type, vt: Type, entries: seq<Entry>)
    requires EntriesTyped(kt, vt, entries)
    ensures DecodedEntries(kt, vt, entries) == entries <==> EntriesLossless(kt, vt, entries)
    decreases entries, 0
  {
    hide EntryTyped, DecodedEntry, EntryLossless;
    if entries != [] {
      EntryExactly(kt, vt, entries[0]);
      EntriesExactly(kt, vt, entries[1..]);
      FrontAndRest(DecodedEntry(kt, vt, entries[0]), DecodedEntries(kt, vt, entries[1..]), entries);
    }
  }

  lemma {:induction false} MapExactly(kt: Type, vt: Type, entries: seq<Entry>)
    requires EntriesTyped(kt, vt, entries) && DistinctKeys(entries)
    ensures InsertAll([], DecodedEntries(kt, vt, entries)) == entries <==> EntriesLossless(kt, vt, entries)
    decreases entries, 1
  {
    hide HasType, DecodedEntries, EntriesTyped;
    EntriesExactly(kt, vt, entries);
    InsertAllGrows([], DecodedEntries(kt, vt, entries));
    if DecodedEntries(kt, vt, entries) == entries { InsertDistinct([], entries); }
  }

  lemma {:induction false} InsertedGrows(got: seq<Entry>, e: Entry)
    ensures |Inserted(got, e)| <= |got| + 1
    ensures |Inserted(got, e)| == |got| + 1 ==> Inserted(got, e) == got + [e]
    ensures (forall k :: 0 <= k < |got| ==> got[k].key != e.key) ==> Inserted(got, e) == got + [e]
  {
    if got != [] {
      InsertedGrows(got[1..], e);
      assert got + [e] == [got[0]] + (got[1..] + [e]);
    }
  }

  // Insertions that never replaced anything appended everything.
  lemma {:induction false} InsertAllGrows(got: seq<Entry>, entries: seq<Entry>)
    ensures |InsertAll(got, entries)| <= |got| + |entries|
    ensures |InsertAll(got, entries)| == |got| + |entries| ==> InsertAll(got, entries) == got + entries
    decreases |entries|
  {
    if entries != [] {
      InsertedGrows(got, entries[0]);
      InsertAllGrows(Inserted(got, entries[0]), entries[1..]);
      assert got + entries == got + [entries[0]] + entries[1..];
    }
  }

  lemma {:induction false} InsertDistinct(got: seq<Entry>, entries: seq<Entry>)
    requires DistinctKeys(got + entries)
    ensures InsertAll(got, entries) == got + entries
    decreases |entries|
  {
    if entries != [] {
      var all := got + entries;
      assert all[|got|] == entries[0] && forall k :: 0 <= k < |got| ==> all[k] == got[k];
      InsertedGrows(got, entries[0]);
      assert all == got + [entries[0]] + entries[1..];
      InsertDistinct(got + [entries[0]], entries[1..]);
    }
  }

  // Unpacking what was packed stops right behind it, and gives the value back exactly when that value
  // has no signed integer of 32 or 64 bits from -32 to -1.
  lemma RoundTrip(t: Type, v: Value, rest: seq<byte>)
    requires WellFormed(t) && HasType(t, v) && Pack(t, v).Some?
    ensures var r := Unpack(t, Pack(t, v).value + rest);
      && r.Some? && r.value.used == |Pack(t, v).value|
      && (r.value.v == v <==> Lossless(t, v))
  {
    hide Pack, Unpack, Decoded, HasType, Lossless;
    UnpackPacked(t, v, rest);
    LosslessExactly(t, v);
  }
}
