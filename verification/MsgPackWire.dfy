/**
 What packing puts on the wire: the octets hold the value in the MessagePack format, whatever reads them,
 and in the shortest form but for the sizes and numbers named here.
 */
module MsgPackWire {
  import opened Bytes
  import opened Messages
  import opened Words
  import opened MsgPackSpec
  import opened MsgPackFormat
  import MsgPackTheorems

  // ---------- numbers ----------

  lemma Snoc(t: seq<byte>, x: byte)
    ensures FromBigEndian(t + [x]) == 256 * FromBigEndian(t) + x
  {
    assert (t + [x])[..|t|] == t;
  }

  lemma FourOctets(a: byte, b: byte, c: byte, d: byte)
    ensures FromBigEndian([a]) == a && FromBigEndian([a, b]) == 0x100 * a as int + b
    ensures FromBigEndian([a, b, c, d]) == 0x100_0000 * a as int + 0x1_0000 * b as int + 0x100 * c as int + d
  {
    Snoc([], a);
    Snoc([a], b);
    Snoc([a, b], c);
    Snoc([a, b, c], d);
    assert [] + [a] == [a] && [a] + [b] == [a, b] && [a, b] + [c] == [a, b, c] && [a, b, c] + [d] == [a, b, c, d];
  }

  lemma EightOctets(t: seq<byte>, a: byte, b: byte, c: byte, d: byte)
    ensures FromBigEndian(t + [a, b, c, d])
      == 0x1_0000_0000 * FromBigEndian(t) + 0x100_0000 * a as int + 0x1_0000 * b as int + 0x100 * c as int + d
  {
    Snoc(t, a);
    Snoc(t + [a], b);
    Snoc(t + [a] + [b], c);
    Snoc(t + [a] + [b] + [c], d);
    assert t + [a] + [b] + [c] + [d] == t + [a, b, c, d];
  }

  lemma NumberIs(s: seq<byte>, i: nat, w: nat)
    requires w in {1, 2, 4, 8} && i + w <= |s|
    ensures Number(s, i, w) == Some(FromBigEndian(s[i..i + w]))
  {
    hide FromBigEndian;
    if w <= 4 {
      var at := (k: nat) => if i + k < |s| then s[i + k] else 0;
      FourOctets(at(0), at(1), at(2), at(3));
      assert w == 1 ==> s[i..i + 1] == [s[i]];
      assert w == 2 ==> s[i..i + 2] == [s[i], s[i + 1]];
      assert w == 4 ==> s[i..i + 4] == [s[i], s[i + 1], s[i + 2], s[i + 3]];
    } else {
      FourOctets(s[i], s[i + 1], s[i + 2], s[i + 3]);
      EightOctets([s[i], s[i + 1], s[i + 2], s[i + 3]], s[i + 4], s[i + 5], s[i + 6], s[i + 7]);
      assert s[i..i + 8] == [s[i], s[i + 1], s[i + 2], s[i + 3]] + [s[i + 4], s[i + 5], s[i + 6], s[i + 7]];
    }
  }

  // A word that was written, read.
  lemma WordHolds(s: seq<byte>, i: nat, w: nat, n: nat)
    requires w in {1, 2, 4, 8} && n < Pow256(w) && i + w <= |s| && s[i..i + w] == BigEndian(n, w)
    ensures Number(s, i, w) == Some(n)
  {
    hide BigEndian, FromBigEndian, Number, Pow256;
    NumberIs(s, i, w);
    WordRoundTrip(n, w);
  }

  lemma SignedWordHolds(s: seq<byte>, i: nat, w: nat, v: int)
    requires w in {1, 2, 4, 8} && FitsSigned(v, w) && i + w <= |s| && s[i..i + w] == BigEndian(Unsigned(v, w), w)
    ensures SignedNumber(s, i, w) == Some(v)
  {
    hide BigEndian, Number;
    Pow256Values();
    WordHolds(s, i, w, Unsigned(v, w));
  }

  lemma WordBehind(format: byte, n: nat, w: nat, rest: seq<byte>)
    ensures var s := Combined(format, n, w) + rest;
      s[0] == format && |s| == 1 + w + |rest| && s[1..1 + w] == BigEndian(n, w) && s[1 + w..] == rest
  {}

  // ---------- more octets behind ----------

  lemma NumberStays(a: seq<byte>, b: seq<byte>, i: nat, w: nat)
    requires i + w <= |a|
    ensures Number(a + b, i, w) == Number(a, i, w) && SignedNumber(a + b, i, w) == SignedNumber(a, i, w)
  {}

  lemma PayloadStays(a: seq<byte>, b: seq<byte>, i: nat, n: nat)
    requires i + n <= |a|
    ensures Payload(a + b, i, n) == Payload(a, i, n)
  {
    assert (a + b)[i..i + n] == a[i..i + n];
  }

  lemma ExtensionStays(a: seq<byte>, b: seq<byte>)
    requires Extension(a).Some?
    ensures Extension(a + b) == Extension(a)
  {
    var w := NumberWidth(a[0]);
    hide Payload, Number, SignedNumber, NumberWidth;
    assert (a + b)[0] == a[0];
    if 0xc7 <= a[0] <= 0xc9 { NumberStays(a, b, 1, w); }
    NumberStays(a, b, 1 + w, 1);
    PayloadStays(a, b, 2 + w, |Extension(a).value.what.1|);
  }

  lemma TokenStays(a: seq<byte>, b: seq<byte>)
    requires ReadToken(a).Some?
    ensures ReadToken(a + b) == ReadToken(a)
  {
    var c, w := a[0], NumberWidth(a[0]);
    hide Payload, Number, SignedNumber, NumberWidth, ReadAll, Extension;
    assert (a + b)[0] == c;
    if |a| >= 1 + w { NumberStays(a, b, 1, w); }
    if 0xc7 <= c <= 0xc9 || 0xd4 <= c <= 0xd8 {
      ExtensionStays(a, b);
    } else if 0xa0 <= c <= 0xbf || 0xc4 <= c <= 0xc6 || 0xd9 <= c <= 0xdb {
      PayloadStays(a, b, 1 + w, ReadToken(a).value.used - 1 - w);
    }
  }

  lemma {:induction false} ReadsThen(a: seq<byte>, b: seq<byte>)
    requires ReadAll(a).Some? && ReadAll(b).Some?
    ensures ReadAll(a + b) == Some(ReadAll(a).value + ReadAll(b).value)
    decreases |a|
  {
    hide ReadToken;
    if a == [] {
      assert a + b == b && [] + ReadAll(b).value == ReadAll(b).value;
    } else {
      var first := ReadToken(a).value;
      TokenStays(a, b);
      assert (a + b)[first.used..] == a[first.used..] + b;
      ReadsThen(a[first.used..], b);
      var later := ReadAll(a[first.used..]).value;
      assert [first.what] + (later + ReadAll(b).value) == [first.what] + later + ReadAll(b).value;
    }
  }

  lemma OneToken(s: seq<byte>, t: Token)
    requires ReadToken(s) == Some(Read(t, |s|))
    ensures ReadAll(s) == Some([t])
  {
    hide ReadToken;
    assert s[|s|..] == [] && ReadAll([]) == Some([]) && [t] + [] == [t];
  }

  // ---------- what a value comes to in tokens ----------

  // Members of a tuple stand one after another; an alternative is an extension of its own.
  function Tokens(t: Type, v: Value): seq<Token>
    requires HasType(t, v)
    decreases v, 1
  {
    match t
    case SInt(_) => [TInt(v.n)]
    case UInt(_) => [TInt(v.n)]
    case Bool => [TBool(v.b)]
    case Nil => [TNil]
    case Float32 => [TFloat(4, v.bits)]
    case Float64 => [TFloat(8, v.bits)]
    case Str => [TStr(v.octets)]
    case Bin => [TBin(v.octets)]
    case Array(elem) => [TArray(|v.items|)] + SameTokens(elem, v.items)
    case Map(kt, vt) => [TMap(|v.entries|)] + EntryTokens(kt, vt, v.entries)
    case Tuple(ts) => ItemTokens(ts, v.items)
    case Variant(ts) => [TExt(v.index, Some(Tokens(ts[v.index], v.content)))]
  }

  function SameTokens(t: Type, vs: seq<Value>): seq<Token>
    requires SameTyped(t, vs)
    decreases vs, 0
  {
    if vs == [] then [] else Tokens(t, vs[0]) + SameTokens(t, vs[1..])
  }

  function ItemTokens(ts: seq<Type>, vs: seq<Value>): seq<Token>
    requires ItemsTyped(ts, vs)
    decreases vs, 0
  {
    if vs == [] then [] else Tokens(ts[0], vs[0]) + ItemTokens(ts[1..], vs[1..])
  }

  function EntryTokens(kt: Type, vt: Type, entries: seq<Entry>): seq<Token>
    requires EntriesTyped(kt, vt, entries)
    decreases entries, 0
  {
    if entries == [] then [] else PairTokens(kt, vt, entries[0]) + EntryTokens(kt, vt, entries[1..])
  }

  function PairTokens(kt: Type, vt: Type, e: Entry): seq<Token>
    requires EntryTyped(kt, vt, e)
    decreases e, 0
  {
    Tokens(kt, e.key) + Tokens(vt, e.value)
  }

  // ---------- the leaves ----------

  lemma WordToken(format: byte, n: nat, w: nat)
    requires w == NumberWidth(format) && w in {1, 2, 4, 8} && n < Pow256(w)
    ensures 0xca <= format <= 0xcb ==> ReadToken(Combined(format, n, w)) == Some(Read(TFloat(w, n), 1 + w))
    ensures 0xcc <= format <= 0xcf ==> ReadToken(Combined(format, n, w)) == Some(Read(TInt(n), 1 + w))
    ensures format in {0xdc, 0xdd} ==> ReadToken(Combined(format, n, w)) == Some(Read(TArray(n), 1 + w))
    ensures format in {0xde, 0xdf} ==> ReadToken(Combined(format, n, w)) == Some(Read(TMap(n), 1 + w))
  {
    hide Number, NumberWidth, BigEndian;
    var s := Combined(format, n, w);
    WordBehind(format, n, w, []);
    assert s + [] == s;
    WordHolds(s, 1, w, n);
  }

  lemma SignedToken(format: byte, v: int, w: nat)
    requires 0xd0 <= format <= 0xd3 && w == NumberWidth(format) && w in {1, 2, 4, 8} && FitsSigned(v, w)
    ensures 0 <= Unsigned(v, w)
    ensures ReadToken(Combined(format, Unsigned(v, w), w)) == Some(Read(TInt(v), 1 + w))
  {
    Pow256Values();
    hide Number, NumberWidth, BigEndian, Pow256;
    var n := Unsigned(v, w);
    var s := Combined(format, n, w);
    WordBehind(format, n, w, []);
    assert s + [] == s;
    SignedWordHolds(s, 1, w, v);
    NumberIs(s, 1, w);
  }

  lemma SignedReads(w: Width, v: int)
    requires FitsSigned(v, Octets(w))
    ensures ReadToken(PackSigned(w, v)) == Some(Read(TInt(v), |PackSigned(w, v)|))
    decreases Octets(w)
  {
    Pow256Values();
    hide ReadToken, BigEndian, Pow256;
    match w
    case W8 =>
      OneOctet(Unsigned(v, 1));
      assert [] + [Unsigned(v, 1) as byte] == [Unsigned(v, 1) as byte];
      if -32 <= v <= 31 { FixInt(v); } else { SignedToken(0xd0, v, 1); }
    case W16 => if -128 < v < 127 { SignedReads(W8, v); } else { SignedToken(0xd1, v, 2); }
    case W32 => if -0x8000 < v < 0x7fff { SignedReads(W16, v); } else { SignedToken(0xd2, v, 4); }
    case W64 => if -0x8000_0000 < v < 0x7fff_ffff { SignedReads(W32, v); } else { SignedToken(0xd3, v, 8); }
  }

  lemma FixInt(v: int)
    requires -32 <= v <= 127
    ensures ReadToken([if v < 0 then v + 256 else v]) == Some(Read(TInt(v), 1))
  {}

  lemma UnsignedReads(w: Width, v: nat)
    requires v < Pow256(Octets(w))
    ensures ReadToken(PackUnsigned(w, v)) == Some(Read(TInt(v), |PackUnsigned(w, v)|))
    decreases Octets(w)
  {
    Pow256Values();
    hide ReadToken, BigEndian, Pow256;
    match w
    case W8 =>
      OneOctet(v);
      assert v < 0x80 ==> [] + [v as byte] == [v as byte];
      if v < 0x80 { FixInt(v); } else { WordToken(0xcc, v, 1); }
    case W16 => if v > 0xff { WordToken(0xcd, v, 2); } else { UnsignedReads(W8, v); }
    case W32 => if v > 0xffff { WordToken(0xce, v, 4); } else { UnsignedReads(W16, v); }
    case W64 => if v > 0xffff_ffff { WordToken(0xcf, v, 8); } else { UnsignedReads(W32, v); }
  }

  lemma HeaderReads(n: nat)
    ensures ArrayHeader(n).Some? ==> ReadToken(ArrayHeader(n).value) == Some(Read(TArray(n), |ArrayHeader(n).value|))
    ensures MapHeader(n).Some? ==> ReadToken(MapHeader(n).value) == Some(Read(TMap(n), |MapHeader(n).value|))
  {
    Pow256Values();
    if 16 <= n < 0xffff_ffff {
      if n < 0xffff { WordToken(0xdc, n, 2); WordToken(0xde, n, 2); }
      WordToken(0xdd, n, 4);
      WordToken(0xdf, n, 4);
    }
    hide BigEndian, Number;
  }

  // A size and the octets it announces.
  lemma SizedToken(format: byte, n: nat, w: nat, octets: seq<byte>)
    requires w == NumberWidth(format) && w in {1, 2, 4} && n == |octets| < Pow256(w)
    ensures 0xc4 <= format <= 0xc6 ==> ReadToken(Combined(format, n, w) + octets) == Some(Read(TBin(octets), 1 + w + n))
    ensures 0xd9 <= format <= 0xdb ==> ReadToken(Combined(format, n, w) + octets) == Some(Read(TStr(octets), 1 + w + n))
  {
    var s := Combined(format, n, w) + octets;
    WordBehind(format, n, w, octets);
    WordHolds(s, 1, w, n);
    assert s[1 + w..1 + w + n] == octets;
    hide Number, NumberWidth, BigEndian, Combined;
  }

  lemma ShortString(c: byte, octets: seq<byte>)
    requires c == 0xa0 + |octets| < 0xc0
    ensures ReadToken([c] + octets) == Some(Read(TStr(octets), 1 + |octets|))
  {
    hide ReadToken;
    var s := [c] + octets;
    assert s[1..] == octets && s[1..1 + |octets|] == s[1..];
    ShortStringRead(s, octets);
  }

  lemma ShortStringRead(s: seq<byte>, octets: seq<byte>)
    requires |s| == 1 + |octets| && s[0] == 0xa0 + |octets| < 0xc0 && s[1..1 + |octets|] == octets
    ensures ReadToken(s) == Some(Read(TStr(octets), 1 + |octets|))
  {
    NoNumber(s[0]);
    hide Number, NumberWidth, ReadAll, Extension, NumberToken;
  }

  lemma NoNumber(c: byte)
    requires 0xa0 <= c <= 0xbf || 0xd4 <= c <= 0xd8
    ensures NumberWidth(c) == 0
  {}

  lemma TextReads(octets: seq<byte>)
    ensures var n := |octets|; StrHeader(n).Some? ==>
      ReadToken(StrHeader(n).value + octets) == Some(Read(TStr(octets), |StrHeader(n).value| + n))
    ensures var n := |octets|; BinHeader(n).Some? ==>
      ReadToken(BinHeader(n).value + octets) == Some(Read(TBin(octets), |BinHeader(n).value| + n))
  {
    Pow256Values();
    hide ReadToken, BigEndian, Pow256;
    var n := |octets|;
    if n < 32 { ShortString(0xa0 + n, octets); }
    if n < 0xff { SizedToken(0xd9, n, 1, octets); SizedToken(0xc4, n, 1, octets); }
    if n < 0xffff { SizedToken(0xda, n, 2, octets); SizedToken(0xc5, n, 2, octets); }
    if n < 0xffff_ffff { SizedToken(0xdb, n, 4, octets); SizedToken(0xc6, n, 4, octets); }
  }

  // An extension with its header, kind and data.
  lemma ExtensionReads(kind: nat, data: seq<byte>)
    requires kind < 128 && ExtHeader(|data|).Some?
    ensures var s := ExtHeader(|data|).value + ([kind as byte] + data);
      Extension(s) == Some(Read((kind, data), |s|)) && (0xc7 <= s[0] <= 0xc9 || 0xd4 <= s[0] <= 0xd8)
  {
    Pow256Values();
    hide BigEndian, Pow256;
    var n := |data|;
    var header := ExtHeader(n).value;
    if n in {1, 2, 4, 8, 16} {
      FixExt(header[0], kind, data);
    } else {
      var w := |header| - 1;
      SizedExt(header[0], w, kind, data);
    }
  }

  lemma FixExt(format: byte, kind: nat, data: seq<byte>)
    requires kind < 128
    requires (format, |data|) in {(0xd4, 1), (0xd5, 2), (0xd6, 4), (0xd7, 8), (0xd8, 16)}
    ensures var s := [format] + ([kind as byte] + data); Extension(s) == Some(Read((kind, data), |s|))
  {
    var s := [format] + ([kind as byte] + data);
    NoNumber(format);
    assert s[0] == format && s[1] == kind && s == [format, kind as byte] + data;
    assert s[2..] == data && s[2..2 + |data|] == s[2..];
    KindReads(s, 1);
    hide Number, NumberWidth, SignedNumber;
  }

  lemma SizedExt(format: byte, w: nat, kind: nat, data: seq<byte>)
    requires kind < 128 && 0xc7 <= format <= 0xc9 && w == NumberWidth(format) && |data| < Pow256(w)
    ensures var s := Combined(format, |data|, w) + ([kind as byte] + data); Extension(s) == Some(Read((kind, data), |s|))
  {
    hide Number, NumberWidth, BigEndian, Combined, SignedNumber, Pow256;
    var n, behind := |data|, [kind as byte] + data;
    var s := Combined(format, n, w) + behind;
    WordBehind(format, n, w, behind);
    WidthsOf(format);
    WordHolds(s, 1, w, n);
    KindAndData(s, 1 + w, kind, data);
    KindReads(s, 1 + w);
  }

  lemma WidthsOf(format: byte)
    requires 0xc7 <= format <= 0xc9
    ensures NumberWidth(format) in {1, 2, 4}
  {}

  lemma KindAndData(s: seq<byte>, i: nat, kind: nat, data: seq<byte>)
    requires kind < 128 && i <= |s| && s[i..] == [kind as byte] + data
    ensures i < |s| && s[i] == kind && |s| == i + 1 + |data| && s[i + 1..i + 1 + |data|] == data
  {
    assert s[i] == s[i..][0] && s[i + 1..] == s[i..][1..];
  }

  lemma KindReads(s: seq<byte>, i: nat)
    requires i < |s| && s[i] < 128
    ensures SignedNumber(s, i, 1) == Some(s[i] as int)
  {}

  // ---------- every value ----------

  // What packing puts on the wire is read, without knowing the type, as the tokens of the value, with nothing
  // left over.
  lemma {:induction false} PackedReads(t: Type, v: Value)
    requires WellFormed(t) && HasType(t, v) && Pack(t, v).Some?
    ensures ReadAll(Pack(t, v).value) == Some(Tokens(t, v))
    decreases v, 1
  {
    hide PackSigned, PackUnsigned, Combined, ReadToken, ReadAll;
    Pow256Values();
    match t {
      case SInt(w) => SignedReads(w, v.n); OneToken(PackSigned(w, v.n), TInt(v.n));
      case UInt(w) => UnsignedReads(w, v.n); OneToken(PackUnsigned(w, v.n), TInt(v.n));
      case Bool => BoolReads(v.b);
      case Nil => BoolReads(true);
      case Float32 => WordToken(0xca, v.bits, 4); MsgPackTheorems.CombinedLength(v.bits); OneToken(Combined(0xca, v.bits, 4), TFloat(4, v.bits));
      case Float64 => WordToken(0xcb, v.bits, 8); MsgPackTheorems.CombinedLength(v.bits); OneToken(Combined(0xcb, v.bits, 8), TFloat(8, v.bits));
      case Str => TextIs(t, v);
      case Bin => TextIs(t, v);
      case Array(elem) => ArrayReads(elem, v);
      case Map(kt, vt) => MapReads(kt, vt, v);
      case Tuple(ts) => ItemsRead(ts, v.items);
      case Variant(ts) => VariantReads(ts, v);
    }
  }

  lemma BoolReads(b: bool)
    ensures ReadAll([if b then 0xc3 else 0xc2]) == Some([TBool(b)]) && ReadAll([0xc0]) == Some([TNil])
  {
    OneToken([if b then 0xc3 else 0xc2], TBool(b));
    OneToken([0xc0], TNil);
  }

  lemma TextIs(t: Type, v: Value)
    requires (t == Str || t == Bin) && HasType(t, v) && Pack(t, v).Some?
    ensures ReadAll(Pack(t, v).value) == Some(Tokens(t, v))
  {
    hide ReadToken, StrHeader, BinHeader, ReadAll;
    TextReads(v.octets);
    OneToken(Pack(t, v).value, if t == Str then TStr(v.octets) else TBin(v.octets));
  }

  lemma {:induction false} ArrayReads(elem: Type, v: Value)
    requires WellFormed(elem) && HasType(Array(elem), v) && Pack(Array(elem), v).Some?
    ensures ReadAll(Pack(Array(elem), v).value) == Some(Tokens(Array(elem), v))
    decreases v, 0
  {
    hide ReadToken, ReadAll, ArrayHeader, PackSame, SameTokens;
    HeaderReads(|v.items|);
    OneToken(ArrayHeader(|v.items|).value, TArray(|v.items|));
    SameRead(elem, v.items);
    ReadsThen(ArrayHeader(|v.items|).value, PackSame(elem, v.items).value);
  }

  lemma {:induction false} SameRead(t: Type, vs: seq<Value>)
    requires WellFormed(t) && SameTyped(t, vs) && PackSame(t, vs).Some?
    ensures ReadAll(PackSame(t, vs).value) == Some(SameTokens(t, vs))
    decreases vs, 0
  {
    hide Pack, Tokens, HasType, WellFormed, ReadToken;
    if vs != [] {
      PackedReads(t, vs[0]);
      SameRead(t, vs[1..]);
      ReadsThen(Pack(t, vs[0]).value, PackSame(t, vs[1..]).value);
    }
  }

  lemma {:induction false} ItemsRead(ts: seq<Type>, vs: seq<Value>)
    requires AllWellFormed(ts) && ItemsTyped(ts, vs) && PackItems(ts, vs).Some?
    ensures ReadAll(PackItems(ts, vs).value) == Some(ItemTokens(ts, vs))
    decreases vs, 0
  {
    hide Pack, Tokens, HasType, WellFormed, ReadToken;
    if vs != [] {
      PackedReads(ts[0], vs[0]);
      ItemsRead(ts[1..], vs[1..]);
      ReadsThen(Pack(ts[0], vs[0]).value, PackItems(ts[1..], vs[1..]).value);
    }
  }

  lemma {:induction false} MapReads(kt: Type, vt: Type, v: Value)
    requires WellFormed(kt) && WellFormed(vt) && HasType(Map(kt, vt), v) && Pack(Map(kt, vt), v).Some?
    ensures ReadAll(Pack(Map(kt, vt), v).value) == Some(Tokens(Map(kt, vt), v))
    decreases v, 0
  {
    hide ReadToken, ReadAll, MapHeader, PackEntries, EntryTokens;
    HeaderReads(|v.entries|);
    OneToken(MapHeader(|v.entries|).value, TMap(|v.entries|));
    EntriesRead(kt, vt, v.entries);
    ReadsThen(MapHeader(|v.entries|).value, PackEntries(kt, vt, v.entries).value);
  }

  lemma {:induction false} PairReads(kt: Type, vt: Type, e: Entry)
    requires WellFormed(kt) && WellFormed(vt) && EntryTyped(kt, vt, e) && PackEntry(kt, vt, e).Some?
    ensures ReadAll(PackEntry(kt, vt, e).value) == Some(PairTokens(kt, vt, e))
    decreases e, 0
  {
    hide Pack, Tokens, HasType, WellFormed, ReadToken, ReadAll;
    PackedReads(kt, e.key);
    PackedReads(vt, e.value);
    ReadsThen(Pack(kt, e.key).value, Pack(vt, e.value).value);
  }

  lemma {:induction false} EntriesRead(kt: Type, vt: Type, entries: seq<Entry>)
    requires WellFormed(kt) && WellFormed(vt) && EntriesTyped(kt, vt, entries) && PackEntries(kt, vt, entries).Some?
    ensures ReadAll(PackEntries(kt, vt, entries).value) == Some(EntryTokens(kt, vt, entries))
    decreases entries, 0
  {
    hide PackEntry, PairTokens, EntryTyped, WellFormed, ReadToken;
    if entries != [] {
      PairReads(kt, vt, entries[0]);
      EntriesRead(kt, vt, entries[1..]);
      ReadsThen(PackEntry(kt, vt, entries[0]).value, PackEntries(kt, vt, entries[1..]).value);
    }
  }

  lemma {:induction false} VariantReads(ts: seq<Type>, v: Value)
    requires |ts| <= 128 && AllWellFormed(ts) && HasType(Variant(ts), v) && Pack(Variant(ts), v).Some?
    ensures ReadAll(Pack(Variant(ts), v).value) == Some(Tokens(Variant(ts), v))
    decreases v, 0
  {
    hide ReadAll, Extension, ExtHeader, ReadToken;
    MsgPackTheorems.AlternativeWellFormed(ts, v.index);
    PackedReads(ts[v.index], v.content);
    var data := Pack(ts[v.index], v.content).value;
    ExtensionReads(v.index, data);
    var s := ExtHeader(|data|).value + ([v.index as byte] + data);
    ExtensionToken(s, v.index, data);
    OneToken(s, TExt(v.index, ReadAll(data)));
  }

  lemma ExtensionToken(s: seq<byte>, kind: int, data: seq<byte>)
    requires Extension(s) == Some(Read((kind, data), |s|)) && s != [] && (0xc7 <= s[0] <= 0xc9 || 0xd4 <= s[0] <= 0xd8)
    ensures |data| < |s| && ReadToken(s) == Some(Read(TExt(kind, ReadAll(data)), |s|))
  {
    hide ReadAll, Extension;
  }
}
