/**
 The unpacker against the format: what it makes of every octet string that holds what it looks for; and
 the timestamp extension.
 */
module MsgPackReaders {
  import opened Bytes
  import opened Messages
  import opened Words
  import opened MsgPackSpec
  import opened MsgPackFormat
  import opened MsgPackWire
  import Timestamp

  // ---------- what is unpacked ----------

  lemma WordFollows(s: seq<byte>, w: nat)
    requires w in {1, 2, 4, 8}
    ensures Word(s, w) == var n := Number(s, 1, w); if n.None? then None else Some(Got(n.value, w + 1))
  {
    if |s| >= w + 1 { NumberIs(s, 1, w); }
    hide FromBigEndian, Pow256;
  }

  lemma SignedFollows(s: seq<byte>, w: nat, n: nat)
    requires w in {1, 2, 4, 8} && Number(s, 1, w) == Some(n)
    ensures SignedNumber(s, 1, w) == Some(Signed(n, w))
  {
    Pow256Values();
    hide Number, Pow256;
  }

  ghost predicate Agrees(r: Option<Got<Value>>, v: Value, read: Option<Read<Token>>, t: Token) {
    forall used: nat :: r == Some(Got(v, used)) <==> read == Some(Read(t, used))
  }

  lemma WordsFollow(s: seq<byte>)
    ensures forall w :: w in {1, 2, 4, 8} ==> Word(s, w) == var n := Number(s, 1, w); if n.None? then None else Some(Got(n.value, w + 1))
  {
    WordFollows(s, 1);
    WordFollows(s, 2);
    WordFollows(s, 4);
    WordFollows(s, 8);
  }

  // Constants, floating-point values and binaries: exactly what the octets hold.
  lemma ConstantsUnpack(s: seq<byte>, b: bool)
    ensures Agrees(Unpack(Bool, s), VBool(b), ReadToken(s), TBool(b)) && Agrees(Unpack(Nil, s), VNil, ReadToken(s), TNil)
  {
    hide Number, ReadAll, Extension, NumberWidth;
  }

  lemma FloatsUnpack(s: seq<byte>, bits: nat)
    ensures Agrees(Unpack(Float32, s), VFloat(bits), ReadToken(s), TFloat(4, bits))
    ensures Agrees(Unpack(Float64, s), VFloat(bits), ReadToken(s), TFloat(8, bits))
  {
    WordsFollow(s);
    hide Word, Number, ReadAll, Extension;
  }

  lemma BinariesUnpack(s: seq<byte>, octets: seq<byte>)
    ensures Agrees(Unpack(Bin, s), VOctets(octets), ReadToken(s), TBin(octets))
  {
    WordsFollow(s);
    BinSizeIs(s);
    if s != [] && 0xc4 <= s[0] <= 0xc6 { SizedIs(s, BinSize(s), s[0]); } else { NoBinary(s, octets); }
    hide ReadToken, BinSize, Sized, Number;
  }

  lemma BinSizeIs(s: seq<byte>)
    ensures BinSize(s) == if s != [] && 0xc4 <= s[0] <= 0xc6 then Word(s, NumberWidth(s[0])) else None
  {}

  lemma NoBinary(s: seq<byte>, octets: seq<byte>)
    requires s == [] || !(0xc4 <= s[0] <= 0xc6)
    ensures forall used: nat :: ReadToken(s) != Some(Read(TBin(octets), used))
  {
    hide Number, ReadAll, Extension, NumberWidth;
  }

  // A size behind its octet, and what it announces.
  lemma SizedIs(s: seq<byte>, size: Option<Got<nat>>, c: byte)
    requires s != [] && c == s[0] && (0xc4 <= c <= 0xc6 || 0xd9 <= c <= 0xdb) && size == Word(s, NumberWidth(c))
    requires Word(s, NumberWidth(c)) == var n := Number(s, 1, NumberWidth(c)); if n.None? then None else Some(Got(n.value, NumberWidth(c) + 1))
    ensures var r := Sized(size, s);
      ReadToken(s) == if r.None? then None
                      else Some(Read(if c <= 0xc6 then TBin(r.value.v.octets) else TStr(r.value.v.octets), r.value.used))
    ensures Sized(size, s).Some? ==> Sized(size, s).value.v.VOctets?
  {
    hide Word, Number, ReadAll, Extension, NumberWidth, NumberToken;
  }

  lemma ShortStringIs(s: seq<byte>)
    requires s != [] && 0xa0 <= s[0] <= 0xbf
    ensures var r := Sized(StrSize(s), s);
      ReadToken(s) == if r.None? then None else Some(Read(TStr(r.value.v.octets), r.value.used))
    ensures Sized(StrSize(s), s).Some? ==> Sized(StrSize(s), s).value.v.VOctets?
  {
    NoNumber(s[0]);
    hide Word, Number, ReadAll, Extension, NumberWidth, NumberToken;
  }

  lemma LongStringIs(s: seq<byte>)
    requires s != [] && 0xd9 <= s[0] <= 0xdb
    ensures StrSize(s) == Word(s, NumberWidth(s[0])) && NumberWidth(s[0]) in {1, 2, 4}
  {}

  lemma StringIs(s: seq<byte>)
    ensures Unpack(Str, s) == Sized(StrSize(s), s)
  {}

  lemma {:induction false} StringsUnpack(s: seq<byte>, octets: seq<byte>)
    requires s != [] && (0xa0 <= s[0] <= 0xbf || 0xd9 <= s[0] <= 0xdb)
    ensures Agrees(Unpack(Str, s), VOctets(octets), ReadToken(s), TStr(octets))
  {
    hide ReadToken, StrSize, Sized, Number, Word, NumberWidth, Unpack;
    StringIs(s);
    if s[0] <= 0xbf {
      ShortStringIs(s);
    } else {
      LongStringIs(s);
      WordFollows(s, NumberWidth(s[0]));
      SizedIs(s, StrSize(s), s[0]);
    }
  }

  function Rank(w: Width): nat {
    match w case W8 => 0 case W16 => 1 case W32 => 2 case W64 => 3
  }

  // Integers of a form that the type lists: what the octets hold, but for negative ones in one octet, which
  // the wider types read 256 larger.
  lemma UnsignedUnpack(w: Width, s: seq<byte>, n: int)
    requires s != [] && (s[0] < 0x80 || 0xcc <= s[0] <= 0xcc + Rank(w))
    ensures Agrees(Unpack(UInt(w), s), VInt(n), ReadToken(s), TInt(n))
  {
    WordsFollow(s);
    hide Word, Number, ReadAll, Extension;
  }

  lemma SignedUnpack(w: Width, s: seq<byte>, n: int)
    requires s != [] && (s[0] < 0x80 || 0xd0 <= s[0] <= 0xd0 + Rank(w) || s[0] >= 0xe0)
    ensures var lost := s[0] >= 0xe0 && (w == W32 || w == W64);
      Agrees(Unpack(SInt(w), s), VInt(if lost then n + 256 else n), ReadToken(s), TInt(n))
  {
    WordsFollow(s);
    Pow256Values();
    hide Word, ReadAll, Extension, Pow256;
    if 0xd0 <= s[0] <= 0xd3 {
      var width := NumberWidth(s[0]);
      if Number(s, 1, width).Some? { SignedFollows(s, width, Number(s, 1, width).value); }
    }
    hide Number;
  }

  lemma SizesUnpack(s: seq<byte>, n: nat, used: nat)
    ensures s != [] && (0x90 <= s[0] <= 0x9f || 0xdc <= s[0] <= 0xdd) ==>
      (ArraySize(s) == Some(Got(n, used)) <==> ReadToken(s) == Some(Read(TArray(n), used)))
    ensures s != [] && (0x80 <= s[0] <= 0x8f || 0xde <= s[0] <= 0xdf) ==>
      (MapSize(s) == Some(Got(n, used)) <==> ReadToken(s) == Some(Read(TMap(n), used)))
  {
    WordsFollow(s);
    hide Word, Number, ReadAll, Extension;
  }

  // An extension unpacks to the alternative its kind names, with what its data unpacks to; other kinds do not.
  lemma VariantsUnpack(ts: seq<Type>, s: seq<byte>, kind: int, data: seq<byte>, used: nat)
    requires |ts| <= 128 && Extension(s) == Some(Read((kind, data), used))
    ensures 0 <= kind < |ts| ==>
      Unpack(Variant(ts), s) == var r := Unpack(ts[kind], data); if r.None? then None else Some(Got(VVariant(kind, r.value.v), used))
    ensures !(0 <= kind < |ts|) ==> Unpack(Variant(ts), s).None?
  {
    ExtensionParts(s, kind, data, used);
    var size := Got(|data|, used - 1 - |data|);
    assert Unpack(Variant(ts), s) == UnpackAlternative(ts, s, size) by { hide ExtSize, UnpackAlternative, Extension; }
    hide Unpack, ExtSize, Extension;
    assert ts != [] ==> Signed((|ts| - 1) % 256, 1) == |ts| - 1 by { Pow256Values(); }
    if ts == [] { Pow256Values(); }
  }

  lemma ExtensionParts(s: seq<byte>, kind: int, data: seq<byte>, used: nat)
    requires Extension(s) == Some(Read((kind, data), used))
    ensures |data| + 2 <= used <= |s| && ExtSize(s) == Some(Got(|data|, used - 1 - |data|))
    ensures var at := used - 1 - |data|;
      kind == (if s[at] < 128 then s[at] as int else s[at] as int - 256) && s[at + 1..at + 1 + |data|] == data
  {
    WordsFollow(s);
    hide Word;
  }

  // ---------- timestamps ----------

  // The two shorter forms, and the long one.
  predicate TimeForm(s: seq<byte>) {
    s != [] && (s[0] in {0xd6, 0xd7} || (s[0] == 0xc7 && |s| > 1 && s[1] == 12))
  }

  lemma ShortTime(s: seq<byte>, w: nat)
    requires (w == 4 || w == 8) && |s| >= 2 + w && s[0] == (if w == 4 then 0xd6 else 0xd7) && s[1] == 0xff
    ensures Extension(s) == Some(Read((-1, s[2..2 + w]), 2 + w)) && Number(s[2..2 + w], 0, w) == Some(FromBigEndian(s[2..2 + w]))
  {
    var data := s[2..2 + w];
    NumberIs(data, 0, w);
    assert data[0..w] == data;
    NoNumber(s[0]);
    hide FromBigEndian, NumberWidth;
  }

  lemma LongTime(s: seq<byte>)
    requires |s| >= 15 && s[0] == 0xc7 && s[1] == 12 && s[2] == 0xff
    ensures Extension(s) == Some(Read((-1, s[3..15]), 15))
    ensures var data := s[3..15];
      Number(data, 0, 4) == Some(FromBigEndian(s[3..7])) && SignedNumber(data, 4, 8) == Some(Signed(FromBigEndian(s[7..15]), 8))
  {
    var data := s[3..15];
    NumberIs(data, 0, 4);
    NumberIs(data, 4, 8);
    assert data[0..4] == s[3..7] && data[4..12] == s[7..15];
    Pow256Values();
    hide FromBigEndian, Pow256;
  }

  // The instant of so many seconds and nanoseconds, if the clock has it.
  function Held(time: (int, nat), used: nat): Timestamp.Outcome {
    var (seconds, nanos) := time;
    if FitsSigned(seconds * 1_000_000_000, 8) && FitsSigned(seconds * 1_000_000_000 + nanos, 8)
    then Timestamp.Instant(seconds * 1_000_000_000 + nanos, used) else Timestamp.Undefined
  }

  // Every timestamp extension in one of the three forms is unpacked as the instant it holds, if the clock has
  // it; other extensions in those forms are refused.
  lemma TimesUnpack(s: seq<byte>, kind: int, data: seq<byte>, used: nat)
    requires TimeForm(s) && Extension(s) == Some(Read((kind, data), used))
    ensures kind != -1 ==> Timestamp.Decode(s) == Timestamp.Thrown
    ensures kind == -1 ==> TimeOf(kind, data).Some?
    ensures kind == -1 ==> Timestamp.Decode(s) == Held(TimeOf(kind, data).value, used)
  {
    ExtensionParts(s, kind, data, used);
    TimeSizes(s, kind, data, used);
    hide Extension, FromBigEndian, Number, SignedNumber, FitsSigned;
    if kind == -1 {
      if s[0] == 0xd6 { ShortTime(s, 4); } else if s[0] == 0xd7 { ShortTime(s, 8); } else { LongTime(s); }
    }
  }

  lemma TimeSizes(s: seq<byte>, kind: int, data: seq<byte>, used: nat)
    requires TimeForm(s) && Extension(s) == Some(Read((kind, data), used))
    ensures |data| == (if s[0] == 0xd6 then 4 else if s[0] == 0xd7 then 8 else 12)
    ensures |s| >= used == |data| + (if s[0] == 0xc7 then 3 else 2)
  {}

  // What is packed for an instant holds it, whoever reads it, in the shortest form that has room for it, except
  // that whole seconds past 32 bits lose their upper bits.
  lemma TimesAreHeld(count: int) returns (data: seq<byte>, seconds: int, nanos: nat)
    requires FitsSigned(count, 8)
    ensures Extension(Timestamp.Encode(count)) == Some(Read((-1, data), |Timestamp.Encode(count)|))
    ensures TimeOf(-1, data) == Some((seconds, nanos)) && nanos < 1_000_000_000
    ensures var lost := count % 1_000_000_000 == 0 && 0x1_0000_0000 * 1_000_000_000 <= count < 0x4_0000_0000 * 1_000_000_000;
      seconds * 1_000_000_000 + nanos == count <==> !lost
    ensures |data| == if !(0 <= count < 0x4_0000_0000 * 1_000_000_000) then 12 else if count % 1_000_000_000 == 0 then 4 else 8
  {
    hide *;
    Timestamp.Bounds(count);
    TimeParts(count);
    seconds, nanos := Timestamp.Seconds(count), Timestamp.Nanos(count);
    if !(0 <= seconds < 0x4_0000_0000) {
      data := LongTimeHeld(nanos, seconds);
      TimeOfLong(data, nanos, seconds);
    } else if nanos == 0 {
      seconds := seconds % 0x1_0000_0000;
      data := BigEndian(seconds, 4);
      ShortTimeHeld(0xd6, seconds, 4);
      TimeOfShort(data, seconds);
    } else {
      data := BigEndian(nanos * 0x4_0000_0000 + seconds, 8);
      ShortTimeHeld(0xd7, nanos * 0x4_0000_0000 + seconds, 8);
      TimeOfMiddle(data, nanos, seconds);
    }
  }

  lemma TimeParts(count: int)
    requires FitsSigned(count, 8)
    ensures var seconds, nanos, s := Timestamp.Seconds(count), Timestamp.Nanos(count), Timestamp.Encode(count);
      && count == seconds * 1_000_000_000 + nanos && nanos == count % 1_000_000_000 && nanos < 1_000_000_000
      && (0 <= count < 0x4_0000_0000 * 1_000_000_000 <==> 0 <= seconds < 0x4_0000_0000) && FitsSigned(seconds, 8)
      && Pow256(4) == 0x1_0000_0000 && Pow256(8) == 0x1_0000_0000_0000_0000
      && (!(0 <= seconds < 0x4_0000_0000) ==>
            0 <= Unsigned(seconds, 8) && s == [0xc7, 12, 0xff] + BigEndian(nanos, 4) + BigEndian(Unsigned(seconds, 8), 8))
      && (0 <= seconds < 0x4_0000_0000 && nanos == 0 ==> s == [0xd6, 0xff] + BigEndian(seconds % 0x1_0000_0000, 4))
      && (0 <= seconds < 0x4_0000_0000 && nanos != 0 ==> s == [0xd7, 0xff] + BigEndian(nanos * 0x4_0000_0000 + seconds, 8))
  {
    Timestamp.Bounds(count);
    Pow256Values();
    hide BigEndian, Pow256;
  }

  lemma TimeOfLong(data: seq<byte>, nanos: nat, seconds: int)
    requires |data| == 12 && Number(data, 0, 4) == Some(nanos) && SignedNumber(data, 4, 8) == Some(seconds)
    ensures TimeOf(-1, data) == Some((seconds, nanos))
  {
    hide Number, SignedNumber;
  }

  lemma TimeOfShort(data: seq<byte>, seconds: nat)
    requires |data| == 4 && Number(data, 0, 4) == Some(seconds)
    ensures TimeOf(-1, data) == Some((seconds, 0))
  {
    hide Number;
  }

  lemma TimeOfMiddle(data: seq<byte>, nanos: nat, seconds: nat)
    requires |data| == 8 && Number(data, 0, 8) == Some(nanos * 0x4_0000_0000 + seconds) && seconds < 0x4_0000_0000
    ensures TimeOf(-1, data) == Some((seconds, nanos))
  {
    hide Number;
  }

  lemma {:induction false} ShortTimeHeld(format: byte, n: nat, w: nat)
    requires (format, w) in {(0xd6, 4), (0xd7, 8)} && n < Pow256(w)
    ensures var s := [format, 0xff] + BigEndian(n, w);
      Extension(s) == Some(Read((-1, BigEndian(n, w)), |s|)) && Number(BigEndian(n, w), 0, w) == Some(n)
  {
    var s := [format, 0xff] + BigEndian(n, w);
    ShortTime(s, w);
    assert s[2..2 + w] == BigEndian(n, w);
    WordRoundTrip(n, w);
  }

  lemma LongTimeHeld(nanos: nat, seconds: int) returns (data: seq<byte>)
    requires nanos < 1_000_000_000 && FitsSigned(seconds, 8)
    ensures 0 <= Unsigned(seconds, 8) && |data| == 12
    ensures var s := [0xc7, 12, 0xff] + BigEndian(nanos, 4) + BigEndian(Unsigned(seconds, 8), 8);
      Extension(s) == Some(Read((-1, data), |s|)) && Number(data, 0, 4) == Some(nanos) && SignedNumber(data, 4, 8) == Some(seconds)
  {
    Pow256Values();
    hide BigEndian, Pow256, Extension, Number, SignedNumber;
    var a, b := BigEndian(nanos, 4), BigEndian(Unsigned(seconds, 8), 8);
    var s := [0xc7, 12, 0xff] + a + b;
    LongTime(s);
    data := s[3..15];
    assert data[0..4] == a && data[4..12] == b;
    WordHolds(data, 0, 4, nanos);
    SignedWordHolds(data, 4, 8, seconds);
  }

  // ---------- octets that no form of the type begins with ----------

  // They are not refused: an integer takes them as its value, a string and a container as their short form.
  lemma OtherOctets(s: seq<byte>)
    requires s != []
    ensures forall w: Width :: s[0] >= 0x80 && !(0xcc <= s[0] <= 0xcc + Rank(w)) ==> Unpack(UInt(w), s) == Some(Got(VInt(s[0]), 1))
    ensures forall w: Width :: !(0xd0 <= s[0] <= 0xd0 + Rank(w)) ==>
      Unpack(SInt(w), s) == Some(Got(VInt(if s[0] >= 0x80 && Rank(w) < 2 then s[0] as int - 0x100 else s[0]), 1))
    ensures !(0xd9 <= s[0] <= 0xdb) ==> StrSize(s) == Some(Got(s[0] % 32, 1))
    ensures !(0xdc <= s[0] <= 0xdd) ==> ArraySize(s) == Some(Got(s[0] % 16, 1))
    ensures !(0xde <= s[0] <= 0xdf) ==> MapSize(s) == Some(Got(s[0] % 16, 1))
  {
    Pow256Values();
    hide Word, Pow256;
  }

  // ---------- entries with one key ----------

  // An entry is put over the one with its key, which stays where it is, or behind all.
  lemma {:induction false} InsertedAssigns(entries: seq<Entry>, e: Entry) returns (k: nat)
    ensures k <= |entries| && forall j :: 0 <= j < k ==> entries[j].key != e.key
    ensures k < |entries| ==> entries[k].key == e.key && Inserted(entries, e) == entries[k := e]
    ensures k == |entries| ==> Inserted(entries, e) == entries + [e]
  {
    if entries == [] || entries[0].key == e.key {
      k := 0;
    } else {
      var later := InsertedAssigns(entries[1..], e);
      k := later + 1;
    }
  }
}
