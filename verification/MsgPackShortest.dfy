/**
 How long the packed forms are against the shortest ones the format has for the same thing.
 */
module MsgPackShortest {
  import opened Bytes
  import opened Messages
  import opened Words
  import opened MsgPackSpec
  import opened MsgPackFormat
  import opened MsgPackWire
  import MsgPackTheorems

  predicate Holds(s: seq<byte>, t: Token) {
    ReadToken(s) == Some(Read(t, |s|))
  }

  lemma NumberBound(s: seq<byte>, i: nat, w: nat)
    ensures var n := Number(s, i, w);
      && (n.Some? ==> w in {1, 2, 4, 8})
      && (n.Some? && w == 1 ==> n.value < 0x100) && (n.Some? && w == 2 ==> n.value < 0x1_0000)
      && (n.Some? && w == 4 ==> n.value < 0x1_0000_0000) && (n.Some? && w == 8 ==> n.value < 0x1_0000_0000_0000_0000)
  {}

  // ---------- strings and binaries ----------

  // The least a text of `n` octets takes, and a size on its own.
  function LeastText(n: nat, short: nat): nat {
    if n < short then 1 + n else if n < 0x100 then 2 + n else if n < 0x1_0000 then 3 + n else 5 + n
  }

  lemma TextTakes(s: seq<byte>, octets: seq<byte>)
    ensures Holds(s, TStr(octets)) ==> |s| >= LeastText(|octets|, 32) && |octets| < 0x1_0000_0000
    ensures Holds(s, TBin(octets)) ==> |s| >= LeastText(|octets|, 0) && |octets| < 0x1_0000_0000
  {
    if s != [] {
      NumberBound(s, 1, NumberWidth(s[0]));
      hide Number, ReadAll, Extension, NumberToken;
    }
  }

  // A string, and a binary, is packed in the shortest form but for those of 0xff and of 0xffff octets; it is
  // refused from 0xffffffff octets on.
  lemma TextsShortest(octets: seq<byte>)
    ensures var v, n := VOctets(octets), |octets|;
      && (Pack(Str, v).Some? <==> n < 0xffff_ffff) && (Pack(Bin, v).Some? <==> n < 0xffff_ffff)
      && (n < 0xffff_ffff ==>
            && |Pack(Str, v).value| >= LeastText(n, 32) && (|Pack(Str, v).value| > LeastText(n, 32) <==> n in {0xff, 0xffff})
            && |Pack(Bin, v).value| >= LeastText(n, 0) && (|Pack(Bin, v).value| > LeastText(n, 0) <==> n in {0xff, 0xffff}))
  {
    hide BigEndian;
  }

  // Shorter forms there are exactly in those cases.
  lemma {:induction false} ShorterTexts(octets: seq<byte>)
    requires |octets| < 0xffff_ffff
    ensures var packed := Pack(Str, VOctets(octets)).value;
      (exists s :: Holds(s, TStr(octets)) && |s| < |packed|) <==> |octets| in {0xff, 0xffff}
    ensures var packed := Pack(Bin, VOctets(octets)).value;
      (exists s :: Holds(s, TBin(octets)) && |s| < |packed|) <==> |octets| in {0xff, 0xffff}
  {
    hide *;
    TextsShortest(octets);
    forall s ensures Holds(s, TStr(octets)) ==> |s| >= LeastText(|octets|, 32) { TextTakes(s, octets); }
    forall s ensures Holds(s, TBin(octets)) ==> |s| >= LeastText(|octets|, 0) { TextTakes(s, octets); }
    if |octets| == 0xff { ShorterText(octets, 0xd9, 0xc4, 1); }
    if |octets| == 0xffff { ShorterText(octets, 0xda, 0xc5, 2); }
  }

  lemma {:induction false} ShorterText(octets: seq<byte>, str: byte, bin: byte, w: nat)
    requires (str, bin, w, |octets|) in {(0xd9, 0xc4, 1, 0xff), (0xda, 0xc5, 2, 0xffff)}
    ensures exists s :: Holds(s, TStr(octets)) && |s| == LeastText(|octets|, 32)
    ensures exists s :: Holds(s, TBin(octets)) && |s| == LeastText(|octets|, 0)
  {
    Pow256Values();
    hide ReadToken, BigEndian;
    SizedToken(str, |octets|, w, octets);
    SizedToken(bin, |octets|, w, octets);
    assert Holds(Combined(str, |octets|, w) + octets, TStr(octets));
    assert Holds(Combined(bin, |octets|, w) + octets, TBin(octets));
  }

  // ---------- containers ----------

  function LeastCount(n: nat): nat {
    if n < 16 then 1 else if n < 0x1_0000 then 3 else 5
  }

  lemma CountTakes(s: seq<byte>, n: nat)
    ensures Holds(s, TArray(n)) || Holds(s, TMap(n)) ==> |s| >= LeastCount(n) && n < 0x1_0000_0000
  {
    if s != [] {
      NumberBound(s, 1, NumberWidth(s[0]));
      hide Number, ReadAll, Extension, NumberToken;
    }
  }

  // The header of an array, and of a map, is the shortest but for 0xffff items, and refused from 0xffffffff on.
  lemma {:induction false} CountsShortest(n: nat)
    ensures (ArrayHeader(n).Some? <==> n < 0xffff_ffff) && (MapHeader(n).Some? <==> n < 0xffff_ffff)
    ensures n < 0xffff_ffff ==>
      && ((exists s :: Holds(s, TArray(n)) && |s| < |ArrayHeader(n).value|) <==> n == 0xffff)
      && ((exists s :: Holds(s, TMap(n)) && |s| < |MapHeader(n).value|) <==> n == 0xffff)
  {
    forall s ensures Holds(s, TArray(n)) || Holds(s, TMap(n)) ==> |s| >= LeastCount(n) { CountTakes(s, n); }
    Pow256Values();
    hide ReadToken, BigEndian, Pow256;
    if n == 0xffff {
      WordToken(0xdc, n, 2);
      WordToken(0xde, n, 2);
      MsgPackTheorems.CombinedLength(n);
      assert Holds(Combined(0xdc, n, 2), TArray(n)) && Holds(Combined(0xde, n, 2), TMap(n));
    }
  }

  // ---------- extensions ----------

  function LeastExtension(n: nat): nat {
    if n in {1, 2, 4, 8, 16} then 2 + n else if n < 0x100 then 3 + n else if n < 0x1_0000 then 4 + n else 6 + n
  }

  lemma ExtensionTakes(s: seq<byte>, kind: int, data: seq<byte>)
    requires Extension(s) == Some(Read((kind, data), |s|))
    ensures |s| >= LeastExtension(|data|)
  {
    NumberBound(s, 1, NumberWidth(s[0]));
    hide Number, SignedNumber;
  }

  // A variant is packed in the shortest extension for its content but for 0xff and 0xffff octets of it.
  lemma VariantsShortest(index: nat, data: seq<byte>)
    requires index < 128 && |data| < 0xffff_ffff
    ensures ExtHeader(|data|).Some?
    ensures var packed := ExtHeader(|data|).value + ([index as byte] + data);
      && Extension(packed) == Some(Read((index, data), |packed|))
      && ((exists s :: Extension(s) == Some(Read((index, data), |s|)) && |s| < |packed|) <==> |data| in {0xff, 0xffff})
  {
    hide *;
    var n := |data|;
    ExtensionSize(index, data);
    ExtensionReads(index, data);
    forall s | Extension(s) == Some(Read((index, data), |s|)) ensures |s| >= LeastExtension(n) { ExtensionTakes(s, index, data); }
    if n in {0xff, 0xffff} { ShorterExtension(index, data); }
  }

  lemma ExtensionSize(index: nat, data: seq<byte>)
    requires index < 128 && |data| < 0xffff_ffff
    ensures ExtHeader(|data|).Some?
    ensures var packed := ExtHeader(|data|).value + ([index as byte] + data);
      |packed| >= LeastExtension(|data|) && (|packed| > LeastExtension(|data|) <==> |data| in {0xff, 0xffff})
  {
    hide BigEndian;
  }

  lemma ShorterExtension(index: nat, data: seq<byte>)
    requires index < 128 && |data| in {0xff, 0xffff}
    ensures exists s :: Extension(s) == Some(Read((index, data), |s|)) && |s| == LeastExtension(|data|)
  {
    Pow256Values();
    hide Extension, BigEndian, Pow256;
    var w := if |data| == 0xff then 1 else 2;
    SizedExt(if w == 1 then 0xc7 else 0xc8, w, index, data);
  }

  // ---------- integers ----------

  predicate UnsignedForm(s: seq<byte>) {
    s != [] && 0xcc <= s[0] <= 0xcf
  }

  function LeastSigned(n: int): nat {
    if -0x20 <= n < 0x80 then 1 else if -0x80 <= n < 0x80 then 2 else if -0x8000 <= n < 0x8000 then 3
    else if -0x8000_0000 <= n < 0x8000_0000 then 5 else 9
  }

  function LeastUnsigned(n: nat): nat {
    if n < 0x80 then 1 else if n < 0x100 then 2 else if n < 0x1_0000 then 3 else if n < 0x1_0000_0000 then 5 else 9
  }

  lemma IntegerTakes(s: seq<byte>, n: int)
    requires Holds(s, TInt(n))
    ensures !UnsignedForm(s) ==> |s| >= LeastSigned(n)
    ensures n >= 0 ==> |s| >= LeastUnsigned(n)
  {
    NumberBound(s, 1, NumberWidth(s[0]));
    hide Number, ReadAll, Extension;
  }

  // An unsigned integer is packed in the shortest form there is.
  lemma UnsignedShortest(w: Width, v: nat)
    requires v < Pow256(Octets(w))
    ensures |PackUnsigned(w, v)| == LeastUnsigned(v)
    ensures forall s :: Holds(s, TInt(v)) ==> |s| >= |PackUnsigned(w, v)|
    decreases Octets(w)
  {
    Pow256Values();
    forall s | Holds(s, TInt(v)) ensures |s| >= LeastUnsigned(v) { IntegerTakes(s, v); }
    hide Holds, BigEndian, Pow256;
    match w
    case W8 =>
    case W16 => if v <= 0xff { UnsignedShortest(W8, v); }
    case W32 => if v <= 0xffff { UnsignedShortest(W16, v); }
    case W64 => if v <= 0xffff_ffff { UnsignedShortest(W32, v); }
  }

  // The signed integers packed in more octets than need be: from 32 to 127, and the ends of the ranges of the
  // narrower widths.
  predicate TooLong(w: Width, v: int) {
    || 32 <= v <= 127
    || (w != W8 && v == -0x80)
    || ((w == W32 || w == W64) && (v == -0x8000 || v == 0x7fff))
    || (w == W64 && (v == -0x8000_0000 || v == 0x7fff_ffff))
  }

  lemma SignedLength(w: Width, v: int)
    requires FitsSigned(v, Octets(w))
    ensures |PackSigned(w, v)| >= LeastSigned(v) && (|PackSigned(w, v)| > LeastSigned(v) <==> TooLong(w, v))
    decreases Octets(w)
  {
    Pow256Values();
    hide BigEndian, Pow256;
    match w
    case W8 =>
    case W16 => if -128 < v < 127 { SignedLength(W8, v); }
    case W32 => if -0x8000 < v < 0x7fff { SignedLength(W16, v); }
    case W64 => if -0x8000_0000 < v < 0x7fff_ffff { SignedLength(W32, v); }
  }

  // A signed integer is packed in the shortest signed form exactly unless it is one of those.
  lemma {:induction false} SignedShortest(w: Width, v: int)
    requires FitsSigned(v, Octets(w))
    ensures !UnsignedForm(PackSigned(w, v))
    ensures (exists s :: Holds(s, TInt(v)) && !UnsignedForm(s) && |s| < |PackSigned(w, v)|) <==> TooLong(w, v)
  {
    SignedLength(w, v);
    forall s | Holds(s, TInt(v)) && !UnsignedForm(s) ensures |s| >= LeastSigned(v) { IntegerTakes(s, v); }
    if TooLong(w, v) { ShorterSigned(w, v); }
    SignedForms(w, v);
    hide Holds, PackSigned;
  }

  lemma SignedForms(w: Width, v: int)
    requires FitsSigned(v, Octets(w))
    ensures !UnsignedForm(PackSigned(w, v))
    decreases Octets(w)
  {
    Pow256Values();
    match w
    case W8 => OneOctet(Unsigned(v, 1)); hide BigEndian;
    case W16 => if -128 < v < 127 { SignedForms(W8, v); }
    case W32 => if -0x8000 < v < 0x7fff { SignedForms(W16, v); }
    case W64 => if -0x8000_0000 < v < 0x7fff_ffff { SignedForms(W32, v); }
  }

  lemma ShorterSigned(w: Width, v: int)
    requires FitsSigned(v, Octets(w)) && TooLong(w, v)
    ensures exists s :: Holds(s, TInt(v)) && !UnsignedForm(s) && |s| == LeastSigned(v)
  {
    Pow256Values();
    hide ReadToken, BigEndian, Pow256;
    if 32 <= v <= 127 {
      FixInt(v);
      assert Holds([v as byte], TInt(v));
    } else if v == -0x80 {
      SignedToken(0xd0, v, 1);
      assert Holds(Combined(0xd0, Unsigned(v, 1), 1), TInt(v));
    } else if v == -0x8000 || v == 0x7fff {
      SignedToken(0xd1, v, 2);
      assert Holds(Combined(0xd1, Unsigned(v, 2), 2), TInt(v));
    } else {
      SignedToken(0xd2, v, 4);
      assert Holds(Combined(0xd2, Unsigned(v, 4), 4), TInt(v));
    }
  }
}
