/**
 The MessagePack serializer: what packing a value of a static type appends, and what unpacking that
 type reads from a run of octets.
 */
module MsgPackSpec {
  import opened Bytes
  import opened Messages
  import opened Words

  datatype Width = W8 | W16 | W32 | W64

  // The static types the overloads are chosen by. A pair, or an object that packs its members one
  // after another, is a tuple; an enumeration is its underlying integer; an array is any container
  // that grows at its end.
  datatype Type =
    | SInt(width: Width) | UInt(width: Width) | Bool | Nil | Float32 | Float64 | Str | Bin
    | Array(elem: Type) | Map(key: Type, value: Type) | Tuple(elems: seq<Type>) | Variant(alts: seq<Type>)

  // Floating-point values are carried as their bits; a map as its entries in the order of iteration.
  datatype Value =
    | VInt(n: int) | VBool(b: bool) | VNil | VFloat(bits: nat) | VOctets(octets: seq<byte>)
    | VArray(items: seq<Value>) | VMap(entries: seq<Entry>) | VVariant(index: nat, content: Value)

  datatype Entry = Entry(key: Value, value: Value)

  function Octets(w: Width): nat {
    match w case W8 => 1 case W16 => 2 case W32 => 4 case W64 => 8
  }

  predicate DistinctKeys(entries: seq<Entry>) {
    forall i, j :: 0 <= i < j < |entries| ==> entries[i].key != entries[j].key
  }

  predicate HasType(t: Type, v: Value)
    decreases v, 1
  {
    match t
    case SInt(w) => v.VInt? && FitsSigned(v.n, Octets(w))
    case UInt(w) => v.VInt? && 0 <= v.n < Pow256(Octets(w))
    case Bool => v.VBool?
    case Nil => v.VNil?
    case Float32 => v.VFloat? && v.bits < Pow256(4)
    case Float64 => v.VFloat? && v.bits < Pow256(8)
    case Str => v.VOctets?
    case Bin => v.VOctets?
    case Array(elem) => v.VArray? && SameTyped(elem, v.items)
    case Map(kt, vt) => v.VMap? && DistinctKeys(v.entries) && EntriesTyped(kt, vt, v.entries)
    case Tuple(ts) => v.VArray? && ItemsTyped(ts, v.items)
    case Variant(ts) => v.VVariant? && v.index < |ts| && HasType(ts[v.index], v.content)
  }

  predicate SameTyped(t: Type, vs: seq<Value>)
    decreases vs, 0
  {
    vs == [] || (HasType(t, vs[0]) && SameTyped(t, vs[1..]))
  }

  predicate ItemsTyped(ts: seq<Type>, vs: seq<Value>)
    ensures ItemsTyped(ts, vs) ==> |ts| == |vs|
    decreases vs, 0
  {
    |ts| == |vs| && (vs == [] || (HasType(ts[0], vs[0]) && ItemsTyped(ts[1..], vs[1..])))
  }

  predicate EntryTyped(kt: Type, vt: Type, e: Entry)
    decreases e, 0
  {
    HasType(kt, e.key) && HasType(vt, e.value)
  }

  predicate EntriesTyped(kt: Type, vt: Type, entries: seq<Entry>)
    decreases entries, 0
  {
    entries == [] || (EntryTyped(kt, vt, entries[0]) && EntriesTyped(kt, vt, entries[1..]))
  }

  // A variant has at most 128 alternatives.
  predicate WellFormed(t: Type)
    decreases t, 1
  {
    match t
    case Array(elem) => WellFormed(elem)
    case Map(kt, vt) => WellFormed(kt) && WellFormed(vt)
    case Tuple(ts) => AllWellFormed(ts)
    case Variant(ts) => |ts| <= 128 && AllWellFormed(ts)
    case _ => true
  }

  predicate AllWellFormed(ts: seq<Type>)
    decreases ts, 0
  {
    ts == [] || (WellFormed(ts[0]) && AllWellFormed(ts[1..]))
  }

  // ---------- packing ----------

  // One octet of format and a word.
  function Combined(format: byte, n: nat, w: nat): seq<byte> {
    [format] + BigEndian(n, w)
  }

  function PackSigned(w: Width, v: int): seq<byte>
    requires FitsSigned(v, Octets(w))
    decreases Octets(w)
  {
    Pow256Values();
    match w
    case W8 => (if v > 31 || v < -32 then [0xd0] else []) + BigEndian(Unsigned(v, 1), 1)
    case W16 => if -128 < v < 127 then PackSigned(W8, v) else Combined(0xd1, Unsigned(v, 2), 2)
    case W32 => if -0x8000 < v < 0x7fff then PackSigned(W16, v) else Combined(0xd2, Unsigned(v, 4), 4)
    case W64 => if -0x8000_0000 < v < 0x7fff_ffff then PackSigned(W32, v) else Combined(0xd3, Unsigned(v, 8), 8)
  }

  function PackUnsigned(w: Width, v: nat): seq<byte>
    requires v < Pow256(Octets(w))
    decreases Octets(w)
  {
    Pow256Values();
    match w
    case W8 => (if v < 0x80 then [] else [0xcc]) + BigEndian(v, 1)
    case W16 => if v > 0xff then Combined(0xcd, v, 2) else PackUnsigned(W8, v)
    case W32 => if v > 0xffff then Combined(0xce, v, 4) else PackUnsigned(W16, v)
    case W64 => if v > 0xffff_ffff then Combined(0xcf, v, 8) else PackUnsigned(W32, v)
  }

  // Size classes. The largest size of each class goes to the next one; the last one is refused.
  function StrHeader(n: nat): Option<seq<byte>> {
    if n < 32 then Some([0xa0 + n])
    else if n < 0xff then Some(Combined(0xd9, n, 1))
    else if n < 0xffff then Some(Combined(0xda, n, 2))
    else if n < 0xffff_ffff then Some(Combined(0xdb, n, 4))
    else None
  }

  function BinHeader(n: nat): Option<seq<byte>> {
    if n < 0xff then Some(Combined(0xc4, n, 1))
    else if n < 0xffff then Some(Combined(0xc5, n, 2))
    else if n < 0xffff_ffff then Some(Combined(0xc6, n, 4))
    else None
  }

  function ArrayHeader(n: nat): Option<seq<byte>> {
    if n < 16 then Some([0x90 + n])
    else if n < 0xffff then Some(Combined(0xdc, n, 2))
    else if n < 0xffff_ffff then Some(Combined(0xdd, n, 4))
    else None
  }

  function MapHeader(n: nat): Option<seq<byte>> {
    if n < 16 then Some([0x80 + n])
    else if n < 0xffff then Some(Combined(0xde, n, 2))
    else if n < 0xffff_ffff then Some(Combined(0xdf, n, 4))
    else None
  }

  function ExtHeader(n: nat): Option<seq<byte>> {
    if n == 1 then Some([0xd4])
    else if n == 2 then Some([0xd5])
    else if n == 4 then Some([0xd6])
    else if n == 8 then Some([0xd7])
    else if n == 16 then Some([0xd8])
    else if n < 0xff then Some(Combined(0xc7, n, 1))
    else if n < 0xffff then Some(Combined(0xc8, n, 2))
    else if n < 0xffff_ffff then Some(Combined(0xc9, n, 4))
    else None
  }

  function Append(a: Option<seq<byte>>, b: Option<seq<byte>>): Option<seq<byte>> {
    if a.Some? && b.Some? then Some(a.value + b.value) else None
  }

  // What packing appends, unless it throws.
  function Pack(t: Type, v: Value): Option<seq<byte>>
    requires HasType(t, v)
    decreases v, 1
  {
    match t
    case SInt(w) => Some(PackSigned(w, v.n))
    case UInt(w) => Some(PackUnsigned(w, v.n))
    case Bool => Some([if v.b then 0xc3 else 0xc2])
    case Nil => Some([0xc0])
    case Float32 => Some(Combined(0xca, v.bits, 4))
    case Float64 => Some(Combined(0xcb, v.bits, 8))
    case Str => Append(StrHeader(|v.octets|), Some(v.octets))
    case Bin => Append(BinHeader(|v.octets|), Some(v.octets))
    case Array(elem) => Append(ArrayHeader(|v.items|), PackSame(elem, v.items))
    case Map(kt, vt) => Append(MapHeader(|v.entries|), PackEntries(kt, vt, v.entries))
    case Tuple(ts) => PackItems(ts, v.items)
    case Variant(ts) =>
      var content := Pack(ts[v.index], v.content);
      if content.None? then None
      else Append(ExtHeader(|content.value|), Some([v.index % 256] + content.value))
  }

  function PackSame(t: Type, vs: seq<Value>): Option<seq<byte>>
    requires SameTyped(t, vs)
    decreases vs, 0
  {
    if vs == [] then Some([]) else Append(Pack(t, vs[0]), PackSame(t, vs[1..]))
  }

  function PackItems(ts: seq<Type>, vs: seq<Value>): Option<seq<byte>>
    requires ItemsTyped(ts, vs)
    decreases vs, 0
  {
    if vs == [] then Some([]) else Append(Pack(ts[0], vs[0]), PackItems(ts[1..], vs[1..]))
  }

  function PackEntries(kt: Type, vt: Type, entries: seq<Entry>): Option<seq<byte>>
    requires EntriesTyped(kt, vt, entries)
    decreases entries, 0
  {
    if entries == [] then Some([]) else Append(PackEntry(kt, vt, entries[0]), PackEntries(kt, vt, entries[1..]))
  }

  function PackEntry(kt: Type, vt: Type, e: Entry): Option<seq<byte>>
    requires EntryTyped(kt, vt, e)
    decreases e, 0
  {
    Append(Pack(kt, e.key), Pack(vt, e.value))
  }

  // ---------- unpacking ----------

  // A value and the number of octets read for it.
  datatype Got<+T> = Got(v: T, used: nat)

  // A word of `w` octets behind one octet of format.
  function Word(s: seq<byte>, w: nat): (r: Option<Got<nat>>)
    ensures r.Some? ==> r.value.used == w + 1 <= |s| && r.value.v < Pow256(w)
  {
    if |s| < w + 1 then None else Some(Got(FromBigEndian(s[1..w + 1]), w + 1))
  }

  function Mapped<T, U>(r: Option<Got<T>>, f: T -> U): Option<Got<U>> {
    if r.Some? then Some(Got(f(r.value.v), r.value.used)) else None
  }

  function UnpackSigned(w: Width, s: seq<byte>): (r: Option<Got<int>>)
    ensures r.Some? ==> 0 < r.value.used <= |s|
    decreases Octets(w)
  {
    if s == [] then None
    else if s[0] == 0xd0 then Mapped(Word(s, 1), (n: nat) => Signed(n, 1))
    else
      match w
      case W8 => Some(Got(Signed(s[0], 1), 1))
      case W16 =>
        if s[0] == 0xd1 then Mapped(Word(s, 2), (n: nat) => Signed(n, 2)) else Some(Got(Signed(s[0], 1), 1))
      case W32 =>
        if s[0] == 0xd2 then Mapped(Word(s, 4), (n: nat) => Signed(n, 4))
        else if s[0] == 0xd1 then UnpackSigned(W16, s)
        else Some(Got(s[0], 1))
      case W64 =>
        if s[0] == 0xd3 then Mapped(Word(s, 8), (n: nat) => Signed(n, 8))
        else if s[0] == 0xd2 then UnpackSigned(W32, s)
        else if s[0] == 0xd1 then UnpackSigned(W16, s)
        else Some(Got(s[0], 1))
  }

  function UnpackUnsigned(w: Width, s: seq<byte>): (r: Option<Got<int>>)
    ensures r.Some? ==> 0 < r.value.used <= |s|
  {
    if s == [] then None
    else if s[0] == 0xcc then Word(s, 1)
    else if s[0] == 0xcd && w != W8 then Word(s, 2)
    else if s[0] == 0xce && (w == W32 || w == W64) then Word(s, 4)
    else if s[0] == 0xcf && w == W64 then Word(s, 8)
    else Some(Got(s[0], 1))
  }

  // The size of a string, and so on; a format that is none of those listed counts as the short form.
  function StrSize(s: seq<byte>): (r: Option<Got<nat>>)
    ensures r.Some? ==> r.value.used <= |s|
  {
    if s == [] then None
    else if s[0] == 0xdb then Word(s, 4)
    else if s[0] == 0xda then Word(s, 2)
    else if s[0] == 0xd9 then Word(s, 1)
    else Some(Got(s[0] % 32, 1))
  }

  function BinSize(s: seq<byte>): (r: Option<Got<nat>>)
    ensures r.Some? ==> r.value.used <= |s|
  {
    if s == [] then None
    else if s[0] == 0xc6 then Word(s, 4)
    else if s[0] == 0xc5 then Word(s, 2)
    else if s[0] == 0xc4 then Word(s, 1)
    else None
  }

  function ArraySize(s: seq<byte>): (r: Option<Got<nat>>)
    ensures r.Some? ==> r.value.used <= |s|
  {
    if s == [] then None
    else if s[0] == 0xdd then Word(s, 4)
    else if s[0] == 0xdc then Word(s, 2)
    else Some(Got(s[0] % 16, 1))
  }

  function MapSize(s: seq<byte>): (r: Option<Got<nat>>)
    ensures r.Some? ==> r.value.used <= |s|
  {
    if s == [] then None
    else if s[0] == 0xdf then Word(s, 4)
    else if s[0] == 0xde then Word(s, 2)
    else Some(Got(s[0] % 16, 1))
  }

  function ExtSize(s: seq<byte>): (r: Option<Got<nat>>)
    ensures r.Some? ==> r.value.used <= |s|
  {
    if s == [] then None
    else if s[0] == 0xd4 then Some(Got(1, 1))
    else if s[0] == 0xd5 then Some(Got(2, 1))
    else if s[0] == 0xd6 then Some(Got(4, 1))
    else if s[0] == 0xd7 then Some(Got(8, 1))
    else if s[0] == 0xd8 then Some(Got(16, 1))
    else if s[0] == 0xc7 then Word(s, 1)
    else if s[0] == 0xc8 then Word(s, 2)
    else if s[0] == 0xc9 then Word(s, 4)
    else None
  }

  // The octets a size announces.
  function Sized(size: Option<Got<nat>>, s: seq<byte>): (r: Option<Got<Value>>)
    ensures r.Some? ==> r.value.used <= |s|
  {
    if size.None? || size.value.used + size.value.v > |s| then None
    else
      var end := size.value.used + size.value.v;
      Some(Got(VOctets(s[size.value.used..end]), end))
  }

  // insert_or_assign.
  function Inserted(entries: seq<Entry>, e: Entry): seq<Entry> {
    if entries == [] then [e]
    else if entries[0].key == e.key then [e] + entries[1..]
    else [entries[0]] + Inserted(entries[1..], e)
  }

  // What unpacking reads from the front of `s`, unless it throws.
  function Unpack(t: Type, s: seq<byte>): (r: Option<Got<Value>>)
    ensures r.Some? ==> r.value.used <= |s|
    decreases t, 1
  {
    match t
    case SInt(w) => Mapped(UnpackSigned(w, s), n => VInt(n))
    case UInt(w) => Mapped(UnpackUnsigned(w, s), n => VInt(n))
    case Bool => if s != [] && (s[0] == 0xc2 || s[0] == 0xc3) then Some(Got(VBool(s[0] == 0xc3), 1)) else None
    case Nil => if s != [] && s[0] == 0xc0 then Some(Got(VNil, 1)) else None
    case Float32 => if s != [] && s[0] == 0xca then Mapped(Word(s, 4), n => VFloat(n)) else None
    case Float64 => if s != [] && s[0] == 0xcb then Mapped(Word(s, 8), n => VFloat(n)) else None
    case Str => Sized(StrSize(s), s)
    case Bin => Sized(BinSize(s), s)
    case Array(elem) =>
      var size := ArraySize(s);
      if size.None? then None
      else
        var r := UnpackMany(elem, s[size.value.used..], size.value.v);
        if r.None? then None else Some(Got(VArray(r.value.v), size.value.used + r.value.used))
    case Map(kt, vt) =>
      var size := MapSize(s);
      if size.None? then None
      else
        var r := UnpackEntries(kt, vt, s[size.value.used..], size.value.v, []);
        if r.None? then None else Some(Got(VMap(r.value.v), size.value.used + r.value.used))
    case Tuple(ts) => Mapped(UnpackEach(ts, s), items => VArray(items))
    case Variant(ts) =>
      var size := ExtSize(s);
      if size.None? then None else UnpackAlternative(ts, s, size.value)
  }

  // The index and the content of a variant, behind the `size` that announces its content.
  function UnpackAlternative(ts: seq<Type>, s: seq<byte>, size: Got<nat>): (r: Option<Got<Value>>)
    ensures r.Some? ==> r.value.used <= |s|
    decreases ts, 0
  {
    if size.used >= |s| then None
    else
      var index, start := s[size.used], size.used + 1;
      if index >= 128 || index > Signed((|ts| - 1) % 256, 1) || start + size.v > |s| || index >= |ts| then None
      else
        var r := Unpack(ts[index], s[start..start + size.v]);
        if r.None? then None else Some(Got(VVariant(index, r.value.v), start + size.v))
  }

  // `n` values of one type, one after another.
  function UnpackMany(t: Type, s: seq<byte>, n: nat): (r: Option<Got<seq<Value>>>)
    ensures r.Some? ==> r.value.used <= |s|
    decreases t, 2, n
  {
    if n == 0 then Some(Got([], 0))
    else
      var first := Unpack(t, s);
      if first.None? then None
      else
        var rest := UnpackMany(t, s[first.value.used..], n - 1);
        if rest.None? then None else Some(Got([first.value.v] + rest.value.v, first.value.used + rest.value.used))
  }

  // One value of each type.
  function UnpackEach(ts: seq<Type>, s: seq<byte>): (r: Option<Got<seq<Value>>>)
    ensures r.Some? ==> r.value.used <= |s|
    decreases ts, 0
  {
    if ts == [] then Some(Got([], 0))
    else
      var first := Unpack(ts[0], s);
      if first.None? then None
      else
        var rest := UnpackEach(ts[1..], s[first.value.used..]);
        if rest.None? then None else Some(Got([first.value.v] + rest.value.v, first.value.used + rest.value.used))
  }

  // `n` entries, each inserted behind or over those there are.
  function UnpackEntries(kt: Type, vt: Type, s: seq<byte>, n: nat, got: seq<Entry>): (r: Option<Got<seq<Entry>>>)
    ensures r.Some? ==> r.value.used <= |s|
    decreases Map(kt, vt), 0, n
  {
    if n == 0 then Some(Got(got, 0))
    else
      var key := Unpack(kt, s);
      if key.None? then None
      else
        var value := Unpack(vt, s[key.value.used..]);
        if value.None? then None
        else
          var used := key.value.used + value.value.used;
          var rest := UnpackEntries(kt, vt, s[used..], n - 1, Inserted(got, Entry(key.value.v, value.value.v)));
          if rest.None? then None else Some(Got(rest.value.v, used + rest.value.used))
  }
}
