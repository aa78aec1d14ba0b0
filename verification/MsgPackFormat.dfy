/**
 The MessagePack format, read by its table of first octets, without any static type: what a run of octets
 holds, as tokens.
 */
module MsgPackFormat {
  import opened Bytes
  import opened Messages

  // A container is announced by how many items, or pairs of items, follow it. What an extension holds is
  // read too, if it is a run of tokens itself.
  datatype Token =
    | TNil | TBool(b: bool) | TInt(n: int) | TFloat(octets: nat, bits: nat) | TStr(text: seq<byte>) | TBin(data: seq<byte>)
    | TArray(count: nat) | TMap(count: nat) | TExt(kind: int, content: Option<seq<Token>>)

  // What was read, and how many octets it took.
  datatype Read<+T> = Read(what: T, used: nat)

  // `w` octets from `i` on as a number, the most significant first.
  function Number(s: seq<byte>, i: nat, w: nat): (n: Option<nat>)
    ensures n.Some? ==> i + w <= |s|
  {
    if i + w > |s| then None
    else
      var o := (k: nat) requires i + k < |s| => s[i + k] as int;
      if w == 1 then Some(o(0))
      else if w == 2 then Some(0x100 * o(0) + o(1))
      else if w == 4 then Some(0x100_0000 * o(0) + 0x1_0000 * o(1) + 0x100 * o(2) + o(3))
      else if w == 8 then
        Some(0x100_0000_0000_0000 * o(0) + 0x1_0000_0000_0000 * o(1) + 0x100_0000_0000 * o(2) + 0x1_0000_0000 * o(3)
             + 0x100_0000 * o(4) + 0x1_0000 * o(5) + 0x100 * o(6) + o(7))
      else None
  }

  // The same as a signed number.
  function SignedNumber(s: seq<byte>, i: nat, w: nat): Option<int> {
    var n := Number(s, i, w);
    var limit := if w == 1 then 0x80 else if w == 2 then 0x8000 else if w == 4 then 0x8000_0000 else 0x8000_0000_0000_0000;
    if n.None? then None else Some(if n.value < limit then n.value else n.value - 2 * limit)
  }

  // How many octets of size or number follow a first octet.
  function NumberWidth(c: byte): nat {
    if c in {0xc4, 0xc7, 0xcc, 0xd0, 0xd9} then 1
    else if c in {0xc5, 0xc8, 0xcd, 0xd1, 0xda, 0xdc, 0xde} then 2
    else if c in {0xc6, 0xc9, 0xca, 0xce, 0xd2, 0xdb, 0xdd, 0xdf} then 4
    else if c in {0xcb, 0xcf, 0xd3} then 8
    else 0
  }

  // The `n` octets from `i` on.
  function Payload(s: seq<byte>, i: nat, n: nat): (r: Option<seq<byte>>)
    ensures r.Some? ==> i + n <= |s| && |r.value| == n
  {
    if i + n > |s| then None else Some(s[i..i + n])
  }

  // The kind and the data of an extension: fixext 1 to 16, and ext 8, 16 and 32.
  function Extension(s: seq<byte>): (r: Option<Read<(int, seq<byte>)>>)
    ensures r.Some? ==> 0 < r.value.used <= |s| && |r.value.what.1| < |s|
  {
    if s == [] then None
    else
      var c := s[0];
      var w := NumberWidth(c);
      var size :=
        if c == 0xd4 then Some(1) else if c == 0xd5 then Some(2) else if c == 0xd6 then Some(4)
        else if c == 0xd7 then Some(8) else if c == 0xd8 then Some(16)
        else if 0xc7 <= c <= 0xc9 then Number(s, 1, w) else None;
      if size.None? then None
      else
        var kind, data := SignedNumber(s, 1 + w, 1), Payload(s, 2 + w, size.value);
        if kind.None? || data.None? then None else Some(Read((kind.value, data.value), 2 + w + size.value))
  }

  function NumberToken(c: byte, s: seq<byte>): (r: Option<Token>)
    requires 0xca <= c <= 0xd3
  {
    var w := NumberWidth(c);
    if c <= 0xcb then
      var n := Number(s, 1, w);
      if n.None? then None else Some(TFloat(w, n.value))
    else
      var n: Option<int> := if c <= 0xcf then Number(s, 1, w) else SignedNumber(s, 1, w);
      if n.None? then None else Some(TInt(n.value))
  }

  function ReadToken(s: seq<byte>): (r: Option<Read<Token>>)
    ensures r.Some? ==> 0 < r.value.used <= |s|
    decreases |s|, 0
  {
    if s == [] then None
    else
      var c: int := s[0];
      var w := NumberWidth(s[0]);
      if c <= 0x7f then Some(Read(TInt(c), 1))
      else if c >= 0xe0 then Some(Read(TInt(c - 0x100), 1))
      else if c <= 0x8f then Some(Read(TMap(c - 0x80), 1))
      else if c <= 0x9f then Some(Read(TArray(c - 0x90), 1))
      else if c == 0xc0 then Some(Read(TNil, 1))
      else if c == 0xc1 then None
      else if c <= 0xc3 && c > 0xc1 then Some(Read(TBool(c == 0xc3), 1))
      else if 0xca <= c <= 0xd3 then
        var t := NumberToken(s[0], s);
        if t.None? || |s| < 1 + w then None else Some(Read(t.value, 1 + w))
      else if 0xc7 <= c <= 0xc9 || 0xd4 <= c <= 0xd8 then
        var e := Extension(s);
        if e.None? then None else Some(Read(TExt(e.value.what.0, ReadAll(e.value.what.1)), e.value.used))
      else
        // sizes: in the octet itself, or behind it
        var size := if c <= 0xbf then Some(c - 0xa0) else Number(s, 1, w);
        if size.None? then None
        else if 0xdc <= c then
          Some(Read(if c <= 0xdd then TArray(size.value) else TMap(size.value), 1 + w))
        else
          var p := Payload(s, 1 + w, size.value);
          if p.None? then None
          else Some(Read(if 0xc4 <= c <= 0xc6 then TBin(p.value) else TStr(p.value), 1 + w + size.value))
  }

  // All of `s` as tokens.
  function ReadAll(s: seq<byte>): Option<seq<Token>>
    decreases |s|, 1
  {
    if s == [] then Some([])
    else
      var first := ReadToken(s);
      if first.None? then None
      else
        var rest := ReadAll(s[first.value.used..]);
        if rest.None? then None else Some([first.value.what] + rest.value)
  }

  // ---------- items ----------

  // How many items a token announces behind it.
  function Announced(t: Token): nat {
    match t
    case TArray(n) => n
    case TMap(n) => 2 * n
    case _ => 0
  }

  // How many items are still wanted behind the tokens; none of them may come when nothing is wanted.
  function Wanted(tokens: seq<Token>, n: nat): Option<nat> {
    if tokens == [] then Some(n)
    else if n == 0 then None
    else Wanted(tokens[1..], n - 1 + Announced(tokens[0]))
  }

  // The tokens are exactly `n` items, one after another.
  predicate AreItems(tokens: seq<Token>, n: nat) {
    Wanted(tokens, n) == Some(0)
  }

  // ---------- the timestamp extension ----------

  // Seconds since the epoch and nanoseconds, of 4, 8 or 12 octets of kind -1: 32 bits of seconds; 30 bits of
  // nanoseconds and 34 of seconds; 32 bits of nanoseconds and 64, signed, of seconds.
  function TimeOf(kind: int, data: seq<byte>): Option<(int, nat)> {
    if kind != -1 then None
    else if |data| == 4 then Some((Number(data, 0, 4).value, 0))
    else if |data| == 8 then
      var n := Number(data, 0, 8).value;
      Some((n % 0x4_0000_0000, n / 0x4_0000_0000))
    else if |data| == 12 then Some((SignedNumber(data, 4, 8).value, Number(data, 0, 4).value))
    else None
  }
}
