/**
 Octets, the handful of ASCII codes the protocols use, machine-word arithmetic and big-endian words.
 */
module Bytes {
  type byte = b: int | 0 <= b < 256

  const HT: byte := 9
  const LF: byte := 10
  const CR: byte := 13
  const SP: byte := 32
  const COLON: byte := 58
  const SEMICOLON: byte := 59
  const DEL: byte := 127

  const CRLF: seq<byte> := [CR, LF]

  predicate IsDigit(c: byte) { 48 <= c <= 57 }

  function Digit(c: byte): nat
    requires IsDigit(c)
  {
    c - 48
  }

  const DIGITS := Ascii("0123456789")

  lemma DigitIs(c: byte, v: nat)
    requires v < 10
    ensures DIGITS[v] == c <==> IsDigit(c) && Digit(c) == v
  {}

  const TWO_TO_THE_64: nat := 0x1_0000_0000_0000_0000

  // The value an unsigned 64-bit word holds after an arithmetic result is stored in it.
  function Wrap64(x: int): (r: nat)
    ensures r < TWO_TO_THE_64
  {
    x % 0x1_0000_0000_0000_0000
  }

  lemma WrapTwice(a: int, b: int)
    ensures Wrap64(Wrap64(a) + b) == Wrap64(a + b)
  {}

  function Min(a: nat, b: nat): nat {
    if a <= b then a else b
  }

  function Concat<T>(pieces: seq<seq<T>>): seq<T> {
    if pieces == [] then [] else pieces[0] + Concat(pieces[1..])
  }

  // std::vector::resize: cut, or padded with zeros.
  function Resized(data: seq<byte>, size: nat): (r: seq<byte>)
    ensures |r| == size
  {
    if size <= |data| then data[..size] else data + seq(size - |data|, _ => 0)
  }

  // memcpy into the middle of a block.
  function Overwritten(block: seq<byte>, at: nat, data: seq<byte>): (r: seq<byte>)
    requires at + |data| <= |block|
    ensures |r| == |block|
  {
    block[..at] + data + block[at + |data|..]
  }

  function Ascii(text: string): (r: seq<byte>)
    requires forall k :: 0 <= k < |text| ==> text[k] < 128 as char
    ensures |r| == |text|
  {
    seq(|text|, k requires 0 <= k < |text| => text[k] as int)
  }

  // memmove within one buffer: the regions may overlap.
  method Move(a: array<byte>, to: nat, from: nat, count: nat)
    requires to <= from && from + count <= a.Length
    modifies a
    ensures a[to..to + count] == old(a[from..from + count])
    ensures a[..to] == old(a[..to])
    ensures forall k :: from + count <= k < a.Length ==> a[k] == old(a[k])
    ensures to == from ==> a[..] == old(a[..])
  {
    for i := 0 to count
      invariant a[to..to + i] == old(a[from..from + i])
      invariant a[..to] == old(a[..to])
      invariant forall k :: from + i <= k < a.Length ==> a[k] == old(a[k])
      invariant to == from ==> a[..] == old(a[..])
    {
      a[to + i] := a[from + i];
    }
  }

  // memcpy of `data` into the buffer at `at`.
  method Write(a: array<byte>, at: nat, data: seq<byte>)
    requires at + |data| <= a.Length
    modifies a
    ensures a[..at + |data|] == old(a[..at]) + data
    ensures a[at + |data|..] == old(a[at + |data|..])
  {
    for i := 0 to |data|
      invariant a[..at + i] == old(a[..at]) + data[..i]
      invariant forall k :: at + i <= k < a.Length ==> a[k] == old(a[k])
    {
      a[at + i] := data[i];
    }
  }
}
