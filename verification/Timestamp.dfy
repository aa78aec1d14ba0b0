/**
 The timestamp extension for a clock that counts nanoseconds in 64 bits: which of the three forms an
 instant is packed in, and which instants come back.
 */
module Timestamp {
  import opened Bytes
  import opened Words

  const BILLION: nat := 1_000_000_000
  const TWO_TO_THE_32: nat := 0x1_0000_0000
  const TWO_TO_THE_34: nat := 0x4_0000_0000

  // Whole seconds, rounded down, and the nanoseconds above them.
  function Seconds(count: int): int { count / BILLION }

  function Nanos(count: int): (r: nat)
    ensures r < BILLION && count == Seconds(count) * BILLION + r
  {
    count % BILLION
  }

  function Encode(count: int): seq<byte>
    requires FitsSigned(count, 8)
  {
    Bounds(count);
    var seconds, nanos := Seconds(count), Nanos(count);
    if !(0 <= seconds < TWO_TO_THE_34) then
      [0xc7, 12, 0xff] + BigEndian(nanos, 4) + BigEndian(Unsigned(seconds, 8), 8)
    else if nanos == 0 then [0xd6, 0xff] + BigEndian(seconds % TWO_TO_THE_32, 4)
    else [0xd7, 0xff] + BigEndian(nanos * TWO_TO_THE_34 + seconds, 8)
  }

  // What unpacking an instant comes to; arithmetic beyond 64 signed bits has no defined result.
  datatype Outcome = Instant(count: int, used: nat) | Thrown | Undefined

  function Sum(nanos: nat, seconds: int, used: nat): (r: Outcome)
    ensures r.Instant? ==> r.used == used
  {
    if FitsSigned(seconds * BILLION, 8) && FitsSigned(nanos + seconds * BILLION, 8)
    then Instant(nanos + seconds * BILLION, used)
    else Undefined
  }

  function Decode(s: seq<byte>): Outcome {
    if s == [] then Thrown
    else if s[0] == 0xd6 then
      if |s| < 6 || s[1] != 0xff then Thrown else Sum(0, FromBigEndian(s[2..6]), 6)
    else if s[0] == 0xd7 then
      if |s| < 10 || s[1] != 0xff then Thrown
      else
        var data := FromBigEndian(s[2..10]);
        Sum(data / TWO_TO_THE_34, data % TWO_TO_THE_34, 10)
    else if s[0] == 0xc7 then
      if |s| < 15 || s[2] != 0xff then Thrown
      else Sum(FromBigEndian(s[3..7]), Signed(FromBigEndian(s[7..15]), 8), 15)
    else Thrown
  }

  // Whole seconds past 32 bits lose their upper bits in the shortest form.
  predicate Truncated(count: int) {
    Nanos(count) == 0 && TWO_TO_THE_32 <= Seconds(count) < TWO_TO_THE_34
  }

  // The first instants of the clock's range lie in a second that begins before it.
  predicate BeginsTooEarly(count: int) {
    !FitsSigned(Seconds(count) * BILLION, 8)
  }

  lemma Bounds(count: int)
    requires FitsSigned(count, 8)
    ensures -9_223_372_037 <= Seconds(count) < TWO_TO_THE_34 && FitsSigned(Seconds(count), 8)
    ensures BeginsTooEarly(count) <==> count < -9_223_372_036_000_000_000
  {
    Pow256Values();
    var n := Nanos(count);
  }

  lemma Split34(nanos: nat, seconds: nat)
    requires seconds < TWO_TO_THE_34 && nanos < BILLION
    ensures var data := nanos * TWO_TO_THE_34 + seconds;
      data < Pow256(8) && data / TWO_TO_THE_34 == nanos && data % TWO_TO_THE_34 == seconds
  {
    Pow256Values();
  }

  lemma LongForm(nanos: nat, seconds: int, rest: seq<byte>)
    requires nanos < BILLION && FitsSigned(seconds, 8)
    ensures Decode([0xc7, 12, 0xff] + BigEndian(nanos, 4) + BigEndian(Unsigned(seconds, 8), 8) + rest) == Sum(nanos, seconds, 15)
  {
    Pow256Values();
    WordRoundTrip(nanos, 4);
    WordRoundTrip(Unsigned(seconds, 8), 8);
    hide BigEndian, FromBigEndian, Sum;
    var a, b := BigEndian(nanos, 4), BigEndian(Unsigned(seconds, 8), 8);
    var s := [0xc7, 12, 0xff] + a + b + rest;
    assert s[3..7] == a && s[7..15] == b;
  }

  lemma ShortForm(format: byte, n: nat, w: nat, rest: seq<byte>)
    requires n < Pow256(w)
    ensures var s := [format, 0xff] + BigEndian(n, w) + rest;
      s[0] == format && s[1] == 0xff && FromBigEndian(s[2..2 + w]) == n
  {
    WordRoundTrip(n, w);
    assert ([format, 0xff] + BigEndian(n, w) + rest)[2..2 + w] == BigEndian(n, w);
  }

  lemma ReadsBack(count: int, rest: seq<byte>)
    requires FitsSigned(count, 8)
    ensures Decode(Encode(count) + rest)
      == Sum(Nanos(count), if Truncated(count) then Seconds(count) % TWO_TO_THE_32 else Seconds(count), |Encode(count)|)
  {
    Bounds(count);
    Pow256Values();
    hide BigEndian, FromBigEndian, Sum, FitsSigned;
    var seconds, nanos := Seconds(count), Nanos(count);
    if seconds < 0 {
      LongForm(nanos, seconds, rest);
    } else if nanos == 0 {
      ShortForm(0xd6, seconds % TWO_TO_THE_32, 4, rest);
    } else {
      Split34(nanos, seconds);
      ShortForm(0xd7, nanos * TWO_TO_THE_34 + seconds, 8, rest);
    }
  }

  // Every instant comes back, behind exactly the octets packed for it, unless it is a whole second of
  // more than 32 bits or lies in the second that begins before the clock's range.
  lemma {:induction false} TimeRoundTrip(count: int, rest: seq<byte>)
    requires FitsSigned(count, 8)
    ensures Decode(Encode(count) + rest) == Instant(count, |Encode(count)|) <==> !Truncated(count) && !BeginsTooEarly(count)
    ensures BeginsTooEarly(count) ==> Decode(Encode(count) + rest) == Undefined
    ensures Truncated(count) ==>
      Decode(Encode(count) + rest) == Instant(Seconds(count) % TWO_TO_THE_32 * BILLION, |Encode(count)|)
    ensures !Decode(Encode(count) + rest).Thrown?
  {
    ReadsBack(count, rest);
    Bounds(count);
    Pow256Values();
    hide Decode, Encode;
  }

  // Both kinds of instant lie in the clock's range: 2^32 seconds, and the first instant there is.
  lemma SomeDoNotComeBack()
    ensures FitsSigned(TWO_TO_THE_32 * BILLION, 8) && Truncated(TWO_TO_THE_32 * BILLION)
    ensures FitsSigned(-0x8000_0000_0000_0000, 8) && BeginsTooEarly(-0x8000_0000_0000_0000)
  {
    Pow256Values();
  }
}
