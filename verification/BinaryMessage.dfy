/**
 A packed value behind its length: eight octets, most significant first, and the body. The host keeps
 words with their least significant octet first.
 */
module BinaryMessage {
  import opened Bytes
  import opened Messages
  import opened Words
  import MsgPackSpec
  import Packer
  import Unpacker
  import opened ConnectionSpec

  // ---------- the length as the host keeps it ----------

  function Reversed(s: seq<byte>): (r: seq<byte>)
    ensures |r| == |s| && forall k :: 0 <= k < |s| ==> r[k] == s[|s| - 1 - k]
  {
    seq(|s|, k requires 0 <= k < |s| => s[|s| - 1 - k])
  }

  // The octets of a 64-bit word in memory, and the word they make.
  function Memory(n: nat): (r: seq<byte>)
    ensures |r| == 8
  {
    Reversed(BigEndian(n, 8))
  }

  function FromMemory(octets: seq<byte>): nat {
    FromBigEndian(Reversed(octets))
  }

  function Byteswap(n: nat): nat {
    FromBigEndian(Memory(n))
  }

  lemma SwapReadsForwards(octets: seq<byte>)
    requires |octets| == 8
    ensures Memory(FromMemory(octets)) == octets && Byteswap(FromMemory(octets)) == FromBigEndian(octets)
  {
    OctetsRoundTrip(Reversed(octets));
    assert Reversed(Reversed(octets)) == octets;
  }

  lemma {:induction false} SwapTurnsMemory(n: nat)
    requires n < Pow256(8)
    ensures Memory(Byteswap(n)) == Reversed(Memory(n)) == BigEndian(n, 8)
  {
    OctetsRoundTrip(Memory(n));
    assert Reversed(Memory(n)) == BigEndian(n, 8);
  }

  // ---------- a message on its way in ----------

  datatype Incoming = Incoming(length: nat, headIdx: nat, buffer: seq<byte>, bodyIdx: nat) {
    predicate Valid() {
      length < Pow256(8) && headIdx <= 8 && bodyIdx <= length
    }
  }

  // The word is swapped on every call, whether or not all its octets are there.
  function ConsumeHeader(m: Incoming, data: seq<byte>): (r: Consumed<Incoming>)
    requires m.Valid() && m.bodyIdx == 0
    ensures r.msg.Valid() && r.msg.bodyIdx == 0 && r.reply.count <= |data|
  {
    var n := Min(|data|, 8 - m.headIdx);
    var length := FromBigEndian(Overwritten(Memory(m.length), m.headIdx, data[..n]));
    Consumed(m.(length := length, headIdx := m.headIdx + n), Reply(None, m.headIdx + n == 8, n))
  }

  function ConsumeBody(m: Incoming, data: seq<byte>): (r: Consumed<Incoming>)
    requires m.Valid()
    ensures r.msg.Valid() && r.reply.count <= |data|
  {
    var n := Min(|data|, m.length - m.bodyIdx);
    var buffer := Overwritten(Resized(m.buffer, m.length), m.bodyIdx, data[..n]);
    Consumed(m.(buffer := buffer, bodyIdx := m.bodyIdx + n), Reply(None, m.bodyIdx + n == m.length, n))
  }

  function Refused(m: Incoming): Consumed<Incoming> {
    Consumed(m, Reply(Some(INVALID_MESSAGE), true, 0))
  }

  const INCOMING: Consumer<Incoming> := Consumer(
    (m: Incoming, data: seq<byte>) => if m.Valid() && m.bodyIdx == 0 then ConsumeHeader(m, data) else Refused(m),
    (m: Incoming, data: seq<byte>) => if m.Valid() then ConsumeBody(m, data) else Refused(m))

  // ---------- the message ----------

  class BinaryMessage {
    const kind: MsgPackSpec.Type
    const default: MsgPackSpec.Value
    var length: nat
    var headIdx: nat
    var buffer: seq<byte>
    var bodyIdx: nat
    var value: MsgPackSpec.Value

    constructor (kind: MsgPackSpec.Type, default: MsgPackSpec.Value, value: MsgPackSpec.Value, length: nat)
      requires length < Pow256(8)
      ensures this.kind == kind && this.default == default && this.value == value
      ensures In() == Incoming(length, 0, [], 0)
    {
      // `length` is whatever the word held before
      this.kind, this.default, this.value := kind, default, value;
      this.length, headIdx, buffer, bodyIdx := length, 0, [], 0;
    }

    function In(): Incoming
      reads this
    {
      Incoming(length, headIdx, buffer, bodyIdx)
    }

    function Out(): Outgoing
      reads this
    {
      Outgoing(BigEndian(length, 8), headIdx, Resized(buffer, length), bodyIdx)
    }

    method Pack() returns (err: Option<ErrorCode>)
      requires MsgPackSpec.HasType(kind, value)
      requires var r := MsgPackSpec.Pack(kind, value); r.Some? ==> |r.value| < Pow256(8)
      modifies this
      ensures var r := old(MsgPackSpec.Pack(kind, value));
        if r.None? then err == Some(SERIALIZATION_ERROR) && length == headIdx == bodyIdx == 0 && value == old(value)
        else err == None && In() == Incoming(|r.value|, 0, r.value, 0) && value == default
    {
      length, headIdx, buffer, bodyIdx := 0, 0, [], 0;
      var packer := new Packer.Packer(false);
      var ok := packer.PackType(kind, value);
      buffer := packer.store;
      if !ok { return Some(SERIALIZATION_ERROR); }
      value := default;
      length := |buffer|;
      err := None;
    }

    method Unpack() returns (err: Option<ErrorCode>)
      modifies this`value, this`buffer
      ensures var r := old(MsgPackSpec.Unpack(kind, buffer));
        if r.None? then err == Some(DESERIALIZATION_ERROR) && buffer == old(buffer)
        else err == None && value == r.value.v && buffer == []
    {
      var unpacker := new Unpacker.Unpacker(buffer);
      assert unpacker.Ahead() == buffer;
      value := default;
      var ok;
      ok, value := unpacker.UnpackType(kind);
      if !ok { return Some(DESERIALIZATION_ERROR); }
      buffer := [];
      err := None;
    }

    method ConsumeHeaderSome(data: seq<byte>) returns (reply: Reply)
      requires In().Valid() && bodyIdx == 0
      modifies this`length, this`headIdx
      ensures In().Valid() && Consumed(In(), reply) == ConsumeHeader(old(In()), data)
    {
      hide BigEndian, FromBigEndian;
      var numCopy := Min(|data|, 8 - headIdx);
      var octets := Overwritten(Memory(length), headIdx, data[..numCopy]);
      SwapReadsForwards(octets);
      length := FromMemory(octets);
      length := Byteswap(length);
      headIdx := headIdx + numCopy;
      reply := Reply(None, headIdx >= 8, numCopy);
    }

    method ConsumeBodySome(data: seq<byte>) returns (reply: Reply)
      requires In().Valid()
      modifies this`buffer, this`bodyIdx
      ensures In().Valid() && Consumed(In(), reply) == ConsumeBody(old(In()), data)
    {
      if |buffer| != length { buffer := Resized(buffer, length); }
      assert buffer == Resized(old(buffer), length);
      var numCopy := Min(|data|, length - bodyIdx);
      buffer := Overwritten(buffer, bodyIdx, data[..numCopy]);
      bodyIdx := bodyIdx + numCopy;
      reply := Reply(None, bodyIdx >= length, numCopy);
    }

    method ProduceHeaderSome(space: nat) returns (reply: Reply, bytes: seq<byte>)
      requires In().Valid()
      modifies this`headIdx
      ensures In().Valid() && Produced(Out(), reply, bytes) == ProduceHeader(old(Out()), space)
    {
      hide BigEndian, FromBigEndian;
      var numCopy := Min(space, 8 - headIdx);
      SwapTurnsMemory(length);
      var octets := Memory(Byteswap(length));
      bytes := octets[headIdx..headIdx + numCopy];
      headIdx := headIdx + numCopy;
      var finished := headIdx >= 8;
      if finished { headIdx := 0; }
      reply := Reply(None, finished, numCopy);
    }

    method ProduceBodySome(space: nat) returns (reply: Reply, bytes: seq<byte>)
      requires In().Valid()
      modifies this`buffer, this`bodyIdx
      ensures In().Valid() && Produced(Out(), reply, bytes) == ProduceBody(old(Out()), space)
    {
      if |buffer| != length { buffer := Resized(buffer, length); }
      assert buffer == Resized(old(buffer), length) == Resized(buffer, length);
      var numCopy := Min(space, length - bodyIdx);
      bytes := buffer[bodyIdx..bodyIdx + numCopy];
      bodyIdx := bodyIdx + numCopy;
      var finished := bodyIdx >= length;
      if finished { bodyIdx := 0; }
      reply := Reply(None, finished, numCopy);
    }
  }

  // ---------- a length that arrives in several calls ----------

  // The word in memory after calls with these parts of the length, from octet `at` on: every call
  // copies its part and turns the whole word round.
  function Turned(block: seq<byte>, at: nat, parts: seq<seq<byte>>): (r: seq<byte>)
    requires |block| == 8 && at + |Concat(parts)| <= 8
    ensures |r| == 8
    decreases |parts|
  {
    if parts == [] then block
    else Turned(Reversed(Overwritten(block, at, parts[0])), at + |parts[0]|, parts[1..])
  }

  function TakeLength(m: Incoming, parts: seq<seq<byte>>): (r: Incoming)
    requires m.Valid() && m.bodyIdx == 0
    ensures r.Valid() && r.bodyIdx == 0
    decreases |parts|
  {
    if parts == [] then m else TakeLength(ConsumeHeader(m, parts[0]).msg, parts[1..])
  }

  lemma OnePart(m: Incoming, part: seq<byte>)
    requires m.Valid() && m.bodyIdx == 0 && m.headIdx + |part| <= 8
    ensures var r := ConsumeHeader(m, part);
      && r.msg.headIdx == m.headIdx + |part| && r.reply == Reply(None, r.msg.headIdx == 8, |part|)
      && r.msg.length == FromBigEndian(Overwritten(Memory(m.length), m.headIdx, part))
      && Memory(r.msg.length) == Reversed(Overwritten(Memory(m.length), m.headIdx, part))
  {
    hide BigEndian, FromBigEndian;
    assert part[..|part|] == part;
    OctetsRoundTrip(Overwritten(Memory(m.length), m.headIdx, part));
  }

  lemma {:induction false} TakenIsTurned(m: Incoming, parts: seq<seq<byte>>)
    requires m.Valid() && m.bodyIdx == 0 && m.headIdx + |Concat(parts)| <= 8
    ensures var r := TakeLength(m, parts);
      r.headIdx == m.headIdx + |Concat(parts)| && Memory(r.length) == Turned(Memory(m.length), m.headIdx, parts)
    decreases |parts|
  {
    hide Memory, ConsumeHeader;
    if parts != [] {
      OnePart(m, parts[0]);
      TakenIsTurned(ConsumeHeader(m, parts[0]).msg, parts[1..]);
    }
  }

  // A length that arrives in any number of calls is right exactly if, when the last one comes, the parts
  // before it stand at the front of the turned word.
  lemma {:induction false} LengthInCalls(m: Incoming, parts: seq<seq<byte>>, last: seq<byte>)
    requires m.Valid() && m.headIdx == m.bodyIdx == 0 && |Concat(parts)| + |last| == 8
    ensures var before := Concat(parts);
      ConsumeHeader(TakeLength(m, parts), last).msg.length == FromBigEndian(before + last)
      <==> Turned(Memory(m.length), 0, parts)[..|before|] == before
  {
    hide Memory, ConsumeHeader, BigEndian, FromBigEndian, Turned, TakeLength, Concat;
    var before, r := Concat(parts), TakeLength(m, parts);
    TakenIsTurned(m, parts);
    OnePart(r, last);
    var block := Turned(Memory(m.length), 0, parts);
    var again := Overwritten(block, |before|, last);
    assert again == block[..|before|] + last;
    OctetsRoundTrip(again);
    OctetsRoundTrip(before + last);
    assert again[..|before|] == block[..|before|] && (before + last)[..|before|] == before;
  }

  // With two calls: what the first one copied survives only where the swapped word repeats it.
  predicate SurvivesSwap(before: nat, first: seq<byte>)
    requires |first| <= 8
  {
    Reversed(Overwritten(Memory(before), 0, first))[..|first|] == first
  }

  lemma {:induction false} LengthInTwoCalls(m: Incoming, first: seq<byte>, second: seq<byte>)
    requires m.Valid() && m.headIdx == m.bodyIdx == 0 && |first| + |second| == 8
    ensures var half := ConsumeHeader(m, first).msg;
      ConsumeHeader(half, second).msg.length == FromBigEndian(first + second) <==> SurvivesSwap(m.length, first)
  {
    OnePartTurned(Memory(m.length), 0, first);
    assert TakeLength(m, [first]) == ConsumeHeader(m, first).msg;
    hide Memory, ConsumeHeader, Turned, TakeLength, Concat;
    LengthInCalls(m, [first], second);
  }

  lemma TurnedTwice(block: seq<byte>, first: seq<byte>, second: seq<byte>)
    requires |block| == 8 && |first| + |second| <= 4
    ensures var twice, n := Reversed(Overwritten(Reversed(Overwritten(block, 0, first)), |first|, second)), |first|;
      (forall k :: 0 <= k < n ==> twice[k] == first[k]) && (forall k :: n <= k < n + |second| ==> twice[k] == block[k])
  {
    var over := Overwritten(block, 0, first);
    var once := Reversed(over);
    var again := Overwritten(once, |first|, second);
    forall k | 0 <= k < |first| + |second| ensures Reversed(again)[k] == over[k] {
      assert Reversed(again)[k] == again[7 - k] == once[7 - k] == over[k];
    }
  }

  lemma SameParts(word: seq<byte>, first: seq<byte>, second: seq<byte>)
    requires |first| + |second| <= |word| && forall k :: 0 <= k < |first| ==> word[k] == first[k]
    ensures word[..|first| + |second|] == first + second
      <==> forall k :: |first| <= k < |first| + |second| ==> word[k] == second[k - |first|]
  {
    var parts := first + second;
    if word[..|parts|] == parts {
      forall k | |first| <= k < |parts| ensures word[k] == second[k - |first|] { assert word[..|parts|][k] == parts[k]; }
    }
  }

  // In three calls, of which the first two bring at most four octets, the first part is turned round
  // twice and stands where it should: the length is right exactly if the octets of the second part are
  // those that stood there before. So a length below 2^32 in a word that was zero is not lost.
  lemma {:induction false} LengthInThreeCalls(m: Incoming, first: seq<byte>, second: seq<byte>, last: seq<byte>)
    requires m.Valid() && m.headIdx == m.bodyIdx == 0 && |first| + |second| + |last| == 8 && |first| + |second| <= 4
    ensures var two := TakeLength(m, [first, second]);
      ConsumeHeader(two, last).msg.length == FromBigEndian(first + second + last)
      <==> forall k :: |first| <= k < |first| + |second| ==> Memory(m.length)[k] == second[k - |first|]
  {
    var block := Memory(m.length);
    var twice := Reversed(Overwritten(Reversed(Overwritten(block, 0, first)), |first|, second));
    TwoParts(block, first, second);
    hide Memory, Turned, TakeLength, Concat, ConsumeHeader, Reversed, Overwritten, FromBigEndian;
    LengthInCalls(m, [first, second], last);
    TurnedTwice(block, first, second);
    SameParts(twice, first, second);
  }

  lemma {:induction false} TwoParts(block: seq<byte>, first: seq<byte>, second: seq<byte>)
    requires |block| == 8 && |first| + |second| <= 8
    ensures Concat([first, second]) == first + second
    ensures Turned(block, 0, [first, second]) == Reversed(Overwritten(Reversed(Overwritten(block, 0, first)), |first|, second))
  {
    var parts := [first, second];
    assert parts[0] == first && parts[1..] == [second];
    OnePartTurned(Reversed(Overwritten(block, 0, first)), |first|, second);
    hide Reversed, Overwritten;
  }

  lemma OnePartTurned(block: seq<byte>, at: nat, part: seq<byte>)
    requires |block| == 8 && at + |part| <= 8
    ensures Concat([part]) == part && Turned(block, at, [part]) == Reversed(Overwritten(block, at, part))
  {
    assert [part][1..] == [] && part + [] == part;
    hide Reversed, Overwritten;
  }

  // The length 261 in a word that was zero, cut after its seventh octet, is lost.
  lemma SplitLengthIsLost()
    ensures var first, second: seq<byte> := [0, 0, 0, 0, 0, 0, 1], [5];
      ConsumeHeader(ConsumeHeader(Incoming(0, 0, [], 0), first).msg, second).msg.length != FromBigEndian(first + second)
  {
    Pow256Values();
    var first: seq<byte>, second: seq<byte> := [0, 0, 0, 0, 0, 0, 1], [5];
    LengthInTwoCalls(Incoming(0, 0, [], 0), first, second);
    hide BigEndian, FromBigEndian;
    var swapped := Reversed(Overwritten(Memory(0), 0, first));
    assert swapped[1] == 1 && swapped[..7][1] == 1 && first[1] == 0;
  }
}
