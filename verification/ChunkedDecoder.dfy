/**
 The decoder as the source writes it: one object resumed over successive buffers, nested scanning
 loops, and the decoded octets moved to the front of the buffer in place.
 */
module ChunkedDecoder {
  import opened Bytes
  import opened ChunkedSpec

  lemma DigitKeepsSound(m: Machine, v: int)
    requires Sound(m) && m.phase == ChunkSize && m.hex < MAX_HEX_DIGITS && 0 <= v < 16
    ensures Wrap64(m.left * 16 + v) == m.left * 16 + v
    ensures Sound(Machine(ChunkSize, m.left * 16 + v, m.hex + 1))
  {
    Pow16Bounds(m.hex);
  }

  // Chunk data is passed on as it is.
  lemma {:induction false} DataRun(m0: Machine, trailer: bool, s: seq<byte>, n: nat, m: Machine, acc: seq<byte>, count: nat)
    requires n + count <= |s| && m.phase == ChunkData && count <= m.left && 0 < m.left
    requires RunUpTo(m0, trailer, s, n) == Run(m, acc, More, n)
    ensures RunUpTo(m0, trailer, s, n + count) == Run(
      if count == m.left then m.(phase := DataExpectCR, left := 0) else m.(left := m.left - count),
      acc + s[n..n + count], More, n + count)
  {
    hide RunUpTo;
    if count == 0 {
      assert acc + s[n..n] == acc;
    } else {
      DataRun(m0, trailer, s, n, m, acc, count - 1);
      OneMore(m0, trailer, s, n + count - 1, m.(left := m.left - (count - 1)), acc + s[n..n + count - 1]);
      assert acc + s[n..n + count] == acc + s[n..n + count - 1] + [s[n + count - 1]];
    }
  }

  predicate InHeader(p: Phase) { p.ChunkSize? || p.ChunkExt? || p.HeaderExpectLF? }
  predicate InData(p: Phase) { p.ChunkData? || p.DataExpectCR? || p.DataExpectLF? }
  predicate InTrailer(p: Phase) { p.TrailerHead? || p.TrailerMiddle? }

  class Decoder {
    var bytesLeftInChunk: nat
    var consumeTrailer: bool
    var hexCount: nat
    var phase: Phase
    var totalRead: nat
    var totalOverhead: nat

    function M(): Machine
      reads this
    {
      Machine(phase, bytesLeftInChunk, hexCount)
    }

    function State(): ChunkedSpec.Decoder
      reads this
    {
      ChunkedSpec.Decoder(M(), consumeTrailer, totalRead, totalOverhead)
    }

    constructor (trailer: bool)
      ensures State() == ChunkedSpec.Decoder(Machine(ChunkSize, 0, 0), trailer, 0, 0)
      ensures Sound(M())
    {
      bytesLeftInChunk, consumeTrailer, hexCount, phase := 0, trailer, 0, ChunkSize;
      totalRead, totalOverhead := 0, 0;
    }

    // The first `n` octets of `s`, read from state `m0` on, have led to this state and to `acc`.
    ghost predicate Reached(m0: Machine, s: seq<byte>, n: nat, acc: seq<byte>)
      reads this
    {
      && Sound(M())
      && n <= |s|
      && RunUpTo(m0, consumeTrailer, s, n) == Run(M(), acc, More, n)
    }

    // They have been read, and the octet after them was refused.
    ghost predicate Refused(m0: Machine, s: seq<byte>, n: nat, acc: seq<byte>)
      reads this
    {
      && Sound(M())
      && n < |s|
      && RunUpTo(m0, consumeTrailer, s, n + 1) == Run(M(), acc, Malformed, n)
    }

    // Reads hexadecimal digits from `at`. Stops at the end of the buffer, at an octet that may not be
    // there (Malformed), or with the phase moved on to ChunkExt by an octet that ends the size.
    method ReadSize(buf: array<byte>, at: nat, bufsz: nat, ghost m0: Machine, ghost s: seq<byte>, ghost acc: seq<byte>)
      returns (src: nat, verdict: Verdict)
      requires phase == ChunkSize && Reached(m0, s, at, acc)
      requires |s| == bufsz <= buf.Length && forall k :: at <= k < bufsz ==> buf[k] == s[k]
      modifies this`bytesLeftInChunk, this`hexCount, this`phase
      ensures at <= src <= bufsz && verdict != Finished
      ensures verdict == Malformed ==> Refused(m0, s, src, acc)
      ensures verdict == More && phase == ChunkSize ==> src == bufsz && Reached(m0, s, src, acc)
      ensures verdict == More && phase != ChunkSize ==>
        src < bufsz && phase == ChunkExt && Sound(M()) && RunUpTo(m0, consumeTrailer, s, src + 1) == (
          var step := StepExt(M(), s[src]);
          Run(step.m, acc, step.verdict, if step.verdict == Malformed then src else src + 1))
    {
      hide RunUpTo;
      src := at;
      while true
        invariant at <= src <= bufsz && phase == ChunkSize && Reached(m0, s, src, acc)
        decreases bufsz - src
      {
        if src == bufsz { return src, More; }
        OneMore(m0, consumeTrailer, s, src, M(), acc);
        var v := DecodeHex(buf[src]);
        if v == -1 {
          if hexCount == 0 { return src, Malformed; }
          if !EndsSize(buf[src]) { return src, Malformed; }
          break;
        }
        if hexCount == MAX_HEX_DIGITS { return src, Malformed; }
        ghost var m := M();
        DigitKeepsSound(m, v);
        bytesLeftInChunk := Wrap64(bytesLeftInChunk * 16 + v);
        hexCount := hexCount + 1;
        src := src + 1;
      }
      hexCount := 0;
      phase := ChunkExt;
      verdict := More;
    }

    // Skips the chunk extension up to and including CR.
    method SkipExt(buf: array<byte>, at: nat, bufsz: nat, ghost m0: Machine, ghost s: seq<byte>, ghost acc: seq<byte>)
      returns (src: nat, verdict: Verdict)
      requires phase == ChunkExt && Sound(M()) && at <= bufsz
      requires |s| == bufsz <= buf.Length && forall k :: at <= k < bufsz ==> buf[k] == s[k]
      // nothing beyond the size has been read yet, or the octet at `at` has just ended the size
      requires Reached(m0, s, at, acc)
        || (at < bufsz && RunUpTo(m0, consumeTrailer, s, at + 1) == (
              var step := StepExt(M(), s[at]);
              Run(step.m, acc, step.verdict, if step.verdict == Malformed then at else at + 1)))
      modifies this`phase
      ensures at <= src <= bufsz && verdict != Finished
      ensures verdict == Malformed ==> Refused(m0, s, src, acc)
      ensures verdict == More ==> Reached(m0, s, src, acc)
      ensures verdict == More ==> phase == HeaderExpectLF || (phase == ChunkExt && src == bufsz)
      ensures verdict == More && at < bufsz ==> at < src
    {
      hide RunUpTo;
      src := at;
      while true
        invariant at <= src <= bufsz && phase == ChunkExt && Sound(M())
        invariant src > at ==> Reached(m0, s, src, acc)
        decreases bufsz - src
      {
        if src == bufsz { return src, More; }
        if src > at || Reached(m0, s, at, acc) { OneMore(m0, consumeTrailer, s, src, M(), acc); }
        if buf[src] == CR { break; }
        if buf[src] == LF { return src, Malformed; }
        src := src + 1;
      }
      src := src + 1;
      phase := HeaderExpectLF;
      verdict := More;
    }

    // Moves the chunk data that is there to `dst`.
    method CopyData(buf: array<byte>, dst: nat, at: nat, bufsz: nat, ghost m0: Machine, ghost s: seq<byte>)
      returns (src: nat, count: nat)
      requires phase == ChunkData && dst <= at <= bufsz == |s| && bufsz <= buf.Length
      requires Reached(m0, s, at, buf[..dst])
      requires forall k :: at <= k < bufsz ==> buf[k] == s[k]
      modifies this`bytesLeftInChunk, this`phase, buf
      ensures src == at + count <= bufsz
      ensures Reached(m0, s, src, buf[..dst + count])
      ensures phase == DataExpectCR || (phase == ChunkData && src == bufsz)
      ensures forall k :: src <= k < buf.Length ==> buf[k] == old(buf[k])
      ensures at < bufsz ==> at < src
    {
      hide RunUpTo;
      ghost var acc := buf[..dst];
      var avail := bufsz - at;
      count := Min(avail, bytesLeftInChunk);
      DataRun(m0, consumeTrailer, s, at, M(), acc, count);
      assert buf[at..at + count] == s[at..at + count];
      if dst != at { Move(buf, dst, at, count); }
      src := at + count;
      bytesLeftInChunk := bytesLeftInChunk - count;
      if bytesLeftInChunk == 0 { phase := DataExpectCR; }
      assert buf[..dst + count] == acc + s[at..at + count];
    }

    // Skips one trailer line up to and including LF.
    method SkipLine(buf: array<byte>, at: nat, bufsz: nat, ghost m0: Machine, ghost s: seq<byte>, ghost acc: seq<byte>)
      returns (src: nat)
      requires phase == TrailerMiddle && Reached(m0, s, at, acc)
      requires |s| == bufsz <= buf.Length && forall k :: at <= k < bufsz ==> buf[k] == s[k]
      modifies this`phase
      ensures at <= src <= bufsz && Reached(m0, s, src, acc)
      ensures phase == TrailerHead || (phase == TrailerMiddle && src == bufsz)
      ensures at < bufsz ==> at < src
    {
      hide RunUpTo;
      src := at;
      while true
        invariant at <= src <= bufsz && phase == TrailerMiddle && Reached(m0, s, src, acc)
        decreases bufsz - src
      {
        if src == bufsz { return; }
        OneMore(m0, consumeTrailer, s, src, M(), acc);
        if buf[src] == LF { break; }
        src := src + 1;
      }
      src := src + 1;
      phase := TrailerHead;
    }

    // The run has stopped: at the end of the buffer, at a refused octet, or after the last octet of the body.
    ghost predicate Stopped(m0: Machine, s: seq<byte>, n: nat, acc: seq<byte>, verdict: Verdict)
      reads this
    {
      match verdict
      case More => n == |s| && Reached(m0, s, n, acc)
      case Malformed => Refused(m0, s, n, acc)
      case Finished => Sound(M()) && n <= |s| && RunUpTo(m0, consumeTrailer, s, n) == Run(M(), acc, Finished, n)
    }

    // One trip through the trailer states.
    method SkipTrailer(buf: array<byte>, at: nat, bufsz: nat, ghost m0: Machine, ghost s: seq<byte>, ghost acc: seq<byte>)
      returns (src: nat, verdict: Verdict, stop: bool)
      requires InTrailer(phase) && Reached(m0, s, at, acc)
      requires |s| == bufsz <= buf.Length && forall k :: at <= k < bufsz ==> buf[k] == s[k]
      modifies this`phase
      ensures at <= src <= bufsz
      ensures stop ==> Stopped(m0, s, src, acc, verdict)
      ensures !stop ==> Reached(m0, s, src, acc) && at < src && verdict == More
    {
      hide RunUpTo;
      src, verdict, stop := at, More, true;
      if phase == TrailerHead {
        while true
          invariant at <= src <= bufsz && phase == TrailerHead && Reached(m0, s, src, acc)
          decreases bufsz - src
        {
          if src == bufsz { return; }
          OneMore(m0, consumeTrailer, s, src, M(), acc);
          if buf[src] != CR { break; }
          src := src + 1;
        }
        src := src + 1;
        if buf[src - 1] == LF { verdict := Finished; return; }
        phase := TrailerMiddle;
      }
      src := SkipLine(buf, src, bufsz, m0, s, acc);
      stop := phase == TrailerMiddle;
    }

    // Expects one octet, `want`, and moves to the phase after it.
    method Expect(buf: array<byte>, at: nat, bufsz: nat, ghost m0: Machine, ghost s: seq<byte>, ghost acc: seq<byte>)
      returns (src: nat, verdict: Verdict, stop: bool)
      requires phase in {HeaderExpectLF, DataExpectCR, DataExpectLF} && Reached(m0, s, at, acc)
      requires |s| == bufsz <= buf.Length && forall k :: at <= k < bufsz ==> buf[k] == s[k]
      modifies this`phase
      ensures at <= src <= bufsz
      ensures stop ==> Stopped(m0, s, src, acc, verdict)
      ensures !stop ==> Reached(m0, s, src, acc) && at < src && verdict == More
      ensures !stop ==> phase == match old(phase)
        case HeaderExpectLF => (if bytesLeftInChunk != 0 then ChunkData else TrailerHead)
        case DataExpectCR => DataExpectLF
        case _ => ChunkSize
    {
      hide RunUpTo;
      src, verdict, stop := at, More, true;
      if src == bufsz { return; }
      OneMore(m0, consumeTrailer, s, src, M(), acc);
      if buf[src] != (if phase == DataExpectCR then CR else LF) { verdict := Malformed; return; }
      src := src + 1;
      if phase == DataExpectCR {
        phase := DataExpectLF;
      } else if phase == DataExpectLF {
        phase := ChunkSize;
      } else if bytesLeftInChunk != 0 {
        phase := ChunkData;
      } else if consumeTrailer {
        phase := TrailerHead;
      } else {
        verdict := Finished;
        return;
      }
      stop := false;
    }

    // The line that opens a chunk, from whichever of its phases the decoder is in.
    method ReadHeader(buf: array<byte>, at: nat, bufsz: nat, ghost m0: Machine, ghost s: seq<byte>, ghost acc: seq<byte>)
      returns (src: nat, verdict: Verdict, stop: bool)
      requires InHeader(phase) && Reached(m0, s, at, acc)
      requires |s| == bufsz <= buf.Length && forall k :: at <= k < bufsz ==> buf[k] == s[k]
      modifies this`bytesLeftInChunk, this`hexCount, this`phase
      ensures at <= src <= bufsz
      ensures stop ==> Stopped(m0, s, src, acc, verdict)
      ensures !stop ==> Reached(m0, s, src, acc) && at < src && verdict == More && phase in {ChunkData, TrailerHead}
    {
      hide RunUpTo, StepByte;
      src, verdict, stop := at, More, true;
      if phase == ChunkSize {
        src, verdict := ReadSize(buf, src, bufsz, m0, s, acc);
        if verdict == Malformed || phase == ChunkSize { return; }
      }
      if phase == ChunkExt {
        src, verdict := SkipExt(buf, src, bufsz, m0, s, acc);
        if verdict == Malformed || phase == ChunkExt { return; }
      }
      src, verdict, stop := Expect(buf, src, bufsz, m0, s, acc);
    }

    // The octets of a chunk and the line end after them.
    method ReadData(buf: array<byte>, to: nat, at: nat, bufsz: nat, ghost m0: Machine, ghost s: seq<byte>)
      returns (src: nat, dst: nat, verdict: Verdict, stop: bool)
      requires to <= at <= |s| == bufsz <= buf.Length && forall k :: at <= k < bufsz ==> buf[k] == s[k]
      requires InData(phase) && Reached(m0, s, at, buf[..to])
      modifies this`bytesLeftInChunk, this`phase, buf
      ensures at <= src <= bufsz && dst <= src
      ensures forall k :: src <= k < buf.Length ==> buf[k] == old(buf[k])
      ensures stop ==> Stopped(m0, s, src, buf[..dst], verdict)
      ensures !stop ==> Reached(m0, s, src, buf[..dst]) && at < src && verdict == More
    {
      hide RunUpTo, StepByte, Sound;
      src, dst, verdict, stop := at, to, More, true;
      if phase == ChunkData {
        var count;
        src, count := CopyData(buf, dst, src, bufsz, m0, s);
        dst := dst + count;
        if phase == ChunkData { return; }
      }
      ghost var acc := buf[..dst];
      if phase == DataExpectCR {
        src, verdict, stop := Expect(buf, src, bufsz, m0, s, acc);
        if stop { return; }
      }
      src, verdict, stop := Expect(buf, src, bufsz, m0, s, acc);
    }

    // The scan: stops when the buffer is used up, an octet is refused, or the body is complete.
    method Scan(buf: array<byte>, size: nat, ghost s: seq<byte>) returns (src: nat, dst: nat, verdict: Verdict)
      requires size <= buf.Length && s == buf[..size] && Sound(M())
      modifies this`bytesLeftInChunk, this`hexCount, this`phase, buf
      ensures dst <= src <= size
      ensures RunBytes(old(M()), consumeTrailer, s) == Run(M(), buf[..dst], verdict, src) && Sound(M())
      ensures buf[src..size] == s[src..]
      ensures forall k :: src <= k < buf.Length ==> buf[k] == old(buf[k])
    {
      hide RunUpTo, StepByte, Sound;
      ghost var m0, whole := M(), buf[..];
      var stop := false;
      src, dst, verdict := 0, 0, More;
      RunNone(m0, consumeTrailer, s);
      while !stop
        invariant dst <= src <= size
        invariant !stop ==> verdict == More && Reached(m0, s, src, buf[..dst])
        invariant stop ==> Stopped(m0, s, src, buf[..dst], verdict)
        invariant forall k :: src <= k < buf.Length ==> buf[k] == whole[k]
        decreases !stop, size - src
      {
        ghost var acc := buf[..dst];
        if InHeader(phase) {
          src, verdict, stop := ReadHeader(buf, src, size, m0, s, acc);
        } else if InData(phase) {
          src, dst, verdict, stop := ReadData(buf, dst, src, size, m0, s);
        } else {
          src, verdict, stop := SkipTrailer(buf, src, size, m0, s, acc);
        }
      }
      RunSettled(m0, consumeTrailer, s, if verdict == Malformed then src + 1 else src);
    }

    // Decodes buf[..size] in place. On return buf[..bufsz] holds the decoded octets and the unread
    // ones follow them.
    method Decode(buf: array<byte>, size: nat) returns (ret: int, bufsz: nat)
      requires size <= buf.Length && Sound(M())
      modifies this, buf
      ensures Sound(M())
      ensures var c := Call(old(State()), old(buf[..size]));
        && ret == c.ret
        && State() == c.d
        && bufsz == |c.out|
        && bufsz + |c.rest| <= size
        && buf[..bufsz] == c.out
        && buf[bufsz..bufsz + |c.rest|] == c.rest
      ensures forall k :: size <= k < buf.Length ==> buf[k] == old(buf[k])
    {
      hide RunBytes, Sound;
      ghost var m0, s := M(), buf[..size];
      totalRead := Wrap64(totalRead + size);
      var src, dst, verdict := Scan(buf, size, s);
      ghost var out := buf[..dst];
      if dst != src { Move(buf, dst, src, size - src); }
      assert buf[..dst] == out;
      bufsz := dst;
      ret := if verdict == Finished then size - src else if verdict == Malformed then -1 else -2;
      if ret == -2 {
        totalOverhead := Wrap64(totalOverhead + (size - bufsz));
        if TooMuchOverhead(totalRead, totalOverhead) { ret := -1; }
      }
    }
  }
}
