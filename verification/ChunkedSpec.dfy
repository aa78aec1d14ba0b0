/**
 The chunked transfer coding decoder as a machine that reads one octet at a time
 (section 4.1 of RFC 7230), and what one call of the decoder does with a whole buffer.
 */
module ChunkedSpec {
  import opened Bytes

  datatype Phase =
    | ChunkSize | ChunkExt | HeaderExpectLF
    | ChunkData | DataExpectCR | DataExpectLF
    | TrailerHead | TrailerMiddle

  datatype Machine = Machine(phase: Phase, left: nat, hex: nat)

  datatype Verdict = More | Finished | Malformed

  datatype Step = Step(m: Machine, out: seq<byte>, verdict: Verdict)

  const MAX_HEX_DIGITS := 16
  const OVERHEAD_LIMIT := 100 * 1024

  function DecodeHex(ch: byte): int {
    if 48 <= ch <= 57 then ch - 48
    else if 65 <= ch <= 70 then ch - 65 + 10
    else if 97 <= ch <= 102 then ch - 97 + 10
    else -1
  }

  predicate EndsSize(ch: byte) {
    ch == SP || ch == HT || ch == SEMICOLON || ch == LF || ch == CR
  }

  function StepExt(m: Machine, ch: byte): Step {
    if ch == CR then Step(m.(phase := HeaderExpectLF), [], More)
    else Step(m, [], if ch == LF then Malformed else More)
  }

  // One octet. A rejected octet is not consumed; the octet that finishes the body is.
  function StepByte(m: Machine, trailer: bool, ch: byte): Step {
    match m.phase
    case ChunkSize =>
      var v := DecodeHex(ch);
      if v == -1 then
        if m.hex == 0 || !EndsSize(ch) then Step(m, [], Malformed)
        else StepExt(m.(phase := ChunkExt, hex := 0), ch)
      else if m.hex == MAX_HEX_DIGITS then Step(m, [], Malformed)
      else Step(Machine(ChunkSize, m.left * 16 + v, m.hex + 1), [], More)
    case ChunkExt => StepExt(m, ch)
    case HeaderExpectLF =>
      if ch != LF then Step(m, [], Malformed)
      else if m.left != 0 then Step(m.(phase := ChunkData), [], More)
      else if trailer then Step(m.(phase := TrailerHead), [], More)
      else Step(m, [], Finished)
    case ChunkData =>
      if m.left <= 1 then Step(m.(phase := DataExpectCR, left := 0), [ch], More)
      else Step(m.(left := m.left - 1), [ch], More)
    case DataExpectCR =>
      if ch != CR then Step(m, [], Malformed) else Step(m.(phase := DataExpectLF), [], More)
    case DataExpectLF =>
      if ch != LF then Step(m, [], Malformed) else Step(m.(phase := ChunkSize), [], More)
    case TrailerHead =>
      if ch == CR then Step(m, [], More)
      else if ch == LF then Step(m, [], Finished)
      else Step(m.(phase := TrailerMiddle), [], More)
    case TrailerMiddle =>
      if ch == LF then Step(m.(phase := TrailerHead), [], More) else Step(m, [], More)
  }

  // `used` is how many octets were consumed: all of them unless the verdict says otherwise.
  datatype Run = Run(m: Machine, out: seq<byte>, verdict: Verdict, used: nat)

  // The run over the first `n` octets of `s`; it stops at the first verdict.
  function RunUpTo(m: Machine, trailer: bool, s: seq<byte>, n: nat): (r: Run)
    requires n <= |s|
    ensures r.used <= n
    ensures r.verdict == More ==> r.used == n
    ensures |r.out| <= r.used
  {
    if n == 0 then Run(m, [], More, 0)
    else
      var r := RunUpTo(m, trailer, s, n - 1);
      if r.verdict != More then r
      else
        var step := StepByte(r.m, trailer, s[n - 1]);
        Run(step.m, r.out + step.out, step.verdict, if step.verdict == Malformed then n - 1 else n)
  }

  function RunBytes(m: Machine, trailer: bool, s: seq<byte>): Run {
    RunUpTo(m, trailer, s, |s|)
  }

  lemma RunNone(m0: Machine, trailer: bool, s: seq<byte>)
    ensures RunUpTo(m0, trailer, s, 0) == Run(m0, [], More, 0)
  {}

  // How the run goes on over one more octet.
  lemma OneMore(m0: Machine, trailer: bool, s: seq<byte>, n: nat, m: Machine, acc: seq<byte>)
    requires n < |s| && RunUpTo(m0, trailer, s, n) == Run(m, acc, More, n)
    ensures var step := StepByte(m, trailer, s[n]);
      RunUpTo(m0, trailer, s, n + 1)
      == Run(step.m, if step.out == [] then acc else acc + step.out, step.verdict, if step.verdict == Malformed then n else n + 1)
  {
    assert acc + [] == acc;
  }

  // Nothing changes after a verdict.
  lemma {:induction false} RunSettled(m0: Machine, trailer: bool, s: seq<byte>, n: nat)
    requires n <= |s|
    requires RunUpTo(m0, trailer, s, n).verdict != More || n == |s|
    ensures RunBytes(m0, trailer, s) == RunUpTo(m0, trailer, s, n)
    decreases |s| - n
  {
    if n < |s| {
      assert RunUpTo(m0, trailer, s, n + 1) == RunUpTo(m0, trailer, s, n);
      RunSettled(m0, trailer, s, n + 1);
    }
  }

  function Pow16(n: nat): nat {
    if n == 0 then 1 else 16 * Pow16(n - 1)
  }

  // What every reachable machine satisfies. In particular a chunk size read so far is below
  // 16 to the number of digits seen, so the 64-bit accumulator never overflows.
  predicate Sound(m: Machine) {
    && m.hex <= MAX_HEX_DIGITS
    && m.left < TWO_TO_THE_64
    && (m.phase == ChunkSize ==> m.left < Pow16(m.hex))
    && (m.phase != ChunkSize ==> m.hex == 0)
    && (m.phase == ChunkData ==> m.left > 0)
    && (m.phase in {DataExpectCR, DataExpectLF, TrailerHead, TrailerMiddle} ==> m.left == 0)
  }

  lemma Pow16Bounds(n: nat)
    requires n <= MAX_HEX_DIGITS
    ensures 0 < Pow16(n) <= TWO_TO_THE_64
    ensures n < MAX_HEX_DIGITS ==> 16 * Pow16(n) == Pow16(n + 1) <= TWO_TO_THE_64
  {
    Pow16Monotone(n, 16);
    if n < MAX_HEX_DIGITS { Pow16Monotone(n + 1, 16); }
    assert Pow16(4) == 0x1_0000;
    assert Pow16(8) == 0x1_0000_0000;
    assert Pow16(12) == 0x1_0000_0000_0000;
    assert Pow16(16) == TWO_TO_THE_64;
  }

  lemma Pow16Monotone(a: nat, b: nat)
    requires a <= b
    ensures 0 < Pow16(a) <= Pow16(b)
    decreases b
  {
    if a < b { Pow16Monotone(a, b - 1); } else if a > 0 { Pow16Monotone(a - 1, b - 1); }
  }

  // The decoder between calls; `totalRead` and `totalOverhead` are 64-bit words.
  datatype Decoder = Decoder(m: Machine, trailer: bool, totalRead: nat, totalOverhead: nat)

  datatype CallResult = CallResult(ret: int, d: Decoder, out: seq<byte>, rest: seq<byte>)

  function Call(d: Decoder, s: seq<byte>): (c: CallResult)
    ensures c.ret >= -2 && (c.ret >= 0 ==> c.ret == |c.rest|)
  {
    var r := RunBytes(d.m, d.trailer, s);
    var rest := s[r.used..];
    var read := Wrap64(d.totalRead + |s|);
    match r.verdict
    case Finished => CallResult(|rest|, Decoder(r.m, d.trailer, read, d.totalOverhead), r.out, rest)
    case Malformed => CallResult(-1, Decoder(r.m, d.trailer, read, d.totalOverhead), r.out, rest)
    case More =>
      var overhead := Wrap64(d.totalOverhead + (|s| - |r.out|));
      CallResult(if TooMuchOverhead(read, overhead) then -1 else -2,
                 Decoder(r.m, d.trailer, read, overhead), r.out, rest)
  }

  predicate TooMuchOverhead(read: nat, overhead: nat) {
    overhead >= OVERHEAD_LIMIT && Wrap64(read - overhead) < read / 4
  }
}
