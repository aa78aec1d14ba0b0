/**
 The decoder finishes exactly on the spellings of chunked bodies, and refuses an octet exactly when no
 body goes on with it.
 */
module ChunkedExactly {
  import opened Bytes
  import opened ChunkedCoding
  import opened ChunkedSpec
  import opened ChunkedTheorems

  // What the octets read so far spell: whole chunks, and the parts of the one at hand, or of the trailer.
  datatype Story = Story(chunks: seq<Chunk>, size: seq<byte>, ext: seq<byte>, data: seq<byte>, lines: seq<seq<byte>>, line: seq<byte>) {
    function Header(): seq<byte> {
      EncodeHeader(size, ext)
    }
  }

  // The story leads from the start to machine `m`, over `s`, with `out` decoded.
  predicate Tells(y: Story, m: Machine, s: seq<byte>, out: seq<byte>) {
    && ValidChunks(y.chunks) && ValidExt(y.ext) && (m.phase != ChunkSize ==> m.hex == 0)
    && var front, data := EncodeChunks(y.chunks), JoinData(y.chunks);
      match m.phase
      case ChunkSize => s == front + y.size && Writes(y.size, m.left) && |y.size| == m.hex <= 16 && out == data
      case ChunkExt => s == front + (y.size + y.ext) && ValidSize(y.size, m.left) && y.ext != [] && out == data
      case HeaderExpectLF => s == front + (y.size + (y.ext + [CR])) && ValidSize(y.size, m.left) && out == data
      case ChunkData => s == front + (y.Header() + y.data) && ValidSize(y.size, |y.data| + m.left) && m.left > 0 && out == data + y.data
      case DataExpectCR => s == front + (y.Header() + y.data) && ValidSize(y.size, |y.data|) && y.data != [] && m.left == 0 && out == data + y.data
      case DataExpectLF => s == front + (y.Header() + (y.data + [CR])) && ValidSize(y.size, |y.data|) && y.data != [] && m.left == 0 && out == data + y.data
      case TrailerHead =>
        && s == front + y.Header() + (EncodeLines(y.lines) + y.line) && ValidSize(y.size, 0) && m.left == 0
        && ValidLines(y.lines) && AllCR(y.line) && out == data
      case TrailerMiddle =>
        && s == front + y.Header() + (EncodeLines(y.lines) + y.line) && ValidSize(y.size, 0) && m.left == 0
        && ValidLines(y.lines) && ValidLine(y.line) && out == data
  }

  lemma StoryBegins()
    ensures Tells(Story([], [], [], [], [], []), Machine(ChunkSize, 0, 0), [], [])
  {}

  lemma SizeGoesOn(y: Story, m: Machine, trailer: bool, s: seq<byte>, out: seq<byte>, ch: byte) returns (y': Story)
    requires Tells(y, m, s, out) && m.phase == ChunkSize && StepByte(m, trailer, ch).verdict == More
    ensures var step := StepByte(m, trailer, ch); Tells(y', step.m, s + [ch], out + step.out)
  {
    hide EncodeChunks, ValidChunks, JoinData, IsHex, DecodeHex;
    HexDigits(ch);
    var front := EncodeChunks(y.chunks);
    assert out + [] == out;
    if DecodeHex(ch) != -1 {
      OneMoreDigit(y.size, m.left, ch, DecodeHex(ch));
      y' := y.(size := y.size + [ch]);
      assert front + y.size + [ch] == front + (y.size + [ch]);
    } else if ch == CR {
      y' := y.(ext := []);
      assert front + y.size + [ch] == front + (y.size + ([] + [CR]));
    } else {
      y' := y.(ext := [ch]);
      assert front + y.size + [ch] == front + (y.size + [ch]);
    }
  }

  lemma ExtGoesOn(y: Story, m: Machine, trailer: bool, s: seq<byte>, out: seq<byte>, ch: byte) returns (y': Story)
    requires Tells(y, m, s, out) && m.phase == ChunkExt && StepByte(m, trailer, ch).verdict == More
    ensures var step := StepByte(m, trailer, ch); Tells(y', step.m, s + [ch], out + step.out)
  {
    hide EncodeChunks, ValidChunks, JoinData, ValidSize;
    var front := EncodeChunks(y.chunks);
    assert out + [] == out;
    assert front + (y.size + y.ext) + [ch] == front + (y.size + (y.ext + [ch]));
    y' := if ch == CR then y else y.(ext := y.ext + [ch]);
  }

  lemma HeaderGoesOn(y: Story, m: Machine, trailer: bool, s: seq<byte>, out: seq<byte>, ch: byte) returns (y': Story)
    requires Tells(y, m, s, out) && m.phase == HeaderExpectLF && StepByte(m, trailer, ch).verdict == More
    ensures var step := StepByte(m, trailer, ch); Tells(y', step.m, s + [ch], out + step.out)
  {
    hide EncodeChunks, ValidChunks, JoinData, ValidSize, ValidExt;
    var front, line := EncodeChunks(y.chunks), y.size + (y.ext + [CR]);
    assert out + [] == out;
    assert front + line + [ch] == front + (line + [LF]);
    y' := y.(data := [], lines := [], line := []);
    var header := line + [LF];
    assert header + [] == header && front + header + ([] + []) == front + header;
    assert EncodeLines([]) == [];
  }

  lemma DataGoesOn(y: Story, m: Machine, trailer: bool, s: seq<byte>, out: seq<byte>, ch: byte) returns (y': Story)
    requires Tells(y, m, s, out) && m.phase == ChunkData && StepByte(m, trailer, ch).verdict == More
    ensures var step := StepByte(m, trailer, ch); Tells(y', step.m, s + [ch], out + step.out)
  {
    hide EncodeChunks, ValidChunks, JoinData, ValidSize, ValidExt, EncodeHeader;
    var front, data := EncodeChunks(y.chunks), JoinData(y.chunks);
    y' := y.(data := y.data + [ch]);
    assert front + (y.Header() + y.data) + [ch] == front + (y.Header() + (y.data + [ch]));
    assert data + y.data + [ch] == data + (y.data + [ch]);
  }

  lemma DataLineGoesOn(y: Story, m: Machine, trailer: bool, s: seq<byte>, out: seq<byte>, ch: byte) returns (y': Story)
    requires Tells(y, m, s, out) && m.phase in {DataExpectCR, DataExpectLF} && StepByte(m, trailer, ch).verdict == More
    ensures var step := StepByte(m, trailer, ch); Tells(y', step.m, s + [ch], out + step.out)
  {
    hide EncodeChunks, ValidChunks, JoinData, ValidSize, ValidExt, EncodeHeader;
    var front, c := EncodeChunks(y.chunks), Chunk(y.size, y.ext, y.data);
    assert out + [] == out;
    if m.phase == DataExpectCR {
      y' := y;
      assert front + (y.Header() + y.data) + [ch] == front + (y.Header() + (y.data + [CR]));
    } else {
      y' := y.(chunks := y.chunks + [c], size := []);
      OneMoreChunk(y.chunks, c);
      assert y.data + [CR] + [LF] == y.data + CRLF;
      assert front + (y.Header() + (y.data + [CR])) + [ch] == front + (y.Header() + (y.data + [CR] + [LF])) + [];
    }
  }

  lemma TrailerGoesOn(y: Story, m: Machine, trailer: bool, s: seq<byte>, out: seq<byte>, ch: byte) returns (y': Story)
    requires Tells(y, m, s, out) && m.phase in {TrailerHead, TrailerMiddle} && StepByte(m, trailer, ch).verdict == More
    ensures var step := StepByte(m, trailer, ch); Tells(y', step.m, s + [ch], out + step.out)
  {
    hide EncodeChunks, ValidChunks, JoinData, ValidSize, ValidExt, EncodeHeader, EncodeLines, ValidLines;
    var front, lines := EncodeChunks(y.chunks) + y.Header(), EncodeLines(y.lines);
    assert out + [] == out;
    assert front + (lines + y.line) + [ch] == front + (lines + (y.line + [ch]));
    if m.phase == TrailerMiddle && ch == LF {
      OneMoreLine(y.lines, y.line);
      y' := y.(lines := y.lines + [y.line], line := []);
      assert lines + (y.line + [LF]) + [] == lines + (y.line + [LF]);
    } else {
      y' := y.(line := y.line + [ch]);
      var n := |y.line|;
      assert (y.line + [ch])[n] == ch && forall k :: 0 <= k < n ==> (y.line + [ch])[k] == y.line[k];
    }
  }

  lemma StoryGoesOn(y: Story, m: Machine, trailer: bool, s: seq<byte>, out: seq<byte>, ch: byte) returns (y': Story)
    requires Tells(y, m, s, out) && StepByte(m, trailer, ch).verdict == More
    ensures var step := StepByte(m, trailer, ch); Tells(y', step.m, s + [ch], out + step.out)
  {
    hide *;
    match m.phase
    case ChunkSize => y' := SizeGoesOn(y, m, trailer, s, out, ch);
    case ChunkExt => y' := ExtGoesOn(y, m, trailer, s, out, ch);
    case HeaderExpectLF => y' := HeaderGoesOn(y, m, trailer, s, out, ch);
    case ChunkData => y' := DataGoesOn(y, m, trailer, s, out, ch);
    case DataExpectCR => y' := DataLineGoesOn(y, m, trailer, s, out, ch);
    case DataExpectLF => y' := DataLineGoesOn(y, m, trailer, s, out, ch);
    case TrailerHead => y' := TrailerGoesOn(y, m, trailer, s, out, ch);
    case TrailerMiddle => y' := TrailerGoesOn(y, m, trailer, s, out, ch);
  }

  lemma {:induction false} StoryOf(trailer: bool, s: seq<byte>, n: nat) returns (y: Story)
    requires n <= |s| && RunUpTo(Machine(ChunkSize, 0, 0), trailer, s, n).verdict == More
    ensures var r := RunUpTo(Machine(ChunkSize, 0, 0), trailer, s, n); Tells(y, r.m, s[..n], r.out)
  {
    hide Tells, StepByte;
    if n == 0 {
      StoryBegins();
      y := Story([], [], [], [], [], []);
    } else {
      var before := RunUpTo(Machine(ChunkSize, 0, 0), trailer, s, n - 1);
      y := StoryOf(trailer, s, n - 1);
      y := StoryGoesOn(y, before.m, trailer, s[..n - 1], before.out, s[n - 1]);
      assert s[..n] == s[..n - 1] + [s[n - 1]];
    }
  }

  // The octet that finishes ends a body.
  lemma StoryEnds(y: Story, m: Machine, trailer: bool, s: seq<byte>, out: seq<byte>, ch: byte) returns (b: Body)
    requires Tells(y, m, s, out) && StepByte(m, trailer, ch).verdict == Finished
    requires trailer || m.phase == HeaderExpectLF
    ensures ValidBody(b) && EncodeBody(b, trailer) == s + [ch] && JoinData(b.chunks) == out + StepByte(m, trailer, ch).out
  {
    hide EncodeChunks, ValidChunks, JoinData, ValidSize, ValidExt, EncodeLines, ValidLines, AllCR;
    var front, header := EncodeChunks(y.chunks), y.Header();
    assert out + [] == out;
    if m.phase == HeaderExpectLF {
      b := Body(y.chunks, Chunk(y.size, y.ext, []), [], []);
      NoLines();
      assert front + (y.size + (y.ext + [CR])) + [LF] == front + ((y.size + (y.ext + [CR])) + [LF]);
    } else {
      b := Body(y.chunks, Chunk(y.size, y.ext, []), y.lines, y.line);
      assert front + header + (EncodeLines(y.lines) + y.line) + [LF] == front + header + (EncodeLines(y.lines) + (y.line + [LF]));
    }
  }

  lemma NoLines()
    ensures ValidLines([]) && AllCR([])
  {}

  // Without a trailer the machine never looks for one.
  lemma {:induction false} NoTrailer(s: seq<byte>, n: nat)
    requires n <= |s| && RunUpTo(Machine(ChunkSize, 0, 0), false, s, n).verdict == More
    ensures RunUpTo(Machine(ChunkSize, 0, 0), false, s, n).m.phase !in {TrailerHead, TrailerMiddle}
  {
    if n > 0 { NoTrailer(s, n - 1); }
  }

  // `s` begins with the spelling of a body, `n` octets long and with data `out`.
  predicate IsBodyOf(b: Body, trailer: bool, text: seq<byte>, out: seq<byte>) {
    ValidBody(b) && EncodeBody(b, trailer) == text && JoinData(b.chunks) == out
  }

  // The decoder finishes after `n` octets with `out` exactly if those octets spell a body with that data.
  lemma FinishesExactly(s: seq<byte>, trailer: bool, n: nat, out: seq<byte>)
    requires n <= |s|
    ensures var r := RunBytes(Machine(ChunkSize, 0, 0), trailer, s);
      r.verdict == Finished && r.used == n && r.out == out <==> exists b :: IsBodyOf(b, trailer, s[..n], out)
  {
    hide RunUpTo, ValidBody, EncodeBody, JoinData;
    var r := RunBytes(Machine(ChunkSize, 0, 0), trailer, s);
    if b :| IsBodyOf(b, trailer, s[..n], out) {
      RunBody(b, trailer, s[n..]);
      assert s[..n] + s[n..] == s;
    }
    if r.verdict == Finished && r.used == n && r.out == out {
      var b := BodyRead(s, trailer, |s|);
      assert IsBodyOf(b, trailer, s[..n], out);
    }
  }

  // The body that was read.
  lemma {:induction false} BodyRead(s: seq<byte>, trailer: bool, n: nat) returns (b: Body)
    requires n <= |s| && RunUpTo(Machine(ChunkSize, 0, 0), trailer, s, n).verdict == Finished
    ensures var r := RunUpTo(Machine(ChunkSize, 0, 0), trailer, s, n); IsBodyOf(b, trailer, s[..r.used], r.out)
  {
    hide StepByte, EncodeBody, JoinData, ValidBody, Tells;
    assert n > 0;
    var before := RunUpTo(Machine(ChunkSize, 0, 0), trailer, s, n - 1);
    if before.verdict == Finished {
      b := BodyRead(s, trailer, n - 1);
    } else {
      var y := StoryOf(trailer, s, n - 1);
      if !trailer { NoTrailer(s, n - 1); }
      FinishPhases(before.m, trailer, s[n - 1]);
      b := StoryEnds(y, before.m, trailer, s[..n - 1], before.out, s[n - 1]);
      assert s[..n] == s[..n - 1] + [s[n - 1]];
    }
  }

  lemma FinishPhases(m: Machine, trailer: bool, ch: byte)
    requires StepByte(m, trailer, ch).verdict == Finished
    ensures m.phase == HeaderExpectLF || m.phase == TrailerHead
  {}

  // ---------- refusal ----------

  // An octet that leads from `m` towards the end of a body.
  function Onward(m: Machine): byte {
    match m.phase
    case ChunkSize => if m.hex == 0 then 48 else CR
    case ChunkExt => CR
    case ChunkData => SP
    case DataExpectCR => CR
    case _ => LF
  }

  // How many such octets there are still to come.
  function Distance(m: Machine): nat {
    match m.phase
    case ChunkSize => if m.hex == 0 then 5 else if m.left == 0 then 4 else 11 + m.left
    case ChunkExt => if m.left == 0 then 3 else 10 + m.left
    case HeaderExpectLF => if m.left == 0 then 2 else 9 + m.left
    case ChunkData => 8 + m.left
    case DataExpectCR => 7
    case DataExpectLF => 6
    case TrailerHead => 0
    case TrailerMiddle => 1
  }

  lemma OnwardSteps(m: Machine, trailer: bool)
    requires Sound(m) && (trailer || m.phase !in {TrailerHead, TrailerMiddle})
    ensures var step := StepByte(m, trailer, Onward(m));
      && step.verdict != Malformed && (step.verdict == Finished ==> step.out == [])
      && (step.verdict == More ==> Distance(step.m) < Distance(m) && (trailer || step.m.phase !in {TrailerHead, TrailerMiddle}))
  {
    assert Pow16(0) == 1;
    hide Pow16;
  }

  // From every reachable machine some octets lead to the end of a body.
  lemma {:induction false} CanEnd(m: Machine, trailer: bool) returns (t: seq<byte>)
    requires Sound(m) && (trailer || m.phase !in {TrailerHead, TrailerMiddle})
    ensures RunBytes(m, trailer, t).verdict == Finished
    decreases Distance(m)
  {
    hide RunUpTo, StepByte, Sound, Distance;
    var step := StepByte(m, trailer, Onward(m));
    OnwardSteps(m, trailer);
    StepSound(m, trailer, Onward(m));
    if step.verdict == Finished {
      t := [Onward(m)];
      LastByte(m, trailer, t);
    } else {
      t := CanEnd(step.m, trailer);
      ReadsByte(m, trailer, Onward(m));
      RunJoin(m, trailer, [Onward(m)], t, |t|);
      t := [Onward(m)] + t;
    }
  }

  // `s` begins with the spelling of a body, or is the beginning of one.
  ghost predicate CanBecomeBody(s: seq<byte>, trailer: bool) {
    exists b :: ValidBody(b) && (EncodeBody(b, trailer) <= s || s <= EncodeBody(b, trailer))
  }

  lemma NotMalformedCanGoOn(s: seq<byte>, trailer: bool)
    requires RunBytes(Machine(ChunkSize, 0, 0), trailer, s).verdict != Malformed
    ensures CanBecomeBody(s, trailer)
  {
    hide RunUpTo, ValidBody, EncodeBody;
    var m0, r, t := Machine(ChunkSize, 0, 0), RunBytes(Machine(ChunkSize, 0, 0), trailer, s), [];
    if r.verdict == More {
      FreshIsSound();
      RunSound(m0, trailer, s, |s|);
      if !trailer { NoTrailer(s, |s|); }
      t := CanEnd(r.m, trailer);
    }
    RunJoin(m0, trailer, s, t, |t|);
    var b := BodyRead(s + t, trailer, |s + t|);
  }

  lemma FreshIsSound()
    ensures Sound(Machine(ChunkSize, 0, 0))
  {
    assert Pow16(0) == 1;
  }

  // The decoder refuses exactly what cannot become a body, and the octet at which it does is the first
  // with which that is so.
  lemma RefusesExactly(s: seq<byte>, trailer: bool)
    ensures var r := RunBytes(Machine(ChunkSize, 0, 0), trailer, s);
      && (r.verdict == Malformed <==> !CanBecomeBody(s, trailer))
      && (r.verdict == Malformed ==>
            r.used < |s| && CanBecomeBody(s[..r.used], trailer) && !CanBecomeBody(s[..r.used + 1], trailer))
  {
    hide RunUpTo, CanBecomeBody;
    var r := RunBytes(Machine(ChunkSize, 0, 0), trailer, s);
    if r.verdict == Malformed {
      StaysMalformed(s, trailer);
      RefusedAt(s, trailer, |s|);
      NotMalformedCanGoOn(s[..r.used], trailer);
      StaysMalformed(s[..r.used + 1], trailer);
    } else {
      NotMalformedCanGoOn(s, trailer);
    }
  }

  lemma NeverRefused(s: seq<byte>, trailer: bool, b: Body)
    requires ValidBody(b) && (EncodeBody(b, trailer) <= s || s <= EncodeBody(b, trailer))
    ensures RunBytes(Machine(ChunkSize, 0, 0), trailer, s).verdict != Malformed
  {
    hide RunUpTo, EncodeBody, ValidBody;
    var text := EncodeBody(b, trailer);
    if text <= s {
      RunBody(b, trailer, s[|text|..]);
      assert text + s[|text|..] == s;
    } else {
      RunBody(b, trailer, []);
      RunJoin(Machine(ChunkSize, 0, 0), trailer, s, text[|s|..], |text| - |s|);
      assert s + text[|s|..] == text == text + [];
    }
  }

  lemma StaysMalformed(s: seq<byte>, trailer: bool)
    requires RunBytes(Machine(ChunkSize, 0, 0), trailer, s).verdict == Malformed
    ensures !CanBecomeBody(s, trailer)
  {
    hide RunUpTo, EncodeBody, ValidBody;
    if CanBecomeBody(s, trailer) {
      var b :| ValidBody(b) && (EncodeBody(b, trailer) <= s || s <= EncodeBody(b, trailer));
      NeverRefused(s, trailer, b);
    }
  }

  // The octets before the refused one are fine; with it they are not.
  lemma {:induction false} RefusedAt(s: seq<byte>, trailer: bool, n: nat)
    requires n <= |s| && RunUpTo(Machine(ChunkSize, 0, 0), trailer, s, n).verdict == Malformed
    ensures var used := RunUpTo(Machine(ChunkSize, 0, 0), trailer, s, n).used;
      && used < n
      && RunBytes(Machine(ChunkSize, 0, 0), trailer, s[..used]).verdict == More
      && RunBytes(Machine(ChunkSize, 0, 0), trailer, s[..used + 1]).verdict == Malformed
  {
    hide StepByte;
    var m0 := Machine(ChunkSize, 0, 0);
    assert n > 0;
    var before := RunUpTo(m0, trailer, s, n - 1);
    if before.verdict == Malformed {
      RefusedAt(s, trailer, n - 1);
    } else {
      assert RunUpTo(m0, trailer, s, n).used == n - 1;
      RunOfPart(m0, trailer, s, n - 1);
      RunOfPart(m0, trailer, s, n);
      hide RunUpTo;
    }
  }

  lemma RunOfPart(m: Machine, trailer: bool, s: seq<byte>, n: nat)
    requires n <= |s|
    ensures RunBytes(m, trailer, s[..n]) == RunUpTo(m, trailer, s, n)
  {
    hide RunUpTo;
    RunPrefix(m, trailer, s[..n], s[n..], n);
    assert s[..n] + s[n..] == s;
  }

  // One call of a fresh decoder: it completes exactly if the octets begin with a body, of which it gives the
  // data, and leaves what follows; it asks for more exactly if they can become one and have not cost too much
  // so far; and otherwise it refuses.
  lemma CallExactly(s: seq<byte>, trailer: bool, n: nat, out: seq<byte>)
    requires n <= |s| < TWO_TO_THE_64
    ensures var c := Call(Decoder(Machine(ChunkSize, 0, 0), trailer, 0, 0), s);
      var costly := |s| - |c.out| >= 100 * 1024 && |c.out| < |s| / 4;
      && (c.ret == |s| - n && c.rest == s[n..] && c.out == out <==> exists b :: IsBodyOf(b, trailer, s[..n], out))
      && (c.ret == -2 <==> c.ret < 0 && CanBecomeBody(s, trailer) && !costly)
      && (c.ret == -2 ==> c.rest == []) && (c.ret < 0 ==> c.ret == -1 || c.ret == -2)
  {
    var m0 := Machine(ChunkSize, 0, 0);
    var r := RunBytes(m0, trailer, s);
    RefusesExactly(s, trailer);
    RefusedAtFirst(m0, trailer, s);
    Used(m0, trailer, s);
    FinishesExactly(s, trailer, n, out);
    hide RunBytes, IsBodyOf, CanBecomeBody, Wrap64, TooMuchOverhead;
    CallIs(Decoder(m0, trailer, 0, 0), s);
  }

  lemma CallIs(d: Decoder, s: seq<byte>)
    ensures var r, c := RunBytes(d.m, d.trailer, s), Call(d, s);
      && c.out == r.out && r.used <= |s| && c.rest == s[r.used..]
      && (c.ret >= 0 <==> r.verdict == Finished) && (r.verdict == Finished ==> c.ret == |c.rest|)
      && (c.ret == -2 <==> r.verdict == More && !RefusedAfter(d, s)) && (c.ret < 0 ==> c.ret == -1 || c.ret == -2)
  {}

  lemma Used(m: Machine, trailer: bool, s: seq<byte>)
    ensures var r := RunBytes(m, trailer, s);
      r.used <= |s| && |r.out| <= r.used && (r.verdict == More ==> r.used == |s|)
  {}
}
