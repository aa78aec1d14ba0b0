/**
 What the decoder promises: the cutting of the input does not matter, the totals balance, and
 decoding undoes the chunked transfer coding.
 */
module ChunkedTheorems {
  import opened Bytes
  import opened ChunkedCoding
  import opened ChunkedSpec

  // ---------- runs over joined input ----------

  lemma {:induction false} RunPrefix(m: Machine, trailer: bool, s: seq<byte>, t: seq<byte>, n: nat)
    requires n <= |s|
    ensures RunUpTo(m, trailer, s + t, n) == RunUpTo(m, trailer, s, n)
  {
    if n > 0 {
      RunPrefix(m, trailer, s, t, n - 1);
      assert (s + t)[n - 1] == s[n - 1];
    }
  }

  // The run of `r`, gone on by the run `q`.
  function Then(r: Run, q: Run): Run {
    if r.verdict != More then r else Run(q.m, r.out + q.out, q.verdict, r.used + q.used)
  }

  lemma {:induction false} RunJoin(m: Machine, trailer: bool, s: seq<byte>, t: seq<byte>, k: nat)
    requires k <= |t|
    ensures var r := RunBytes(m, trailer, s);
      RunUpTo(m, trailer, s + t, |s| + k) == Then(r, RunUpTo(r.m, trailer, t, k))
  {
    var r := RunBytes(m, trailer, s);
    if k == 0 {
      RunPrefix(m, trailer, s, t, |s|);
      assert r.out + [] == r.out;
    } else {
      RunJoin(m, trailer, s, t, k - 1);
      assert (s + t)[|s| + k - 1] == t[k - 1];
      var q := RunUpTo(r.m, trailer, t, k - 1);
      var step := StepByte(q.m, trailer, t[k - 1]);
      assert r.out + q.out + step.out == r.out + (q.out + step.out);
    }
  }

  // ---------- soundness of every reachable machine ----------

  lemma StepSound(m: Machine, trailer: bool, ch: byte)
    requires Sound(m)
    ensures Sound(StepByte(m, trailer, ch).m)
  {
    assert Pow16(0) == 1;
    hide Pow16;
    if m.phase == ChunkSize {
      var v := DecodeHex(ch);
      if v == -1 { ExtSound(m, ch); } else if m.hex < MAX_HEX_DIGITS { DigitSound(m, v); }
    }
  }

  lemma DigitSound(m: Machine, v: int)
    requires Sound(m) && m.phase == ChunkSize && m.hex < MAX_HEX_DIGITS && 0 <= v < 16
    ensures m.left * 16 + v < TWO_TO_THE_64 && Sound(Machine(ChunkSize, m.left * 16 + v, m.hex + 1))
  {
    Pow16Bounds(m.hex);
    hide Pow16;
  }

  lemma ExtSound(m: Machine, ch: byte)
    requires Sound(m)
    ensures Sound(StepExt(m.(phase := ChunkExt, hex := 0), ch).m)
  {}

  lemma {:induction false} RunSound(m: Machine, trailer: bool, s: seq<byte>, n: nat)
    requires Sound(m) && n <= |s|
    ensures Sound(RunUpTo(m, trailer, s, n).m)
  {
    if n > 0 {
      RunSound(m, trailer, s, n - 1);
      StepSound(RunUpTo(m, trailer, s, n - 1).m, trailer, s[n - 1]);
    }
  }

  // ---------- successive calls ----------

  // The caller's loop: feed pieces until a call returns something other than -2. `rest` is all
  // the input that was not decoded.
  function Feed(d: Decoder, pieces: seq<seq<byte>>): (f: CallResult)
    requires pieces != []
    ensures f.ret >= -2
    decreases |pieces|
  {
    var c := Call(d, pieces[0]);
    if c.ret != -2 then c.(rest := c.rest + Concat(pieces[1..]))
    else if |pieces| == 1 then c
    else
      var f := Feed(c.d, pieces[1..]);
      f.(out := c.out + f.out)
  }

  // Two calls against one call on the joined input.
  lemma CallJoin(d: Decoder, s: seq<byte>, t: seq<byte>)
    requires Call(d, s).ret == -2
    ensures var c, w := Call(d, s), Call(d, s + t);
      var c' := Call(c.d, t);
      && w.d.m == c'.d.m && w.d.trailer == c'.d.trailer && w.out == c.out + c'.out && w.rest == c'.rest
      && w.d.totalRead == c'.d.totalRead
      && (RunBytes(c.d.m, d.trailer, t).verdict == More ==> w == c'.(out := w.out))
      && (RunBytes(c.d.m, d.trailer, t).verdict != More ==> w.ret == c'.ret && w.d.totalOverhead == d.totalOverhead)
  {
    hide RunUpTo, Wrap64;
    RunJoin(d.m, d.trailer, s, t, |t|);
    var r := RunBytes(d.m, d.trailer, s);
    var q := RunBytes(r.m, d.trailer, t);
    assert RunBytes(d.m, d.trailer, s + t) == Then(r, q);
    assert (s + t)[|s| + q.used..] == t[q.used..];
    WrapTwice(d.totalRead + |s|, |t|);
    WrapTwice(d.totalOverhead + (|s| - |r.out|), |t| - |q.out|);
  }

  // A call that ends the decoding leaves what follows alone.
  lemma CallEnded(d: Decoder, s: seq<byte>, t: seq<byte>)
    requires RunBytes(d.m, d.trailer, s).verdict != More
    ensures var c, w := Call(d, s), Call(d, s + t);
      && w.d.m == c.d.m && w.out == c.out && w.rest == c.rest + t
      && w.ret == (if c.ret == -1 then -1 else |w.rest|)
      && w.d.totalOverhead == d.totalOverhead
  {
    hide RunUpTo;
    RunJoin(d.m, d.trailer, s, t, |t|);
    var r := RunBytes(d.m, d.trailer, s);
    assert RunBytes(d.m, d.trailer, s + t) == r;
    assert (s + t)[r.used..] == s[r.used..] + t;
  }

  // However the input is cut, as long as no call fails the decoder ends as after one call on the
  // whole: same machine, same decoded octets, same leftover, and, while the body goes on, the
  // same totals.
  lemma {:induction false} FragmentationInvariance(d: Decoder, pieces: seq<seq<byte>>)
    requires pieces != [] && Feed(d, pieces).ret != -1
    ensures var f, w := Feed(d, pieces), Call(d, Concat(pieces));
      && w.d.m == f.d.m && w.out == f.out && w.rest == f.rest
      && (w.ret == -2 <==> f.ret == -2)
      && (f.ret == -2 ==> w == f)
      && (f.ret != -2 ==> w.ret == |f.rest|)
    decreases |pieces|
  {
    hide RunUpTo;
    var c := Call(d, pieces[0]);
    if |pieces| == 1 {
      assert Concat(pieces) == pieces[0] by { assert pieces[0] + [] == pieces[0]; }
      assert c.rest + [] == c.rest;
    } else if c.ret != -2 {
      CallEnded(d, pieces[0], Concat(pieces[1..]));
    } else {
      FragmentationInvariance(c.d, pieces[1..]);
      CallJoin(d, pieces[0], Concat(pieces[1..]));
    }
  }

  // Two calls of which the second completes: octets spent on the coding count as overhead only in
  // calls that end with -2.
  lemma CompletedInTwo(d: Decoder, s: seq<byte>, t: seq<byte>)
    requires d.totalOverhead < TWO_TO_THE_64 && Call(d, s).ret == -2 && Call(Call(d, s).d, t).ret >= 0
    ensures var c, w := Call(d, s), Call(d, s + t);
      var c' := Call(c.d, t);
      && w.d.totalRead == c'.d.totalRead
      && c'.d.totalOverhead == Wrap64(d.totalOverhead + (|s| - |c.out|))
      && w.d.totalOverhead == d.totalOverhead
      && (w.d == c'.d <==> (|s| - |c.out|) % TWO_TO_THE_64 == 0)
  {
    hide RunUpTo;
    CallJoin(d, s, t);
  }

  // Everything read was decoded exactly if nothing was read, or only octets of the chunk at hand.
  lemma {:induction false} AllDecoded(m: Machine, trailer: bool, s: seq<byte>, n: nat)
    requires Sound(m) && n <= |s| && RunUpTo(m, trailer, s, n).verdict == More
    ensures var r := RunUpTo(m, trailer, s, n);
      && (|r.out| == n <==> n == 0 || (m.phase == ChunkData && n <= m.left))
      && (n > 0 && |r.out| == n && n < m.left ==> r.m == m.(left := m.left - n))
      && (n > 0 && |r.out| == n && n == m.left ==> r.m.phase == DataExpectCR)
  {
    if n > 0 { AllDecoded(m, trailer, s, n - 1); }
  }

  // The totals of a completed body do depend on the cutting. Against one call on the whole they agree
  // exactly when the calls before the last were given nothing, or nothing beyond the chunk at hand.
  lemma {:induction false} CompletedTotals(d: Decoder, pieces: seq<seq<byte>>, t: seq<byte>)
    requires Sound(d.m) && d.totalOverhead < TWO_TO_THE_64 && pieces != [] && |Concat(pieces)| < TWO_TO_THE_64
    requires Feed(d, pieces).ret == -2 && Call(Feed(d, pieces).d, t).ret >= 0
    ensures var s := Concat(pieces);
      Call(Feed(d, pieces).d, t).d == Call(d, s + t).d <==> s == [] || (d.m.phase == ChunkData && |s| <= d.m.left)
  {
    hide RunUpTo, Concat, Feed;
    var s := Concat(pieces);
    FragmentationInvariance(d, pieces);
    CompletedInTwo(d, s, t);
    AllDecoded(d.m, d.trailer, s, |s|);
  }

  // Every octet read in calls that go on is either decoded or overhead.
  lemma {:induction false} TotalsBalance(d: Decoder, pieces: seq<seq<byte>>)
    requires pieces != [] && Feed(d, pieces).ret == -2
    ensures var f := Feed(d, pieces);
      Wrap64(f.d.totalRead - f.d.totalOverhead) == Wrap64(d.totalRead - d.totalOverhead + |f.out|)
    decreases |pieces|
  {
    hide Call, Wrap64;
    CallBalance(d, pieces[0]);
    var c := Call(d, pieces[0]);
    if |pieces| > 1 {
      TotalsBalance(c.d, pieces[1..]);
      WrapAlike(c.d.totalRead - c.d.totalOverhead, d.totalRead - d.totalOverhead + |c.out|, |Feed(c.d, pieces[1..]).out|);
    }
  }

  lemma CallBalance(d: Decoder, s: seq<byte>)
    requires Call(d, s).ret == -2
    ensures var c := Call(d, s);
      Wrap64(c.d.totalRead - c.d.totalOverhead) == Wrap64(d.totalRead - d.totalOverhead + |c.out|)
  {
    hide RunBytes, Wrap64, TooMuchOverhead;
    var c := Call(d, s);
    WrapDifference(d.totalRead + |s|, d.totalOverhead + (|s| - |c.out|));
  }

  lemma WrapDifference(a: int, b: int)
    ensures Wrap64(Wrap64(a) - Wrap64(b)) == Wrap64(a - b)
  {}

  lemma WrapAlike(a: int, b: int, n: int)
    requires Wrap64(a) == Wrap64(b)
    ensures Wrap64(a + n) == Wrap64(b + n)
  {}

  // A well-formed stream fails in no call while its overhead stays below the limit.
  lemma {:induction false} FeedBelowLimit(d: Decoder, pieces: seq<seq<byte>>)
    requires pieces != []
    requires var w := RunBytes(d.m, d.trailer, Concat(pieces));
      w.verdict != Malformed && d.totalOverhead + (w.used - |w.out|) < 100 * 1024
    ensures Feed(d, pieces).ret != -1
    decreases |pieces|
  {
    hide RunUpTo;
    var c := Call(d, pieces[0]);
    var rest := Concat(pieces[1..]);
    RunJoin(d.m, d.trailer, pieces[0], rest, |rest|);
    if |pieces| > 1 && c.ret == -2 { FeedBelowLimit(c.d, pieces[1..]); }
  }

  // After a call at the end of `s` the decoder refuses a body that goes on: too much overhead so far.
  predicate RefusedAfter(d: Decoder, s: seq<byte>) {
    var r := RunBytes(d.m, d.trailer, s);
    r.verdict == More && TooMuchOverhead(Wrap64(d.totalRead + |s|), Wrap64(d.totalOverhead + (|s| - |r.out|)))
  }

  // For a decoder that has read nothing: 100 KiB of overhead, and less than a quarter of the octets decoded.
  lemma RefusedAtFirst(m: Machine, trailer: bool, s: seq<byte>)
    requires |s| < TWO_TO_THE_64
    ensures var r := RunBytes(m, trailer, s);
      RefusedAfter(Decoder(m, trailer, 0, 0), s) <==> r.verdict == More && |s| - |r.out| >= 100 * 1024 && |r.out| < |s| / 4
  {
    hide RunUpTo;
    var n := |RunBytes(m, trailer, s).out|;
    assert n <= |s|;
    WrapSmall(|s|);
    WrapSmall(|s| - n);
    WrapSmall(n);
    hide RunBytes, Wrap64;
  }

  lemma WrapSmall(x: nat)
    requires x < TWO_TO_THE_64
    ensures Wrap64(x) == x
  {}

  lemma RefusedLater(d: Decoder, s: seq<byte>, t: seq<byte>)
    requires RunBytes(d.m, d.trailer, s).verdict == More
    ensures RefusedAfter(Call(d, s).d, t) <==> RefusedAfter(d, s + t)
  {
    hide RunUpTo, Wrap64, TooMuchOverhead;
    RunJoin(d.m, d.trailer, s, t, |t|);
    var r := RunBytes(d.m, d.trailer, s);
    var q := RunBytes(r.m, d.trailer, t);
    assert RunBytes(d.m, d.trailer, s + t) == Then(r, q);
    WrapTwice(d.totalRead + |s|, |t|);
    WrapTwice(d.totalOverhead + (|s| - |r.out|), |t| - |q.out|);
  }

  lemma NotRefusedWhenDone(d: Decoder, s: seq<byte>, t: seq<byte>)
    requires RunBytes(d.m, d.trailer, s).verdict != More
    ensures !RefusedAfter(d, s + t)
  {
    hide RunUpTo;
    RunJoin(d.m, d.trailer, s, t, |t|);
  }

  lemma PrefixOfPieces(pieces: seq<seq<byte>>, k: nat)
    requires 1 <= k <= |pieces|
    ensures Concat(pieces[..k]) == pieces[0] + Concat(pieces[1..][..k - 1])
  {
    assert pieces[..k][1..] == pieces[1..][..k - 1];
  }

  // A stream with no malformed octet, in whatever pieces, is refused exactly if at the end of one of
  // them the body goes on with too much overhead so far.
  lemma {:induction false} RefusedExactly(d: Decoder, pieces: seq<seq<byte>>)
    requires pieces != [] && RunBytes(d.m, d.trailer, Concat(pieces)).verdict != Malformed
    ensures Feed(d, pieces).ret == -1 <==> exists k :: 1 <= k <= |pieces| && RefusedAfter(d, Concat(pieces[..k]))
    decreases |pieces|
  {
    hide RunUpTo, RefusedAfter, TooMuchOverhead;
    var s, rest := pieces[0], Concat(pieces[1..]);
    var c := Call(d, s);
    FirstPiece(d, s, rest);
    PrefixOfPieces(pieces, 1);
    assert Concat(pieces[..1]) == s by { assert s + [] == s; }
    if RunBytes(d.m, d.trailer, s).verdict != More {
      forall k | 1 <= k <= |pieces| ensures !RefusedAfter(d, Concat(pieces[..k])) {
        PrefixOfPieces(pieces, k);
        NotRefusedWhenDone(d, s, Concat(pieces[1..][..k - 1]));
      }
    } else if c.ret == -2 && |pieces| > 1 {
      RefusedExactly(c.d, pieces[1..]);
      forall k | 1 < k <= |pieces|
        ensures RefusedAfter(d, Concat(pieces[..k])) <==> RefusedAfter(c.d, Concat(pieces[1..][..k - 1]))
      {
        PrefixOfPieces(pieces, k);
        RefusedLater(d, s, Concat(pieces[1..][..k - 1]));
      }
      if Feed(d, pieces).ret == -1 {
        var j :| 1 <= j <= |pieces| - 1 && RefusedAfter(c.d, Concat(pieces[1..][..j]));
        assert RefusedAfter(d, Concat(pieces[..j + 1]));
      }
    }
  }

  // The first call on a stream with no malformed octet.
  lemma FirstPiece(d: Decoder, s: seq<byte>, rest: seq<byte>)
    requires RunBytes(d.m, d.trailer, s + rest).verdict != Malformed
    ensures var r, c := RunBytes(d.m, d.trailer, s), Call(d, s);
      && r.verdict != Malformed && (c.ret == -1 <==> RefusedAfter(d, s))
      && (r.verdict == More ==> c.ret < 0 && RunBytes(c.d.m, c.d.trailer, rest).verdict != Malformed)
      && (r.verdict == Finished ==> c.ret >= 0)
  {
    hide RunUpTo;
    RunJoin(d.m, d.trailer, s, rest, |rest|);
  }

  // ---------- decoding the encoding ----------

  // A digit counts as what it stands for, and nothing else is one.
  lemma HexDigits(c: byte)
    ensures forall v: nat :: IsHex(c, v) <==> DecodeHex(c) == v
    ensures DecodeHex(c) >= -1 && (DecodeHex(c) == -1 <==> c !in LOWER && c !in UPPER)
  {
    forall v: nat ensures IsHex(c, v) <==> DecodeHex(c) == v { HexDigit(c, v); }
    if DecodeHex(c) != -1 { HexDigit(c, DecodeHex(c)); }
    if c in LOWER {
      var v :| 0 <= v < 16 && LOWER[v] == c;
      HexDigit(c, v);
    }
    if c in UPPER {
      var v :| 0 <= v < 16 && UPPER[v] == c;
      HexDigit(c, v);
    }
    hide LOWER, UPPER;
  }

  lemma HexDigit(c: byte, v: nat)
    ensures IsHex(c, v) <==> DecodeHex(c) == v
    ensures DecodeHex(c) == v ==> v < 16 && (c == LOWER[v] || c == UPPER[v])
    ensures DecodeHex(c) >= -1
  {
    if v < 16 {
      assert LOWER[v] == if v < 10 then 48 + v else 87 + v;
      assert UPPER[v] == if v < 10 then 48 + v else 55 + v;
    }
  }

  predicate Reads(m: Machine, trailer: bool, s: seq<byte>, m': Machine, out: seq<byte>) {
    RunBytes(m, trailer, s) == Run(m', out, More, |s|)
  }

  lemma ReadsThen(m: Machine, trailer: bool, s: seq<byte>, m1: Machine, o1: seq<byte>, t: seq<byte>, m2: Machine, o2: seq<byte>)
    requires Reads(m, trailer, s, m1, o1) && Reads(m1, trailer, t, m2, o2)
    ensures Reads(m, trailer, s + t, m2, if o1 == [] then o2 else if o2 == [] then o1 else o1 + o2)
  {
    hide RunUpTo;
    RunJoin(m, trailer, s, t, |t|);
    assert o1 + [] == o1 && [] + o2 == o2;
  }

  lemma ReadsByte(m: Machine, trailer: bool, ch: byte)
    requires StepByte(m, trailer, ch).verdict == More
    ensures Reads(m, trailer, [ch], StepByte(m, trailer, ch).m, StepByte(m, trailer, ch).out)
  {
    assert RunUpTo(m, trailer, [ch], 0) == Run(m, [], More, 0);
    assert [] + StepByte(m, trailer, ch).out == StepByte(m, trailer, ch).out;
  }

  lemma RunEmpty(m: Machine, trailer: bool)
    ensures Reads(m, trailer, [], m, [])
  {}

  lemma {:induction false} ReadsSize(digits: seq<byte>, n: nat, trailer: bool)
    requires |digits| <= 16 && Writes(digits, n)
    ensures Reads(Machine(ChunkSize, 0, 0), trailer, digits, Machine(ChunkSize, n, |digits|), [])
  {
    hide RunUpTo, DecodeHex, IsHex;
    var m0 := Machine(ChunkSize, 0, 0);
    if digits == [] {
      RunEmpty(m0, trailer);
    } else {
      var front, c := digits[..|digits| - 1], digits[|digits| - 1];
      ReadsSize(front, n / 16, trailer);
      HexDigits(c);
      var m := Machine(ChunkSize, n / 16, |front|);
      ReadsByte(m, trailer, c);
      ReadsThen(m0, trailer, front, m, [], [c], Machine(ChunkSize, n, |digits|), []);
      assert front + [c] == digits;
    }
  }

  lemma {:induction false} ReadsExt(m: Machine, trailer: bool, ext: seq<byte>, n: nat)
    requires n <= |ext| && ValidExt(ext) && m.phase == ChunkSize && m.hex > 0
    ensures RunUpTo(m, trailer, ext, n) == Run(if n == 0 then m else m.(phase := ChunkExt, hex := 0), [], More, n)
  {
    if n > 0 {
      ReadsExt(m, trailer, ext, n - 1);
      HexDigits(ext[0]);
    }
  }

  lemma ReadsHeader(size: seq<byte>, ext: seq<byte>, n: nat, trailer: bool)
    requires ValidSize(size, n) && ValidExt(ext)
    ensures var m := Machine(HeaderExpectLF, n, 0);
      Reads(Machine(ChunkSize, 0, 0), trailer, size + (ext + [CR]), m, [])
    ensures n != 0 ==> Reads(Machine(ChunkSize, 0, 0), trailer, EncodeHeader(size, ext), Machine(ChunkData, n, 0), [])
    ensures n == 0 && trailer ==> Reads(Machine(ChunkSize, 0, 0), trailer, EncodeHeader(size, ext), Machine(TrailerHead, 0, 0), [])
  {
    hide RunUpTo;
    var m0, m1 := Machine(ChunkSize, 0, 0), Machine(ChunkSize, n, |size|);
    var m2 := if ext == [] then m1 else Machine(ChunkExt, n, 0);
    var m3 := Machine(HeaderExpectLF, n, 0);
    ReadsSize(size, n, trailer);
    ReadsExt(m1, trailer, ext, |ext|);
    ReadsByte(m2, trailer, CR);
    ReadsThen(m1, trailer, ext, m2, [], [CR], m3, []);
    ReadsThen(m0, trailer, size, m1, [], ext + [CR], m3, []);
    if n != 0 || trailer {
      ReadsByte(m3, trailer, LF);
      ReadsThen(m0, trailer, size + (ext + [CR]), m3, [], [LF], StepByte(m3, trailer, LF).m, []);
    }
  }

  lemma {:induction false} ReadsData(data: seq<byte>, left: nat, n: nat, trailer: bool)
    requires n <= |data| <= left && 0 < left
    ensures RunUpTo(Machine(ChunkData, left, 0), trailer, data, n)
      == Run(if n == left then Machine(DataExpectCR, 0, 0) else Machine(ChunkData, left - n, 0), data[..n], More, n)
  {
    if n > 0 {
      ReadsData(data, left, n - 1, trailer);
      assert data[..n] == data[..n - 1] + [data[n - 1]];
    }
  }

  // Data of the announced length and the line end behind it.
  lemma ReadsDataLine(data: seq<byte>, trailer: bool)
    requires data != []
    ensures Reads(Machine(ChunkData, |data|, 0), trailer, data + CRLF, Machine(ChunkSize, 0, 0), data)
  {
    hide RunUpTo;
    var m0, n := Machine(ChunkSize, 0, 0), |data|;
    ReadsData(data, n, n, trailer);
    assert data[..n] == data;
    ReadsByte(Machine(DataExpectCR, 0, 0), trailer, CR);
    ReadsByte(Machine(DataExpectLF, 0, 0), trailer, LF);
    ReadsThen(Machine(DataExpectCR, 0, 0), trailer, [CR], Machine(DataExpectLF, 0, 0), [], [LF], m0, []);
    ReadsThen(Machine(ChunkData, n, 0), trailer, data, Machine(DataExpectCR, 0, 0), data, [CR] + [LF], m0, []);
    assert CRLF == [CR] + [LF];
  }

  lemma ReadsChunk(c: Chunk, trailer: bool)
    requires ValidChunk(c)
    ensures Reads(Machine(ChunkSize, 0, 0), trailer, EncodeChunk(c), Machine(ChunkSize, 0, 0), c.data)
  {
    hide RunUpTo;
    var m0, n := Machine(ChunkSize, 0, 0), |c.data|;
    ReadsHeader(c.size, c.ext, n, trailer);
    ReadsDataLine(c.data, trailer);
    ReadsThen(m0, trailer, EncodeHeader(c.size, c.ext), Machine(ChunkData, n, 0), [], c.data + CRLF, m0, c.data);
  }

  lemma {:induction false} ReadsChunks(chunks: seq<Chunk>, trailer: bool)
    requires ValidChunks(chunks)
    ensures Reads(Machine(ChunkSize, 0, 0), trailer, EncodeChunks(chunks), Machine(ChunkSize, 0, 0), JoinData(chunks))
  {
    hide RunUpTo, EncodeChunk, ValidChunk;
    var m0 := Machine(ChunkSize, 0, 0);
    if chunks == [] {
      RunEmpty(m0, trailer);
    } else {
      var front, c := chunks[..|chunks| - 1], chunks[|chunks| - 1];
      ReadsChunks(front, trailer);
      ReadsChunk(c, trailer);
      ReadsThen(m0, trailer, EncodeChunks(front), m0, JoinData(front), EncodeChunk(c), m0, c.data);
      assert JoinData(front) + [] == JoinData(front) && [] + c.data == c.data;
    }
  }

  // A line of the trailer, up to its `n`th octet.
  lemma {:induction false} ReadsLine(line: seq<byte>, n: nat)
    requires LF !in line && n <= |line|
    ensures RunUpTo(Machine(TrailerHead, 0, 0), true, line, n)
      == Run(Machine(if AllCR(line[..n]) then TrailerHead else TrailerMiddle, 0, 0), [], More, n)
  {
    if n > 0 {
      ReadsLine(line, n - 1);
      assert line[..n] == line[..n - 1] + [line[n - 1]] && line[n - 1] in line;
      assert AllCR(line[..n]) <==> AllCR(line[..n - 1]) && line[n - 1] == CR;
    }
  }

  lemma {:induction false} ReadsLines(lines: seq<seq<byte>>)
    requires ValidLines(lines)
    ensures Reads(Machine(TrailerHead, 0, 0), true, EncodeLines(lines), Machine(TrailerHead, 0, 0), [])
  {
    hide RunUpTo, AllCR;
    var head, middle := Machine(TrailerHead, 0, 0), Machine(TrailerMiddle, 0, 0);
    if lines == [] {
      RunEmpty(head, true);
    } else {
      var front, line := lines[..|lines| - 1], lines[|lines| - 1];
      ReadsLines(front);
      ReadsLine(line, |line|);
      assert line[..|line|] == line;
      ReadsByte(middle, true, LF);
      ReadsThen(head, true, line, middle, [], [LF], head, []);
      ReadsThen(head, true, EncodeLines(front), head, [], line + [LF], head, []);
    }
  }

  // The last octet of a body finishes it.
  lemma LastByte(m: Machine, trailer: bool, t: seq<byte>)
    requires t != [] && StepByte(m, trailer, t[0]).verdict == Finished && StepByte(m, trailer, t[0]).out == []
    ensures RunBytes(m, trailer, t) == Run(StepByte(m, trailer, t[0]).m, [], Finished, 1)
  {
    assert RunUpTo(m, trailer, t, 0) == Run(m, [], More, 0);
    assert RunUpTo(m, trailer, t, 1) == Run(StepByte(m, trailer, t[0]).m, [], Finished, 1);
    RunSettled(m, trailer, t, 1);
  }

  // All of a body but the last octet, which is a LF.
  lemma ReadsAllButLF(b: Body, trailer: bool) returns (before: seq<byte>, m: Machine)
    requires ValidBody(b)
    ensures EncodeBody(b, trailer) == before + [LF]
    ensures Reads(Machine(ChunkSize, 0, 0), trailer, before, m, JoinData(b.chunks))
    ensures m == if trailer then Machine(TrailerHead, 0, 0) else Machine(HeaderExpectLF, 0, 0)
  {
    hide RunUpTo, ValidChunks, ValidExt, ValidSize, AllCR;
    var m0, head, chunks, data := Machine(ChunkSize, 0, 0), Machine(TrailerHead, 0, 0), EncodeChunks(b.chunks), JoinData(b.chunks);
    var size := b.last.size + (b.last.ext + [CR]);
    ReadsChunks(b.chunks, trailer);
    ReadsHeader(b.last.size, b.last.ext, 0, trailer);
    if trailer {
      var front := chunks + EncodeHeader(b.last.size, b.last.ext);
      ReadsThen(m0, true, chunks, m0, data, EncodeHeader(b.last.size, b.last.ext), head, []);
      ReadsLines(b.lines);
      ReadsThen(m0, true, front, head, data, EncodeLines(b.lines), head, []);
      CRsOnly(b.blank);
      ReadsLine(b.blank, |b.blank|);
      assert b.blank[..|b.blank|] == b.blank;
      ReadsThen(m0, true, front + EncodeLines(b.lines), head, data, b.blank, head, []);
      before, m := front + EncodeLines(b.lines) + b.blank, head;
    } else {
      m := Machine(HeaderExpectLF, 0, 0);
      ReadsThen(m0, false, chunks, m0, data, size, m, []);
      before := chunks + size;
    }
  }

  lemma CRsOnly(line: seq<byte>)
    requires AllCR(line)
    ensures LF !in line
  {}

  // The run over an encoded body and whatever comes after it.
  lemma RunBody(b: Body, trailer: bool, suffix: seq<byte>)
    requires ValidBody(b)
    ensures var body := EncodeBody(b, trailer);
      RunBytes(Machine(ChunkSize, 0, 0), trailer, body + suffix)
      == Run(Machine(if trailer then TrailerHead else HeaderExpectLF, 0, 0), JoinData(b.chunks), Finished, |body|)
  {
    hide RunUpTo, EncodeBody, JoinData, ValidBody;
    var m0 := Machine(ChunkSize, 0, 0);
    var before, m := ReadsAllButLF(b, trailer);
    LastByte(m, trailer, [LF] + suffix);
    RunJoin(m0, trailer, before, [LF] + suffix, |suffix| + 1);
    assert before + [LF] + suffix == before + ([LF] + suffix);
    assert JoinData(b.chunks) + [] == JoinData(b.chunks);
  }

  // A fresh decoder, given an encoded body and any suffix in one buffer, yields the joined data, leaves
  // exactly the suffix and returns its length.
  lemma RoundTrip(b: Body, trailer: bool, suffix: seq<byte>)
    requires ValidBody(b)
    ensures var c := Call(Decoder(Machine(ChunkSize, 0, 0), trailer, 0, 0), EncodeBody(b, trailer) + suffix);
      c.ret == |suffix| && c.out == JoinData(b.chunks) && c.rest == suffix
  {
    hide RunUpTo, ValidBody, EncodeBody, JoinData;
    RunBody(b, trailer, suffix);
    var body := EncodeBody(b, trailer);
    assert (body + suffix)[|body|..] == suffix;
  }

  // The totals of a completed body are where cutting shows: a body cut right after its first size
  // line leaves that line's length as overhead, where one call leaves none.
  lemma CompletedTotalsDiffer(b: Body, trailer: bool, t: seq<byte>)
    requires ValidBody(b) && b.chunks != []
    requires var s := EncodeHeader(b.chunks[0].size, b.chunks[0].ext);
      |s| < 100 * 1024 && s + t == EncodeBody(b, trailer)
    ensures var d, s := Decoder(Machine(ChunkSize, 0, 0), trailer, 0, 0), EncodeHeader(b.chunks[0].size, b.chunks[0].ext);
      && Call(d, s).ret == -2 && Call(Call(d, s).d, t).ret >= 0 && s != []
      && Call(Call(d, s).d, t).d.totalOverhead == |s| && Call(d, s + t).d.totalOverhead == 0
  {
    assert ValidChunk(b.chunks[0]);
    hide *;
    var d, s := Decoder(Machine(ChunkSize, 0, 0), trailer, 0, 0), EncodeHeader(b.chunks[0].size, b.chunks[0].ext);
    SizeLineCalled(b.chunks[0], trailer);
    assert s + t == EncodeBody(b, trailer) + [];
    RoundTrip(b, trailer, []);
    SecondCompletes(d, s, t);
    CompletedInTwo(d, s, t);
    WrapSmall(|s|);
  }

  lemma SecondCompletes(d: Decoder, s: seq<byte>, t: seq<byte>)
    requires Call(d, s).ret == -2 && Call(d, s + t).ret >= 0
    ensures Call(Call(d, s).d, t).ret >= 0
  {
    hide *;
    CallJoin(d, s, t);
    NotCompleted(d, s);
    NotCompleted(Call(d, s).d, t);
  }

  lemma SizeLineCalled(c: Chunk, trailer: bool)
    requires ValidChunk(c) && |EncodeHeader(c.size, c.ext)| < 100 * 1024
    ensures var s := EncodeHeader(c.size, c.ext);
      var r := Call(Decoder(Machine(ChunkSize, 0, 0), trailer, 0, 0), s);
      r.ret == -2 && r.out == [] && s != []
  {
    hide RunUpTo, ValidSize, ValidExt;
    ReadsHeader(c.size, c.ext, |c.data|, trailer);
  }

  lemma NotCompleted(d: Decoder, t: seq<byte>)
    ensures Call(d, t).ret == -2 ==> RunBytes(d.m, d.trailer, t).verdict == More
    ensures Call(d, t).ret >= 0 ==> RunBytes(d.m, d.trailer, t).verdict == Finished
    ensures Call(d, t).d.trailer == d.trailer
  {}

  function OneOctetChunks(n: nat, x: byte): seq<Chunk> {
    if n == 0 then [] else OneOctetChunks(n - 1, x) + [Chunk(Ascii("1"), [], [x])]
  }

  lemma OneIsOne(x: byte)
    ensures ValidChunk(Chunk(Ascii("1"), [], [x])) && |EncodeChunk(Chunk(Ascii("1"), [], [x]))| == 6
  {
    assert LOWER[1] == 49 && Ascii("1")[0] == 49 && IsHex(49, 1);
    assert Ascii("1")[..0] == [] && Writes([], 0);
    assert Writes(Ascii("1"), 1);
  }

  lemma {:induction false} OneOctetSizes(n: nat, x: byte)
    ensures var chunks := OneOctetChunks(n, x);
      ValidChunks(chunks) && |EncodeChunks(chunks)| == 6 * n && |JoinData(chunks)| == n
  {
    hide ValidChunk, EncodeChunk;
    if n > 0 {
      OneOctetSizes(n - 1, x);
      OneIsOne(x);
      OneMoreChunk(OneOctetChunks(n - 1, x), Chunk(Ascii("1"), [], [x]));
    }
  }

  // Bodies of many one-octet chunks are accepted in one call, and refused if a call ends before the
  // last chunk: six octets for one are more than the decoder puts up with.
  lemma {:induction false} ManySmallChunks(n: nat, x: byte, end: Body, trailer: bool)
    requires 100 * 1024 <= 5 * n && 6 * n < TWO_TO_THE_64 && ValidBody(end) && end.chunks == []
    ensures var b := end.(chunks := OneOctetChunks(n, x));
      var d, front, tail := Decoder(Machine(ChunkSize, 0, 0), trailer, 0, 0), EncodeChunks(b.chunks), EncodeBody(end, trailer);
      && ValidBody(b) && front + tail == EncodeBody(b, trailer)
      && Call(d, front + tail).ret == 0 && Feed(d, [front, tail]).ret == -1
  {
    assert n > 4;
    hide *;
    var b := end.(chunks := OneOctetChunks(n, x));
    SmallBody(n, x, end, trailer);
    SmallChunksRefused(b.chunks, trailer);
    FirstCallFails(Decoder(Machine(ChunkSize, 0, 0), trailer, 0, 0), EncodeChunks(b.chunks), EncodeBody(end, trailer));
    RoundTrip(b, trailer, []);
    assert EncodeBody(b, trailer) + [] == EncodeBody(b, trailer);
  }

  lemma FirstCallFails(d: Decoder, front: seq<byte>, tail: seq<byte>)
    requires Call(d, front).ret == -1
    ensures Feed(d, [front, tail]).ret == -1
  {
    hide Call;
  }

  lemma SmallBody(n: nat, x: byte, end: Body, trailer: bool)
    requires ValidBody(end) && end.chunks == []
    ensures var b := end.(chunks := OneOctetChunks(n, x));
      && ValidBody(b) && ValidChunks(b.chunks) && |EncodeChunks(b.chunks)| == 6 * n && |JoinData(b.chunks)| == n
      && EncodeChunks(b.chunks) + EncodeBody(end, trailer) == EncodeBody(b, trailer)
  {
    OneOctetSizes(n, x);
    var b := end.(chunks := OneOctetChunks(n, x));
    assert EncodeChunks([]) == [];
    hide OneOctetChunks, EncodeChunks, JoinData, EncodeLines, EncodeHeader, ValidChunks, ValidSize, ValidExt, ValidLines, AllCR;
    var front, head := EncodeChunks(b.chunks), EncodeHeader(end.last.size, end.last.ext);
    assert [] + head == head;
    assert front + head + (EncodeLines(end.lines) + (end.blank + [LF])) == front + (head + (EncodeLines(end.lines) + (end.blank + [LF])));
  }

  lemma SmallChunksRefused(chunks: seq<Chunk>, trailer: bool)
    requires ValidChunks(chunks)
    requires var s, data := EncodeChunks(chunks), JoinData(chunks);
      |s| < TWO_TO_THE_64 && |s| - |data| >= 100 * 1024 && |data| < |s| / 4
    ensures Call(Decoder(Machine(ChunkSize, 0, 0), trailer, 0, 0), EncodeChunks(chunks)).ret == -1
  {
    hide RunUpTo, EncodeChunks, JoinData, ValidChunk;
    ReadsChunks(chunks, trailer);
    RefusedAtFirst(Machine(ChunkSize, 0, 0), trailer, EncodeChunks(chunks));
  }

  // So does any sequence of calls on pieces of it, while the coding takes less than 100 KiB.
  lemma RoundTripInPieces(b: Body, trailer: bool, suffix: seq<byte>, pieces: seq<seq<byte>>)
    requires ValidBody(b)
    requires pieces != [] && Concat(pieces) == EncodeBody(b, trailer) + suffix
    requires |EncodeBody(b, trailer)| - |JoinData(b.chunks)| < 100 * 1024
    ensures var f := Feed(Decoder(Machine(ChunkSize, 0, 0), trailer, 0, 0), pieces);
      f.ret >= 0 && f.out == JoinData(b.chunks) && f.rest == suffix
  {
    hide RunUpTo, Feed, EncodeBody, JoinData, Concat, ValidBody;
    var d := Decoder(Machine(ChunkSize, 0, 0), trailer, 0, 0);
    RunBody(b, trailer, suffix);
    FeedBelowLimit(d, pieces);
    FragmentationInvariance(d, pieces);
    RoundTrip(b, trailer, suffix);
  }
}
