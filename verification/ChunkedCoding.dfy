/**
 The chunked transfer coding as text (section 4.1 of RFC 7230), apart from any decoder: how a body is
 spelled, with what the source's decoder leaves open.
 */
module ChunkedCoding {
  import opened Bytes

  const LOWER := Ascii("0123456789abcdef")
  const UPPER := Ascii("0123456789ABCDEF")

  predicate IsHex(c: byte, v: nat) {
    v < 16 && (c == LOWER[v] || c == UPPER[v])
  }

  // The digits write `n`, the most significant first; zeros may lead, and either case will do.
  predicate Writes(digits: seq<byte>, n: nat) {
    if digits == [] then n == 0
    else IsHex(digits[|digits| - 1], n % 16) && Writes(digits[..|digits| - 1], n / 16)
  }

  // A size has as many digits as a 64-bit word.
  predicate ValidSize(digits: seq<byte>, n: nat) {
    1 <= |digits| <= 16 && Writes(digits, n)
  }

  predicate IsCleanLine(line: seq<byte>) {
    forall k :: 0 <= k < |line| ==> line[k] != CR && line[k] != LF
  }

  // What may stand behind a size, up to the line end.
  predicate ValidExt(ext: seq<byte>) {
    (ext != [] ==> ext[0] in {SP, HT, SEMICOLON}) && IsCleanLine(ext)
  }

  datatype Chunk = Chunk(size: seq<byte>, ext: seq<byte>, data: seq<byte>)

  predicate ValidChunk(c: Chunk) {
    c.data != [] && ValidSize(c.size, |c.data|) && ValidExt(c.ext)
  }

  predicate ValidChunks(chunks: seq<Chunk>) {
    forall k :: 0 <= k < |chunks| ==> ValidChunk(chunks[k])
  }

  predicate AllCR(line: seq<byte>) {
    forall k :: 0 <= k < |line| ==> line[k] == CR
  }

  // A trailer line without the LF that ends it; a CR in front of that is part of the line.
  predicate ValidLine(line: seq<byte>) {
    LF !in line && !AllCR(line)
  }

  predicate ValidLines(lines: seq<seq<byte>>) {
    forall k :: 0 <= k < |lines| ==> ValidLine(lines[k])
  }

  // The trailer ends at a line with nothing but CRs.
  datatype Body = Body(chunks: seq<Chunk>, last: Chunk, lines: seq<seq<byte>>, blank: seq<byte>)

  predicate ValidBody(b: Body) {
    ValidChunks(b.chunks) && ValidSize(b.last.size, 0) && ValidExt(b.last.ext) && ValidLines(b.lines) && AllCR(b.blank)
  }

  function EncodeHeader(size: seq<byte>, ext: seq<byte>): seq<byte> {
    size + (ext + [CR]) + [LF]
  }

  function EncodeChunk(c: Chunk): seq<byte> {
    EncodeHeader(c.size, c.ext) + (c.data + CRLF)
  }

  function EncodeChunks(chunks: seq<Chunk>): seq<byte> {
    if chunks == [] then [] else EncodeChunks(chunks[..|chunks| - 1]) + EncodeChunk(chunks[|chunks| - 1])
  }

  function EncodeLines(lines: seq<seq<byte>>): seq<byte> {
    if lines == [] then [] else EncodeLines(lines[..|lines| - 1]) + (lines[|lines| - 1] + [LF])
  }

  function EncodeChunked(b: Body): seq<byte> {
    EncodeChunks(b.chunks) + EncodeHeader(b.last.size, b.last.ext)
  }

  // With the trailer or up to where it begins.
  function EncodeBody(b: Body, trailer: bool): seq<byte> {
    if trailer then EncodeChunked(b) + (EncodeLines(b.lines) + (b.blank + [LF])) else EncodeChunked(b)
  }

  function JoinData(chunks: seq<Chunk>): seq<byte> {
    if chunks == [] then [] else JoinData(chunks[..|chunks| - 1]) + chunks[|chunks| - 1].data
  }

  lemma OneMoreChunk(chunks: seq<Chunk>, c: Chunk)
    ensures EncodeChunks(chunks + [c]) == EncodeChunks(chunks) + EncodeChunk(c)
    ensures JoinData(chunks + [c]) == JoinData(chunks) + c.data
    ensures ValidChunks(chunks) && ValidChunk(c) ==> ValidChunks(chunks + [c])
  {
    assert (chunks + [c])[..|chunks|] == chunks;
  }

  lemma OneMoreLine(lines: seq<seq<byte>>, line: seq<byte>)
    ensures EncodeLines(lines + [line]) == EncodeLines(lines) + (line + [LF])
    ensures ValidLines(lines) && ValidLine(line) ==> ValidLines(lines + [line])
  {
    assert (lines + [line])[..|lines|] == lines;
  }

  lemma OneMoreDigit(digits: seq<byte>, n: nat, c: byte, v: nat)
    requires IsHex(c, v)
    ensures Writes(digits + [c], 16 * n + v) <==> Writes(digits, n)
  {
    assert (digits + [c])[..|digits|] == digits;
    assert (16 * n + v) % 16 == v && (16 * n + v) / 16 == n;
  }
}
