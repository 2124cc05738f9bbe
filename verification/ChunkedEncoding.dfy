/** The encoder of section 7.1 of RFC 9112, and what the decoder makes of its output. */
module ChunkedEncoding {
  import opened Sequences
  import opened Utf8
  import opened ChunkedBody

  /** A chunk with the spelling of its size and its extensions. */
  datatype Chunk = Chunk(sizeText: string, ext: seq<byte>, data: seq<byte>)

  predicate CrlfFree(s: seq<byte>) {
    forall i :: 0 <= i < |s| - 1 ==> !(s[i] == CR && s[i + 1] == LF)
  }

  /** Optional blanks, then nothing or extensions introduced by a semicolon. */
  predicate ExtensionText(t: string) {
    t == "" || t[0] == ';' || ((t[0] == ' ' || t[0] == '\t') && ExtensionText(t[1..]))
  }

  predicate ValidExtension(ext: seq<byte>) {
    CrlfFree(ext) && Decode(ext).Some? && ExtensionText(Decode(ext).value)
  }

  /** Any spelling of n in hexadecimal digits, of either case and with leading zeros. */
  predicate Spells(t: string, n: nat) {
    t != "" && AllHex(t) && HexNumber(t) == n
  }

  predicate ValidChunk(c: Chunk) {
    c.data != [] && Spells(c.sizeText, |c.data|) && ValidExtension(c.ext)
  }

  lemma HexIsAscii(t: string)
    requires AllHex(t)
    ensures IsAscii(t)
  {
  }

  function SizeLine(t: string, ext: seq<byte>): seq<byte>
    requires AllHex(t)
  {
    HexIsAscii(t);
    Bytes(t) + ext
  }

  function EncodeChunk(c: Chunk): seq<byte>
    requires ValidChunk(c)
  {
    SizeLine(c.sizeText, c.ext) + CRLF + c.data + CRLF
  }

  function EncodeChunks(chunks: seq<Chunk>): seq<byte>
    requires forall c :: c in chunks ==> ValidChunk(c)
  {
    if chunks == [] then [] else EncodeChunk(chunks[0]) + EncodeChunks(chunks[1..])
  }

  function Payload(chunks: seq<Chunk>): seq<byte> {
    if chunks == [] then [] else chunks[0].data + Payload(chunks[1..])
  }

  /** The whole body: chunks, a last chunk of size zero, and whatever trailer follows its line. */
  function EncodeBody(chunks: seq<Chunk>, zeros: string, lastExt: seq<byte>, trailer: seq<byte>): seq<byte>
    requires forall c :: c in chunks ==> ValidChunk(c)
    requires AllHex(zeros)
  {
    EncodeChunks(chunks) + (SizeLine(zeros, lastExt) + CRLF + trailer)
  }

  // The size line is read back

  lemma {:induction false} FindsFirstCrlf(line: seq<byte>, rest: seq<byte>)
    requires CrlfFree(line)
    ensures FindCrlf(line + CRLF + rest) == Some(|line|)
  {
    var s := line + CRLF + rest;
    if line == [] {
      assert s[0] == CR && s[1] == LF;
    } else {
      assert s[1..] == line[1..] + CRLF + rest;
      assert s[1] == if |line| == 1 then CR else line[1];
      FindsFirstCrlf(line[1..], rest);
    }
  }

  lemma SizeLineIsCrlfFree(t: string, ext: seq<byte>)
    requires AllHex(t) && CrlfFree(ext)
    ensures CrlfFree(SizeLine(t, ext))
  {
    HexIsAscii(t);
    var line := SizeLine(t, ext);
    forall i | 0 <= i < |line| - 1 ensures !(line[i] == CR && line[i + 1] == LF) {
      if i < |t| {
        assert line[i] == t[i] as int && IsHexDigit(t[i]);
      } else {
        assert line[i] == ext[i - |t|] && line[i + 1] == ext[i + 1 - |t|];
      }
    }
  }

  predicate Blank(s: string) {
    forall i :: 0 <= i < |s| ==> s[i] == ' ' || s[i] == '\t'
  }

  lemma {:induction false} ExtensionIsCut(t: string, e: string)
    requires AllHex(t) && ExtensionText(e)
    ensures BeforeSemicolon(t + e) == t + BeforeSemicolon(e) && Blank(BeforeSemicolon(e))
  {
    if t != "" {
      assert IsHexDigit(t[0]);
      assert (t + e)[1..] == t[1..] + e;
      ExtensionIsCut(t[1..], e);
      assert t == [t[0]] + t[1..];
      assert [t[0]] + (t[1..] + BeforeSemicolon(e)) == ([t[0]] + t[1..]) + BeforeSemicolon(e);
    } else {
      assert t + e == e;
      assert t + BeforeSemicolon(e) == BeforeSemicolon(e);
      if e != "" && e[0] != ';' {
        ExtensionIsCut(t, e[1..]);
      }
    }
  }

  lemma {:induction false} BlanksAreTrimmed(t: string, blanks: string)
    requires t != "" && AllHex(t) && Blank(blanks)
    ensures TrimEnd(t + blanks) == t
  {
    var s := t + blanks;
    if blanks == "" {
      assert s == t && IsHexDigit(t[|t| - 1]);
    } else {
      assert s[|s| - 1] == blanks[|blanks| - 1];
      assert s[..|s| - 1] == t + blanks[..|blanks| - 1];
      BlanksAreTrimmed(t, blanks[..|blanks| - 1]);
    }
  }

  lemma SizeLineIsRead(t: string, ext: seq<byte>, n: nat)
    requires Spells(t, n) && ValidExtension(ext) && n <= USIZE_MAX
    ensures SizeOfLine(SizeLine(t, ext)) == Some(n)
  {
    HexIsAscii(t);
    AsciiPrefix(t, ext);
    var e := Decode(ext).value;
    var blanks := BeforeSemicolon(e);
    ExtensionIsCut(t, e);
    assert IsHexDigit(t[0]) && (t + blanks)[0] == t[0];
    assert TrimStart(t + blanks) == t + blanks;
    BlanksAreTrimmed(t, blanks);
  }

  // The decoder undoes the encoder

  lemma ChunkIsTaken(c: Chunk, rest: seq<byte>, offset: nat)
    requires ValidChunk(c) && offset + |EncodeChunk(c)| <= USIZE_MAX
    ensures NextTurn(EncodeChunk(c) + rest, offset) == Take(c.data, rest)
  {
    hide SizeOfLine, NextTurn, FindCrlf;
    var line := SizeLine(c.sizeText, c.ext);
    SizeLineIsCrlfFree(c.sizeText, c.ext);
    FindsFirstCrlf(line, c.data + CRLF + rest);
    SizeLineIsRead(c.sizeText, c.ext, |c.data|);
    assert |line| > 0 by { HexIsAscii(c.sizeText); }
    TurnOnChunk(line, c.data, rest, offset);
    assert EncodeChunk(c) + rest == line + CRLF + (c.data + CRLF + rest);
  }

  lemma TurnOnChunk(line: seq<byte>, data: seq<byte>, rest: seq<byte>, offset: nat)
    requires line != [] && data != [] && FindCrlf(line + CRLF + (data + CRLF + rest)) == Some(|line|)
    requires SizeOfLine(line) == Some(|data|) && offset + |line| + 2 + |data| <= USIZE_MAX
    ensures NextTurn(line + CRLF + (data + CRLF + rest), offset) == Take(data, rest)
  {
    hide SizeOfLine, FindCrlf;
    var s := line + CRLF + (data + CRLF + rest);
    assert s[..|line|] == line;
    assert s[|line| + 2..|line| + 2 + |data|] == data;
    assert s[|line| + 2 + |data|..] == CRLF + rest;
    assert (CRLF + rest)[2..] == rest;
  }

  lemma {:induction false} ChunksAreTaken(chunks: seq<Chunk>, rest: seq<byte>, offset: nat)
    requires forall c :: c in chunks ==> ValidChunk(c)
    requires offset + |EncodeChunks(chunks)| <= USIZE_MAX
    ensures ChunkData(EncodeChunks(chunks) + rest, offset) ==
            Prepend(Payload(chunks), ChunkData(rest, offset + |EncodeChunks(chunks)|))
  {
    hide NextTurn, ChunkData, EncodeChunk;
    if chunks == [] {
      assert EncodeChunks(chunks) + rest == rest;
      PrependNothing(ChunkData(rest, offset));
    } else {
      var c, tail := chunks[0], EncodeChunks(chunks[1..]) + rest;
      assert c in chunks;
      assert EncodeChunks(chunks) + rest == EncodeChunk(c) + tail;
      OneChunkMore(c, tail, offset);
      ChunksAreTaken(chunks[1..], rest, offset + |EncodeChunk(c)|);
      PrependTwice(c.data, Payload(chunks[1..]), ChunkData(rest, offset + |EncodeChunks(chunks)|));
    }
  }

  lemma PrependNothing(o: Outcome)
    ensures Prepend([], o) == o
  {
    if o.Decoded? {
      assert [] + o.data == o.data;
    }
  }

  lemma LastChunkStops(zeros: string, ext: seq<byte>, trailer: seq<byte>, offset: nat)
    requires Spells(zeros, 0) && ValidExtension(ext)
    ensures ChunkData(SizeLine(zeros, ext) + CRLF + trailer, offset) == Decoded([])
  {
    hide SizeOfLine;
    var line := SizeLine(zeros, ext);
    SizeLineIsCrlfFree(zeros, ext);
    FindsFirstCrlf(line, trailer);
    assert (line + CRLF + trailer)[..|line|] == line;
    SizeLineIsRead(zeros, ext, 0);
    assert |line| > 0 by { HexIsAscii(zeros); }
  }

  lemma PayloadIsNotEmpty(chunks: seq<Chunk>)
    requires chunks != [] && ValidChunk(chunks[0])
    ensures Payload(chunks) != []
  {
  }

  /** Decoding an encoded body gives exactly the data of its chunks, in order. */
  lemma DecoderUndoesEncoder(chunks: seq<Chunk>, zeros: string, lastExt: seq<byte>, trailer: seq<byte>)
    requires chunks != [] && forall c :: c in chunks ==> ValidChunk(c)
    requires Spells(zeros, 0) && ValidExtension(lastExt)
    requires |EncodeBody(chunks, zeros, lastExt, trailer)| <= ISIZE_MAX
    ensures DecodeResult(EncodeBody(chunks, zeros, lastExt, trailer)) == Decoded(Payload(chunks))
  {
    hide NextTurn;
    var last := SizeLine(zeros, lastExt) + CRLF + trailer;
    ChunksAreTaken(chunks, last, 0);
    LastChunkStops(zeros, lastExt, trailer, |EncodeChunks(chunks)|);
    assert Payload(chunks) + [] == Payload(chunks);
    assert chunks[0] in chunks;
    PayloadIsNotEmpty(chunks);
  }

  /** Without headers the body is recognised exactly when its first size line is short enough. */
  lemma RecognisedIffShortLine(c: Chunk, chunks: seq<Chunk>, rest: seq<byte>)
    requires ValidChunk(c) && forall d :: d in chunks ==> ValidChunk(d)
    requires |EncodeChunks([c] + chunks) + rest| <= ISIZE_MAX
    ensures LooksLikeChunked(EncodeChunks([c] + chunks) + rest) <==>
      |SizeLine(c.sizeText, c.ext)| <= FIRST_LINE_MAX
  {
    hide SizeOfLine, FindCrlf, SizeLine, EncodeChunks;
    FirstLineOf(c, chunks, rest);
  }

  /** What the decoder sees at the front of an encoded body. */
  lemma FirstLineOf(c: Chunk, chunks: seq<Chunk>, rest: seq<byte>)
    requires ValidChunk(c) && forall d :: d in chunks ==> ValidChunk(d)
    requires |EncodeChunks([c] + chunks) + rest| <= ISIZE_MAX
    ensures var body, line := EncodeChunks([c] + chunks) + rest, SizeLine(c.sizeText, c.ext);
      && |body| >= |line| + 2 + |c.data| && |line| > 0 && |c.data| > 0
      && FindCrlf(body) == Some(|line|) && body[..|line|] == line && SizeOfLine(line) == Some(|c.data|)
  {
    hide SizeOfLine, FindCrlf;
    var body := EncodeChunks([c] + chunks) + rest;
    var line := SizeLine(c.sizeText, c.ext);
    assert ([c] + chunks)[1..] == chunks;
    var after := c.data + CRLF + (EncodeChunks(chunks) + rest);
    assert body == line + CRLF + after;
    SizeLineIsCrlfFree(c.sizeText, c.ext);
    FindsFirstCrlf(line, after);
    SizeLineIsRead(c.sizeText, c.ext, |c.data|);
    assert |line| > 0 by { HexIsAscii(c.sizeText); }
  }

  /**
   * The gateway stores the payload of an encoded body exactly when a header announces the encoding or
   * the first size line is short enough; otherwise it stores the body with its chunk framing.
   */
  lemma PayloadIsStoredIff(hasDecodedLength: bool, hasAwsChunked: bool, chunks: seq<Chunk>, zeros: string,
                           lastExt: seq<byte>, trailer: seq<byte>)
    requires chunks != [] && ValidChunk(chunks[0]) && forall c :: c in chunks ==> ValidChunk(c)
    requires Spells(zeros, 0) && ValidExtension(lastExt)
    requires |EncodeBody(chunks, zeros, lastExt, trailer)| <= ISIZE_MAX
    ensures var body := EncodeBody(chunks, zeros, lastExt, trailer);
      var line := SizeLine(chunks[0].sizeText, chunks[0].ext);
      && (Stored(hasDecodedLength, hasAwsChunked, body) == Some(Payload(chunks)) <==>
            hasDecodedLength || hasAwsChunked || |line| <= FIRST_LINE_MAX)
      && (Stored(hasDecodedLength, hasAwsChunked, body) == Some(body) <==>
            !hasDecodedLength && !hasAwsChunked && |line| > FIRST_LINE_MAX)
  {
    hide SizeLine, ChunkData, LooksLikeChunked;
    var body := EncodeBody(chunks, zeros, lastExt, trailer);
    DecoderUndoesEncoder(chunks, zeros, lastExt, trailer);
    DataIsShorter(body, 0);
    var c, more := chunks[0], chunks[1..];
    assert c in chunks && [c] + more == chunks;
    RecognisedIffShortLine(c, more, SizeLine(zeros, lastExt) + CRLF + trailer);
    assert Payload(chunks) != [] by { PayloadIsNotEmpty(chunks); }
  }

  // Truncated bodies

  /** Where the k-th of the chunks ends, its line break included. */
  function EndOf(chunks: seq<Chunk>, k: nat): nat
    requires k <= |chunks| && forall c :: c in chunks ==> ValidChunk(c)
  {
    if k == 0 then 0 else |EncodeChunk(chunks[0])| + EndOf(chunks[1..], k - 1)
  }

  /** What is left of a body that breaks off after n bytes; `last` is the length of the last chunk's line. */
  function CutOutcome(chunks: seq<Chunk>, last: nat, n: nat): Outcome
    requires forall c :: c in chunks ==> ValidChunk(c)
    decreases |chunks|
  {
    if n == 0 then Decoded([])
    else if chunks == [] then (if n >= last then Decoded([]) else Rejected)
    else
      var whole := |EncodeChunk(chunks[0])|;
      if n >= whole then Prepend(chunks[0].data, CutOutcome(chunks[1..], last, n - whole))
      else if n == whole - 2 then Decoded(chunks[0].data)
      else Rejected
  }

  /** A size line that has not come to its end, not even after its CR, is no line at all. */
  lemma NoLineYet(line: seq<byte>, n: nat)
    requires CrlfFree(line) && n <= |line| + 1
    ensures FindCrlf((line + CRLF)[..n]) == None
  {
    var s := (line + CRLF)[..n];
    assert CrlfFree(s) by {
      forall i | 0 <= i < |s| - 1 ensures !(s[i] == CR && s[i + 1] == LF) {
        if i + 1 < |line| {
          assert s[i] == line[i] && s[i + 1] == line[i + 1];
        } else {
          assert s[i + 1] == CR;
        }
      }
    }
    CrlfFreeFindsNone(s);
  }

  lemma {:induction false} CrlfFreeFindsNone(s: seq<byte>)
    requires CrlfFree(s)
    ensures FindCrlf(s) == None
  {
    if |s| >= 2 {
      CrlfFreeFindsNone(s[1..]);
    }
  }

  lemma CutLineFails(t: string, ext: seq<byte>, n: nat, offset: nat)
    requires AllHex(t) && CrlfFree(ext) && 0 < n <= |SizeLine(t, ext)| + 1
    ensures ChunkData((SizeLine(t, ext) + CRLF)[..n], offset) == Rejected
  {
    SizeLineIsCrlfFree(t, ext);
    NoLineYet(SizeLine(t, ext), n);
  }

  lemma NothingUnread(offset: nat)
    ensures ChunkData([], offset) == Decoded([])
  {
  }

  /** A chunk that breaks off inside its data. */
  lemma CutDataFails(c: Chunk, k: nat, offset: nat)
    requires ValidChunk(c) && k < |c.data| && offset + |EncodeChunk(c)| <= ISIZE_MAX
    ensures ChunkData(SizeLine(c.sizeText, c.ext) + CRLF + c.data[..k], offset) == Rejected
  {
    hide SizeOfLine;
    var line := SizeLine(c.sizeText, c.ext);
    SizeLineIsCrlfFree(c.sizeText, c.ext);
    FindsFirstCrlf(line, c.data[..k]);
    assert (line + CRLF + c.data[..k])[..|line|] == line;
    SizeLineIsRead(c.sizeText, c.ext, |c.data|);
    assert |line| > 0 by { HexIsAscii(c.sizeText); }
  }

  /** A chunk whose data is complete, with nothing or a lone CR behind it. */
  lemma DataWithoutBreak(c: Chunk, rest: seq<byte>, offset: nat)
    requires ValidChunk(c) && (rest == [] || rest == [CR]) && offset + |EncodeChunk(c)| <= ISIZE_MAX
    ensures NextTurn(SizeLine(c.sizeText, c.ext) + CRLF + c.data + rest, offset) == Take(c.data, rest)
  {
    hide SizeOfLine, FindCrlf;
    var line := SizeLine(c.sizeText, c.ext);
    var s := line + CRLF + (c.data + rest);
    SizeLineIsCrlfFree(c.sizeText, c.ext);
    FindsFirstCrlf(line, c.data + rest);
    SizeLineIsRead(c.sizeText, c.ext, |c.data|);
    assert |line| > 0 by { HexIsAscii(c.sizeText); }
    assert s == SizeLine(c.sizeText, c.ext) + CRLF + c.data + rest;
    assert s[..|line|] == line;
    assert s[|line| + 2..|line| + 2 + |c.data|] == c.data;
    assert s[|line| + 2 + |c.data|..] == rest;
  }

  lemma LoneCrFails(offset: nat)
    ensures ChunkData([CR], offset) == Rejected
  {
  }

  /** The first chunk broken off after n of its bytes. */
  lemma CutChunk(c: Chunk, n: nat, offset: nat)
    requires ValidChunk(c) && 0 < n < |EncodeChunk(c)| && offset + |EncodeChunk(c)| <= ISIZE_MAX
    ensures ChunkData(EncodeChunk(c)[..n], offset) ==
      if n == |EncodeChunk(c)| - 2 then Decoded(c.data) else Rejected
  {
    hide SizeLine, NextTurn;
    var line, cut := SizeLine(c.sizeText, c.ext), EncodeChunk(c)[..n];
    var head := line + CRLF;
    if n <= |line| + 1 {
      assert cut == head[..n];
      CutLineFails(c.sizeText, c.ext, n, offset);
    } else if n < |head| + |c.data| {
      assert cut == head + c.data[..n - |head|];
      CutDataFails(c, n - |head|, offset);
    } else {
      var rest := if n == |EncodeChunk(c)| - 2 then [] else [CR];
      assert cut == head + c.data + rest;
      DataWithoutBreak(c, rest, offset);
      NothingUnread(offset + (|cut| - |rest|));
      LoneCrFails(offset + (|cut| - |rest|));
      assert c.data + [] == c.data;
    }
  }

  /** The last chunk, which has no data, broken off anywhere. */
  lemma CutLastChunk(zeros: string, ext: seq<byte>, trailer: seq<byte>, n: nat, offset: nat)
    requires Spells(zeros, 0) && ValidExtension(ext)
    requires n <= |SizeLine(zeros, ext) + CRLF + trailer|
    ensures ChunkData((SizeLine(zeros, ext) + CRLF + trailer)[..n], offset) ==
      CutOutcome([], |SizeLine(zeros, ext)| + 2, n)
  {
    hide SizeLine;
    var line := SizeLine(zeros, ext);
    var cut := (line + CRLF + trailer)[..n];
    if n == 0 {
      NothingUnread(offset);
    } else if n < |line| + 2 {
      assert cut == (line + CRLF)[..n];
      CutLineFails(zeros, ext, n, offset);
    } else {
      assert cut == line + CRLF + trailer[..n - |line| - 2];
      LastChunkStops(zeros, ext, trailer[..n - |line| - 2], offset);
    }
  }

  lemma {:induction false} CutBody(chunks: seq<Chunk>, zeros: string, lastExt: seq<byte>, trailer: seq<byte>,
                                   n: nat, offset: nat)
    requires forall c :: c in chunks ==> ValidChunk(c)
    requires Spells(zeros, 0) && ValidExtension(lastExt)
    requires n <= |EncodeBody(chunks, zeros, lastExt, trailer)|
    requires offset + |EncodeBody(chunks, zeros, lastExt, trailer)| <= ISIZE_MAX
    ensures ChunkData(EncodeBody(chunks, zeros, lastExt, trailer)[..n], offset) ==
      CutOutcome(chunks, |SizeLine(zeros, lastExt)| + 2, n)
  {
    hide SizeLine, NextTurn, ChunkData, EncodeChunk;
    var last := SizeLine(zeros, lastExt) + CRLF + trailer;
    var body := EncodeBody(chunks, zeros, lastExt, trailer);
    if chunks == [] {
      assert body == last;
      CutLastChunk(zeros, lastExt, trailer, n, offset);
    } else {
      var c, more := chunks[0], EncodeBody(chunks[1..], zeros, lastExt, trailer);
      assert c in chunks && body == EncodeChunk(c) + more;
      var whole := |EncodeChunk(c)|;
      if n == 0 {
        NothingUnread(offset);
        assert body[..n] == [];
      } else if n < whole {
        assert body[..n] == EncodeChunk(c)[..n];
        CutChunk(c, n, offset);
      } else {
        assert body[..n] == EncodeChunk(c) + more[..n - whole];
        OneChunkMore(c, more[..n - whole], offset);
        CutBody(chunks[1..], zeros, lastExt, trailer, n - whole, offset + whole);
      }
    }
  }

  lemma OneChunkMore(c: Chunk, rest: seq<byte>, offset: nat)
    requires ValidChunk(c) && offset + |EncodeChunk(c)| <= USIZE_MAX
    ensures ChunkData(EncodeChunk(c) + rest, offset) == Prepend(c.data, ChunkData(rest, offset + |EncodeChunk(c)|))
  {
    hide NextTurn;
    ChunkIsTaken(c, rest, offset);
  }

  /** The body breaks off behind the k-th chunk, with or without the line break that follows its data. */
  predicate EndsBehind(chunks: seq<Chunk>, n: nat, k: nat)
    requires k <= |chunks| && forall c :: c in chunks ==> ValidChunk(c)
  {
    n == EndOf(chunks, k) || (k > 0 && n + 2 == EndOf(chunks, k))
  }

  lemma ChunkIsLong(c: Chunk)
    requires ValidChunk(c)
    ensures |EncodeChunk(c)| >= 6
  {
    HexIsAscii(c.sizeText);
  }

  lemma EndOfMore(chunks: seq<Chunk>, k: nat)
    requires 0 < k <= |chunks| && forall c :: c in chunks ==> ValidChunk(c)
    ensures EndOf(chunks, k) == |EncodeChunk(chunks[0])| + EndOf(chunks[1..], k - 1)
    ensures Payload(chunks[..k]) == chunks[0].data + Payload(chunks[1..][..k - 1])
    ensures EndOf(chunks, k) >= 6
  {
    ChunkIsLong(chunks[0]);
    assert chunks[..k][1..] == chunks[1..][..k - 1];
  }

  lemma {:induction false} CutBehind(chunks: seq<Chunk>, last: nat, n: nat, k: nat)
    requires k <= |chunks| && (forall c :: c in chunks ==> ValidChunk(c)) && EndsBehind(chunks, n, k)
    ensures CutOutcome(chunks, last, n) == Decoded(Payload(chunks[..k]))
    decreases k
  {
    hide EncodeChunk, Payload, EndOf;
    StartOfAll(chunks);
    if k > 0 {
      var c, more := chunks[0], chunks[1..];
      ChunkIsLong(c);
      EndOfMore(chunks, k);
      StartOfAll(more);
      assert c.data + [] == c.data;
      if k > 1 {
        EndOfMore(more, k - 1);
      }
      if n >= |EncodeChunk(c)| {
        CutBehind(more, last, n - |EncodeChunk(c)|, k - 1);
      }
    }
  }

  lemma StartOfAll(chunks: seq<Chunk>)
    requires forall c :: c in chunks ==> ValidChunk(c)
    ensures EndOf(chunks, 0) == 0 && Payload(chunks[..0]) == []
  {
  }

  lemma {:induction false} CutPastEnd(chunks: seq<Chunk>, last: nat, n: nat)
    requires (forall c :: c in chunks ==> ValidChunk(c)) && n >= EndOf(chunks, |chunks|) + last
    ensures CutOutcome(chunks, last, n) == Decoded(Payload(chunks))
  {
    hide EncodeChunk;
    if chunks != [] {
      EndOfMore(chunks, |chunks|);
      CutPastEnd(chunks[1..], last, n - |EncodeChunk(chunks[0])|);
    }
  }

  lemma {:induction false} CutElsewhere(chunks: seq<Chunk>, last: nat, n: nat)
    requires (forall c :: c in chunks ==> ValidChunk(c)) && n < EndOf(chunks, |chunks|) + last
    requires forall k :: 0 <= k <= |chunks| ==> !EndsBehind(chunks, n, k)
    ensures CutOutcome(chunks, last, n) == Rejected
  {
    hide EncodeChunk;
    assert !EndsBehind(chunks, n, 0);
    if chunks != [] {
      var more, whole := chunks[1..], |EncodeChunk(chunks[0])|;
      EndOfMore(chunks, 1);
      EndOfMore(chunks, |chunks|);
      assert !EndsBehind(chunks, n, 1);
      if n >= whole {
        var left := n - whole;
        forall k | 0 <= k <= |more| ensures !EndsBehind(more, left, k) {
          EndOfMore(chunks, k + 1);
          assert !EndsBehind(chunks, n, k + 1);
        }
        CutElsewhere(more, last, left);
      }
    }
  }

  /** The body has no size zero line yet, and breaks off behind no chunk. */
  ghost predicate EndsInside(chunks: seq<Chunk>, lastLine: nat, n: nat)
    requires forall c :: c in chunks ==> ValidChunk(c)
  {
    n < EndOf(chunks, |chunks|) + lastLine && forall k :: 0 <= k <= |chunks| ==> !EndsBehind(chunks, n, k)
  }

  /**
   * What becomes of a body that breaks off after any number of bytes. With the whole size zero line it
   * is complete. Behind the k-th chunk's data, or the line break after it, the first k chunks pass as
   * the whole body; without any, and everywhere else, it is rejected.
   */
  lemma TruncatedBody(chunks: seq<Chunk>, zeros: string, lastExt: seq<byte>, trailer: seq<byte>, n: nat)
    requires chunks != [] && forall c :: c in chunks ==> ValidChunk(c)
    requires Spells(zeros, 0) && ValidExtension(lastExt)
    requires n <= |EncodeBody(chunks, zeros, lastExt, trailer)| <= ISIZE_MAX
    ensures var o := DecodeResult(EncodeBody(chunks, zeros, lastExt, trailer)[..n]);
      var line := |SizeLine(zeros, lastExt)| + 2;
      && (n >= EndOf(chunks, |chunks|) + line ==> o == Decoded(Payload(chunks)))
      && (forall k :: 0 < k <= |chunks| && EndsBehind(chunks, n, k) ==> o == Decoded(Payload(chunks[..k])))
      && (o == Rejected <==> n == 0 || EndsInside(chunks, line, n))
  {
    hide SizeLine, ChunkData, EncodeBody, CutOutcome, EndOf, EncodeChunk;
    var line := |SizeLine(zeros, lastExt)| + 2;
    CutBody(chunks, zeros, lastExt, trailer, n, 0);
    assert chunks[0] in chunks;
    forall k | 0 <= k <= |chunks| && EndsBehind(chunks, n, k)
      ensures CutOutcome(chunks, line, n) == Decoded(Payload(chunks[..k])) && (k > 0 ==> Payload(chunks[..k]) != [])
      ensures n == 0 ==> Payload(chunks[..k]) == []
    {
      CutBehind(chunks, line, n, k);
      if k > 0 {
        PayloadIsNotEmpty(chunks[..k]);
      }
      if n == 0 {
        NothingCut(chunks, line);
      }
    }
    if n >= EndOf(chunks, |chunks|) + line {
      CutPastEnd(chunks, line, n);
      PayloadIsNotEmpty(chunks);
      NothingCut(chunks, line);
    } else if EndsInside(chunks, line, n) {
      CutElsewhere(chunks, line, n);
    }
    if n == 0 {
      NothingCut(chunks, line);
    }
    FirstEnd(chunks, n);
  }

  lemma NothingCut(chunks: seq<Chunk>, last: nat)
    requires forall c :: c in chunks ==> ValidChunk(c)
    ensures CutOutcome(chunks, last, 0) == Decoded([])
  {
  }

  lemma FirstEnd(chunks: seq<Chunk>, n: nat)
    requires forall c :: c in chunks ==> ValidChunk(c)
    ensures EndsBehind(chunks, n, 0) <==> n == 0
  {
  }

  // Sizes beyond the address space

  /** A first size line that can be read, but whose data would end beyond usize, makes the decoder panic. */
  lemma SizeNearMaxOverflows(t: string, ext: seq<byte>, size: nat, rest: seq<byte>)
    requires Spells(t, size) && ValidExtension(ext)
    requires size <= USIZE_MAX < |SizeLine(t, ext)| + 2 + size
    requires |SizeLine(t, ext) + CRLF + rest| <= ISIZE_MAX
    ensures DecodeResult(SizeLine(t, ext) + CRLF + rest) == Overflow
  {
    hide SizeOfLine;
    var line := SizeLine(t, ext);
    SizeLineIsCrlfFree(t, ext);
    FindsFirstCrlf(line, rest);
    assert (line + CRLF + rest)[..|line|] == line;
    SizeLineIsRead(t, ext, size);
    assert |line| > 0 by { HexIsAscii(t); }
  }

  function Power16(n: nat): nat {
    if n == 0 then 1 else 16 * Power16(n - 1)
  }

  function Fs(n: nat): string {
    if n == 0 then "" else Fs(n - 1) + "F"
  }

  lemma {:induction false} FsSpell(n: nat)
    ensures AllHex(Fs(n)) && HexNumber(Fs(n)) + 1 == Power16(n) && |Fs(n)| == n
  {
    if n > 0 {
      FsSpell(n - 1);
      assert Fs(n)[..|Fs(n)| - 1] == Fs(n - 1);
    }
  }

  /** Sixteen digits F are such a size. */
  lemma SixteenFsOverflow(rest: seq<byte>)
    requires |rest| + 18 <= ISIZE_MAX
    ensures AllHex(Fs(16)) && DecodeResult(SizeLine(Fs(16), []) + CRLF + rest) == Overflow
  {
    FsSpell(16);
    PowerOf16();
    assert |SizeLine(Fs(16), [])| == 16 by { HexIsAscii(Fs(16)); }
    SizeNearMaxOverflows(Fs(16), [], USIZE_MAX, rest);
  }

  lemma PowerOf16()
    ensures Power16(16) == USIZE_MAX + 1
  {
    assert Power16(4) == 0x1_0000;
    assert Power16(8) == 0x1_0000_0000;
    assert Power16(12) == 0x1_0000_0000_0000;
  }
}
