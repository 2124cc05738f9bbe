/** Recognising and decoding chunked request bodies (section 7.1 of RFC 9112, and aws-chunked). */
module ChunkedBody {
  import opened Sequences
  import opened Utf8

  const CR: byte := 13
  const LF: byte := 10
  const CRLF: seq<byte> := [CR, LF]
  const USIZE_MAX := 0xFFFF_FFFF_FFFF_FFFF
  const ISIZE_MAX := 0x7FFF_FFFF_FFFF_FFFF
  const FIRST_LINE_MAX := 100

  /** Rejected is None; Overflow is the index arithmetic leaving usize, which panics. */
  datatype Outcome = Decoded(data: seq<byte>) | Rejected | Overflow

  /** Where the first CR LF pair stands. */
  function FindCrlf(s: seq<byte>): (r: Option<nat>)
    ensures r.Some? ==> r.value + 2 <= |s| && s[r.value] == CR && s[r.value + 1] == LF
  {
    if |s| < 2 then None
    else if s[0] == CR && s[1] == LF then Some(0)
    else
      var r := FindCrlf(s[1..]);
      if r.None? then None else Some(r.value + 1)
  }

  function BeforeSemicolon(line: string): string {
    if line == "" || line[0] == ';' then "" else [line[0]] + BeforeSemicolon(line[1..])
  }

  /** Unicode White_Space, which str::trim strips. */
  predicate IsWhitespace(c: char) {
    var n := c as int;
    || 9 <= n <= 13 || n == 0x20 || n == 0x85 || n == 0xA0 || n == 0x1680 || 0x2000 <= n <= 0x200A
    || n == 0x2028 || n == 0x2029 || n == 0x202F || n == 0x205F || n == 0x3000
  }

  function TrimStart(s: string): string {
    if s != "" && IsWhitespace(s[0]) then TrimStart(s[1..]) else s
  }

  function TrimEnd(s: string): string {
    if s != "" && IsWhitespace(s[|s| - 1]) then TrimEnd(s[..|s| - 1]) else s
  }

  predicate IsHexDigit(c: char) {
    '0' <= c <= '9' || 'a' <= c <= 'f' || 'A' <= c <= 'F'
  }

  function HexDigit(c: char): nat
    requires IsHexDigit(c)
  {
    if c <= '9' then c as int - '0' as int
    else if c <= 'F' then c as int - 'A' as int + 10
    else c as int - 'a' as int + 10
  }

  predicate AllHex(s: string) {
    forall i :: 0 <= i < |s| ==> IsHexDigit(s[i])
  }

  function HexNumber(s: string): nat
    requires AllHex(s)
  {
    if s == "" then 0 else HexNumber(s[..|s| - 1]) * 16 + HexDigit(s[|s| - 1])
  }

  /** usize::from_str_radix(s, 16): one leading plus sign is allowed, overflow is an error. */
  function ParseHex(s: string): Option<nat> {
    var digits := if |s| > 1 && s[0] == '+' then s[1..] else s;
    if digits != "" && AllHex(digits) && HexNumber(digits) <= USIZE_MAX then Some(HexNumber(digits)) else None
  }

  /** The size a chunk's first line states. */
  function SizeOfLine(line: seq<byte>): Option<nat> {
    var text := Decode(line);
    if text.None? then None else ParseHex(TrimEnd(TrimStart(BeforeSemicolon(text.value))))
  }

  function SkipCrlf(s: seq<byte>): (r: seq<byte>)
    ensures |r| <= |s|
  {
    if |s| >= 2 && s[0] == CR && s[1] == LF then s[2..] else s
  }

  /** What one turn of the loop makes of the unread part: stop, fail, or take a chunk's data and go on. */
  datatype Turn = Stop | Fail | TooLarge | Take(data: seq<byte>, rest: seq<byte>)

  function NextTurn(unread: seq<byte>, offset: nat): (t: Turn)
    ensures t.Take? ==> |t.data| + |t.rest| + 2 <= |unread|
    ensures t.Take? && t.data != [] ==> |t.data| + |t.rest| + 3 <= |unread|
  {
    if unread == [] then Stop
    else
      var crlf := FindCrlf(unread);
      if crlf.None? then Fail
      else if crlf.value == 0 then Take([], unread[2..])
      else
        var size := SizeOfLine(unread[..crlf.value]);
        if size.None? then Fail
        else if size.value == 0 then Stop
        else
          var start := crlf.value + 2;
          if offset + start + size.value > USIZE_MAX then TooLarge
          else if start + size.value > |unread| then Fail
          else Take(unread[start..start + size.value], SkipCrlf(unread[start + size.value..]))
  }

  function Prepend(data: seq<byte>, o: Outcome): Outcome {
    if o.Decoded? then Decoded(data + o.data) else o
  }

  /** The chunk data of the unread part of a body, of which `offset` bytes have been read. */
  function ChunkData(unread: seq<byte>, offset: nat): Outcome
    decreases |unread|
  {
    match NextTurn(unread, offset)
    case Stop => Decoded([])
    case Fail => Rejected
    case TooLarge => Overflow
    case Take(data, rest) => Prepend(data, ChunkData(rest, offset + (|unread| - |rest|)))
  }

  function DecodeResult(body: seq<byte>): Outcome {
    var o := ChunkData(body, 0);
    if o == Decoded([]) then Rejected else o
  }

  method DecodeChunkedBody(body: seq<byte>) returns (o: Outcome)
    requires |body| <= ISIZE_MAX
    ensures o == DecodeResult(body)
    ensures o.Decoded? ==> 0 < |o.data| && |o.data| + 3 <= |body|
  {
    hide SizeOfLine, NextTurn, ChunkData, FindCrlf;
    var decoded: seq<byte>, pos := [], 0;
    ghost var total := ChunkData(body, 0);
    DataIsShorter(body, 0);
    assert body[0..] == body;
    while pos < |body|
      invariant pos <= |body|
      invariant total == Prepend(decoded, ChunkData(body[pos..], pos))
      decreases |body| - pos
    {
      var remaining := body[pos..];
      TurnEnds(remaining, pos, decoded);
      var crlf := FindCrlf(remaining);
      if crlf.None? {
        return Rejected;
      }
      if crlf.value == 0 {
        TurnSkips(body, pos);
        GoOn(body, pos, pos + 2, [], decoded);
        pos := pos + 2;
        continue;
      }
      var size := SizeOfLine(remaining[..crlf.value]);
      if size.None? {
        return Rejected;
      }
      if size.value == 0 {
        break;
      }
      var dataStart := pos + crlf.value + 2;
      if dataStart + size.value > USIZE_MAX {
        return Overflow;
      }
      var dataEnd := dataStart + size.value;
      if dataEnd > |body| {
        return Rejected;
      }
      var data := body[dataStart..dataEnd];
      ghost var was := pos;
      pos := dataEnd;
      if pos + 2 <= |body| && body[pos] == CR && body[pos + 1] == LF {
        pos := pos + 2;
      }
      TurnTakes(body, was, crlf.value, size.value, pos);
      GoOn(body, was, pos, data, decoded);
      decoded := decoded + data;
    }
    TurnEnds(body[pos..], pos, decoded);
    assert total == Decoded(decoded);
    if decoded == [] {
      return Rejected;
    }
    return Decoded(decoded);
  }

  /** The turns that end the loop. */
  lemma TurnEnds(unread: seq<byte>, offset: nat, decoded: seq<byte>)
    ensures var o, crlf := Prepend(decoded, ChunkData(unread, offset)), FindCrlf(unread);
      && (unread == [] ==> o == Decoded(decoded))
      && (unread != [] && crlf.None? ==> o == Rejected)
      && (unread != [] && crlf.Some? && crlf.value > 0 ==>
            var size := SizeOfLine(unread[..crlf.value]);
            && (size.None? ==> o == Rejected)
            && (size == Some(0) ==> o == Decoded(decoded))
            && (size.Some? && size.value > 0 ==>
                  && (offset + crlf.value + 2 + size.value > USIZE_MAX ==> o == Overflow)
                  && (crlf.value + 2 + size.value > |unread| && offset + crlf.value + 2 + size.value <= USIZE_MAX ==>
                        o == Rejected)))
  {
    hide SizeOfLine;
    assert decoded + [] == decoded;
  }

  lemma TurnSkips(body: seq<byte>, pos: nat)
    requires pos < |body| && FindCrlf(body[pos..]) == Some(0)
    ensures NextTurn(body[pos..], pos) == Take([], body[pos + 2..])
  {
    assert body[pos..][2..] == body[pos + 2..];
  }

  lemma GoOn(body: seq<byte>, pos: nat, next: nat, data: seq<byte>, decoded: seq<byte>)
    requires pos < next <= |body|
    requires NextTurn(body[pos..], pos) == Take(data, body[next..])
    ensures Prepend(decoded, ChunkData(body[pos..], pos)) ==
            Prepend(decoded + data, ChunkData(body[next..], next))
    ensures decoded + [] == decoded
  {
    hide NextTurn;
    PrependTwice(decoded, data, ChunkData(body[next..], next));
    assert decoded + [] == decoded;
  }

  lemma TurnTakes(body: seq<byte>, pos: nat, crlf: nat, size: nat, next: nat)
    requires pos < |body| && FindCrlf(body[pos..]) == Some(crlf) && crlf > 0
    requires SizeOfLine(body[pos..][..crlf]) == Some(size) && size > 0
    requires var end := pos + crlf + 2 + size;
      && end <= USIZE_MAX && end <= |body|
      && next == if end + 2 <= |body| && body[end] == CR && body[end + 1] == LF then end + 2 else end
    ensures NextTurn(body[pos..], pos) == Take(body[pos + crlf + 2..pos + crlf + 2 + size], body[next..])
  {
    hide SizeOfLine, FindCrlf;
    var end := pos + crlf + 2 + size;
    assert body[pos..][crlf + 2..crlf + 2 + size] == body[pos + crlf + 2..end];
    assert body[pos..][crlf + 2 + size..] == body[end..];
  }

  lemma PrependTwice(a: seq<byte>, b: seq<byte>, o: Outcome)
    ensures Prepend(a, Prepend(b, o)) == Prepend(a + b, o)
  {
    if o.Decoded? {
      assert a + (b + o.data) == (a + b) + o.data;
    }
  }

  /** Every decoded byte was read, and each chunk costs at least its size line. */
  lemma {:induction false} DataIsShorter(unread: seq<byte>, offset: nat)
    ensures var o := ChunkData(unread, offset); o.Decoded? && o.data != [] ==> |o.data| + 3 <= |unread|
    decreases |unread|
  {
    hide SizeOfLine;
    match NextTurn(unread, offset)
    case Take(data, rest) => DataIsShorter(rest, offset + (|unread| - |rest|));
    case _ =>
  }

  /** What is unread after n turns that went on. */
  function UnreadAfter(unread: seq<byte>, offset: nat, n: nat): Option<seq<byte>>
    decreases n
  {
    if n == 0 then Some(unread)
    else
      var t := NextTurn(unread, offset);
      if t.Take? then UnreadAfter(t.rest, offset + (|unread| - |t.rest|), n - 1) else None
  }

  /** The next size line can be read, and the end of its data lies beyond usize. */
  predicate StatesTooMuch(unread: seq<byte>, offset: nat) {
    var crlf := FindCrlf(unread);
    && crlf.Some? && crlf.value > 0
    && var size := SizeOfLine(unread[..crlf.value]);
       size.Some? && size.value > 0 && offset + crlf.value + 2 + size.value > USIZE_MAX
  }

  ghost predicate ReachesTooMuch(unread: seq<byte>, offset: nat, n: nat) {
    var left := UnreadAfter(unread, offset, n);
    left.Some? && |left.value| <= |unread| && StatesTooMuch(left.value, offset + (|unread| - |left.value|))
  }

  lemma {:induction false} UnreadShrinks(unread: seq<byte>, offset: nat, n: nat)
    ensures var left := UnreadAfter(unread, offset, n); left.Some? ==> |left.value| <= |unread|
    decreases n
  {
    hide NextTurn;
    if n > 0 && NextTurn(unread, offset).Take? {
      TakeIsShorter(unread, offset);
      var rest := NextTurn(unread, offset).rest;
      UnreadShrinks(rest, offset + (|unread| - |rest|), n - 1);
    }
  }

  lemma TooLargeIff(unread: seq<byte>, offset: nat)
    ensures NextTurn(unread, offset).TooLarge? <==> StatesTooMuch(unread, offset)
  {
    hide SizeOfLine;
  }

  lemma {:induction false} ChunkDataOverflowsIff(unread: seq<byte>, offset: nat)
    ensures ChunkData(unread, offset) == Overflow <==> exists n: nat :: ReachesTooMuch(unread, offset, n)
    decreases |unread|
  {
    hide NextTurn, StatesTooMuch;
    TooLargeIff(unread, offset);
    assert ReachesTooMuch(unread, offset, 0) <==> StatesTooMuch(unread, offset);
    var t := NextTurn(unread, offset);
    if t.Take? {
      TakeIsShorter(unread, offset);
      var next := offset + (|unread| - |t.rest|);
      ChunkDataOverflowsIff(t.rest, next);
      forall n: nat ensures ReachesTooMuch(unread, offset, n + 1) <==> ReachesTooMuch(t.rest, next, n) {
        UnreadShrinks(t.rest, next, n);
      }
      if n: nat :| ReachesTooMuch(unread, offset, n) {
        assert n > 0;
        assert ReachesTooMuch(t.rest, next, n - 1);
      }
      if n: nat :| ReachesTooMuch(t.rest, next, n) {
        assert ReachesTooMuch(unread, offset, n + 1);
      }
    } else if n: nat :| ReachesTooMuch(unread, offset, n) {
      assert n == 0;
    }
  }

  lemma TakeIsShorter(unread: seq<byte>, offset: nat)
    ensures NextTurn(unread, offset).Take? ==> |NextTurn(unread, offset).rest| < |unread|
  {
  }

  /** The index arithmetic overflows exactly when the loop comes to a size line that asks for too much. */
  lemma OverflowsIff(body: seq<byte>)
    ensures DecodeResult(body) == Overflow <==> exists n: nat :: ReachesTooMuch(body, 0, n)
  {
    ChunkDataOverflowsIff(body, 0);
  }

  predicate LooksLikeChunked(body: seq<byte>) {
    var crlf := FindCrlf(body);
    && |body| >= 4 && crlf.Some? && 0 < crlf.value <= FIRST_LINE_MAX
    && var size := SizeOfLine(body[..crlf.value]);
       size.Some? && 0 < size.value <= |body| - (crlf.value + 2)
  }

  predicate DecodingIsTried(hasDecodedLength: bool, hasAwsChunked: bool, body: seq<byte>) {
    hasDecodedLength || hasAwsChunked || LooksLikeChunked(body)
  }

  /** What the upload handlers store: the decoded body, or the body as it is when there is none. */
  function Stored(hasDecodedLength: bool, hasAwsChunked: bool, body: seq<byte>): Option<seq<byte>> {
    if !DecodingIsTried(hasDecodedLength, hasAwsChunked, body) then Some(body)
    else
      match DecodeResult(body)
      case Decoded(data) => Some(data)
      case Rejected => Some(body)
      case Overflow => None
  }

  /** The entry point: headers or the look of the body decide whether decoding is attempted. */
  method TryDecodeChunked(hasDecodedLength: bool, hasAwsChunked: bool, body: seq<byte>) returns (o: Outcome)
    requires |body| <= ISIZE_MAX
    ensures o == if DecodingIsTried(hasDecodedLength, hasAwsChunked, body) then DecodeResult(body) else Rejected
  {
    if !hasDecodedLength && !hasAwsChunked && !LooksLikeChunked(body) {
      return Rejected;
    }
    o := DecodeChunkedBody(body);
  }

  /** The handlers' use of it: None when the decoder panics. */
  method BodyToStore(hasDecodedLength: bool, hasAwsChunked: bool, body: seq<byte>) returns (stored: Option<seq<byte>>)
    requires |body| <= ISIZE_MAX
    ensures stored == Stored(hasDecodedLength, hasAwsChunked, body)
    ensures stored.Some? ==> stored.value == body || 0 < |stored.value| <= |body| - 3
  {
    var o := TryDecodeChunked(hasDecodedLength, hasAwsChunked, body);
    DataIsShorter(body, 0);
    match o
    case Decoded(data) => stored := Some(data);
    case Rejected => stored := Some(body);
    case Overflow => stored := None;
  }
}
