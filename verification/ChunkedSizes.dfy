/** What a size line is: hexadecimal texts by an encoder of their own, and the lines the decoder can read. */
module ChunkedSizes {
  import opened Sequences
  import opened Utf8
  import opened ChunkedBody
  import opened ChunkedEncoding

  const LOWER := "0123456789abcdef"
  const UPPER := "0123456789ABCDEF"

  /** n written in base sixteen with these digits. */
  function HexText(n: nat, digits: string): (t: string)
    requires |digits| == 16
    ensures t != ""
  {
    if n < 16 then [digits[n]] else HexText(n / 16, digits) + [digits[n % 16]]
  }

  function Zeros(k: nat): string {
    if k == 0 then "" else "0" + Zeros(k - 1)
  }

  function LowerCase(c: char): char {
    if 'A' <= c <= 'F' then (c as int - 'A' as int + 'a' as int) as char else c
  }

  function Lowered(t: string): (s: string)
    ensures |s| == |t|
    ensures forall i :: 0 <= i < |t| ==> s[i] == LowerCase(t[i])
  {
    if t == "" then "" else Lowered(t[..|t| - 1]) + [LowerCase(t[|t| - 1])]
  }

  // The decoder's reading of digits

  lemma DigitsAreRead(d: nat)
    requires d < 16
    ensures IsHexDigit(LOWER[d]) && HexDigit(LOWER[d]) == d
    ensures IsHexDigit(UPPER[d]) && HexDigit(UPPER[d]) == d
  {
  }

  lemma DigitsAreWritten(c: char)
    requires IsHexDigit(c)
    ensures HexDigit(c) < 16 && LOWER[HexDigit(c)] == LowerCase(c)
  {
  }

  lemma {:induction false} HexTextIsRead(n: nat, digits: string)
    requires digits == LOWER || digits == UPPER
    ensures AllHex(HexText(n, digits)) && HexNumber(HexText(n, digits)) == n
  {
    DigitsAreRead(n % 16);
    if n < 16 {
      DigitsAreRead(n);
      assert HexText(n, digits)[..0] == "";
      assert HexNumber("") == 0;
    } else {
      HexTextIsRead(n / 16, digits);
      hide HexDigit;
      var t := HexText(n, digits);
      assert t[..|t| - 1] == HexText(n / 16, digits);
    }
  }

  lemma {:induction false} ZerosDoNotCount(k: nat, t: string)
    requires AllHex(t)
    ensures AllHex(Zeros(k) + t) && HexNumber(Zeros(k) + t) == HexNumber(t)
    decreases |t|, k
  {
    var s := Zeros(k) + t;
    if t != "" {
      var front := t[..|t| - 1];
      ZerosDoNotCount(k, front);
      assert s[..|s| - 1] == Zeros(k) + front;
      assert AllHex(s);
    } else if k > 0 {
      ZerosDoNotCount(k - 1, "");
      ZerosEnd(k);
      assert s == Zeros(k) && Zeros(k - 1) + "" == Zeros(k - 1);
    }
  }

  lemma {:induction false} ZerosEnd(k: nat)
    requires k > 0
    ensures |Zeros(k)| == k && Zeros(k) == Zeros(k - 1) + "0"
  {
    if k > 1 {
      ZerosEnd(k - 1);
    }
  }

  lemma LoweredStep(t: string)
    requires t != ""
    ensures Lowered(t) == Lowered(t[..|t| - 1]) + [LowerCase(t[|t| - 1])]
    ensures Lowered("") == ""
  {
  }

  lemma NumberStep(t: string)
    requires AllHex(t) && t != ""
    ensures AllHex(t[..|t| - 1]) && IsHexDigit(t[|t| - 1])
    ensures HexNumber(t) == HexNumber(t[..|t| - 1]) * 16 + HexDigit(t[|t| - 1]) && HexNumber("") == 0
  {
  }

  lemma TextStep(m: nat, d: nat)
    requires d < 16
    ensures m > 0 ==> HexText(m * 16 + d, LOWER) == HexText(m, LOWER) + [LOWER[d]]
    ensures HexText(d, LOWER) == [LOWER[d]] && HexText(0, LOWER) == "0"
  {
    SixteenFold(m, d);
    var n := m * 16 + d;
    assert m > 0 ==> n >= 16 && HexText(n, LOWER) == HexText(n / 16, LOWER) + [LOWER[n % 16]];
  }

  lemma SixteenFold(m: nat, d: nat)
    requires d < 16
    ensures (m * 16 + d) / 16 == m && (m * 16 + d) % 16 == d
  {
  }

  /** Every hexadecimal number is, but for upper case, the text of its value after some zeros. */
  lemma {:induction false} LoweredIsWritten(t: string) returns (k: nat)
    requires AllHex(t) && t != ""
    ensures Lowered(t) == Zeros(k) + HexText(HexNumber(t), LOWER)
  {
    hide HexNumber, HexDigit, HexText, Lowered, Zeros, LowerCase;
    var front, c := t[..|t| - 1], t[|t| - 1];
    NumberStep(t);
    LoweredStep(t);
    DigitsAreWritten(c);
    var m, d := HexNumber(front), HexDigit(c);
    TextStep(m, d);
    if front == "" {
      k := 0;
      NoZeros();
    } else {
      k := LoweredIsWritten(front);
      if m == 0 {
        ZerosEnd(k + 1);
        k := k + 1;
      } else {
        assert (Zeros(k) + HexText(m, LOWER)) + [LOWER[d]] == Zeros(k) + (HexText(m, LOWER) + [LOWER[d]]);
      }
    }
  }

  lemma NoZeros()
    ensures Zeros(0) == ""
  {
  }

  /** Some zeros and the text of n, in letters of either case. */
  ghost predicate Writes(t: string, n: nat) {
    exists k: nat :: Lowered(t) == Zeros(k) + HexText(n, LOWER)
  }

  lemma {:induction false} LoweringKeepsValue(t: string)
    requires AllHex(Lowered(t))
    ensures AllHex(t) && HexNumber(t) == HexNumber(Lowered(t))
  {
    if t != "" {
      var front, c := t[..|t| - 1], t[|t| - 1];
      LoweredStep(t);
      assert Lowered(t)[..|t| - 1] == Lowered(front) && Lowered(t)[|t| - 1] == LowerCase(c);
      LoweringKeepsValue(front);
      assert IsHexDigit(LowerCase(c)) && HexDigit(LowerCase(c)) == HexDigit(c);
      hide HexDigit;
      assert AllHex(t) by {
        forall i | 0 <= i < |t| ensures IsHexDigit(t[i]) {
          assert i < |t| - 1 ==> t[i] == front[i];
        }
      }
    }
  }

  /** What the decoder takes for a spelling of n is exactly what writes n. */
  lemma SpellsIff(t: string, n: nat)
    ensures Spells(t, n) <==> Writes(t, n)
  {
    if Spells(t, n) {
      var k := LoweredIsWritten(t);
    }
    if Writes(t, n) {
      var k: nat :| Lowered(t) == Zeros(k) + HexText(n, LOWER);
      HexTextIsRead(n, LOWER);
      ZerosDoNotCount(k, HexText(n, LOWER));
      LoweringKeepsValue(t);
    }
  }

  // Bodies with sizes in base sixteen

  /** A chunk as a client writes it: its size in either case, zeros in front if it likes. */
  ghost predicate Standard(c: Chunk) {
    c.data != [] && ValidExtension(c.ext) &&
    exists k: nat ::
      c.sizeText == Zeros(k) + HexText(|c.data|, LOWER) || c.sizeText == Zeros(k) + HexText(|c.data|, UPPER)
  }

  lemma StandardIsValid(c: Chunk)
    requires Standard(c)
    ensures ValidChunk(c)
  {
    var n := |c.data|;
    HexTextIsRead(n, LOWER);
    HexTextIsRead(n, UPPER);
    var k: nat :| c.sizeText == Zeros(k) + HexText(n, LOWER) || c.sizeText == Zeros(k) + HexText(n, UPPER);
    ZerosDoNotCount(k, HexText(n, LOWER));
    ZerosDoNotCount(k, HexText(n, UPPER));
  }

  lemma {:induction false} ZerosSpellZero(k: nat)
    requires k > 0
    ensures Spells(Zeros(k), 0)
  {
    ZerosDoNotCount(k, "");
    assert Zeros(k) + "" == Zeros(k) && HexNumber("") == 0;
    ZerosEnd(k);
  }

  /** The decoder gives the data of every such body, whatever extensions and trailer it has. */
  lemma StandardBodyIsDecoded(chunks: seq<Chunk>, k: nat, lastExt: seq<byte>, trailer: seq<byte>)
    requires chunks != [] && (forall c :: c in chunks ==> Standard(c)) && k > 0 && ValidExtension(lastExt)
    ensures (forall c :: c in chunks ==> ValidChunk(c)) && Spells(Zeros(k), 0)
    ensures var body := EncodeBody(chunks, Zeros(k), lastExt, trailer);
      |body| <= ISIZE_MAX ==> DecodeResult(body) == Decoded(Payload(chunks))
  {
    hide Standard, ValidChunk, DecodeResult, EncodeBody;
    forall c | c in chunks ensures ValidChunk(c) {
      StandardIsValid(c);
    }
    ZerosSpellZero(k);
    if |EncodeBody(chunks, Zeros(k), lastExt, trailer)| <= ISIZE_MAX {
      DecoderUndoesEncoder(chunks, Zeros(k), lastExt, trailer);
    }
  }

  // Which lines state a size

  ghost predicate Blanks(s: string) {
    forall i :: 0 <= i < |s| ==> IsWhitespace(s[i])
  }

  /** Blanks, perhaps a plus sign, digits that write n, blanks, and extensions after a semicolon. */
  ghost predicate SizeText(text: string, n: nat,
                           pre: string, sign: string, digits: string, post: string, rest: string)
  {
    && text == pre + (sign + digits) + post + rest
    && Blanks(pre) && Blanks(post) && (sign == "" || sign == "+") && Writes(digits, n)
    && (rest == "" || rest[0] == ';')
  }

  lemma {:induction false} SemicolonParts(s: string)
    ensures var b := BeforeSemicolon(s);
      |b| <= |s| && b == s[..|b|] && !(';' in b) && (|b| < |s| ==> s[|b|] == ';')
  {
    if s != "" && s[0] != ';' {
      SemicolonParts(s[1..]);
    }
  }

  lemma {:induction false} SemicolonCuts(a: string, rest: string)
    requires !(';' in a) && (rest == "" || rest[0] == ';')
    ensures BeforeSemicolon(a + rest) == a
  {
    if a == "" {
      assert a + rest == rest;
    } else {
      assert a[0] in a && (a + rest)[1..] == a[1..] + rest;
      SemicolonCuts(a[1..], rest);
      assert [a[0]] + a[1..] == a;
    }
  }

  lemma {:induction false} StartParts(s: string)
    ensures var t := TrimStart(s);
      |t| <= |s| && t == s[|s| - |t|..] && Blanks(s[..|s| - |t|]) && (t != "" ==> !IsWhitespace(t[0]))
  {
    if s != "" && IsWhitespace(s[0]) {
      StartParts(s[1..]);
      var k := |s| - |TrimStart(s)|;
      forall i | 0 <= i < k ensures IsWhitespace(s[..k][i]) {
        assert i > 0 ==> s[..k][i] == s[1..][..k - 1][i - 1];
      }
    }
  }

  lemma {:induction false} StartIsTrimmed(pre: string, s: string)
    requires Blanks(pre) && (s != "" ==> !IsWhitespace(s[0]))
    ensures TrimStart(pre + s) == s
  {
    if pre == "" {
      assert pre + s == s;
    } else {
      assert (pre + s)[1..] == pre[1..] + s;
      StartIsTrimmed(pre[1..], s);
    }
  }

  lemma {:induction false} EndParts(s: string)
    ensures var t := TrimEnd(s);
      |t| <= |s| && t == s[..|t|] && Blanks(s[|t|..]) && (t != "" ==> !IsWhitespace(t[|t| - 1]))
  {
    if s != "" && IsWhitespace(s[|s| - 1]) {
      var front := s[..|s| - 1];
      EndParts(front);
      var k := |TrimEnd(s)|;
      forall i | 0 <= i < |s| - k ensures IsWhitespace(s[k..][i]) {
        assert i < |s| - k - 1 ==> s[k..][i] == front[k..][i];
      }
    }
  }

  lemma {:induction false} EndIsTrimmed(s: string, post: string)
    requires Blanks(post) && (s != "" ==> !IsWhitespace(s[|s| - 1]))
    ensures TrimEnd(s + post) == s
  {
    if post == "" {
      assert s + post == s;
    } else {
      assert (s + post)[..|s + post| - 1] == s + post[..|post| - 1];
      EndIsTrimmed(s, post[..|post| - 1]);
    }
  }

  /** The number a text states, as the decoder reads it. */
  function NumberIn(text: string): Option<nat> {
    ParseHex(TrimEnd(TrimStart(BeforeSemicolon(text))))
  }

  lemma SizeTextIsRead(text: string, n: nat, pre: string, sign: string, digits: string, post: string, rest: string)
    requires SizeText(text, n, pre, sign, digits, post, rest) && n <= USIZE_MAX
    ensures NumberIn(text) == Some(n)
  {
    hide TrimStart, TrimEnd, BeforeSemicolon, AllHex, HexNumber, Writes, IsWhitespace, Blanks, ParseHex;
    SpellsIff(digits, n);
    var core := sign + digits;
    NoBlankInCore(sign, digits);
    FrontIsCut(pre, sign, digits, post, rest);
    assert pre + core + post == pre + (core + post);
    assert core + post != "" && (core + post)[0] == core[0];
    StartIsTrimmed(pre, core + post);
    EndIsTrimmed(core, post);
    CoreIsParsed(sign, digits, n);
  }

  lemma FrontIsCut(pre: string, sign: string, digits: string, post: string, rest: string)
    requires Blanks(pre) && Blanks(post) && (sign == "" || sign == "+") && AllHex(digits)
    requires rest == "" || rest[0] == ';'
    ensures BeforeSemicolon(pre + (sign + digits) + post + rest) == pre + (sign + digits) + post
  {
    NoSemicolon(pre);
    NoSemicolon(post);
    NoSemicolonInCore(sign, digits);
    hide BeforeSemicolon, AllHex, Blanks;
    SemicolonCuts(pre + (sign + digits) + post, rest);
  }

  lemma CoreIsParsed(sign: string, digits: string, n: nat)
    requires (sign == "" || sign == "+") && Spells(digits, n) && n <= USIZE_MAX
    ensures ParseHex(sign + digits) == Some(n)
  {
    hide HexNumber;
    var core := sign + digits;
    if sign == "+" {
      assert core[1..] == digits;
    } else {
      assert core == digits && IsHexDigit(digits[0]);
    }
  }

  lemma NoSemicolon(s: string)
    requires Blanks(s)
    ensures !(';' in s)
  {
  }

  lemma NoSemicolonInCore(sign: string, digits: string)
    requires (sign == "" || sign == "+") && AllHex(digits)
    ensures !(';' in sign + digits)
  {
    var core := sign + digits;
    forall i | 0 <= i < |core| ensures core[i] != ';' {
      if i >= |sign| {
        assert core[i] == digits[i - |sign|];
      }
    }
  }

  lemma NoBlankInCore(sign: string, digits: string)
    requires (sign == "" || sign == "+") && AllHex(digits) && digits != ""
    ensures var core := sign + digits;
      core != "" && !IsWhitespace(core[0]) && !IsWhitespace(core[|core| - 1])
  {
    assert IsHexDigit(digits[0]) && IsHexDigit(digits[|digits| - 1]);
  }

  lemma ReadTextHasParts(text: string, n: nat)
    returns (pre: string, sign: string, digits: string, post: string, rest: string)
    requires NumberIn(text) == Some(n)
    ensures SizeText(text, n, pre, sign, digits, post, rest) && n <= USIZE_MAX
  {
    hide TrimStart, TrimEnd, BeforeSemicolon, HexNumber, AllHex;
    var b := BeforeSemicolon(text);
    var t := TrimStart(b);
    var u := TrimEnd(t);
    SemicolonParts(text);
    StartParts(b);
    EndParts(t);
    pre, post, rest := b[..|b| - |t|], t[|u|..], text[|b|..];
    sign, digits := DigitsOf(u, n);
    CutParts(text, b, t, u);
  }

  lemma DigitsOf(u: string, n: nat) returns (sign: string, digits: string)
    requires ParseHex(u) == Some(n)
    ensures u == sign + digits && (sign == "" || sign == "+") && Writes(digits, n) && n <= USIZE_MAX
  {
    if |u| > 1 && u[0] == '+' {
      sign, digits := "+", u[1..];
    } else {
      sign, digits := "", u;
    }
    SpellsIff(digits, n);
  }

  lemma CutParts(text: string, b: string, t: string, u: string)
    requires |u| <= |t| <= |b| <= |text| && b == text[..|b|] && t == b[|b| - |t|..] && u == t[..|u|]
    ensures text == b[..|b| - |t|] + u + t[|u|..] + text[|b|..]
  {
    assert b == b[..|b| - |t|] + t && t == u + t[|u|..];
  }

  ghost predicate StatesSize(text: string, n: nat) {
    exists pre, sign, digits, post, rest :: SizeText(text, n, pre, sign, digits, post, rest)
  }

  lemma NumberIsIn(text: string, n: nat)
    ensures NumberIn(text) == Some(n) <==> n <= USIZE_MAX && StatesSize(text, n)
  {
    hide SizeText, NumberIn;
    if NumberIn(text) == Some(n) {
      var pre, sign, digits, post, rest := ReadTextHasParts(text, n);
    }
    if n <= USIZE_MAX && StatesSize(text, n) {
      var pre, sign, digits, post, rest :| SizeText(text, n, pre, sign, digits, post, rest);
      SizeTextIsRead(text, n, pre, sign, digits, post, rest);
    }
  }

  /**
   * A line states the size n exactly if it is UTF-8 for blanks, perhaps a plus sign, digits of either
   * case that write n after any zeros, blanks, and nothing or whatever follows a semicolon; n fits usize.
   */
  lemma SizeIsReadIff(line: seq<byte>, n: nat)
    ensures SizeOfLine(line) == Some(n) <==>
      n <= USIZE_MAX && Decode(line).Some? && StatesSize(Decode(line).value, n)
  {
    hide StatesSize, ParseHex, TrimStart, TrimEnd, BeforeSemicolon, Decode;
    if Decode(line).Some? {
      NumberIsIn(Decode(line).value, n);
    }
  }

  /**
   * Without headers a body is taken for chunked exactly if it begins with a line of at most 100 bytes
   * that states a size, and at least that many bytes follow.
   */
  lemma LooksChunkedIff(body: seq<byte>)
    ensures LooksLikeChunked(body) <==>
      exists line, rest :: OpensWith(body, line, rest)
  {
    hide SizeOfLine;
    if LooksLikeChunked(body) {
      var k := FindCrlf(body).value;
      FirstCrlfFree(body);
      assert OpensWith(body, body[..k], body[k + 2..]);
    }
    if line, rest :| OpensWith(body, line, rest) {
      FindsFirstCrlf(line, rest);
      assert body[..|line|] == line;
    }
  }

  ghost predicate OpensWith(body: seq<byte>, line: seq<byte>, rest: seq<byte>) {
    && body == line + CRLF + rest && 0 < |line| <= 100 && CrlfFree(line)
    && SizeOfLine(line).Some? && 0 < SizeOfLine(line).value <= |rest|
  }

  /** The first line break stands behind a line without one. */
  lemma {:induction false} FirstCrlfFree(s: seq<byte>)
    ensures var r := FindCrlf(s); r.Some? ==> CrlfFree(s[..r.value])
  {
    var r := FindCrlf(s);
    if r.Some? && r.value > 0 {
      FirstCrlfFree(s[1..]);
      var line := s[..r.value];
      assert line[1..] == s[1..][..r.value - 1];
      forall i | 0 <= i < |line| - 1 ensures !(line[i] == CR && line[i + 1] == LF) {
        if i > 0 {
          assert line[i] == line[1..][i - 1] && line[i + 1] == line[1..][i];
        }
      }
    }
  }
}
