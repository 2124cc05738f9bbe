/** JSON scalars as text: decimal integers and quoted strings, with readers for both. */
module JsonText {
  import opened Sequences

  // Decimal digits

  predicate IsDigit(c: char) {
    '0' <= c <= '9'
  }

  function DigitChar(d: nat): char
    requires d < 10
  {
    ('0' as int + d) as char
  }

  function DigitValue(c: char): nat
    requires IsDigit(c)
  {
    c as int - '0' as int
  }

  function Decimal(n: nat): (r: string)
    ensures r != []
  {
    if n < 10 then [DigitChar(n)] else Decimal(n / 10) + [DigitChar(n % 10)]
  }

  predicate AllDigits(s: string) {
    forall i :: 0 <= i < |s| ==> IsDigit(s[i])
  }

  function ReadDecimal(s: string): nat
    requires AllDigits(s)
  {
    if s == [] then 0 else ReadDecimal(s[..|s| - 1]) * 10 + DigitValue(s[|s| - 1])
  }

  lemma {:induction false} DecimalReadsBack(n: nat)
    ensures AllDigits(Decimal(n)) && ReadDecimal(Decimal(n)) == n
    ensures Decimal(n)[0] == '0' ==> n == 0 && Decimal(n) == "0"
  {
    if n < 10 {
      assert Decimal(n)[..0] == [];
    } else {
      DecimalReadsBack(n / 10);
      assert Decimal(n)[..|Decimal(n)| - 1] == Decimal(n / 10);
    }
  }

  /** A larger number has at least as many digits. */
  lemma {:induction false} DecimalGrows(m: nat, n: nat)
    requires m <= n
    ensures |Decimal(m)| <= |Decimal(n)|
  {
    if n >= 10 && m >= 10 {
      DecimalGrows(m / 10, n / 10);
    }
  }

  function DigitRun(s: string): (k: nat)
    ensures k <= |s|
    ensures AllDigits(s[..k])
    ensures k < |s| ==> !IsDigit(s[k])
  {
    if s == [] || !IsDigit(s[0]) then 0
    else
      var k := DigitRun(s[1..]);
      assert s[..k + 1] == [s[0]] + s[1..][..k];
      k + 1
  }

  lemma {:induction false} DigitRunStops(digits: string, rest: string)
    requires AllDigits(digits) && (rest == [] || !IsDigit(rest[0]))
    ensures DigitRun(digits + rest) == |digits|
  {
    if digits == [] {
      assert digits + rest == rest;
    } else {
      DigitRunStops(digits[1..], rest);
      assert (digits + rest)[1..] == digits[1..] + rest;
    }
  }

  // Quoted strings

  function HexChar(d: nat): char
    requires d < 16
  {
    if d < 10 then DigitChar(d) else ('a' as int + (d - 10)) as char
  }

  function HexValue(c: char): (r: Option<nat>)
    ensures r.Some? ==> r.value < 16
  {
    if IsDigit(c) then Some(DigitValue(c))
    else if 'a' <= c <= 'f' then Some(c as int - 'a' as int + 10)
    else if 'A' <= c <= 'F' then Some(c as int - 'A' as int + 10)
    else None
  }

  function EscapeChar(c: char): (r: string)
    ensures r != [] && r[0] != '"'
  {
    if c == '"' then "\\\""
    else if c == '\\' then "\\\\"
    else if c == '\n' then "\\n"
    else if c == '\r' then "\\r"
    else if c == '\t' then "\\t"
    else if c == '\U{08}' then "\\b"
    else if c == '\U{0C}' then "\\f"
    else if c < ' ' then "\\u00" + [HexChar(c as int / 16), HexChar(c as int % 16)]
    else [c]
  }

  function Escape(s: string): string {
    if s == [] then [] else EscapeChar(s[0]) + Escape(s[1..])
  }

  function Quote(s: string): string {
    "\"" + Escape(s) + "\""
  }

  function ReadHex2(a: char, b: char): (r: Option<nat>)
    ensures r.Some? ==> r.value < 0x100
  {
    var high, low := HexValue(a), HexValue(b);
    if high.Some? && low.Some? then Some(high.value * 0x10 + low.value) else None
  }

  /** Four hexadecimal digits at the front of s. */
  function ReadHex4(s: string): (r: Option<nat>)
    ensures r.Some? ==> |s| >= 4 && r.value < 0x10000
  {
    if |s| < 4 then None
    else
      var high, low := ReadHex2(s[0], s[1]), ReadHex2(s[2], s[3]);
      if high.Some? && low.Some? then Some(high.value * 0x100 + low.value) else None
  }

  datatype Read<T> = Read(value: T, rest: string)

  /** What follows `\u`: one code unit, or a surrogate pair written as two escapes. */
  function ReadUnicode(s: string): (r: Option<Read<char>>)
    ensures r.Some? ==> |r.value.rest| < |s|
  {
    var hi := ReadHex4(s);
    if hi.None? then None
    else if hi.value < 0xD800 || 0xE000 <= hi.value then Some(Read(hi.value as char, s[4..]))
    else if hi.value < 0xDC00 && |s| >= 6 && s[4] == '\\' && s[5] == 'u' then
      var lo := ReadHex4(s[6..]);
      if lo.Some? && 0xDC00 <= lo.value < 0xE000 then
        Some(Read((0x10000 + (hi.value - 0xD800) * 0x400 + (lo.value - 0xDC00)) as char, s[10..]))
      else None
    else None
  }

  /** One character of a quoted string, escaped or plain (section 7 of RFC 8259). */
  function ReadChar(s: string): (r: Option<Read<char>>)
    ensures r.Some? ==> |r.value.rest| < |s|
  {
    if s == [] || s[0] < ' ' || s[0] == '"' then None
    else if s[0] != '\\' then Some(Read(s[0], s[1..]))
    else if |s| < 2 then None
    else
      match s[1]
      case '"' => Some(Read('"', s[2..]))
      case '\\' => Some(Read('\\', s[2..]))
      case '/' => Some(Read('/', s[2..]))
      case 'b' => Some(Read('\U{08}', s[2..]))
      case 'f' => Some(Read('\U{0C}', s[2..]))
      case 'n' => Some(Read('\n', s[2..]))
      case 'r' => Some(Read('\r', s[2..]))
      case 't' => Some(Read('\t', s[2..]))
      case 'u' => ReadUnicode(s[2..])
      case _ => None
  }

  /** Characters up to the closing quote. */
  function ReadBody(s: string): (r: Option<Read<string>>)
    ensures r.Some? ==> |r.value.rest| < |s|
    decreases |s|
  {
    if s != [] && s[0] == '"' then Some(Read("", s[1..]))
    else
      var first := ReadChar(s);
      if first.None? then None
      else
        var more := ReadBody(first.value.rest);
        if more.None? then None
        else Some(Read([first.value.value] + more.value.value, more.value.rest))
  }

  function ReadString(s: string): (r: Option<Read<string>>)
    ensures r.Some? ==> |r.value.rest| < |s|
  {
    if s != [] && s[0] == '"' then ReadBody(s[1..]) else None
  }

  lemma EscapedCharReadsBack(c: char, rest: string)
    ensures ReadChar(EscapeChar(c) + rest) == Some(Read(c, rest))
  {
    var s := EscapeChar(c) + rest;
    if |EscapeChar(c)| == 1 {
      assert s[1..] == rest;
    } else if |EscapeChar(c)| == 2 {
      assert s[2..] == rest;
    } else {
      var d := c as int;
      assert d < 32 && d / 16 < 2;
      assert s[2..][0] == '0' && s[2..][1] == '0' && s[2..][2] == HexChar(d / 16) && s[2..][3] == HexChar(d % 16);
      assert HexValue(HexChar(d / 16)) == Some(d / 16);
      assert HexValue(HexChar(d % 16)) == Some(d % 16);
      assert s[2..][4..] == rest;
    }
  }

  /** Reading the body takes one escaped character off and goes on. */
  lemma BodyStep(c: char, tail: string)
    ensures ReadBody(EscapeChar(c) + tail) ==
      if ReadBody(tail).None? then None
      else Some(Read([c] + ReadBody(tail).value.value, ReadBody(tail).value.rest))
  {
    hide ReadChar, EscapeChar;
    EscapedCharReadsBack(c, tail);
    assert (EscapeChar(c) + tail)[0] == EscapeChar(c)[0];
  }

  lemma {:induction false} EscapedBodyReadsBack(s: string, rest: string)
    ensures ReadBody(Escape(s) + ("\"" + rest)) == Some(Read(s, rest))
  {
    if s == [] {
      assert Escape(s) + ("\"" + rest) == "\"" + rest;
    } else {
      hide EscapeChar, ReadBody;
      var tail := Escape(s[1..]) + ("\"" + rest);
      assert Escape(s) + ("\"" + rest) == EscapeChar(s[0]) + tail;
      BodyStep(s[0], tail);
      EscapedBodyReadsBack(s[1..], rest);
      assert [s[0]] + s[1..] == s;
    }
  }

  lemma QuotedReadsBack(s: string, rest: string)
    ensures ReadString(Quote(s) + rest) == Some(Read(s, rest))
  {
    assert (Quote(s) + rest)[1..] == Escape(s) + ("\"" + rest);
    EscapedBodyReadsBack(s, rest);
  }
}
