/** The encoder of RFC 3629 and the decoders: strict decoding is its exact inverse. */
module Utf8Proofs {
  import opened Sequences
  import opened Utf8

  /** The bytes of a character, after the table of section 3 of RFC 3629. */
  function EncodeChar(c: char): (r: seq<byte>)
    ensures 1 <= |r| <= 4
  {
    var n := c as int;
    if n < 0x80 then [n]
    else if n < 0x800 then [0xC0 + n / 0x40, 0x80 + n % 0x40]
    else if n < 0x1_0000 then [0xE0 + n / 0x1000, 0x80 + n / 0x40 % 0x40, 0x80 + n % 0x40]
    else [0xF0 + n / 0x4_0000, 0x80 + n / 0x1000 % 0x40, 0x80 + n / 0x40 % 0x40, 0x80 + n % 0x40]
  }

  function Encode(s: string): seq<byte> {
    if s == "" then [] else EncodeChar(s[0]) + Encode(s[1..])
  }

  lemma FirstOfTwo(n: nat, s: seq<byte>)
    requires 0x80 <= n < 0x800 && |s| >= 2
    requires s[0] == 0xC0 + n / 0x40 && s[1] == 0x80 + n % 0x40
    ensures First(s) == Valid(n as char, 2)
  {
  }

  lemma FirstOfThree(c: char, s: seq<byte>)
    requires 0x800 <= c as int < 0x1_0000 && |s| >= 3
    requires var n := c as int;
      s[0] == 0xE0 + n / 0x1000 && s[1] == 0x80 + n / 0x40 % 0x40 && s[2] == 0x80 + n % 0x40
    ensures First(s) == Valid(c, 3)
  {
    var n := c as int;
    assert n / 0x1000 == n / 0x40 / 0x40;
    assert n / 0x40 % 0x40 < 0x40 && n % 0x40 < 0x40;
    assert n == n / 0x1000 * 0x1000 + n / 0x40 % 0x40 * 0x40 + n % 0x40;
  }

  lemma FirstOfFour(c: char, s: seq<byte>)
    requires 0x1_0000 <= c as int && |s| >= 4
    requires var n := c as int;
      && s[0] == 0xF0 + n / 0x4_0000 && s[1] == 0x80 + n / 0x1000 % 0x40
      && s[2] == 0x80 + n / 0x40 % 0x40 && s[3] == 0x80 + n % 0x40
    ensures First(s) == Valid(c, 4)
  {
    var n := c as int;
    assert n / 0x1000 == n / 0x40 / 0x40 && n / 0x4_0000 == n / 0x1000 / 0x40;
    assert n == n / 0x4_0000 * 0x4_0000 + n / 0x1000 % 0x40 * 0x1000 + n / 0x40 % 0x40 * 0x40 + n % 0x40;
  }

  /** What an encoded character begins with is read as that character. */
  lemma EncodedIsFirst(c: char, rest: seq<byte>)
    ensures First(EncodeChar(c) + rest) == Valid(c, |EncodeChar(c)|)
  {
    var n, s := c as int, EncodeChar(c) + rest;
    if 0x80 <= n < 0x800 {
      FirstOfTwo(n, s);
    } else if 0x800 <= n < 0x1_0000 {
      FirstOfThree(c, s);
    } else if 0x1_0000 <= n {
      FirstOfFour(c, s);
    }
  }

  /** And only that: the bytes a character is read from are its encoding. */
  lemma FirstIsEncoded(s: seq<byte>)
    requires s != [] && First(s).Valid?
    ensures s[..First(s).n] == EncodeChar(First(s).c)
  {
    var c, n := First(s).c, First(s).n;
    if n == 2 {
      TwoParts(s);
    } else if n == 3 {
      ThreeParts(s);
    } else if n == 4 {
      FourParts(s);
    }
  }

  lemma TwoParts(s: seq<byte>)
    requires s != [] && First(s).Valid? && First(s).n == 2
    ensures s[..2] == EncodeChar(First(s).c)
  {
    var n := First(s).c as int;
    assert n / 0x40 == s[0] - 0xC0 && n % 0x40 == s[1] - 0x80;
  }

  lemma ThreeParts(s: seq<byte>)
    requires s != [] && First(s).Valid? && First(s).n == 3
    ensures s[..3] == EncodeChar(First(s).c)
  {
    var n := First(s).c as int;
    var a, b := s[0] as int - 0xE0, s[1] as int - 0x80;
    assert n / 0x40 == a * 0x40 + b && n % 0x40 == s[2] - 0x80;
    assert n / 0x1000 == s[0] - 0xE0 && n / 0x40 % 0x40 == s[1] - 0x80;
  }

  lemma FourParts(s: seq<byte>)
    requires s != [] && First(s).Valid? && First(s).n == 4
    ensures s[..4] == EncodeChar(First(s).c)
  {
    var n := First(s).c as int;
    var a, b, d := s[0] as int - 0xF0, s[1] as int - 0x80, s[2] as int - 0x80;
    assert n / 0x40 == a * 0x1000 + b * 0x40 + d && n % 0x40 == s[3] - 0x80;
    assert n / 0x1000 == a * 0x40 + b && n / 0x40 % 0x40 == s[2] - 0x80;
    assert n / 0x4_0000 == s[0] - 0xF0 && n / 0x1000 % 0x40 == s[1] - 0x80;
  }

  lemma CharacterIsRead(c: char, rest: seq<byte>)
    ensures Decode(EncodeChar(c) + rest) == if Decode(rest).None? then None else Some([c] + Decode(rest).value)
  {
    hide Decode, EncodeChar, First;
    EncodedIsFirst(c, rest);
    DecodeStep(EncodeChar(c) + rest);
    assert (EncodeChar(c) + rest)[|EncodeChar(c)|..] == rest;
  }

  lemma {:induction false} EncodedIsDecoded(s: string)
    ensures Decode(Encode(s)) == Some(s)
  {
    hide Decode, Encode, EncodeChar, First;
    if s == "" {
      NothingEncoded();
    } else {
      EncodedIsDecoded(s[1..]);
      CharacterIsRead(s[0], Encode(s[1..]));
      assert [s[0]] + s[1..] == s;
      EncodeStep(s[0], s[1..]);
    }
  }

  lemma DecodeStep(b: seq<byte>)
    requires b != []
    ensures Decode(b) ==
      if First(b).Invalid? || Decode(b[First(b).n..]).None? then None
      else Some([First(b).c] + Decode(b[First(b).n..]).value)
  {
  }

  lemma EncodeStep(c: char, s: string)
    ensures Encode([c] + s) == EncodeChar(c) + Encode(s)
  {
    assert ([c] + s)[1..] == s;
  }

  lemma Assembled(b: seq<byte>, n: nat, c: char, tail: string)
    requires n <= |b| && b[..n] == EncodeChar(c) && Encode(tail) == b[n..]
    ensures Encode([c] + tail) == b
  {
    EncodeStep(c, tail);
    hide Encode, EncodeChar;
  }

  lemma {:induction false} DecodedIsEncoded(b: seq<byte>)
    ensures Decode(b).Some? ==> Encode(Decode(b).value) == b
    decreases |b|
  {
    hide Decode, Encode, EncodeChar, First;
    if b != [] && Decode(b).Some? {
      DecodeStep(b);
      FirstIsEncoded(b);
      DecodedIsEncoded(b[First(b).n..]);
      Assembled(b, First(b).n, First(b).c, Decode(b[First(b).n..]).value);
    } else if b == [] {
      NothingEncoded();
    }
  }

  lemma NothingEncoded()
    ensures Decode([]) == Some("") && Encode("") == []
  {
  }

  /** Strict decoding succeeds exactly on encoded text, and gives that text. */
  lemma DecodeIff(b: seq<byte>, s: string)
    ensures Decode(b) == Some(s) <==> b == Encode(s)
  {
    EncodedIsDecoded(s);
    DecodedIsEncoded(b);
  }

  /** Leaving out what is ill-formed loses no character that is there and makes none up. */
  lemma CharacterIsKept(c: char, rest: seq<byte>)
    ensures DecodeIgnoring(EncodeChar(c) + rest) == [c] + DecodeIgnoring(rest)
  {
    EncodedIsFirst(c, rest);
    assert (EncodeChar(c) + rest)[|EncodeChar(c)|..] == rest;
  }

  /** Where no character begins one byte at least is left out, and no character begins in what is left out. */
  lemma IllFormedIsLeftOut(s: seq<byte>, k: nat, c: char)
    requires s != [] && First(s).Invalid? && k < First(s).n
    ensures DecodeIgnoring(s) == DecodeIgnoring(s[First(s).n..])
    ensures !(EncodeChar(c) <= s[k..])
  {
    NoneBegins(s, k);
    EncodedPrefix(s[k..], c);
  }

  lemma EncodedPrefix(s: seq<byte>, c: char)
    requires s != []
    ensures EncodeChar(c) <= s ==> First(s).Valid?
  {
    hide First;
    if EncodeChar(c) <= s {
      EncodedIsFirst(c, s[|EncodeChar(c)|..]);
      assert s == EncodeChar(c) + s[|EncodeChar(c)|..];
    }
  }

  lemma NoneBegins(s: seq<byte>, k: nat)
    requires s != [] && First(s).Invalid? && k < First(s).n
    ensures First(s[k..]).Invalid?
  {
    assert k == 0 ==> s[k..] == s;
  }
}
