/** UTF-8 decoding: strict, and with ill-formed sequences left out. */
module Utf8 {
  import opened Sequences

  type byte = x: int | 0 <= x < 256

  datatype Scalar = Valid(c: char, n: nat) | Invalid(n: nat)

  predicate Trail(b: byte) {
    0x80 <= b < 0xC0
  }

  /** The range of second bytes that may follow a first byte of a three or four byte sequence. */
  predicate Second(first: byte, b: byte) {
    if first == 0xE0 then 0xA0 <= b < 0xC0
    else if first == 0xED then 0x80 <= b < 0xA0
    else if first == 0xF0 then 0x90 <= b < 0xC0
    else if first == 0xF4 then 0x80 <= b < 0x90
    else Trail(b)
  }

  /** The scalar at the front of s, or how many bytes of an ill-formed sequence to leave out. */
  function First(s: seq<byte>): (r: Scalar)
    requires s != []
    ensures 1 <= r.n <= |s|
  {
    var a := s[0];
    if a < 0x80 then Valid(a as char, 1)
    else if 0xC2 <= a < 0xE0 then
      if |s| >= 2 && Trail(s[1]) then Valid(((a as int - 0xC0) * 0x40 + (s[1] as int - 0x80)) as char, 2)
      else Invalid(1)
    else if 0xE0 <= a < 0xF0 then
      if |s| < 2 || !Second(a, s[1]) then Invalid(1)
      else if |s| < 3 || !Trail(s[2]) then Invalid(2)
      else Valid(((a as int - 0xE0) * 0x1000 + (s[1] as int - 0x80) * 0x40 + (s[2] as int - 0x80)) as char, 3)
    else if 0xF0 <= a < 0xF5 then
      if |s| < 2 || !Second(a, s[1]) then Invalid(1)
      else if |s| < 3 || !Trail(s[2]) then Invalid(2)
      else if |s| < 4 || !Trail(s[3]) then Invalid(3)
      else
        Valid(((a as int - 0xF0) * 0x40000 + (s[1] as int - 0x80) * 0x1000 +
               (s[2] as int - 0x80) * 0x40 + (s[3] as int - 0x80)) as char, 4)
    else Invalid(1)
  }

  function Decode(s: seq<byte>): Option<string> {
    if s == [] then Some("")
    else
      match First(s)
      case Invalid(_) => None
      case Valid(c, n) =>
        var rest := Decode(s[n..]);
        if rest.None? then None else Some([c] + rest.value)
  }

  function DecodeIgnoring(s: seq<byte>): string {
    if s == [] then ""
    else
      match First(s)
      case Invalid(n) => DecodeIgnoring(s[n..])
      case Valid(c, n) => [c] + DecodeIgnoring(s[n..])
  }

  predicate IsAscii(s: string) {
    forall i :: 0 <= i < |s| ==> s[i] as int < 0x80
  }

  function Bytes(s: string): seq<byte>
    requires IsAscii(s)
  {
    seq(|s|, i requires 0 <= i < |s| => s[i] as int)
  }

  lemma AsciiFirst(c: char, rest: seq<byte>)
    requires c as int < 0x80
    ensures First([c as int] + rest) == Valid(c, 1)
    ensures Decode([c as int] + rest) == if Decode(rest).None? then None else Some([c] + Decode(rest).value)
    ensures DecodeIgnoring([c as int] + rest) == [c] + DecodeIgnoring(rest)
  {
    assert ([c as int] + rest)[1..] == rest;
  }

  lemma BytesStep(a: string)
    requires IsAscii(a) && a != ""
    ensures IsAscii(a[1..]) && a[0] as int < 0x80
    ensures Bytes(a) == [a[0] as int] + Bytes(a[1..]) && a == [a[0]] + a[1..]
  {
  }

  lemma {:induction false} AsciiPrefix(a: string, rest: seq<byte>)
    requires IsAscii(a)
    ensures Decode(Bytes(a) + rest) == if Decode(rest).None? then None else Some(a + Decode(rest).value)
  {
    hide Decode, Bytes, IsAscii;
    if a == "" {
      NoBytes(rest);
      if Decode(rest).Some? {
        assert "" + Decode(rest).value == Decode(rest).value;
      }
    } else {
      BytesStep(a);
      AsciiPrefix(a[1..], rest);
      AsciiFirst(a[0], Bytes(a[1..]) + rest);
      assert Bytes(a) + rest == [a[0] as int] + (Bytes(a[1..]) + rest);
      if Decode(rest).Some? {
        assert [a[0]] + (a[1..] + Decode(rest).value) == a + Decode(rest).value;
      }
    }
  }

  lemma NoBytes(rest: seq<byte>)
    ensures Bytes("") + rest == rest
  {
  }

  /** ASCII text comes back from either decoder. */
  lemma {:induction false} AsciiDecodes(a: string)
    requires IsAscii(a)
    ensures Decode(Bytes(a)) == Some(a)
    ensures DecodeIgnoring(Bytes(a)) == a
  {
    if a != "" {
      AsciiDecodes(a[1..]);
      BytesStep(a);
      AsciiFirst(a[0], Bytes(a[1..]));
    }
  }
}
