/** A reader of JSON texts after the grammar of RFC 8259, numbers restricted to integers. */
module JsonParser {
  import opened Sequences
  import opened JsonText
  import opened CanonicalJson

  function SkipSpace(s: string): (r: string)
    ensures |r| <= |s|
  {
    if s != [] && (s[0] == ' ' || s[0] == '\t' || s[0] == '\n' || s[0] == '\r') then SkipSpace(s[1..]) else s
  }

  /** An integer without leading zeros and without fraction or exponent after it. */
  function ReadNumber(s: string): (r: Option<Read<Json>>)
    ensures r.Some? ==> |r.value.rest| < |s|
  {
    if s != [] && s[0] == '-' then
      var n := ReadNatural(s[1..]);
      if n.None? then None else Some(Read(Int(-(n.value.value as int)), n.value.rest))
    else
      var n := ReadNatural(s);
      if n.None? then None else Some(Read(Int(n.value.value), n.value.rest))
  }

  function ReadNatural(s: string): (r: Option<Read<nat>>)
    ensures r.Some? ==> |r.value.rest| < |s|
  {
    var k := DigitRun(s);
    if k == 0 || (s[0] == '0' && k > 1) || !EndsNumber(s[k..]) then None
    else Some(Read(ReadDecimal(s[..k]), s[k..]))
  }

  /** What may follow an integer: not a digit, a fraction or an exponent. */
  predicate EndsNumber(rest: string) {
    rest == [] || !(IsDigit(rest[0]) || rest[0] == '.' || rest[0] == 'e' || rest[0] == 'E')
  }

  function ReadLiteral(s: string, word: string, v: Json): (r: Option<Read<Json>>)
    requires word != []
    ensures r.Some? ==> |r.value.rest| < |s|
  {
    if word <= s then Some(Read(v, s[|word|..])) else None
  }

  function ReadValue(s: string): (r: Option<Read<Json>>)
    ensures r.Some? ==> |r.value.rest| < |s|
    decreases |s|, 0
  {
    var t := SkipSpace(s);
    if t == [] then None
    else if t[0] == 'n' then ReadLiteral(t, "null", Null)
    else if t[0] == 't' then ReadLiteral(t, "true", Bool(true))
    else if t[0] == 'f' then ReadLiteral(t, "false", Bool(false))
    else if t[0] == '"' then
      var q := ReadString(t);
      if q.None? then None else Some(Read(Str(q.value.value), q.value.rest))
    else if t[0] == '[' then ReadList(t[1..])
    else if t[0] == '{' then ReadDict(t[1..])
    else ReadNumber(t)
  }

  /** What follows an opening bracket. */
  function ReadList(s: string): (r: Option<Read<Json>>)
    ensures r.Some? ==> |r.value.rest| < |s|
    decreases |s|, 3
  {
    var t := SkipSpace(s);
    if t != [] && t[0] == ']' then Some(Read(List([]), t[1..]))
    else
      var items := ReadItems(t);
      if items.None? then None else Some(Read(List(items.value.value), items.value.rest))
  }

  /** What follows an opening brace. */
  function ReadDict(s: string): (r: Option<Read<Json>>)
    ensures r.Some? ==> |r.value.rest| < |s|
    decreases |s|, 3
  {
    var t := SkipSpace(s);
    if t != [] && t[0] == '}' then Some(Read(Dict([]), t[1..]))
    else
      var members := ReadMembers(t);
      if members.None? then None else Some(Read(Dict(members.value.value), members.value.rest))
  }

  /** One or more values up to and including the closing bracket. */
  function ReadItems(s: string): (r: Option<Read<seq<Json>>>)
    ensures r.Some? ==> |r.value.rest| < |s|
    decreases |s|, 1
  {
    var first := ReadValue(s);
    if first.None? then None
    else
      var t := SkipSpace(first.value.rest);
      if t == [] then None
      else if t[0] == ']' then Some(Read([first.value.value], t[1..]))
      else if t[0] == ',' then
        var more := ReadItems(t[1..]);
        if more.None? then None else Some(Read([first.value.value] + more.value.value, more.value.rest))
      else None
  }

  /** One `"key": value`, as far as the value's end. */
  function ReadMember(s: string): (r: Option<Read<Member>>)
    ensures r.Some? ==> |r.value.rest| < |s|
    decreases |s|, 1
  {
    var key := ReadString(SkipSpace(s));
    if key.None? then None
    else
      var t := SkipSpace(key.value.rest);
      if t == [] || t[0] != ':' then None
      else
        var v := ReadValue(t[1..]);
        if v.None? then None else Some(Read(Member(key.value.value, v.value.value), v.value.rest))
  }

  /** One or more members up to and including the closing brace. */
  function ReadMembers(s: string): (r: Option<Read<seq<Member>>>)
    ensures r.Some? ==> |r.value.rest| < |s|
    decreases |s|, 2
  {
    var first := ReadMember(s);
    if first.None? then None
    else
      var t := SkipSpace(first.value.rest);
      if t == [] then None
      else if t[0] == '}' then Some(Read([first.value.value], t[1..]))
      else if t[0] == ',' then
        var more := ReadMembers(t[1..]);
        if more.None? then None else Some(Read([first.value.value] + more.value.value, more.value.rest))
      else None
  }

  // The reader undoes the printer

  predicate IsSpace(c: char) {
    c == ' ' || c == '\t' || c == '\n' || c == '\r'
  }

  /** No printed value begins with a blank, a closing bracket or a closing brace. */
  lemma PrintStarts(v: Json)
    ensures Print(v) != [] && !IsSpace(Print(v)[0]) && Print(v)[0] != ']' && Print(v)[0] != '}'
  {
    if v.Int? {
      DecimalReadsBack(if v.n < 0 then -v.n else v.n);
    }
  }

  lemma NaturalReadsBack(n: nat, rest: string)
    requires EndsNumber(rest)
    ensures ReadNatural(Decimal(n) + rest) == Some(Read(n, rest))
  {
    DecimalReadsBack(n);
    DigitRunStops(Decimal(n), rest);
    assert (Decimal(n) + rest)[..|Decimal(n)|] == Decimal(n);
    assert (Decimal(n) + rest)[|Decimal(n)|..] == rest;
  }

  lemma IntReadsBack(n: int, rest: string)
    requires EndsNumber(rest)
    ensures ReadNumber(Scalar(Int(n)) + rest) == Some(Read(Int(n), rest))
  {
    if n < 0 {
      NegativeReadsBack(-n, rest);
    } else {
      NonNegativeReadsBack(n, rest);
    }
  }

  lemma NegativeReadsBack(n: nat, rest: string)
    requires EndsNumber(rest)
    ensures ReadNumber("-" + Decimal(n) + rest) == Some(Read(Int(-(n as int)), rest))
  {
    hide Decimal, ReadNatural;
    var s := "-" + Decimal(n) + rest;
    assert s[0] == '-' && s[1..] == Decimal(n) + rest;
    NaturalReadsBack(n, rest);
  }

  lemma NonNegativeReadsBack(n: nat, rest: string)
    requires EndsNumber(rest)
    ensures ReadNumber(Decimal(n) + rest) == Some(Read(Int(n), rest))
  {
    DecimalReadsBack(n);
    assert IsDigit((Decimal(n) + rest)[0]);
    NaturalReadsBack(n, rest);
  }

  /** Text that starts with no blank, quote, bracket or word initial is read as a number. */
  lemma NumberIsRead(s: string)
    requires s != [] && (IsDigit(s[0]) || s[0] == '-')
    ensures ReadValue(s) == ReadNumber(s)
  {
  }

  lemma StringIsRead(q: string, rest: string)
    ensures ReadValue(Quote(q) + rest) == Some(Read(Str(q), rest))
  {
    QuotedReadsBack(q, rest);
    assert SkipSpace(Quote(q) + rest) == Quote(q) + rest;
  }

  lemma ScalarReadsBack(v: Json, rest: string)
    requires !v.List? && !v.Dict? && EndsNumber(rest)
    ensures ReadValue(Print(v) + rest) == Some(Read(v, rest))
  {
    var s := Print(v) + rest;
    match v
    case Null => assert s[|"null"|..] == rest && "null" <= s;
    case Bool(b) => assert s[|Print(v)|..] == rest && Print(v) <= s;
    case Str(q) => StringIsRead(q, rest);
    case Int(n) =>
      DecimalReadsBack(if n < 0 then -n else n);
      IntReadsBack(n, rest);
      NumberIsRead(s);
  }

  /** Whatever follows, the reader recovers exactly the printed value and stops behind it. */
  lemma {:induction false} PrintReadsBack(v: Json, rest: string)
    requires EndsNumber(rest)
    ensures ReadValue(Print(v) + rest) == Some(Read(v, rest))
    decreases v, 0
  {
    hide ReadValue, Print, EndsNumber, ReadList, ReadDict, PrintItems, PrintMembers;
    match v
    case List(items) =>
      ListReadsBack(items, rest);
      ListIsBracketed(items, rest);
    case Dict(members) =>
      DictReadsBack(members, rest);
      DictIsBraced(members, rest);
    case _ => ScalarReadsBack(v, rest);
  }

  lemma ListIsBracketed(items: seq<Json>, rest: string)
    ensures ReadValue(Print(List(items)) + rest) == ReadList(PrintItems(items) + ("]" + rest))
  {
    hide ReadValue, ReadList, PrintItems;
    assert Print(List(items)) + rest == "[" + (PrintItems(items) + ("]" + rest));
    BracketIsRead(PrintItems(items) + ("]" + rest));
  }

  lemma DictIsBraced(members: seq<Member>, rest: string)
    ensures ReadValue(Print(Dict(members)) + rest) == ReadDict(PrintMembers(members) + ("}" + rest))
  {
    hide ReadValue, ReadDict, PrintMembers;
    assert Print(Dict(members)) + rest == "{" + (PrintMembers(members) + ("}" + rest));
    BraceIsRead(PrintMembers(members) + ("}" + rest));
  }

  lemma BracketIsRead(text: string)
    ensures ReadValue("[" + text) == ReadList(text)
  {
    assert ("[" + text)[1..] == text;
  }

  lemma BraceIsRead(text: string)
    ensures ReadValue("{" + text) == ReadDict(text)
  {
    assert ("{" + text)[1..] == text;
  }

  lemma {:induction false} ListReadsBack(items: seq<Json>, rest: string)
    ensures ReadList(PrintItems(items) + ("]" + rest)) == Some(Read(List(items), rest))
    decreases items, 2
  {
    var text := PrintItems(items) + ("]" + rest);
    if items == [] {
      assert text == "]" + rest && text[1..] == rest;
    } else {
      ItemsReadBack(items, rest);
      PrintStarts(items[0]);
      assert text[0] == Print(items[0])[0];
    }
  }

  lemma {:induction false} DictReadsBack(members: seq<Member>, rest: string)
    ensures ReadDict(PrintMembers(members) + ("}" + rest)) == Some(Read(Dict(members), rest))
    decreases members, 3
  {
    var text := PrintMembers(members) + ("}" + rest);
    if members == [] {
      assert text == "}" + rest && text[1..] == rest;
    } else {
      MembersReadBack(members, rest);
      assert text[0] == '"';
    }
  }

  lemma {:induction false} ItemsReadBack(items: seq<Json>, rest: string)
    requires items != []
    ensures ReadItems(PrintItems(items) + ("]" + rest)) == Some(Read(items, rest))
    decreases items, 1
  {
    hide Print, ReadValue;
    var first := items[0];
    if |items| == 1 {
      assert items == [first];
      PrintReadsBack(first, "]" + rest);
      assert ("]" + rest)[1..] == rest;
    } else {
      var tail := PrintItems(items[1..]) + ("]" + rest);
      assert PrintItems(items) + ("]" + rest) == Print(first) + ("," + tail);
      PrintReadsBack(first, "," + tail);
      assert ("," + tail)[1..] == tail;
      ItemsReadBack(items[1..], rest);
      assert [first] + items[1..] == items;
    }
  }

  lemma MemberIsRead(key: string, text: string)
    ensures ReadMember(Quote(key) + (":" + text)) ==
      if ReadValue(text).None? then None
      else Some(Read(Member(key, ReadValue(text).value.value), ReadValue(text).value.rest))
  {
    QuotedReadsBack(key, ":" + text);
    assert SkipSpace(Quote(key) + (":" + text)) == Quote(key) + (":" + text);
    assert SkipSpace(":" + text) == ":" + text;
    assert (":" + text)[1..] == text;
  }

  lemma {:induction false} MemberReadsBack(m: Member, rest: string)
    requires EndsNumber(rest)
    ensures ReadMember(Quote(m.key) + ":" + Print(m.value) + rest) == Some(Read(m, rest))
    decreases m, 1
  {
    var text := Print(m.value) + rest;
    assert Quote(m.key) + ":" + Print(m.value) + rest == Quote(m.key) + (":" + text);
    PrintReadsBack(m.value, rest);
    MemberIsRead(m.key, text);
  }

  lemma {:induction false} MembersReadBack(members: seq<Member>, rest: string)
    requires members != []
    ensures ReadMembers(PrintMembers(members) + ("}" + rest)) == Some(Read(members, rest))
    decreases members, 2
  {
    hide Print, Quote, ReadMember;
    var first := members[0];
    var text := Quote(first.key) + ":" + Print(first.value);
    if |members| == 1 {
      assert members == [first];
      MemberReadsBack(first, "}" + rest);
      assert ("}" + rest)[1..] == rest;
    } else {
      var tail := PrintMembers(members[1..]) + ("}" + rest);
      assert PrintMembers(members) + ("}" + rest) == text + ("," + tail);
      MemberReadsBack(first, "," + tail);
      assert ("," + tail)[1..] == tail;
      MembersReadBack(members[1..], rest);
      assert [first] + members[1..] == members;
    }
  }
}
