/** The bytes of the canonical text: none of its readers' freedoms is used, and strings look as they should. */
module CanonicalJsonShortest {
  import opened Sequences
  import opened JsonText
  import opened KeySort
  import opened CanonicalJson
  import opened JsonParser
  import opened CanonicalJsonProofs

  // Whatever is read was written with at least as many characters

  lemma CharIsNoShorter(s: string)
    ensures ReadChar(s).Some? ==> |s| >= |EscapeChar(ReadChar(s).value.value)| + |ReadChar(s).value.rest|
  {
  }

  lemma {:induction false} BodyIsNoShorter(s: string)
    ensures ReadBody(s).Some? ==> |s| >= |Escape(ReadBody(s).value.value)| + 1 + |ReadBody(s).value.rest|
    decreases |s|
  {
    hide ReadChar, EscapeChar;
    CharIsNoShorter(s);
    var first := ReadChar(s);
    if (s == [] || s[0] != '"') && first.Some? {
      BodyIsNoShorter(first.value.rest);
      var more := ReadBody(first.value.rest);
      if more.Some? {
        EscapeStep(first.value.value, more.value.value);
      }
    }
  }

  lemma EscapeStep(c: char, s: string)
    ensures Escape([c] + s) == EscapeChar(c) + Escape(s)
  {
    assert ([c] + s)[1..] == s;
  }

  lemma StringIsNoShorter(s: string)
    ensures ReadString(s).Some? ==> |s| >= |Quote(ReadString(s).value.value)| + |ReadString(s).value.rest|
  {
    if s != [] {
      BodyIsNoShorter(s[1..]);
    }
  }

  /** A number takes at least as many digits as its decimal text. */
  lemma {:induction false} DecimalIsShortest(s: string)
    requires s != [] && AllDigits(s)
    ensures |Decimal(ReadDecimal(s))| <= |s|
  {
    var front, n := s[..|s| - 1], ReadDecimal(s);
    if front != [] {
      DecimalIsShortest(front);
      assert n / 10 == ReadDecimal(front);
    } else {
      assert ReadDecimal(front) == 0;
    }
  }

  lemma NaturalIsNoShorter(s: string)
    ensures ReadNatural(s).Some? ==> |s| >= |Decimal(ReadNatural(s).value.value)| + |ReadNatural(s).value.rest|
  {
    var k := DigitRun(s);
    if k > 0 {
      DecimalIsShortest(s[..k]);
    }
  }

  lemma NumberIsNoShorter(s: string)
    ensures ReadNumber(s).Some? ==> |s| >= |Print(ReadNumber(s).value.value)| + |ReadNumber(s).value.rest|
  {
    if s != [] && s[0] == '-' {
      NaturalIsNoShorter(s[1..]);
    } else {
      NaturalIsNoShorter(s);
    }
    hide ReadNatural;
  }

  lemma {:induction false} ValueIsNoShorter(s: string)
    ensures ReadValue(s).Some? ==> |s| >= |Print(ReadValue(s).value.value)| + |ReadValue(s).value.rest|
    decreases |s|, 0
  {
    hide ReadNumber, ReadList, ReadDict, ReadString, Quote;
    var t := SkipSpace(s);
    if t != [] && ReadValue(s).Some? {
      if t[0] == '"' {
        StringIsNoShorter(t);
      } else if t[0] == '[' {
        ListIsNoShorter(t[1..]);
      } else if t[0] == '{' {
        DictIsNoShorter(t[1..]);
      } else if t[0] != 'n' && t[0] != 't' && t[0] != 'f' {
        NumberIsNoShorter(t);
      }
    }
  }

  lemma {:induction false} ListIsNoShorter(s: string)
    ensures ReadList(s).Some? ==>
      ReadList(s).value.value.List? && |s| + 1 >= |Print(ReadList(s).value.value)| + |ReadList(s).value.rest|
    decreases |s|, 3
  {
    var t := SkipSpace(s);
    ItemsAreNoShorter(t);
    hide ReadItems;
  }

  lemma {:induction false} DictIsNoShorter(s: string)
    ensures ReadDict(s).Some? ==>
      ReadDict(s).value.value.Dict? && |s| + 1 >= |Print(ReadDict(s).value.value)| + |ReadDict(s).value.rest|
    decreases |s|, 3
  {
    var t := SkipSpace(s);
    MembersAreNoShorter(t);
    hide ReadMembers;
  }

  lemma {:induction false} ItemsAreNoShorter(s: string)
    ensures ReadItems(s).Some? ==>
      |s| >= |PrintItems(ReadItems(s).value.value)| + 1 + |ReadItems(s).value.rest|
    decreases |s|, 1
  {
    hide ReadValue, Print;
    ValueIsNoShorter(s);
    var first := ReadValue(s);
    if first.Some? {
      var t := SkipSpace(first.value.rest);
      if t != [] && t[0] == ',' {
        ItemsAreNoShorter(t[1..]);
        var more := ReadItems(t[1..]);
        if more.Some? {
          ItemsLength(first.value.value, more.value.value);
        }
      }
    }
  }

  lemma ItemsLength(v: Json, items: seq<Json>)
    ensures |PrintItems([v] + items)| <= |Print(v)| + 1 + |PrintItems(items)|
    ensures |PrintItems([v])| == |Print(v)|
  {
    assert ([v] + items)[1..] == items;
    hide Print;
  }

  lemma MemberIsNoShorter(s: string)
    ensures ReadMember(s).Some? ==>
      var m := ReadMember(s).value.value;
      |s| >= |Quote(m.key)| + 1 + |Print(m.value)| + |ReadMember(s).value.rest|
    decreases |s|, 1
  {
    hide ReadValue, Print, ReadString, Quote;
    var u := SkipSpace(s);
    StringIsNoShorter(u);
    var key := ReadString(u);
    if key.Some? {
      var t := SkipSpace(key.value.rest);
      if t != [] {
        ValueIsNoShorter(t[1..]);
      }
    }
  }

  lemma {:induction false} MembersAreNoShorter(s: string)
    ensures ReadMembers(s).Some? ==>
      |s| >= |PrintMembers(ReadMembers(s).value.value)| + 1 + |ReadMembers(s).value.rest|
    decreases |s|, 2
  {
    hide ReadMember, Print, Quote;
    MemberIsNoShorter(s);
    var first := ReadMember(s);
    if first.Some? {
      MembersLength(first.value.value, []);
      var t := SkipSpace(first.value.rest);
      if t != [] && t[0] == ',' {
        MembersAreNoShorter(t[1..]);
        var more := ReadMembers(t[1..]);
        if more.Some? {
          MembersLength(first.value.value, more.value.value);
        }
      }
    }
  }

  function MemberLength(m: Member): nat {
    |Quote(m.key)| + 1 + |Print(m.value)|
  }

  lemma MembersLength(m: Member, members: seq<Member>)
    ensures |PrintMembers([m] + members)| ==
            MemberLength(m) + if members == [] then 0 else 1 + |PrintMembers(members)|
    ensures |PrintMembers([m])| == MemberLength(m)
  {
    assert ([m] + members)[1..] == members && [m] + [] == [m];
    hide Print, Quote;
  }

  // Sorting does not change the length

  function LengthsOf(members: seq<Member>): nat {
    if members == [] then 0 else MemberLength(members[0]) + 1 + LengthsOf(members[1..])
  }

  lemma {:induction false} LengthOfMembers(members: seq<Member>)
    ensures |PrintMembers(members)| == if members == [] then 0 else LengthsOf(members) - 1
  {
    hide MemberLength;
    if members != [] {
      LengthOfMembers(members[1..]);
      MembersLength(members[0], members[1..]);
      assert [members[0]] + members[1..] == members;
    }
  }

  lemma {:induction false} InsertLength(m: Member, ms: seq<Member>)
    ensures LengthsOf(Insert(m, ms, KeyOf())) == MemberLength(m) + 1 + LengthsOf(ms)
  {
    hide MemberLength;
    if ms == [] || !Less(ms[0].key, m.key) {
      assert ([m] + ms)[1..] == ms;
    } else {
      InsertLength(m, ms[1..]);
      var tail := Insert(m, ms[1..], KeyOf());
      assert ([ms[0]] + tail)[1..] == tail;
    }
  }

  lemma {:induction false} SortLength(ms: seq<Member>)
    ensures LengthsOf(Sort(ms, KeyOf())) == LengthsOf(ms)
  {
    hide MemberLength;
    if ms != [] {
      SortLength(ms[1..]);
      InsertLength(ms[0], Sort(ms[1..], KeyOf()));
    }
  }

  lemma {:induction false} NormalLength(v: Json)
    ensures |Print(Normalize(v))| == |Print(v)|
    decreases v
  {
    match v
    case List(items) =>
      forall i | 0 <= i < |items| ensures |Print(Normalize(items[i]))| == |Print(items[i])| {
        NormalLength(items[i]);
      }
      NormalItemsLength(items);
    case Dict(members) =>
      forall i | 0 <= i < |members| ensures |Print(Normalize(members[i].value))| == |Print(members[i].value)| {
        assert members[i] in members;
        NormalLength(members[i].value);
      }
      NormalMembersLength(members);
      DictLength(members);
    case _ =>
  }

  lemma {:induction false} NormalItemsLength(items: seq<Json>)
    requires forall i :: 0 <= i < |items| ==> |Print(Normalize(items[i]))| == |Print(items[i])|
    ensures |PrintItems(NormalizeItems(items))| == |PrintItems(items)|
  {
    hide Print, Normalize;
    if items != [] {
      NormalItemsLength(items[1..]);
      assert NormalizeItems(items)[1..] == NormalizeItems(items[1..]);
    }
  }

  lemma {:induction false} NormalMembersLength(members: seq<Member>)
    requires forall i :: 0 <= i < |members| ==> |Print(Normalize(members[i].value))| == |Print(members[i].value)|
    ensures LengthsOf(NormalizeMembers(members)) == LengthsOf(members)
  {
    hide Print, Normalize, Quote;
    if members != [] {
      NormalMembersLength(members[1..]);
      assert NormalizeMembers(members)[1..] == NormalizeMembers(members[1..]);
    }
  }

  lemma DictLength(members: seq<Member>)
    requires LengthsOf(NormalizeMembers(members)) == LengthsOf(members)
    ensures |Print(Dict(Sort(NormalizeMembers(members), KeyOf())))| == |Print(Dict(members))|
  {
    hide Sort, LengthsOf, PrintMembers;
    SortLength(NormalizeMembers(members));
    LengthOfMembers(Sort(NormalizeMembers(members), KeyOf()));
    LengthOfMembers(members);
  }

  /**
   * No JSON text of an equal value is shorter than the canonical one: it has no white space, no leading
   * zeros and no escape that could be spared or abbreviated.
   */
  lemma CanonicalIsShortest(v: Json, s: string, w: Json)
    requires WellFormed(v) && WellFormed(w) && SameValue(v, w) && ReadValue(s) == Some(Read(w, ""))
    ensures |Canonical(v)| <= |s|
  {
    hide Canonical, Print, Normalize, ReadValue, SameValue, WellFormed;
    SameNormalForm(v, w);
    CanonicalPrintsNormalized(v);
    ValueIsNoShorter(s);
    NormalLength(w);
  }

  // What a string looks like

  predicate NeedsEscape(c: char) {
    c == '"' || c == '\\' || c < ' '
  }

  /** A string in which nothing has to be escaped stands as it is between quotes, slashes and all. */
  lemma PlainString(s: string)
    requires forall i :: 0 <= i < |s| ==> !NeedsEscape(s[i])
    ensures Canonical(Str(s)) == "\"" + s + "\""
  {
    PlainBody(s);
    StringText(s);
  }

  lemma {:induction false} PlainBody(s: string)
    requires forall i :: 0 <= i < |s| ==> !NeedsEscape(s[i])
    ensures Escape(s) == s
  {
    if s != "" {
      PlainBody(s[1..]);
      assert [s[0]] + s[1..] == s;
    }
  }

  /** A text without its first and its last character. */
  function Inside(text: string): string {
    if |text| < 2 then "" else text[1..|text| - 1]
  }

  lemma StringText(s: string)
    ensures Canonical(Str(s)) == Quote(s) == "\"" + Escape(s) + "\"" && Inside(Canonical(Str(s))) == Escape(s)
  {
    hide Escape;
    var text := "\"" + Escape(s) + "\"";
    assert text[1..|text| - 1] == Escape(s);
  }

  /** The text of a string is that of its parts, one after the other, between quotes. */
  lemma StringsConcatenate(a: string, b: string)
    ensures Inside(Canonical(Str(a + b))) == Inside(Canonical(Str(a))) + Inside(Canonical(Str(b)))
  {
    hide Canonical, Escape, Inside;
    StringText(a);
    StringText(b);
    StringText(a + b);
    BodiesConcatenate(a, b);
  }

  lemma {:induction false} BodiesConcatenate(a: string, b: string)
    ensures Escape(a + b) == Escape(a) + Escape(b)
  {
    if a == "" {
      assert a + b == b;
    } else {
      assert (a + b)[1..] == a[1..] + b;
      BodiesConcatenate(a[1..], b);
    }
  }

  lemma OneCharacter(c: char)
    ensures Canonical(Str([c])) == "\"" + EscapeChar(c) + "\""
  {
    StringText([c]);
    EscapeStep(c, "");
    assert [c] + "" == [c] && EscapeChar(c) + Escape("") == EscapeChar(c);
  }

  /** The short escapes. */
  lemma ShortEscapes()
    ensures Canonical(Str("\"")) == "\"\\\"\"" && Canonical(Str("\\")) == "\"\\\\\""
    ensures Canonical(Str("\n")) == "\"\\n\"" && Canonical(Str("\r")) == "\"\\r\""
    ensures Canonical(Str("\t")) == "\"\\t\""
    ensures Canonical(Str("\U{08}")) == "\"\\b\"" && Canonical(Str("\U{0C}")) == "\"\\f\""
  {
    OneCharacter('"');
    OneCharacter('\\');
    OneCharacter('\n');
    OneCharacter('\r');
    OneCharacter('\t');
    OneCharacter('\U{08}');
    OneCharacter('\U{0C}');
  }

  const LOWER_HEX := "0123456789abcdef"

  /** Every other control character is escaped with four hexadecimal digits, in lower case. */
  lemma ControlEscapes(c: char)
    requires c < ' ' && c != '\n' && c != '\r' && c != '\t' && c != '\U{08}' && c != '\U{0C}'
    ensures Canonical(Str([c])) == "\"\\u00" + [LOWER_HEX[c as int / 16], LOWER_HEX[c as int % 16]] + "\""
  {
    OneCharacter(c);
    HexDigitsAreLower(c as int / 16);
    HexDigitsAreLower(c as int % 16);
    hide HexChar, Canonical;
    var digits := [LOWER_HEX[c as int / 16], LOWER_HEX[c as int % 16]];
    assert "\"" + ("\\u00" + digits) + "\"" == "\"\\u00" + digits + "\"";
  }

  lemma HexDigitsAreLower(d: nat)
    requires d < 16
    ensures HexChar(d) == LOWER_HEX[d]
  {
  }
}
