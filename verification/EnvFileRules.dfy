/** The .env file as an ordinary reader of assignments sees it, and where a salvaged tag comes from. */
module EnvFileRules {
  import opened Sequences
  import opened Utf8
  import opened EnvFile

  // Tags

  /** The line, without blanks around it, assigns one of the two images, with this tag after its last colon. */
  ghost predicate Tags(line: string, tag: string) {
    WellFormedTag(tag) &&
    exists image :: Strip(line) == "FX_SUPPROT=" + image + ":" + tag || Strip(line) == "GO_FULA=" + image + ":" + tag
  }

  lemma {:induction false} LastColon(s: string)
    ensures match AfterLast(s, ':')
      case None => !(':' in s)
      case Some(t) => !(':' in t) && |t| < |s| && s == s[..|s| - |t| - 1] + ":" + t
  {
    if s != "" && s[|s| - 1] != ':' {
      LastColon(s[..|s| - 1]);
      assert s == s[..|s| - 1] + [s[|s| - 1]];
    }
  }

  lemma WellFormedHasNoColon(tag: string)
    requires WellFormedTag(tag)
    ensures !(':' in tag)
  {
    forall i | 0 <= i < |tag| ensures tag[i] != ':' {
      assert TagChar(tag[i]);
    }
  }

  lemma TagAfterIff(line: string, prefix: string, tag: string)
    ensures TagAfter(line, prefix) == Some(tag) <==>
      WellFormedTag(tag) && exists image :: line == prefix + image + ":" + tag
  {
    hide WellFormedTag;
    if TagAfter(line, prefix) == Some(tag) {
      var value := line[|prefix|..];
      LastColon(value);
      assert line == prefix + value[..|value| - |tag| - 1] + ":" + tag;
    }
    if WellFormedTag(tag) {
      WellFormedHasNoColon(tag);
      if image :| line == prefix + image + ":" + tag {
        assert line[|prefix|..] == image + ":" + tag;
        TagIsAfterLastColon(image, tag);
      }
    }
  }

  lemma PrefixesDiffer(line: string)
    ensures !(FX_PREFIX <= line && GO_PREFIX <= line)
  {
    assert FX_PREFIX[0] == 'F' && GO_PREFIX[0] == 'G';
  }

  lemma TagOfLineIff(line: string, tag: string)
    ensures TagOfLine(line) == Some(tag) <==> Tags(line, tag)
  {
    var s := Strip(line);
    TagAfterIff(s, FX_PREFIX, tag);
    TagAfterIff(s, GO_PREFIX, tag);
    PrefixesDiffer(s);
    NoTagAfter(s, FX_PREFIX);
    NoTagAfter(s, GO_PREFIX);
    hide TagAfter, Strip, WellFormedTag;
  }

  lemma NoTagAfter(line: string, prefix: string)
    ensures TagAfter(line, prefix).Some? ==> prefix <= line
  {
  }

  /** That of the first line that has one, or `release` if none has. */
  ghost predicate FoundTag(lines: seq<string>, tag: string) {
    || (exists i :: 0 <= i < |lines| && FirstTagged(lines, i, tag))
    || (tag == "release" && forall i, t :: 0 <= i < |lines| ==> !Tags(lines[i], t))
  }

  lemma {:induction false} FirstTagIs(lines: seq<string>, tag: string)
    ensures FirstTag(lines) == tag <==> FoundTag(lines, tag)
  {
    hide TagOfLine, Tags;
    if lines != [] {
      forall t ensures TagOfLine(lines[0]) == Some(t) <==> Tags(lines[0], t) {
        TagOfLineIff(lines[0], t);
      }
      var rest := lines[1..];
      FirstTagIs(rest, tag);
      if TagOfLine(lines[0]).Some? {
        var t := TagOfLine(lines[0]).value;
        assert Tags(lines[0], t);
        assert FirstTagged(lines, 0, t);
      } else {
        assert forall t :: !Tags(lines[0], t);
        FirstLater(lines, tag);
      }
    }
  }

  ghost predicate FirstTagged(lines: seq<string>, i: nat, tag: string)
    requires i < |lines|
  {
    Tags(lines[i], tag) && forall j, t :: 0 <= j < i ==> !Tags(lines[j], t)
  }

  lemma FirstLater(lines: seq<string>, tag: string)
    requires lines != [] && forall t :: !Tags(lines[0], t)
    ensures (exists i :: 0 <= i < |lines| && FirstTagged(lines, i, tag)) <==>
            (exists i :: 0 <= i < |lines[1..]| && FirstTagged(lines[1..], i, tag))
    ensures (forall i, t :: 0 <= i < |lines| ==> !Tags(lines[i], t)) <==>
            (forall i, t :: 0 <= i < |lines[1..]| ==> !Tags(lines[1..][i], t))
  {
    hide Tags;
    if i :| 0 <= i < |lines| && FirstTagged(lines, i, tag) {
      forall j, t | 0 <= j < i - 1 ensures !Tags(lines[1..][j], t) {
        assert lines[1..][j] == lines[j + 1];
      }
      assert FirstTagged(lines[1..], i - 1, tag);
    }
    if i :| 0 <= i < |lines[1..]| && FirstTagged(lines[1..], i, tag) {
      forall j, t | 0 <= j < i + 1 ensures !Tags(lines[j], t) {
        assert j > 0 ==> lines[j] == lines[1..][j - 1];
      }
      assert FirstTagged(lines, i + 1, tag);
    }
    if forall i, t :: 0 <= i < |lines[1..]| ==> !Tags(lines[1..][i], t) {
      forall i, t | 0 <= i < |lines| ensures !Tags(lines[i], t) {
        assert i > 0 ==> lines[i] == lines[1..][i - 1];
      }
    }
    if forall i, t :: 0 <= i < |lines| ==> !Tags(lines[i], t) {
      forall i, t | 0 <= i < |lines[1..]| ensures !Tags(lines[1..][i], t) {
        assert lines[1..][i] == lines[i + 1];
      }
    }
  }

  /**
   * The salvaged tag is that of the first line that assigns one of the two images with a well-formed
   * tag, in what is left of the file without null bytes and ill-formed UTF-8; if there is none, `release`.
   */
  lemma SalvagedIs(raw: seq<byte>, tag: string)
    ensures var lines := SplitLines(DecodeIgnoring(Filter(raw, NonNull())));
      Salvaged(raw) == tag <==> FoundTag(lines, tag)
  {
    hide SplitLines, DecodeIgnoring, Filter, FirstTag, FoundTag;
    FirstTagIs(SplitLines(DecodeIgnoring(Filter(raw, NonNull()))), tag);
  }

  /** A successful repair writes that tag, a missing file gets `release`. */
  lemma RepairedWith(file: Option<seq<byte>>, w: Writing, restarts: bool)
    requires !HealthyFile(file) && Succeeds(w)
    ensures WellFormedTag("release")
    ensures file.None? ==> Fixed(file, w, restarts).0 == Some(EnvBytes("release"))
    ensures file.Some? ==> WellFormedTag(Salvaged(file.value))
    ensures file.Some? ==> Fixed(file, w, restarts).0 == Some(EnvBytes(Salvaged(file.value)))
  {
    DefaultTagIsWellFormed();
    if file.Some? {
      FirstTagIsWellFormed(SplitLines(DecodeIgnoring(Filter(file.value, NonNull()))));
    }
    hide EnvBytes, Diagnose;
  }

  // Lines and blanks

  /** What ends a line: a carriage return with its line feed, or one character that breaks lines. */
  predicate LineEnd(e: string) {
    e == "\r\n" || (|e| == 1 && IsBreak(e[0]))
  }

  predicate NoBreak(line: string) {
    forall i :: 0 <= i < |line| ==> !IsBreak(line[i])
  }

  function Ended(lines: seq<string>, ends: seq<string>): string
    requires |lines| == |ends|
  {
    if lines == [] then "" else lines[0] + ends[0] + Ended(lines[1..], ends[1..])
  }

  lemma {:induction false} LineRuns(s: string)
    ensures NoBreak(s[..LineLength(s)])
  {
    if s != "" && !IsBreak(s[0]) {
      LineRuns(s[1..]);
      var line := s[..LineLength(s)];
      assert line[1..] == s[1..][..LineLength(s[1..])];
      forall i | 0 <= i < |line| ensures !IsBreak(line[i]) {
        assert i > 0 ==> line[i] == line[1..][i - 1];
      }
    }
  }

  /** Splitting gives the lines in order: with their ends they are the text, and none contains a break. */
  lemma {:induction false} SplitIs(s: string) returns (ends: seq<string>)
    ensures var lines := SplitLines(s);
      && |ends| == |lines| && Ended(lines, ends) == s
      && (forall i :: 0 <= i < |lines| ==> NoBreak(lines[i]))
      && (forall i :: 0 <= i < |ends| ==> LineEnd(ends[i]) || (i == |ends| - 1 && ends[i] == "" && lines[i] != ""))
    decreases |s|
  {
    if s == "" {
      ends := [];
    } else {
      var k := LineLength(s);
      LineRuns(s);
      if k == |s| {
        ends := [""];
        assert s[..k] == s && SplitLines(s) == [s];
        assert [s][1..] == [] && [""][1..] == [] && s + "" + "" == s;
      } else {
        var e := if s[k] == '\r' && k + 1 < |s| && s[k + 1] == '\n' then "\r\n" else [s[k]];
        var rest := s[k + |e|..];
        assert s == s[..k] + e + rest;
        var more := SplitIs(rest);
        ends := [e] + more;
        SplitStep(s[..k], e, SplitLines(rest), more);
        assert SplitLines(s) == [s[..k]] + SplitLines(rest);
      }
    }
  }

  lemma SplitStep(line: string, e: string, lines: seq<string>, ends: seq<string>)
    requires |lines| == |ends|
    ensures Ended([line] + lines, [e] + ends) == line + e + Ended(lines, ends)
  {
    assert ([line] + lines)[1..] == lines && ([e] + ends)[1..] == ends;
  }

  predicate Spaces(s: string) {
    forall i :: 0 <= i < |s| ==> IsSpace(s[i])
  }

  lemma {:induction false} LeftIs(s: string)
    ensures var t := StripLeft(s);
      |t| <= |s| && t == s[|s| - |t|..] && Spaces(s[..|s| - |t|]) && (t != "" ==> !IsSpace(t[0]))
  {
    if s != "" && IsSpace(s[0]) {
      LeftIs(s[1..]);
      var k := |s| - |StripLeft(s)|;
      forall i | 0 <= i < k ensures IsSpace(s[..k][i]) {
        assert i > 0 ==> s[..k][i] == s[1..][..k - 1][i - 1];
      }
    }
  }

  lemma {:induction false} RightIs(s: string)
    ensures var t := StripRight(s);
      |t| <= |s| && t == s[..|t|] && Spaces(s[|t|..]) && (t != "" ==> !IsSpace(t[|t| - 1]))
  {
    if s != "" && IsSpace(s[|s| - 1]) {
      var front := s[..|s| - 1];
      RightIs(front);
      var k := |StripRight(s)|;
      forall i | 0 <= i < |s| - k ensures IsSpace(s[k..][i]) {
        assert i < |s| - k - 1 ==> s[k..][i] == front[k..][i];
      }
    }
  }

  /** Stripping takes off blanks at both ends, all of them and nothing else. */
  lemma StripIs(s: string) returns (left: string, right: string)
    ensures s == left + Strip(s) + right && Spaces(left) && Spaces(right)
    ensures Strip(s) != "" ==> !IsSpace(Strip(s)[0]) && !IsSpace(Strip(s)[|Strip(s)| - 1])
  {
    hide StripLeft, StripRight, IsSpace;
    var t := StripLeft(s);
    LeftIs(s);
    RightIs(t);
    left, right := s[..|s| - |t|], t[|Strip(s)|..];
    assert s == left + t && t == Strip(s) + right;
  }

  // A strict reader of assignments

  datatype Line = Nothing | Assignment(key: string, value: string)

  ghost predicate KeyText(key: string) {
    key != "" && KeyStart(key[0]) && forall i :: 0 <= i < |key| ==> KeyChar(key[i])
  }

  /** A line reads as nothing, being blank or a comment, or as an assignment to a proper key. */
  ghost predicate Reads(line: string, l: Line) {
    match l
    case Nothing => Strip(line) == "" || Strip(line)[0] == '#'
    case Assignment(key, value) => KeyText(key) && Strip(line) == key + "=" + value
  }

  ghost predicate CanBeRead(line: string) {
    exists l :: Reads(line, l)
  }

  ghost predicate Readable(lines: seq<string>) {
    forall i :: 0 <= i < |lines| ==> CanBeRead(lines[i])
  }

  ghost predicate Assigned(lines: seq<string>, key: string) {
    exists i, value :: 0 <= i < |lines| && Reads(lines[i], Assignment(key, value))
  }

  lemma {:induction false} KeyRun(s: string)
    ensures forall i :: 0 <= i < KeyLength(s) ==> KeyChar(s[i])
    ensures KeyLength(s) < |s| ==> !KeyChar(s[KeyLength(s)])
  {
    if s != "" && KeyChar(s[0]) {
      KeyRun(s[1..]);
      forall i | 0 <= i < KeyLength(s) ensures KeyChar(s[i]) {
        assert i > 0 ==> s[i] == s[1..][i - 1];
      }
    }
  }

  lemma LineIsValidIff(line: string)
    ensures LineIsValid(line) <==> CanBeRead(line)
  {
    var s := Strip(line);
    hide Strip;
    if s == "" || s[0] == '#' {
      assert Reads(line, Nothing);
    } else if Assigns(s) {
      KeyRun(s);
      var k := KeyLength(s);
      assert k > 0;
      assert s == s[..k] + "=" + s[k + 1..];
      assert Reads(line, Assignment(s[..k], s[k + 1..]));
    } else if key, value :| Reads(line, Assignment(key, value)) {
      KeyEnds(key, value);
    }
  }

  lemma {:induction false} BeforeIs(s: string)
    ensures var b := Before(s, '=');
      |b| <= |s| && b == s[..|b|] && !('=' in b) && ('=' in s <==> |b| < |s|) && (|b| < |s| ==> s[|b|] == '=')
  {
    if s != "" && s[0] != '=' {
      BeforeIs(s[1..]);
    }
  }

  /** On readable lines the keys found are exactly those assigned. */
  lemma {:induction false} KeysFoundIff(lines: seq<string>, key: string)
    requires KeyText(key)
    ensures key in KeysOf(lines) <==> Assigned(lines, key)
  {
    hide Strip, KeyText;
    if lines != [] {
      var rest, s := lines[1..], Strip(lines[0]);
      KeysFoundIff(rest, key);
      LineAssignsIff(lines[0], key);
      if i, value :| 0 <= i < |lines| && Reads(lines[i], Assignment(key, value)) {
        assert i > 0 ==> Reads(rest[i - 1], Assignment(key, value));
      }
      if i, value :| 0 <= i < |rest| && Reads(rest[i], Assignment(key, value)) {
        assert Reads(lines[i + 1], Assignment(key, value));
      }
      if value :| Reads(lines[0], Assignment(key, value)) {
        assert Assigned(lines, key);
      }
    }
  }

  lemma LineAssignsIff(line: string, key: string)
    requires KeyText(key)
    ensures var s := Strip(line);
      '=' in s && s[0] != '#' && Before(s, '=') == key <==> exists value :: Reads(line, Assignment(key, value))
  {
    var s := Strip(line);
    hide Strip;
    BeforeIs(s);
    if '=' in s && Before(s, '=') == key {
      assert s == key + "=" + s[|key| + 1..];
      assert Reads(line, Assignment(key, s[|key| + 1..]));
    }
    if value :| Reads(line, Assignment(key, value)) {
      KeyEnds(key, value);
      assert s[|key|] == '=';
    }
  }

  lemma RequiredKeys()
    ensures KeyText("GO_FULA") && KeyText("FX_SUPPROT") && REQUIRED == {"GO_FULA", "FX_SUPPROT"}
  {
    KeysAreKeys();
  }

  /**
   * A file is healthy exactly if it holds no null byte and is UTF-8 for lines each of which is blank, a
   * comment or an assignment, the two image keys being assigned.
   */
  lemma HealthyIff(raw: seq<byte>)
    ensures Diagnose(raw) == Healthy <==>
      && !(0 in raw) && Decode(raw).Some?
      && var lines := SplitLines(Decode(raw).value);
         Readable(lines) && Assigned(lines, "GO_FULA") && Assigned(lines, "FX_SUPPROT")
  {
    hide Decode, SplitLines, LineIsValid, KeysOf, CanBeRead, Assigned, KeyText;
    if Decode(raw).Some? {
      var lines := SplitLines(Decode(raw).value);
      forall i | 0 <= i < |lines| ensures LineIsValid(lines[i]) <==> CanBeRead(lines[i]) {
        LineIsValidIff(lines[i]);
      }
      assert Readable(lines) <==> forall i :: 0 <= i < |lines| ==> LineIsValid(lines[i]);
      RequiredKeys();
      KeysFoundIff(lines, "GO_FULA");
      KeysFoundIff(lines, "FX_SUPPROT");
    }
  }

  // The written file

  /** An assignment of an image with a tag. */
  function ImageLine(key: string, image: string, tag: string): string {
    (key + "=" + image + ":") + tag
  }

  lemma DefaultsAre()
    ensures |DEFAULTS| == 7
    ensures DEFAULTS[0] == Entry("GO_FULA", "functionland/go-fula", true)
    ensures DEFAULTS[1] == Entry("FX_SUPPROT", "functionland/fxsupport", true)
    ensures DEFAULTS[2] == Entry("IPFS_CLUSTER", "functionland/ipfs-cluster", true)
    ensures DEFAULTS[3] == Entry("FULA_PINNING", "functionland/fula-pinning", true)
    ensures DEFAULTS[4] == Entry("FULA_GATEWAY", "functionland/fula-gateway", true)
    ensures DEFAULTS[5] == Entry("WPA_SUPLICANT_PATH", "/etc", false)
    ensures DEFAULTS[6] == Entry("CURRENT_USER", "pi", false)
  {
  }

  /** The lines of the file that is written, one by one: five tagged images and two plain settings. */
  lemma WrittenLines(tag: string)
    requires WellFormedTag(tag)
    ensures Decode(EnvBytes(tag)).Some?
    ensures var lines := SplitLines(Decode(EnvBytes(tag)).value);
      && |lines| == 7
      && lines[0] == ImageLine("GO_FULA", "functionland/go-fula", tag)
      && lines[1] == ImageLine("FX_SUPPROT", "functionland/fxsupport", tag)
      && lines[2] == ImageLine("IPFS_CLUSTER", "functionland/ipfs-cluster", tag)
      && lines[3] == ImageLine("FULA_PINNING", "functionland/fula-pinning", tag)
      && lines[4] == ImageLine("FULA_GATEWAY", "functionland/fula-gateway", tag)
      && lines[5] == "WPA_SUPLICANT_PATH" + "=" + "/etc"
      && lines[6] == "CURRENT_USER" + "=" + "pi"
  {
    hide EnvBytes, SplitLines, Decode, LinesOf, WellFormedTag, LineOf, ImageLine, DEFAULTS;
    EnvBytesAreText(tag);
    DefaultsAre();
    LineIs(DEFAULTS[0], tag);
    LineIs(DEFAULTS[1], tag);
    LineIs(DEFAULTS[2], tag);
    LineIs(DEFAULTS[3], tag);
    LineIs(DEFAULTS[4], tag);
    LineIs(DEFAULTS[5], tag);
    LineIs(DEFAULTS[6], tag);
  }

  lemma LineIs(e: Entry, tag: string)
    ensures LineOf(e, tag) == if e.tagged then ImageLine(e.key, e.image, tag) else e.key + "=" + e.image
  {
    assert (e.key + "=" + e.image) + "" == e.key + "=" + e.image;
  }
}
