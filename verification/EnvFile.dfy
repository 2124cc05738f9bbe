/** Finding and repairing a corrupted .env file. */
module EnvFile {
  import opened Sequences
  import opened Utf8

  const GO_PREFIX := "GO_FULA="
  const FX_PREFIX := "FX_SUPPROT="
  const DEFAULT_TAG := "release"

  /** Key, value, and whether the image tag is appended. */
  datatype Entry = Entry(key: string, image: string, tagged: bool)

  const DEFAULTS: seq<Entry> := [
    Entry("GO_FULA", "functionland/go-fula", true),
    Entry("FX_SUPPROT", "functionland/fxsupport", true),
    Entry("IPFS_CLUSTER", "functionland/ipfs-cluster", true),
    Entry("FULA_PINNING", "functionland/fula-pinning", true),
    Entry("FULA_GATEWAY", "functionland/fula-gateway", true),
    Entry("WPA_SUPLICANT_PATH", "/etc", false),
    Entry("CURRENT_USER", "pi", false)]

  const REQUIRED: set<string> := {"GO_FULA", "FX_SUPPROT"}

  // Python's text operations

  /** What splitlines() breaks at. */
  predicate IsBreak(c: char) {
    var n := c as int;
    10 <= n <= 13 || 0x1C <= n <= 0x1E || n == 0x85 || n == 0x2028 || n == 0x2029
  }

  /** What strip() strips. */
  predicate IsSpace(c: char) {
    var n := c as int;
    || 9 <= n <= 13 || 0x1C <= n <= 0x20 || n == 0x85 || n == 0xA0 || n == 0x1680 || 0x2000 <= n <= 0x200A
    || n == 0x2028 || n == 0x2029 || n == 0x202F || n == 0x205F || n == 0x3000
  }

  function LineLength(s: string): (k: nat)
    ensures k <= |s|
    ensures k < |s| ==> IsBreak(s[k])
  {
    if s == "" || IsBreak(s[0]) then 0 else 1 + LineLength(s[1..])
  }

  function SplitLines(s: string): seq<string>
    decreases |s|
  {
    if s == "" then []
    else
      var k := LineLength(s);
      if k == |s| then [s]
      else if s[k] == '\r' && k + 1 < |s| && s[k + 1] == '\n' then [s[..k]] + SplitLines(s[k + 2..])
      else [s[..k]] + SplitLines(s[k + 1..])
  }

  function StripLeft(s: string): string {
    if s != "" && IsSpace(s[0]) then StripLeft(s[1..]) else s
  }

  function StripRight(s: string): string {
    if s != "" && IsSpace(s[|s| - 1]) then StripRight(s[..|s| - 1]) else s
  }

  function Strip(s: string): string {
    StripRight(StripLeft(s))
  }

  /** What follows the last c, if there is one. */
  function AfterLast(s: string, c: char): Option<string> {
    if s == "" then None
    else if s[|s| - 1] == c then Some("")
    else
      var r := AfterLast(s[..|s| - 1], c);
      if r.None? then None else Some(r.value + [s[|s| - 1]])
  }

  function Before(s: string, c: char): string {
    if s == "" || s[0] == c then "" else [s[0]] + Before(s[1..], c)
  }

  // Salvage

  predicate TagChar(c: char) {
    'A' <= c <= 'Z' || 'a' <= c <= 'z' || '0' <= c <= '9' || c == '.' || c == '_' || c == '-'
  }

  predicate WellFormedTag(tag: string) {
    tag != "" && forall i :: 0 <= i < |tag| ==> TagChar(tag[i])
  }

  function TagAfter(line: string, prefix: string): Option<string> {
    if prefix <= line then
      var tag := AfterLast(line[|prefix|..], ':');
      if tag.Some? && WellFormedTag(tag.value) then tag else None
    else None
  }

  function TagOfLine(line: string): Option<string> {
    var fx := TagAfter(Strip(line), FX_PREFIX);
    if fx.Some? then fx else TagAfter(Strip(line), GO_PREFIX)
  }

  /** The first usable tag, or the default. */
  function FirstTag(lines: seq<string>): string {
    if lines == [] then DEFAULT_TAG
    else if TagOfLine(lines[0]).Some? then TagOfLine(lines[0]).value
    else FirstTag(lines[1..])
  }

  function NonNull(): byte -> bool {
    (b: byte) => b != 0
  }

  function Salvaged(raw: seq<byte>): string {
    FirstTag(SplitLines(DecodeIgnoring(Filter(raw, NonNull()))))
  }

  method SalvageEnvTag(raw: seq<byte>) returns (tag: string)
    ensures tag == Salvaged(raw)
    ensures WellFormedTag(tag)
  {
    var lines := SplitLines(DecodeIgnoring(Filter(raw, NonNull())));
    assert lines[0..] == lines;
    for i := 0 to |lines|
      invariant FirstTag(lines[i..]) == FirstTag(lines)
    {
      assert lines[i..][1..] == lines[i + 1..];
      var found := TagOfLine(lines[i]);
      if found.Some? {
        return found.value;
      }
    }
    assert lines[|lines|..] == [];
    DefaultTagIsWellFormed();
    return DEFAULT_TAG;
  }

  lemma DefaultTagIsWellFormed()
    ensures WellFormedTag(DEFAULT_TAG)
  {
  }

  // The file that is written

  function LineOf(e: Entry, tag: string): string {
    e.key + "=" + e.image + if e.tagged then ":" + tag else ""
  }

  function LinesOf(entries: seq<Entry>, tag: string): (r: seq<string>)
    ensures |r| == |entries|
    ensures forall i :: 0 <= i < |entries| ==> r[i] == LineOf(entries[i], tag)
  {
    if entries == [] then [] else [LineOf(entries[0], tag)] + LinesOf(entries[1..], tag)
  }

  /** Each line ended by a newline. */
  function Unlines(lines: seq<string>): string {
    if lines == [] then "" else lines[0] + "\n" + Unlines(lines[1..])
  }

  function EnvText(tag: string): string {
    Unlines(LinesOf(DEFAULTS, tag))
  }

  method BuildEnvText(tag: string) returns (content: string)
    ensures content == EnvText(tag)
  {
    var lines: seq<string> := [];
    assert DEFAULTS[0..] == DEFAULTS;
    for i := 0 to |DEFAULTS|
      invariant lines + LinesOf(DEFAULTS[i..], tag) == LinesOf(DEFAULTS, tag)
    {
      assert DEFAULTS[i..][1..] == DEFAULTS[i + 1..];
      lines := lines + [LineOf(DEFAULTS[i], tag)];
    }
    assert DEFAULTS[|DEFAULTS|..] == [];
    assert lines + [] == lines;
    content := Unlines(lines);
  }

  // The four checks

  datatype Verdict = Healthy | NullBytes | NotUtf8 | BadLine | MissingKeys

  predicate KeyStart(c: char) {
    'A' <= c <= 'Z' || 'a' <= c <= 'z' || c == '_'
  }

  predicate KeyChar(c: char) {
    KeyStart(c) || '0' <= c <= '9'
  }

  function KeyLength(s: string): (k: nat)
    ensures k <= |s|
  {
    if s == "" || !KeyChar(s[0]) then 0 else 1 + KeyLength(s[1..])
  }

  /** `^[A-Za-z_][A-Za-z0-9_]*=` */
  predicate Assigns(s: string) {
    s != "" && KeyStart(s[0]) && KeyLength(s) < |s| && s[KeyLength(s)] == '='
  }

  predicate LineIsValid(line: string) {
    var s := Strip(line);
    s == "" || s[0] == '#' || Assigns(s)
  }

  function KeysOf(lines: seq<string>): set<string> {
    if lines == [] then {}
    else
      var s := Strip(lines[0]);
      (if '=' in s && s[0] != '#' then {Before(s, '=')} else {}) + KeysOf(lines[1..])
  }

  function Diagnose(raw: seq<byte>): Verdict {
    var text := Decode(raw);
    if 0 in raw then NullBytes
    else if text.None? then NotUtf8
    else if exists i :: 0 <= i < |SplitLines(text.value)| && !LineIsValid(SplitLines(text.value)[i]) then BadLine
    else if !(REQUIRED <= KeysOf(SplitLines(text.value))) then MissingKeys
    else Healthy
  }

  /** The checks in the order in which they are made. */
  method Inspect(raw: seq<byte>) returns (v: Verdict)
    ensures v == Diagnose(raw)
  {
    if 0 in raw {
      return NullBytes;
    }
    var text := Decode(raw);
    if text.None? {
      return NotUtf8;
    }
    var lines := SplitLines(text.value);
    for i := 0 to |lines|
      invariant forall j :: 0 <= j < i ==> LineIsValid(lines[j])
    {
      if !LineIsValid(lines[i]) {
        return BadLine;
      }
    }
    var found := FindKeys(lines);
    return if REQUIRED <= found then Healthy else MissingKeys;
  }

  method FindKeys(lines: seq<string>) returns (found: set<string>)
    ensures found == KeysOf(lines)
  {
    found := {};
    assert lines[0..] == lines;
    for i := 0 to |lines|
      invariant found + KeysOf(lines[i..]) == KeysOf(lines)
    {
      assert lines[i..][1..] == lines[i + 1..];
      var s := Strip(lines[i]);
      if '=' in s && s[0] != '#' {
        found := found + {Before(s, '=')};
      }
    }
    assert lines[|lines|..] == [];
  }

  // Lines of the written file

  /** Neither a line break nor a blank. */
  predicate Plain(s: string) {
    forall i :: 0 <= i < |s| ==> 0 < s[i] as int < 0x80 && !IsSpace(s[i])
  }

  predicate IsKey(s: string) {
    s != "" && KeyStart(s[0]) && forall i :: 0 <= i < |s| ==> KeyChar(s[i])
  }

  lemma KeysAreKeys()
    ensures IsKey("GO_FULA") && IsKey("FX_SUPPROT") && IsKey("IPFS_CLUSTER") && IsKey("FULA_PINNING")
    ensures IsKey("FULA_GATEWAY") && IsKey("WPA_SUPLICANT_PATH") && IsKey("CURRENT_USER")
  {
  }

  lemma FirstImagesArePlain()
    ensures Plain("functionland/go-fula") && Plain("functionland/fxsupport")
  {
  }

  lemma MoreImagesArePlain()
    ensures Plain("functionland/ipfs-cluster") && Plain("functionland/fula-pinning")
  {
  }

  lemma LastImagesArePlain()
    ensures Plain("functionland/fula-gateway") && Plain("/etc") && Plain("pi")
  {
  }

  lemma DefaultsAreUsable(i: nat)
    requires i < |DEFAULTS|
    ensures IsKey(DEFAULTS[i].key) && Plain(DEFAULTS[i].image) && DEFAULTS[i].image != ""
  {
    KeysAreKeys();
    FirstImagesArePlain();
    MoreImagesArePlain();
    LastImagesArePlain();
    hide IsKey, Plain;
  }

  lemma LineIsPlain(e: Entry, tag: string)
    requires IsKey(e.key) && Plain(e.image) && e.image != "" && WellFormedTag(tag)
    ensures Plain(LineOf(e, tag)) && LineOf(e, tag) != "" && LineOf(e, tag)[0] == e.key[0]
  {
    var line := LineOf(e, tag);
    forall i | 0 <= i < |line| ensures 0 < line[i] as int < 0x80 && !IsSpace(line[i]) {
      if i < |e.key| {
        assert line[i] == e.key[i] && KeyChar(e.key[i]);
      } else if i > |e.key| + |e.image| + 1 {
        assert TagChar(tag[i - |e.key| - |e.image| - 2]);
      } else if |e.key| < i <= |e.key| + |e.image| {
        assert line[i] == e.image[i - |e.key| - 1];
      }
    }
  }

  lemma PlainIsStripped(s: string)
    requires Plain(s)
    ensures Strip(s) == s
  {
  }

  lemma {:induction false} PlainHasNoBreak(s: string, rest: string)
    requires Plain(s)
    ensures LineLength(s + "\n" + rest) == |s|
  {
    if s != "" {
      assert (s + "\n" + rest)[1..] == s[1..] + "\n" + rest;
      assert !IsSpace(s[0]);
      PlainHasNoBreak(s[1..], rest);
    }
  }

  lemma {:induction false} UnlinesSplit(lines: seq<string>)
    requires forall i :: 0 <= i < |lines| ==> Plain(lines[i])
    ensures SplitLines(Unlines(lines)) == lines
  {
    if lines != [] {
      var s, rest := Unlines(lines), Unlines(lines[1..]);
      PlainHasNoBreak(lines[0], rest);
      UnlinesSplit(lines[1..]);
      assert s == lines[0] + "\n" + rest;
      assert s[..|lines[0]|] == lines[0] && s[|lines[0]| + 1..] == rest && s[|lines[0]|] == '\n';
    }
  }

  lemma {:induction false} UnlinesIsAscii(lines: seq<string>)
    requires forall i :: 0 <= i < |lines| ==> Plain(lines[i])
    ensures IsAscii(Unlines(lines)) && forall i :: 0 <= i < |Unlines(lines)| ==> Unlines(lines)[i] as int != 0
  {
    if lines != [] {
      UnlinesIsAscii(lines[1..]);
      var s, rest := Unlines(lines), Unlines(lines[1..]);
      forall i | 0 <= i < |s| ensures 0 < s[i] as int < 0x80 {
        if i < |lines[0]| {
          assert s[i] == lines[0][i];
        } else if i > |lines[0]| {
          assert s[i] == rest[i - |lines[0]| - 1];
        }
      }
    }
  }

  lemma EnvLinesArePlain(tag: string)
    requires WellFormedTag(tag)
    ensures var lines := LinesOf(DEFAULTS, tag);
      && (forall i :: 0 <= i < |lines| ==> Plain(lines[i]) && lines[i] != "" && lines[i][0] == DEFAULTS[i].key[0])
      && IsAscii(EnvText(tag)) && SplitLines(EnvText(tag)) == lines
      && forall i :: 0 <= i < |EnvText(tag)| ==> EnvText(tag)[i] as int != 0
  {
    var lines := LinesOf(DEFAULTS, tag);
    forall i | 0 <= i < |lines|
      ensures Plain(lines[i]) && lines[i] != "" && lines[i][0] == DEFAULTS[i].key[0]
    {
      DefaultsAreUsable(i);
      LineIsPlain(DEFAULTS[i], tag);
    }
    UnlinesIsAscii(lines);
    UnlinesSplit(lines);
  }

  /** The bytes of the file written for a tag. */
  function EnvBytes(tag: string): seq<byte>
    requires WellFormedTag(tag)
  {
    EnvLinesArePlain(tag);
    Bytes(EnvText(tag))
  }

  /** How writing goes: at once, through sudo after a denial, whose result nobody looks at, or with an exception. */
  datatype Writing = Direct | Denied(teeWrites: bool) | Raises

  predicate Succeeds(w: Writing) {
    w == Direct || w == Denied(true)
  }

  class EnvStore {
    // None while the file is missing.
    var file: Option<seq<byte>>

    constructor (file: Option<seq<byte>>)
      ensures this.file == file
    {
      this.file := file;
    }

    method WriteEnvFile(tag: string, w: Writing) returns (raised: bool)
      requires WellFormedTag(tag)
      modifies this
      ensures file == if Succeeds(w) then Some(EnvBytes(tag)) else old(file)
      ensures raised == w.Raises?
    {
      EnvLinesArePlain(tag);
      var content := BuildEnvText(tag);
      match w
      case Direct =>
        file := Some(Bytes(content));
        return false;
      case Denied(teeWrites) =>
        if teeWrites {
          file := Some(Bytes(content));
        }
        return false;
      case Raises =>
        return true;
    }

    /** `restarts`: the restart of the services after a repair does not raise. */
    method CheckAndFix(w: Writing, restarts: bool) returns (repaired: bool)
      modifies this
      ensures (file, repaired) == Fixed(old(file), w, restarts)
    {
      DefaultTagIsWellFormed();
      if file.None? {
        var raised := WriteEnvFile(DEFAULT_TAG, w);
        return !raised && restarts;
      }
      var verdict := Inspect(file.value);
      if verdict == Healthy {
        return false;
      }
      var tag := SalvageEnvTag(file.value);
      var raised := WriteEnvFile(tag, w);
      return !raised && restarts;
    }
  }

  lemma {:induction false} FirstTagIsWellFormed(lines: seq<string>)
    ensures WellFormedTag(FirstTag(lines))
  {
    DefaultTagIsWellFormed();
    if lines != [] {
      FirstTagIsWellFormed(lines[1..]);
    }
  }

  predicate HealthyFile(file: Option<seq<byte>>) {
    file.Some? && Diagnose(file.value) == Healthy
  }

  /** The tag a repair writes. */
  function RepairTag(file: Option<seq<byte>>): (tag: string)
    ensures WellFormedTag(tag)
  {
    DefaultTagIsWellFormed();
    if file.None? then DEFAULT_TAG
    else
      FirstTagIsWellFormed(SplitLines(DecodeIgnoring(Filter(file.value, NonNull()))));
      Salvaged(file.value)
  }

  /** What one check makes of the file, and whether it reports a repair: any exception means it does not. */
  function Fixed(file: Option<seq<byte>>, w: Writing, restarts: bool): (Option<seq<byte>>, bool) {
    if HealthyFile(file) then (file, false)
    else (if Succeeds(w) then Some(EnvBytes(RepairTag(file))) else file, !w.Raises? && restarts)
  }

  // The repair converges

  lemma {:induction false} KeyEnds(key: string, rest: string)
    requires forall i :: 0 <= i < |key| ==> KeyChar(key[i])
    ensures KeyLength(key + "=" + rest) == |key| && Before(key + "=" + rest, '=') == key
  {
    var s := key + "=" + rest;
    if key != "" {
      assert KeyChar(key[0]);
      assert s[1..] == key[1..] + "=" + rest;
      KeyEnds(key[1..], rest);
      assert [key[0]] + key[1..] == key;
    }
  }

  lemma EntryLineIsValid(e: Entry, tag: string)
    requires IsKey(e.key) && Plain(e.image) && e.image != "" && WellFormedTag(tag)
    ensures var line := LineOf(e, tag);
      Strip(line) == line && LineIsValid(line) && '=' in line && line[0] != '#' && Before(line, '=') == e.key
  {
    var line, rest := LineOf(e, tag), e.image + if e.tagged then ":" + tag else "";
    LineIsPlain(e, tag);
    PlainIsStripped(line);
    assert line == e.key + "=" + rest;
    KeyEnds(e.key, rest);
    assert line[|e.key|] == '=';
  }

  lemma {:induction false} KeysOfMember(lines: seq<string>, i: nat)
    requires i < |lines| && '=' in Strip(lines[i]) && Strip(lines[i])[0] != '#'
    ensures Before(Strip(lines[i]), '=') in KeysOf(lines)
  {
    if i > 0 {
      KeysOfMember(lines[1..], i - 1);
    }
  }

  /** The file written for a well-formed tag passes all four checks. */
  lemma WrittenFileIsHealthy(tag: string)
    requires WellFormedTag(tag)
    ensures Diagnose(EnvBytes(tag)) == Healthy
  {
    hide LineIsValid, KeysOf, SplitLines, Decode, EnvBytes, LinesOf, WellFormedTag;
    var lines := LinesOf(DEFAULTS, tag);
    EnvBytesAreText(tag);
    forall i | 0 <= i < |lines| ensures LineIsValid(lines[i]) {
      EnvLineIsFine(tag, i);
    }
    EnvLineIsFine(tag, 0);
    EnvLineIsFine(tag, 1);
    assert DEFAULTS[0].key == "GO_FULA" && DEFAULTS[1].key == "FX_SUPPROT";
  }

  lemma EnvBytesAreText(tag: string)
    requires WellFormedTag(tag)
    ensures 0 !in EnvBytes(tag) && Decode(EnvBytes(tag)).Some?
    ensures SplitLines(Decode(EnvBytes(tag)).value) == LinesOf(DEFAULTS, tag)
  {
    hide EnvText, LinesOf, WellFormedTag;
    EnvLinesArePlain(tag);
    AsciiDecodes(EnvText(tag));
  }

  lemma EnvLineIsFine(tag: string, i: nat)
    requires WellFormedTag(tag) && i < |DEFAULTS|
    ensures var lines := LinesOf(DEFAULTS, tag); LineIsValid(lines[i]) && DEFAULTS[i].key in KeysOf(lines)
  {
    hide LineOf, WellFormedTag, LineIsValid;
    DefaultsAreUsable(i);
    EntryLineIsValid(DEFAULTS[i], tag);
    KeysOfMember(LinesOf(DEFAULTS, tag), i);
  }

  lemma {:induction false} TagIsAfterLastColon(a: string, tag: string)
    requires forall i :: 0 <= i < |tag| ==> tag[i] != ':'
    ensures AfterLast(a + ":" + tag, ':') == Some(tag)
  {
    var s := a + ":" + tag;
    if tag != "" {
      assert s[..|s| - 1] == a + ":" + tag[..|tag| - 1];
      TagIsAfterLastColon(a, tag[..|tag| - 1]);
      assert tag == tag[..|tag| - 1] + [tag[|tag| - 1]];
    }
  }

  lemma PrefixedTag(line: string, prefix: string, image: string, tag: string)
    requires WellFormedTag(tag) && line == prefix + (image + ":" + tag)
    ensures TagAfter(line, prefix) == Some(tag)
  {
    forall i | 0 <= i < |tag| ensures tag[i] != ':' {
      assert TagChar(tag[i]);
    }
    assert line[|prefix|..] == image + ":" + tag;
    TagIsAfterLastColon(image, tag);
  }

  lemma OtherPrefix(line: string, prefix: string)
    requires line != "" && prefix != "" && line[0] != prefix[0]
    ensures TagAfter(line, prefix) == None
  {
  }

  lemma GoPrefix()
    ensures GO_PREFIX == "GO_FULA" + "=" && GO_PREFIX[0] == 'G' && FX_PREFIX[0] == 'F' && FX_PREFIX != ""
  {
  }

  lemma TaggedLine(e: Entry, tag: string)
    requires e.tagged
    ensures LineOf(e, tag) == (e.key + "=") + (e.image + ":" + tag)
  {
  }

  lemma EntryHoldsTag(e: Entry, tag: string)
    requires IsKey(e.key) && Plain(e.image) && e.image != "" && WellFormedTag(tag)
    requires e.tagged && e.key + "=" == GO_PREFIX && e.key[0] != FX_PREFIX[0]
    ensures TagOfLine(LineOf(e, tag)) == Some(tag)
  {
    var line := LineOf(e, tag);
    EntryLineIsValid(e, tag);
    LineIsPlain(e, tag);
    TaggedLine(e, tag);
    OtherPrefix(line, FX_PREFIX);
    PrefixedTag(line, GO_PREFIX, e.image, tag);
    hide TagAfter, Strip, LineOf, WellFormedTag, Plain;
  }

  lemma FirstLineHoldsTag(tag: string)
    requires WellFormedTag(tag)
    ensures TagOfLine(LineOf(DEFAULTS[0], tag)) == Some(tag)
  {
    hide TagOfLine, LineOf, WellFormedTag;
    GoPrefix();
    DefaultsAreUsable(0);
    EntryHoldsTag(DEFAULTS[0], tag);
  }

  /** Null bytes scattered over the written file do not keep the tag from being recovered. */
  lemma SalvageSurvivesNulls(raw: seq<byte>, tag: string)
    requires WellFormedTag(tag) && Filter(raw, NonNull()) == EnvBytes(tag)
    ensures Salvaged(raw) == tag
  {
    EnvLinesArePlain(tag);
    AsciiDecodes(EnvText(tag));
    assert LinesOf(DEFAULTS, tag)[0] == LineOf(DEFAULTS[0], tag);
    FirstLineHoldsTag(tag);
  }

  lemma {:induction false} FilterSkips(a: seq<byte>, x: byte, b: seq<byte>, f: byte -> bool)
    requires !f(x)
    ensures Filter(a + [x] + b, f) == Filter(a + b, f)
  {
    if a == [] {
      assert (a + [x] + b)[1..] == b && a + b == b;
    } else {
      assert (a + [x] + b)[1..] == a[1..] + [x] + b && (a + b)[1..] == a[1..] + b;
      FilterSkips(a[1..], x, b, f);
    }
  }

  /** Inserting null bytes anywhere, one at a time, stays within the reach of the salvage. */
  lemma NullInsertion(raw: seq<byte>, k: nat)
    requires k <= |raw|
    ensures Filter(raw[..k] + [0] + raw[k..], NonNull()) == Filter(raw, NonNull())
  {
    hide Filter;
    assert raw[..k] + raw[k..] == raw;
    FilterSkips(raw[..k], 0, raw[k..], NonNull());
  }

  /**
   * Whatever the file held, after one check it is healthy exactly if it was or the write succeeded; and
   * then the next check leaves it alone.
   */
  lemma OneCheckIsEnough(file: Option<seq<byte>>, w: Writing, restarts: bool, w2: Writing, restarts2: bool)
    ensures var after := Fixed(file, w, restarts).0;
      && (HealthyFile(after) <==> HealthyFile(file) || Succeeds(w))
      && (HealthyFile(after) ==> Fixed(after, w2, restarts2) == (after, false))
  {
    hide Diagnose, Salvaged, EnvBytes;
    WrittenFileIsHealthy(RepairTag(file));
  }

  /**
   * The report for an unhealthy file says whether it is healthy now, except in two cases: a denied write
   * whose sudo fallback fails is reported as a repair, and a repair whose service restart raises is not.
   */
  lemma ReportIsRightIff(file: Option<seq<byte>>, w: Writing, restarts: bool)
    requires !HealthyFile(file)
    ensures var (after, repaired) := Fixed(file, w, restarts);
      (repaired <==> HealthyFile(after)) <==>
        !(w == Denied(false) && restarts) && !(Succeeds(w) && !restarts)
  {
    hide Diagnose, Salvaged, EnvBytes;
    OneCheckIsEnough(file, w, restarts, w, restarts);
  }

  /** The repair carries the tag over: nulls in a file written for a tag give back that very file. */
  lemma RepairRestoresWrittenFile(raw: seq<byte>, tag: string, w: Writing, restarts: bool)
    requires WellFormedTag(tag) && Filter(raw, NonNull()) == EnvBytes(tag) && 0 in raw && Succeeds(w)
    ensures Fixed(Some(raw), w, restarts) == (Some(EnvBytes(tag)), restarts)
  {
    SalvageSurvivesNulls(raw, tag);
  }
}
