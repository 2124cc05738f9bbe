/** Frames and header read by an ordinary JSON parser, and the size a retry settles on. */
module BleJson {
  import opened Sequences
  import opened JsonText
  import opened CanonicalJson
  import opened JsonParser
  import opened CanonicalJsonShortest
  import opened BleFraming
  import opened BleHandler

  /** The dict a data frame is. */
  function FrameDict(index: nat, data: string): Json {
    Dict([Member("type", Str("ble_chunk")), Member("index", Int(index)), Member("data", Str(data))])
  }

  /** The dict the header is. */
  function HeaderDict(totalLength: nat, chunks: nat): Json {
    Dict([Member("type", Str("ble_header")), Member("total_length", Int(totalLength)), Member("chunks", Int(chunks))])
  }

  /** `"key": ` and what follows. */
  function Field(key: string, text: string): string {
    "\"" + key + "\": " + text
  }

  /** No character of the key has to be escaped. */
  predicate PlainKey(key: string) {
    forall i :: 0 <= i < |key| ==> !NeedsEscape(key[i])
  }

  /** A member with a space after the colon, and what follows it; a space in front does no harm. */
  lemma FieldIsRead(key: string, text: string, v: Json, rest: string)
    requires PlainKey(key) && ReadValue(text) == Some(Read(v, rest))
    ensures ReadMember(Field(key, text)) == Some(Read(Member(key, v), rest))
    ensures ReadMember(" " + Field(key, text)) == Some(Read(Member(key, v), rest))
  {
    hide ReadValue, Escape, ReadString;
    PlainBody(key);
    var s := Field(key, text);
    assert s == Quote(key) + (": " + text);
    QuotedReadsBack(key, ": " + text);
    SpaceIsSkipped(text);
    assert (": " + text)[1..] == " " + text;
    assert SkipSpace(s) == s && SkipSpace(": " + text) == ": " + text;
    assert (" " + s)[1..] == s && SkipSpace(" " + s) == s;
  }

  lemma SpaceIsSkipped(text: string)
    ensures ReadValue(" " + text) == ReadValue(text)
  {
    assert (" " + text)[1..] == text;
    assert SkipSpace(" " + text) == SkipSpace(text);
  }

  lemma LastMember(s: string, m: Member)
    requires ReadMember(s) == Some(Read(m, "}"))
    ensures ReadMembers(s) == Some(Read([m], ""))
  {
    hide ReadMember;
    assert "}"[1..] == "";
  }

  lemma NextMember(s: string, m: Member, rest: string, ms: seq<Member>)
    requires ReadMember(s) == Some(Read(m, "," + rest)) && ReadMembers(rest) == Some(Read(ms, ""))
    ensures ReadMembers(s) == Some(Read([m] + ms, ""))
  {
    hide ReadMember;
    assert ("," + rest)[1..] == rest;
  }

  lemma Braced(s: string, ms: seq<Member>)
    requires s != "" && s[0] == '"' && ReadMembers(s) == Some(Read(ms, ""))
    ensures ReadValue("{" + s) == Some(Read(Dict(ms), ""))
  {
    hide ReadMembers;
    BraceIsRead(s);
    assert SkipSpace(s) == s;
  }

  lemma NumberValue(n: nat, rest: string)
    requires EndsNumber(rest)
    ensures ReadValue(Decimal(n) + rest) == Some(Read(Int(n), rest))
  {
    ScalarReadsBack(Int(n), rest);
    hide Decimal;
  }

  lemma KeysArePlain()
    ensures PlainKey("type") && PlainKey("index") && PlainKey("data") && PlainKey("total_length") && PlainKey("chunks")
  {
  }

  lemma TypesArePlain()
    ensures PlainKey("ble_chunk") && PlainKey("ble_header")
  {
  }

  lemma PlainIsQuoted(s: string)
    requires PlainKey(s)
    ensures Quote(s) == "\"" + s + "\""
  {
    PlainBody(s);
    hide Escape;
  }

  /** Three members, as json.dumps separates them. */
  function ThreeFields(k1: string, t1: string, k2: string, t2: string, k3: string, t3: string): string {
    "{" + Field(k1, t1 + ("," + (" " + Field(k2, t2 + ("," + (" " + Field(k3, t3 + "}")))))))
  }

  lemma ThreeFieldsAreRead(k1: string, t1: string, v1: Json, k2: string, t2: string, v2: Json,
                           k3: string, t3: string, v3: Json)
    requires PlainKey(k1) && PlainKey(k2) && PlainKey(k3)
    requires forall rest :: EndsNumber(rest) ==> ReadValue(t1 + rest) == Some(Read(v1, rest))
    requires forall rest :: EndsNumber(rest) ==> ReadValue(t2 + rest) == Some(Read(v2, rest))
    requires forall rest :: EndsNumber(rest) ==> ReadValue(t3 + rest) == Some(Read(v3, rest))
    ensures ReadValue(ThreeFields(k1, t1, k2, t2, k3, t3)) ==
            Some(Read(Dict([Member(k1, v1), Member(k2, v2), Member(k3, v3)]), ""))
  {
    hide ReadValue, ReadMember, ReadMembers, Field, PlainKey;
    var third := " " + Field(k3, t3 + "}");
    var second := " " + Field(k2, t2 + ("," + third));
    var first := Field(k1, t1 + ("," + second));
    FieldIsRead(k3, t3 + "}", v3, "}");
    LastMember(third, Member(k3, v3));
    FieldIsRead(k2, t2 + ("," + third), v2, "," + third);
    NextMember(second, Member(k2, v2), third, [Member(k3, v3)]);
    FieldIsRead(k1, t1 + ("," + second), v1, "," + second);
    NextMember(first, Member(k1, v1), second, [Member(k2, v2)] + [Member(k3, v3)]);
    FieldStarts(k1, t1 + ("," + second));
    Braced(first, [Member(k1, v1)] + ([Member(k2, v2)] + [Member(k3, v3)]));
    assert [Member(k1, v1)] + ([Member(k2, v2)] + [Member(k3, v3)]) == [Member(k1, v1), Member(k2, v2), Member(k3, v3)];
  }

  lemma FieldStarts(key: string, text: string)
    ensures Field(key, text) != "" && Field(key, text)[0] == '"'
  {
  }

  lemma FrameLiterals()
    ensures FRAME_HEAD == "{\"type\": " + "\"ble_chunk\"" + ", \"index\": " && FRAME_DATA == ", \"data\": "
    ensures "\"ble_chunk\"" == "\"" + "ble_chunk" + "\""
  {
  }

  lemma HeaderLiterals()
    ensures HEADER_HEAD == "{\"type\": " + "\"ble_header\"" + ", \"total_length\": "
    ensures HEADER_CHUNKS == ", \"chunks\": " && "\"ble_header\"" == "\"" + "ble_header" + "\""
  {
  }

  lemma FieldLiterals()
    ensures "{" + ("\"" + "type" + "\": ") == "{\"type\": "
    ensures "," + (" " + ("\"" + "index" + "\": ")) == ", \"index\": "
    ensures "," + (" " + ("\"" + "data" + "\": ")) == ", \"data\": "
    ensures "," + (" " + ("\"" + "total_length" + "\": ")) == ", \"total_length\": "
    ensures "," + (" " + ("\"" + "chunks" + "\": ")) == ", \"chunks\": "
  {
  }

  /** Three fields are their keys with the punctuation, and their texts, one after the other. */
  lemma ThreeFieldsAre(k1: string, t1: string, k2: string, t2: string, k3: string, t3: string)
    ensures ThreeFields(k1, t1, k2, t2, k3, t3) ==
      ("{" + ("\"" + k1 + "\": ")) + t1 + ("," + (" " + ("\"" + k2 + "\": "))) + t2 +
      ("," + (" " + ("\"" + k3 + "\": "))) + t3 + "}"
  {
  }

  lemma FrameIsThreeFields(index: nat, data: string)
    ensures FrameText(index, data) ==
            ThreeFields("type", "\"" + "ble_chunk" + "\"", "index", Decimal(index), "data", Quote(data))
  {
    hide Decimal, Quote, ThreeFields, FRAME_HEAD, FRAME_DATA;
    FrameLiterals();
    FieldLiterals();
    ThreeFieldsAre("type", "\"" + "ble_chunk" + "\"", "index", Decimal(index), "data", Quote(data));
  }

  lemma HeaderIsThreeFields(totalLength: nat, chunks: nat)
    ensures HeaderText(totalLength, chunks) ==
            ThreeFields("type", "\"" + "ble_header" + "\"", "total_length", Decimal(totalLength),
                        "chunks", Decimal(chunks))
  {
    hide Decimal, ThreeFields, HEADER_HEAD, HEADER_CHUNKS;
    HeaderLiterals();
    FieldLiterals();
    ThreeFieldsAre("type", "\"" + "ble_header" + "\"", "total_length", Decimal(totalLength),
                   "chunks", Decimal(chunks));
  }

  /** To a JSON parser a frame is a dict of type, index and data. */
  lemma FrameIsJson(index: nat, data: string)
    ensures ReadValue(FrameText(index, data)) == Some(Read(FrameDict(index, data), ""))
  {
    hide ReadValue, Decimal, Quote, PlainKey, FrameText, ThreeFields;
    KeysArePlain();
    TypesArePlain();
    PlainIsQuoted("ble_chunk");
    FrameIsThreeFields(index, data);
    forall rest | EndsNumber(rest)
      ensures ReadValue("\"" + "ble_chunk" + "\"" + rest) == Some(Read(Str("ble_chunk"), rest))
      ensures ReadValue(Decimal(index) + rest) == Some(Read(Int(index), rest))
      ensures ReadValue(Quote(data) + rest) == Some(Read(Str(data), rest))
    {
      StringIsRead("ble_chunk", rest);
      NumberValue(index, rest);
      StringIsRead(data, rest);
    }
    ThreeFieldsAreRead("type", "\"" + "ble_chunk" + "\"", Str("ble_chunk"), "index", Decimal(index), Int(index),
                       "data", Quote(data), Str(data));
  }

  /** And the header one of type, total length and number of chunks. */
  lemma HeaderIsJson(totalLength: nat, chunks: nat)
    ensures ReadValue(HeaderText(totalLength, chunks)) == Some(Read(HeaderDict(totalLength, chunks), ""))
  {
    hide ReadValue, Decimal, Quote, PlainKey, HeaderText, ThreeFields;
    KeysArePlain();
    TypesArePlain();
    PlainIsQuoted("ble_header");
    HeaderIsThreeFields(totalLength, chunks);
    forall rest | EndsNumber(rest)
      ensures ReadValue("\"" + "ble_header" + "\"" + rest) == Some(Read(Str("ble_header"), rest))
      ensures ReadValue(Decimal(totalLength) + rest) == Some(Read(Int(totalLength), rest))
      ensures ReadValue(Decimal(chunks) + rest) == Some(Read(Int(chunks), rest))
    {
      StringIsRead("ble_header", rest);
      NumberValue(totalLength, rest);
      NumberValue(chunks, rest);
    }
    ThreeFieldsAreRead("type", "\"" + "ble_header" + "\"", Str("ble_header"), "total_length", Decimal(totalLength),
                       Int(totalLength), "chunks", Decimal(chunks), Int(chunks));
  }

  /**
   * The piece of a chunk that has room for one escaped character: the initial size if its frame fits,
   * and else that size less what the frame exceeds the MTU by, but at least one.
   */
  lemma RetrySize(index: nat, rest: string, size: nat, mtu: int)
    requires Printable(rest) && 1 <= size <= |rest| && 46 + |Decimal(index)| <= mtu
    ensures Fits(index, rest[..1], mtu)
    ensures var length := |FrameText(index, rest[..size])|;
      Settle(index, rest, size, mtu) ==
      if length <= mtu then size else if size - (length - mtu) >= 1 then size - (length - mtu) else 1
  {
    OneRetryIsEnough(index, rest, size, mtu);
    FrameLength(index, rest[..size]);
    hide FrameText, FrameSize;
  }
}
