/** Exactly which bodies the chunked decoder accepts, and which bodies the gateway therefore alters. */
module ChunkedGrammar {
  import opened Sequences
  import opened Utf8
  import opened ChunkedBody
  import opened ChunkedEncoding
  import opened ChunkedSizes

  /** A line break by itself, or a line that states a size, and data of that size. */
  datatype Item = Break | Sized(line: seq<byte>, data: seq<byte>)

  predicate ValidItem(x: Item) {
    x.Sized? ==> x.line != [] && x.data != [] && CrlfFree(x.line) && SizeOfLine(x.line) == Some(|x.data|)
  }

  function ItemBytes(x: Item): seq<byte> {
    if x.Break? then CRLF else x.line + CRLF + x.data
  }

  function Flat(items: seq<Item>): seq<byte> {
    if items == [] then [] else ItemBytes(items[0]) + Flat(items[1..])
  }

  function DataOf(items: seq<Item>): seq<byte> {
    if items == [] then [] else (if items[0].Sized? then items[0].data else []) + DataOf(items[1..])
  }

  /** A body ends with its bytes, or with a line that states size zero and anything behind it. */
  ghost predicate Ending(tail: seq<byte>) {
    tail == [] || exists line, rest :: ZeroLine(line) && tail == line + CRLF + rest
  }

  predicate ZeroLine(line: seq<byte>) {
    line != [] && CrlfFree(line) && SizeOfLine(line) == Some(0)
  }

  /** The body consists of such items with this data, up to an ending. */
  ghost predicate Form(body: seq<byte>, data: seq<byte>) {
    exists items, tail :: Composed(body, items, tail) && DataOf(items) == data
  }

  ghost predicate Composed(body: seq<byte>, items: seq<Item>, tail: seq<byte>) {
    (forall x :: x in items ==> ValidItem(x)) && Ending(tail) && body == Flat(items) + tail
  }

  // From the form to the data

  /** A line break that follows a chunk's data is skipped at once, or by the next turn. */
  lemma BreakIsSkipped(rest: seq<byte>, offset: nat)
    ensures ChunkData(CRLF + rest, offset) == ChunkData(rest, offset + 2)
    ensures SkipCrlf(rest) == rest || rest == CRLF + SkipCrlf(rest)
  {
    hide SizeOfLine;
    var s := CRLF + rest;
    assert s[2..] == rest && FindCrlf(s) == Some(0);
    assert NextTurn(s, offset) == Take([], rest);
    PrependNothing(ChunkData(rest, offset + 2));
  }

  lemma SkippingIsFree(rest: seq<byte>, offset: nat)
    ensures ChunkData(SkipCrlf(rest), offset + (|rest| - |SkipCrlf(rest)|)) == ChunkData(rest, offset)
  {
    hide ChunkData;
    BreakIsSkipped(rest, offset);
    if SkipCrlf(rest) != rest {
      BreakIsSkipped(SkipCrlf(rest), offset);
    }
  }

  lemma SizedTurn(x: Item, rest: seq<byte>, offset: nat)
    requires x.Sized? && ValidItem(x) && offset + |ItemBytes(x)| <= USIZE_MAX
    ensures NextTurn(ItemBytes(x) + rest, offset) == Take(x.data, SkipCrlf(rest))
  {
    hide SizeOfLine, FindCrlf, SkipCrlf;
    var s := x.line + CRLF + (x.data + rest);
    assert ItemBytes(x) + rest == s;
    FindsFirstCrlf(x.line, x.data + rest);
    assert s[..|x.line|] == x.line;
    assert s[|x.line| + 2..|x.line| + 2 + |x.data|] == x.data;
    assert s[|x.line| + 2 + |x.data|..] == rest;
  }

  lemma SizedIsTaken(x: Item, rest: seq<byte>, offset: nat)
    requires x.Sized? && ValidItem(x) && offset + |ItemBytes(x)| <= USIZE_MAX
    ensures ChunkData(ItemBytes(x) + rest, offset) ==
            Prepend(x.data, ChunkData(rest, offset + |ItemBytes(x)|))
  {
    hide NextTurn, SkipCrlf, ItemBytes;
    SizedTurn(x, rest, offset);
    SkippingIsFree(rest, offset + |ItemBytes(x)|);
  }

  lemma EndingStops(tail: seq<byte>, offset: nat)
    requires Ending(tail)
    ensures ChunkData(tail, offset) == Decoded([])
  {
    hide SizeOfLine;
    if tail != [] {
      var line, rest :| ZeroLine(line) && tail == line + CRLF + rest;
      FindsFirstCrlf(line, rest);
      assert tail[..|line|] == line;
    }
  }

  lemma {:induction false} FormIsDecoded(items: seq<Item>, tail: seq<byte>, offset: nat)
    requires (forall x :: x in items ==> ValidItem(x)) && Ending(tail)
    requires offset + |Flat(items) + tail| <= USIZE_MAX
    ensures ChunkData(Flat(items) + tail, offset) == Decoded(DataOf(items))
  {
    hide ChunkData, Ending, ValidItem;
    if items == [] {
      assert Flat(items) + tail == tail;
      EndingStops(tail, offset);
    } else {
      var x, rest := items[0], Flat(items[1..]) + tail;
      assert x in items && Flat(items) + tail == ItemBytes(x) + rest;
      FormIsDecoded(items[1..], tail, offset + |ItemBytes(x)|);
      if x.Break? {
        BreakIsSkipped(rest, offset);
        assert [] + DataOf(items[1..]) == DataOf(items[1..]);
      } else {
        SizedIsTaken(x, rest, offset);
      }
    }
  }

  // From the data to the form

  /** What one turn has read, as items. */
  function TurnItems(unread: seq<byte>, offset: nat): seq<Item>
    requires NextTurn(unread, offset).Take?
  {
    var t, crlf := NextTurn(unread, offset), FindCrlf(unread).value;
    if crlf == 0 then [Break]
    else [Sized(unread[..crlf], t.data)] + if |unread| - crlf - 2 - |t.data| > |t.rest| then [Break] else []
  }

  lemma TurnIsRead(unread: seq<byte>, offset: nat)
    requires NextTurn(unread, offset).Take?
    ensures var t, items := NextTurn(unread, offset), TurnItems(unread, offset);
      && (forall x :: x in items ==> ValidItem(x))
      && unread == Flat(items) + t.rest && DataOf(items) == t.data
  {
    var crlf := FindCrlf(unread).value;
    if crlf == 0 {
      FlatOne(Break);
      assert unread == CRLF + unread[2..];
    } else {
      SizedIsRead(unread, offset);
    }
  }

  lemma SizedIsRead(unread: seq<byte>, offset: nat)
    requires NextTurn(unread, offset).Take? && FindCrlf(unread) != Some(0)
    ensures var t, items := NextTurn(unread, offset), TurnItems(unread, offset);
      && (forall x :: x in items ==> ValidItem(x))
      && unread == Flat(items) + t.rest && DataOf(items) == t.data
  {
    hide NextTurn, FindCrlf, TurnItems, Flat, DataOf, ValidItem, ItemBytes;
    SizedParts(unread, offset);
    ItemsOfTurn(unread, offset);
    var t, crlf := NextTurn(unread, offset), FindCrlf(unread).value;
    var x, rest := Sized(unread[..crlf], t.data), unread[crlf + 2 + |t.data|..];
    BreakIsValid();
    OneSized(x, |rest| > |t.rest|);
    if |rest| > |t.rest| {
      Regroup(ItemBytes(x), CRLF, t.rest);
    } else {
      NothingAdded(ItemBytes(x));
    }
  }

  lemma NothingAdded(s: seq<byte>)
    ensures s + [] == s
  {
  }

  lemma ItemsOfTurn(unread: seq<byte>, offset: nat)
    requires NextTurn(unread, offset).Take? && FindCrlf(unread) != Some(0)
    ensures FindCrlf(unread).Some? && FindCrlf(unread).value + 2 + |NextTurn(unread, offset).data| <= |unread|
    ensures var t, crlf := NextTurn(unread, offset), FindCrlf(unread).value;
      var rest := unread[crlf + 2 + |t.data|..];
      TurnItems(unread, offset) == [Sized(unread[..crlf], t.data)] + if |rest| > |t.rest| then [Break] else []
  {
    hide NextTurn, FindCrlf;
    TakenParts(unread, offset);
  }

  lemma BreakIsValid()
    ensures ValidItem(Break)
  {
  }

  /** A sized item and perhaps a line break. */
  lemma OneSized(x: Item, breaks: bool)
    requires x.Sized?
    ensures var items := [x] + if breaks then [Break] else [];
      Flat(items) == ItemBytes(x) + (if breaks then CRLF else []) && DataOf(items) == x.data
  {
    FlatOne(x);
    hide Flat, DataOf, ItemBytes;
    if breaks {
      FlatOne(Break);
      FlatStep(x, [Break]);
      assert ItemBytes(Break) == CRLF by { BreakBytes(); }
      assert x.data + [] == x.data;
    } else {
      assert [x] + [] == [x] && ItemBytes(x) + [] == ItemBytes(x);
    }
  }

  lemma BreakBytes()
    ensures ItemBytes(Break) == CRLF
  {
  }

  /** Where a turn has found size and data. */
  lemma TakenParts(unread: seq<byte>, offset: nat)
    requires NextTurn(unread, offset).Take? && FindCrlf(unread) != Some(0)
    ensures var t, crlf := NextTurn(unread, offset), FindCrlf(unread).value;
      && FindCrlf(unread).Some? && crlf > 0 && t.data != [] && SizeOfLine(unread[..crlf]) == Some(|t.data|)
      && crlf + 2 + |t.data| <= |unread| && t.data == unread[crlf + 2..crlf + 2 + |t.data|]
      && t.rest == SkipCrlf(unread[crlf + 2 + |t.data|..])
  {
    hide SizeOfLine, FindCrlf, SkipCrlf;
  }

  /** The parts of a sized item that a turn has taken. */
  lemma SizedParts(unread: seq<byte>, offset: nat)
    requires NextTurn(unread, offset).Take? && FindCrlf(unread) != Some(0)
    ensures var t, crlf := NextTurn(unread, offset), FindCrlf(unread).value;
      && crlf + 2 + |t.data| <= |unread|
      && var x, rest := Sized(unread[..crlf], t.data), unread[crlf + 2 + |t.data|..];
         && ValidItem(x) && unread == ItemBytes(x) + rest
         && (if |rest| > |t.rest| then rest == CRLF + t.rest else rest == t.rest)
  {
    hide SizeOfLine, NextTurn, FindCrlf, SkipCrlf;
    TakenParts(unread, offset);
    var t, crlf := NextTurn(unread, offset), FindCrlf(unread).value;
    FirstCrlfFree(unread);
    ThreeParts(unread, crlf, |t.data|);
    BreakIsSkipped(unread[crlf + 2 + |t.data|..], offset);
  }

  lemma ThreeParts(s: seq<byte>, i: nat, size: nat)
    requires i + 2 + size <= |s| && s[i] == CR && s[i + 1] == LF
    ensures s == s[..i] + CRLF + s[i + 2..i + 2 + size] + s[i + 2 + size..]
  {
  }

  lemma FlatOne(x: Item)
    ensures Flat([x]) == ItemBytes(x) && DataOf([x]) == if x.Sized? then x.data else []
  {
    assert [x][1..] == [];
    assert ItemBytes(x) + [] == ItemBytes(x);
    assert DataOf([]) == [];
  }

  lemma {:induction false} FlatConcat(a: seq<Item>, b: seq<Item>)
    ensures Flat(a + b) == Flat(a) + Flat(b) && DataOf(a + b) == DataOf(a) + DataOf(b)
  {
    hide Flat, DataOf, ItemBytes;
    if a == [] {
      NoItems();
      assert a + b == b && [] + Flat(b) == Flat(b) && [] + DataOf(b) == DataOf(b);
    } else {
      FlatConcat(a[1..], b);
      FlatStep(a[0], a[1..]);
      FlatStep(a[0], a[1..] + b);
      assert [a[0]] + a[1..] == a && [a[0]] + (a[1..] + b) == a + b;
      Regroup(ItemBytes(a[0]), Flat(a[1..]), Flat(b));
      Regroup(DataOf([a[0]]), DataOf(a[1..]), DataOf(b));
    }
  }

  lemma NoItems()
    ensures Flat([]) == [] && DataOf([]) == []
  {
  }

  lemma FlatStep(x: Item, items: seq<Item>)
    ensures Flat([x] + items) == ItemBytes(x) + Flat(items)
    ensures DataOf([x] + items) == DataOf([x]) + DataOf(items)
  {
    FlatOne(x);
    assert ([x] + items)[1..] == items;
  }

  lemma Regroup(a: seq<byte>, b: seq<byte>, c: seq<byte>)
    ensures a + (b + c) == (a + b) + c
  {
  }

  lemma StopIsEnding(unread: seq<byte>, offset: nat)
    requires NextTurn(unread, offset).Stop?
    ensures Ending(unread)
  {
    hide SizeOfLine;
    if unread != [] {
      var crlf := FindCrlf(unread).value;
      FirstCrlfFree(unread);
      assert ZeroLine(unread[..crlf]) && unread == unread[..crlf] + CRLF + unread[crlf + 2..];
    }
  }

  lemma {:induction false} DecodedHasForm(unread: seq<byte>, offset: nat)
    returns (items: seq<Item>, tail: seq<byte>)
    requires ChunkData(unread, offset).Decoded?
    ensures Composed(unread, items, tail) && DataOf(items) == ChunkData(unread, offset).data
    decreases |unread|
  {
    hide NextTurn, Composed, DataOf, TurnItems;
    var t := NextTurn(unread, offset);
    if t.Take? {
      TakeIsShorter(unread, offset);
      var more: seq<Item>;
      more, tail := DecodedHasForm(t.rest, offset + (|unread| - |t.rest|));
      TurnIsRead(unread, offset);
      items := TurnItems(unread, offset) + more;
      JoinForm(unread, TurnItems(unread, offset), t.rest, more, tail);
    } else {
      StopIsEnding(unread, offset);
      items, tail := [], unread;
      EndingIsComposed(unread);
    }
  }

  lemma EndingIsComposed(tail: seq<byte>)
    requires Ending(tail)
    ensures Composed(tail, [], tail) && DataOf([]) == []
  {
    assert Flat([]) + tail == tail;
  }

  lemma JoinForm(body: seq<byte>, read: seq<Item>, rest: seq<byte>, more: seq<Item>, tail: seq<byte>)
    requires (forall x :: x in read ==> ValidItem(x)) && body == Flat(read) + rest && Composed(rest, more, tail)
    ensures Composed(body, read + more, tail) && DataOf(read + more) == DataOf(read) + DataOf(more)
  {
    hide Flat, DataOf, Ending, ValidItem;
    FlatConcat(read, more);
    Regroup(Flat(read), Flat(more), tail);
  }

  /**
   * A body is decoded to some data exactly if it consists of lines that state a size, each with data of
   * that size, and line breaks, up to its end or a line of size zero, and the data is not empty.
   */
  lemma DecodedIffForm(body: seq<byte>, data: seq<byte>)
    requires |body| <= ISIZE_MAX
    ensures DecodeResult(body) == Decoded(data) <==> data != [] && Form(body, data)
  {
    hide ChunkData, DataOf, Composed;
    if DecodeResult(body) == Decoded(data) {
      var items, tail := DecodedHasForm(body, 0);
    }
    if data != [] && Form(body, data) {
      var items, tail :| Composed(body, items, tail) && DataOf(items) == data;
      ComposedIsDecoded(body, items, tail);
    }
  }

  lemma ComposedIsDecoded(body: seq<byte>, items: seq<Item>, tail: seq<byte>)
    requires |body| <= ISIZE_MAX && Composed(body, items, tail)
    ensures ChunkData(body, 0) == Decoded(DataOf(items))
  {
    hide ChunkData, DataOf, Ending, ValidItem;
    FormIsDecoded(items, tail, 0);
  }

  // What is stored

  /**
   * A body comes through the gateway as it is exactly if decoding is not tried, or finds no such form
   * with data in it and no size beyond the address space.
   */
  lemma StoredAsItIsIff(hasDecodedLength: bool, hasAwsChunked: bool, body: seq<byte>)
    requires |body| <= ISIZE_MAX
    ensures Stored(hasDecodedLength, hasAwsChunked, body) == Some(body) <==>
      || !DecodingIsTried(hasDecodedLength, hasAwsChunked, body)
      || ((forall data :: Form(body, data) ==> data == []) && forall n: nat :: !ReachesTooMuch(body, 0, n))
  {
    hide ChunkData, Form, LooksLikeChunked, ReachesTooMuch;
    DataIsShorter(body, 0);
    OverflowsIff(body);
    forall data ensures DecodeResult(body) == Decoded(data) <==> data != [] && Form(body, data) {
      DecodedIffForm(body, data);
    }
    if DecodeResult(body).Decoded? {
      assert Form(body, DecodeResult(body).data);
    }
  }

  /** Without headers a plain text of four bytes, `1`, a line break and `x`, is stored as `x`. */
  lemma PlainTextIsAltered()
    ensures Stored(false, false, Bytes("1") + CRLF + [120]) == Some([120])
  {
    hide SizeOfLine;
    var line, x := Bytes("1"), Sized(Bytes("1"), [120]);
    var body := line + CRLF + [120];
    OneIsRead();
    assert body[..1] == line;
    FindsFirstCrlf(line, [120]);
    SizedIsTaken(x, [], 0);
    NothingUnread(|body|);
    assert ItemBytes(x) + [] == body && [120] + [] == [120];
  }

  lemma OneIsRead()
    ensures |Bytes("1")| == 1 && SizeOfLine(Bytes("1")) == Some(1)
  {
    assert Spells("1", 1) by {
      assert "1"[..0] == "" && HexNumber("") == 0 && HexDigit('1') == 1;
    }
    assert ValidExtension([]);
    SizeLineIsRead("1", [], 1);
    assert SizeLine("1", []) == Bytes("1");
  }
}
