/** The response handler that queues frames, and the receiver that puts the text together again. */
module BleHandler {
  import opened Sequences
  import opened JsonText
  import opened BleFraming

  datatype Message = Header(totalLength: nat, chunks: nat) | Data(index: nat, data: string)

  /** The message as it goes over the air. */
  function Text(m: Message): string {
    match m
    case Header(totalLength, chunks) => HeaderText(totalLength, chunks)
    case Data(index, data) => FrameText(index, data)
  }

  function Texts(ms: seq<Message>): seq<string> {
    if ms == [] then [] else [Text(ms[0])] + Texts(ms[1..])
  }

  /** Data frames for the pieces, numbered from `index`. */
  function Frames(pieces: seq<string>, index: nat): (r: seq<Message>)
    ensures |r| == |pieces|
    ensures forall i :: 0 <= i < |r| ==> r[i] == Data(index + i, pieces[i])
  {
    if pieces == [] then [] else [Data(index, pieces[0])] + Frames(pieces[1..], index + 1)
  }

  // The receiving side

  function Expect(s: string, word: string): Option<string> {
    if word <= s then Some(s[|word|..]) else None
  }

  function ReadNat(s: string): Option<Read<nat>> {
    var k := DigitRun(s);
    if k == 0 then None else Some(Read(ReadDecimal(s[..k]), s[k..]))
  }

  /** A head, a number, a middle, and what is left. */
  function ReadNumbered(s: string, head: string, middle: string): Option<Read<nat>> {
    var t := Expect(s, head);
    if t.None? then None
    else
      var n := ReadNat(t.value);
      if n.None? then None
      else
        var u := Expect(n.value.rest, middle);
        if u.None? then None else Some(Read(n.value.value, u.value))
  }

  function ReadData(s: string): Option<Message> {
    var n := ReadNumbered(s, FRAME_HEAD, FRAME_DATA);
    if n.None? then None
    else
      var q := ReadString(n.value.rest);
      if q.Some? && q.value.rest == "}" then Some(Data(n.value.value, q.value.value)) else None
  }

  function ReadHeader(s: string): Option<Message> {
    var n := ReadNumbered(s, HEADER_HEAD, HEADER_CHUNKS);
    if n.None? then None
    else
      var m := ReadNat(n.value.rest);
      if m.Some? && m.value.rest == "}" then Some(Header(n.value.value, m.value.value)) else None
  }

  /** The data of frames numbered from `index`, put together. */
  function JoinData(frames: seq<string>, index: nat): Option<string> {
    if frames == [] then Some("")
    else
      var m, rest := ReadData(frames[0]), JoinData(frames[1..], index + 1);
      if m.Some? && m.value.Data? && m.value.index == index && rest.Some? then Some(m.value.data + rest.value)
      else None
  }

  /** A receiver that insists on what the header announces. */
  function Reassemble(frames: seq<string>): Option<string> {
    if frames == [] then None
    else
      var h, text := ReadHeader(frames[0]), JoinData(frames[1..], 1);
      if h.Some? && text.Some? && h.value == Header(|text.value|, |frames| - 1) then text else None
  }

  lemma NumberedReadsBack(head: string, n: nat, middle: string, rest: string)
    requires middle != "" && !IsDigit(middle[0])
    ensures ReadNumbered(head + Decimal(n) + middle + rest, head, middle) == Some(Read(n, rest))
  {
    var s, t := head + Decimal(n) + middle + rest, Decimal(n) + (middle + rest);
    assert s == head + t && s[|head|..] == t;
    DecimalReadsBack(n);
    DigitRunStops(Decimal(n), middle + rest);
    assert t[..|Decimal(n)|] == Decimal(n) && t[|Decimal(n)|..] == middle + rest;
    assert (middle + rest)[|middle|..] == rest;
  }

  lemma DataReadsBack(index: nat, data: string)
    ensures ReadData(FrameText(index, data)) == Some(Data(index, data))
  {
    assert FrameText(index, data) == FRAME_HEAD + Decimal(index) + FRAME_DATA + (Quote(data) + "}");
    NumberedReadsBack(FRAME_HEAD, index, FRAME_DATA, Quote(data) + "}");
    QuotedReadsBack(data, "}");
    hide ReadNumbered, ReadString, Quote, Decimal;
  }

  lemma HeaderReadsBack(totalLength: nat, chunks: nat)
    ensures ReadHeader(HeaderText(totalLength, chunks)) == Some(Header(totalLength, chunks))
  {
    hide ReadNumbered, Decimal, ReadNat;
    var rest := Decimal(chunks) + "}";
    assert HeaderText(totalLength, chunks) == HEADER_HEAD + Decimal(totalLength) + HEADER_CHUNKS + rest;
    NumberedReadsBack(HEADER_HEAD, totalLength, HEADER_CHUNKS, rest);
    NatReadsBack(chunks, "}");
  }

  lemma NatReadsBack(n: nat, rest: string)
    requires rest == "" || !IsDigit(rest[0])
    ensures ReadNat(Decimal(n) + rest) == Some(Read(n, rest))
  {
    DecimalReadsBack(n);
    DigitRunStops(Decimal(n), rest);
    assert (Decimal(n) + rest)[..|Decimal(n)|] == Decimal(n) && (Decimal(n) + rest)[|Decimal(n)|..] == rest;
  }

  lemma {:induction false} FramesJoin(pieces: seq<string>, index: nat)
    ensures JoinData(Texts(Frames(pieces, index)), index) == Some(Concat(pieces))
  {
    if pieces != [] {
      var frames := Frames(pieces, index);
      FramesJoin(pieces[1..], index + 1);
      assert frames[1..] == Frames(pieces[1..], index + 1);
      DataReadsBack(index, pieces[0]);
      hide ReadData, FrameText;
      assert Texts(frames)[1..] == Texts(frames[1..]);
    }
  }

  lemma {:induction false} TextsAt(ms: seq<Message>)
    ensures |Texts(ms)| == |ms|
    ensures forall i :: 0 <= i < |ms| ==> Texts(ms)[i] == Text(ms[i])
  {
    hide Text;
    if ms != [] {
      TextsAt(ms[1..]);
      assert Texts(ms) == [Text(ms[0])] + Texts(ms[1..]);
    }
  }

  /** Header and frames of a cut give the text back to the receiver. */
  lemma DeliveryReadsBack(pieces: seq<string>, text: string)
    requires Concat(pieces) == text
    ensures Reassemble(Texts([Header(|text|, |pieces|)] + Frames(pieces, 1))) == Some(text)
  {
    hide ReadHeader, HeaderText, Concat, JoinData, Frames;
    var frames := Frames(pieces, 1);
    FramesJoin(pieces, 1);
    HeaderReadsBack(|text|, |pieces|);
    TextsStep(Header(|text|, |pieces|), frames);
    TextsAt(frames);
    hide Texts;
    assert ([HeaderText(|text|, |pieces|)] + Texts(frames))[1..] == Texts(frames);
  }

  lemma TextsStep(m: Message, ms: seq<Message>)
    ensures Texts([m] + ms) == [Text(m)] + Texts(ms)
  {
    assert ([m] + ms)[1..] == ms;
  }

  /** Endless: the source never returns. */
  datatype Prepared = Prepared(count: nat) | CannotFitData | HeaderTooLarge | Endless

  datatype Cut = Cut(frames: seq<Message>) | NoSize | NeverEnds

  function PiecesOf(text: string, mtu: int): seq<string>
    requires Cuttable(text, 0, mtu)
  {
    Pieces(text, 0, mtu)
  }

  class BLEResponseHandler {
    var mtuSize: int
    var chunks: seq<Message>
    var currentChunkIndex: nat

    constructor (mtuSize: int)
      ensures this.mtuSize == mtuSize - 3 && chunks == [] && currentChunkIndex == 0
    {
      this.mtuSize := mtuSize - 3; // Bluetooth overhead
      chunks, currentChunkIndex := [], 0;
    }

    /** Takes the text json.dumps made of the response. */
    method PrepareResponse(text: string) returns (r: Prepared)
      requires Printable(text)
      modifies this`chunks, this`currentChunkIndex
      ensures r.CannotFitData? <==> text != "" && InitialSize(mtuSize) < 1
      ensures r.Endless? <==> InitialSize(mtuSize) >= 1 && !Cuttable(text, 0, mtuSize)
      ensures r.HeaderTooLarge? <==>
        Cuttable(text, 0, mtuSize) && |HeaderText(|text|, |PiecesOf(text, mtuSize)|)| > mtuSize
      ensures !r.Prepared? ==> chunks == [] && currentChunkIndex == old(currentChunkIndex)
      ensures r.Prepared? ==>
        && chunks == [Header(|text|, |PiecesOf(text, mtuSize)|)] + Frames(PiecesOf(text, mtuSize), 1)
        && r.count == |chunks| && currentChunkIndex == 0
      ensures r.Prepared? ==>
        && (forall i :: 0 <= i < |chunks| ==> |Text(chunks[i])| <= mtuSize)
        && Reassemble(Texts(chunks)) == Some(text)
    {
      hide InitialSize, Pieces, Cuttable, Frames, FrameText, HeaderText, Reassemble, PiecesOf, Texts, Decimal, Escape;
      chunks := [];
      var cut := CutText(text);
      SizeNeeded(text, mtuSize);
      match cut
      case NoSize => return CannotFitData;
      case NeverEnds => return Endless;
      case Cut(dataChunks) =>
        var header := Header(|text|, |dataChunks|);
        if |Text(header)| > mtuSize {
          return HeaderTooLarge;
        }
        chunks := [header] + dataChunks;
        currentChunkIndex := 0;
        PiecesDelivered(text, mtuSize);
        return Prepared(|chunks|);
    }

    /** The outer loop: frames for the whole text, or no size to try. */
    method CutText(text: string) returns (cut: Cut)
      requires Printable(text)
      ensures cut.NoSize? <==> text != "" && InitialSize(mtuSize) < 1
      ensures cut.NeverEnds? <==> InitialSize(mtuSize) >= 1 && !Cuttable(text, 0, mtuSize)
      ensures cut.Cut? ==> Cuttable(text, 0, mtuSize) && cut.frames == Frames(PiecesOf(text, mtuSize), 1)
    {
      hide Escape, Decimal, FrameSize, Fits, Settle, Frames, Pieces, FramesLeft, InitialSize, Cuttable;
      var initialDataSize := InitialSize(mtuSize);
      SizeNeeded(text, mtuSize);
      var pos := 0;
      var dataChunks: seq<Message> := [];
      ghost var all := if Cuttable(text, 0, mtuSize) then Frames(PiecesOf(text, mtuSize), 1) else [];
      AllFramesLeft(text, mtuSize);
      assert text[0..] == text;
      assert text[|text|..] == "";
      while pos < |text|
        invariant pos <= |text| && (initialDataSize < 1 ==> pos == 0)
        invariant Cuttable(text, 0, mtuSize) <==> Cuttable(text[pos..], |dataChunks|, mtuSize)
        invariant Cuttable(text, 0, mtuSize) ==> all == dataChunks + FramesLeft(text[pos..], |dataChunks|, mtuSize)
        decreases |text| - pos
      {
        if initialDataSize <= 0 {
          return NoSize;
        }
        var size := Min(initialDataSize, |text| - pos);
        CutStep(text, pos, |dataChunks|, mtuSize);
        var ends: bool;
        size, ends := FitChunk(text, pos, |dataChunks| + 1, size);
        if !ends {
          return NeverEnds;
        }
        var chunk := Data(|dataChunks| + 1, text[pos..pos + size]);
        if Cuttable(text, 0, mtuSize) {
          ghost var left := FramesLeft(text[pos + size..], |dataChunks| + 1, mtuSize);
          assert dataChunks + ([chunk] + left) == (dataChunks + [chunk]) + left;
        }
        dataChunks := dataChunks + [chunk];
        pos := pos + size;
      }
      NoFramesLeft(|dataChunks|, mtuSize);
      return Cut(dataChunks);
    }

    /**
     * The inner loop: shrink the piece until its frame fits. A piece of one character that does not fit
     * is tried for ever; the method returns there, with `ends` false.
     */
    method FitChunk(text: string, pos: nat, index: nat, initial: nat) returns (size: nat, ends: bool)
      requires pos < |text| && 1 <= initial <= |text| - pos && Printable(text)
      ensures 1 <= size <= initial
      ensures ends <==> Fits(index, text[pos..][..1], mtuSize)
      ensures ends ==> size == Settle(index, text[pos..], initial, mtuSize)
      ensures !ends ==> size == 1
    {
      size := initial;
      ghost var rest := text[pos..];
      while true
        invariant 1 <= size <= initial
        invariant Fits(index, rest[..1], mtuSize) ==>
          Settle(index, rest, size, mtuSize) == Settle(index, rest, initial, mtuSize)
        decreases size
      {
        var data := text[pos..pos + size];
        assert data == rest[..size];
        var chunkJson := FrameText(index, data);
        FrameLength(index, data);
        if |chunkJson| <= mtuSize {
          FirstFits(index, rest, size, mtuSize);
          return size, true;
        }
        if size == 1 {
          return size, false;
        }
        var overage := |chunkJson| - mtuSize;
        size := Max(1, size - Max(1, overage));
      }
    }

    method GetNextChunk() returns (chunk: Option<Message>)
      modifies this`currentChunkIndex
      ensures (chunk, currentChunkIndex) == NextChunk(chunks, old(currentChunkIndex))
    {
      if currentChunkIndex < |chunks| {
        chunk := Some(chunks[currentChunkIndex]);
        currentChunkIndex := currentChunkIndex + 1;
      } else {
        chunk := None;
      }
    }
  }

  /** One call: the answer and the index after it. */
  function NextChunk(chunks: seq<Message>, i: nat): (Option<Message>, nat) {
    if i < |chunks| then (Some(chunks[i]), i + 1) else (None, i)
  }

  /** The answers of n calls. */
  function Calls(chunks: seq<Message>, i: nat, n: nat): seq<Option<Message>>
    decreases n
  {
    if n == 0 then [] else [NextChunk(chunks, i).0] + Calls(chunks, NextChunk(chunks, i).1, n - 1)
  }

  /** Chunks come out in order, each once, and then nothing does. */
  lemma {:induction false} CallsInOrder(chunks: seq<Message>, i: nat, n: nat)
    requires i <= |chunks|
    ensures |Calls(chunks, i, n)| == n
    ensures forall k :: 0 <= k < n ==>
      Calls(chunks, i, n)[k] == if i + k < |chunks| then Some(chunks[i + k]) else None
    decreases n
  {
    if n > 0 {
      CallsInOrder(chunks, NextChunk(chunks, i).1, n - 1);
    }
  }

  lemma FirstFits(index: nat, rest: string, size: nat, mtu: int)
    requires Printable(rest) && 1 <= size <= |rest| && Fits(index, rest[..size], mtu)
    ensures Fits(index, rest[..1], mtu)
  {
    DroppingFrees(rest[..size], 1);
    assert rest[..size][..1] == rest[..1];
  }

  lemma SizeNeeded(text: string, mtu: int)
    ensures text != "" && InitialSize(mtu) < 1 ==> !Cuttable(text, 0, mtu)
    ensures Cuttable("", 0, mtu)
  {
  }

  lemma AllFramesLeft(text: string, mtu: int)
    ensures Cuttable(text, 0, mtu) ==> Frames(PiecesOf(text, mtu), 1) == FramesLeft(text, 0, mtu)
  {
  }

  function FramesLeft(rest: string, made: nat, mtu: int): seq<Message>
    requires Cuttable(rest, made, mtu)
  {
    Frames(Pieces(rest, made, mtu), made + 1)
  }

  lemma NoFramesLeft(made: nat, mtu: int)
    ensures Cuttable("", made, mtu) && FramesLeft("", made, mtu) == []
  {
  }

  /** The first frame of a rest, and the frames of what it leaves. */
  lemma FramesStep(rest: string, made: nat, mtu: int)
    requires rest != "" && InitialSize(mtu) >= 1
    ensures Cuttable(rest, made, mtu) <==>
      Fits(made + 1, rest[..1], mtu) &&
      Cuttable(rest[Settle(made + 1, rest, Min(InitialSize(mtu), |rest|), mtu)..], made + 1, mtu)
    ensures Cuttable(rest, made, mtu) ==>
      var size := Settle(made + 1, rest, Min(InitialSize(mtu), |rest|), mtu);
      FramesLeft(rest, made, mtu) ==
      [Data(made + 1, rest[..size])] + FramesLeft(rest[size..], made + 1, mtu)
  {
    assert Cuttable(rest, made, mtu) <==> CuttableAt(rest, made, Min(InitialSize(mtu), |rest|), mtu);
    if Cuttable(rest, made, mtu) {
      var size := Settle(made + 1, rest, Min(InitialSize(mtu), |rest|), mtu);
      var tail := Pieces(rest[size..], made + 1, mtu);
      assert Pieces(rest, made, mtu) == [rest[..size]] + tail;
      assert ([rest[..size]] + tail)[1..] == tail;
    }
  }

  /** One turn of the outer loop. */
  lemma CutStep(text: string, pos: nat, made: nat, mtu: int)
    requires pos < |text| && InitialSize(mtu) >= 1
    ensures Cuttable(text[pos..], made, mtu) ==> Fits(made + 1, text[pos..][..1], mtu)
    ensures Fits(made + 1, text[pos..][..1], mtu) ==>
      var size := Settle(made + 1, text[pos..], Min(InitialSize(mtu), |text| - pos), mtu);
      && (Cuttable(text[pos..], made, mtu) <==> Cuttable(text[pos + size..], made + 1, mtu))
      && (Cuttable(text[pos..], made, mtu) ==>
            FramesLeft(text[pos..], made, mtu) ==
            [Data(made + 1, text[pos..pos + size])] + FramesLeft(text[pos + size..], made + 1, mtu))
  {
    hide Escape, Decimal, FrameSize, Fits, Settle, Frames, Pieces, FramesLeft, Cuttable;
    var rest := text[pos..];
    FramesStep(rest, made, mtu);
    if Fits(made + 1, rest[..1], mtu) {
      var size := Settle(made + 1, rest, Min(InitialSize(mtu), |rest|), mtu);
      assert rest[..size] == text[pos..pos + size] && rest[size..] == text[pos + size..];
    }
  }

  /** Every message of a cut fits the MTU, and the receiver recovers the text. */
  lemma PiecesDelivered(text: string, mtu: int)
    requires Cuttable(text, 0, mtu)
    ensures var frames := Frames(PiecesOf(text, mtu), 1);
      && (forall i :: 0 <= i < |frames| ==> |Text(frames[i])| <= mtu)
      && Reassemble(Texts([Header(|text|, |frames|)] + frames)) == Some(text)
  {
    hide Pieces, FrameText, Reassemble, Texts, Cuttable, FrameSize;
    var pieces := PiecesOf(text, mtu);
    PiecesAreACut(text, 0, mtu);
    forall i | 0 <= i < |pieces| ensures |FrameText(i + 1, pieces[i])| <= mtu {
      FrameLength(i + 1, pieces[i]);
      assert Fits(0 + i + 1, pieces[i], mtu);
    }
    DeliveryReadsBack(pieces, text);
  }

  /** A text that needs at most 999 chunks can be cut, into exactly the quotient, rounded up. */
  lemma ChunkCount(text: string, mtu: int)
    requires Printable(text) && InitialSize(mtu) >= 1
    requires CeilDiv(|text|, InitialSize(mtu)) <= 999
    ensures Cuttable(text, 0, mtu) && |PiecesOf(text, mtu)| == CeilDiv(|text|, (mtu - 47) / 2)
  {
    InitialSizeIs(mtu);
    PieceCount(text, 0, mtu);
  }

  /** So can a text whose number of characters, in digits, leaves room for one escaped character. */
  lemma RoomyTexts(text: string, mtu: int)
    requires Printable(text) && 46 + |Decimal(|text|)| <= mtu && (mtu - 47) / 2 >= 1
    ensures Cuttable(text, 0, mtu)
  {
    InitialSizeIs(mtu);
    RoomIsEnough(text, 0, mtu);
  }

  /**
   * The header of a text that can be cut is too large exactly if the digits of its length and of the
   * number of pieces, with the 52 characters around them, exceed the MTU. Up to 999 chunks that number
   * is the length divided by the initial size, rounded up; beyond it is no less, and at most the length.
   */
  lemma HeaderTooLargeIff(text: string, mtu: int)
    requires Printable(text) && (mtu - 47) / 2 >= 1 && Cuttable(text, 0, mtu)
    ensures var n, least := |PiecesOf(text, mtu)|, CeilDiv(|text|, (mtu - 47) / 2);
      && (|HeaderText(|text|, n)| > mtu <==> 52 + |Decimal(|text|)| + |Decimal(n)| > mtu)
      && least <= n <= |text| && (least <= 999 ==> n == least)
      && (52 + |Decimal(|text|)| + |Decimal(least)| > mtu ==> |HeaderText(|text|, n)| > mtu)
      && (52 + |Decimal(|text|)| + |Decimal(|text|)| <= mtu ==> |HeaderText(|text|, n)| <= mtu)
  {
    hide Pieces, Cuttable, HeaderText, Decimal, CeilDiv, InitialSize;
    InitialSizeIs(mtu);
    var n, least := |PiecesOf(text, mtu)|, CeilDiv(|text|, InitialSize(mtu));
    PieceCountBounds(text, 0, mtu);
    if least <= 999 {
      ChunkCount(text, mtu);
    }
    HeaderLength(|text|, n);
    DecimalGrows(least, n);
    DecimalGrows(n, |text|);
  }

  /** Below 54 an MTU has room for the header of no text, whether its data fits or not. */
  lemma NoHeaderBelow54(text: string, mtu: int)
    requires mtu < 54 && Cuttable(text, 0, mtu)
    ensures |HeaderText(|text|, |PiecesOf(text, mtu)|)| > mtu
  {
    hide Cuttable, PiecesOf;
    HeaderLength(|text|, |PiecesOf(text, mtu)|);
  }
}
