/** Cutting a JSON text into frames that are themselves JSON and must fit a Bluetooth MTU. */
module BleFraming {
  import opened JsonText

  /** What json.dumps produces: with ensure_ascii every character is printable ASCII. */
  predicate Printable(s: string) {
    forall i :: 0 <= i < |s| ==> ' ' <= s[i] <= '~'
  }

  const FRAME_HEAD := "{\"type\": \"ble_chunk\", \"index\": "
  const FRAME_DATA := ", \"data\": "
  const HEADER_HEAD := "{\"type\": \"ble_header\", \"total_length\": "
  const HEADER_CHUNKS := ", \"chunks\": "

  /** json.dumps of a data frame. */
  function FrameText(index: nat, data: string): string {
    FRAME_HEAD + Decimal(index) + FRAME_DATA + Quote(data) + "}"
  }

  /** json.dumps of the header. */
  function HeaderText(totalLength: nat, chunks: nat): string {
    HEADER_HEAD + Decimal(totalLength) + HEADER_CHUNKS + Decimal(chunks) + "}"
  }

  // Sizes

  /** Escaping at least keeps and at most doubles the length of a printable text. */
  lemma {:induction false} EscapedLength(s: string)
    requires Printable(s)
    ensures |s| <= |Escape(s)| <= 2 * |s|
  {
    if s != "" {
      EscapedLength(s[1..]);
    }
  }

  lemma {:induction false} EscapeConcat(a: string, b: string)
    ensures Escape(a + b) == Escape(a) + Escape(b)
  {
    if a == "" {
      assert a + b == b;
    } else {
      assert (a + b)[1..] == a[1..] + b;
      EscapeConcat(a[1..], b);
    }
  }

  /** Each character dropped from a piece shortens its frame by at least one. */
  lemma DroppingFrees(s: string, k: nat)
    requires Printable(s) && k <= |s|
    ensures |Escape(s[..k])| + (|s| - k) <= |Escape(s)|
  {
    assert s == s[..k] + s[k..];
    EscapeConcat(s[..k], s[k..]);
    EscapedLength(s[k..]);
  }

  /** The length of a serialised frame, as the cut reckons with it. */
  function FrameSize(index: nat, data: string): nat {
    44 + |Decimal(index)| + |Escape(data)|
  }

  lemma FrameLength(index: nat, data: string)
    ensures |FrameText(index, data)| == FrameSize(index, data)
  {
    hide Escape, Decimal;
  }

  lemma HeaderLength(totalLength: nat, chunks: nat)
    ensures |HeaderText(totalLength, chunks)| == 52 + |Decimal(totalLength)| + |Decimal(chunks)|
  {
    hide Decimal;
  }

  lemma ThreeDigits(n: nat)
    ensures n <= 999 <==> |Decimal(n)| <= 3
  {
    assert n >= 10 ==> Decimal(n) == Decimal(n / 10) + [DigitChar(n % 10)];
    assert n >= 100 ==> Decimal(n / 10) == Decimal(n / 10 / 10) + [DigitChar(n / 10 % 10)];
    if n >= 1000 {
      assert Decimal(n / 10 / 10) == Decimal(n / 10 / 10 / 10) + [DigitChar(n / 10 / 10 % 10)];
    }
  }

  // The inner loop

  function Min(a: int, b: int): int {
    if a <= b then a else b
  }

  function Max(a: int, b: int): int {
    if a >= b then a else b
  }

  function InitialSize(mtu: int): int {
    var overhead := FrameSize(999, "");
    (mtu - overhead) / 2
  }

  lemma InitialSizeIs(mtu: int)
    ensures InitialSize(mtu) == (mtu - 47) / 2
  {
    ThreeDigits(999);
    ThreeDigits(100);
    DecimalGrows(100, 999);
    assert |Decimal(100)| == 3 by {
      assert Decimal(100) == Decimal(10) + [DigitChar(0)];
      assert Decimal(10) == Decimal(1) + [DigitChar(0)];
    }
  }

  predicate Fits(index: nat, data: string, mtu: int) {
    FrameSize(index, data) <= mtu
  }

  /** One retry: shrink by the overage, but keep at least one character. */
  function Shrink(index: nat, rest: string, size: nat, mtu: int): (r: nat)
    requires 1 <= size <= |rest| && !Fits(index, rest[..size], mtu)
    ensures 1 <= r <= size
  {
    var overage := FrameSize(index, rest[..size]) - mtu;
    Max(1, size - Max(1, overage))
  }

  /** The size the inner loop settles on; it settles because a single character fits. */
  function Settle(index: nat, rest: string, size: nat, mtu: int): (r: nat)
    requires 1 <= size <= |rest| && Fits(index, rest[..1], mtu)
    ensures 1 <= r <= size && Fits(index, rest[..r], mtu)
    decreases size
  {
    if Fits(index, rest[..size], mtu) then size else Settle(index, rest, Shrink(index, rest, size, mtu), mtu)
  }

  /** With room for one escaped character, one retry is enough. */
  lemma OneRetryIsEnough(index: nat, rest: string, size: nat, mtu: int)
    requires Printable(rest) && 1 <= size <= |rest| && 46 + |Decimal(index)| <= mtu
    ensures Fits(index, rest[..1], mtu)
    ensures !Fits(index, rest[..size], mtu) ==> Fits(index, rest[..Shrink(index, rest, size, mtu)], mtu)
  {
    EscapedLength(rest[..1]);
    if !Fits(index, rest[..size], mtu) {
      var s := Shrink(index, rest, size, mtu);
      DroppingFrees(rest[..size], s);
      assert rest[..size][..s] == rest[..s];
    }
  }

  /** Indices of at most three digits never need a retry: twice the initial size always fits. */
  lemma NoRetryUpTo999(index: nat, data: string, mtu: int)
    requires Printable(data) && index <= 999 && |data| <= InitialSize(mtu)
    ensures Fits(index, data, mtu)
  {
    InitialSizeIs(mtu);
    EscapedLength(data);
    ThreeDigits(index);
  }

  // The whole cut

  /**
   * Every chunk the cut comes to has room for its first character as it is escaped. A retry never
   * goes below one character, so where there is no room the inner loop runs for ever.
   */
  predicate Cuttable(rest: string, made: nat, mtu: int)
    decreases |rest|
  {
    rest == "" ||
    (InitialSize(mtu) >= 1 && CuttableAt(rest, made, Min(InitialSize(mtu), |rest|), mtu))
  }

  /** The same, in the middle of the inner loop: `size` characters are being tried. */
  predicate CuttableAt(rest: string, made: nat, size: nat, mtu: int)
    requires 1 <= size <= |rest|
    decreases |rest|, 0
  {
    Fits(made + 1, rest[..1], mtu) && Cuttable(rest[Settle(made + 1, rest, size, mtu)..], made + 1, mtu)
  }

  /** The two loops: what is left of the text, the chunks made, and the size to try. */
  datatype Cursor = Cursor(rest: string, made: nat, size: nat)

  predicate InLoop(c: Cursor) {
    if c.rest == "" then c.size == 0 else 1 <= c.size <= |c.rest|
  }

  function Start(rest: string, made: nat, mtu: int): (c: Cursor)
    requires InitialSize(mtu) >= 1
    ensures InLoop(c)
  {
    Cursor(rest, made, Min(InitialSize(mtu), |rest|))
  }

  /** One turn of the inner loop. */
  function Turn(c: Cursor, mtu: int): (d: Cursor)
    requires InitialSize(mtu) >= 1 && InLoop(c)
    ensures InLoop(d)
  {
    if c.rest == "" then c
    else if Fits(c.made + 1, c.rest[..c.size], mtu) then Start(c.rest[c.size..], c.made + 1, mtu)
    else c.(size := Shrink(c.made + 1, c.rest, c.size, mtu))
  }

  function Turns(c: Cursor, mtu: int, n: nat): (d: Cursor)
    requires InitialSize(mtu) >= 1 && InLoop(c)
    ensures InLoop(d)
    decreases n
  {
    if n == 0 then c else Turns(Turn(c, mtu), mtu, n - 1)
  }

  predicate Passable(c: Cursor, mtu: int)
    requires InLoop(c)
  {
    c.rest == "" || CuttableAt(c.rest, c.made, c.size, mtu)
  }

  /** One turn neither opens nor closes the way to the end. */
  lemma TurnKeepsPassable(c: Cursor, mtu: int)
    requires InitialSize(mtu) >= 1 && InLoop(c) && Printable(c.rest)
    ensures Passable(c, mtu) <==> Passable(Turn(c, mtu), mtu)
  {
    if c.rest != "" {
      if Fits(c.made + 1, c.rest[..c.size], mtu) {
        DroppingFrees(c.rest[..c.size], 1);
        assert c.rest[..c.size][..1] == c.rest[..1];
        PassableAtStart(c.rest[c.size..], c.made + 1, mtu);
      } else if Fits(c.made + 1, c.rest[..1], mtu) {
        var size := Shrink(c.made + 1, c.rest, c.size, mtu);
        assert Settle(c.made + 1, c.rest, c.size, mtu) == Settle(c.made + 1, c.rest, size, mtu);
      }
    }
  }

  lemma PassableAtStart(rest: string, made: nat, mtu: int)
    requires InitialSize(mtu) >= 1
    ensures Passable(Start(rest, made, mtu), mtu) <==> Cuttable(rest, made, mtu)
  {
  }

  lemma TurnLeavesSuffix(c: Cursor, mtu: int)
    requires InitialSize(mtu) >= 1 && InLoop(c) && Printable(c.rest)
    ensures Printable(Turn(c, mtu).rest)
  {
    hide Fits, InitialSize;
  }

  lemma TurnGoesDown(c: Cursor, mtu: int)
    requires InitialSize(mtu) >= 1 && InLoop(c) && c.rest != "" && Fits(c.made + 1, c.rest[..1], mtu)
    ensures var d := Turn(c, mtu); |d.rest| < |c.rest| || (d.rest == c.rest && d.size < c.size)
  {
    hide FrameSize, InitialSize;
  }

  lemma {:induction false} EndReached(c: Cursor, mtu: int) returns (n: nat)
    requires InitialSize(mtu) >= 1 && InLoop(c) && Printable(c.rest) && Passable(c, mtu)
    ensures Turns(c, mtu, n).rest == ""
    decreases |c.rest|, c.size
  {
    hide Fits, InitialSize, Settle, Printable;
    n := 0;
    if c.rest != "" {
      TurnKeepsPassable(c, mtu);
      TurnGoesDown(c, mtu);
      TurnLeavesSuffix(c, mtu);
      hide Turn;
      var m := EndReached(Turn(c, mtu), mtu);
      n := m + 1;
    }
  }

  lemma {:induction false} EndWasPassable(c: Cursor, mtu: int, n: nat)
    requires InitialSize(mtu) >= 1 && InLoop(c) && Printable(c.rest) && Turns(c, mtu, n).rest == ""
    ensures Passable(c, mtu)
    decreases n
  {
    hide Fits, InitialSize, Settle, Printable;
    if n > 0 {
      TurnLeavesSuffix(c, mtu);
      EndWasPassable(Turn(c, mtu), mtu, n - 1);
      TurnKeepsPassable(c, mtu);
    }
  }

  /** The loops come to an end exactly on cuttable texts. */
  lemma CutEndsIff(rest: string, made: nat, mtu: int)
    requires InitialSize(mtu) >= 1 && Printable(rest)
    ensures (exists n: nat :: Turns(Start(rest, made, mtu), mtu, n).rest == "") <==> Cuttable(rest, made, mtu)
  {
    var c := Start(rest, made, mtu);
    if Cuttable(rest, made, mtu) {
      var n := EndReached(c, mtu);
    }
    if n: nat :| Turns(c, mtu, n).rest == "" {
      EndWasPassable(c, mtu, n);
    }
  }

  /** Room in a frame for one escaped character under every index the rest of a text can need. */
  predicate RoomFrom(rest: string, made: nat, mtu: int) {
    InitialSize(mtu) >= 1 && 46 + |Decimal(made + |rest|)| <= mtu
  }

  /** What a caller can compare before the cut: the MTU with the digits of the text's length. */
  lemma {:induction false} RoomIsEnough(rest: string, made: nat, mtu: int)
    requires Printable(rest) && RoomFrom(rest, made, mtu)
    ensures Cuttable(rest, made, mtu)
    decreases |rest|
  {
    if rest != "" {
      var first := Min(InitialSize(mtu), |rest|);
      DecimalGrows(made + 1, made + |rest|);
      OneRetryIsEnough(made + 1, rest, 1, mtu);
      var size := Settle(made + 1, rest, first, mtu);
      DecimalGrows(made + 1 + |rest[size..]|, made + |rest|);
      RoomIsEnough(rest[size..], made + 1, mtu);
    }
  }

  /** With one character to a chunk, chunk k holds character k, and each has to fit by itself. */
  lemma {:induction false} CuttableByCharacter(rest: string, made: nat, mtu: int)
    requires InitialSize(mtu) == 1
    ensures Cuttable(rest, made, mtu) <==>
      forall i :: 0 <= i < |rest| ==> 44 + |Decimal(made + i + 1)| + |EscapeChar(rest[i])| <= mtu
    decreases |rest|
  {
    if rest != "" {
      CuttableByCharacter(rest[1..], made + 1, mtu);
      assert Escape(rest[..1]) == EscapeChar(rest[0]) + Escape("");
      hide InitialSize, Decimal, EscapeChar, Escape;
      ShiftedBound(rest, made, mtu);
    }
  }

  lemma ShiftedBound(rest: string, made: nat, mtu: int)
    requires rest != ""
    ensures (forall i :: 0 <= i < |rest| ==> 44 + |Decimal(made + i + 1)| + |EscapeChar(rest[i])| <= mtu) <==>
      && 44 + |Decimal(made + 0 + 1)| + |EscapeChar(rest[0])| <= mtu
      && (forall i :: 0 <= i < |rest[1..]| ==> 44 + |Decimal(made + 1 + i + 1)| + |EscapeChar(rest[1..][i])| <= mtu)
  {
    hide Decimal, EscapeChar;
    if forall i :: 0 <= i < |rest[1..]| ==> 44 + |Decimal(made + 1 + i + 1)| + |EscapeChar(rest[1..][i])| <= mtu {
      forall i | 1 <= i < |rest| ensures 44 + |Decimal(made + i + 1)| + |EscapeChar(rest[i])| <= mtu {
        var j := i - 1;
        assert rest[1..][j] == rest[i] && made + 1 + j + 1 == made + i + 1;
      }
    }
    if forall i :: 0 <= i < |rest| ==> 44 + |Decimal(made + i + 1)| + |EscapeChar(rest[i])| <= mtu {
      forall j | 0 <= j < |rest[1..]| ensures 44 + |Decimal(made + 1 + j + 1)| + |EscapeChar(rest[1..][j])| <= mtu {
        var i := j + 1;
        assert rest[1..][j] == rest[i] && made + 1 + j + 1 == made + i + 1;
      }
    }
  }

  function As(n: nat): (s: string)
    ensures |s| == n && forall i :: 0 <= i < n ==> s[i] == 'a'
  {
    if n == 0 then "" else "a" + As(n - 1)
  }

  lemma {:induction false} LettersStay(n: nat)
    ensures Escape(As(n)) == As(n)
  {
    if n > 0 {
      LettersStay(n - 1);
      assert As(n)[1..] == As(n - 1);
    }
  }

  lemma LettersAndQuotes(n: nat)
    ensures var text := Quote(As(n));
      |text| == n + 2 && text[n + 1] == '"' && Printable(text)
  {
    LettersStay(n);
  }

  /**
   * Without that room the cut can hang: at an MTU of 49 the JSON text of a string of n = 998 letters is
   * cut into 999 chunks, and the loop then shrinks the last one, its closing quote, for ever.
   */
  lemma HangsAtMtu49(n: nat)
    requires n == 998
    ensures InitialSize(49) == 1 && Printable(Quote(As(n)))
    ensures forall k: nat :: Turns(Start(Quote(As(n)), 0, 49), 49, k).rest != ""
  {
    hide As, Quote, Decimal, Printable;
    var text := Quote(As(n));
    InitialSizeIs(49);
    LettersAndQuotes(n);
    ThreeDigits(0 + 999 + 1);
    CuttableByCharacter(text, 0, 49);
    assert !(44 + |Decimal(0 + 999 + 1)| + |EscapeChar(text[999])| <= 49);
    CutEndsIff(text, 0, 49);
  }

  /** The pieces the loop cuts off the rest of a text when `made` chunks have been made. */
  function Pieces(rest: string, made: nat, mtu: int): seq<string>
    requires Cuttable(rest, made, mtu)
    decreases |rest|
  {
    if rest == "" then []
    else
      assert CuttableAt(rest, made, Min(InitialSize(mtu), |rest|), mtu);
      var size := Settle(made + 1, rest, Min(InitialSize(mtu), |rest|), mtu);
      [rest[..size]] + Pieces(rest[size..], made + 1, mtu)
  }

  function Concat(pieces: seq<string>): string {
    if pieces == [] then "" else pieces[0] + Concat(pieces[1..])
  }

  /** Nothing is lost, nothing is empty, everything fits under its index. */
  ghost predicate CutOf(pieces: seq<string>, rest: string, made: nat, mtu: int) {
    && Concat(pieces) == rest
    && (forall i :: 0 <= i < |pieces| ==> pieces[i] != "")
    && (forall i :: 0 <= i < |pieces| ==> Fits(made + i + 1, pieces[i], mtu))
  }

  lemma {:induction false} PiecesAreACut(rest: string, made: nat, mtu: int)
    requires Cuttable(rest, made, mtu)
    ensures CutOf(Pieces(rest, made, mtu), rest, made, mtu)
    ensures |Pieces(rest, made, mtu)| <= |rest|
    decreases |rest|
  {
    hide FrameSize, Escape, Decimal;
    if rest != "" {
      var size := Settle(made + 1, rest, Min(InitialSize(mtu), |rest|), mtu);
      var tail := Pieces(rest[size..], made + 1, mtu);
      PiecesAreACut(rest[size..], made + 1, mtu);
      OneMorePiece(rest, size, tail, made, mtu);
    }
  }

  lemma OneMorePiece(rest: string, size: nat, tail: seq<string>, made: nat, mtu: int)
    requires 1 <= size <= |rest| && Fits(made + 1, rest[..size], mtu) && CutOf(tail, rest[size..], made + 1, mtu)
    ensures CutOf([rest[..size]] + tail, rest, made, mtu)
  {
    hide Fits;
    var pieces := [rest[..size]] + tail;
    assert rest == rest[..size] + rest[size..];
    assert pieces[1..] == tail;
    forall i | 0 <= i < |pieces| ensures pieces[i] != "" && Fits(made + i + 1, pieces[i], mtu) {
      if i > 0 {
        assert pieces[i] == tail[i - 1];
      }
    }
  }

  function CeilDiv(n: nat, d: nat): nat
    requires d > 0
  {
    (n + d - 1) / d
  }

  lemma QuotientIs(a: nat, d: nat, q: nat, r: nat)
    requires d > 0 && a == d * q + r && r < d
    ensures a / d == q
  {
    var p := a / d;
    assert d * (p - q) == r - a % d;
    assert p - q >= 1 ==> d * (p - q) >= d;
    assert q - p >= 1 ==> d * (q - p) >= d;
  }

  lemma CeilStep(n: nat, d: nat)
    requires d > 0 && n > 0
    ensures n <= d ==> CeilDiv(n, d) == 1
    ensures n > d ==> CeilDiv(n, d) == 1 + CeilDiv(n - d, d)
    ensures CeilDiv(n, d) >= 1
  {
    var q, r := (n - 1) / d, (n - 1) % d;
    assert n - 1 == d * q + r;
    assert d * (q + 1) == d * q + d;
    QuotientIs(n + d - 1, d, q + 1, r);
    if n <= d {
      QuotientIs(n - 1, d, 0, n - 1);
    }
  }

  lemma CeilGrows(m: nat, n: nat, d: nat)
    requires d > 0 && m <= n
    ensures CeilDiv(m, d) <= CeilDiv(n, d)
    decreases n
  {
    if m == 0 {
      CeilOfNothing(d);
    } else {
      CeilStep(m, d);
      CeilStep(n, d);
      if m > d {
        CeilGrows(m - d, n - d, d);
      }
    }
  }

  lemma CeilOfNothing(d: nat)
    requires d > 0
    ensures CeilDiv(0, d) == 0
  {
  }

  /** While indices stay below 1000 the initial size is taken as it is, and nothing more is asked. */
  lemma FirstPiece(rest: string, made: nat, mtu: int)
    requires Printable(rest) && rest != "" && InitialSize(mtu) >= 1 && made < 999
    ensures var size := Min(InitialSize(mtu), |rest|);
      && (Cuttable(rest, made, mtu) <==> Cuttable(rest[size..], made + 1, mtu))
      && (Cuttable(rest, made, mtu) ==>
            Pieces(rest, made, mtu) == [rest[..size]] + Pieces(rest[size..], made + 1, mtu))
  {
    NoRetryUpTo999(made + 1, rest[..Min(InitialSize(mtu), |rest|)], mtu);
    NoRetryUpTo999(made + 1, rest[..1], mtu);
  }

  /**
   * A text that needs at most 999 chunks is always cut, whatever the MTU leaves beyond one character,
   * and every piece but the last has the initial size.
   */
  lemma {:induction false} PieceCount(rest: string, made: nat, mtu: int)
    requires Printable(rest) && InitialSize(mtu) >= 1
    requires made + CeilDiv(|rest|, InitialSize(mtu)) <= 999
    ensures Cuttable(rest, made, mtu)
    ensures |Pieces(rest, made, mtu)| == CeilDiv(|rest|, InitialSize(mtu))
    decreases |rest|
  {
    var d := InitialSize(mtu);
    hide InitialSize, CeilDiv, Settle, Escape, Decimal, FrameSize, Fits, Printable;
    CeilOfNothing(d);
    if rest != "" {
      CeilStep(|rest|, d);
      FirstPiece(rest, made, mtu);
      if |rest| <= d {
        assert rest[|rest|..] == "";
      } else {
        PieceCountGoesOn(rest, d);
        PieceCount(rest[d..], made + 1, mtu);
      }
    }
  }

  lemma PieceCountGoesOn(rest: string, k: nat)
    requires Printable(rest) && k <= |rest|
    ensures Printable(rest[k..])
  {
  }

  /** In general there are at least that many pieces, and no more than characters. */
  lemma {:induction false} PieceCountBounds(rest: string, made: nat, mtu: int)
    requires InitialSize(mtu) >= 1 && Cuttable(rest, made, mtu)
    ensures CeilDiv(|rest|, InitialSize(mtu)) <= |Pieces(rest, made, mtu)| <= |rest|
    decreases |rest|
  {
    var d := InitialSize(mtu);
    hide InitialSize, CeilDiv, Escape, Decimal, FrameSize, Fits;
    CeilOfNothing(d);
    if rest != "" {
      var size := Settle(made + 1, rest, Min(d, |rest|), mtu);
      PieceCountBounds(rest[size..], made + 1, mtu);
      CeilStep(|rest|, d);
      if |rest| > d {
        CeilGrows(|rest| - d, |rest| - size, d);
      }
    }
  }
}
