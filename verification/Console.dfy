/** The console: a window of 25 rows that slides over 16 KB of video memory, and
    the cursor in it. */
module ConsoleSpec {

  const MEM_BASE := 0xB8000
  const MEM_SIZE := 0x4000
  const MEM_END := MEM_BASE + MEM_SIZE
  const WIDTH := 80
  const HEIGHT := 25
  const ROW_SIZE := 2 * WIDTH
  const SCR_SIZE := ROW_SIZE * HEIGHT

  const NUL := 0x00
  const BEL := 0x07
  const BS := 0x08
  const HT := 0x09
  const LF := 0x0A
  const VT := 0x0B
  const FF := 0x0C
  const CR := 0x0D
  const DEL := 0x7F

  /** Window positions from the start of video memory until it jumps back. */
  const PERIOD := 78

  type byte = x: int | 0 <= x < 0x100

  predicate Printable(ch: byte) {
    ch !in {NUL, BEL, BS, HT, LF, VT, FF, CR, DEL}
  }

  /** All that matters of the cursor: its column, and how many lines were fed
      since the screen was cleared. */
  datatype Cursor = Cursor(x: nat, lines: nat)

  function Home(): Cursor {
    Cursor(0, 0)
  }

  /** One byte's effect. A character in column 80 wraps to a new line first. */
  function Feed(c: Cursor, ch: byte): Cursor {
    if ch == LF then Cursor(0, c.lines + 1)
    else if ch == FF then c.(lines := c.lines + 1)
    else if ch == CR then c.(x := 0)
    else if ch == BS then c.(x := if c.x == 0 then 0 else c.x - 1)
    else if !Printable(ch) then c
    else if c.x >= WIDTH then Cursor(c.x - WIDTH + 1, c.lines + 1)
    else c.(x := c.x + 1)
  }

  function FeedAll(c: Cursor, text: seq<byte>): Cursor {
    if text == [] then c else Feed(FeedAll(c, text[..|text| - 1]), text[|text| - 1])
  }

  /** How often the window moved: once for each line fed in the last row. */
  function Slides(lines: nat): nat {
    if lines < HEIGHT then 0 else lines - (HEIGHT - 1)
  }

  function Row(lines: nat): nat {
    if lines < HEIGHT then lines else HEIGHT - 1
  }

  /** Where the window starts after `lines` line feeds. */
  function WindowAt(lines: nat): int {
    MEM_BASE + ROW_SIZE * (Slides(lines) % PERIOD)
  }

  function CursorAt(c: Cursor): int {
    WindowAt(c.lines) + ROW_SIZE * Row(c.lines) + 2 * c.x
  }

  lemma {:induction false} ColumnInRow(c: Cursor, text: seq<byte>)
    requires c.x <= WIDTH
    ensures FeedAll(c, text).x <= WIDTH
  {
    if text != [] {
      ColumnInRow(c, text[..|text| - 1]);
    }
  }

  /** The whole window stays inside video memory, and moves by a row or jumps
      back to the start, once in 78 slides. */
  lemma WindowInMemory(lines: nat)
    ensures MEM_BASE <= WindowAt(lines) && WindowAt(lines) + SCR_SIZE <= MEM_END
    ensures WindowAt(lines + 1) ==
            if lines + 1 < HEIGHT then WindowAt(lines)
            else if WindowAt(lines) + SCR_SIZE + ROW_SIZE < MEM_END then WindowAt(lines) + ROW_SIZE
            else MEM_BASE
  {
    var k := Slides(lines);
    var q, r := k / PERIOD, k % PERIOD;
    assert k == PERIOD * q + r;
    if lines + 1 >= HEIGHT {
      if r + 1 < PERIOD {
        NextSlide(q, r + 1);
      } else {
        NextSlide(q + 1, 0);
      }
    }
  }

  lemma NextSlide(q: int, r: int)
    requires 0 <= r < PERIOD
    ensures (PERIOD * q + r) % PERIOD == r
  {
  }

  /** The two bytes the cursor registers get for a video address. */
  function HighByte(a: int): int {
    ((a - MEM_BASE) / 512) % 256
  }

  function LowByte(a: int): int {
    ((a - MEM_BASE) / 2) % 256
  }

  /** What the display adapter makes of the two bytes. */
  function Decode(hi: int, lo: int): int {
    MEM_BASE + 2 * (256 * hi + lo)
  }

  /** The register bytes decode to the address exactly, for every even address
      of video memory. */
  lemma RegistersDecode(a: int)
    requires MEM_BASE <= a < MEM_BASE + 0x20000 && (a - MEM_BASE) % 2 == 0
    ensures Decode(HighByte(a), LowByte(a)) == a
  {
    var h := (a - MEM_BASE) / 2;
    assert (a - MEM_BASE) / 512 == h / 256;
  }

  /** The cursor is on an even address of video memory, with a cell behind it. */
  lemma CursorEven(c: Cursor)
    requires c.x <= WIDTH
    ensures MEM_BASE <= CursorAt(c) && CursorAt(c) + 2 <= MEM_END && (CursorAt(c) - MEM_BASE) % 2 == 0
    ensures (WindowAt(c.lines) - MEM_BASE) % 2 == 0
  {
    WindowInMemory(c.lines);
    var r := Slides(c.lines) % PERIOD;
    EvenCells(WIDTH * r);
    EvenCells(WIDTH * r + WIDTH * Row(c.lines) + c.x);
  }

  lemma EvenCells(n: int)
    ensures (2 * n) % 2 == 0
  {
  }
}

/** Where the characters of a text end up. */
module ConsoleText {
  import opened ConsoleSpec

  /** The cell a printable byte belongs in, after the wrap if there is one. */
  function CellAt(c: Cursor): int {
    CursorAt(if c.x >= WIDTH then Cursor(c.x - WIDTH, c.lines + 1) else c)
  }

  /** How many bytes of a text are written to the screen. */
  function Written(text: seq<byte>): nat {
    if text == [] then 0
    else Written(text[..|text| - 1]) + (if Printable(text[|text| - 1]) then 1 else 0)
  }

  predicate AllPrintable(text: seq<byte>) {
    forall k :: 0 <= k < |text| ==> Printable(text[k])
  }

  /** How often the window has jumped back. */
  function Jumps(lines: nat): nat {
    Slides(lines) / PERIOD
  }

  /** The window does not jump back to the start between two line counts. */
  predicate NoJump(from: nat, to: nat) {
    Jumps(from) == Jumps(to)
  }

  lemma {:induction false} LinesGrow(c: Cursor, text: seq<byte>, k: nat)
    requires k <= |text|
    ensures c.lines <= FeedAll(c, text[..k]).lines <= FeedAll(c, text).lines
    decreases |text|
  {
    if |text| > 0 {
      var init := text[..|text| - 1];
      if k < |text| {
        assert init[..k] == text[..k];
        LinesGrow(c, init, k);
      } else {
        assert text[..k] == text;
        LinesGrow(c, init, |init|);
        assert init[..|init|] == init;
      }
    } else {
      assert text[..k] == text;
    }
  }

  lemma NoJumpBetween(from: nat, mid: nat, to: nat)
    requires from <= mid <= to && NoJump(from, to)
    ensures NoJump(from, mid) && NoJump(mid, to)
  {
  }

  /** The position counted in cells of an endless screen. */
  function Flat(c: Cursor): nat {
    WIDTH * c.lines + c.x
  }

  /** The cells of the 78 rows that a jump goes back. */
  const JUMP := 6240

  /** Addresses grow with the flat position, but for 78 rows lost at each jump. */
  lemma CursorIsFlat(c: Cursor)
    ensures CursorAt(c) == MEM_BASE + 2 * (Flat(c) - JUMP * Jumps(c.lines))
  {
    var s := Slides(c.lines);
    assert s % PERIOD == s - PERIOD * Jumps(c.lines);
    assert s + Row(c.lines) == c.lines;
  }

  /** How many cells a byte moves the cursor without writing there. */
  function Shift(c: Cursor, ch: byte): int {
    if ch == LF then WIDTH - c.x
    else if ch == FF then WIDTH
    else if ch == CR then 0 - c.x
    else if ch == BS && c.x > 0 then -1
    else 0
  }

  function Shifts(c: Cursor, text: seq<byte>): int {
    if text == [] then 0
    else
      var init := text[..|text| - 1];
      Shifts(c, init) + Shift(FeedAll(c, init), text[|text| - 1])
  }

  /** The cursor moves with the bytes written and with the shifts. */
  lemma {:induction false} FlatMoves(c: Cursor, text: seq<byte>)
    ensures Flat(FeedAll(c, text)) == Flat(c) + Written(text) + Shifts(c, text)
    decreases |text|
  {
    if |text| > 0 {
      FlatMoves(c, text[..|text| - 1]);
    }
  }

  /** The write pointer is as far behind its start as bytes were written. After
      any text it is at the cursor exactly if the shifts come to the cells that
      the window jumped over. */
  lemma PointerExactIff(c: Cursor, text: seq<byte>)
    ensures
      var d := FeedAll(c, text);
      CursorAt(d) == CursorAt(c) + 2 * Written(text) <==>
      Shifts(c, text) == JUMP * (Jumps(d.lines) - Jumps(c.lines))
  {
    var d := FeedAll(c, text);
    CursorIsFlat(c);
    CursorIsFlat(d);
    FlatMoves(c, text);
  }

  /** Bytes that leave the cursor where it is or write a character. */
  predicate Plain(ch: byte) {
    ch !in {BS, LF, FF, CR}
  }

  predicate AllPlain(text: seq<byte>) {
    forall k :: 0 <= k < |text| ==> Plain(text[k])
  }

  lemma {:induction false} PlainShiftsNothing(c: Cursor, text: seq<byte>)
    requires AllPlain(text)
    ensures Shifts(c, text) == 0
    decreases |text|
  {
    if |text| > 0 {
      assert Plain(text[|text| - 1]);
      PlainShiftsNothing(c, text[..|text| - 1]);
    }
  }

  /** In a text without cursor movements only a jump parts the two. */
  lemma PlainExactIff(c: Cursor, text: seq<byte>)
    requires AllPlain(text)
    ensures CursorAt(FeedAll(c, text)) == CursorAt(c) + 2 * Written(text) <==> NoJump(c.lines, FeedAll(c, text).lines)
  {
    PointerExactIff(c, text);
    PlainShiftsNothing(c, text);
  }

  /** A line feed in column `x` leaves the pointer 160 - 2x bytes behind the
      cursor, unless the window jumps. */
  lemma LineFeedLag(c: Cursor)
    ensures CursorAt(FeedAll(c, [LF])) - (CursorAt(c) + 2 * Written([LF])) ==
            2 * (WIDTH - c.x) - 2 * JUMP * (Jumps(c.lines + 1) - Jumps(c.lines))
  {
    assert [LF as byte][..0] == [];
    assert FeedAll(c, []) == c;
    CursorIsFlat(c);
    CursorIsFlat(Cursor(0, c.lines + 1));
  }

  lemma LagInColumnFive()
    ensures CursorAt(FeedAll(Cursor(5, 0), [LF])) == CursorAt(Cursor(5, 0)) + 2 * Written([LF]) + 150
  {
    LineFeedLag(Cursor(5, 0));
  }

  /** Printable text that does not make the window jump fills consecutive cells:
      its byte number `k` belongs `2 * k` bytes behind the first one's cell. */
  lemma PrintableCells(c: Cursor, text: seq<byte>)
    requires AllPrintable(text)
    requires NoJump(c.lines, FeedAll(c, text).lines)
    ensures CursorAt(FeedAll(c, text)) == CursorAt(c) + 2 * |text| && Written(text) == |text|
    ensures |text| > 0 ==> CellAt(FeedAll(c, text[..|text| - 1])) == CursorAt(c) + 2 * (|text| - 1)
  {
    AllWritten(text);
    PlainExactIff(c, text);
    if |text| > 0 {
      var d := FeedAll(c, text[..|text| - 1]);
      assert Printable(text[|text| - 1]);
      assert CellAt(d) == CursorAt(Feed(d, text[|text| - 1])) - 2;
    }
  }

  lemma {:induction false} AllWritten(text: seq<byte>)
    requires AllPrintable(text)
    ensures AllPlain(text) && Written(text) == |text|
    decreases |text|
  {
    if |text| > 0 {
      assert Printable(text[|text| - 1]);
      AllWritten(text[..|text| - 1]);
    }
    forall k | 0 <= k < |text|
      ensures Plain(text[k])
    {
      assert Printable(text[k]);
    }
  }
}

/** The bytes of memory: what a text stores, and where. */
module ConsoleMemory {
  import opened ConsoleSpec
  import opened ConsoleText

  /** Memory by address. The stores are not confined to video memory. */
  type Bytes = map<int, byte>

  /** Every byte of video memory is there. */
  predicate Full(v: Bytes) {
    forall a :: MEM_BASE <= a < MEM_END ==> a in v
  }

  /** Nothing but video memory is there. */
  predicate Within(v: Bytes) {
    forall a :: a in v ==> MEM_BASE <= a < MEM_END
  }

  ghost predicate SameOutside(v: Bytes, w: Bytes) {
    forall a :: !(MEM_BASE <= a < MEM_END) ==> (a in w <==> a in v) && (a in v ==> w[a] == v[a])
  }

  function Blanked(v: Bytes, a: int): Bytes {
    v[a := 0x20][a + 1 := 0x07]
  }

  function Stamped(v: Bytes, a: int, ch: byte): Bytes {
    v[a := ch][a + 1 := 0x07]
  }

  /** The loop that clears a new row stores 32-bit words: a blank cell, then a
      cell of zeros. */
  function ClearByte(offset: int): byte {
    if offset % 4 == 0 then 0x20 else if offset % 4 == 1 then 0x07 else 0
  }

  function Cleared(v: Bytes, at: int, words: nat): Bytes {
    if words == 0 then v
    else
      var a := at + 4 * (words - 1);
      Blanked(Cleared(v, at, words - 1), a)[a + 2 := 0][a + 3 := 0]
  }

  lemma {:induction false} ClearedAt(v: Bytes, at: int, words: nat, a: int)
    ensures
      var w := Cleared(v, at, words);
      && (a in w <==> a in v || at <= a < at + 4 * words)
      && (a in w ==> w[a] == if at <= a < at + 4 * words then ClearByte(a - at) else v[a])
    decreases words
  {
    if words > 0 {
      ClearedAt(v, at, words - 1, a);
      ClearWord(words - 1);
    }
  }

  lemma ClearedBytes(v: Bytes, at: int, words: nat)
    ensures
      var w := Cleared(v, at, words);
      && (forall a :: a in w <==> a in v || at <= a < at + 4 * words)
      && (forall a :: a in w ==> w[a] == if at <= a < at + 4 * words then ClearByte(a - at) else v[a])
  {
    var w := Cleared(v, at, words);
    forall a
      ensures a in w <==> a in v || at <= a < at + 4 * words
      ensures a in w ==> w[a] == if at <= a < at + 4 * words then ClearByte(a - at) else v[a]
    {
      ClearedAt(v, at, words, a);
    }
  }

  lemma ClearWord(k: nat)
    ensures ClearByte(4 * k) == 0x20 && ClearByte(4 * k + 1) == 0x07
    ensures ClearByte(4 * k + 2) == ClearByte(4 * k + 3) == 0
  {
  }

  lemma ClearedKeeps(v: Bytes, at: int)
    requires Full(v)
    ensures Full(Cleared(v, at, WIDTH))
  {
    var w := Cleared(v, at, WIDTH);
    ClearedBytes(v, at, WIDTH);
    forall a | MEM_BASE <= a < MEM_END
      ensures a in w
    {
      assert a in v;
    }
  }

  /** The `n` bytes from `from` on, copied to the start of video memory. */
  function Copied(v: Bytes, from: int, n: nat): Bytes
    requires Full(v) && MEM_BASE <= from && from + n <= MEM_END
  {
    map a | a in v :: if MEM_BASE <= a < MEM_BASE + n then v[a - MEM_BASE + from] else v[a]
  }

  /** The window jumps back exactly when there is no room for another row. */
  lemma JumpIff(lines: nat)
    requires lines + 1 >= HEIGHT
    ensures NoJump(lines, lines + 1) <==> WindowAt(lines) + SCR_SIZE + ROW_SIZE < MEM_END
  {
    var k := Slides(lines);
    var q, r := k / PERIOD, k % PERIOD;
    assert k == PERIOD * q + r && Slides(lines + 1) == k + 1;
  }

  /** What a line feed does to memory, `lines` line feeds after the start. A
      slide clears twice the length of a row; a jump copies the window. */
  function LineFed(v: Bytes, lines: nat): (w: Bytes)
    requires Full(v)
    ensures Full(w)
  {
    WindowInMemory(lines);
    if lines + 1 < HEIGHT then v
    else if NoJump(lines, lines + 1) then
      var at := WindowAt(lines) + SCR_SIZE;
      ClearedKeeps(v, at);
      Cleared(v, at, WIDTH)
    else Copied(v, WindowAt(lines), SCR_SIZE)
  }

  /** After a slide the window shows the rows from the second on, and behind them
      the row that was cleared. */
  lemma SlideScrolls(v: Bytes, lines: nat, offset: int)
    requires Full(v) && lines + 1 >= HEIGHT && NoJump(lines, lines + 1) && 0 <= offset < SCR_SIZE
    ensures
      var w, from, to := LineFed(v, lines), WindowAt(lines), WindowAt(lines + 1);
      && to == from + ROW_SIZE && to + offset in w
      && if offset < SCR_SIZE - ROW_SIZE then
           from + ROW_SIZE + offset in v && w[to + offset] == v[from + ROW_SIZE + offset]
         else w[to + offset] == ClearByte(offset - (SCR_SIZE - ROW_SIZE))
  {
    WindowInMemory(lines);
    WindowInMemory(lines + 1);
    JumpIff(lines);
    ClearedAt(v, WindowAt(lines) + SCR_SIZE, WIDTH, WindowAt(lines + 1) + offset);
  }

  /** A jump does not scroll: the window shows the very rows it showed before. */
  lemma JumpShowsSameRows(v: Bytes, lines: nat, offset: int)
    requires Full(v) && lines + 1 >= HEIGHT && !NoJump(lines, lines + 1) && 0 <= offset < SCR_SIZE
    ensures
      var w, from, to := LineFed(v, lines), WindowAt(lines), WindowAt(lines + 1);
      to == MEM_BASE && to + offset in w && from + offset in v && w[to + offset] == v[from + offset]
  {
    WindowInMemory(lines);
    JumpIff(lines);
  }

  /** The line feed after 101 line feeds is the first that jumps. */
  lemma FirstJump()
    ensures !NoJump(101, 102) && NoJump(0, 101)
  {
  }

  predicate FeedsLine(c: Cursor, ch: byte) {
    ch == LF || ch == FF || (Printable(ch) && c.x >= WIDTH)
  }

  /** What one byte does to memory, with the cursor at `c` and the write pointer
      at `ptr`. */
  function After(v: Bytes, c: Cursor, ptr: int, ch: byte): (w: Bytes)
    requires Full(v)
    ensures Full(w)
  {
    var u := if FeedsLine(c, ch) then LineFed(v, c.lines) else v;
    if Printable(ch) then Stamped(u, ptr, ch)
    else if ch == BS && c.x > 0 then Blanked(u, CursorAt(c) - 2)
    else if ch == DEL then Blanked(u, CursorAt(c))
    else u
  }

  /** What a call does to memory that starts with the cursor at `c`. */
  function AfterAll(v: Bytes, c: Cursor, text: seq<byte>): (w: Bytes)
    requires Full(v)
    ensures Full(w)
    decreases |text|
  {
    if text == [] then v
    else
      var init := text[..|text| - 1];
      After(AfterAll(v, c, init), FeedAll(c, init), CursorAt(c) + 2 * Written(init), text[|text| - 1])
  }

  // ----- The end of video memory -----

  /** A slide that clears bytes behind the end of video memory. */
  predicate Overruns(lines: nat) {
    lines + 1 >= HEIGHT && Slides(lines) % PERIOD == PERIOD - 2
  }

  /** The loop that clears the new row ends in video memory, but for one slide in
      each period of 78. */
  lemma SlideFitsIff(lines: nat)
    requires lines + 1 >= HEIGHT && NoJump(lines, lines + 1)
    ensures WindowAt(lines) + SCR_SIZE + 4 * WIDTH <= MEM_END <==> !Overruns(lines)
  {
    JumpIff(lines);
  }

  lemma SlideOverruns()
    ensures NoJump(100, 101) && WindowAt(100) + SCR_SIZE + 4 * WIDTH == MEM_END + 96
    ensures Overruns(100)
  {
    SlideFitsIff(100);
  }

  /** All written bytes are stored in video memory exactly if the last one is. */
  lemma {:induction false} PointerFitsIff(c: Cursor, text: seq<byte>)
    ensures
      (forall k :: 0 <= k < |text| && Printable(text[k]) ==> CursorAt(c) + 2 * Written(text[..k]) + 2 <= MEM_END) <==>
      (Written(text) == 0 || CursorAt(c) + 2 * Written(text) <= MEM_END)
    decreases |text|
  {
    if |text| > 0 {
      var n := |text| - 1;
      var init := text[..n];
      PointerFitsIff(c, init);
      assert forall k :: 0 <= k < n ==> init[k] == text[k] && init[..k] == text[..k];
    }
  }

  /** 113 letters from the last row of the last window position: the pointer
      passes the end of video memory while the cursor is back at its start. */
  lemma PointerOverruns(text: seq<byte>)
    requires |text| == 113 && AllPrintable(text)
    ensures CursorAt(Cursor(0, 101)) + 2 * Written(text) == MEM_END + 2
  {
    AllWritten(text);
  }

  /** One byte stores in video memory alone. */
  predicate Fits(c: Cursor, ptr: int, ch: byte) {
    && (Printable(ch) ==> MEM_BASE <= ptr && ptr + 2 <= MEM_END)
    && (FeedsLine(c, ch) ==> !Overruns(c.lines))
  }

  lemma LineFedFits(v: Bytes, lines: nat)
    requires Full(v)
    ensures Within(LineFed(v, lines)) <==> Within(v) && !Overruns(lines)
    ensures !Overruns(lines) ==> SameOutside(v, LineFed(v, lines))
  {
    WindowInMemory(lines);
    if lines + 1 >= HEIGHT {
      if NoJump(lines, lines + 1) {
        SlideFitsIff(lines);
        ClearedFits(v, WindowAt(lines) + SCR_SIZE);
      } else {
        if Overruns(lines) {
          OverrunSlides(lines);
        }
        CopiedFits(v, WindowAt(lines));
      }
    }
  }

  lemma CopiedFits(v: Bytes, from: int)
    requires Full(v) && MEM_BASE <= from && from + SCR_SIZE <= MEM_END
    ensures Within(Copied(v, from, SCR_SIZE)) <==> Within(v)
    ensures SameOutside(v, Copied(v, from, SCR_SIZE))
  {
    var w := Copied(v, from, SCR_SIZE);
    assert w.Keys == v.Keys;
    assert forall a :: a in w <==> a in v;
  }

  lemma BlankFits(v: Bytes, a: int)
    requires MEM_BASE <= a && a + 2 <= MEM_END
    ensures Within(Blanked(v, a)) <==> Within(v)
    ensures SameOutside(v, Blanked(v, a))
  {
    assert forall b :: b in v ==> b in Blanked(v, a);
  }

  lemma OverrunSlides(lines: nat)
    requires Overruns(lines)
    ensures NoJump(lines, lines + 1)
  {
    var k := Slides(lines);
    var q, r := k / PERIOD, k % PERIOD;
    assert k == PERIOD * q + r;
    assert (k + 1) / PERIOD == q;
  }

  lemma ClearedFits(v: Bytes, at: int)
    requires MEM_BASE <= at
    ensures Within(Cleared(v, at, WIDTH)) <==> Within(v) && at + 4 * WIDTH <= MEM_END
    ensures at + 4 * WIDTH <= MEM_END ==> SameOutside(v, Cleared(v, at, WIDTH))
  {
    ClearedBytes(v, at, WIDTH);
    assert at + 4 * WIDTH - 1 in Cleared(v, at, WIDTH);
  }

  /** A line feed without a jump leaves everything in front of the new row. */
  lemma LineFedKeeps(v: Bytes, lines: nat)
    requires Full(v) && NoJump(lines, lines + 1)
    ensures
      var w := LineFed(v, lines);
      forall a :: a in v && a < WindowAt(lines) + SCR_SIZE ==> a in w && w[a] == v[a]
  {
    ClearedBytes(v, WindowAt(lines) + SCR_SIZE, WIDTH);
  }

  lemma AfterFits(v: Bytes, c: Cursor, ptr: int, ch: byte)
    requires Full(v) && c.x <= WIDTH
    ensures Within(After(v, c, ptr, ch)) <==> Within(v) && Fits(c, ptr, ch)
    ensures Fits(c, ptr, ch) ==> SameOutside(v, After(v, c, ptr, ch))
  {
    CursorEven(c);
    var u := if FeedsLine(c, ch) then LineFed(v, c.lines) else v;
    if FeedsLine(c, ch) {
      LineFedFits(v, c.lines);
    }
    if Printable(ch) {
      StampFits(u, ptr, ch);
    } else if ch == BS && c.x > 0 {
      BlankFits(u, CursorAt(c) - 2);
    } else if ch == DEL {
      BlankFits(u, CursorAt(c));
    }
  }

  lemma StampFits(v: Bytes, ptr: int, ch: byte)
    ensures Within(Stamped(v, ptr, ch)) <==> Within(v) && MEM_BASE <= ptr && ptr + 2 <= MEM_END
    ensures MEM_BASE <= ptr && ptr + 2 <= MEM_END ==> SameOutside(v, Stamped(v, ptr, ch))
  {
    var w := Stamped(v, ptr, ch);
    assert ptr in w && ptr + 1 in w;
    assert forall a :: a in v ==> a in w;
  }

  /** None of the line feeds from `from` to `to` overruns. */
  predicate NoOverrun(from: nat, to: nat) {
    forall l :: from <= l < to ==> !Overruns(l)
  }

  /** The exact condition, in terms of where the text starts and ends, under
      which a call stores nothing outside video memory: the written bytes end in
      it, and no slide on the way is the one that overruns. */
  predicate StaysInside(c: Cursor, text: seq<byte>) {
    && (Written(text) == 0 || CursorAt(c) + 2 * Written(text) <= MEM_END)
    && NoOverrun(c.lines, FeedAll(c, text).lines)
  }

  lemma {:induction false} InsideIff(v: Bytes, c: Cursor, text: seq<byte>)
    requires Full(v) && c.x <= WIDTH
    ensures Within(AfterAll(v, c, text)) <==> Within(v) && StaysInside(c, text)
    decreases |text|
  {
    if |text| > 0 {
      var n := |text| - 1;
      var init := text[..n];
      InsideIff(v, c, init);
      InsideStep(c, text);
      LastFits(v, c, text);
    }
  }

  /** Under that condition no byte outside video memory changes. */
  lemma {:induction false} OutsideUnchanged(v: Bytes, c: Cursor, text: seq<byte>)
    requires Full(v) && c.x <= WIDTH && StaysInside(c, text)
    ensures SameOutside(v, AfterAll(v, c, text))
    decreases |text|
  {
    if |text| > 0 {
      var n := |text| - 1;
      var init := text[..n];
      InsideStep(c, text);
      OutsideUnchanged(v, c, init);
      LastFits(v, c, text);
    }
  }

  lemma LastFits(v: Bytes, c: Cursor, text: seq<byte>)
    requires Full(v) && c.x <= WIDTH && |text| > 0
    ensures
      var n := |text| - 1;
      var init := text[..n];
      var u, w := AfterAll(v, c, init), AfterAll(v, c, text);
      var fits := Fits(FeedAll(c, init), CursorAt(c) + 2 * Written(init), text[n]);
      (Within(w) <==> Within(u) && fits) && (fits ==> SameOutside(u, w))
  {
    var n := |text| - 1;
    var init := text[..n];
    ColumnInRow(c, init);
    AfterFits(AfterAll(v, c, init), FeedAll(c, init), CursorAt(c) + 2 * Written(init), text[n]);
  }

  lemma InsideStep(c: Cursor, text: seq<byte>)
    requires |text| > 0 && c.x <= WIDTH
    ensures
      var init := text[..|text| - 1];
      StaysInside(c, text) <==>
      StaysInside(c, init) && Fits(FeedAll(c, init), CursorAt(c) + 2 * Written(init), text[|text| - 1])
  {
    var n := |text| - 1;
    var init := text[..n];
    var d, e := FeedAll(c, init), FeedAll(c, text);
    CursorEven(c);
    LinesGrow(c, text, n);
    assert e.lines == if FeedsLine(d, text[n]) then d.lines + 1 else d.lines;
    assert NoOverrun(c.lines, d.lines + 1) <==> NoOverrun(c.lines, d.lines) && !Overruns(d.lines);
  }

  // ----- Straight texts -----

  /** All bytes are printable, and the window does not jump on the way. */
  predicate Straight(c: Cursor, text: seq<byte>) {
    AllPrintable(text) && NoJump(c.lines, FeedAll(c, text).lines)
  }

  /** A cell holds a character in the usual colour. */
  predicate HoldsAt(v: Bytes, cell: int, ch: byte) {
    cell in v && v[cell] == ch && cell + 1 in v && v[cell + 1] == 0x07
  }

  /** Every byte is in the cell of its row and column. */
  ghost predicate InPlace(v: Bytes, c: Cursor, text: seq<byte>) {
    forall k {:trigger text[k]} :: 0 <= k < |text| ==> HoldsAt(v, CellAt(FeedAll(c, text[..k])), text[k])
  }

  lemma StraightPrefix(c: Cursor, text: seq<byte>, k: nat)
    requires k <= |text| && Straight(c, text)
    ensures Straight(c, text[..k])
  {
    LinesGrow(c, text, k);
    NoJumpBetween(c.lines, FeedAll(c, text[..k]).lines, FeedAll(c, text).lines);
  }

  /** A straight text is in the cells of its rows and columns. */
  lemma {:induction false} StraightInPlace(v: Bytes, c: Cursor, text: seq<byte>)
    requires Full(v) && c.x <= WIDTH && Straight(c, text)
    ensures InPlace(AfterAll(v, c, text), c, text)
    decreases |text|
  {
    forall k | 0 <= k < |text|
      ensures HoldsAt(AfterAll(v, c, text), CellAt(FeedAll(c, text[..k])), text[k])
    {
      CellOf(c, text, k);
      CharInCell(v, c, text, k);
    }
  }

  /** The cells of a straight text follow each other. */
  lemma CellOf(c: Cursor, text: seq<byte>, k: nat)
    requires c.x <= WIDTH && Straight(c, text) && k < |text|
    ensures CellAt(FeedAll(c, text[..k])) == CursorAt(c) + 2 * k
  {
    StraightPrefix(c, text, k + 1);
    PrintableCells(c, text[..k + 1]);
    assert text[..k + 1][..k] == text[..k];
  }

  lemma {:induction false} CharInCell(v: Bytes, c: Cursor, text: seq<byte>, k: nat)
    requires Full(v) && c.x <= WIDTH && Straight(c, text) && k < |text|
    ensures HoldsAt(AfterAll(v, c, text), CursorAt(c) + 2 * k, text[k])
    decreases |text|
  {
    var n := |text| - 1;
    var init := text[..n];
    LastKeepsFirst(AfterAll(v, c, init), c, text);
    StraightLast(c, text);
    if k < n {
      StraightPrefix(c, text, n);
      assert init[k] == text[k];
      CharInCell(v, c, init, k);
    }
  }

  /** Pointer and cursor at the last byte of a straight text. */
  lemma StraightLast(c: Cursor, text: seq<byte>)
    requires c.x <= WIDTH && |text| > 0 && Straight(c, text)
    ensures
      var n := |text| - 1;
      var d := FeedAll(c, text[..n]);
      && d.x <= WIDTH && Printable(text[n]) && NoJump(d.lines, Feed(d, text[n]).lines)
      && Written(text[..n]) == n && CursorAt(d) == CursorAt(c) + 2 * n
  {
    var n := |text| - 1;
    StraightPrefix(c, text, n);
    PrintableCells(c, text[..n]);
    ColumnInRow(c, text[..n]);
    LinesGrow(c, text, n);
    NoJumpBetween(c.lines, FeedAll(c, text[..n]).lines, FeedAll(c, text).lines);
  }

  /** The last byte of a straight text changes nothing in front of its cell. */
  lemma LastKeepsFirst(v: Bytes, c: Cursor, text: seq<byte>)
    requires Full(v) && c.x <= WIDTH && |text| > 0 && Straight(c, text)
    ensures
      var n := |text| - 1;
      var at := CursorAt(c) + 2 * n;
      var w := After(v, FeedAll(c, text[..n]), at, text[n]);
      HoldsAt(w, at, text[n]) && forall a :: a in v && a < at ==> a in w && w[a] == v[a]
  {
    var n := |text| - 1;
    StraightLast(c, text);
    CharAtCursor(v, FeedAll(c, text[..n]), text[n]);
  }

  /** A byte written at the cursor, in a line feed that does not jump or in none. */
  lemma CharAtCursor(v: Bytes, c: Cursor, ch: byte)
    requires Full(v) && c.x <= WIDTH && Printable(ch) && NoJump(c.lines, Feed(c, ch).lines)
    ensures
      var at := CursorAt(c);
      var w := After(v, c, at, ch);
      HoldsAt(w, at, ch) && forall a :: a in v && a < at ==> a in w && w[a] == v[a]
  {
    if FeedsLine(c, ch) {
      LineFedKeeps(v, c.lines);
      RowsBefore(c);
    }
  }

  lemma RowsBefore(c: Cursor)
    requires c.x <= WIDTH
    ensures CursorAt(c) <= WindowAt(c.lines) + SCR_SIZE
  {
  }
}

/** What each byte does, byte by byte. */
module ConsoleBytes {
  import opened ConsoleSpec
  import opened ConsoleText
  import opened ConsoleMemory

  /** A text ends with what its last byte does, with the cursor where the bytes
      before it led and the write pointer behind those of them that were written. */
  lemma LastByte(v: Bytes, c: Cursor, text: seq<byte>)
    requires Full(v) && text != []
    ensures
      var n := |text| - 1;
      var init, b := text[..n], text[n];
      && FeedAll(c, text) == Feed(FeedAll(c, init), b)
      && AfterAll(v, c, text) == After(AfterAll(v, c, init), FeedAll(c, init), CursorAt(c) + 2 * Written(init), b)
  {
  }

  lemma OnlyByte(v: Bytes, c: Cursor, b: byte)
    requires Full(v)
    ensures FeedAll(c, [b]) == Feed(c, b) && AfterAll(v, c, [b]) == After(v, c, CursorAt(c), b)
  {
    assert [b][..0] == [];
  }

  /** NUL, BEL, HT and VT do nothing. */
  lemma QuietBytes(v: Bytes, c: Cursor, ptr: int, b: byte)
    requires Full(v) && b in {0, 7, 9, 11}
    ensures Feed(c, b) == c && After(v, c, ptr, b) == v && Written([b]) == 0
    ensures FeedAll(c, [b]) == c && AfterAll(v, c, [b]) == v
  {
    OnlyByte(v, c, b);
    assert [b][..0] == [];
  }

  /** DEL blanks the cell of the cursor, which stays. */
  lemma DeleteByte(v: Bytes, c: Cursor, ptr: int)
    requires Full(v)
    ensures Feed(c, 0x7F) == c && After(v, c, ptr, 0x7F) == v[CursorAt(c) := 0x20][CursorAt(c) + 1 := 0x07]
    ensures Written([0x7F]) == 0
  {
    assert [0x7F as byte][..0] == [];
  }

  /** BS steps back and blanks the cell it comes to, but not in column 0. */
  lemma BackspaceByte(v: Bytes, c: Cursor, ptr: int)
    requires Full(v)
    ensures Feed(c, 8) == (if c.x == 0 then c else Cursor(c.x - 1, c.lines))
    ensures After(v, c, ptr, 8) == (if c.x == 0 then v else v[CursorAt(c) - 2 := 0x20][CursorAt(c) - 1 := 0x07])
    ensures Written([8]) == 0
  {
    assert [8 as byte][..0] == [];
  }

  /** CR goes to column 0; LF does so one line below, and FF stays in its column. */
  lemma LineBytes(v: Bytes, c: Cursor, ptr: int)
    requires Full(v)
    ensures Feed(c, 13) == Cursor(0, c.lines) && After(v, c, ptr, 13) == v
    ensures Feed(c, 10) == Cursor(0, c.lines + 1) && After(v, c, ptr, 10) == LineFed(v, c.lines)
    ensures Feed(c, 12) == Cursor(c.x, c.lines + 1) && After(v, c, ptr, 12) == LineFed(v, c.lines)
    ensures Written([13]) == Written([10]) == Written([12]) == 0
  {
    assert [13 as byte][..0] == [] && [10 as byte][..0] == [] && [12 as byte][..0] == [];
  }

  /** Every other byte is stored at the write pointer, and the column moves by one,
      after the wrap from column 80 if there is one. */
  lemma OtherBytes(v: Bytes, c: Cursor, ptr: int, b: byte)
    requires Full(v) && b !in {0, 7, 8, 9, 10, 11, 12, 13, 0x7F}
    ensures Feed(c, b) == (if c.x < 80 then Cursor(c.x + 1, c.lines) else Cursor(c.x - 79, c.lines + 1))
    ensures
      var u := if c.x < 80 then v else LineFed(v, c.lines);
      After(v, c, ptr, b) == u[ptr := b][ptr + 1 := 0x07]
    ensures Written([b]) == 1
  {
    assert [b][..0] == [];
  }

  /** The window and the cursor in numbers. */
  lemma CursorIs(c: Cursor)
    ensures WindowAt(c.lines) == if c.lines <= 24 then 0xB8000 else 0xB8000 + 160 * ((c.lines - 24) % 78)
    ensures CursorAt(c) == WindowAt(c.lines) + 160 * (if c.lines <= 24 then c.lines else 24) + 2 * c.x
  {
  }

  /** A line feed above the last row leaves memory; in it, the bytes behind the
      window are cleared, or the window is copied to the start. */
  lemma LineFedIs(v: Bytes, lines: nat, a: int)
    requires Full(v) && a in v
    ensures
      var w, from := LineFed(v, lines), WindowAt(lines);
      && a in w
      && (lines < 24 ==> w[a] == v[a])
      && (lines >= 24 && from + 4160 < 0xBC000 && from + 4000 <= a < from + 4320 ==>
            w[a] == if (a - from) % 4 == 0 then 0x20 else if (a - from) % 4 == 1 then 0x07 else 0)
      && (lines >= 24 && from + 4160 < 0xBC000 && !(from + 4000 <= a < from + 4320) ==> w[a] == v[a])
      && (lines >= 24 && from + 4160 >= 0xBC000 && 0xB8000 <= a < 0xB8000 + 4000 ==>
            a - 0xB8000 + from in v && w[a] == v[a - 0xB8000 + from])
      && (lines >= 24 && from + 4160 >= 0xBC000 && !(0xB8000 <= a < 0xB8000 + 4000) ==> w[a] == v[a])
  {
    WindowInMemory(lines);
    if lines >= 24 {
      JumpIff(lines);
      ClearedAt(v, WindowAt(lines) + 4000, WIDTH, a);
      ClearedPhase(a, WindowAt(lines));
    }
  }

  lemma ClearedPhase(a: int, from: int)
    ensures (a - (from + 4000)) % 4 == (a - from) % 4
  {
    var q, r := (a - from) / 4, (a - from) % 4;
    assert a - (from + 4000) == 4 * (q - 1000) + r;
  }
}

/** The console driver: four coupled variables and the memory they lead to. */
module ConsoleDriver {
  import opened ConsoleSpec
  import opened ConsoleText
  import opened ConsoleMemory

  const CRT_START_ADDR_H := 0xC
  const CRT_START_ADDR_L := 0xD
  const CRT_CURSOR_H := 0xE
  const CRT_CURSOR_L := 0xF

  /** All registers but those in `pair` are the same. */
  ghost predicate OtherRegisters(r: map<int, int>, s: map<int, int>, pair: set<int>) {
    forall k :: k !in pair ==> (k in s <==> k in r) && (k in r ==> s[k] == r[k])
  }

  class Console {
    var screen: int
    var pos: int
    var x: nat
    var y: nat

    /** Registers of the display adapter. */
    var regs: map<int, int>
    var video: Bytes

    /** The display adapter holds an address in a pair of registers. */
    ghost predicate Register(hi: int, lo: int, a: int)
      reads this
    {
      hi in regs && lo in regs && Decode(regs[hi], regs[lo]) == a
    }

    /** The four variables stand for a cursor, and the adapter shows the window. */
    ghost predicate Shows(c: Cursor)
      reads this
    {
      && c.x <= WIDTH && Full(video)
      && x == c.x && y == Row(c.lines)
      && screen == WindowAt(c.lines) && pos == CursorAt(c)
      && Register(CRT_START_ADDR_H, CRT_START_ADDR_L, screen)
    }

    ghost predicate CursorShown()
      reads this
    {
      Register(CRT_CURSOR_H, CRT_CURSOR_L, pos)
    }

    constructor ()
      ensures Shows(Home()) && CursorShown()
      ensures Within(video) && forall a :: a in video ==> video[a] == if (a - MEM_BASE) % 2 == 0 then 0x20 else 0x07
    {
      screen, pos, x, y, regs, video := MEM_BASE, MEM_BASE, 0, 0, map[], map[];
      new;
      ConsoleClear();
    }

    /** The adapter shows the window from the first byte of `screen` on. */
    method SetScreen()
      requires MEM_BASE <= screen < MEM_BASE + 0x20000 && (screen - MEM_BASE) % 2 == 0
      modifies this`regs
      ensures Register(CRT_START_ADDR_H, CRT_START_ADDR_L, screen)
      ensures 0xC in regs && 0xD in regs && 0xB8000 + 2 * (256 * regs[0xC] + regs[0xD]) == screen
      ensures OtherRegisters(old(regs), regs, {CRT_START_ADDR_H, CRT_START_ADDR_L})
    {
      RegistersDecode(screen);
      regs := regs[CRT_START_ADDR_H := HighByte(screen)];
      regs := regs[CRT_START_ADDR_L := LowByte(screen)];
    }

    /** The adapter shows the cursor at `pos`. */
    method SetCursor()
      requires MEM_BASE <= pos < MEM_BASE + 0x20000 && (pos - MEM_BASE) % 2 == 0
      modifies this`regs
      ensures Register(CRT_CURSOR_H, CRT_CURSOR_L, pos)
      ensures 0xE in regs && 0xF in regs && 0xB8000 + 2 * (256 * regs[0xE] + regs[0xF]) == pos
      ensures OtherRegisters(old(regs), regs, {CRT_CURSOR_H, CRT_CURSOR_L})
    {
      RegistersDecode(pos);
      regs := regs[CRT_CURSOR_H := HighByte(pos)];
      regs := regs[CRT_CURSOR_L := LowByte(pos)];
    }

    /** A blank cell, as a 16-bit store. */
    method Blank(a: int)
      modifies this`video
      ensures video == Blanked(old(video), a)
    {
      video := video[a := 0x20];
      video := video[a + 1 := 0x07];
    }

    method ConsoleClear()
      modifies this
      ensures Shows(Home()) && CursorShown() && SameOutside(old(video), video)
      ensures forall a :: MEM_BASE <= a < MEM_END ==>
                a in video && video[a] == if (a - MEM_BASE) % 2 == 0 then 0x20 else 0x07
    {
      screen := MEM_BASE;
      pos := MEM_BASE;
      x, y := 0, 0;
      SetCursor();
      SetScreen();
      var ptr := MEM_BASE;
      while ptr < MEM_END
        invariant MEM_BASE <= ptr <= MEM_END && (ptr - MEM_BASE) % 2 == 0
        invariant SameOutside(old(video), video)
        invariant forall a :: MEM_BASE <= a < ptr ==>
                    a in video && video[a] == if (a - MEM_BASE) % 2 == 0 then 0x20 else 0x07
        modifies this`video
      {
        Blank(ptr);
        ptr := ptr + 2;
      }
    }

    /** Moves the window down one row, or copies it back to the start; then it
        shows the very rows it showed before. */
    method ScrollUp(ghost c: Cursor)
      requires Full(video) && c.lines + 1 >= HEIGHT && c.x <= WIDTH
      requires screen == WindowAt(c.lines) && pos == CursorAt(c)
      modifies this`screen, this`pos, this`regs, this`video
      ensures screen == WindowAt(c.lines + 1) && pos == CursorAt(c.(lines := c.lines + 1))
      ensures Register(CRT_START_ADDR_H, CRT_START_ADDR_L, screen)
      ensures video == LineFed(old(video), c.lines)
    {
      WindowInMemory(c.lines);
      JumpIff(c.lines);
      if screen + SCR_SIZE + ROW_SIZE < MEM_END {
        ClearRow(screen + SCR_SIZE);
        screen := screen + ROW_SIZE;
        pos := pos + ROW_SIZE;
      } else {
        CopyWindow();
        pos := pos - (screen - MEM_BASE);
        screen := MEM_BASE;
      }
      CursorEven(c.(lines := c.lines + 1));
      SetScreen();
    }

    /** The loop over a new row: 80 stores of 32 bits. */
    method ClearRow(at: int)
      modifies this`video
      ensures video == Cleared(old(video), at, WIDTH)
    {
      var ptr := at;
      var i := 0;
      while i < WIDTH
        invariant 0 <= i <= WIDTH && ptr == at + 4 * i
        invariant video == Cleared(old(video), at, i)
        modifies this`video
      {
        Blank(ptr);
        video := video[ptr + 2 := 0][ptr + 3 := 0];
        ptr := ptr + 4;
        i := i + 1;
      }
    }

    /** memcpy of the window to the start of video memory. */
    method CopyWindow()
      requires Full(video) && MEM_BASE + SCR_SIZE <= screen && screen + SCR_SIZE <= MEM_END
      modifies this`video
      ensures video == Copied(old(video), screen, SCR_SIZE)
    {
      CopiedNothing(video, screen);
      var i := 0;
      while i < SCR_SIZE
        invariant 0 <= i <= SCR_SIZE && Full(old(video))
        invariant video == Copied(old(video), screen, i)
        modifies this`video
      {
        CopiedMore(old(video), screen, i);
        video := video[MEM_BASE + i := video[screen + i]];
        i := i + 1;
      }
    }

    method CommandLf(ghost c: Cursor)
      requires Shows(c)
      modifies this`screen, this`pos, this`y, this`regs, this`video
      ensures Shows(c.(lines := c.lines + 1))
      ensures video == LineFed(old(video), c.lines)
    {
      WindowInMemory(c.lines);
      if y + 1 < HEIGHT {
        y := y + 1;
        pos := pos + ROW_SIZE;
        return;
      }
      ScrollUp(c);
    }

    method CommandCr(ghost c: Cursor)
      requires Shows(c)
      modifies this`pos, this`x
      ensures Shows(c.(x := 0))
    {
      pos := pos - 2 * x;
      x := 0;
    }

    method CommandBs(ghost c: Cursor)
      requires Shows(c)
      modifies this`pos, this`x, this`video
      ensures Shows(Feed(c, BS))
      ensures video == if c.x > 0 then Blanked(old(video), CursorAt(c) - 2) else old(video)
    {
      if x > 0 {
        x := x - 1;
        pos := pos - 2;
        Blank(pos);
      }
    }

    /** Consumes one byte; `ptr` is the write pointer of the enclosing call. */
    method WriteByte(ch: byte, ptr: int, ghost c: Cursor) returns (next: int)
      requires Shows(c)
      modifies this`screen, this`pos, this`x, this`y, this`regs, this`video
      ensures Shows(Feed(c, ch))
      ensures video == After(old(video), c, ptr, ch)
      ensures next == if Printable(ch) then ptr + 2 else ptr
    {
      next := ptr;
      if ch == BS {
        CommandBs(c);
      } else if ch == LF {
        CommandLf(c);
        CommandCr(c.(lines := c.lines + 1));
      } else if ch == FF {
        CommandLf(c);
      } else if ch == CR {
        CommandCr(c);
      } else if ch == DEL {
        Blank(pos);
      } else if ch !in {NUL, BEL, HT, VT} {
        next := WriteChar(ch, ptr, c);
      }
    }

    /** A printable byte, after the wrap if there is one. */
    method WriteChar(ch: byte, ptr: int, ghost c: Cursor) returns (next: int)
      requires Shows(c) && Printable(ch)
      modifies this`screen, this`pos, this`x, this`y, this`regs, this`video
      ensures Shows(Feed(c, ch)) && video == After(old(video), c, ptr, ch) && next == ptr + 2
    {
      if x >= WIDTH {
        x := x - WIDTH;
        pos := pos - ROW_SIZE;
        CommandLf(c.(x := c.x - WIDTH));
      }
      video := video[ptr := ch];
      video := video[ptr + 1 := 0x07];
      next := ptr + 2;
      pos := pos + 2;
      x := x + 1;
    }

    /** Where a call stands that has consumed the first `i` bytes of its text. */
    ghost predicate Reached(v: Bytes, c: Cursor, text: seq<byte>, i: nat, ptr: int)
      requires i <= |text| && Full(v)
      reads this
    {
      && Shows(FeedAll(c, text[..i]))
      && ptr == CursorAt(c) + 2 * Written(text[..i])
      && video == AfterAll(v, c, text[..i])
    }

    method WriteNext(buf: seq<byte>, i: nat, ptr: int, ghost v: Bytes, ghost c: Cursor) returns (next: int)
      requires i < |buf| && Full(v) && Reached(v, c, buf, i, ptr)
      modifies this`screen, this`pos, this`x, this`y, this`regs, this`video
      ensures Reached(v, c, buf, i + 1, next)
    {
      ghost var text := buf[..i + 1];
      assert text[..i] == buf[..i] && text[i] == buf[i];
      next := WriteByte(buf[i], ptr, FeedAll(c, buf[..i]));
    }

    /** Writes a text. Whatever its bytes, the four variables afterwards stand for
        the cursor that the text yields, the adapter shows that window and cursor,
        and memory is as specified. */
    method ConsoleWrite(buf: seq<byte>, ghost c: Cursor)
      requires Shows(c)
      modifies this
      ensures Shows(FeedAll(c, buf)) && CursorShown()
      ensures video == AfterAll(old(video), c, buf)
      ensures StaysInside(c, buf) ==> SameOutside(old(video), video)
      ensures Straight(c, buf) ==> InPlace(video, c, buf)
    {
      ghost var v := video;
      var ptr := pos;
      var i := 0;
      while i < |buf|
        invariant 0 <= i <= |buf| && Reached(v, c, buf, i, ptr)
      {
        ptr := WriteNext(buf, i, ptr, v, c);
        i := i + 1;
      }
      assert buf[..|buf|] == buf;
      TextStored(v, c, buf);
      CursorEven(FeedAll(c, buf));
      SetCursor();
    }
  }

  lemma TextStored(v: Bytes, c: Cursor, text: seq<byte>)
    requires Full(v) && c.x <= WIDTH
    ensures StaysInside(c, text) ==> SameOutside(v, AfterAll(v, c, text))
    ensures Straight(c, text) ==> InPlace(AfterAll(v, c, text), c, text)
  {
    if StaysInside(c, text) {
      OutsideUnchanged(v, c, text);
    }
    if Straight(c, text) {
      StraightInPlace(v, c, text);
    }
  }

  lemma CopiedNothing(v: Bytes, from: int)
    requires Full(v) && MEM_BASE <= from <= MEM_END
    ensures Copied(v, from, 0) == v
  {
  }

  lemma CopiedMore(v: Bytes, from: int, n: nat)
    requires Full(v) && MEM_BASE + SCR_SIZE <= from && from + n < MEM_END && n < SCR_SIZE
    ensures
      var w := Copied(v, from, n);
      from + n in w && Copied(v, from, n + 1) == w[MEM_BASE + n := w[from + n]]
  {
  }
}
