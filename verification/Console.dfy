/** The text screen of drivers/vga.c and drivers/console.c on values: 25 rows of 80 cells in
    one sequence, and a cursor by its position in it. */
module Screen {
  import opened Words

  const COLS := 80
  const ROWS := 25
  const CELLS := 2000
  const LAST_ROW := 1920
  const IBUF_SIZE := 128
  const TAB_WIDTH := 4
  const GREEN: u8 := 0x0a
  const RED_ON_BLUE: u8 := 0x14
  const CLEAR: char := 127 as char
  const BACKSPACE: char := 8 as char

  datatype Cell = Cell(c: char, attr: u8)

  // A character is a signed byte: from 0x80 on its sign fills the attribute.
  function Encoded(c: char, attr: u8): Cell {
    Cell(c, if c as int >= 0x80 then 0xff else attr)
  }

  const BLANK := Cell(' ', GREEN)

  datatype Display = Display(cells: seq<Cell>, pos: nat)

  predicate OnScreen(d: Display) { |d.cells| == CELLS && d.pos < CELLS }

  function Scrolled(cells: seq<Cell>): seq<Cell>
    requires |cells| == CELLS
  {
    cells[COLS..] + seq(COLS, _ => BLANK)
  }

  function Fed(d: Display): (r: Display)
    requires OnScreen(d)
    ensures OnScreen(r)
  {
    if d.pos >= LAST_ROW then Display(Scrolled(d.cells), LAST_ROW) else Display(d.cells, (d.pos / COLS + 1) * COLS)
  }

  function Echoed(d: Display, cell: Cell): (r: Display)
    requires OnScreen(d)
    ensures OnScreen(r)
  {
    if d.pos == CELLS - 1 then Display(Scrolled(d.cells[d.pos := cell]), LAST_ROW)
    else Display(d.cells[d.pos := cell], d.pos + 1)
  }

  function EchoedAll(d: Display, s: string, attr: u8): (r: Display)
    requires OnScreen(d)
    ensures OnScreen(r)
  {
    if s == "" then d else Echoed(EchoedAll(d, s[..|s| - 1], attr), Encoded(s[|s| - 1], attr))
  }

  // n characters erased one by one; erasing from the home position would leave the screen.
  function Erased(d: Display, n: nat, attr: u8): (r: Display)
    requires OnScreen(d) && n <= d.pos
    ensures OnScreen(r) && r.pos == d.pos - n
  {
    if n == 0 then d
    else
      var e := Erased(d, n - 1, attr);
      Display(e.cells[e.pos - 1 := Cell(' ', attr)], e.pos - 1)
  }

  function Blanked(): (r: Display)
    ensures OnScreen(r)
  {
    Display(seq(CELLS, _ => BLANK), 0)
  }

  // ---- The line being typed ----

  datatype Line = Line(pending: string, completed: bool)

  const NO_LINE := Line("", false)

  // The keys that _putc does not treat as a character.
  predicate IsControl(c: char) { c == '\n' || c == '\t' || c == '\r' || c == BACKSPACE || c == CLEAR }

  function Erasures(l: Line, c: char): nat {
    if l.completed then 0 else if c == '\r' then |l.pending| else if c == BACKSPACE && l.pending != "" then 1 else 0
  }

  /** What a keystroke does to the line. */
  function Typed(l: Line, c: char): (r: Line)
    ensures |l.pending| <= IBUF_SIZE ==> |r.pending| <= IBUF_SIZE
  {
    if c == '\n' then l.(completed := true)
    else if IsControl(c) then l.(pending := l.pending[..|l.pending| - Erasures(l, c)])
    else if |l.pending| < IBUF_SIZE then l.(pending := l.pending + [c])
    else l
  }

  // As much of a line as fits.
  function Cut(line: string, len: nat): string { if len < |line| then line[..len] else line }

  function TypedAll(keys: seq<char>): Line {
    if keys == [] then NO_LINE else Typed(TypedAll(keys[..|keys| - 1]), keys[|keys| - 1])
  }

  /** What it does to the screen. */
  function Shows(d: Display, l: Line, c: char, attr: u8): (r: Display)
    requires OnScreen(d) && Erasures(l, c) <= d.pos
    ensures OnScreen(r)
  {
    if c == '\n' then Fed(d)
    else if c == '\t' then EchoedAll(d, "    ", attr)
    else if c == CLEAR then Blanked()
    else if IsControl(c) then Erased(d, Erasures(l, c), attr)
    else if |l.pending| < IBUF_SIZE then Echoed(d, Encoded(c, attr))
    else d
  }

  // ---- The same in columns, rows and codes: column x of row y is cell 80 * y + x ----

  /** The word of screen memory, for a character read as a signed byte. */
  lemma EncodedWord(c: char, attr: u8)
    requires c as int < 256
    ensures var e := Encoded(c, attr); var signed := if c as int < 128 then c as int else c as int - 256;
      256 * e.attr as int + e.c as int == if signed < 0 then 65536 + signed else 256 * attr as int + signed
  {
  }

  /** Scrolling moves each row up by one; the last row is blank, in green on black. */
  lemma ScrolledIs(cells: seq<Cell>, x: nat, y: nat)
    requires |cells| == 2000 && x < 80 && y < 25
    ensures |Scrolled(cells)| == 2000
    ensures Scrolled(cells)[80 * y + x] == if y < 24 then cells[80 * (y + 1) + x] else Cell(' ', 0x0a)
  {
  }

  /** A line feed goes to the start of the next row, and scrolls in the last. */
  lemma FedIs(d: Display, x: nat, y: nat)
    requires OnScreen(d) && x < 80 && y < 25 && d.pos == 80 * y + x
    ensures Fed(d) == if y == 24 then Display(Scrolled(d.cells), 1920) else Display(d.cells, 80 * (y + 1))
  {
    assert d.pos / 80 == y;
  }

  /** A character goes to the cursor's place, which moves on by one column, and from the last column
      like a line feed. */
  lemma EchoedIs(d: Display, cell: Cell, x: nat, y: nat)
    requires OnScreen(d) && x < 80 && y < 25 && d.pos == 80 * y + x
    ensures Echoed(d, cell) ==
            if x < 79 then Display(d.cells[80 * y + x := cell], 80 * y + x + 1)
            else Fed(Display(d.cells[80 * y + x := cell], d.pos))
  {
    FedIs(Display(d.cells[80 * y + x := cell], d.pos), x, y);
  }

  /** Text that ends before the last cell stands in the cells from the cursor on. */
  lemma {:induction false} EchoedAllIs(d: Display, s: string, attr: u8, k: nat)
    requires OnScreen(d) && d.pos + |s| < 2000 && k < 2000
    ensures EchoedAll(d, s, attr).pos == d.pos + |s|
    ensures EchoedAll(d, s, attr).cells[k] ==
            if d.pos <= k < d.pos + |s| then Encoded(s[k - d.pos], attr) else d.cells[k]
  {
    if s != "" { EchoedAllIs(d, s[..|s| - 1], attr, k); }
  }

  /** Erasing puts blanks into the cells before the cursor. */
  lemma {:induction false} ErasedIs(d: Display, n: nat, attr: u8, k: nat)
    requires OnScreen(d) && n <= d.pos && k < 2000
    ensures Erased(d, n, attr).cells[k] == if d.pos - n <= k < d.pos then Cell(' ', attr) else d.cells[k]
  {
    if n > 0 { ErasedIs(d, n - 1, attr, k); }
  }

  /** What a key does, by its code: 10 completes the line; as long as it is not complete 8 takes away
      its last character and 13 all; 9 and 127 leave it, and any other key is stored as long as there
      are fewer than 128 characters. */
  lemma TypedIs(l: Line, c: char)
    ensures c as int == 10 ==> Typed(l, c) == Line(l.pending, true)
    ensures c as int == 9 || c as int == 127 ==> Typed(l, c) == l
    ensures c as int == 13 ==> Typed(l, c) == if l.completed then l else Line("", false)
    ensures c as int == 8 ==>
              Typed(l, c) == if l.completed || l.pending == "" then l else Line(l.pending[..|l.pending| - 1], false)
    ensures IsControl(c) <==> c as int == 8 || c as int == 9 || c as int == 10 || c as int == 13 || c as int == 127
    ensures !IsControl(c) ==> Typed(l, c) == if |l.pending| < 128 then Line(l.pending + [c], l.completed) else l
  {
    assert l.pending[..|l.pending|] == l.pending;
  }

  /** And what it shows: a line feed, the erased characters, four blanks, an empty screen in green on
      black, or the character itself if it is stored. */
  lemma ShowsIs(d: Display, l: Line, c: char, attr: u8)
    requires OnScreen(d) && Erasures(l, c) <= d.pos
    ensures c as int == 10 ==> Shows(d, l, c, attr) == Fed(d)
    ensures c as int == 9 ==> Shows(d, l, c, attr) == EchoedAll(d, "    ", attr)
    ensures c as int == 127 ==> Shows(d, l, c, attr) == Display(seq(2000, _ => Cell(' ', 0x0a)), 0)
    ensures c as int == 8 || c as int == 13 ==>
              Shows(d, l, c, attr) == Erased(d, |l.pending| - |Typed(l, c).pending|, attr)
    ensures !IsControl(c) ==>
              Shows(d, l, c, attr) == if |l.pending| < 128 then Echoed(d, Encoded(c, attr)) else d
  {
  }

  /** The caller gets the beginning of the line, as much of it as its buffer takes. */
  lemma CutIs(line: string, len: nat)
    ensures Cut(line, len) <= line && |Cut(line, len)| == if len < |line| then len else |line|
  {
  }

  // ---- What holds between the two ----

  // Enough positions before the cursor for all pending input to be erased.
  predicate Ample(d: Display, l: Line) {
    OnScreen(d) && |l.pending| <= IBUF_SIZE && |l.pending| <= d.pos
  }

  /** Every key but the one that clears the screen keeps the room. */
  lemma KeyKeepsAmple(d: Display, l: Line, c: char, attr: u8)
    requires Ample(d, l) && c != CLEAR
    ensures Erasures(l, c) <= d.pos && Ample(Shows(d, l, c, attr), Typed(l, c))
  {
    if c == '\t' { TabAdvances(d, attr); }
  }

  lemma TabAdvances(d: Display, attr: u8)
    requires OnScreen(d)
    ensures EchoedAll(d, "    ", attr).pos >= (if d.pos < LAST_ROW then d.pos else LAST_ROW)
  {
    EchoedAdvances(d, "    ", attr);
  }

  /** Text moves the cursor on by its length, or the cursor ends in the last row. */
  lemma {:induction false} EchoedAdvances(d: Display, s: string, attr: u8)
    requires OnScreen(d)
    ensures var p := EchoedAll(d, s, attr).pos; p == d.pos + |s| || LAST_ROW <= p
  {
    if s != "" { EchoedAdvances(d, s[..|s| - 1], attr); }
  }

  // Short of the last row the cursor moves on by exactly the length of the text.
  lemma {:induction false} EchoedExact(d: Display, s: string, attr: u8)
    requires OnScreen(d) && d.pos + |s| < CELLS
    ensures EchoedAll(d, s, attr).pos == d.pos + |s|
  {
    if s != "" { EchoedExact(d, s[..|s| - 1], attr); }
  }

  /** Keys that neither erase nor clear never move the cursor back, but for scrolling, and a stored
      character moves it on. */
  lemma KeyAdvances(d: Display, l: Line, c: char, attr: u8)
    requires OnScreen(d) && Erasures(l, c) == 0 && c != CLEAR
    ensures var r, grown := Shows(d, l, c, attr), |Typed(l, c).pending| - |l.pending|;
      0 <= grown && (d.pos + grown <= r.pos || LAST_ROW <= r.pos)
  {
    if c == '\t' { TabAdvances(d, attr); }
  }

  // A string that the program itself writes.
  function Written(d: Display, s: string, attr: u8): (r: Display)
    requires OnScreen(d)
    ensures OnScreen(r)
  {
    if s == "" then d else WrittenChar(Written(d, s[..|s| - 1], attr), s[|s| - 1], attr)
  }

  // Erase and kill are not among its characters.
  function WrittenChar(d: Display, c: char, attr: u8): (r: Display)
    requires OnScreen(d)
    ensures OnScreen(r)
  {
    if c == '\n' then Fed(d)
    else if c == '\t' then EchoedAll(d, "    ", attr)
    else if c == CLEAR then Blanked()
    else Echoed(d, Encoded(c, attr))
  }

  /** Writing a character shows what typing it with nothing pending shows. */
  lemma WrittenIs(d: Display, c: char, attr: u8)
    requires OnScreen(d) && c as int != 8 && c as int != 13
    ensures Erasures(NO_LINE, c) == 0 && WrittenChar(d, c, attr) == Shows(d, NO_LINE, c, attr)
  {
  }

  predicate IsMessage(s: string) { BACKSPACE !in s && '\r' !in s }

  lemma MessageIff(s: string)
    ensures IsMessage(s) <==> forall i | 0 <= i < |s| :: s[i] as int != 8 && s[i] as int != 13
  {
  }

  lemma WritingKeepsAmple(d: Display, l: Line, c: char, attr: u8)
    requires Ample(d, l) && c != CLEAR
    ensures Ample(WrittenChar(d, c, attr), l)
  {
    if c == '\t' { TabAdvances(d, attr); }
  }

  lemma TypedSnoc(keys: seq<char>, c: char)
    ensures TypedAll(keys + [c]) == Typed(TypedAll(keys), c)
  {
  }

  /** No control character is ever stored. */
  lemma {:induction false} StoredArePlain(keys: seq<char>)
    ensures forall i | 0 <= i < |TypedAll(keys).pending| :: !IsControl(TypedAll(keys).pending[i])
  {
    if keys != [] { StoredArePlain(keys[..|keys| - 1]); }
  }

  lemma EchoNext(d: Display, s: string, i: nat, attr: u8)
    requires OnScreen(d) && i < |s|
    ensures EchoedAll(d, s[..i + 1], attr) == Echoed(EchoedAll(d, s[..i], attr), Encoded(s[i], attr))
  {
    assert s[..i + 1][..i] == s[..i];
  }

  // The pending input stands right before the cursor.
  predicate Shown(d: Display, l: Line) {
    Ample(d, l) && forall i | 0 <= i < |l.pending| :: d.cells[d.pos - |l.pending| + i].c == l.pending[i]
  }

  lemma EchoKeepsShown(d: Display, l: Line, c: char, attr: u8)
    requires Shown(d, l) && |l.pending| < IBUF_SIZE
    ensures Shown(Echoed(d, Encoded(c, attr)), l.(pending := l.pending + [c]))
  {
  }

  lemma {:induction false} EraseKeepsShown(d: Display, l: Line, n: nat, attr: u8)
    requires Shown(d, l) && n <= |l.pending|
    ensures Shown(Erased(d, n, attr), l.(pending := l.pending[..|l.pending| - n]))
  {
    if n > 0 { EraseKeepsShown(d, l, n - 1, attr); }
    else { assert l.pending[..|l.pending|] == l.pending; }
  }

  /** Characters, erase and kill keep the pending input visible right before the cursor, through
      the right margin and the scrolling of the screen. */
  lemma KeyKeepsShown(d: Display, l: Line, c: char, attr: u8)
    requires Shown(d, l) && (!IsControl(c) || c == BACKSPACE || c == '\r')
    ensures Shown(Shows(d, l, c, attr), Typed(l, c))
  {
    if IsControl(c) { EraseKeepsShown(d, l, Erasures(l, c), attr); }
    else if |l.pending| < IBUF_SIZE { EchoKeepsShown(d, l, c, attr); }
  }

  /** Displaying the pending input again makes it visible, wherever the cursor is. */
  lemma {:induction false} RedisplayShows(d: Display, l: Line, n: nat, attr: u8)
    requires OnScreen(d) && n <= |l.pending| <= IBUF_SIZE
    ensures Shown(EchoedAll(d, l.pending[..n], attr), l.(pending := l.pending[..n]))
  {
    if n > 0 {
      RedisplayShows(d, l, n - 1, attr);
      var front := l.pending[..n - 1];
      EchoKeepsShown(EchoedAll(d, front, attr), l.(pending := front), l.pending[n - 1], attr);
      assert l.pending[..n] == front + [l.pending[n - 1]];
      assert l.pending[..n][..n - 1] == front;
    }
  }

  // ---- The cursor as the program keeps it: two bytes ----

  function Backward(x: u8, y: u8): (u8, u8) {
    if x == 0 then (COLS - 1, (y + 255) % 256) else (x - 1, y)
  }

  /** One step back goes to the position before, and leaves the screen from the home position
      and from no other. */
  lemma BackwardStaysIff(x: u8, y: u8)
    requires x < COLS && y < ROWS
    ensures var b := Backward(x, y);
      && (b.0 < COLS && b.1 < ROWS <==> x != 0 || y != 0)
      && (x != 0 || y != 0 ==> b.1 * COLS + b.0 == y * COLS + x - 1)
  {
  }

  predicate InBounds(b: (u8, u8)) { b.0 < COLS && b.1 < ROWS }

  function BackBy(x: u8, y: u8, n: nat): (u8, u8) {
    if n == 0 then (x, y) else var b := BackBy(x, y, n - 1); Backward(b.0, b.1)
  }

  lemma {:induction false} BackByAt(x: u8, y: u8, n: nat)
    requires x < COLS && y < ROWS && n <= y * COLS + x
    ensures var b := BackBy(x, y, n); InBounds(b) && b.1 * COLS + b.0 == y * COLS + x - n
  {
    if n > 0 {
      BackByAt(x, y, n - 1);
      var b := BackBy(x, y, n - 1);
      BackwardStaysIff(b.0, b.1);
    }
  }

  /** Erasing n characters one by one stays on the screen if and only if the cursor is at
      position n or behind it. */
  lemma ErasingStaysIff(x: u8, y: u8, n: nat)
    requires x < COLS && y < ROWS
    ensures (forall k | 0 <= k <= n :: InBounds(BackBy(x, y, k))) <==> n <= y * COLS + x
  {
    var pos := y * COLS + x;
    if n <= pos {
      forall k | 0 <= k <= n ensures InBounds(BackBy(x, y, k)) { BackByAt(x, y, k); }
    } else {
      BackByAt(x, y, pos);
      BackwardStaysIff(0, 0);
      assert !InBounds(BackBy(x, y, pos + 1));
    }
  }

  /** Clear and erase with a character pending: the erase starts from the home position, and its
      step back leaves the screen. */
  lemma EraseAfterClearLeaves(d: Display, attr: u8)
    requires Ample(d, NO_LINE)
    ensures var l := TypedAll(['a', CLEAR]);
      && l == Line("a", false) && Shows(Shows(d, NO_LINE, 'a', attr), Line("a", false), CLEAR, attr).pos == 0
      && Erasures(l, BACKSPACE) == 1 && !InBounds(Backward(0, 0))
  {
    assert TypedAll(['a']) == Typed(TypedAll([]), 'a');
    assert ['a', CLEAR][..1] == ['a'];
  }

  // ---- Keys while the line is displayed again

  function Min(a: int, b: int): int { if a < b then a else b }

  /** Displaying the line from its character i on ends with room for all of it to be erased if and
      only if there is room for the first i characters now. */
  lemma RedisplayIsAmpleIff(d: Display, l: Line, i: nat, attr: u8)
    requires OnScreen(d) && i <= |l.pending| <= IBUF_SIZE
    ensures Ample(EchoedAll(d, l.pending[i..], attr), l) <==> i <= d.pos
  {
    EchoedAdvances(d, l.pending[i..], attr);
    if d.pos < i { EchoedExact(d, l.pending[i..], attr); }
  }

  // A key that leaves room for the characters displayed so far, i of them or the whole line: no
  // clear once there are some, and no erasures that the positions before the cursor cannot spare.
  predicate Harmless(d: Display, l: Line, i: nat, c: char) {
    if c == CLEAR then Min(i, |l.pending|) == 0
    else Erasures(l, c) == 0 || i + Erasures(l, c) <= d.pos || |l.pending| <= d.pos
  }

  /** A key keeps the room for the characters displayed so far if and only if it is harmless. */
  lemma KeyKeepsRoomIff(d: Display, l: Line, i: nat, c: char, attr: u8)
    requires OnScreen(d) && |l.pending| <= IBUF_SIZE && i <= IBUF_SIZE
    requires Min(i, |l.pending|) <= d.pos && Erasures(l, c) <= d.pos
    ensures Min(i, |Typed(l, c).pending|) <= Shows(d, l, c, attr).pos <==> Harmless(d, l, i, c)
  {
    if c != CLEAR && Erasures(l, c) == 0 { KeyAdvances(d, l, c, attr); }
  }

  /** So the display ends with room for all of the line if and only if the key is harmless. */
  lemma DisplayAfterKeyIsAmpleIff(d: Display, l: Line, i: nat, c: char, attr: u8)
    requires OnScreen(d) && i <= |l.pending| <= IBUF_SIZE && i <= d.pos && Erasures(l, c) <= d.pos
    ensures var d', l' := Shows(d, l, c, attr), Typed(l, c);
      Ample(EchoedAll(d', l'.pending[Min(i, |l'.pending|)..], attr), l') <==> Harmless(d, l, i, c)
  {
    var d', l' := Shows(d, l, c, attr), Typed(l, c);
    KeyKeepsRoomIff(d, l, i, c, attr);
    RedisplayIsAmpleIff(d', l', Min(i, |l'.pending|), attr);
  }

  /** The screen is cleared while the line "ab" is being displayed again, between its two
      characters: afterwards the cursor is at position 1, two characters are pending, and nothing
      asks for another display. A kill would leave the screen. */
  lemma ClearDuringRedisplayLosesRoom(d: Display, attr: u8)
    requires OnScreen(d)
    ensures var l := Line("ab", false);
      var d1 := Echoed(d, Encoded('a', attr));
      var after := Echoed(Shows(d1, l, CLEAR, attr), Encoded('b', attr));
      && !Harmless(d1, l, 1, CLEAR)
      && after.pos == 1 && !Ample(after, Typed(l, CLEAR)) && Erasures(Typed(l, CLEAR), '\r') > after.pos
  {
  }

  /** An erase between the two characters of "ab" loses room if the display starts at the home
      position, and keeps it behind a prompt. */
  lemma EraseDuringRedisplay(d: Display, attr: u8)
    requires OnScreen(d) && d.pos < LAST_ROW
    ensures var l := Line("ab", false);
      var d1 := Echoed(d, Encoded('a', attr));
      var d2 := Shows(d1, l, BACKSPACE, attr);
      && (Ample(d2, Typed(l, BACKSPACE)) <==> Harmless(d1, l, 1, BACKSPACE))
      && (Harmless(d1, l, 1, BACKSPACE) <==> d.pos > 0)
  {
  }
}

/** drivers/vga.c and drivers/console.c as they run: the screen memory, two cursor bytes, the
    input buffer, and keystrokes that arrive while the keyboard interrupt is enabled. */
module Terminal {
  import opened Words
  import opened Screen

  class Console {
    const mem: array<Cell>
    const ibuf: array<char>
    var attr: u8
    var cursX: u8
    var cursY: u8
    var widx: nat
    var lineCompleted: bool
    var cleared: bool
    // The keyboard's interrupt line at the controller.
    var irq: bool
    // The keys since the last line was handed over.
    ghost var typed: seq<char>
    // Whether only harmless keys arrive while the line is being displayed again.
    const careful: bool

    ghost predicate Valid()
      reads this`cursX, this`cursY, this`widx
    {
      mem.Length == CELLS && ibuf.Length == IBUF_SIZE && cursX < COLS && cursY < ROWS && widx <= IBUF_SIZE
    }

    function Pos(): nat
      reads this`cursX, this`cursY
    {
      cursY * COLS + cursX
    }

    function View(): Display
      reads this`cursX, this`cursY, mem
    {
      Display(mem[..], Pos())
    }

    function Input(): Line
      requires Valid()
      reads this`cursX, this`cursY, this`widx, this`lineCompleted, ibuf
    {
      Line(ibuf[..widx], lineCompleted)
    }

    // vga_scroll_down
    method ScrollDown()
      requires mem.Length == CELLS
      modifies mem
      ensures mem[..] == Scrolled(old(mem[..]))
    {
      for i := 0 to CELLS - COLS
        invariant forall k | 0 <= k < i :: mem[k] == old(mem[k + COLS])
        invariant forall k | i <= k < CELLS :: mem[k] == old(mem[k])
      {
        mem[i] := mem[i + COLS];
      }
      ClearRow(ROWS - 1);
    }

    // vga_clear_row
    method ClearRow(y: nat)
      requires mem.Length == CELLS && y < ROWS
      modifies mem
      ensures forall k | 0 <= k < CELLS :: mem[k] == if y * COLS <= k < y * COLS + COLS then BLANK else old(mem[k])
    {
      for x := 0 to COLS
        invariant forall k | 0 <= k < CELLS :: mem[k] == if y * COLS <= k < y * COLS + x then BLANK else old(mem[k])
      {
        mem[y * COLS + x] := BLANK;
      }
    }

    // console_clear
    method Clear()
      requires Valid()
      modifies this`cursX, this`cursY, this`cleared, mem
      ensures Valid() && View() == Blanked() && cleared
    {
      for y := 0 to ROWS
        invariant forall k | 0 <= k < y * COLS :: mem[k] == BLANK
      {
        ClearRow(y);
      }
      assert mem[..] == Blanked().cells;
      cursX, cursY, cleared := 0, 0, true;
    }

    method LineFeed()
      requires mem.Length == CELLS && cursX <= COLS && cursY < ROWS
      modifies this`cursX, this`cursY, mem
      ensures cursX == 0 && cursY == (if old(cursY) == ROWS - 1 then ROWS - 1 else old(cursY) + 1)
      ensures mem[..] == if old(cursY) == ROWS - 1 then Scrolled(old(mem[..])) else old(mem[..])
    {
      cursX := 0;
      cursY := cursY + 1;
      if cursY == ROWS {
        ScrollDown();
        cursY := ROWS - 1;
      }
    }

    method CursForward()
      requires Valid()
      modifies this`cursX, this`cursY, mem
      ensures Valid()
      ensures View() == if old(Pos()) == CELLS - 1 then Display(Scrolled(old(mem[..])), LAST_ROW)
        else Display(old(mem[..]), old(Pos()) + 1)
    {
      cursX := cursX + 1;
      if cursX == COLS { LineFeed(); }
    }

    method CursBackward()
      modifies this`cursX, this`cursY
      ensures (cursX, cursY) == Backward(old(cursX), old(cursY))
    {
      if cursX == 0 {
        cursX := COLS - 1;
        cursY := if cursY == 0 then 255 else cursY - 1;
      } else {
        cursX := cursX - 1;
      }
    }

    // _putc_attr
    method PutAttr(c: char)
      requires Valid()
      modifies this`cursX, this`cursY, mem
      ensures Valid() && View() == Echoed(old(View()), Encoded(c, attr))
    {
      mem[cursY * COLS + cursX] := Encoded(c, attr);
      CursForward();
    }

    // _putc; the answer is whether c is a character to be stored.
    method Putc(c: char, display: bool) returns (printable: bool)
      requires Valid() && Erasures(Input(), c) <= Pos()
      modifies this`cursX, this`cursY, this`widx, this`cleared, mem
      ensures Valid() && (printable <==> !IsControl(c))
      ensures View() == (if IsControl(c) then Shows(old(View()), old(Input()), c, attr)
                         else if display then Echoed(old(View()), Encoded(c, attr)) else old(View()))
      ensures widx == old(widx - Erasures(Input(), c)) && cleared == (old(cleared) || c == CLEAR)
      decreases if IsControl(c) then 3 else 0
    {
      printable := false;
      if c == '\n' {
        LineFeed();
      } else if c == '\t' {
        Tab();
      } else if c == '\r' {
        Kill();
      } else if c == CLEAR {
        Clear();
      } else if c == BACKSPACE {
        var _ := DelIbuf();
      } else {
        if display { PutAttr(c); }
        printable := true;
      }
    }

    // _tab
    method Tab()
      requires Valid()
      modifies this`cursX, this`cursY, this`widx, this`cleared, mem
      ensures Valid() && View() == EchoedAll(old(View()), "    ", attr) && widx == old(widx) && cleared == old(cleared)
      decreases 1
    {
      var blanks := "    ";
      for i := 0 to TAB_WIDTH
        invariant Valid() && View() == EchoedAll(old(View()), blanks[..i], attr) && widx == old(widx)
        invariant cleared == old(cleared)
      {
        assert blanks[..i + 1][..i] == blanks[..i];
        var _ := Putc(' ', true);
      }
      assert blanks[..TAB_WIDTH] == blanks;
    }

    // _del_ibuf; the answer is whether there was a character to be erased.
    method DelIbuf() returns (deleted: bool)
      requires Valid() && Erasures(Input(), BACKSPACE) <= Pos()
      modifies this`cursX, this`cursY, this`widx, this`cleared, mem
      ensures Valid() && (deleted <==> old(Erasures(Input(), BACKSPACE)) == 1) && cleared == old(cleared)
      ensures View() == Erased(old(View()), old(Erasures(Input(), BACKSPACE)), attr)
      ensures widx == old(widx - Erasures(Input(), BACKSPACE))
      decreases 1
    {
      if lineCompleted || widx == 0 { return false; }
      widx := widx - 1;
      BackwardStaysIff(cursX, cursY);
      CursBackward();
      var _ := Putc(' ', true);
      BackwardStaysIff(cursX, cursY);
      CursBackward();
      deleted := true;
    }

    // _kill
    method Kill()
      requires Valid() && Erasures(Input(), '\r') <= Pos()
      modifies this`cursX, this`cursY, this`widx, this`cleared, mem
      ensures Valid() && View() == Erased(old(View()), old(Erasures(Input(), '\r')), attr)
      ensures widx == old(widx - Erasures(Input(), '\r')) && cleared == old(cleared)
      decreases 2
    {
      ghost var n: nat := 0;
      var deleted := true;
      while deleted
        invariant Valid() && cleared == old(cleared) && n <= old(Erasures(Input(), '\r')) && widx == old(widx) - n
        invariant View() == Erased(old(View()), n, attr)
        invariant !deleted ==> n == old(Erasures(Input(), '\r'))
        decreases widx, deleted
      {
        deleted := DelIbuf();
        if deleted { n := n + 1; }
      }
    }

    /** console_put_ibuf: what a keystroke does to the screen and to the line. */
    method Key(c: char)
      requires Valid() && Erasures(Input(), c) <= Pos()
      modifies this`cursX, this`cursY, this`widx, this`lineCompleted, this`cleared, this`typed, mem, ibuf
      ensures Valid() && View() == Shows(old(View()), old(Input()), c, attr) && Input() == Typed(old(Input()), c)
      ensures cleared == (old(cleared) || c == CLEAR) && typed == old(typed) + [c]
    {
      typed := typed + [c];
      if c == '\n' { lineCompleted := true; }
      var printable := Putc(c, widx != IBUF_SIZE);
      if printable && widx != IBUF_SIZE {
        ibuf[widx] := c;
        widx := widx + 1;
      }
    }

    // All of the line can be erased.
    ghost predicate Roomy()
      reads this`cursX, this`cursY, this`widx
    {
      widx <= Pos()
    }

    // The line is what was typed; when only harmless keys arrive while it is displayed again, all of
    // it can be erased whenever no display is outstanding.
    ghost predicate Inv()
      reads this, mem, ibuf
    {
      Valid() && Input() == TypedAll(typed) && (careful && !cleared ==> Roomy())
    }

    // The key erases no further than the home position (ErasingStaysIff).
    predicate Fits(c: char)
      requires Valid()
      reads this`cursX, this`cursY, this`widx, this`lineCompleted, ibuf
    {
      Erasures(Input(), c) <= Pos()
    }

    /** Every key fits if there is room, so in a careful session whenever no display is outstanding; a
        key that does not fit is an erase or a kill. */
    lemma EveryKeyFits(c: char)
      requires Inv()
      ensures Roomy() || (careful && !cleared) ==> Fits(c)
      ensures !Fits(c) ==> c == BACKSPACE || c == '\r'
    {
    }

    // Keystrokes that arrive here: any that fit. Only a clear can take the room away.
    method Keys()
      requires Inv()
      modifies this`cursX, this`cursY, this`widx, this`lineCompleted, this`cleared, this`typed, mem, ibuf
      ensures Inv() && old(typed) <= typed && (!irq ==> unchanged(this, mem, ibuf))
      ensures (old(cleared) ==> cleared) && (old(Roomy()) && !cleared ==> Roomy())
    {
      var n: nat := *;
      while n > 0
        invariant Inv() && old(typed) <= typed && (!irq ==> unchanged(this, mem, ibuf))
        invariant (old(cleared) ==> cleared) && (old(Roomy()) && !cleared ==> Roomy())
      {
        var c: char := *;
        if irq && c != '\0' && Fits(c) {
          TypedSnoc(typed, c);
          if widx <= Pos() && c != CLEAR { KeyKeepsAmple(View(), Input(), c, attr); }
          Key(c);
        }
        n := n - 1;
      }
    }

    // The first i characters of the line, or all of it, can be erased.
    ghost predicate RoomFor(i: nat)
      reads this`cursX, this`cursY, this`widx
    {
      Min(i, widx) <= Pos()
    }

    // The first i characters of the line, or all of it, are displayed again.
    ghost predicate Redisplaying(i: nat)
      reads this, mem, ibuf
    {
      Valid() && Input() == TypedAll(typed) && cleared && (careful ==> RoomFor(i))
    }

    ghost predicate ShownUpTo(d: Display, l: Line, i: nat)
      reads this, mem, ibuf
    {
      Valid() && OnScreen(d) && i <= |l.pending| && Input() == l && View() == EchoedAll(d, l.pending[..i], attr)
    }

    /** One key while the first i characters of the line are displayed again: if there was room for
        them, it takes it away if and only if it is not harmless. */
    method KeyDuring(c: char, i: nat)
      requires Redisplaying(i) && i <= IBUF_SIZE && Fits(c)
      requires careful ==> Harmless(View(), Input(), i, c)
      modifies this`cursX, this`cursY, this`widx, this`lineCompleted, this`cleared, this`typed, mem, ibuf
      ensures Redisplaying(i) && typed == old(typed) + [c]
      ensures old(RoomFor(i)) ==> (RoomFor(i) <==> old(Harmless(View(), Input(), i, c)))
    {
      TypedSnoc(typed, c);
      if Min(i, widx) <= Pos() { KeyKeepsRoomIff(View(), Input(), i, c, attr); }
      Key(c);
    }

    // The keys that arrive there.
    method KeysDuring(i: nat)
      requires Redisplaying(i) && i <= IBUF_SIZE
      modifies this`cursX, this`cursY, this`widx, this`lineCompleted, this`cleared, this`typed, mem, ibuf
      ensures Redisplaying(i) && old(typed) <= typed && (!irq ==> unchanged(this, mem, ibuf))
    {
      var n: nat := *;
      while n > 0
        invariant Redisplaying(i) && old(typed) <= typed && (!irq ==> unchanged(this, mem, ibuf))
      {
        var c: char := *;
        if irq && c != '\0' && Fits(c) && (careful ==> Harmless(View(), Input(), i, c)) { KeyDuring(c, i); }
        n := n - 1;
      }
    }

    // One turn of the loop below, and the keys that arrive after it.
    method DisplayOne(i: nat, ghost d: Display, ghost l: Line)
      requires Redisplaying(i) && i < widx && (!irq ==> ShownUpTo(d, l, i))
      modifies this`cursX, this`cursY, this`widx, this`lineCompleted, this`cleared, this`typed
      modifies mem, ibuf
      ensures Redisplaying(i + 1) && old(typed) <= typed
      ensures !irq ==> ShownUpTo(d, l, i + 1) && (old(RoomFor(i)) ==> RoomFor(i + 1))
    {
      StoredArePlain(typed);
      assert !IsControl(Input().pending[i]);
      if !irq { EchoNext(d, l.pending, i, attr); }
      var _ := Putc(ibuf[i], true);
      KeysDuring(i + 1);
    }

    /** _display_ibuf: afterwards all of the line can be erased, if the keys that arrived were
        harmless. */
    method DisplayIbuf()
      requires Valid() && Input() == TypedAll(typed) && cleared
      modifies this`cursX, this`cursY, this`widx, this`lineCompleted, this`cleared, this`typed, mem, ibuf
      ensures Redisplaying(IBUF_SIZE) && old(typed) <= typed && (careful || !irq ==> Ample(View(), Input()))
      ensures !irq ==> View() == EchoedAll(old(View()), old(Input()).pending, attr) && Input() == old(Input())
    {
      ghost var d, l := View(), Input();
      KeysDuring(0);
      DisplayRest(d, l);
      assert l.pending[..|l.pending|] == l.pending;
    }

    method DisplayRest(ghost d: Display, ghost l: Line)
      requires Redisplaying(0) && (!irq ==> ShownUpTo(d, l, 0))
      modifies this`cursX, this`cursY, this`widx, this`lineCompleted, this`cleared, this`typed, mem, ibuf
      ensures Redisplaying(IBUF_SIZE) && old(typed) <= typed
      ensures !irq ==> ShownUpTo(d, l, |l.pending|) && Roomy()
    {
      var i := DisplayLoop(d, l);
      KeysDuring(IBUF_SIZE);
    }

    method DisplayLoop(ghost d: Display, ghost l: Line) returns (i: nat)
      requires Redisplaying(0) && (!irq ==> ShownUpTo(d, l, 0))
      modifies this`cursX, this`cursY, this`widx, this`lineCompleted, this`cleared, this`typed, mem, ibuf
      ensures widx <= i <= IBUF_SIZE && Redisplaying(i) && old(typed) <= typed
      ensures !irq ==> ShownUpTo(d, l, i) && RoomFor(i)
    {
      i := 0;
      while i < widx
        invariant i <= IBUF_SIZE && Redisplaying(i) && old(typed) <= typed
        invariant !irq ==> ShownUpTo(d, l, i) && RoomFor(i)
        decreases IBUF_SIZE - i
      {
        DisplayOne(i, d, l);
        i := i + 1;
      }
    }

    // console_puts; keys may arrive after every character.
    method Puts(s: string)
      requires Inv() && IsMessage(s)
      modifies this`cursX, this`cursY, this`widx, this`lineCompleted, this`cleared, this`typed, mem, ibuf
      ensures Inv() && old(typed) <= typed
      ensures (old(cleared) ==> cleared) && (old(Roomy()) && !cleared ==> Roomy())
      ensures !irq ==> View() == Written(old(View()), s, attr) && Input() == old(Input())
    {
      ghost var d, l := View(), Input();
      for i := 0 to |s|
        invariant Inv() && old(typed) <= typed
        invariant (old(cleared) ==> cleared) && (old(Roomy()) && !cleared ==> Roomy())
        invariant !irq ==> View() == Written(d, s[..i], attr) && Input() == l
      {
        assert s[..i + 1][..i] == s[..i];
        PutMessageChar(s[i]);
        Keys();
      }
      assert s[..|s|] == s;
    }

    method PutMessageChar(c: char)
      requires Inv() && c != BACKSPACE && c != '\r'
      modifies this`cursX, this`cursY, this`widx, this`cleared, mem
      ensures Inv() && View() == WrittenChar(old(View()), c, attr) && Input() == old(Input())
      ensures (old(cleared) ==> cleared) && (old(Roomy()) && !cleared ==> Roomy())
    {
      if widx <= Pos() && c != CLEAR { WritingKeepsAmple(View(), Input(), c, attr); }
      var _ := Putc(c, true);
    }

    // console_puts_err
    method PutsErr(s: string)
      requires Inv() && IsMessage(s)
      modifies this`attr, this`cursX, this`cursY, this`widx, this`lineCompleted, this`cleared, this`typed
      modifies mem, ibuf
      ensures Inv() && old(typed) <= typed && attr == old(attr)
      ensures (old(cleared) ==> cleared) && (old(Roomy()) && !cleared ==> Roomy())
      ensures !irq ==> View() == Written(old(View()), s, 0x14) && Input() == old(Input())
    {
      var saved := attr;
      attr := RED_ON_BLUE;
      Puts(s);
      attr := saved;
    }

    // Displays the line again after the screen was cleared.
    method Redisplay()
      requires Inv()
      modifies this`cursX, this`cursY, this`widx, this`lineCompleted, this`cleared, this`typed
      modifies mem, ibuf
      ensures Inv() && old(typed) <= typed
    {
      if cleared {
        DisplayIbuf();
        cleared := false;
      }
    }

    /** console_get_line, as long as at most wakes interrupts wake the halted processor. The line
        is what all keys since the last line were typed to, cut to the caller's buffer. */
    method GetLine(bufLen: nat, wakes: nat) returns (o: Outcome, line: string, ghost keys: seq<char>)
      requires Inv()
      modifies this`cursX, this`cursY, this`widx, this`lineCompleted, this`cleared, this`irq, this`typed
      modifies mem, ibuf
      ensures Inv() && old(typed) <= keys
      ensures o.Got? ==>
        && TypedAll(keys).completed && typed == [] && !irq
        && line == Cut(TypedAll(keys).pending, bufLen)
      ensures !o.Got? ==> typed == keys && irq && (o.Again? ==> cleared && !Input().completed)
    {
      line, keys := "", [];
      Redisplay();
      Keys();
      o := Await(wakes);
      keys := typed;
      if o.Got? { line := TakeLine(bufLen); }
    }

    // The loop of console_get_line; it ends with the keyboard interrupt disabled if there is a line.
    method Await(wakes: nat) returns (o: Outcome)
      requires Inv()
      modifies this`cursX, this`cursY, this`widx, this`lineCompleted, this`cleared, this`irq, this`typed
      modifies mem, ibuf
      ensures Inv() && old(typed) <= typed && irq == !o.Got?
      ensures (o.Got? <==> lineCompleted) && (o.Again? ==> cleared) && (old(Roomy()) && !cleared ==> Roomy())
    {
      irq := false;
      var n := 0;
      while !lineCompleted && !cleared && n < wakes
        invariant Inv() && old(typed) <= typed && !irq && (old(Roomy()) && !cleared ==> Roomy())
      {
        irq := true;
        Keys();
        irq := false;
        n := n + 1;
      }
      irq := !lineCompleted;
      o := if lineCompleted then Got else if cleared then Again else Halted;
    }

    method TakeLine(bufLen: nat) returns (line: string)
      requires Inv()
      modifies this`widx, this`lineCompleted, this`typed
      ensures Inv() && typed == [] && Roomy()
      ensures line == old(Cut(Input().pending, bufLen))
    {
      line := ibuf[..if bufLen < widx then bufLen else widx];
      widx, lineCompleted, typed := 0, false, [];
    }

    // console_init
    constructor (careful: bool)
      ensures Inv() && this.careful == careful && typed == [] && cleared && irq && View() == Blanked()
      ensures attr == 0x0a
      ensures fresh(mem) && fresh(ibuf)
    {
      mem := new Cell[CELLS](_ => BLANK);
      ibuf := new char[IBUF_SIZE](_ => '\0');
      this.careful := careful;
      attr, cursX, cursY, widx, lineCompleted, irq, typed := GREEN, 0, 0, 0, false, true, [];
      new;
      Clear();
    }
  }

  // A line; the screen was cleared, so the prompt is to be displayed first; still waiting.
  datatype Outcome = Got | Again | Halted

  /** Any course of messages, error messages and calls for a line, with any keys that fit: the
      cursor stays on the screen, and the line is always what the keys were typed to. If the keys
      that arrive while the line is being displayed again are harmless, all of the line can be erased
      whenever no display is outstanding. */
  method Session(rounds: nat, careful: bool) returns (console: Console)
    ensures fresh(console) && console.Inv()
    ensures careful && !console.cleared ==> Ample(console.View(), console.Input())
  {
    console := new Console(careful);
    for i := 0 to rounds
      invariant fresh(console) && fresh(console.mem) && fresh(console.ibuf) && console.Inv()
      invariant console.careful == careful
    {
      console.Keys();
      var s: string, len: nat, wakes: nat, choice: nat := *, *, *, *;
      if choice == 0 && IsMessage(s) {
        console.Puts(s);
      } else if choice == 1 && IsMessage(s) {
        console.PutsErr(s);
      } else {
        var _, _, _ := console.GetLine(len, wakes);
      }
    }
  }
}
