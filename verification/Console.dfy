/** The line editor and the screen it echoes to. Characters are signed, as `char` is on
    the i386: what is 32 or more is 32..127. */
module Console {
  import opened Bytes

  type schar = x: int | -0x80 <= x < 0x80

  const VGA_COLS: nat := 80
  const VGA_ROWS: nat := 25
  const CELLS: nat := 2000
  const LINE_MAX: nat := 128

  const BACKSPACE: schar := 8
  const NEWLINE: schar := 10
  const SPACE: schar := 32

  // ---- the screen ------------------------------------------------------------------

  /** The characters on the screen and the place of the next one. */
  datatype Scr = Scr(cells: seq<schar>, cursor: nat) {
    predicate Sound() { |cells| == CELLS && cursor < CELLS }
  }

  /** The last row moves up; the new one is blank. */
  function Scrolled(s: Scr): Scr
    requires |s.cells| == CELLS
  {
    if s.cursor < CELLS then s
    else Scr(s.cells[VGA_COLS..] + seq(VGA_COLS, i => SPACE), CELLS - VGA_COLS)
  }

  /** vga_putc, without colours. */
  function PutChar(s: Scr, c: schar): (s': Scr)
    requires s.Sound()
    ensures s'.Sound()
  {
    Scrolled(
      if c >= 32 then Scr(s.cells[s.cursor := c], s.cursor + 1)
      else if c == NEWLINE then s.(cursor := s.cursor + (VGA_COLS - s.cursor % VGA_COLS))
      else if c == BACKSPACE && s.cursor > 0 then s.(cursor := s.cursor - 1)
      else s)
  }

  function PutAll(s: Scr, cs: seq<schar>): (s': Scr)
    requires s.Sound()
    ensures s'.Sound()
    decreases |cs|
  {
    if cs == [] then s else PutAll(PutChar(s, cs[0]), cs[1..])
  }

  // ---- the line ----------------------------------------------------------------------

  /** The text typed so far. */
  type Text = t: seq<schar> | |t| < LINE_MAX && forall i :: 0 <= i < |t| ==> t[i] >= 32

  /** What a character does to the text. */
  function Typed(t: Text, c: schar): Text {
    if c == BACKSPACE then if t == [] then t else t[..|t| - 1]
    else if c >= 32 && |t| + 1 < LINE_MAX then t + [c]
    else t
  }

  /** What it sends to the echo. */
  function Echoed(t: Text, c: schar): seq<schar> {
    if c == BACKSPACE then if t == [] then [] else [BACKSPACE, SPACE, BACKSPACE]
    else if c >= 32 then if |t| + 1 < LINE_MAX then [c] else []
    else if c == NEWLINE then [NEWLINE]
    else []
  }

  // ---- the screen stays true to the line ------------------------------------------------

  /** The screen `s` shows `t` right before its cursor, on a screen that was `s0` when
      the line was empty and has scrolled by `k` rows since: the cells before the
      line are those of `s0`. */
  ghost predicate Shows(s: Scr, t: Text, s0: Scr, k: nat) {
    && s.Sound() && s0.Sound()
    && s.cursor == s0.cursor - VGA_COLS * k + |t| && s0.cursor >= VGA_COLS * k
    && (forall i {:trigger t[i]} :: 0 <= i < |t| ==> s.cells[s.cursor - |t| + i] == t[i])
    && forall p {:trigger s.cells[p]} :: 0 <= p < s.cursor - |t| ==> s.cells[p] == s0.cells[p + VGA_COLS * k]
  }

  lemma TypingKeepsShown(s: Scr, t: Text, s0: Scr, k: nat, c: schar)
    requires Shows(s, t, s0, k) && c >= 32 && |t| + 1 < LINE_MAX
    ensures exists k' :: k <= k' <= k + 1 && Shows(PutChar(s, c), t + [c], s0, k')
  {
    var s', t' := PutChar(s, c), t + [c];
    if s.cursor + 1 < CELLS {
      assert Shows(s', t', s0, k);
    } else {
      forall i | 0 <= i < |t'|
        ensures s'.cells[s'.cursor - |t'| + i] == t'[i]
      {
        if i < |t| {
          assert t'[i] == t[i];
        }
      }
      assert Shows(s', t', s0, k + 1);
    }
  }

  lemma ErasingIs(s: Scr)
    requires s.Sound()
    ensures PutAll(s, [BACKSPACE, SPACE, BACKSPACE]) == PutChar(PutChar(PutChar(s, BACKSPACE), SPACE), BACKSPACE)
  {
    var s1 := PutChar(s, BACKSPACE);
    var s2 := PutChar(s1, SPACE);
    assert PutAll(s, [BACKSPACE, SPACE, BACKSPACE]) == PutAll(s1, [SPACE, BACKSPACE]);
    assert PutAll(s1, [SPACE, BACKSPACE]) == PutAll(s2, [BACKSPACE]) == PutChar(s2, BACKSPACE);
  }

  lemma ErasingKeepsShown(s: Scr, t: Text, s0: Scr, k: nat)
    requires Shows(s, t, s0, k) && t != []
    ensures Shows(PutAll(s, [BACKSPACE, SPACE, BACKSPACE]), t[..|t| - 1], s0, k)
  {
    ErasingIs(s);
    var s3 := PutChar(PutChar(PutChar(s, BACKSPACE), SPACE), BACKSPACE);
    assert s3.cells == s.cells[s.cursor - 1 := SPACE];
    var t' := t[..|t| - 1];
    forall i | 0 <= i < |t'|
      ensures s3.cells[s3.cursor - |t'| + i] == t'[i]
    {
      assert t'[i] == t[i];
    }
  }

  /** One character: the echo shows what the line now holds. */
  lemma StepShows(s: Scr, t: Text, s0: Scr, k: nat, c: schar)
    requires Shows(s, t, s0, k) && c != NEWLINE
    ensures exists k' :: k <= k' <= k + 1 && Shows(PutAll(s, Echoed(t, c)), Typed(t, c), s0, k')
  {
    if c == BACKSPACE && t != [] {
      ErasingKeepsShown(s, t, s0, k);
      assert Shows(PutAll(s, Echoed(t, c)), Typed(t, c), s0, k);
    } else if c >= 32 && |t| + 1 < LINE_MAX {
      TypingKeepsShown(s, t, s0, k, c);
      var k' :| k <= k' <= k + 1 && Shows(PutChar(s, c), t + [c], s0, k');
      assert PutAll(s, [c]) == PutAll(PutChar(s, c), [c][1..]) == PutChar(s, c);
      assert Shows(PutAll(s, Echoed(t, c)), Typed(t, c), s0, k');
    } else {
      assert Shows(PutAll(s, Echoed(t, c)), Typed(t, c), s0, k);
    }
  }

  /** A whole session of typing, from the first character to the last. */
  function TypedAll(t: Text, cs: seq<schar>): Text
    decreases |cs|
  {
    if cs == [] then t else TypedAll(Typed(t, cs[0]), cs[1..])
  }

  function ShownAll(s: Scr, t: Text, cs: seq<schar>): Scr
    requires s.Sound()
    decreases |cs|
  {
    if cs == [] then s else ShownAll(PutAll(s, Echoed(t, cs[0])), Typed(t, cs[0]), cs[1..])
  }

  lemma {:induction false} SessionShows(s: Scr, t: Text, s0: Scr, k: nat, cs: seq<schar>)
    requires Shows(s, t, s0, k) && NEWLINE !in cs
    ensures exists k' :: k' >= k && Shows(ShownAll(s, t, cs), TypedAll(t, cs), s0, k')
    decreases |cs|
  {
    assert s.Sound();
    hide Shows, PutAll, Typed, Echoed;
    if cs != [] {
      StepShows(s, t, s0, k, cs[0]);
      var k' :| k <= k' <= k + 1 && Shows(PutAll(s, Echoed(t, cs[0])), Typed(t, cs[0]), s0, k');
      var s', t' := PutAll(s, Echoed(t, cs[0])), Typed(t, cs[0]);
      SessionShows(s', t', s0, k', cs[1..]);
      var n :| n >= k' && Shows(ShownAll(s', t', cs[1..]), TypedAll(t', cs[1..]), s0, n);
      assert ShownAll(s, t, cs) == ShownAll(s', t', cs[1..]);
      assert TypedAll(t, cs) == TypedAll(t', cs[1..]);
    } else {
      assert Shows(ShownAll(s, t, cs), TypedAll(t, cs), s0, k);
    }
  }

  /** The screen never lies: whatever is typed without a newline on whatever screen, in
      the end the line stands right before the cursor, and before it what stood there
      when it was begun, moved up by whole rows. */
  lemma EchoTellsTheTruth(s0: Scr, cs: seq<schar>)
    requires s0.Sound() && NEWLINE !in cs
    ensures exists k :: Shows(ShownAll(s0, [], cs), TypedAll([], cs), s0, k)
  {
    assert Shows(s0, [], s0, 0);
    SessionShows(s0, [], s0, 0, cs);
  }

  /** What the text is, said without the editor: printable characters are kept in order
      up to 127 of them, and a backspace undoes the last one kept. */
  lemma {:induction false} TypedIsInput(t: Text, cs: seq<schar>)
    requires forall i :: 0 <= i < |cs| ==> cs[i] >= 32
    ensures TypedAll(t, cs) == (t + cs)[..Min(|t + cs|, LINE_MAX - 1)]
    decreases |cs|
  {
    if cs != [] {
      TypedIsInput(Typed(t, cs[0]), cs[1..]);
      assert t + [cs[0]] + cs[1..] == t + cs;
    }
  }

  lemma BackspaceUndoes(t: Text, c: schar)
    requires c >= 32 && |t| + 1 < LINE_MAX
    ensures TypedAll(t, [c, BACKSPACE]) == t
  {
    assert [c, BACKSPACE][1..] == [BACKSPACE] && [BACKSPACE][1..] == [];
    assert TypedAll(t + [c], [BACKSPACE]) == TypedAll(t, []);
  }

  /** A newline goes to the start of the next row. On the last row all rows move up
      by one and the new last row is blank; otherwise no cell changes. */
  lemma NewlineMeans(s: Scr)
    requires s.Sound()
    ensures var s' := PutChar(s, NEWLINE);
      && s'.cursor % VGA_COLS == 0
      && if s.cursor / VGA_COLS + 1 < VGA_ROWS then s'.cells == s.cells && s'.cursor / VGA_COLS == s.cursor / VGA_COLS + 1
         else
           && s'.cursor / VGA_COLS == VGA_ROWS - 1
           && (forall p :: 0 <= p < CELLS - VGA_COLS ==> s'.cells[p] == s.cells[p + VGA_COLS])
           && forall p :: CELLS - VGA_COLS <= p < CELLS ==> s'.cells[p] == SPACE
  {
    var row, col := s.cursor / VGA_COLS, s.cursor % VGA_COLS;
    assert s.cursor + (VGA_COLS - col) == (row + 1) * VGA_COLS;
  }

  /** What one character does to the screen, in plain numbers: from 32 on it is printed, 8
      goes one place back, 10 to the next row, others do nothing; past the last of 2000
      cells the screen moves up by a row of 80. */
  lemma PutCharMeans(s: Scr, c: schar)
    requires s.Sound()
    ensures c >= 32 && s.cursor < 1999 ==> PutChar(s, c) == Scr(s.cells[s.cursor := c], s.cursor + 1)
    ensures c >= 32 && s.cursor == 1999 ==>
      PutChar(s, c) == Scr(s.cells[80..1999] + [c] + seq(80, i => 32), 1920)
    ensures c == 8 ==> PutChar(s, c) == Scr(s.cells, if s.cursor == 0 then 0 else s.cursor - 1)
    ensures c == 10 && s.cursor < 1920 ==> PutChar(s, c) == Scr(s.cells, (s.cursor / 80 + 1) * 80)
    ensures c == 10 && s.cursor >= 1920 ==> PutChar(s, c) == Scr(s.cells[80..] + seq(80, i => 32), 1920)
    ensures c < 32 && c != 8 && c != 10 ==> PutChar(s, c) == s
  {
    if c >= 32 && s.cursor == 1999 {
      assert s.cells[1999 := c][80..] == s.cells[80..1999] + [c];
    }
    if c == 10 {
      NewlineMeans(s);
    }
  }

  /** Enter leaves the line as it is and is echoed as it is; so does every other control
      character, without an echo; a backspace on an empty line does nothing. */
  lemma ControlKeepsLine(t: Text, c: schar)
    ensures c < 32 && c != 8 ==> Typed(t, c) == t && Echoed(t, c) == if c == 10 then [10] else []
    ensures Typed([], 8) == [] && Echoed([], 8) == []
    ensures t != [] ==> Typed(t, 8) == t[..|t| - 1] && Echoed(t, 8) == [8, 32, 8]
    ensures c >= 32 && |t| < 127 ==> Typed(t, c) == t + [c] && Echoed(t, c) == [c]
    ensures c >= 32 && |t| == 127 ==> Typed(t, c) == t && Echoed(t, c) == []
  {
  }

  // ---- the two in memory -----------------------------------------------------------------

  class Screen {
    const cells: array<schar>
    var cursor: nat

    ghost predicate Valid()
      reads this, cells
    {
      cells.Length == CELLS && cursor < CELLS
    }

    function View(): Scr
      reads this, cells
    {
      Scr(cells[..], cursor)
    }

    /** vga_clear. */
    constructor ()
      ensures Valid() && fresh(cells) && cursor == 0 && forall p :: 0 <= p < CELLS ==> cells[p] == SPACE
    {
      cells := new schar[CELLS](p => SPACE);
      cursor := 0;
    }

    /** The scroll of vga_putc: all rows but the first are copied up, the last is
        blanked. */
    method Scroll()
      requires cells.Length == CELLS
      modifies this`cursor, cells
      ensures View() == Scrolled(old(View()).(cursor := CELLS))
    {
      ghost var was := cells[..];
      for i := 0 to CELLS - VGA_COLS
        invariant forall p :: 0 <= p < i ==> cells[p] == was[p + VGA_COLS]
        invariant forall p :: i <= p < CELLS ==> cells[p] == was[p]
      {
        cells[i] := cells[i + VGA_COLS];
      }
      for i := CELLS - VGA_COLS to CELLS
        invariant forall p :: 0 <= p < CELLS - VGA_COLS ==> cells[p] == was[p + VGA_COLS]
        invariant forall p :: CELLS - VGA_COLS <= p < i ==> cells[p] == SPACE
      {
        cells[i] := SPACE;
      }
      cursor := CELLS - VGA_COLS;
      assert cells[..] == was[VGA_COLS..] + seq(VGA_COLS, i => SPACE);
    }

    /** vga_putc. */
    method Putc(c: schar)
      requires Valid()
      modifies this`cursor, cells
      ensures Valid() && View() == PutChar(old(View()), c)
    {
      if c >= 32 {
        cells[cursor] := c;
        cursor := cursor + 1;
      } else if c == NEWLINE {
        cursor := cursor + (VGA_COLS - cursor % VGA_COLS);
      } else if c == BACKSPACE && cursor > 0 {
        cursor := cursor - 1;
      }
      if cursor >= CELLS {
        Scroll();
      }
    }
  }

  class LineEdit {
    const buf: array<schar>
    var len: nat
    const echo: Screen?

    ghost predicate Valid()
      reads this, buf, echo, if echo == null then {} else {echo.cells}
    {
      && buf.Length == LINE_MAX && len < LINE_MAX
      && (forall i :: 0 <= i < len ==> buf[i] >= 32)
      && (forall i :: len <= i < LINE_MAX ==> buf[i] == 0)
      && (echo != null ==> echo.Valid() && echo.cells != buf)
    }

    /** The line as a C string: `buf[len]` is its first NUL. */
    function Line(): Text
      requires Valid()
      reads this, buf, echo, if echo == null then {} else {echo.cells}
    {
      buf[..len]
    }

    /** lineedit_init, with an echo or without. */
    constructor (echo: Screen?)
      requires echo != null ==> echo.Valid()
      ensures Valid() && fresh(buf) && this.echo == echo && Line() == []
    {
      this.echo := echo;
      len := 0;
      buf := new schar[LINE_MAX](i => 0);
    }

    /** lineedit_putc: it answers 1 exactly on a newline. */
    method Putc(c: schar) returns (ret: int)
      requires Valid()
      modifies this`len, buf, echo, if echo == null then {} else {echo.cells}
      ensures Valid() && Line() == Typed(old(Line()), c)
      ensures echo != null ==> echo.View() == PutAll(old(echo.View()), Echoed(old(Line()), c))
      ensures ret == if c == NEWLINE then 1 else 0
    {
      ret := 0;
      var ll := len;
      if c == BACKSPACE {
        if ll > 0 {
          buf[ll - 1] := 0;
          len := len - 1;
          if echo != null {
            EchoErase();
          }
        }
      } else if c >= 32 {
        if ll + 1 < LINE_MAX {
          buf[ll] := c;
          buf[ll + 1] := 0;
          len := len + 1;
          if echo != null {
            echo.Putc(c);
          }
        }
      }
      if c == NEWLINE {
        if echo != null {
          echo.Putc(NEWLINE);
        }
        ret := 1;
      }
      if ll - 1 >= LINE_MAX {
        ret := 1;
      }
    }

    /** A character is rubbed out: back, a blank over it, back again. */
    method EchoErase()
      requires echo != null && echo.Valid() && echo.cells != buf
      modifies echo, echo.cells
      ensures echo.Valid() && echo.View() == PutAll(old(echo.View()), [BACKSPACE, SPACE, BACKSPACE])
    {
      ErasingIs(echo.View());
      echo.Putc(BACKSPACE);
      echo.Putc(SPACE);
      echo.Putc(BACKSPACE);
    }

    /** lineedit_reset. */
    method Reset()
      requires Valid()
      modifies this`len, buf
      ensures Valid() && Line() == []
    {
      len := 0;
      for i := 0 to LINE_MAX
        invariant len == 0 && forall k :: 0 <= k < i ==> buf[k] == 0
      {
        buf[i] := 0;
      }
    }
  }
}
