/** What the drawing operations do, cell by cell and column by column: the window model
    said once more, without its functions. */
module Effects {
  import opened Cells
  import opened WindowModel
  import opened LineOps
  import opened RowOps
  import opened Terminal

  /** w's cells with the ones at column x and after in row r replaced by s. */
  function Over(w: Win, r: int, x: int, s: Row): (g: Grid)
    requires 0 <= r < w.maxy && 0 <= x && x + |s| <= w.maxx
    ensures IsGrid(g, w.maxy, w.maxx)
    ensures forall i, k | 0 <= i < w.maxy && 0 <= k < w.maxx ::
              g[i][k] == if i == r && x <= k < x + |s| then s[k - x] else w.cells[i][k]
  {
    w.cells[r := w.cells[r][..x] + s + w.cells[r][x + |s|..]]
  }

  /** The cell that a stored character leaves. */
  function CellFor(w: Win, ch: Chtype): Chtype { Blend(w.attrs, w.bkgd, ch) }

  // ---------------------------------------------------------------- waddch

  /** o is w with the cells g and its cursor at the start of the next line: one row below,
      or at the bottom margin on the same row, with the region moved up; without scrolling
      that fails. */
  predicate NextLine(w: Win, g: Grid, o: Outcome)
    requires IsGrid(g, w.maxy, w.maxx)
  {
    && SameSettings(w, o.win)
    && if w.cury < w.bmarg then o.ok && o.win.cury == w.cury + 1 && o.win.curx == 0 && o.win.cells == g
       else if w.scroll then
         && o.ok && o.win.cury == w.cury && o.win.curx == 0
         && forall r | 0 <= r < w.maxy :: o.win.cells[r] == RolledUp(w, g, r)
       else !o.ok && o.win.cury == w.cury && o.win.cells == g
  }

  /** Row r once the scrolling region has moved up by one. */
  function RolledUp(w: Win, g: Grid, r: int): Row
    requires IsGrid(g, w.maxy, w.maxx) && 0 <= r < w.maxy
  {
    if r < w.tmarg || r > w.bmarg then g[r] else if r < w.bmarg then g[r + 1] else Fill(w.bkgd, w.maxx)
  }

  /** o is w with the cells g and its cursor at column x of the same row. */
  predicate StaysOn(w: Win, g: Grid, x: int, o: Outcome) {
    o.ok && SameSettings(w, o.win) && o.win.cells == g && o.win.cury == w.cury && o.win.curx == x
  }

  /** o is w with s written from the cursor on, which then stands behind it: in the same
      row if that has a column left, on the next line otherwise. */
  predicate Written(w: Win, s: Row, o: Outcome)
    requires w.curx + |s| <= w.maxx
  {
    var g := Over(w, w.cury, w.curx, s);
    if w.curx + |s| < w.maxx then StaysOn(w, g, w.curx + |s|, o) else NextLine(w, g, o)
  }

  /** A line feed from a window that differs from w in cells and column only. */
  lemma LineFeedEffect(w: Win, v: Win)
    requires SameSettings(w, v) && v.cury == w.cury
    ensures NextLine(w, v.cells, LineFeed(v, v.cury, 0))
  {
  }

  /** A character that is stored. */
  lemma PlainEffect(w: Win, ch: Chtype)
    ensures Written(w, [CellFor(w, ch)], AddPlain(w, ch))
  {
    hide LineFeed, NextLine, Blend;
    StoreEffect(w, CellFor(w, ch));
    LineFeedEffect(w, Store(w, CellFor(w, ch)));
  }

  lemma StoreEffect(w: Win, c: Chtype)
    ensures var v := Store(w, c);
            && SameSettings(w, v) && v.cury == w.cury && v.curx == w.curx && v.cells == Over(w, w.cury, w.curx, [c])
  {
    var g := Over(w, w.cury, w.curx, [c]);
    var v := Store(w, c);
    assert g[w.cury] == w.cells[w.cury][w.curx := c];
    assert w.cells[w.cury][w.curx] == c ==> g[w.cury] == w.cells[w.cury] && g == w.cells;
  }

  lemma {:induction false} BlanksEffect(w: Win, ch: Chtype, k: nat)
    requires k > 0
    ensures var n := Min(k, w.maxx - w.curx);
            Written(w, Fill(CellFor(w, ch.WithText(SPACE)), n), AddBlanks(w, ch, k))
    decreases k
  {
    hide AddPlain, Written, Blend, RawWin.Valid, Over;
    var c := CellFor(w, ch.WithText(SPACE));
    var s := AddPlain(w, ch.WithText(SPACE));
    PlainEffect(w, ch.WithText(SPACE));
    CursorInside(w);
    assert Fill(c, 1) == [c];
    WrittenCursor(w, [c], s);
    if w.curx + 1 < w.maxx {
      if k > 1 {
        BlanksEffect(s.win, ch, k - 1);
        WrittenMore(w, c, s.win, Min(k - 1, w.maxx - w.curx - 1), AddBlanks(s.win, ch, k - 1));
      } else {
        assert AddBlanks(s.win, ch, 0) == s;
      }
    }
  }

  lemma CursorInside(w: Win)
    ensures 0 <= w.curx < w.maxx
  {
  }

  lemma WrittenCursor(w: Win, s: Row, o: Outcome)
    requires s != [] && w.curx + |s| <= w.maxx && Written(w, s, o)
    ensures if w.curx + |s| < w.maxx then o.ok && o.win.curx == w.curx + |s| && o.win.attrs == w.attrs
                 && o.win.bkgd == w.bkgd && o.win.maxx == w.maxx
            else !o.ok || o.win.curx == 0
  {
  }

  /** One blank and then n more. */
  lemma WrittenMore(w: Win, c: Chtype, v: Win, n: nat, o: Outcome)
    requires w.curx + 1 + n <= w.maxx && Written(w, [c], Outcome(v, true)) && w.curx + 1 < w.maxx
    requires v.curx + n <= v.maxx && Written(v, Fill(c, n), o)
    ensures Written(w, Fill(c, n + 1), o)
  {
    var g := Over(w, w.cury, w.curx, Fill(c, n + 1));
    OverMore(w, w.cury, w.curx, c, v, n);
    hide Over;
  }

  lemma OverMore(w: Win, r: int, x: int, c: Chtype, v: Win, n: nat)
    requires 0 <= r < w.maxy && 0 <= x && x + 1 + n <= w.maxx && v.maxy == w.maxy && v.maxx == w.maxx
    requires v.cells == Over(w, r, x, [c])
    ensures Over(v, r, x + 1, Fill(c, n)) == Over(w, r, x, Fill(c, n + 1))
  {
    var (a, b) := (Over(v, r, x + 1, Fill(c, n)), Over(w, r, x, Fill(c, n + 1)));
    hide Over;
    forall i | 0 <= i < w.maxy
      ensures a[i] == b[i]
    {
    }
  }

  /** A tab writes blanks to the next multiple of eight, where the cursor then stands, or to
      the end of the row, and goes on to the next line. */
  lemma TabEffect(raw: bool, w: Win, ch: Chtype)
    requires Expands(raw, ch) && ch.text == TAB
    ensures var stop := (w.curx / 8 + 1) * 8;
            Written(w, Fill(CellFor(w, ch.WithText(SPACE)), Min(stop, w.maxx) - w.curx), AddCh(raw, w, ch))
  {
    hide AddBlanks, Written, Blend;
    BlanksEffect(w, ch, TABSIZE - w.curx % TABSIZE);
  }

  /** A newline blanks the rest of the row and goes on to the next line. */
  lemma NewlineEffect(raw: bool, w: Win, ch: Chtype)
    requires Expands(raw, ch) && ch.text == NEWLINE
    ensures NextLine(w, Over(w, w.cury, w.curx, Fill(w.bkgd, w.maxx - w.curx)), AddCh(raw, w, ch))
  {
    hide LineFeed, NextLine;
    ClearedEnd(w);
    LineFeedEffect(w, ClrToEol(w));
  }

  lemma ClearedEnd(w: Win)
    ensures var v := ClrToEol(w);
            && SameSettings(w, v) && v.cury == w.cury && v.curx == w.curx
            && v.cells == Over(w, w.cury, w.curx, Fill(w.bkgd, w.maxx - w.curx))
  {
  }

  /** A carriage return and a backspace move the cursor within its row, the second not past
      the first column, and change nothing else. */
  lemma CursorKeysEffect(raw: bool, w: Win, ch: Chtype)
    requires Expands(raw, ch)
    ensures ch.text == RETURN ==> AddCh(raw, w, ch) == Outcome(w.(curx := 0), true)
    ensures ch.text == BACKSPACE && w.curx > 0 ==> AddCh(raw, w, ch) == Outcome(w.(curx := w.curx - 1), true)
    ensures ch.text == BACKSPACE && w.curx == 0 ==> AddCh(raw, w, ch) == Outcome(w, true)
  {
  }

  /** Any other control character writes a caret and then the letter 64 places on, DEL a
      caret and a question mark; the second only if the first has not failed. */
  lemma ControlEffect(raw: bool, w: Win, ch: Chtype)
    requires Expands(raw, ch) && ch.text !in {TAB, NEWLINE, RETURN, BACKSPACE}
    ensures var letter: Half := if ch.text == DEL then 0x3f else ch.text + 0x40;
            exists p: Outcome :: Written(w, [CellFor(w, ch.WithText(0x5e))], p) &&
              if p.ok
              then p.win.curx < p.win.maxx && Written(p.win, [CellFor(w, ch.WithText(letter))], AddCh(raw, w, ch))
              else AddCh(raw, w, ch) == p
  {
    hide AddPlain, Written, Blend;
    var letter: Half := if ch.text == DEL then 0x3f else ch.text + 0x40;
    var p := AddPlain(w, ch.WithText(0x5e));
    PlainEffect(w, ch.WithText(0x5e));
    PlainEffect(p.win, ch.WithText(letter));
    WrittenSettings(w, [CellFor(w, ch.WithText(0x5e))], p);
  }

  lemma WrittenSettings(w: Win, s: Row, o: Outcome)
    requires w.curx + |s| <= w.maxx && Written(w, s, o)
    ensures o.win.attrs == w.attrs && o.win.bkgd == w.bkgd
  {
  }

  /** The part of a C string that is written ends at its terminator, at n characters, or
      where the string does. */
  lemma {:induction false} CTextEnds(s: seq<Half>, n: int)
    ensures var t := CText(s, n);
            && |t| <= |s| && t == s[..|t|] && 0 !in t && (n >= 0 ==> |t| <= n)
            && (|t| == |s| || s[|t|] == 0 || |t| == n)
    decreases |s|
  {
    if s != [] && s[0] != 0 && n != 0 {
      CTextEnds(s[1..], n - 1);
      var t := CText(s[1..], n - 1);
      assert s[..|t| + 1] == [s[0]] + s[1..][..|t|];
    }
  }

  // ---------------------------------------------------------------- clearing

  /** From column x of row r to the end of the window everything is background, and
      marked; before that nothing has changed. */
  predicate ClearedFrom(w: Win, v: Win, r: int, x: int)
    requires SameFrame(w, v)
  {
    forall i, k | 0 <= i < w.maxy && 0 <= k < w.maxx ::
      if i > r || (i == r && k >= x) then v.cells[i][k] == w.bkgd && v.Damaged(i, k) else v.cells[i][k] == w.cells[i][k]
  }

  lemma ClrToEolEffect(w: Win, r: int, x: int)
    requires 0 <= r < w.maxy && 0 <= x < w.maxx
    ensures var v := ClrToEol(w);
            && SameSettings(w, v) && v.cury == w.cury && v.curx == w.curx
            && (if r == w.cury && x >= w.curx then v.cells[r][x] == w.bkgd && v.Damaged(r, x)
                else v.cells[r][x] == w.cells[r][x])
            && (r != w.cury ==> v.first[r] == w.first[r] && v.last[r] == w.last[r])
  {
  }

  lemma ClrToBotEffect(w: Win)
    ensures var v := ClrToBot(w);
            SameSettings(w, v) && v.cury == w.cury && v.curx == w.curx && ClearedFrom(w, v, w.cury, w.curx)
  {
    hide ClrToBot, RawWin.Damaged;
    ClearedCell(w, 0, 0);
    var v := ClrToBot(w);
    forall i, k | 0 <= i < w.maxy && 0 <= k < w.maxx
      ensures if i > w.cury || (i == w.cury && k >= w.curx) then v.cells[i][k] == w.bkgd && v.Damaged(i, k)
              else v.cells[i][k] == w.cells[i][k]
    {
      ClearedCell(w, i, k);
    }
  }

  lemma ClearedCell(w: Win, i: int, k: int)
    requires 0 <= i < w.maxy && 0 <= k < w.maxx
    ensures var v := ClrToBot(w);
            && SameSettings(w, v) && v.cury == w.cury && v.curx == w.curx
            && if i > w.cury || (i == w.cury && k >= w.curx) then v.cells[i][k] == w.bkgd && v.Damaged(i, k)
               else v.cells[i][k] == w.cells[i][k]
  {
    hide BlankRows, ClrToEol;
    RowsBlanked(w, w.cury + 1);
    ClrToEolEffect(BlankRows(w, w.cury + 1, w.maxy - 1), i, k);
  }

  lemma RowsBlanked(w: Win, lo: int)
    requires 0 <= lo
    ensures var b := BlankRows(w, lo, w.maxy - 1);
            && SameSettings(w, b) && b.cury == w.cury && b.curx == w.curx
            && forall i, k | 0 <= i < w.maxy && 0 <= k < w.maxx ::
                 if i >= lo then b.cells[i][k] == w.bkgd && b.Damaged(i, k)
                 else b.cells[i][k] == w.cells[i][k] && b.first[i] == w.first[i] && b.last[i] == w.last[i]
  {
  }

  /** werase and wclear leave a window of background, wholly marked, with its cursor at the
      origin; the second asks for a repaint too. */
  lemma EraseEffect(w: Win)
    ensures var (v, u) := (Erase(w), Clear(w));
            && v.cury == v.curx == 0 && SameSettings(w, v) && ClearedFrom(w, v, 0, 0)
            && u == v.(clear := true)
  {
    hide ClrToBot, ClearedFrom;
    ClrToBotEffect(w.(cury := 0, curx := 0));
    ClrToBotClears(w.(cury := 0, curx := 0));
    SameCleared(w, Erase(w));
  }

  lemma SameCleared(w: Win, v: Win)
    requires SameFrame(w, v) && ClearedFrom(w.(cury := 0, curx := 0), v, 0, 0)
    ensures ClearedFrom(w, v, 0, 0)
  {
  }

  lemma ClrToBotClears(w: Win)
    ensures ClrToBot(w.(clear := true)) == ClrToBot(w).(clear := true)
  {
  }

  // ---------------------------------------------------------------- moving lines

  /** winsdelln with n > 0: the rows from the cursor on stand n rows further down, background
      comes in at the cursor, and the rows above it stay. */
  lemma InsertLinesEffect(w: Win, n: int, r: int)
    requires 0 < n && 0 <= r < w.maxy
    ensures InsDelLn(w, n).cells[r] ==
            if r < w.cury then w.cells[r] else if r - n >= w.cury then w.cells[r - n] else Fill(w.bkgd, w.maxx)
  {
    hide InsDelLn, Fill;
    InsertCells(w, n);
  }

  /** winsdelln with -n < 0: up to the bottom margin the rows from the cursor on stand n rows
      further up, and background comes in at the margin; the rows outside stay. Below the
      margin the cursor's row becomes background. */
  lemma DeleteLinesEffect(w: Win, n: int, r: int)
    requires 0 < n && 0 <= r < w.maxy
    ensures InsDelLn(w, -n).cells[r] ==
            if w.cury <= w.bmarg then
              if r < w.cury || r > w.bmarg then w.cells[r]
              else if r + n <= w.bmarg then w.cells[r + n] else Fill(w.bkgd, w.maxx)
            else if r == w.cury then Fill(w.bkgd, w.maxx) else w.cells[r]
  {
    hide InsDelLn, Fill;
    if w.cury <= w.bmarg {
      DeleteCells(w, n);
    } else {
      DeleteBelow(w, n, r);
    }
  }

  // ---------------------------------------------------------------- editing a row

  /** winsch of a tab pushes the rest of the row to the next multiple of eight, or off it. */
  lemma InsertTabEffect(raw: bool, w: Win, ch: Chtype)
    requires Expands(raw, ch) && ch.text == TAB
    ensures var stop := Min((w.curx / 8 + 1) * 8, w.maxx);
            var row := w.cells[w.cury];
            InsCh(raw, w, ch).cells[w.cury] ==
            row[..w.curx] + Fill(CellFor(w, ch.WithText(SPACE)), stop - w.curx) + row[w.curx..w.maxx - (stop - w.curx)]
  {
    hide InsBlanks, Blend;
    InsertBlanks(w, ch, TABSIZE - w.curx % TABSIZE);
  }

  /** winsch of a newline blanks the rest of the row and moves nothing. */
  lemma InsertNewlineEffect(raw: bool, w: Win, ch: Chtype, r: int, x: int)
    requires Expands(raw, ch) && ch.text == NEWLINE && 0 <= r < w.maxy && 0 <= x < w.maxx
    ensures var v := InsCh(raw, w, ch);
            && v.cury == w.cury && v.curx == w.curx
            && v.cells[r][x] == if r == w.cury && x >= w.curx then w.bkgd else w.cells[r][x]
  {
    ClrToEolEffect(w, r, x);
    hide ClrToEol;
  }

  /** waddchnstr writes the cells before the first zero cell, at most n of them unless n is
      -1, and no further than the row; it refuses n = 0 and n < -1. */
  lemma PutEffect(w: Win, s: seq<Chtype>, n: int, r: int, x: int)
    requires 0 <= r < w.maxy && 0 <= x < w.maxx
    ensures var o := AddChNStr(w, s, n);
            && (o.ok <==> n == -1 || n > 0)
            && (!o.ok ==> o.win == w)
            && (o.ok ==> var k := x - w.curx;
                  o.win.cells[r][x] ==
                  if r == w.cury && 0 <= k < |s| && (n == -1 || k < n) && Ch(0, 0, 0) !in s[..k + 1]
                                       then s[k] else w.cells[r][x])
            && o.win.cury == w.cury && o.win.curx == w.curx
  {
    hide PutCells, ZeroAt;
    if n == -1 || n > 0 {
      var room := w.maxx - w.curx;
      PutCell(w, s[..Min(ZeroAt(s), if n == -1 || n > room then room else n)], r, x);
      if 0 <= x - w.curx < |s| {
        BeforeZero(s, x - w.curx);
      }
    }
  }

  lemma PutCell(w: Win, t: Row, r: int, x: int)
    requires w.curx + |t| <= w.maxx && 0 <= r < w.maxy && 0 <= x < w.maxx
    ensures var v := PutCells(w, t);
            && v.cury == w.cury && v.curx == w.curx
            && v.cells[r][x] == if r == w.cury && w.curx <= x < w.curx + |t| then t[x - w.curx] else w.cells[r][x]
  {
    hide MinColumn, MaxColumn;
  }

  lemma BeforeZero(s: seq<Chtype>, k: nat)
    requires k < |s|
    ensures k < ZeroAt(s) <==> Ch(0, 0, 0) !in s[..k + 1]
  {
    hide ZeroAt;
    if k >= ZeroAt(s) {
      assert s[..k + 1][ZeroAt(s)] == Ch(0, 0, 0);
    }
  }

  // ---------------------------------------------------------------- lines and borders

  /** The line-drawing character ch, or `fallback` if it is zero, over w's attributes and
      background. */
  function Drawn(w: Win, ch: Chtype, fallback: Chtype): Chtype {
    PassThrough(w.attrs, w.bkgd, if ch == Ch(0, 0, 0) then fallback else ch)
  }

  /** whline and wvline write n cells to the right and downwards, as far as the window goes. */
  lemma LinesEffect(w: Win, ch: Chtype, n: int, r: int, x: int)
    requires 0 <= r < w.maxy && 0 <= x < w.maxx
    ensures var (h, v) := (HLine(w, ch, n), VLine(w, ch, n));
            && (h.ok <==> n > 0) && (v.ok <==> n > 0) && (n <= 0 ==> h.win == v.win == w)
            && h.win.cells[r][x] ==
               (if r == w.cury && w.curx <= x < w.curx + n then Drawn(w, ch, ACS_HLINE) else w.cells[r][x])
            && v.win.cells[r][x] ==
               (if x == w.curx && w.cury <= r < w.cury + n then Drawn(w, ch, ACS_VLINE) else w.cells[r][x])
  {
    hide PassThrough;
  }

  /** wborder on a window of two rows and two columns at least: the corners, the edges
      between them, and nothing inside. */
  lemma BorderEffect(w: Win, f: Frame, r: int, x: int)
    requires 1 < w.maxy && 1 < w.maxx && 0 <= r < w.maxy && 0 <= x < w.maxx
    ensures var c := Border(w, f).cells[r][x];
            var (top, bottom, left, right) := (r == 0, r == w.maxy - 1, x == 0, x == w.maxx - 1);
            && (top && left ==> c == Drawn(w, f.tl, ACS_ULCORNER))
            && (top && right ==> c == Drawn(w, f.tr, ACS_URCORNER))
            && (bottom && left ==> c == Drawn(w, f.bl, ACS_LLCORNER))
            && (bottom && right ==> c == Drawn(w, f.br, ACS_LRCORNER))
            && (top && !left && !right ==> c == Drawn(w, f.ts, ACS_HLINE))
            && (bottom && !left && !right ==> c == Drawn(w, f.bs, ACS_HLINE))
            && (left && !top && !bottom ==> c == Drawn(w, f.ls, ACS_VLINE))
            && (right && !top && !bottom ==> c == Drawn(w, f.rs, ACS_VLINE))
            && (!top && !bottom && !left && !right ==> c == w.cells[r][x])
  {
    hide PassThrough;
  }

  /** wbkgd on every cell: nothing happens if the background is the one there is. */
  lemma BkgdEffect(w: Win, ch: Chtype, r: int, x: int)
    requires 0 <= r < w.maxy && 0 <= x < w.maxx
    ensures var v := Bkgd(w, ch);
            if ch == w.bkgd then v == w
            else && v.bkgd == (if ch.text == 0 then ch.WithText(SPACE) else ch)
                 && v.cells[r][x] == Rebacked(w.cells[r][x], w.bkgd, v.bkgd) && v.Damaged(r, x)
  {
    hide Rebacked;
  }

  // ---------------------------------------------------------------- windows, cursor, marks

  /** A new window. */
  lemma NewWinEffect(nlines: int, ncols: int, top: int, left: int, full: bool, r: int, x: int)
    requires 0 < nlines && 0 < ncols && 0 <= r < nlines && 0 <= x < ncols
    ensures var w := NewWin(nlines, ncols, top, left, full);
            && w.maxy == nlines && w.maxx == ncols && w.begy == top && w.begx == left && w.cury == w.curx == 0
            && w.tmarg == 0 && w.bmarg == nlines - 1 && w.attrs == Ch(0, 0, 0) && w.bkgd == Ch(0, 0, 0x20)
            && w.clear == full && !w.leaveit && !w.scroll && w.cells[r][x] == Ch(0, 0, 0x20) && w.Damaged(r, x)
  {
  }

  /** Moving the cursor and writing there: the character appears at row y, column x, or
      nothing happens because the window has no such place. */
  lemma MoveThenAdd(w: Win, y: int, x: int, ch: Chtype)
    ensures var m := Move(w, y, x);
            && (m.ok <==> 0 <= y < w.maxy && 0 <= x < w.maxx) && (!m.ok ==> m.win == w)
            && (m.ok && x + 1 < w.maxx ==>
                  StaysOn(m.win, Over(w, y, x, [CellFor(w, ch)]), x + 1, AddPlain(m.win, ch)) && m.win.cury == y)
  {
    hide AddPlain, Blend;
    if 0 <= y < w.maxy && 0 <= x < w.maxx {
      PlainEffect(Move(w, y, x).win, ch);
    }
  }

  /** wsetscrreg takes ordered margins around the cursor's row. */
  lemma SetScrRegEffect(w: Win, top: int, bottom: int)
    ensures var o := SetScrReg(w, top, bottom);
            && (o.ok <==> 0 <= top && top <= w.cury <= bottom && bottom < w.maxy) && (!o.ok ==> o.win == w)
            && (o.ok ==> o.win.tmarg == top && o.win.bmarg == bottom && o.win.cells == w.cells)
  {
  }

  /** touchline marks exactly the named rows, touchwin all, untouchwin none. */
  lemma TouchEffect(w: Win, start: int, count: int, r: int, x: int)
    requires 0 <= start && 0 <= r < w.maxy && 0 <= x < w.maxx
    ensures var o := TouchLine(w, start, count);
            && (o.ok <==> start <= w.maxy && start + count <= w.maxy)
            && (o.win.Damaged(r, x) <==> w.Damaged(r, x) || (o.ok && start <= r < start + count))
    ensures TouchWin(w).Damaged(r, x) && !UntouchWin(w).Damaged(r, x) && !UntouchWin(w).Touched(r)
  {
  }

  /** mvwin: an accepted window stands at (y, x), wholly marked, with the cells it had. */
  lemma MvWinEffect(w: Win, y: int, x: int, lines: int, cols: int, r: int, c: int)
    requires 0 <= r < w.maxy && 0 <= c < w.maxx
    ensures var o := MvWin(w, y, x, lines, cols);
            && (o.ok <==> 0 <= y && y + w.maxy <= lines && 0 <= x && x + w.maxx <= cols)
            && (!o.ok ==> o.win == w)
            && (o.ok ==> && o.win.begy == y && o.win.begx == x && o.win.maxy == w.maxy && o.win.maxx == w.maxx
                         && o.win.cells == w.cells && o.win.Damaged(r, c))
  {
  }
}
