/** Damage coverage: a drawing operation never changes a cell without marking it,
    and never forgets a mark. This is what lets a refresh look at marked cells only. */
module Damage {
  import opened Cells
  import opened WindowModel

  /** v results from w by drawing: marks only grow, and changed cells are marked. */
  ghost predicate Draws(w: Win, v: Win) {
    SameFrame(w, v) && forall r, x | 0 <= r < w.maxy && 0 <= x < w.maxx :: DrawnAt(w, v, r, x)
  }

  predicate DrawnAt(w: Win, v: Win, r: int, x: int)
    requires SameFrame(w, v) && 0 <= r < w.maxy && 0 <= x < w.maxx
  {
    && (w.Damaged(r, x) ==> v.Damaged(r, x))
    && (w.cells[r][x] != v.cells[r][x] ==> v.Damaged(r, x))
  }

  /** Every cell of w equals the screen cell below it or is marked. */
  ghost predicate Covers(w: Win, screen: Grid) {
    OnScreen(w, screen) && forall r, x | 0 <= r < w.maxy && 0 <= x < w.maxx :: CoversAt(w, screen, r, x)
  }

  predicate CoversAt(w: Win, screen: Grid, r: int, x: int)
    requires OnScreen(w, screen) && 0 <= r < w.maxy && 0 <= x < w.maxx
  {
    w.cells[r][x] == screen[w.begy + r][w.begx + x] || w.Damaged(r, x)
  }

  /** w lies inside the screen. */
  ghost predicate OnScreen(w: Win, screen: Grid) {
    && 0 <= w.begy && w.begy + w.maxy <= |screen| && 0 <= w.begx
    && (forall j | 0 <= j < |screen| :: w.begx + w.maxx <= |screen[j]|)
  }

  lemma DrawsKeepsCoverage(w: Win, v: Win, screen: Grid)
    requires Draws(w, v) && Covers(w, screen)
    ensures Covers(v, screen)
  {
    forall r, x | 0 <= r < v.maxy && 0 <= x < v.maxx
      ensures CoversAt(v, screen, r, x)
    {
      assert DrawnAt(w, v, r, x) && CoversAt(w, screen, r, x);
    }
  }

  lemma DrawsItself(w: Win)
    ensures Draws(w, w)
  {
  }

  lemma DrawsTransitive(u: Win, v: Win, w: Win)
    requires Draws(u, v) && Draws(v, w)
    ensures Draws(u, w)
  {
    forall r, x | 0 <= r < u.maxy && 0 <= x < u.maxx
      ensures DrawnAt(u, w, r, x)
    {
      assert DrawnAt(u, v, r, x) && DrawnAt(v, w, r, x);
    }
  }

  /** Replacing one row is drawing when its own cells obey the rule. */
  lemma RowDraws(w: Win, r: int, row: Row, f: int, l: int)
    requires 0 <= r < w.maxy && |row| == w.maxx && IsInterval(f, l, w.maxx)
    requires forall x | 0 <= x < w.maxx :: w.Damaged(r, x) ==> f != NO_CHANGE && f <= x <= l
    requires forall x | 0 <= x < w.maxx :: row[x] != w.cells[r][x] ==> f != NO_CHANGE && f <= x <= l
    ensures Draws(w, WithRow(w, r, row, f, l))
  {
  }

  lemma MarkRowsDraws(w: Win, g: Grid, lo: int, hi: int)
    requires IsGrid(g, w.maxy, w.maxx)
    requires forall r | 0 <= r < w.maxy :: lo <= r <= hi || g[r] == w.cells[r]
    ensures Draws(w, MarkRows(w.(cells := g), lo, hi))
  {
  }

  lemma ClrToEolDraws(w: Win)
    ensures Draws(w, ClrToEol(w))
  {
    RowDraws(w, w.cury, Splice(w.cells[w.cury], w.curx, Fill(w.bkgd, w.maxx - w.curx)),
             Lower(w.first[w.cury], w.curx), w.maxx - 1);
  }

  lemma ClrToBotDraws(w: Win)
    ensures Draws(w, ClrToBot(w))
  {
    var below := BlankRows(w, w.cury + 1, w.maxy - 1);
    ShiftRowsDraws(w, w.cury + 1, w.maxy - 1, w.maxy);
    ClrToEolDraws(below);
    DrawsTransitive(w, below, ClrToBot(w));
  }

  lemma StoreDraws(w: Win, c: Chtype)
    ensures Draws(w, Store(w, c))
  {
  }

  lemma AddPlainDraws(w: Win, ch: Chtype)
    ensures Draws(w, AddPlain(w, ch).win)
  {
    var v := Store(w, Blend(w.attrs, w.bkgd, ch));
    StoreDraws(w, Blend(w.attrs, w.bkgd, ch));
    LineFeedDraws(v, v.cury, 0);
    if v.curx + 1 < v.maxx {
      MoveDraws(v, v.cury, v.curx + 1);
    }
    DrawsTransitive(w, v, AddPlain(w, ch).win);
  }

  lemma LineFeedDraws(w: Win, y: int, x: int)
    requires 0 <= y < w.maxy && 0 <= x < w.maxx
    ensures Draws(w, LineFeed(w, y, x).win)
  {
    ShiftRowsDraws(w, w.tmarg, w.bmarg, 1);
  }

  lemma ShiftRowsDraws(w: Win, lo: int, hi: int, n: int)
    ensures Draws(w, ShiftRows(w, lo, hi, n))
  {
    MarkRowsDraws(w, Shift(w.cells, lo, hi, n, Fill(w.bkgd, w.maxx)), lo, hi);
  }

  lemma {:induction false} AddBlanksDraws(w: Win, ch: Chtype, k: nat)
    ensures Draws(w, AddBlanks(w, ch, k).win)
    decreases k
  {
    if k > 0 {
      var s := AddPlain(w, ch.WithText(SPACE));
      AddPlainDraws(w, ch.WithText(SPACE));
      if s.ok && s.win.curx != 0 {
        AddBlanksDraws(s.win, ch, k - 1);
        DrawsTransitive(w, s.win, AddBlanks(s.win, ch, k - 1).win);
      }
    }
  }

  lemma AddPairDraws(w: Win, a: Chtype, b: Chtype)
    ensures Draws(w, AddPair(w, a, b).win)
  {
    var s := AddPlain(w, a);
    AddPlainDraws(w, a);
    AddPlainDraws(s.win, b);
    DrawsTransitive(w, s.win, AddPlain(s.win, b).win);
  }

  lemma AddChDraws(raw: bool, w: Win, ch: Chtype)
    ensures Draws(w, AddCh(raw, w, ch).win)
  {
    if !Expands(raw, ch) {
      AddPlainDraws(w, ch);
    } else if ch.text == TAB {
      AddBlanksDraws(w, ch, TABSIZE - w.curx % TABSIZE);
    } else if ch.text == NEWLINE {
      ClrToEolDraws(w);
      LineFeedDraws(ClrToEol(w), w.cury, 0);
      DrawsTransitive(w, ClrToEol(w), AddCh(raw, w, ch).win);
    } else if ch.text == DEL {
      AddPairDraws(w, ch.WithText(CARET), ch.WithText(QUESTION));
    } else if ch.text != BACKSPACE && ch.text != RETURN {
      AddPairDraws(w, ch.WithText(CARET), ch.WithText(ch.text + AT_SIGN));
    }
  }

  lemma {:induction false} AddStrDraws(raw: bool, w: Win, s: seq<Chtype>)
    ensures Draws(w, AddStr(raw, w, s).win)
  {
    if s != [] {
      var r := AddStr(raw, w, s[..|s| - 1]);
      AddStrDraws(raw, w, s[..|s| - 1]);
      AddChDraws(raw, r.win, s[|s| - 1]);
      DrawsTransitive(w, r.win, AddCh(raw, r.win, s[|s| - 1]).win);
    }
  }

  /** Overwriting changes no column outside the bounds that PutCells records. */
  lemma SpliceDiffers(row: Row, x: nat, t: Row, f: int, l: int, c: int)
    requires x + |t| <= |row| && 0 <= c < |row| && Splice(row, x, t)[c] != row[c]
    ensures MinColumn(row, x, t, f) != NO_CHANGE && MinColumn(row, x, t, f) <= c <= MaxColumn(row, x, t, l)
  {
    assert x <= c < x + |t| && row[c] == row[x + (c - x)];
    assert t[c - x] != row[x + (c - x)];
    var lo := FirstDifference(t, row, x, 0);
    var hi := LastDifference(t, row, x, |t| - 1);
    assert lo <= c - x <= hi;
  }

  lemma PutCellsDraws(w: Win, t: Row)
    requires w.curx + |t| <= w.maxx
    ensures Draws(w, PutCells(w, t))
  {
    hide Draws, Splice;
    var row := w.cells[w.cury];
    ColumnsValid(row, w.curx, t, w.first[w.cury], w.last[w.cury]);
    forall c | 0 <= c < w.maxx && Splice(row, w.curx, t)[c] != row[c]
      ensures MinColumn(row, w.curx, t, w.first[w.cury]) != NO_CHANGE
      ensures MinColumn(row, w.curx, t, w.first[w.cury]) <= c <= MaxColumn(row, w.curx, t, w.last[w.cury])
    {
      SpliceDiffers(row, w.curx, t, w.first[w.cury], w.last[w.cury], c);
    }
    RowDraws(w, w.cury, Splice(row, w.curx, t),
             MinColumn(row, w.curx, t, w.first[w.cury]), MaxColumn(row, w.curx, t, w.last[w.cury]));
  }

  lemma InsPlainDraws(w: Win, ch: Chtype)
    ensures Draws(w, InsPlain(w, ch))
  {
    var y := w.cury;
    var x := w.curx;
    RowDraws(w, y, w.cells[y][..x] + [Blend(w.attrs, w.bkgd, ch)] + w.cells[y][x..w.maxx - 1],
             Lower(w.first[y], x), w.maxx - 1);
  }

  lemma {:induction false} InsBlanksDraws(w: Win, ch: Chtype, k: nat)
    ensures Draws(w, InsBlanks(w, ch, k))
    decreases k
  {
    if k > 0 {
      var v := InsPlain(w, ch.WithText(SPACE));
      InsPlainDraws(w, ch.WithText(SPACE));
      InsBlanksDraws(v, ch, k - 1);
      DrawsTransitive(w, v, InsBlanks(v, ch, k - 1));
    }
  }

  lemma InsPairDraws(w: Win, a: Chtype, b: Chtype)
    ensures Draws(w, InsPair(w, a, b))
  {
    InsPlainDraws(w, a);
    InsPlainDraws(InsPlain(w, a), b);
    DrawsTransitive(w, InsPlain(w, a), InsPair(w, a, b));
  }

  lemma InsChDraws(raw: bool, w: Win, ch: Chtype)
    ensures Draws(w, InsCh(raw, w, ch))
  {
    hide Draws, InsPlain, InsBlanks, InsPair, ClrToEol, RawWin.Valid;
    if !Expands(raw, ch) {
      InsPlainDraws(w, ch);
    } else if ch.text == TAB {
      InsBlanksDraws(w, ch, TABSIZE - w.curx % TABSIZE);
    } else if ch.text == NEWLINE {
      ClrToEolDraws(w);
    } else if ch.text == DEL {
      InsPairDraws(w, ch.WithText(QUESTION), ch.WithText(CARET));
    } else {
      InsPairDraws(w, ch.WithText(ch.text + AT_SIGN), ch.WithText(CARET));
    }
  }

  /** The cursor's row shows nothing that blanking it would lose unmarked. */
  predicate Blankable(w: Win) {
    forall x | 0 <= x < w.maxx :: w.cells[w.cury][x] == w.bkgd || w.Damaged(w.cury, x)
  }

  /** wdeleteln respects damage exactly when the cursor is not below the bottom
      margin, or the row it blanks was already blank or marked where it is not. */
  lemma DeleteLnDraws(w: Win)
    ensures Draws(w, DeleteLn(w)) <==> w.cury <= w.bmarg || Blankable(w)
  {
    if w.cury <= w.bmarg {
      ShiftRowsDraws(w, w.cury, w.bmarg, 1);
    } else if Blankable(w) {
      RowDraws(w, w.cury, Fill(w.bkgd, w.maxx), w.first[w.cury], w.last[w.cury]);
    } else {
      var x :| 0 <= x < w.maxx && !(w.cells[w.cury][x] == w.bkgd || w.Damaged(w.cury, x));
      assert !DrawnAt(w, DeleteLn(w), w.cury, x);
    }
  }

  /** A letter in the last row of a refreshed window, the margin above it, the cursor on it. */
  function LetterBelow(): Win {
    var letter := AddCh(false, Move(NewWin(2, 2, 0, 0, false), 1, 0).win, Ch(0, 0, 0x41)).win;
    Move(SetScrReg(Move(UntouchWin(letter), 0, 0).win, 0, 0).win, 1, 0).win
  }

  /** wdeleteln there loses the letter unmarked. */
  lemma DeleteLnBreaks()
    ensures !Draws(LetterBelow(), DeleteLn(LetterBelow()))
  {
    var w := LetterBelow();
    BlendPrecedence(Ch(0, 0, 0), BLANK, Ch(0, 0, 0x41));
    assert w.cells[1][0] == Ch(0, 0, 0x41);
    DeleteLnDraws(w);
  }

  lemma InsertLnDraws(u: Win, w: Win)
    requires Draws(u, w)
    ensures Draws(u, InsertLn(w))
  {
    ShiftRowsDraws(w, w.cury, w.maxy - 1, -1);
    DrawsTransitive(u, w, InsertLn(w));
  }

  lemma DeleteLnStep(u: Win, w: Win)
    requires Draws(u, w) && w.cury <= w.bmarg
    ensures Draws(u, DeleteLn(w))
  {
    DeleteLnDraws(w);
    DrawsTransitive(u, w, DeleteLn(w));
  }

  lemma {:induction false} InsDelLnDraws(w: Win, n: int)
    requires n < 0 ==> w.cury <= w.bmarg || Blankable(w)
    ensures Draws(w, InsDelLn(w, n))
    decreases if n < 0 then -n else n
  {
    if n < 0 && w.bmarg < w.cury {
      DeleteBelowMargin(w, n);
      DeleteLnDraws(w);
    } else if n > 0 {
      InsDelLnDraws(w, n - 1);
      InsertLnDraws(w, InsDelLn(w, n - 1));
    } else if n < 0 {
      InsDelLnDraws(w, n + 1);
      DeleteLnStep(w, InsDelLn(w, n + 1));
    }
  }

  lemma InsDelLnExact(w: Win, n: int)
    ensures Draws(w, InsDelLn(w, n)) <==> (n < 0 ==> w.cury <= w.bmarg || Blankable(w))
  {
    hide Draws, Blankable, InsDelLn, DeleteLn, RawWin.Valid;
    if n < 0 && w.bmarg < w.cury {
      DeleteBelowMargin(w, n);
      DeleteLnDraws(w);
    } else {
      InsDelLnDraws(w, n);
    }
  }

  /** Below the margin, deleting many lines is deleting one. */
  lemma {:induction false} DeleteBelowMargin(w: Win, n: int)
    requires n < 0 && w.bmarg < w.cury
    ensures InsDelLn(w, n) == DeleteLn(w)
    decreases -n
  {
    if n < -1 {
      DeleteBelowMargin(w, n + 1);
      assert DeleteLn(DeleteLn(w)).cells == DeleteLn(w).cells;
    }
  }

  /** The drawing operations on one window. */
  datatype DrawOp =
    | OpMove(y: int, x: int) | OpSetScrReg(top: int, bottom: int)
    | OpTouchWin | OpTouchLine(start: nat, count: int)
    | OpAddCh(ch: Chtype) | OpAddStr(str: seq<Half>, n: int) | OpAddChNStr(s: seq<Chtype>, n: int)
    | OpClrToEol | OpClrToBot | OpErase | OpClear
    | OpEdit(edit: EditOp) | OpSet(setting: Setting)

  /** Those that shift or restyle what is there. */
  datatype EditOp =
    | OpScroll(n: int) | OpDeleteLn | OpInsertLn | OpInsDelLn(n: int)
    | OpInsCh(ch: Chtype) | OpDelCh | OpChgAt(n: int, attr: Chtype, color: bv8)
    | OpHLine(ch: Chtype, n: int) | OpVLine(ch: Chtype, n: int) | OpBorder(f: Frame) | OpBkgd(ch: Chtype)

  /** What a program sets on a window without touching a cell. */
  datatype Setting =
    | AttrsOff(a: Chtype) | AttrsOn(a: Chtype) | AttrsSet(a: Chtype) | ColorSet(pair: bv8) | BkgdSet(ch: Chtype)
    | ScrollOk(bf: bool) | LeaveOk(bf: bool) | ClearOk(bf: bool)

  function Apply(raw: bool, w: Win, op: DrawOp): (v: Win)
  {
    match op
    case OpMove(y, x) => Move(w, y, x).win
    case OpSetScrReg(t, b) => SetScrReg(w, t, b).win
    case OpTouchWin => TouchWin(w)
    case OpTouchLine(s, c) => TouchLine(w, s, c).win
    case OpAddCh(ch) => AddCh(raw, w, ch).win
    case OpAddStr(str, n) => AddStr(raw, w, Plain(CText(str, n))).win
    case OpAddChNStr(s, n) => AddChNStr(w, s, n).win
    case OpClrToEol => ClrToEol(w)
    case OpClrToBot => ClrToBot(w)
    case OpErase => Erase(w)
    case OpClear => Clear(w)
    case OpEdit(e) => Edited(raw, w, e)
    case OpSet(s) => With(w, s)
  }

  function Edited(raw: bool, w: Win, e: EditOp): (v: Win)
  {
    match e
    case OpScroll(n) => Scroll(w, n).win
    case OpDeleteLn => DeleteLn(w)
    case OpInsertLn => InsertLn(w)
    case OpInsDelLn(n) => InsDelLn(w, n)
    case OpInsCh(ch) => InsCh(raw, w, ch)
    case OpDelCh => DelCh(w)
    case OpChgAt(n, a, c) => ChgAt(w, n, a, c)
    case OpHLine(ch, n) => HLine(w, ch, n).win
    case OpVLine(ch, n) => VLine(w, ch, n).win
    case OpBorder(f) => Border(w, f)
    case OpBkgd(ch) => Bkgd(w, ch)
  }

  function With(w: Win, s: Setting): (v: Win)
    ensures v == w.(attrs := v.attrs, bkgd := v.bkgd, scroll := v.scroll, leaveit := v.leaveit, clear := v.clear)
  {
    match s
    case AttrsOff(a) => w.(attrs := AttrOff(w.attrs, a))
    case AttrsOn(a) => w.(attrs := AttrOn(w.attrs, a))
    case AttrsSet(a) => w.(attrs := a.WithText(0))
    case ColorSet(p) => w.(attrs := w.attrs.(pair := p))
    case BkgdSet(ch) => w.(bkgd := Background(ch))
    case ScrollOk(bf) => w.(scroll := bf)
    case LeaveOk(bf) => w.(leaveit := bf)
    case ClearOk(bf) => w.(clear := bf)
  }

  /** What damage coverage asks of a caller: lines are deleted at or above the
      bottom margin, or on a row where nothing unmarked would be lost. */
  predicate Safe(w: Win, op: DrawOp) { op.OpEdit? && DeletesLines(op.edit) ==> w.cury <= w.bmarg || Blankable(w) }

  predicate DeletesLines(e: EditOp) { e == OpDeleteLn || (e.OpInsDelLn? && e.n < 0) }

  /** A drawing operation keeps the damage complete exactly when it is Safe. */
  lemma EveryOpDraws(raw: bool, w: Win, op: DrawOp)
    ensures Draws(w, Apply(raw, w, op)) <==> Safe(w, op)
  {
    hide Draws, RawWin.Valid, Blankable, DeletesLines, Edited, Move, SetScrReg, TouchWin, TouchLine, AddCh, AddStr,
         Plain, CText, AddChNStr, ClrToEol, ClrToBot, Erase, Clear, With;
    match op
    case OpMove(y, x) => MoveDraws(w, y, x);
    case OpSetScrReg(t, b) => SetScrRegDraws(w, t, b);
    case OpTouchWin => TouchDraws(w, 0, w.maxy);
    case OpTouchLine(s, c) => TouchDraws(w, s, c);
    case OpAddCh(ch) => AddChDraws(raw, w, ch);
    case OpAddStr(str, n) => AddStrDraws(raw, w, Plain(CText(str, n)));
    case OpAddChNStr(s, n) => AddChNStrDraws(w, s, n);
    case OpClrToEol => ClrToEolDraws(w);
    case OpClrToBot => ClrToBotDraws(w);
    case OpErase => EraseDraws(w);
    case OpClear => EraseDraws(w);
    case OpEdit(e) => EditDraws(raw, w, e);
    case OpSet(s) => SameCellsDraws(w, With(w, s));
  }

  lemma EditDraws(raw: bool, w: Win, e: EditOp)
    ensures Draws(w, Edited(raw, w, e)) <==> (DeletesLines(e) ==> w.cury <= w.bmarg || Blankable(w))
  {
    hide Draws, RawWin.Valid, Blankable, ShiftRows, Scroll, DeleteLn, InsDelLn, InsCh, DelCh, ChgAt, HLine, VLine,
         Border, Bkgd;
    match e
    case OpScroll(n) => ScrollDraws(w, n);
    case OpDeleteLn => DeleteLnDraws(w);
    case OpInsertLn => ShiftRowsDraws(w, w.cury, w.maxy - 1, -1);
    case OpInsDelLn(n) => InsDelLnExact(w, n);
    case OpInsCh(ch) => InsChDraws(raw, w, ch);
    case OpDelCh => DelChDraws(w);
    case OpChgAt(n, a, c) => ChgAtDraws(w, n, a, c);
    case OpHLine(ch, n) => HLineDraws(w, ch, n);
    case OpVLine(ch, n) => VLineDraws(w, ch, n);
    case OpBorder(f) => BorderDraws(w, f);
    case OpBkgd(ch) => BkgdDraws(w, ch);
  }

  /** Attributes, background and flags alone touch no cell. */
  lemma SameCellsDraws(w: Win, v: Win)
    requires v == w.(attrs := v.attrs, bkgd := v.bkgd, scroll := v.scroll, leaveit := v.leaveit, clear := v.clear)
    ensures Draws(w, v)
  {
  }

  lemma BkgdDraws(w: Win, ch: Chtype)
    ensures Draws(w, Bkgd(w, ch))
  {
    hide RebackedRow;
    if w.bkgd != ch {
      MarkRowsDraws(w, RebackRows(w.(bkgd := Background(ch)), w.bkgd, w.maxy).cells, 0, w.maxy - 1);
    }
  }

  lemma MoveDraws(w: Win, y: int, x: int)
    ensures Draws(w, Move(w, y, x).win)
  {
  }

  lemma SetScrRegDraws(w: Win, t: int, b: int)
    ensures Draws(w, SetScrReg(w, t, b).win)
  {
  }

  lemma TouchDraws(w: Win, start: nat, count: int)
    ensures Draws(w, TouchLine(w, start, count).win) && Draws(w, TouchWin(w))
  {
    MarkRowsDraws(w, w.cells, start, start + count - 1);
    MarkRowsDraws(w, w.cells, 0, w.maxy - 1);
  }

  lemma AddChNStrDraws(w: Win, s: seq<Chtype>, n: int)
    ensures Draws(w, AddChNStr(w, s, n).win)
  {
    if n != 0 && n >= -1 {
      hide Draws, PutCells, RawWin.Valid;
      var room := w.maxx - w.curx;
      PutCellsDraws(w, s[..Min(ZeroAt(s), if n == -1 || n > room then room else n)]);
    }
  }

  lemma EraseDraws(w: Win)
    ensures Draws(w, Erase(w)) && Draws(w, Clear(w))
  {
    ClrToBotDraws(w.(cury := 0, curx := 0));
    ClrToBotDraws(w.(clear := true, cury := 0, curx := 0));
    MoveDraws(w, 0, 0);
    DrawsTransitive(w, w.(cury := 0, curx := 0), Erase(w));
    assert Draws(w, w.(clear := true, cury := 0, curx := 0));
    DrawsTransitive(w, w.(clear := true, cury := 0, curx := 0), Clear(w));
  }

  lemma ScrollDraws(w: Win, n: int)
    ensures Draws(w, Scroll(w, n).win)
  {
    ShiftRowsDraws(w, w.tmarg, w.bmarg, n);
  }

  lemma DelChDraws(w: Win)
    ensures Draws(w, DelCh(w))
  {
    RowDraws(w, w.cury, w.cells[w.cury][..w.curx] + w.cells[w.cury][w.curx + 1..] + [w.bkgd],
             Lower(w.first[w.cury], w.curx), w.maxx - 1);
  }

  lemma ChgAtDraws(w: Win, n: int, attr: Chtype, color: bv8)
    ensures Draws(w, ChgAt(w, n, attr, color))
  {
    var v := ChgAt(w, n, attr, color);
    RowDraws(w, w.cury, v.cells[w.cury], v.first[w.cury], v.last[w.cury]);
  }

  lemma HLineDraws(w: Win, ch: Chtype, n: int)
    ensures Draws(w, HLine(w, ch, n).win)
  {
  }

  lemma VLineDraws(w: Win, ch: Chtype, n: int)
    ensures Draws(w, VLine(w, ch, n).win)
  {
  }

  lemma BorderDraws(w: Win, f: Frame)
    ensures Draws(w, Border(w, f))
  {
    MarkRowsDraws(w, Framed(w, BlendFrame(w.attrs, w.bkgd, f)), 0, w.maxy - 1);
  }
}
