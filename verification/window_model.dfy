/** A window as a value, and every drawing operation as a function on it.
    `window.dfy` proves that the operations on the row arrays compute these functions. */
module WindowModel {
  import opened Cells

  datatype RawWin = RawWin(
    maxy: int, maxx: int,    // size
    begy: int, begx: int,    // origin on the screen
    cury: int, curx: int,    // cursor
    tmarg: int, bmarg: int,  // scrolling region
    attrs: Chtype, bkgd: Chtype,
    clear: bool, leaveit: bool, scroll: bool,
    cells: Grid,
    first: seq<int>, last: seq<int>)  // per row: the interval of changed columns
  {
    /** What every operation keeps: the grid has the window's size, the cursor is
        inside it, the margins are ordered, and every row is clean or carries an
        interval that is at worst empty. */
    predicate Valid() {
      && 0 < maxy && 0 < maxx
      && 0 <= cury < maxy && 0 <= curx < maxx
      && 0 <= tmarg <= bmarg < maxy
      && IsGrid(cells, maxy, maxx)
      && |first| == maxy && |last| == maxy
      && (forall r | 0 <= r < maxy :: IsInterval(first[r], last[r], maxx))
    }

    /** Column x of row r is marked as changed. */
    predicate Damaged(r: int, x: int)
      requires 0 <= r < |first| && 0 <= r < |last|
    {
      first[r] != NO_CHANGE && first[r] <= x <= last[r]
    }

    predicate Touched(r: int)
      requires 0 <= r < |first|
    {
      first[r] != NO_CHANGE
    }
  }

  /** Windows in a valid state. */
  type Win = w: RawWin | w.Valid()
    witness RawWin(1, 1, 0, 0, 0, 0, 0, 0, BLANK, BLANK, false, false, false, [[BLANK]], [0], [0])

  /** The outcome of an operation: the window, and whether it returned OK. */
  datatype Outcome = Outcome(win: Win, ok: bool)

  predicate IsGrid(g: Grid, rows: int, cols: int) {
    |g| == rows && forall r | 0 <= r < rows :: |g[r]| == cols
  }

  predicate IsInterval(f: int, l: int, cols: int) {
    (f == NO_CHANGE && -1 <= l < cols) || (0 <= f < cols && f - 1 <= l < cols)
  }

  predicate SameFrame(w: Win, v: Win) {
    v.maxy == w.maxy && v.maxx == w.maxx && v.begy == w.begy && v.begx == w.begx
  }

  function Fill<T>(c: T, n: nat): (s: seq<T>)
    ensures |s| == n && forall i | 0 <= i < n :: s[i] == c
  {
    seq(n, _ => c)
  }

  function Min(a: int, b: int): int { if a < b then a else b }

  function Max(a: int, b: int): int { if a > b then a else b }

  /** w with row r replaced and its interval set to [f, l]. */
  function WithRow(w: Win, r: int, row: Row, f: int, l: int): (v: Win)
    requires 0 <= r < w.maxy && |row| == w.maxx && IsInterval(f, l, w.maxx)
    ensures SameFrame(w, v)
  {
    w.(cells := w.cells[r := row], first := w.first[r := f], last := w.last[r := l])
  }

  /** How a write at column x lowers a row's first changed column. */
  function Lower(f: int, x: int): int { if x < f || f == NO_CHANGE then x else f }

  /** w with other cells. */
  function WithCells(w: Win, g: Grid): (v: Win)
    requires IsGrid(g, w.maxy, w.maxx)
    ensures v == w.(cells := g)
  {
    w.(cells := g)
  }

  /** w with other attributes and flags. */
  function WithFlags(w: Win, attrs: Chtype, bkgd: Chtype, clear: bool, leaveit: bool, scroll: bool): (v: Win)
    ensures v == w.(attrs := attrs, bkgd := bkgd, clear := clear, leaveit := leaveit, scroll := scroll)
  {
    w.(attrs := attrs, bkgd := bkgd, clear := clear, leaveit := leaveit, scroll := scroll)
  }

  /** A fresh window: blank, wholly marked, scrolling region and cursor at their defaults. */
  function NewWin(nlines: int, ncols: int, top: int, left: int, fullScreen: bool): Win
    requires 0 < nlines && 0 < ncols
  {
    RawWin(nlines, ncols, top, left, 0, 0, 0, nlines - 1, Ch(0, 0, 0), BLANK, fullScreen, false, false,
           Fill(Fill(BLANK, ncols), nlines), Fill(0, nlines), Fill(ncols - 1, nlines))
  }

  // ---------------------------------------------------------------- cursor and margins

  function Move(w: Win, y: int, x: int): (r: Outcome)
    ensures SameFrame(w, r.win)
  {
    if x < 0 || y < 0 || x >= w.maxx || y >= w.maxy then Outcome(w, false)
    else Outcome(w.(cury := y, curx := x), true)
  }

  function SetScrReg(w: Win, top: int, bottom: int): (r: Outcome)
    ensures SameFrame(w, r.win)
  {
    if 0 <= top <= w.cury && w.cury <= bottom < w.maxy
    then Outcome(w.(tmarg := top, bmarg := bottom), true) else Outcome(w, false)
  }

  // ---------------------------------------------------------------- background

  /** wbkgd: every cell follows the background, and the window is touched. */
  function Bkgd(w: Win, ch: Chtype): (v: Win)
    ensures SameFrame(w, v)
  {
    if w.bkgd == ch then w else TouchWin(RebackRows(w.(bkgd := Background(ch)), w.bkgd, w.maxy))
  }

  /** The first n rows follow the background from `was` to the present one. */
  function RebackRows(w: Win, was: Chtype, n: int): (v: Win)
    ensures SameFrame(w, v)
  {
    w.(cells := seq(w.maxy, r requires 0 <= r < w.maxy =>
                      if r < n then RebackedRow(w.cells[r], was, w.bkgd) else w.cells[r]))
  }

  lemma RebackNone(w: Win, was: Chtype)
    ensures RebackRows(w, was, 0) == w
  {
    assert RebackRows(w, was, 0).cells == w.cells;
  }

  lemma RebackStep(w: Win, was: Chtype, r: nat)
    requires r < w.maxy
    ensures var (u, v) := (RebackRows(w, was, r), RebackRows(w, was, r + 1));
            |u.cells| == |v.cells| == u.maxy == w.maxy &&
            v == u.(cells := u.cells[r := RebackedRow(u.cells[r], was, u.bkgd)])
  {
    hide RebackedRow;
    var (u, v) := (RebackRows(w, was, r), RebackRows(w, was, r + 1));
    assert v.cells == u.cells[r := RebackedRow(u.cells[r], was, u.bkgd)];
  }

  /** wbkgd turns a window that shows its background into one that shows the new background
      exactly when that follows the old one. */
  lemma BkgdFollows(w: Win, ch: Chtype)
    requires ch != w.bkgd && w.cells == Fill(Fill(w.bkgd, w.maxx), w.maxy)
    ensures Bkgd(w, ch).cells == Fill(Fill(Background(ch), w.maxx), w.maxy) <==> Follows(w.bkgd, Background(ch))
  {
    hide Rebacked, Background, Follows;
    var now := Background(ch);
    var g := Bkgd(w, ch).cells;
    BackgroundFollows(w.bkgd, now);
    assert g[0][0] == Rebacked(w.bkgd, w.bkgd, now);
    if Follows(w.bkgd, now) {
      forall r | 0 <= r < w.maxy
        ensures g[r] == Fill(now, w.maxx)
      {
      }
    }
  }

  /** It does not always: on a fresh window a bold background without colour, which erasing
      shows at once, does not reach the cells that are there. */
  lemma BoldBackgroundMissed(nlines: int, ncols: int)
    requires 0 < nlines && 0 < ncols
    ensures var w := NewWin(nlines, ncols, 0, 0, false);
            var bold := Ch(0, BOLD, SPACE);
            Bkgd(w, bold).cells != Fill(Fill(bold, ncols), nlines) &&
            Erase(Bkgd(w, bold)).cells == Fill(Fill(bold, ncols), nlines)
  {
    var w := NewWin(nlines, ncols, 0, 0, false);
    var bold := Ch(0, BOLD, SPACE);
    BkgdFollows(w, bold);
    var v := Bkgd(w, bold);
    hide Bkgd;
    var e := Erase(v).cells;
    forall r | 0 <= r < nlines
      ensures e[r] == Fill(bold, ncols)
    {
    }
  }

  // ---------------------------------------------------------------- marking rows

  /** v with rows lo..hi marked from edge to edge. */
  function MarkRows(w: Win, lo: int, hi: int): (v: Win)
    ensures SameFrame(w, v)
  {
    w.(first := seq(w.maxy, r requires 0 <= r < w.maxy => if lo <= r <= hi then 0 else w.first[r]),
       last := seq(w.maxy, r requires 0 <= r < w.maxy => if lo <= r <= hi then w.maxx - 1 else w.last[r]))
  }

  function TouchWin(w: Win): (v: Win)
    ensures SameFrame(w, v) && v.cells == w.cells
  {
    MarkRows(w, 0, w.maxy - 1)
  }

  function UntouchWin(w: Win): (v: Win)
    ensures SameFrame(w, v) && v.cells == w.cells
  {
    w.(first := Fill(NO_CHANGE, w.maxy), last := Fill(NO_CHANGE, w.maxy))
  }

  /** touchline, which refuses a range reaching past the last row. */
  function TouchLine(w: Win, start: int, count: int): (r: Outcome)
    requires 0 <= start
    ensures SameFrame(w, r.win)
  {
    if start > w.maxy || start + count > w.maxy then Outcome(w, false)
    else Outcome(MarkRows(w, start, start + count - 1), true)
  }

  // ---------------------------------------------------------------- shifting rows

  /** Rows lo..hi move up by n (down when n is negative); rows outside keep their
      place and the vacated ones become blank. */
  function Shift(g: Grid, lo: int, hi: int, n: int, blank: Row): (s: Grid)
    ensures |s| == |g|
    ensures forall r | 0 <= r < |g| :: s[r] == ShiftedRow(g, lo, hi, n, blank, r)
  {
    seq(|g|, r requires 0 <= r < |g| => ShiftedRow(g, lo, hi, n, blank, r))
  }

  function ShiftedRow(g: Grid, lo: int, hi: int, n: int, blank: Row, r: int): Row
    requires 0 <= r < |g|
  {
    if lo <= r <= hi then (if lo <= r + n <= hi && 0 <= r + n < |g| then g[r + n] else blank) else g[r]
  }

  function ShiftRows(w: Win, lo: int, hi: int, n: int): (v: Win)
    ensures SameFrame(w, v)
  {
    MarkRows(w.(cells := Shift(w.cells, lo, hi, n, Fill(w.bkgd, w.maxx))), lo, hi)
  }

  lemma ShiftedGrid(w: Win, lo: int, hi: int, n: int)
    ensures IsGrid(Shift(w.cells, lo, hi, n, Fill(w.bkgd, w.maxx)), w.maxy, w.maxx)
  {
  }

  /** Shifting twice the same way is shifting once by the sum. */
  lemma ShiftCompose(g: Grid, lo: int, hi: int, n: int, d: int, blank: Row)
    requires 0 <= lo && hi < |g|
    requires (n >= 0 && d >= 0) || (n <= 0 && d <= 0)
    ensures Shift(Shift(g, lo, hi, n, blank), lo, hi, d, blank) == Shift(g, lo, hi, n + d, blank)
  {
    forall r | 0 <= r < |g|
      ensures ShiftedRow(Shift(g, lo, hi, n, blank), lo, hi, d, blank, r) == ShiftedRow(g, lo, hi, n + d, blank, r)
    {
    }
  }

  /** wscrl: the whole region moves by n at once. */
  function Scroll(w: Win, n: int): (r: Outcome)
    ensures SameFrame(w, r.win)
  {
    if !w.scroll || n == 0 then Outcome(w, false)
    else Outcome(ShiftRows(w, w.tmarg, w.bmarg, n), true)
  }

  /** In v every row of the scrolling region shows what stood n rows further down in it (up
      when n is negative), and background where that lies outside; the other rows are w's. */
  predicate RegionMoved(w: Win, v: Win, n: int) {
    v.maxy == w.maxy && forall r | 0 <= r < w.maxy ::
      v.cells[r] == if r < w.tmarg || r > w.bmarg then w.cells[r]
                    else if w.tmarg <= r + n <= w.bmarg then w.cells[r + n] else Fill(w.bkgd, w.maxx)
  }

  /** wscrl moves the region up by n lines, down if n is negative; it refuses n = 0 and
      windows that do not scroll. */
  lemma ScrollMoves(w: Win, n: int)
    ensures var o := Scroll(w, n);
            && (o.ok <==> w.scroll && n != 0) && (!o.ok ==> o.win == w)
            && (o.ok ==> && RegionMoved(w, o.win, n)
                         && o.win == w.(cells := o.win.cells, first := o.win.first, last := o.win.last)
                         && forall r | w.tmarg <= r <= w.bmarg :: o.win.first[r] == 0 && o.win.last[r] == w.maxx - 1)
  {
  }

  /** wdeleteln: below the bottom margin the row is blanked without being marked. */
  function DeleteLn(w: Win): (v: Win)
    ensures SameFrame(w, v)
  {
    if w.cury <= w.bmarg then ShiftRows(w, w.cury, w.bmarg, 1)
    else WithRow(w, w.cury, Fill(w.bkgd, w.maxx), w.first[w.cury], w.last[w.cury])
  }

  /** winsertln: rows move down to the last row of the window, whatever the margins. */
  function InsertLn(w: Win): (v: Win)
    ensures SameFrame(w, v)
  {
    ShiftRows(w, w.cury, w.maxy - 1, -1)
  }

  /** winsdelln: n single-line steps. */
  function InsDelLn(w: Win, n: int): (v: Win)
    ensures SameFrame(w, v) && v.cury == w.cury && v.bmarg == w.bmarg && v.bkgd == w.bkgd
    decreases if n < 0 then -n else n
  {
    if n > 0 then InsertLn(InsDelLn(w, n - 1))
    else if n < 0 then DeleteLn(InsDelLn(w, n + 1))
    else w
  }

  // ---------------------------------------------------------------- clearing

  /** Row r blanked from column x on. */
  function ClearFrom(w: Win, r: int, x: int): (v: Win)
    requires 0 <= r < w.maxy && 0 <= x < w.maxx
    ensures SameFrame(w, v)
  {
    WithRow(w, r, Splice(w.cells[r], x, Fill(w.bkgd, w.maxx - x)), Lower(w.first[r], x), w.maxx - 1)
  }

  function ClrToEol(w: Win): (v: Win)
    ensures SameFrame(w, v)
  {
    ClearFrom(w, w.cury, w.curx)
  }

  /** wclrtobot: blank from the cursor to the end of the window. */
  function ClrToBot(w: Win): (v: Win)
    ensures SameFrame(w, v)
  {
    ClrToEol(BlankRows(w, w.cury + 1, w.maxy - 1))
  }

  /** Rows lo..hi blanked and marked. */
  function BlankRows(w: Win, lo: int, hi: int): (v: Win)
    ensures SameFrame(w, v)
  {
    ShiftRows(w, lo, hi, w.maxy)
  }

  /** wclrtobot as a run of blanked rows followed by a clear to the end of the line. */
  lemma ClrToBotByRows(w: Win)
    ensures var b := BlankRows(w, w.cury + 1, w.maxy - 1);
            b.maxy == w.maxy && b.maxx == w.maxx && ClrToBot(w) == ClearFrom(b, w.cury, w.curx)
    ensures BlankRows(w, w.cury + 1, w.cury) == w
  {
    BlankNone(w, w.cury + 1);
    hide ClearFrom;
  }

  lemma BlankNone(w: Win, lo: int)
    ensures BlankRows(w, lo, lo - 1) == w
  {
    var b := BlankRows(w, lo, lo - 1);
    assert b.cells == w.cells && b.first == w.first && b.last == w.last;
  }

  /** Clearing one more row extends a run of blanked rows. */
  lemma BlankRowStep(w: Win, lo: int, r: int)
    requires 0 <= lo <= r < w.maxy
    ensures BlankRows(w, lo, r - 1).maxy == w.maxy && BlankRows(w, lo, r - 1).maxx == w.maxx > 0
    ensures ClearFrom(BlankRows(w, lo, r - 1), r, 0) == BlankRows(w, lo, r)
  {
    var a := ClearFrom(BlankRows(w, lo, r - 1), r, 0);
    var b := BlankRows(w, lo, r);
    assert forall i | 0 <= i < w.maxy :: a.cells[i] == b.cells[i];
    assert a.cells == b.cells && a.first == b.first && a.last == b.last;
  }

  function Erase(w: Win): (v: Win)
    ensures SameFrame(w, v)
  {
    ClrToBot(w.(cury := 0, curx := 0))
  }

  function Clear(w: Win): (v: Win)
    ensures SameFrame(w, v)
  {
    Erase(w.(clear := true))
  }

  // ---------------------------------------------------------------- waddch

  /** The cursor after moving down from row y: one row below, or the same row with
      the region scrolled when y is at or past the bottom margin. */
  function LineFeed(w: Win, y: int, x: int): (r: Outcome)
    requires 0 <= y < w.maxy && 0 <= x < w.maxx
    ensures SameFrame(w, r.win)
  {
    if y + 1 > w.bmarg then
      var s := Scroll(w, 1);
      if s.ok then Outcome(s.win.(cury := y, curx := x), true) else s
    else Outcome(w.(cury := y + 1, curx := x), true)
  }

  /** Store a cell at the cursor, marking it only if it changes. A row that is
      already marked grows on one side only. */
  function Store(w: Win, c: Chtype): (v: Win)
    ensures SameFrame(w, v) && v.cury == w.cury && v.curx == w.curx
  {
    var y := w.cury;
    var x := w.curx;
    if w.cells[y][x] == c then w
    else
      var clean := w.first[y] == NO_CHANGE;
      WithRow(w, y, w.cells[y][x := c], Lower(w.first[y], x),
              if clean || (x >= w.first[y] && x > w.last[y]) then x else w.last[y])
  }

  /** waddch of a character that is stored: write, advance, wrap, scroll. */
  function AddPlain(w: Win, ch: Chtype): (r: Outcome)
    ensures SameFrame(w, r.win)
  {
    var v := Store(w, Blend(w.attrs, w.bkgd, ch));
    if v.curx + 1 >= v.maxx then LineFeed(v, v.cury, 0) else Outcome(v.(curx := v.curx + 1), true)
  }

  /** A tab: up to k blanks, stopping early when one wraps to a new line. */
  function AddBlanks(w: Win, ch: Chtype, k: nat): (r: Outcome)
    ensures SameFrame(w, r.win)
    decreases k
  {
    if k == 0 then Outcome(w, true)
    else
      var s := AddPlain(w, ch.WithText(SPACE));
      if !s.ok || s.win.curx == 0 then s else AddBlanks(s.win, ch, k - 1)
  }

  /** Two characters, the second only if the first succeeded. */
  function AddPair(w: Win, a: Chtype, b: Chtype): (r: Outcome)
    ensures SameFrame(w, r.win)
  {
    var s := AddPlain(w, a);
    if s.ok then AddPlain(s.win, b) else s
  }

  function AddCh(raw: bool, w: Win, ch: Chtype): (r: Outcome)
    ensures SameFrame(w, r.win)
  {
    if !Expands(raw, ch) then AddPlain(w, ch)
    else if ch.text == TAB then AddBlanks(w, ch, TABSIZE - w.curx % TABSIZE)
    else if ch.text == NEWLINE then LineFeed(ClrToEol(w), w.cury, 0)
    else if ch.text == BACKSPACE then Outcome(w.(curx := Max(w.curx - 1, 0)), true)
    else if ch.text == RETURN then Outcome(w.(curx := 0), true)
    else if ch.text == DEL then AddPair(w, ch.WithText(CARET), ch.WithText(QUESTION))
    else AddPair(w, ch.WithText(CARET), ch.WithText(ch.text + AT_SIGN))
  }

  /** Text without attributes. */
  function Plain(s: seq<Half>): (t: seq<Chtype>)
    ensures |t| == |s|
  {
    seq(|s|, i requires 0 <= i < |s| => Ch(0, 0, s[i]))
  }

  /** The part of a C string that waddnstr reads: up to the terminator, and at most
      n characters unless n is negative. */
  function CText(s: seq<Half>, n: int): seq<Half> {
    if s == [] || s[0] == 0 || n == 0 then [] else [s[0]] + CText(s[1..], n - 1)
  }

  /** waddnstr: characters in order, stopping at the first that fails. */
  function AddStr(raw: bool, w: Win, s: seq<Chtype>): (r: Outcome)
    ensures SameFrame(w, r.win)
  {
    if s == [] then Outcome(w, true)
    else
      var r := AddStr(raw, w, s[..|s| - 1]);
      if r.ok then AddCh(raw, r.win, s[|s| - 1]) else r
  }

  /** Once a character has failed, the rest of the string changes nothing. */
  lemma {:induction false} AddStrStops(raw: bool, w: Win, s: seq<Chtype>, k: nat)
    requires k <= |s| && !AddStr(raw, w, s[..k]).ok
    ensures AddStr(raw, w, s) == AddStr(raw, w, s[..k])
  {
    if k < |s| {
      assert s[..|s| - 1][..k] == s[..k];
      AddStrStops(raw, w, s[..|s| - 1], k);
    } else {
      assert s[..k] == s;
    }
  }

  // ---------------------------------------------------------------- row editing

  /** waddchnstr: raw cells at the cursor, cut at the row's end or a zero cell;
      only the changed columns are merged into the interval. */
  function AddChNStr(w: Win, s: seq<Chtype>, n: int): (r: Outcome)
    ensures SameFrame(w, r.win)
  {
    if n == 0 || n < -1 then Outcome(w, false)
    else
      var room := w.maxx - w.curx;
      Outcome(PutCells(w, s[..Min(ZeroAt(s), if n == -1 || n > room then room else n)]), true)
  }

  /** The cells t stored at the cursor; the row's interval grows to the first and
      last columns that change. */
  function PutCells(w: Win, t: Row): (v: Win)
    requires w.curx + |t| <= w.maxx
    ensures SameFrame(w, v)
  {
    var y := w.cury;
    WithRow(w, y, Splice(w.cells[y], w.curx, t),
            MinColumn(w.cells[y], w.curx, t, w.first[y]), MaxColumn(w.cells[y], w.curx, t, w.last[y]))
  }

  /** f lowered to the first column of row that overwriting with t at x changes. */
  function MinColumn(row: Row, x: nat, t: Row, f: int): int
    requires x + |t| <= |row|
  {
    var lo := FirstDifference(t, row, x, 0);
    if lo == |t| then f else Lower(f, x + lo)
  }

  function MaxColumn(row: Row, x: nat, t: Row, l: int): int
    requires x + |t| <= |row|
  {
    var hi := LastDifference(t, row, x, |t| - 1);
    if hi < 0 then l else Max(l, x + hi)
  }

  lemma PutNothing(row: Row, x: nat, f: int, l: int)
    requires x <= |row|
    ensures Splice(row, x, []) == row && MinColumn(row, x, [], f) == f && MaxColumn(row, x, [], l) == l
  {
  }

  lemma ColumnsValid(row: Row, x: nat, t: Row, f: int, l: int)
    requires x + |t| <= |row| && IsInterval(f, l, |row|)
    ensures IsInterval(MinColumn(row, x, t, f), MaxColumn(row, x, t, l), |row|)
  {
  }

  /** How the two bounds grow with one more cell. */
  lemma ColumnsExtend(row: Row, x: nat, s: Row, c: Chtype, f: int, l: int)
    requires x + |s| < |row|
    ensures Splice(row, x, s)[x + |s|] == row[x + |s|]
    ensures Splice(row, x, s + [c]) == Splice(row, x, s)[x + |s| := c]
    ensures var (a, b) := (MinColumn(row, x, s, f), MaxColumn(row, x, s, l));
            if row[x + |s|] == c then MinColumn(row, x, s + [c], f) == a && MaxColumn(row, x, s + [c], l) == b
            else && MinColumn(row, x, s + [c], f) == (if x + |s| < a || a == NO_CHANGE then x + |s| else a)
                 && MaxColumn(row, x, s + [c], l) == (if x + |s| > b then x + |s| else b)
  {
    hide *;
    SpliceSnoc(row, x, s, c);
    MinSnoc(row, x, s, c, f);
    MaxSnoc(row, x, s, c, l);
  }

  lemma MinSnoc(row: Row, x: nat, s: Row, c: Chtype, f: int)
    requires x + |s| < |row|
    ensures var a := MinColumn(row, x, s, f);
            MinColumn(row, x, s + [c], f) ==
            if row[x + |s|] == c || (x + |s| >= a && a != NO_CHANGE) then a else x + |s|
  {
    hide FirstDifference;
    FirstSnoc(row, x, s, c);
  }

  lemma MaxSnoc(row: Row, x: nat, s: Row, c: Chtype, l: int)
    requires x + |s| < |row|
    ensures var b := MaxColumn(row, x, s, l);
            MaxColumn(row, x, s + [c], l) == if row[x + |s|] == c || x + |s| <= b then b else x + |s|
  {
    hide LastDifference;
    LastSnoc(row, x, s, c);
  }

  lemma SpliceSnoc(row: Row, x: nat, s: Row, c: Chtype)
    requires x + |s| < |row|
    ensures Splice(row, x, s)[x + |s|] == row[x + |s|] && Splice(row, x, s + [c]) == Splice(row, x, s)[x + |s| := c]
  {
  }

  lemma FirstSnoc(row: Row, x: nat, s: Row, c: Chtype)
    requires x + |s| < |row|
    ensures var a := FirstDifference(s, row, x, 0);
            FirstDifference(s + [c], row, x, 0) == if a < |s| then a else if c == row[x + |s|] then |s| + 1 else |s|
  {
    hide FirstDifference, Splice;
    AheadSame(row, x, s, 0);
    FirstSplit(row, x, s, [c]);
    FirstIs([c], Splice(row, x, s), x + |s|, if c == row[x + |s|] then 1 else 0);
  }

  lemma LastSnoc(row: Row, x: nat, s: Row, c: Chtype)
    requires x + |s| < |row|
    ensures LastDifference(s + [c], row, x, |s|) ==
            if c == row[x + |s|] then LastDifference(s, row, x, |s| - 1) else |s|
  {
    hide LastDifference, Splice;
    AheadSame(row, x, s, 0);
    LastSplit(row, x, s, [c]);
    LastIs([c], Splice(row, x, s), x + |s|, if c == row[x + |s|] then -1 else 0);
  }

  lemma FirstIs(src: Row, dst: Row, off: int, k: nat)
    requires 0 <= off && off + |src| <= |dst| && k <= |src|
    requires (forall i | 0 <= i < k :: src[i] == dst[off + i]) && (k < |src| ==> src[k] != dst[off + k])
    ensures FirstDifference(src, dst, off, 0) == k
  {
    hide FirstDifference;
    var c := FirstDifference(src, dst, off, 0);
  }

  lemma LastIs(src: Row, dst: Row, off: int, k: int)
    requires 0 <= off && off + |src| <= |dst| && -1 <= k < |src|
    requires (forall i | k < i < |src| :: src[i] == dst[off + i]) && (0 <= k ==> src[k] != dst[off + k])
    ensures LastDifference(src, dst, off, |src| - 1) == k
  {
    hide LastDifference;
    var c := LastDifference(src, dst, off, |src| - 1);
  }

  /** The first difference of a batch is that of its first part, or of its second. */
  lemma FirstSplit(row: Row, x: nat, s: Row, t: Row)
    requires x + |s| + |t| <= |row|
    ensures var (a, b) := (FirstDifference(s, row, x, 0), FirstDifference(t, Splice(row, x, s), x + |s|, 0));
            FirstDifference(s + t, row, x, 0) == if a < |s| then a else |s| + b
  {
    hide FirstDifference, Splice;
    var (a, b) := (FirstDifference(s, row, x, 0), FirstDifference(t, Splice(row, x, s), x + |s|, 0));
    var k := if a < |s| then a else |s| + b;
    forall i | 0 <= i < k
      ensures (s + t)[i] == row[x + i]
    {
      if i >= |s| {
        AheadSame(row, x, s, i - |s|);
      }
    }
    if |s| <= k < |s| + |t| {
      AheadSame(row, x, s, b);
    }
    FirstIs(s + t, row, x, k);
  }

  lemma LastSplit(row: Row, x: nat, s: Row, t: Row)
    requires x + |s| + |t| <= |row|
    ensures var (a, b) := (LastDifference(s, row, x, |s| - 1), LastDifference(t, Splice(row, x, s), x + |s|, |t| - 1));
            LastDifference(s + t, row, x, |s + t| - 1) == if b >= 0 then |s| + b else a
  {
    hide LastDifference, Splice;
    var (a, b) := (LastDifference(s, row, x, |s| - 1), LastDifference(t, Splice(row, x, s), x + |s|, |t| - 1));
    var k := if b >= 0 then |s| + b else a;
    forall i | k < i < |s + t|
      ensures (s + t)[i] == row[x + i]
    {
      if i >= |s| {
        AheadSame(row, x, s, i - |s|);
      }
    }
    if b >= 0 {
      AheadSame(row, x, s, b);
    }
    LastIs(s + t, row, x, k);
  }

  /** Column x + |s| + i lies behind what has been stored. */
  lemma AheadSame(row: Row, x: nat, s: Row, i: nat)
    requires x + |s| + i < |row|
    ensures Splice(row, x, s)[x + |s| + i] == row[x + (|s| + i)]
  {
  }

  /** Index of the first zero cell of s, or |s|. */
  function ZeroAt(s: seq<Chtype>): (k: nat)
    ensures k <= |s| && (forall i | 0 <= i < k :: s[i] != Ch(0, 0, 0)) && (k < |s| ==> s[k] == Ch(0, 0, 0))
  {
    if s == [] || s[0] == Ch(0, 0, 0) then 0 else 1 + ZeroAt(s[1..])
  }

  /** Least k >= from with src[k] != dst[off + k], or |src|. */
  function FirstDifference(src: Row, dst: Row, off: int, from: nat): (k: nat)
    requires 0 <= off && off + |src| <= |dst| && from <= |src|
    ensures from <= k <= |src| && (forall i | from <= i < k :: src[i] == dst[off + i])
    ensures k < |src| ==> src[k] != dst[off + k]
    decreases |src| - from
  {
    if from < |src| && src[from] == dst[off + from] then FirstDifference(src, dst, off, from + 1) else from
  }

  /** Greatest k <= from with src[k] != dst[off + k], or -1. */
  function LastDifference(src: Row, dst: Row, off: int, from: int): (k: int)
    requires 0 <= off && off + |src| <= |dst| && -1 <= from < |src|
    ensures -1 <= k <= from && (forall i | k < i <= from :: src[i] == dst[off + i])
    ensures 0 <= k ==> src[k] != dst[off + k]
    decreases from + 1
  {
    if from >= 0 && src[from] == dst[off + from] then LastDifference(src, dst, off, from - 1) else from
  }

  /** winsch of a character that is stored. */
  function InsPlain(w: Win, ch: Chtype): (v: Win)
    ensures SameFrame(w, v) && v.curx == w.curx && v.cury == w.cury
  {
    var y := w.cury;
    var x := w.curx;
    WithRow(w, y, w.cells[y][..x] + [Blend(w.attrs, w.bkgd, ch)] + w.cells[y][x..w.maxx - 1],
            Lower(w.first[y], x), w.maxx - 1)
  }

  function InsBlanks(w: Win, ch: Chtype, k: nat): (v: Win)
    ensures SameFrame(w, v)
    decreases k
  {
    if k == 0 then w else InsBlanks(InsPlain(w, ch.WithText(SPACE)), ch, k - 1)
  }

  /** Two characters at the same place, the second in front of the first. */
  function InsPair(w: Win, a: Chtype, b: Chtype): (v: Win)
    ensures SameFrame(w, v)
  {
    InsPlain(InsPlain(w, a), b)
  }

  function InsCh(raw: bool, w: Win, ch: Chtype): (v: Win)
    ensures SameFrame(w, v)
  {
    if !Expands(raw, ch) then InsPlain(w, ch)
    else if ch.text == TAB then InsBlanks(w, ch, TABSIZE - w.curx % TABSIZE)
    else if ch.text == NEWLINE then ClrToEol(w)
    else if ch.text == DEL then InsPair(w, ch.WithText(QUESTION), ch.WithText(CARET))
    else InsPair(w, ch.WithText(ch.text + AT_SIGN), ch.WithText(CARET))
  }

  function DelCh(w: Win): (v: Win)
    ensures SameFrame(w, v)
  {
    var y := w.cury;
    var x := w.curx;
    WithRow(w, y, w.cells[y][..x] + w.cells[y][x + 1..] + [w.bkgd], Lower(w.first[y], x), w.maxx - 1)
  }

  /** wchgat: new attributes on n cells from the cursor (to the row's end when
      n < 0); with n == 0 the interval becomes empty but the row counts as touched. */
  function ChgAt(w: Win, n: int, attr: Chtype, color: bv8): (v: Win)
    ensures SameFrame(w, v)
  {
    var y := w.cury;
    var x := w.curx;
    var end := (if n < 0 then w.maxx else Min(x + n, w.maxx)) - 1;
    WithRow(w, y, Recolored(w.cells[y], x, end, PairOf(attr, color), attr.mods), Lower(w.first[y], x),
            Max(w.last[y], end))
  }

  /** `(attr & A_ATTRIBUTES) | COLOR_PAIR(color)`: the colour bits are or-ed together. */
  function PairOf(attr: Chtype, color: bv8): bv8 { attr.pair | color }

  /** Columns from..to of row with new attributes. */
  function Recolored(row: Row, from: int, to: int, pair: bv8, mods: bv8): (t: Row)
    ensures |t| == |row|
  {
    seq(|row|, i requires 0 <= i < |row| => if from <= i <= to then Ch(pair, mods, row[i].text) else row[i])
  }

  /** mvwin: refused unless the window stays on a screen of lines x cols. */
  function MvWin(w: Win, y: int, x: int, lines: int, cols: int): Outcome {
    if y + w.maxy > lines || y < 0 || x + w.maxx > cols || x < 0 then Outcome(w, false)
    else Outcome(TouchWin(w.(begy := y, begx := x)), true)
  }

  // ---------------------------------------------------------------- lines and borders

  function HLine(w: Win, ch: Chtype, n: int): (r: Outcome)
    ensures SameFrame(w, r.win)
  {
    if n < 1 then Outcome(w, false)
    else
      var y := w.cury;
      var x := w.curx;
      var len := Min(n, w.maxx - x);
      var c := PassThrough(w.attrs, w.bkgd, OrElse(ch, ACS_HLINE));
      Outcome(WithRow(w, y, Splice(w.cells[y], x, Fill(c, len)), Lower(w.first[y], x),
                      Max(w.last[y], x + len - 1)), true)
  }

  /** A zero character stands for the default line-drawing one. */
  function OrElse(ch: Chtype, fallback: Chtype): Chtype {
    if ch == Ch(0, 0, 0) then fallback else ch
  }

  function VLine(w: Win, ch: Chtype, n: int): (r: Outcome)
    ensures SameFrame(w, r.win)
  {
    if n < 1 then Outcome(w, false)
    else Outcome(ColumnDown(w, PassThrough(w.attrs, w.bkgd, OrElse(ch, ACS_VLINE)), Min(w.cury + n, w.maxy)), true)
  }

  /** The cursor's column set to c from the cursor's row down to row end - 1. */
  function ColumnDown(w: Win, c: Chtype, end: int): (v: Win)
    ensures SameFrame(w, v)
  {
    var y := w.cury;
    var x := w.curx;
    w.(cells := seq(w.maxy, r requires 0 <= r < w.maxy => if y <= r < end then w.cells[r][x := c] else w.cells[r]),
       first := seq(w.maxy, r requires 0 <= r < w.maxy => if y <= r < end then Lower(w.first[r], x) else w.first[r]),
       last := seq(w.maxy, r requires 0 <= r < w.maxy => if y <= r < end then Max(w.last[r], x) else w.last[r]))
  }

  lemma ColumnDownNone(w: Win, c: Chtype)
    ensures ColumnDown(w, c, w.cury) == w
  {
    var v := ColumnDown(w, c, w.cury);
    assert v.cells == w.cells && v.first == w.first && v.last == w.last;
  }

  lemma ColumnDownStep(w: Win, c: Chtype, r: int)
    requires w.cury <= r < w.maxy
    ensures var v := ColumnDown(w, c, r);
            ColumnDown(w, c, r + 1) == v.(cells := v.cells[r := v.cells[r][w.curx := c]],
                                          first := v.first[r := Lower(v.first[r], w.curx)],
                                          last := v.last[r := Max(v.last[r], w.curx)])
  {
    var v := ColumnDown(w, c, r);
    var u := ColumnDown(w, c, r + 1);
    assert u.cells == v.cells[r := v.cells[r][w.curx := c]];
    assert u.first == v.first[r := Lower(v.first[r], w.curx)] && u.last == v.last[r := Max(v.last[r], w.curx)];
  }

  /** The eight border characters. */
  datatype Frame = Frame(ls: Chtype, rs: Chtype, ts: Chtype, bs: Chtype,
                         tl: Chtype, tr: Chtype, bl: Chtype, br: Chtype)

  function BlendFrame(attrs: Chtype, bkgd: Chtype, f: Frame): Frame {
    var p := (ch, default) => PassThrough(attrs, bkgd, OrElse(ch, default));
    Frame(p(f.ls, ACS_VLINE), p(f.rs, ACS_VLINE), p(f.ts, ACS_HLINE), p(f.bs, ACS_HLINE),
          p(f.tl, ACS_ULCORNER), p(f.tr, ACS_URCORNER), p(f.bl, ACS_LLCORNER), p(f.br, ACS_LRCORNER))
  }

  /** (r, x) after wborder has drawn the top and bottom edges up to column i. */
  function EdgeCell(w: Win, f: Frame, i: int, r: int, x: int): Chtype
    requires 0 <= r < w.maxy && 0 <= x < w.maxx
  {
    if 1 <= x < i && r == w.maxy - 1 then f.bs else if 1 <= x < i && r == 0 then f.ts else w.cells[r][x]
  }

  /** (r, x) after the sides have been drawn too, down to row i. */
  function SideCell(w: Win, f: Frame, i: int, r: int, x: int): Chtype
    requires 0 <= r < w.maxy && 0 <= x < w.maxx
  {
    if 1 <= r < i && x == w.maxx - 1 then f.rs else if 1 <= r < i && x == 0 then f.ls
    else EdgeCell(w, f, w.maxx - 1, r, x)
  }

  /** What wborder leaves at (r, x); in a window one row high or one column wide the
      pieces written later win. */
  function BorderCell(w: Win, f: Frame, r: int, x: int): Chtype
    requires 0 <= r < w.maxy && 0 <= x < w.maxx
  {
    var ymax := w.maxy - 1;
    var xmax := w.maxx - 1;
    if r == ymax && x == xmax then f.br
    else if r == ymax && x == 0 then f.bl
    else if r == 0 && x == xmax then f.tr
    else if r == 0 && x == 0 then f.tl
    else if x == xmax then f.rs
    else if x == 0 then f.ls
    else if r == ymax then f.bs
    else if r == 0 then f.ts
    else w.cells[r][x]
  }

  function Framed(w: Win, f: Frame): Grid {
    seq(w.maxy, r requires 0 <= r < w.maxy =>
      seq(w.maxx, x requires 0 <= x < w.maxx => BorderCell(w, f, r, x)))
  }

  /** Edges, sides and then the four corners make the border. */
  lemma FramedIs(w: Win, f: Frame, g: Grid)
    requires IsGrid(g, w.maxy, w.maxx)
    requires forall r, x | 0 <= r < w.maxy && 0 <= x < w.maxx :: g[r][x] ==
               if r == w.maxy - 1 && x == w.maxx - 1 then f.br
               else if r == w.maxy - 1 && x == 0 then f.bl
               else if r == 0 && x == w.maxx - 1 then f.tr
               else if r == 0 && x == 0 then f.tl
               else SideCell(w, f, w.maxy - 1, r, x)
    ensures g == Framed(w, f)
  {
    forall r | 0 <= r < w.maxy
      ensures g[r] == Framed(w, f)[r]
    {
      assert forall x | 0 <= x < w.maxx :: g[r][x] == BorderCell(w, f, r, x);
    }
  }

  function Border(w: Win, f: Frame): (v: Win)
    ensures SameFrame(w, v)
  {
    TouchWin(w.(cells := Framed(w, BlendFrame(w.attrs, w.bkgd, f))))
  }
}
