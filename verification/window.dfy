/** The WINDOW object: a table of row arrays, edited in place. Each method is proved
    to compute the function of the same name in WindowModel. */
module Windows {
  import opened Cells
  import opened WindowModel
  import Model = WindowModel

  /** The row table `_y`: one array per row. */
  type Table = seq<array<Chtype>>

  predicate Distinct(rows: Table) {
    forall r, s | 0 <= r < s < |rows| :: rows[r] != rows[s]
  }

  ghost function Contents(rows: Table): (g: Grid)
    reads rows
    ensures |g| == |rows| && forall r | 0 <= r < |rows| :: g[r] == rows[r][..]
  {
    seq(|rows|, r requires 0 <= r < |rows| reads rows => rows[r][..])
  }

  /** One row has been written; the others are those of g. */
  lemma OneRow(rows: Table, r: int, g: Grid)
    requires 0 <= r < |rows| == |g|
    requires forall k | 0 <= k < |rows| && k != r :: rows[k][..] == g[k]
    ensures Contents(rows) == g[r := rows[r][..]]
  {
  }

  method FillRange(a: array<Chtype>, from: int, to: int, c: Chtype)
    requires 0 <= from <= to <= a.Length
    modifies a
    ensures a[..] == Splice(old(a[..]), from, Fill(c, to - from))
  {
    var i := from;
    while i < to
      invariant from <= i <= to
      invariant forall k | 0 <= k < a.Length :: a[k] == if from <= k < i then c else old(a[k])
    {
      a[i] := c;
      i := i + 1;
    }
    assert a[..] == Splice(old(a[..]), from, Fill(c, to - from));
  }

  /** Set columns from..to of row r to c. */
  method FillCells(rows: Table, r: int, from: int, to: int, c: Chtype)
    requires Distinct(rows) && 0 <= r < |rows| && 0 <= from <= to <= rows[r].Length
    modifies rows[r]
    ensures Contents(rows) == old(Contents(rows))[r := Splice(old(rows[r][..]), from, Fill(c, to - from))]
  {
    hide Contents, Splice;
    ghost var g := Contents(rows);
    FillRange(rows[r], from, to, c);
    OneRow(rows, r, g);
  }

  method CopyInto(a: array<Chtype>, x: int, s: Row)
    requires 0 <= x && x + |s| <= a.Length
    modifies a
    ensures a[..] == Splice(old(a[..]), x, s)
  {
    var i := 0;
    while i < |s|
      invariant 0 <= i <= |s|
      invariant forall k | 0 <= k < a.Length :: a[k] == if x <= k < x + i then s[k - x] else old(a[k])
    {
      a[x + i] := s[i];
      i := i + 1;
    }
    assert a[..] == Splice(old(a[..]), x, s);
  }

  /** Set the columns of row r from x on to s. */
  method CopyCells(rows: Table, r: int, x: int, s: Row)
    requires Distinct(rows) && 0 <= r < |rows| && 0 <= x && x + |s| <= rows[r].Length
    modifies rows[r]
    ensures Contents(rows) == old(Contents(rows))[r := Splice(old(rows[r][..]), x, s)]
  {
    hide Contents, Splice;
    ghost var g := Contents(rows);
    CopyInto(rows[r], x, s);
    OneRow(rows, r, g);
  }

  method RebackArray(a: array<Chtype>, was: Chtype, now: Chtype)
    modifies a
    ensures a[..] == RebackedRow(old(a[..]), was, now)
  {
    hide Rebacked;
    var i := 0;
    while i < a.Length
      invariant 0 <= i <= a.Length
      invariant forall k | 0 <= k < a.Length :: a[k] == if k < i then Rebacked(old(a[k]), was, now) else old(a[k])
    {
      a[i] := Rebacked(a[i], was, now);
      i := i + 1;
    }
    assert a[..] == RebackedRow(old(a[..]), was, now);
  }

  /** The inner loop of wbkgd. */
  method RebackCells(rows: Table, r: int, was: Chtype, now: Chtype)
    requires Distinct(rows) && 0 <= r < |rows|
    modifies rows[r]
    ensures Contents(rows) == old(Contents(rows))[r := RebackedRow(old(rows[r][..]), was, now)]
  {
    hide Contents, RebackedRow;
    ghost var g := Contents(rows);
    RebackArray(rows[r], was, now);
    OneRow(rows, r, g);
  }

  /** Give rows lo..hi the interval [first, last]. */
  method SetLines(f: array<int>, l: array<int>, lo: int, hi: int, first: int, last: int)
    requires f != l && 0 <= lo && hi < f.Length == l.Length
    modifies f, l
    ensures forall r | 0 <= r < f.Length :: f[r] == if lo <= r <= hi then first else old(f[r])
    ensures forall r | 0 <= r < l.Length :: l[r] == if lo <= r <= hi then last else old(l[r])
  {
    var i := lo;
    while i <= hi
      invariant lo <= i && (i <= hi + 1 || i == lo)
      invariant forall r | 0 <= r < f.Length :: f[r] == if lo <= r < i then first else old(f[r])
      invariant forall r | 0 <= r < l.Length :: l[r] == if lo <= r < i then last else old(l[r])
    {
      f[i] := first;
      l[i] := last;
      i := i + 1;
    }
  }

  /** Store one cell of row r. */
  method StoreCell(rows: Table, r: int, x: int, c: Chtype)
    requires Distinct(rows) && 0 <= r < |rows| && 0 <= x < rows[r].Length
    modifies rows[r]
    ensures Contents(rows) == old(Contents(rows))[r := old(rows[r][..])[x := c]]
  {
    rows[r][x] := c;
  }

  /** The row without its cell at `from`, and with c at `at`. */
  function Moved(row: Row, at: nat, from: nat, c: Chtype): (t: Row)
    requires at < |row| && from < |row|
    ensures |t| == |row|
  {
    var rest := row[..from] + row[from + 1..];
    rest[..at] + [c] + rest[at..]
  }

  lemma MovedShifts(row: Row, x: nat, c: Chtype)
    requires x < |row|
    ensures Moved(row, x, |row| - 1, c) == row[..x] + [c] + row[x..|row| - 1]
    ensures Moved(row, |row| - 1, x, c) == row[..x] + row[x + 1..] + [c]
  {
  }

  /** The memmove-and-store of winsch (from the last column) and wdelch (to it). */
  method MoveWithin(a: array<Chtype>, at: int, from: int, c: Chtype)
    requires 0 <= at < a.Length && 0 <= from < a.Length
    modifies a
    ensures a[..] == Moved(old(a[..]), at, from, c)
  {
    if at <= from {
      forall i | at < i <= from {
        a[i] := a[i - 1];
      }
    } else {
      forall i | from <= i < at {
        a[i] := a[i + 1];
      }
    }
    a[at] := c;
    hide Moved;
    ghost var row := old(a[..]);
    forall i | 0 <= i < |row|
      ensures a[i] == Moved(row, at, from, c)[i]
    {
      MovedAt(row, at, from, c, i);
    }
    assert a[..] == Moved(row, at, from, c);
  }

  lemma MovedAt(row: Row, at: nat, from: nat, c: Chtype, i: nat)
    requires at < |row| && from < |row| && i < |row|
    ensures Moved(row, at, from, c)[i] ==
            if i == at then c else if at < i <= from then row[i - 1] else if from <= i < at then row[i + 1] else row[i]
  {
  }

  method MoveCells(rows: Table, r: int, at: int, from: int, c: Chtype)
    requires Distinct(rows) && 0 <= r < |rows| && 0 <= at < rows[r].Length && 0 <= from < rows[r].Length
    modifies rows[r]
    ensures Contents(rows) == old(Contents(rows))[r := Moved(old(rows[r][..]), at, from, c)]
  {
    hide Contents, Moved;
    ghost var g := Contents(rows);
    MoveWithin(rows[r], at, from, c);
    OneRow(rows, r, g);
  }

  /** PDC_makelines, with the rows already blank. */
  method MakeLines(nlines: nat, ncols: nat) returns (rows: Table)
    ensures fresh(rows) && Distinct(rows) && Contents(rows) == Fill(Fill(BLANK, ncols), nlines)
  {
    rows := [];
    while |rows| < nlines
      invariant |rows| <= nlines && fresh(rows) && Distinct(rows)
      invariant forall r | 0 <= r < |rows| :: rows[r][..] == Fill(BLANK, ncols)
    {
      var row := new Chtype[ncols](_ => BLANK);
      rows := rows + [row];
    }
  }

  /** The arrays of a new window, wholly marked. */
  method MakeArrays(nlines: nat, ncols: nat) returns (rows: Table, f: array<int>, l: array<int>)
    ensures fresh(rows) && fresh(f) && fresh(l) && f != l && Distinct(rows)
    ensures Contents(rows) == Fill(Fill(BLANK, ncols), nlines) && f[..] == Fill(0, nlines) &&
            l[..] == Fill(ncols - 1, nlines)
  {
    rows := MakeLines(nlines, ncols);
    f := new int[nlines](_ => 0);
    l := new int[nlines](_ => ncols - 1);
    hide Contents;
    assert f[..] == Fill(0, nlines) && l[..] == Fill(ncols - 1, nlines);
  }

  /** i characters of a C string have been read. */
  predicate Reading(str: seq<Half>, n: int, i: int) {
    0 <= i <= |str| && (n < 0 || i <= n) && CText(str, n) == str[..i] + CText(str[i..], n - i)
  }

  lemma TextStart(raw: bool, w: Win, str: seq<Half>, n: int)
    ensures Reading(str, n, 0) && Model.AddStr(raw, w, Plain(CText(str, n))[..0]) == Outcome(w, true)
  {
    assert str[0..] == str && str[..0] == [];
  }

  lemma TextStep(raw: bool, w: Win, str: seq<Half>, n: int, i: int)
    requires Reading(str, n, i) && i < |str| && str[i] != 0 && (i < n || n < 0)
    ensures var text := Plain(CText(str, n));
            && Reading(str, n, i + 1) && i < |text|
            && Model.AddStr(raw, w, text[..i + 1]) ==
               var r := Model.AddStr(raw, w, text[..i]);
               if r.ok then Model.AddCh(raw, r.win, Ch(0, 0, str[i])) else r
  {
    hide Model.AddCh;
    var text := Plain(CText(str, n));
    assert str[i + 1..] == str[i..][1..];
    assert str[..i + 1] == str[..i] + [str[i]];
    assert text[..i + 1][..i] == text[..i];
  }

  lemma TextEnd(str: seq<Half>, n: int, i: int)
    requires Reading(str, n, i) && (i < |str| && str[i] != 0 ==> 0 <= n <= i)
    ensures var text := Plain(CText(str, n)); i == |text| && text[..i] == text
  {
  }

  class Window {
    var maxy: int
    var maxx: int
    var begy: int
    var begx: int
    var cury: int
    var curx: int
    var tmarg: int
    var bmarg: int
    var attrs: Chtype
    var bkgd: Chtype
    var clear: bool
    var leaveit: bool
    var scroll: bool
    var y: Table
    var firstch: array<int>
    var lastch: array<int>

    /** The window as a value. */
    ghost var m: Win
    ghost var Repr: set<object>

    /** The object owns its arrays, its rows are distinct, and its fields spell out m. */
    ghost predicate Valid()
      reads this, Repr
    {
      && {this, firstch, lastch} <= Repr && firstch != lastch
      && (forall row | row in y :: row in Repr) && Distinct(y)
      && m == RawWin(maxy, maxx, begy, begx, cury, curx, tmarg, bmarg, attrs, bkgd, clear, leaveit, scroll,
                     Contents(y), firstch[..], lastch[..])
    }

    /** The fields that a method may read while Valid is hidden. */
    lemma FieldsAgree()
      requires Valid()
      ensures maxy == m.maxy > 0 && maxx == m.maxx > 0 && 0 <= cury == m.cury < maxy && 0 <= curx == m.curx < maxx
      ensures 0 <= tmarg == m.tmarg <= bmarg == m.bmarg < maxy
      ensures this in Repr && clear == m.clear && leaveit == m.leaveit && attrs == m.attrs && bkgd == m.bkgd &&
              scroll == m.scroll && begy == m.begy && begx == m.begx
    {
    }

    /** The arrays of row r that a method may read while Valid is hidden. */
    lemma RowAgrees(r: int)
      requires Valid() && 0 <= r < m.maxy
      ensures |y| == |m.cells| == m.maxy && y[r].Length == m.maxx && y[r][..] == m.cells[r]
      ensures firstch.Length == lastch.Length == m.maxy && firstch[r] == m.first[r] && lastch[r] == m.last[r]
      ensures |m.first| == |m.last| == m.maxy && IsInterval(m.first[r], m.last[r], m.maxx)
    {
    }

    /** newwin on a screen of lines x cols, once the caller has checked that the window
        fits; a window of the screen's size asks for a clear on its first refresh. */
    constructor (nlines: int, ncols: int, top: int, left: int, lines: int, cols: int)
      requires 0 < nlines && 0 < ncols
      ensures Valid() && fresh(Repr) && m == NewWin(nlines, ncols, top, left, nlines == lines && ncols == cols)
    {
      var fullScreen := nlines == lines && ncols == cols;
      hide RawWin.Valid, Contents;
      var rows, f, l := MakeArrays(nlines, ncols);
      maxy, maxx, begy, begx := nlines, ncols, top, left;
      cury, curx, tmarg, bmarg := 0, 0, 0, nlines - 1;
      attrs, bkgd := Ch(0, 0, 0), BLANK;
      clear, leaveit, scroll := fullScreen, false, false;
      y, firstch, lastch := rows, f, l;
      Repr := {this, f, l} + set row | row in rows;
      m := NewWin(nlines, ncols, top, left, fullScreen);
    }

    method Move(r: int, x: int) returns (ok: bool)
      requires Valid()
      modifies this
      ensures Valid() && Repr == old(Repr) && Outcome(m, ok) == Model.Move(old(m), r, x)
    {
      if x < 0 || r < 0 || x >= maxx || r >= maxy {
        return false;
      }
      curx := x;
      cury := r;
      m := m.(cury := r, curx := x);
      return true;
    }

    method SetScrReg(top: int, bottom: int) returns (ok: bool)
      requires Valid()
      modifies this
      ensures Valid() && Repr == old(Repr) && Outcome(m, ok) == Model.SetScrReg(old(m), top, bottom)
    {
      if 0 <= top <= cury && cury <= bottom < maxy {
        tmarg := top;
        bmarg := bottom;
        m := m.(tmarg := top, bmarg := bottom);
        return true;
      }
      return false;
    }

    method AttrOff(a: Chtype)
      requires Valid()
      modifies this
      ensures Valid() && Repr == old(Repr) && m == old(m).(attrs := Cells.AttrOff(old(m).attrs, a))
    {
      hide Cells.AttrOff;
      attrs := Cells.AttrOff(attrs, a);
      m := m.(attrs := attrs);
    }

    method AttrOn(a: Chtype)
      requires Valid()
      modifies this
      ensures Valid() && Repr == old(Repr) && m == old(m).(attrs := Cells.AttrOn(old(m).attrs, a))
    {
      hide Cells.AttrOn;
      attrs := Cells.AttrOn(attrs, a);
      m := m.(attrs := attrs);
    }

    /** wattrset, and wattr_set with the colour put in. */
    method AttrSet(a: Chtype)
      requires Valid()
      modifies this
      ensures Valid() && Repr == old(Repr) && m == old(m).(attrs := a.WithText(0))
    {
      attrs := a.WithText(0);
      m := m.(attrs := attrs);
    }

    method ColorSet(pair: bv8)
      requires Valid()
      modifies this
      ensures Valid() && Repr == old(Repr) && m == old(m).(attrs := old(m).attrs.(pair := pair))
    {
      attrs := attrs.(pair := pair);
      m := m.(attrs := attrs);
    }

    method BkgdSet(ch: Chtype)
      requires Valid()
      modifies this
      ensures Valid() && Repr == old(Repr) && m == old(m).(bkgd := Background(ch))
    {
      bkgd := Background(ch);
      m := m.(bkgd := bkgd);
    }

    method Bkgd(ch: Chtype)
      requires Valid()
      modifies Repr
      ensures Valid() && Repr == old(Repr) && m == Model.Bkgd(old(m), ch)
    {
      hide Valid, RebackRows, Model.TouchWin, Background;
      FieldsAgree();
      if bkgd == ch {
        return;
      }
      var was := bkgd;
      BkgdSet(ch);
      ghost var w := m;
      RebackNone(w, was);
      FieldsAgree();
      var r := 0;
      while r < maxy
        invariant 0 <= r <= maxy == w.maxy
        invariant Valid() && Repr == old(Repr) && m == RebackRows(w, was, r)
      {
        RebackStep(w, was, r);
        RebackRow(r, was);
        FieldsAgree();
        r := r + 1;
      }
      TouchWin();
    }

    /** Row r follows the background. */
    method RebackRow(r: int, was: Chtype)
      requires Valid() && 0 <= r < m.maxy
      modifies Repr
      ensures Valid() && Repr == old(Repr)
      ensures m == old(m).(cells := old(m).cells[r := RebackedRow(old(m).cells[r], was, old(m).bkgd)])
    {
      RebackCells(y, r, was, bkgd);
      m := WithCells(m, Contents(y));
    }

    method LeaveOk(bf: bool)
      requires Valid()
      modifies this
      ensures Valid() && Repr == old(Repr) && m == old(m).(leaveit := bf)
    {
      leaveit := bf;
      m := m.(leaveit := bf);
    }

    method ScrollOk(bf: bool)
      requires Valid()
      modifies this
      ensures Valid() && Repr == old(Repr) && m == old(m).(scroll := bf)
    {
      scroll := bf;
      m := m.(scroll := bf);
    }

    method ClearOk(bf: bool)
      requires Valid()
      modifies this
      ensures Valid() && Repr == old(Repr) && m == old(m).(clear := bf)
    {
      clear := bf;
      m := m.(clear := bf);
    }

    method SetMargins(t: int, b: int)
      requires Valid() && 0 <= t <= b < m.maxy
      modifies this
      ensures Valid() && Repr == old(Repr) && m == old(m).(tmarg := t, bmarg := b)
    {
      tmarg := t;
      bmarg := b;
      m := m.(tmarg := t, bmarg := b);
    }

    /** All but the arrays is as in another window. */
    predicate Resembles(w: Window)
      reads this, w
    {
      && maxy == w.maxy && maxx == w.maxx && begy == w.begy && begx == w.begx
      && cury == w.cury && curx == w.curx && tmarg == w.tmarg && bmarg == w.bmarg
      && attrs == w.attrs && bkgd == w.bkgd && clear == w.clear && leaveit == w.leaveit && scroll == w.scroll
    }

    /** The size, origin, cursor and margins of another window. */
    method TakeGeometry(w: Window)
      requires w != this
      modifies `maxy, `maxx, `begy, `begx, `cury, `curx, `tmarg, `bmarg
      ensures maxy == w.maxy && maxx == w.maxx && begy == w.begy && begx == w.begx
      ensures cury == w.cury && curx == w.curx && tmarg == w.tmarg && bmarg == w.bmarg
    {
      maxy, maxx, begy, begx := w.maxy, w.maxx, w.begy, w.begx;
      cury, curx, tmarg, bmarg := w.cury, w.curx, w.tmarg, w.bmarg;
    }

    /** The attributes and flags of another window. */
    method TakeFlags(w: Window)
      requires w != this
      modifies `attrs, `bkgd, `clear, `leaveit, `scroll
      ensures attrs == w.attrs && bkgd == w.bkgd && clear == w.clear && leaveit == w.leaveit && scroll == w.scroll
    {
      attrs, bkgd, clear, leaveit, scroll := w.attrs, w.bkgd, w.clear, w.leaveit, w.scroll;
    }

    /** The same, keeping the window valid. */
    method CarryFlags(w: Window)
      requires Valid() && w.Valid() && w != this
      modifies `attrs, `bkgd, `clear, `leaveit, `scroll, `m
      ensures Valid() && Repr == old(Repr)
      ensures m ==
              old(m).(attrs := w.m.attrs, bkgd := w.m.bkgd, clear := w.m.clear, leaveit := w.m.leaveit,
                      scroll := w.m.scroll)
    {
      hide RawWin.Valid;
      TakeFlags(w);
      m := WithFlags(m, attrs, bkgd, clear, leaveit, scroll);
    }

    method TouchLine(start: int, count: int) returns (ok: bool)
      requires Valid() && 0 <= start
      modifies Repr
      ensures Valid() && Repr == old(Repr) && Outcome(m, ok) == Model.TouchLine(old(m), start, count)
    {
      if start > maxy || start + count > maxy {
        return false;
      }
      MarkLines(start, start + count - 1);
      return true;
    }

    method TouchWin()
      requires Valid()
      modifies Repr
      ensures Valid() && Repr == old(Repr) && m == Model.TouchWin(old(m))
    {
      MarkLines(0, maxy - 1);
    }

    method UntouchWin()
      requires Valid()
      modifies Repr
      ensures Valid() && Repr == old(Repr) && m == Model.UntouchWin(old(m))
    {
      SetLines(firstch, lastch, 0, maxy - 1, NO_CHANGE, NO_CHANGE);
      m := Model.UntouchWin(m);
      assert firstch[..] == m.first && lastch[..] == m.last;
    }

    /** The loop shared by the touching routines. */
    method MarkLines(lo: int, hi: int)
      requires Valid() && 0 <= lo && hi < m.maxy
      modifies Repr
      ensures Valid() && Repr == old(Repr) && m == MarkRows(old(m), lo, hi)
    {
      SetLines(firstch, lastch, lo, hi, 0, maxx - 1);
      m := MarkRows(m, lo, hi);
      assert firstch[..] == m.first && lastch[..] == m.last;
    }

    /** is_linetouched. Its guard lets line == maxy through, for which the source reads
        past the end of `_firstch`: that one line is not for callers to ask about. */
    method IsLineTouched(line: int) returns (t: bool)
      requires Valid() && line != m.maxy
      ensures t <==> 0 <= line < m.maxy && m.Touched(line)
    {
      if line > maxy || line < 0 {
        return false;
      }
      return firstch[line] != NO_CHANGE;
    }

    method IsWinTouched() returns (t: bool)
      requires Valid()
      ensures t <==> exists r | 0 <= r < m.maxy :: m.Touched(r)
    {
      var i := 0;
      while i < maxy
        invariant 0 <= i <= maxy
        invariant forall r | 0 <= r < i :: !m.Touched(r)
      {
        if firstch[i] != NO_CHANGE {
          assert m.Touched(i);
          return true;
        }
        i := i + 1;
      }
      return false;
    }

    /** Record the interval [f, l] for row r. */
    method SetInterval(r: int, f: int, l: int)
      requires Valid() && 0 <= r < m.maxy && IsInterval(f, l, m.maxx)
      modifies Repr
      ensures Valid() && Repr == old(Repr) && m == old(m).(first := old(m).first[r := f], last := old(m).last[r := l])
    {
      firstch[r] := f;
      lastch[r] := l;
      m := m.(first := m.first[r := f], last := m.last[r := l]);
    }

    /** Set columns from..to of row r to c. */
    method FillRow(r: int, from: int, to: int, c: Chtype)
      requires Valid() && 0 <= r < m.maxy && 0 <= from <= to <= m.maxx
      modifies Repr
      ensures Valid() && Repr == old(Repr)
      ensures m == old(m).(cells := old(m).cells[r := Splice(old(m).cells[r], from, Fill(c, to - from))])
    {
      FillCells(y, r, from, to, c);
      m := WithCells(m, Contents(y));
    }

    method SetCell(r: int, x: int, c: Chtype)
      requires Valid() && 0 <= r < m.maxy && 0 <= x < m.maxx
      modifies Repr
      ensures Valid() && Repr == old(Repr)
      ensures m == old(m).(cells := old(m).cells[r := old(m).cells[r][x := c]])
    {
      StoreCell(y, r, x, c);
      m := WithCells(m, Contents(y));
    }

    /** memcpy of the cells s to column x of row r. */
    method WriteCells(r: int, x: int, s: Row)
      requires Valid() && 0 <= r < m.maxy && 0 <= x && x + |s| <= m.maxx
      modifies Repr
      ensures Valid() && Repr == old(Repr)
      ensures m == old(m).(cells := old(m).cells[r := Splice(old(m).cells[r], x, s)])
    {
      CopyCells(y, r, x, s);
      m := WithCells(m, Contents(y));
    }

    /** The body of wclrtoeol for a given place; wclrtobot, which moves the cursor
        down the rows and back, clears each row through it. */
    method ClearFrom(r: int, x: int)
      requires Valid() && 0 <= r < m.maxy && 0 <= x < m.maxx
      modifies Repr
      ensures Valid() && Repr == old(Repr) && m == Model.ClearFrom(old(m), r, x)
    {
      hide Valid;
      FieldsAgree();
      FillRow(r, x, maxx, bkgd);
      MarkFrom(r, x);
    }

    /** Row r is marked from column x to its end. */
    method MarkFrom(r: int, x: int)
      requires Valid() && 0 <= r < m.maxy && 0 <= x < m.maxx
      modifies Repr
      ensures Valid() && Repr == old(Repr)
      ensures m ==
              old(m).(first := old(m).first[r := Lower(old(m).first[r], x)], last := old(m).last[r := old(m).maxx - 1])
    {
      hide Valid;
      FieldsAgree();
      RowAgrees(r);
      SetInterval(r, if x < firstch[r] || firstch[r] == NO_CHANGE then x else firstch[r], maxx - 1);
    }

    method ClrToEol()
      requires Valid()
      modifies Repr
      ensures Valid() && Repr == old(Repr) && m == Model.ClrToEol(old(m))
    {
      hide Valid;
      FieldsAgree();
      ClearFrom(cury, curx);
    }

    method ClrToBot()
      requires Valid()
      modifies Repr
      ensures Valid() && Repr == old(Repr) && m == Model.ClrToBot(old(m))
    {
      hide *;
      FieldsAgree();
      ClrToBotByRows(m);
      var rows, savey, savex := maxy, cury, curx;
      var row := savey + 1;
      while row < rows
        invariant savey < row <= rows
        invariant Valid() && Repr == old(Repr) && m == BlankRows(old(m), savey + 1, row - 1)
      {
        BlankRowStep(old(m), savey + 1, row);
        ClearFrom(row, 0);
        row := row + 1;
      }
      ClearFrom(savey, savex);
    }

    method Erase()
      requires Valid()
      modifies Repr
      ensures Valid() && Repr == old(Repr) && m == Model.Erase(old(m))
    {
      var ok := Move(0, 0);
      ClrToBot();
    }

    method Clear()
      requires Valid()
      modifies Repr
      ensures Valid() && Repr == old(Repr) && m == Model.Clear(old(m))
    {
      clear := true;
      m := m.(clear := true);
      Erase();
    }

    method Scroll(n: int) returns (ok: bool)
      requires Valid()
      modifies Repr
      ensures Valid() && Repr == old(Repr) && Outcome(m, ok) == Model.Scroll(old(m), n)
      ensures (ok <==> old(m).scroll && n != 0) && (ok ==> RegionMoved(old(m), m, n)) && (!ok ==> m == old(m))
    {
      hide Valid, MarkRows, Shift, RegionMoved;
      FieldsAgree();
      ScrollMoves(m, n);
      if !scroll || n == 0 {
        return false;
      }
      MoveRows(tmarg, bmarg, n);
      FieldsAgree();
      MarkLines(tmarg, bmarg);
      return true;
    }

    /** The row-pointer rotations of wscrl, wdeleteln and winsertln. */
    method MoveRows(lo: int, hi: int, n: int)
      requires Valid() && n != 0 && 0 <= lo <= hi < m.maxy
      modifies Repr
      ensures Valid() && Repr == old(Repr)
      ensures m == old(m).(cells := Shift(old(m).cells, lo, hi, n, Fill(old(m).bkgd, old(m).maxx)))
    {
      y := ScrollLines(y, lo, hi, n, bkgd, maxx);
      m := WithCells(m, Contents(y));
    }

    method DeleteLn()
      requires Valid()
      modifies Repr
      ensures Valid() && Repr == old(Repr) && m == Model.DeleteLn(old(m))
    {
      hide Valid, MarkRows, Shift;
      FieldsAgree();
      if cury <= bmarg {
        MoveRows(cury, bmarg, 1);
        FieldsAgree();
        MarkLines(cury, bmarg);
      } else {
        BlankLine(cury);
      }
    }

    /** wdeleteln below the bottom margin: the row is blanked and nothing is marked. */
    method BlankLine(r: int)
      requires Valid() && 0 <= r < m.maxy
      modifies Repr
      ensures Valid() && Repr == old(Repr)
      ensures m == WithRow(old(m), r, Fill(old(m).bkgd, old(m).maxx), old(m).first[r], old(m).last[r])
    {
      hide Valid;
      FieldsAgree();
      FillRow(r, 0, maxx, bkgd);
      assert Splice(old(m).cells[r], 0, Fill(bkgd, maxx)) == Fill(bkgd, maxx);
      assert m.first == old(m).first[r := old(m).first[r]] && m.last == old(m).last[r := old(m).last[r]];
    }

    method InsertLn()
      requires Valid()
      modifies Repr
      ensures Valid() && Repr == old(Repr) && m == Model.InsertLn(old(m))
    {
      hide Valid, MarkRows, Shift;
      FieldsAgree();
      MoveRows(cury, maxy - 1, -1);
      FieldsAgree();
      MarkLines(cury, maxy - 1);
    }

    method InsDelLn(n: int)
      requires Valid()
      modifies Repr
      ensures Valid() && Repr == old(Repr) && m == Model.InsDelLn(old(m), n)
    {
      hide Valid, Model.InsertLn, Model.DeleteLn;
      var i := 0;
      if n > 0 {
        while i < n
          invariant 0 <= i <= n && Valid() && Repr == old(Repr) && m == Model.InsDelLn(old(m), i)
        {
          InsertLn();
          i := i + 1;
        }
      } else if n < 0 {
        var k := -n;
        while i < k
          invariant 0 <= i <= k && Valid() && Repr == old(Repr) && m == Model.InsDelLn(old(m), -i)
        {
          DeleteLn();
          i := i + 1;
        }
      }
    }

    /** The write of waddch: only a cell that changes is stored and marked. */
    method Store(c: Chtype)
      requires Valid()
      modifies Repr
      ensures Valid() && Repr == old(Repr) && m == Model.Store(old(m), c)
    {
      hide Valid;
      FieldsAgree();
      RowAgrees(cury);
      if y[cury][curx] != c {
        if firstch[cury] == NO_CHANGE {
          SetInterval(cury, curx, curx);
        } else if curx < firstch[cury] {
          SetInterval(cury, curx, lastch[cury]);
        } else if curx > lastch[cury] {
          SetInterval(cury, firstch[cury], curx);
        }
        FieldsAgree();
        SetCell(cury, curx, c);
        assert m.first == Model.Store(old(m), c).first && m.last == Model.Store(old(m), c).last;
      }
    }

    method Place(r: int, x: int)
      requires Valid() && 0 <= r < m.maxy && 0 <= x < m.maxx
      modifies this
      ensures Valid() && Repr == old(Repr) && m == old(m).(cury := r, curx := x)
    {
      curx := x;
      cury := r;
      m := m.(cury := r, curx := x);
    }

    /** Down one row from row r, scrolling at the bottom margin. */
    method LineFeed(r: int, x: int) returns (ok: bool)
      requires Valid() && 0 <= r < m.maxy && 0 <= x < m.maxx
      modifies Repr
      ensures Valid() && Repr == old(Repr) && Outcome(m, ok) == Model.LineFeed(old(m), r, x)
    {
      hide Valid, Model.Scroll;
      FieldsAgree();
      var row := r + 1;
      if row > bmarg {
        row := row - 1;
        ok := Scroll(1);
        if !ok {
          return false;
        }
      }
      Place(row, x);
      return true;
    }

    method AddCh(raw: bool, ch: Chtype) returns (ok: bool)
      requires Valid()
      modifies Repr
      ensures Valid() && Repr == old(Repr) && Outcome(m, ok) == Model.AddCh(raw, old(m), ch)
      decreases if Expands(raw, ch) then 1 else 0
    {
      hide Valid, Model.Store, Model.LineFeed, Model.ClrToEol, Blend, PassThrough;
      FieldsAgree();
      var x := curx;
      if Expands(raw, ch) {
        if ch.text == TAB {
          ok := AddTab(raw, ch, TABSIZE - x % TABSIZE);
          return;
        } else if ch.text == NEWLINE {
          var row := cury;
          ClrToEol();
          ok := LineFeed(row, 0);
          return;
        } else if ch.text == BACKSPACE {
          Place(cury, if x - 1 < 0 then 0 else x - 1);
        } else if ch.text == RETURN {
          Place(cury, 0);
        } else {
          ok := AddCh(raw, ch.WithText(CARET));
          if !ok {
            return;
          }
          ok := AddCh(raw, ch.WithText(if ch.text == DEL then QUESTION else ch.text + AT_SIGN));
          return;
        }
      } else {
        Store(Blend(attrs, bkgd, ch));
        FieldsAgree();
        x := x + 1;
        if x >= maxx {
          ok := LineFeed(cury, 0);
          return;
        }
        Place(cury, x);
      }
      return true;
    }

    /** The tab loop of waddch: k blanks, or fewer when one wraps. */
    method AddTab(raw: bool, ch: Chtype, k: nat) returns (ok: bool)
      requires Valid() && Expands(raw, ch)
      modifies Repr
      ensures Valid() && Repr == old(Repr) && Outcome(m, ok) == Model.AddBlanks(old(m), ch, k)
      decreases 1, 0
    {
      hide Valid, Model.AddPlain;
      var i := 0;
      while i < k
        invariant 0 <= i <= k && Valid() && Repr == old(Repr)
        invariant AddBlanks(m, ch, k - i) == AddBlanks(old(m), ch, k)
      {
        var s := AddCh(raw, ch.WithText(SPACE));
        if !s {
          return false;
        }
        FieldsAgree();
        if curx == 0 {
          return true;
        }
        i := i + 1;
      }
      return true;
    }

    method AddStr(raw: bool, str: seq<Half>, n: int) returns (ok: bool)
      requires Valid()
      modifies Repr
      ensures Valid() && Repr == old(Repr) && Outcome(m, ok) == Model.AddStr(raw, old(m), Plain(CText(str, n)))
    {
      hide *;
      ghost var text := Plain(CText(str, n));
      ghost var w := m;
      TextStart(raw, w, str, n);
      var i := 0;
      while i < |str| && str[i] != 0 && (i < n || n < 0)
        invariant 0 <= i <= |str| && Reading(str, n, i) && i <= |text|
        invariant Valid() && Repr == old(Repr) && Outcome(m, true) == Model.AddStr(raw, w, text[..i])
      {
        TextStep(raw, w, str, n, i);
        ok := AddCh(raw, Ch(0, 0, str[i]));
        if !ok {
          AddStrStops(raw, w, text, i + 1);
          return;
        }
        i := i + 1;
      }
      TextEnd(str, n, i);
      return true;
    }

    method AddChNStr(chs: seq<Chtype>, n: int) returns (ok: bool)
      requires Valid()
      modifies Repr
      ensures Valid() && Repr == old(Repr) && Outcome(m, ok) == Model.AddChNStr(old(m), chs, n)
    {
      hide Valid;
      if n == 0 || n < -1 {
        return false;
      }
      FieldsAgree();
      RowAgrees(cury);
      var room := if n == -1 || n > maxx - curx then maxx - curx else n;
      ghost var t := chs[..Min(ZeroAt(chs), room)];
      PutAll(chs, room);
      return true;
    }

    /** waddchnstr without its checks: the cells, then the interval. */
    method PutAll(chs: seq<Chtype>, room: nat)
      requires Valid() && m.curx + room <= m.maxx
      modifies Repr
      ensures Valid() && Repr == old(Repr) && m == PutCells(old(m), chs[..Min(ZeroAt(chs), room)])
    {
      hide Valid, RawWin.Valid, MinColumn, MaxColumn, Splice, ZeroAt;
      FieldsAgree();
      RowAgrees(cury);
      ColumnsValid(m.cells[cury], curx, chs[..Min(ZeroAt(chs), room)], firstch[cury], lastch[cury]);
      var minx, maxx := StoreAll(cury, curx, chs, room, firstch[cury], lastch[cury]);
      FieldsAgree();
      SetInterval(cury, minx, maxx);
    }

    /** The loop of waddchnstr. */
    method StoreAll(r: int, x: int, chs: seq<Chtype>, room: nat, f: int, l: int) returns (minx: int, maxx: int)
      requires Valid() && 0 <= r < m.maxy && 0 <= x && x + room <= m.maxx
      modifies Repr
      ensures Valid() && Repr == old(Repr)
      ensures var t := chs[..Min(ZeroAt(chs), room)];
              && m == old(m).(cells := old(m).cells[r := Splice(old(m).cells[r], x, t)])
              && minx == MinColumn(old(m).cells[r], x, t, f) && maxx == MaxColumn(old(m).cells[r], x, t, l)
    {
      hide Valid, RawWin.Valid, MinColumn, MaxColumn, Splice, ZeroAt;
      RowAgrees(r);
      ghost var row, end := m.cells[r], Min(ZeroAt(chs), room);
      PutNothing(row, x, f, l);
      minx, maxx := f, l;
      var k := 0;
      assert m.cells[r := row] == m.cells;
      while k < room && k < |chs| && chs[k] != Ch(0, 0, 0)
        invariant 0 <= k <= end
        invariant Valid() && Repr == old(Repr)
        invariant m == old(m).(cells := old(m).cells[r := Splice(row, x, chs[..k])])
        invariant minx == MinColumn(row, x, chs[..k], f)
        invariant maxx == MaxColumn(row, x, chs[..k], l)
      {
        ColumnsExtend(row, x, chs[..k], chs[k], f, l);
        assert chs[..k + 1] == chs[..k] + [chs[k]];
        minx, maxx := PutOne(r, x + k, chs[k], minx, maxx);
        assert m.cells == old(m).cells[r := Splice(row, x, chs[..k + 1])];
        k := k + 1;
      }
    }

    /** One step of waddchnstr: store the cell and widen the changed columns if it differs. */
    method PutOne(r: int, x: int, c: Chtype, min: int, max: int) returns (minx: int, maxx: int)
      requires Valid() && 0 <= r < m.maxy && 0 <= x < m.maxx
      modifies Repr
      ensures Valid() && Repr == old(Repr)
      ensures m == old(m).(cells := old(m).cells[r := old(m).cells[r][x := c]])
      ensures if old(m).cells[r][x] == c then minx == min && maxx == max
              else minx == (if x < min || min == NO_CHANGE then x else min) && maxx == (if x > max then x else max)
    {
      hide Valid;
      RowAgrees(r);
      minx, maxx := min, max;
      if y[r][x] != c {
        if x < minx || minx == NO_CHANGE {
          minx := x;
        }
        if x > maxx {
          maxx := x;
        }
        SetCell(r, x, c);
      } else {
        assert m.cells[r][x := c] == m.cells[r];
        assert m.cells[r := m.cells[r]] == m.cells;
      }
    }

    method InsCh(raw: bool, ch: Chtype)
      requires Valid()
      modifies Repr
      ensures Valid() && Repr == old(Repr) && m == Model.InsCh(raw, old(m), ch)
      decreases if Expands(raw, ch) then 1 else 0
    {
      hide Valid, Model.ClrToEol, InsPlain;
      FieldsAgree();
      if Expands(raw, ch) {
        if ch.text == TAB {
          var k := TABSIZE - curx % TABSIZE;
          var i := 0;
          while i < k
            invariant 0 <= i <= k && Valid() && Repr == old(Repr)
            invariant InsBlanks(m, ch, k - i) == InsBlanks(old(m), ch, k)
          {
            InsCh(raw, ch.WithText(SPACE));
            i := i + 1;
          }
        } else if ch.text == NEWLINE {
          ClrToEol();
        } else {
          InsCh(raw, ch.WithText(if ch.text == DEL then QUESTION else ch.text + AT_SIGN));
          InsCh(raw, ch.WithText(CARET));
        }
      } else {
        InsertCell(ch);
      }
    }

    /** The row shift and store of winsch. */
    method InsertCell(ch: Chtype)
      requires Valid()
      modifies Repr
      ensures Valid() && Repr == old(Repr) && m == InsPlain(old(m), ch)
    {
      hide Valid, Blend, Moved;
      FieldsAgree();
      var c := Blend(attrs, bkgd, ch);
      MovedShifts(m.cells[cury], curx, c);
      EditRow(cury, curx, maxx - 1, c);
      FieldsAgree();
      MarkFrom(cury, curx);
    }

    method DelCh()
      requires Valid()
      modifies Repr
      ensures Valid() && Repr == old(Repr) && m == Model.DelCh(old(m))
    {
      hide Valid, Moved;
      FieldsAgree();
      MovedShifts(m.cells[cury], curx, bkgd);
      EditRow(cury, maxx - 1, curx, bkgd);
      FieldsAgree();
      MarkFrom(cury, curx);
    }

    /** In row r, take out the cell at column `from` and put c in at column `at`. */
    method EditRow(r: int, at: int, from: int, c: Chtype)
      requires Valid() && 0 <= r < m.maxy && 0 <= at < m.maxx && 0 <= from < m.maxx
      modifies Repr
      ensures Valid() && Repr == old(Repr)
      ensures m == old(m).(cells := old(m).cells[r := Moved(old(m).cells[r], at, from, c)])
    {
      MoveCells(y, r, at, from, c);
      m := WithCells(m, Contents(y));
    }

    /** wchgat. */
    method ChgAt(n: int, attr: Chtype, color: bv8)
      requires Valid()
      modifies Repr
      ensures Valid() && Repr == old(Repr) && m == Model.ChgAt(old(m), n, attr, color)
    {
      hide Valid, RawWin.Valid, Recolored, PairOf;
      FieldsAgree();
      var startpos := curx;
      var endpos := (if n < 0 || startpos + n > maxx then maxx else startpos + n) - 1;
      Recolor(cury, startpos, endpos, PairOf(attr, color), attr.mods);
      FieldsAgree();
      RowAgrees(cury);
      Widen(cury, startpos, endpos);
    }

    /** Columns from..to of row r get new attributes and keep their text. */
    method Recolor(r: int, from: int, to: int, pair: bv8, mods: bv8)
      requires Valid() && 0 <= r < m.maxy && 0 <= from <= to + 1 <= m.maxx
      modifies Repr
      ensures Valid() && Repr == old(Repr)
      ensures m == old(m).(cells := old(m).cells[r := Recolored(old(m).cells[r], from, to, pair, mods)])
    {
      hide Valid;
      RowAgrees(r);
      ghost var row := m.cells[r];
      assert Recolored(row, from, from - 1, pair, mods) == row && m.cells[r := row] == m.cells;
      var n := from;
      while n <= to
        invariant from <= n <= to + 1
        invariant Valid() && Repr == old(Repr)
        invariant m == old(m).(cells := old(m).cells[r := Recolored(row, from, n - 1, pair, mods)])
      {
        RowAgrees(r);
        assert Recolored(row, from, n - 1, pair, mods)[n := Ch(pair, mods, row[n].text)] ==
               Recolored(row, from, n, pair, mods);
        SetCell(r, n, Ch(pair, mods, y[r][n].text));
        assert m.cells == old(m).cells[r := Recolored(row, from, n, pair, mods)];
        n := n + 1;
      }
    }

    /** The interval update of wchgat, whline and wvline: each bound on its own. */
    method Widen(r: int, startpos: int, endpos: int)
      requires Valid() && 0 <= r < m.maxy && 0 <= startpos < m.maxx && startpos - 1 <= endpos < m.maxx
      modifies Repr
      ensures Valid() && Repr == old(Repr)
      ensures m == old(m).(first := old(m).first[r := Lower(old(m).first[r], startpos)],
                           last := old(m).last[r := Max(old(m).last[r], endpos)])
    {
      hide Valid;
      RowAgrees(r);
      var f, l := firstch[r], lastch[r];
      if startpos < f || f == NO_CHANGE {
        f := startpos;
      }
      if endpos > l {
        l := endpos;
      }
      SetInterval(r, f, l);
    }

    method HLine(ch: Chtype, n: int) returns (ok: bool)
      requires Valid()
      modifies Repr
      ensures Valid() && Repr == old(Repr) && Outcome(m, ok) == Model.HLine(old(m), ch, n)
    {
      hide Valid, PassThrough;
      if n < 1 {
        return false;
      }
      FieldsAgree();
      var startpos := curx;
      var endpos := (if startpos + n < maxx then startpos + n else maxx) - 1;
      FillRow(cury, startpos, endpos + 1, PassThrough(attrs, bkgd, OrElse(ch, ACS_HLINE)));
      FieldsAgree();
      Widen(cury, startpos, endpos);
      return true;
    }

    method VLine(ch: Chtype, n: int) returns (ok: bool)
      requires Valid()
      modifies Repr
      ensures Valid() && Repr == old(Repr) && Outcome(m, ok) == Model.VLine(old(m), ch, n)
    {
      hide Valid, PassThrough, ColumnDown;
      if n < 1 {
        return false;
      }
      FieldsAgree();
      var endpos := if cury + n < maxy then cury + n else maxy;
      var top, x := cury, curx;
      var c := PassThrough(attrs, bkgd, OrElse(ch, ACS_VLINE));
      ColumnDownNone(m, c);
      var r := top;
      while r < endpos
        invariant top <= r <= endpos
        invariant Valid() && Repr == old(Repr) && m == ColumnDown(old(m), c, r)
      {
        ColumnDownStep(old(m), c, r);
        SetCell(r, x, c);
        Widen(r, x, x);
        r := r + 1;
      }
      return true;
    }

    method Border(f: Frame)
      requires Valid()
      modifies Repr
      ensures Valid() && Repr == old(Repr) && m == Model.Border(old(m), f)
    {
      hide Valid, MarkRows, BlendFrame, Framed;
      FieldsAgree();
      DrawFrame(BlendFrame(attrs, bkgd, f));
      FieldsAgree();
      MarkLines(0, maxy - 1);
    }

    /** The drawing loops of wborder. */
    method DrawFrame(b: Frame)
      requires Valid()
      modifies Repr
      ensures Valid() && Repr == old(Repr) && m == old(m).(cells := Framed(old(m), b))
    {
      hide Valid;
      FieldsAgree();
      var ymax, xmax := maxy - 1, maxx - 1;
      DrawEdges(b, ymax, xmax);
      DrawSides(b, ymax, xmax, old(m));
      SetCell(0, 0, b.tl);
      SetCell(0, xmax, b.tr);
      SetCell(ymax, 0, b.bl);
      SetCell(ymax, xmax, b.br);
      FramedIs(old(m), b, m.cells);
    }

    method DrawEdges(b: Frame, ymax: int, xmax: int)
      requires Valid() && ymax == m.maxy - 1 && xmax == m.maxx - 1
      modifies Repr
      ensures Valid() && Repr == old(Repr) && m == old(m).(cells := m.cells)
      ensures forall r, x | 0 <= r <= ymax && 0 <= x <= xmax :: m.cells[r][x] == EdgeCell(old(m), b, xmax, r, x)
    {
      hide Valid;
      var i := 1;
      while i < xmax
        invariant 1 <= i && (i <= xmax || i == 1)
        invariant Valid() && Repr == old(Repr) && m == old(m).(cells := m.cells)
        invariant forall r, x | 0 <= r <= ymax && 0 <= x <= xmax :: m.cells[r][x] == EdgeCell(old(m), b, i, r, x)
      {
        SetCell(0, i, b.ts);
        SetCell(ymax, i, b.bs);
        i := i + 1;
      }
    }

    method DrawSides(b: Frame, ymax: int, xmax: int, ghost w: Win)
      requires Valid() && ymax == m.maxy - 1 == w.maxy - 1 && xmax == m.maxx - 1 == w.maxx - 1
      requires forall r, x | 0 <= r <= ymax && 0 <= x <= xmax :: m.cells[r][x] == EdgeCell(w, b, xmax, r, x)
      modifies Repr
      ensures Valid() && Repr == old(Repr) && m == old(m).(cells := m.cells)
      ensures forall r, x | 0 <= r <= ymax && 0 <= x <= xmax :: m.cells[r][x] == SideCell(w, b, ymax, r, x)
    {
      hide Valid, EdgeCell;
      var i := 1;
      while i < ymax
        invariant 1 <= i && (i <= ymax || i == 1)
        invariant Valid() && Repr == old(Repr) && m == old(m).(cells := m.cells)
        invariant forall r, x | 0 <= r <= ymax && 0 <= x <= xmax :: m.cells[r][x] == SideCell(w, b, i, r, x)
      {
        SetCell(i, 0, b.ls);
        SetCell(i, xmax, b.rs);
        i := i + 1;
      }
    }

    /** mvwin. */
    method MvWin(r: int, x: int, lines: int, cols: int) returns (ok: bool)
      requires Valid()
      modifies Repr
      ensures Valid() && Repr == old(Repr) && Outcome(m, ok) == Model.MvWin(old(m), r, x, lines, cols)
    {
      hide Valid, MarkRows;
      FieldsAgree();
      if r + maxy > lines || r < 0 || x + maxx > cols || x < 0 {
        return false;
      }
      SetOrigin(r, x);
      TouchWin();
      return true;
    }

    method SetOrigin(r: int, x: int)
      requires Valid()
      modifies this
      ensures Valid() && Repr == old(Repr) && m == old(m).(begy := r, begx := x)
    {
      begy := r;
      begx := x;
      m := m.(begy := r, begx := x);
    }
  }

  /** The same rows in another order. */
  predicate Permuted(p: Table, q: Table) {
    |p| == |q| && Distinct(q) && (forall row | row in p :: row in q) && (forall row | row in q :: row in p)
  }

  /** q is p with one step of rotation from start to end. */
  predicate Rotated(p: Table, q: Table, start: int, end: int, dir: int)
    requires (dir == 1 && 0 <= start <= end < |p|) || (dir == -1 && 0 <= end <= start < |p|)
  {
    && |q| == |p| && q[end] == p[start]
    && (dir == 1 ==> forall r | start <= r < end :: q[r] == p[r + 1])
    && (dir == -1 ==> forall r | end < r <= start :: q[r] == p[r - 1])
    && (forall r | 0 <= r < |p| && (r < Min(start, end) || Max(start, end) < r) :: q[r] == p[r])
  }

  lemma RotatedIsPermuted(p: Table, q: Table, start: int, end: int, dir: int)
    requires (dir == 1 && 0 <= start <= end < |p|) || (dir == -1 && 0 <= end <= start < |p|)
    requires Distinct(p) && Rotated(p, q, start, end, dir)
    ensures Permuted(p, q)
  {
    forall row | row in p
      ensures row in q
    {
      var r :| 0 <= r < |p| && p[r] == row;
      var to := if r == start then end else if Min(start, end) <= r <= Max(start, end) then r - dir else r;
      assert q[to] == row;
    }
    assert forall row | row in q :: row in p;
  }

  function Along(dir: int, n: int): int { if dir == 1 then n else -n }

  /** The loops of wscrl on the row table: the same rows, rotated. */
  method ScrollRegion(rows: Table, start: int, end: int, dir: int, steps: nat, c: Chtype, maxx: nat) returns (y: Table)
    requires Distinct(rows) && forall row | row in rows :: row.Length == maxx
    requires (dir == 1 && 0 <= start <= end < |rows|) || (dir == -1 && 0 <= end <= start < |rows|)
    modifies rows
    ensures Permuted(rows, y)
    ensures Contents(y) ==
            Shift(old(Contents(rows)), Min(start, end), Max(start, end), Along(dir, steps), Fill(c, maxx))
  {
    ghost var g, blank, lo, hi := Contents(rows), Fill(c, maxx), Min(start, end), Max(start, end);
    y := rows;
    ShiftNone(g, start, end, dir, blank);
    hide Contents, Shift, Distinct, Along;
    var l := 0;
    while l < steps
      invariant 0 <= l <= steps
      invariant Permuted(rows, y)
      invariant Contents(y) == Shift(g, lo, hi, Along(dir, l), blank)
    {
      assert y[start] in rows;
      y := RotateRows(y, start, end, dir, c, maxx);
      ShiftStep(g, start, end, dir, l, blank);
      l := l + 1;
    }
  }

  /** Up for a positive n, down for a negative one. */
  method ScrollLines(rows: Table, lo: int, hi: int, n: int, c: Chtype, maxx: nat) returns (y: Table)
    requires Distinct(rows) && (forall row | row in rows :: row.Length == maxx) && 0 <= lo <= hi < |rows|
    modifies rows
    ensures Permuted(rows, y)
    ensures Contents(y) == Shift(old(Contents(rows)), lo, hi, n, Fill(c, maxx))
  {
    if n > 0 {
      y := ScrollRegion(rows, lo, hi, 1, n, c, maxx);
    } else {
      y := ScrollRegion(rows, hi, lo, -1, -n, c, maxx);
    }
  }

  lemma ShiftNone(g: Grid, start: int, end: int, dir: int, blank: Row)
    ensures Shift(g, Min(start, end), Max(start, end), Along(dir, 0), blank) == g
  {
  }

  lemma ShiftStep(g: Grid, start: int, end: int, dir: int, l: nat, blank: Row)
    requires (dir == 1 && 0 <= start <= end < |g|) || (dir == -1 && 0 <= end <= start < |g|)
    ensures var (lo, hi) := (Min(start, end), Max(start, end));
            Shift(Shift(g, lo, hi, Along(dir, l), blank), lo, hi, dir, blank) ==
            Shift(g, lo, hi, Along(dir, l + 1), blank)
  {
    ShiftCompose(g, Min(start, end), Max(start, end), Along(dir, l), dir, blank);
  }

  /** One step of wscrl: the row at start goes, blanked, to end. */
  method RotateRows(rows: Table, start: int, end: int, dir: int, c: Chtype, maxx: nat) returns (y: Table)
    requires Distinct(rows) && forall row | row in rows :: row.Length == maxx
    requires (dir == 1 && 0 <= start <= end < |rows|) || (dir == -1 && 0 <= end <= start < |rows|)
    modifies rows[start]
    ensures Permuted(rows, y)
    ensures Contents(y) == Shift(old(Contents(rows)), Min(start, end), Max(start, end), dir, Fill(c, maxx))
  {
    y := rows;
    var temp := y[start];
    var i := start;
    while i != end
      invariant |y| == |rows| && if dir == 1 then start <= i <= end else end <= i <= start
      invariant dir == 1 ==> forall r | start <= r < i :: y[r] == rows[r + 1]
      invariant dir == 1 ==> forall r | 0 <= r < |y| && (r < start || i <= r) :: y[r] == rows[r]
      invariant dir == -1 ==> forall r | i < r <= start :: y[r] == rows[r - 1]
      invariant dir == -1 ==> forall r | 0 <= r < |y| && (r <= i || start < r) :: y[r] == rows[r]
      decreases if dir == 1 then end - i else i - end
    {
      y := y[i := y[i + dir]];
      i := i + dir;
    }
    y := y[end := temp];
    RotatedIsPermuted(rows, y, start, end, dir);
    FillCells(rows, start, 0, maxx, c);
    assert Splice(old(rows[start][..]), 0, Fill(c, maxx)) == Fill(c, maxx);
    ContentsRotated(rows, y, start, end, dir, old(Contents(rows)), Fill(c, maxx));
  }

  lemma ContentsRotated(p: Table, q: Table, start: int, end: int, dir: int, g: Grid, blank: Row)
    requires (dir == 1 && 0 <= start <= end < |p|) || (dir == -1 && 0 <= end <= start < |p|)
    requires Rotated(p, q, start, end, dir) && |g| == |p| && Contents(p) == g[start := blank]
    ensures Contents(q) == Shift(g, Min(start, end), Max(start, end), dir, blank)
  {
    forall r | 0 <= r < |q|
      ensures q[r][..] == ShiftedRow(g, Min(start, end), Max(start, end), dir, blank, r)
    {
      var from := if r == end then start else if Min(start, end) <= r <= Max(start, end) then r + dir else r;
      assert q[r] == p[from] && p[from][..] == Contents(p)[from];
    }
  }
}
