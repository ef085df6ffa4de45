/** Copying one window onto another: what overlay, overwrite, copywin and
    resize_window leave behind, and what that means on the screen. */
module OverlapModel {
  import opened Cells
  import opened WindowModel
  import opened Damage

  /** What n cells of drow from column dx become when srow's cells from sx are laid
      over them: in overlay mode the source's blanks are transparent. */
  function Laid(srow: Row, sx: nat, drow: Row, dx: nat, n: nat, transparent: bool): (t: Row)
    requires sx + n <= |srow| && dx + n <= |drow|
    ensures |t| == n
  {
    seq(n, k requires 0 <= k < n => if transparent && srow[sx + k].text == SPACE then drow[dx + k] else srow[sx + k])
  }

  lemma LaidAt(srow: Row, sx: nat, drow: Row, dx: nat, n: nat, transparent: bool, k: nat)
    requires sx + n <= |srow| && dx + n <= |drow| && k < n
    ensures Laid(srow, sx, drow, dx, n, transparent)[k] ==
            if transparent && srow[sx + k].text == SPACE then drow[dx + k] else srow[sx + k]
  {
  }

  /** v is d with the cells t stored in row r from column x on; fc and lc are the first
      and last columns that changed, lc being `stale` when none did. */
  predicate LineLaid(d: Win, v: Win, r: int, x: nat, t: Row, stale: int, fc: int, lc: int)
    requires 0 <= r < d.maxy && x + |t| <= d.maxx
  {
    && v == d.(cells := d.cells[r := Splice(d.cells[r], x, t)])
    && fc == MinColumn(d.cells[r], x, t, NO_CHANGE)
    && lc == (if fc == NO_CHANGE then stale else MaxColumn(d.cells[r], x, t, NO_CHANGE))
  }

  lemma LineLaidNone(d: Win, r: int, x: nat, stale: int)
    requires 0 <= r < d.maxy && x <= d.maxx
    ensures LineLaid(d, d, r, x, [], stale, NO_CHANGE, stale)
  {
    PutNothing(d.cells[r], x, NO_CHANGE, NO_CHANGE);
    assert d.cells[r := d.cells[r]] == d.cells;
  }

  lemma LineUntouched(d: Win, v: Win, r: int, x: nat, t: Row, stale: int, fc: int, lc: int)
    requires 0 <= r < d.maxy && x + |t| <= d.maxx && LineLaid(d, v, r, x, t, stale, fc, lc)
    ensures v.maxy == d.maxy && v.maxx == d.maxx && |v.cells| == v.maxy && |v.cells[r]| == v.maxx == |d.cells[r]|
    ensures x + |t| < d.maxx ==> v.cells[r][x + |t|] == d.cells[r][x + |t|]
  {
  }

  lemma LineLaidStep(d: Win, u: Win, v: Win, r: int, x: nat, s: Row, c: Chtype, stale: int, f: int, l: int,
                     fc: int, lc: int)
    requires 0 <= r < d.maxy && x + |s| < d.maxx && LineLaid(d, u, r, x, s, stale, f, l)
    requires v == u.(cells := u.cells[r := u.cells[r][x + |s| := c]])
    requires if c == u.cells[r][x + |s|] then fc == f && lc == l
             else fc == (if f == NO_CHANGE then x + |s| else f) && lc == x + |s|
    ensures LineLaid(d, v, r, x, s + [c], stale, fc, lc)
  {
    hide Splice, MinColumn, MaxColumn;
    var row := d.cells[r];
    ColumnsExtend(row, x, s, c, NO_CHANGE, NO_CHANGE);
    ColumnsMerge(row, x, s, NO_CHANGE, NO_CHANGE);
    ColumnsBelow(row, x, s);
    assert v.cells == d.cells[r := Splice(row, x, s + [c])];
  }

  lemma ColumnsBelow(row: Row, x: nat, t: Row)
    requires x + |t| <= |row|
    ensures MinColumn(row, x, t, NO_CHANGE) < x + |t| && MaxColumn(row, x, t, NO_CHANGE) < x + |t|
    ensures MinColumn(row, x, t, NO_CHANGE) == NO_CHANGE ==> MaxColumn(row, x, t, NO_CHANGE) == NO_CHANGE
  {
    ColumnsMerge(row, x, t, NO_CHANGE, NO_CHANGE);
  }

  /** A rectangle to copy: `rows` x `cols` cells from (sr, sc) to (dr, dc). */
  datatype Region = Region(sr: int, sc: int, dr: int, dc: int, rows: int, cols: int) {
    predicate Fits(s: Win, d: Win) {
      && 0 <= sr && 0 <= sc && 0 <= dr && 0 <= dc && 0 <= rows && 0 <= cols
      && (rows > 0 ==> sr + rows <= s.maxy && dr + rows <= d.maxy)
      && (rows > 0 ==> sc + cols <= s.maxx && dc + cols <= d.maxx)
    }
  }

  /** Row r of d became row r of v: source cells laid over it, its interval widened
      to what changed. (The last bound of a clean row means nothing.) */
  predicate RowCopied(s: Win, d: Win, v: Win, g: Region, transparent: bool, r: int)
    requires SameFrame(d, v) && g.Fits(s, d) && 0 <= r < d.maxy
  {
    if g.dr <= r < g.dr + g.rows then
      var t := Laid(s.cells[r - g.dr + g.sr], g.sc, d.cells[r], g.dc, g.cols, transparent);
      && v.cells[r] == Splice(d.cells[r], g.dc, t)
      && v.first[r] == MinColumn(d.cells[r], g.dc, t, d.first[r])
      && (v.first[r] != NO_CHANGE ==>
            v.last[r] == MaxColumn(d.cells[r], g.dc, t, if d.first[r] == NO_CHANGE then NO_CHANGE else d.last[r]))
    else
      v.cells[r] == d.cells[r] && v.first[r] == d.first[r] && v.last[r] == d.last[r]
  }

  /** v is d after _copy_win. */
  predicate Copied(s: Win, d: Win, v: Win, g: Region, transparent: bool)
    requires g.Fits(s, d)
  {
    && v == d.(cells := v.cells, first := v.first, last := v.last)
    && (forall r | 0 <= r < d.maxy :: RowCopied(s, d, v, g, transparent, r))
  }

  /** v differs from d in one line of the region, which has been copied. */
  predicate LineCopied(s: Win, d: Win, v: Win, g: Region, transparent: bool, line: int)
    requires g.Fits(s, d) && 0 <= line < g.rows
  {
    && v == d.(cells := v.cells, first := v.first, last := v.last)
    && RowCopied(s, d, v, g, transparent, g.dr + line)
    && (forall r | 0 <= r < d.maxy && r != g.dr + line ::
          v.cells[r] == d.cells[r] && v.first[r] == d.first[r] && v.last[r] == d.last[r])
  }

  lemma RegionLine(s: Win, d: Win, g: Region, line: int)
    requires g.Fits(s, d) && 0 <= line < g.rows
    ensures 0 <= g.sr + line < s.maxy && 0 <= g.sc && g.sc + g.cols <= s.maxx && 0 <= g.cols
    ensures 0 <= g.dr + line < d.maxy && 0 <= g.dc && g.dc + g.cols <= d.maxx
    ensures |s.cells| == s.maxy && |d.cells| == d.maxy && |s.cells[g.sr + line]| == s.maxx &&
            |d.cells[g.dr + line]| == d.maxx
  {
  }

  /** The columns CopyLine reports. */
  lemma LaidBounds(s: Win, d: Win, u: Win, g: Region, transparent: bool, line: int, stale: int, fc: int, lc: int)
    requires g.Fits(s, d) && 0 <= line < g.rows && 0 <= stale < d.maxx
    requires var t := Laid(s.cells[g.sr + line], g.sc, d.cells[g.dr + line], g.dc, g.cols, transparent);
             LineLaid(d, u, g.dr + line, g.dc, t, stale, fc, lc)
    ensures u.maxy == d.maxy && u.maxx == d.maxx && 0 <= lc < d.maxx && (fc == NO_CHANGE || 0 <= fc <= lc)
  {
    hide Laid, Splice, MinColumn, MaxColumn;
    ColumnsMerge(d.cells[g.dr + line], g.dc,
                 Laid(s.cells[g.sr + line], g.sc, d.cells[g.dr + line], g.dc, g.cols, transparent),
                 NO_CHANGE, NO_CHANGE);
  }

  /** A line laid and its columns merged is a line copied. */
  lemma LineMerged(s: Win, d: Win, u: Win, v: Win, g: Region, transparent: bool, line: int, stale: int,
                   fc: int, lc: int)
    requires g.Fits(s, d) && 0 <= line < g.rows
    requires var t := Laid(s.cells[g.sr + line], g.sc, d.cells[g.dr + line], g.dc, g.cols, transparent);
             LineLaid(d, u, g.dr + line, g.dc, t, stale, fc, lc)
    requires var r := g.dr + line;
             v == u.(first := u.first[r := if u.first[r] == NO_CHANGE || (fc != NO_CHANGE && fc < u.first[r])
                                           then fc else u.first[r]],
                     last := u.last[r := if u.first[r] == NO_CHANGE || (fc != NO_CHANGE && lc > u.last[r])
                                         then lc else u.last[r]])
    ensures SameFrame(d, v) && LineCopied(s, d, v, g, transparent, line)
  {
    hide Laid, Splice, MinColumn, MaxColumn;
    var r := g.dr + line;
    ColumnsMerge(d.cells[r], g.dc, Laid(s.cells[g.sr + line], g.sc, d.cells[r], g.dc, g.cols, transparent),
                 d.first[r], if d.first[r] == NO_CHANGE then NO_CHANGE else d.last[r]);
  }

  lemma CopiedNothing(s: Win, d: Win, g: Region, transparent: bool)
    requires g.Fits(s, d)
    ensures Copied(s, d, d, g.(rows := 0), transparent)
  {
  }

  lemma CopiedStep(s: Win, d: Win, u: Win, v: Win, g: Region, transparent: bool, line: int)
    requires g.Fits(s, d) && 0 <= line < g.rows
    requires Copied(s, d, u, g.(rows := line), transparent) && LineCopied(s, u, v, g, transparent, line)
    ensures Copied(s, d, v, g.(rows := line + 1), transparent)
  {
    hide Laid, Splice, MinColumn, MaxColumn;
    var g1 := g.(rows := line + 1);
    forall r | 0 <= r < d.maxy
      ensures RowCopied(s, d, v, g1, transparent, r)
    {
      assert RowCopied(s, d, u, g.(rows := line), transparent, r);
    }
  }

  /** Copying is drawing: the destination's damage stays complete. */
  lemma CopyDraws(s: Win, d: Win, v: Win, g: Region, transparent: bool)
    requires g.Fits(s, d) && Copied(s, d, v, g, transparent)
    ensures Draws(d, v)
  {
    hide RowCopied, DrawnAt, RawWin.Valid;
    forall r, x | 0 <= r < d.maxy && 0 <= x < d.maxx
      ensures DrawnAt(d, v, r, x)
    {
      assert RowCopied(s, d, v, g, transparent, r);
      CopiedCellDraws(s, d, v, g, transparent, r, x);
    }
  }

  lemma CopiedCellDraws(s: Win, d: Win, v: Win, g: Region, transparent: bool, r: int, x: int)
    requires SameFrame(d, v) && g.Fits(s, d) && 0 <= r < d.maxy && 0 <= x < d.maxx &&
             RowCopied(s, d, v, g, transparent, r)
    ensures DrawnAt(d, v, r, x)
  {
    hide Splice, Laid, MinColumn, MaxColumn;
    if g.dr <= r < g.dr + g.rows {
      var t := Laid(s.cells[r - g.dr + g.sr], g.sc, d.cells[r], g.dc, g.cols, transparent);
      LaidRowDraws(d.cells[r], g.dc, t, d.first[r], if d.first[r] == NO_CHANGE then NO_CHANGE else d.last[r], x);
    }
  }

  /** What a laid row changes, or had marked, lies between its new bounds. */
  lemma LaidRowDraws(row: Row, x: nat, t: Row, f: int, l: int, c: nat)
    requires x + |t| <= |row| && c < |row| && IsInterval(f, l, |row|)
    ensures (f != NO_CHANGE && f <= c <= l) || Splice(row, x, t)[c] != row[c] ==>
              MinColumn(row, x, t, f) != NO_CHANGE && MinColumn(row, x, t, f) <= c <= MaxColumn(row, x, t, l)
  {
    if Splice(row, x, t)[c] != row[c] {
      SpliceDiffers(row, x, t, f, l, c);
    }
    hide Splice;
    BoundsGrow(row, x, t, f, l);
  }

  lemma BoundsGrow(row: Row, x: nat, t: Row, f: int, l: int)
    requires x + |t| <= |row| && IsInterval(f, l, |row|)
    ensures f != NO_CHANGE ==> 0 <= MinColumn(row, x, t, f) <= f && l <= MaxColumn(row, x, t, l)
  {
  }

  /** Screen position (y, x) lies in w. */
  predicate InWindow(w: Win, y: int, x: int) {
    w.begy <= y < w.begy + w.maxy && w.begx <= x < w.begx + w.maxx
  }

  /** The region _copy_overlap computes. */
  function Common(s: Win, d: Win): Region {
    var col := Max(d.begx, s.begx);
    var line := Max(d.begy, s.begy);
    Region(line - s.begy, col - s.begx, line - d.begy, col - d.begx,
           Min(s.begy + s.maxy, d.begy + d.maxy) - line, Min(s.begx + s.maxx, d.begx + d.maxx) - col)
  }

  /** Whether the windows touch or overlap, the guard of _copy_overlap. */
  predicate Meets(s: Win, d: Win) { Common(s, d).rows >= 0 && Common(s, d).cols >= 0 }

  /** What the copy means on the screen: a destination cell whose screen position lies
      in both windows takes the source's cell there, unless that is a transparent blank;
      every other cell keeps its contents. */
  predicate LaidOver(s: Win, d: Win, v: Win, transparent: bool)
    requires SameFrame(d, v)
  {
    forall r, x | 0 <= r < d.maxy && 0 <= x < d.maxx :: CellLaidOver(s, d, v, transparent, r, x)
  }

  predicate CellLaidOver(s: Win, d: Win, v: Win, transparent: bool, r: int, x: int)
    requires SameFrame(d, v) && 0 <= r < d.maxy && 0 <= x < d.maxx
  {
    v.cells[r][x] ==
    if InWindow(s, d.begy + r, d.begx + x) then
      var c := s.cells[d.begy + r - s.begy][d.begx + x - s.begx];
      if transparent && c.text == SPACE then d.cells[r][x] else c
    else d.cells[r][x]
  }

  lemma CopiedOverlap(s: Win, d: Win, v: Win, transparent: bool)
    requires Meets(s, d) ==> Common(s, d).Fits(s, d) && Copied(s, d, v, Common(s, d), transparent)
    requires !Meets(s, d) ==> v == d
    ensures SameFrame(d, v) && LaidOver(s, d, v, transparent)
  {
    hide RowCopied, CellLaidOver, RawWin.Valid;
    forall r, x | 0 <= r < d.maxy && 0 <= x < d.maxx
      ensures CellLaidOver(s, d, v, transparent, r, x)
    {
      if Meets(s, d) {
        assert RowCopied(s, d, v, Common(s, d), transparent, r);
        CommonCell(s, d, v, transparent, r, x);
      } else {
        ApartCell(s, d, transparent, r, x);
      }
    }
  }

  lemma CommonCell(s: Win, d: Win, v: Win, transparent: bool, r: int, x: int)
    requires SameFrame(d, v) && Common(s, d).Fits(s, d) && 0 <= r < d.maxy && 0 <= x < d.maxx
    requires RowCopied(s, d, v, Common(s, d), transparent, r)
    ensures CellLaidOver(s, d, v, transparent, r, x)
  {
    hide MinColumn, MaxColumn;
  }

  lemma ApartCell(s: Win, d: Win, transparent: bool, r: int, x: int)
    requires !Meets(s, d) && 0 <= r < d.maxy && 0 <= x < d.maxx
    ensures CellLaidOver(s, d, d, transparent, r, x)
  {
  }

  lemma OverlapFits(s: Win, d: Win)
    requires Meets(s, d)
    ensures Common(s, d).Fits(s, d)
  {
  }

  lemma CopiedFields(s: Win, d: Win, v: Win, g: Region, transparent: bool)
    requires g.Fits(s, d) && Copied(s, d, v, g, transparent)
    ensures v == d.(cells := v.cells, first := v.first, last := v.last)
  {
  }

  /** The region copywin copies, cut to what the source has; with no columns left,
      where they would start does not matter. */
  function CopyRegionOf(maxy: int, maxx: int, sr: int, sc: int, dr: int, dc: int, br: int, bc: int): Region {
    var rows := Max(Min(maxy - sr, br - dr + 1), 0);
    var cols := Max(Min(maxx - sc, bc - dc + 1), 0);
    if cols == 0 then Region(sr, 0, dr, 0, rows, 0) else Region(sr, sc, dr, dc, rows, cols)
  }

  /** The cell (r, x) after copywin: inside the destination rectangle (dr, dc)-(br, bc) the
      source's, counted from (sr, sc), where the source has one and, in overlay mode, its
      text is no blank; anywhere else the destination's own. */
  function CopiedCell(s: Win, d: Win, sr: int, sc: int, dr: int, dc: int, br: int, bc: int, transparent: bool,
                      r: int, x: int): Chtype
    requires 0 <= sr && 0 <= sc && 0 <= r < d.maxy && 0 <= x < d.maxx
  {
    var (i, j) := (sr + (r - dr), sc + (x - dc));
    if dr <= r <= br && dc <= x <= bc && i < s.maxy && j < s.maxx && !(transparent && s.cells[i][j].text == SPACE)
    then s.cells[i][j] else d.cells[r][x]
  }

  /** That is what copying copywin's region leaves. */
  lemma CopyWinCell(s: Win, d: Win, v: Win, sr: int, sc: int, dr: int, dc: int, br: int, bc: int, transparent: bool,
                    r: int, x: int)
    requires 0 <= sr && 0 <= sc && 0 <= dr && 0 <= dc && br < d.maxy && bc < d.maxx
    requires var g := CopyRegionOf(s.maxy, s.maxx, sr, sc, dr, dc, br, bc);
             g.Fits(s, d) && Copied(s, d, v, g, transparent)
    requires 0 <= r < d.maxy && 0 <= x < d.maxx
    ensures SameFrame(d, v) && v.cells[r][x] == CopiedCell(s, d, sr, sc, dr, dc, br, bc, transparent, r, x)
  {
    hide MinColumn, MaxColumn;
    var g := CopyRegionOf(s.maxy, s.maxx, sr, sc, dr, dc, br, bc);
    assert RowCopied(s, d, v, g, transparent, r);
  }

  /** All cells after copywin. */
  predicate WinCopied(s: Win, d: Win, v: Win, sr: int, sc: int, dr: int, dc: int, br: int, bc: int, transparent: bool)
    requires 0 <= sr && 0 <= sc
  {
    SameFrame(d, v) && forall r, x | 0 <= r < d.maxy && 0 <= x < d.maxx ::
      v.cells[r][x] == CopiedCell(s, d, sr, sc, dr, dc, br, bc, transparent, r, x)
  }

  lemma CopyWinCells(s: Win, d: Win, v: Win, sr: int, sc: int, dr: int, dc: int, br: int, bc: int, transparent: bool)
    requires 0 <= sr && 0 <= sc && 0 <= dr && 0 <= dc && br < d.maxy && bc < d.maxx
    requires var g := CopyRegionOf(s.maxy, s.maxx, sr, sc, dr, dc, br, bc);
             g.Fits(s, d) && Copied(s, d, v, g, transparent)
    ensures WinCopied(s, d, v, sr, sc, dr, dc, br, bc, transparent)
  {
    hide Copied, CopiedCell, CopyRegionOf, Region.Fits;
    CopyWinCell(s, d, v, sr, sc, dr, dc, br, bc, transparent, 0, 0);
    forall r, x | 0 <= r < d.maxy && 0 <= x < d.maxx
      ensures v.cells[r][x] == CopiedCell(s, d, sr, sc, dr, dc, br, bc, transparent, r, x)
    {
      CopyWinCell(s, d, v, sr, sc, dr, dc, br, bc, transparent, r, x);
    }
  }

  /** Laying cells over a row that is already marked, or not, merges their columns. */
  lemma ColumnsMerge(row: Row, x: nat, t: Row, f: int, l: int)
    requires x + |t| <= |row| && IsInterval(f, l, |row|)
    ensures var (fc, lc) := (MinColumn(row, x, t, NO_CHANGE), MaxColumn(row, x, t, NO_CHANGE));
            && (fc == NO_CHANGE || 0 <= fc <= lc < |row|)
            && MinColumn(row, x, t, f) == (if fc != NO_CHANGE && (f == NO_CHANGE || fc < f) then fc else f)
            && MaxColumn(row, x, t, l) == (if fc != NO_CHANGE && lc > l then lc else l)
            && IsInterval(MinColumn(row, x, t, f), MaxColumn(row, x, t, l), |row|)
  {
    var lo := FirstDifference(t, row, x, 0);
    var hi := LastDifference(t, row, x, |t| - 1);
    assert lo == |t| <==> hi < 0;
  }

  // ---------------------------------------------------------------- touchoverlap

  /** touchoverlap: rows of d shared with s get exactly the shared columns as their
      interval, whatever was marked there before. */
  function TouchOverlap(s: Win, d: Win): (v: Win)
    ensures SameFrame(d, v)
  {
    var g := Common(s, d);
    if g.rows <= 0 || g.cols <= 0 then d else Spanned(d, g.dr, g.dr + g.rows, g.dc, g.dc + g.cols - 1)
  }

  /** Rows top..bottom-1 marked from column left to column right. */
  function Spanned(d: Win, top: int, bottom: int, left: int, right: int): (v: Win)
    requires 0 <= left <= right < d.maxx
    ensures SameFrame(d, v)
  {
    d.(first := seq(d.maxy, r requires 0 <= r < d.maxy => if top <= r < bottom then left else d.first[r]),
       last := seq(d.maxy, r requires 0 <= r < d.maxy => if top <= r < bottom then right else d.last[r]))
  }

  /** Afterwards a destination row that is also the source's, if the windows share columns,
      is marked exactly where its screen position lies in both; the other rows are as before. */
  lemma TouchOverlapMarks(s: Win, d: Win, r: int, x: int)
    requires 0 <= r < d.maxy && 0 <= x < d.maxx
    ensures var v := TouchOverlap(s, d);
            var (y, k) := (d.begy + r, d.begx + x);
            && v == d.(first := v.first, last := v.last)
            && (v.Damaged(r, x) <==>
                if s.begy <= y < s.begy + s.maxy && s.begx < d.begx + d.maxx && d.begx < s.begx + s.maxx
                then InWindow(s, y, k) else d.Damaged(r, x))
  {
  }

  /** No shared row is marked outside the shared columns. */
  predicate DamageInside(s: Win, d: Win) {
    var g := Common(s, d);
    g.rows <= 0 || g.cols <= 0 ||
    forall r, x | g.dr <= r < g.dr + g.rows && 0 <= x < d.maxx ::
           0 <= r < d.maxy && (d.Damaged(r, x) ==> g.dc <= x < g.dc + g.cols)
  }

  /** touchoverlap forgets damage exactly when a shared row was marked outside the
      shared columns. */
  lemma TouchOverlapDraws(s: Win, d: Win)
    ensures Draws(d, TouchOverlap(s, d)) <==> DamageInside(s, d)
  {
    var g := Common(s, d);
    var v := TouchOverlap(s, d);
    if g.rows > 0 && g.cols > 0 {
      if DamageInside(s, d) {
        assert forall r, x | 0 <= r < d.maxy && 0 <= x < d.maxx :: DrawnAt(d, v, r, x);
      } else {
        var r, x :| g.dr <= r < g.dr + g.rows && 0 <= x < d.maxx &&
            !(0 <= r < d.maxy && (d.Damaged(r, x) ==> g.dc <= x < g.dc + g.cols));
        assert !DrawnAt(d, v, r, x);
      }
    }
  }

  /** A letter just written in column 1 of a refreshed window; touchoverlap with a window
      over column 0 forgets it. */
  lemma TouchOverlapBreaks()
    ensures var d := AddCh(false, Move(UntouchWin(NewWin(1, 2, 0, 0, false)), 0, 1).win, Ch(0, 0, 0x41)).win;
            !Draws(d, TouchOverlap(NewWin(1, 1, 0, 0, false), d))
  {
    var s := NewWin(1, 1, 0, 0, false);
    var d := AddCh(false, Move(UntouchWin(NewWin(1, 2, 0, 0, false)), 0, 1).win, Ch(0, 0, 0x41)).win;
    BlendPrecedence(Ch(0, 0, 0), BLANK, Ch(0, 0, 0x41));
    assert d.Damaged(0, 1);
    TouchOverlapDraws(s, d);
  }

  // ---------------------------------------------------------------- resizing

  /** resize_window: the common rectangle kept, new cells plain blanks, everything
      marked, cursor and margins brought back inside. */
  function Resized(w: Win, nlines: int, ncols: int): (v: Win)
    requires 0 < nlines && 0 < ncols
    ensures v.maxy == nlines && v.maxx == ncols
  {
    RawWin(nlines, ncols, w.begy, w.begx, Min(w.cury, nlines - 1), Min(w.curx, ncols - 1),
           if w.tmarg > nlines - 1 then 0 else w.tmarg,
           if w.bmarg == w.maxy - 1 then nlines - 1 else Min(w.bmarg, nlines - 1),
           w.attrs, w.bkgd, w.clear, w.leaveit, w.scroll,
           seq(nlines, r requires 0 <= r < nlines =>
             seq(ncols, x requires 0 <= x < ncols => if r < w.maxy && x < w.maxx then w.cells[r][x] else BLANK)),
           Fill(0, nlines), Fill(ncols - 1, nlines))
  }

  /** resize_window, cell by cell, with the cursor as near as it can be to where it was, a
      bottom margin that stays at the last row, margins in order, and everything marked. */
  lemma ResizeEffect(w: Win, nlines: int, ncols: int, r: int, x: int)
    requires 0 < nlines && 0 < ncols && 0 <= r < nlines && 0 <= x < ncols
    ensures var v := Resized(w, nlines, ncols);
            && v.cells[r][x] == (if r < w.maxy && x < w.maxx then w.cells[r][x] else Ch(0, 0, 0x20))
            && v.Damaged(r, x) && v.begy == w.begy && v.begx == w.begx
            && (w.cury < nlines ==> v.cury == w.cury) && (w.cury >= nlines ==> v.cury == nlines - 1)
            && (w.curx < ncols ==> v.curx == w.curx) && (w.curx >= ncols ==> v.curx == ncols - 1)
            && (w.tmarg < nlines ==> v.tmarg == w.tmarg) && (w.tmarg >= nlines ==> v.tmarg == 0)
            && (w.bmarg == w.maxy - 1 || w.bmarg >= nlines ==> v.bmarg == nlines - 1)
            && (w.bmarg < w.maxy - 1 && w.bmarg < nlines ==> v.bmarg == w.bmarg)
            && v.attrs == w.attrs && v.bkgd == w.bkgd && v.scroll == w.scroll && v.leaveit == w.leaveit
            && v.clear == w.clear
  {
  }

  /** Copying the common rectangle into a fresh window gives the resized cells and
      leaves every row marked from edge to edge. */
  lemma CopyIntoFresh(w: Win, d: Win, v: Win)
    requires d.cells == Fill(Fill(BLANK, d.maxx), d.maxy) && d.first == Fill(0, d.maxy) &&
             d.last == Fill(d.maxx - 1, d.maxy)
    requires var g := Region(0, 0, 0, 0, Min(w.maxy, d.maxy), Min(w.maxx, d.maxx)); Copied(w, d, v, g, false)
    ensures v.cells == Resized(w, d.maxy, d.maxx).cells && v.first == d.first && v.last == d.last
  {
    hide RowCopied, Fill, Resized;
    var g := Region(0, 0, 0, 0, Min(w.maxy, d.maxy), Min(w.maxx, d.maxx));
    forall r | 0 <= r < d.maxy
      ensures v.cells[r] == Resized(w, d.maxy, d.maxx).cells[r] && v.first[r] == 0 && v.last[r] == d.maxx - 1
    {
      assert RowCopied(w, d, v, g, false, r);
      RowIntoFresh(w, d, v, g, r);
    }
  }

  lemma RowIntoFresh(w: Win, d: Win, v: Win, g: Region, r: int)
    requires SameFrame(d, v) && g == Region(0, 0, 0, 0, Min(w.maxy, d.maxy), Min(w.maxx, d.maxx)) && 0 <= r < d.maxy
    requires d.cells[r] == Fill(BLANK, d.maxx) && d.first[r] == 0 && d.last[r] == d.maxx - 1 &&
             RowCopied(w, d, v, g, false, r)
    ensures v.cells[r] == Resized(w, d.maxy, d.maxx).cells[r] && v.first[r] == 0 && v.last[r] == d.maxx - 1
  {
    if r < g.rows {
      var t := Laid(w.cells[r], 0, d.cells[r], 0, g.cols, false);
      ColumnsValid(d.cells[r], 0, t, 0, d.maxx - 1);
      BoundsGrow(d.cells[r], 0, t, 0, d.maxx - 1);
    }
    hide MinColumn, MaxColumn;
    assert v.cells[r] == Resized(w, d.maxy, d.maxx).cells[r];
  }

  /** The new window resize_window has built when it takes over the old one's fields:
      at the old origin, with the resized cells, wholly marked. */
  function Fresh(w: Win, nlines: int, ncols: int, full: bool, cury: int, curx: int): Win
    requires 0 <= cury < nlines && 0 <= curx < ncols
  {
    NewWin(nlines, ncols, w.begy, w.begx, full).(cells := Resized(w, nlines, ncols).cells, cury := cury, curx := curx)
  }

  lemma EraseFresh(nlines: int, ncols: int, top: int, left: int, full: bool)
    requires 0 < nlines && 0 < ncols
    ensures var w := NewWin(nlines, ncols, top, left, full);
            Erase(w) == w && 0 == w.cury < w.maxy == nlines && 0 == w.curx < w.maxx == ncols
  {
    var w := NewWin(nlines, ncols, top, left, full);
    var e := Erase(w);
    forall r | 0 <= r < nlines
      ensures e.cells[r] == w.cells[r] && e.first[r] == w.first[r] && e.last[r] == w.last[r]
    {
    }
    assert e.cells == w.cells && e.first == w.first && e.last == w.last;
  }

  lemma ResizedIs(w: Win, v: Win)
    requires v == Fresh(w, v.maxy, v.maxx, v.clear, v.cury, v.curx)
    ensures var t := if w.tmarg > v.maxy - 1 then 0 else w.tmarg;
            var b := if w.bmarg == w.maxy - 1 then v.maxy - 1 else Min(w.bmarg, v.maxy - 1);
            var (y, x) := (Min(w.cury, v.maxy - 1), Min(w.curx, v.maxx - 1));
            && 0 <= t <= b < v.maxy && 0 <= y < v.maxy && 0 <= x < v.maxx
            && Resized(w, v.maxy, v.maxx) ==
               v.(attrs := w.attrs, bkgd := w.bkgd, clear := w.clear, leaveit := w.leaveit, scroll := w.scroll,
                  tmarg := t, bmarg := b, cury := y, curx := x)
  {
  }

  lemma ResizedCells(w: Win, d: Win, v: Win, nlines: int, ncols: int, full: bool)
    requires 0 < nlines && 0 < ncols && d == NewWin(nlines, ncols, w.begy, w.begx, full)
    requires var g := CopyRegionOf(w.maxy, w.maxx, 0, 0, 0, 0, Min(w.maxy, nlines) - 1, Min(w.maxx, ncols) - 1);
             g.Fits(w, d) && Copied(w, d, v, g, false)
    ensures v.maxy == nlines && v.maxx == ncols && v.cury == v.curx == 0 && v == Fresh(w, nlines, ncols, full, 0, 0) &&
            v.clear == full
  {
    CopyIntoFresh(w, d, v);
  }

  /** Growing a window and shrinking it back gives the window as it was, wholly marked;
      the other way round only the smaller rectangle survives. */
  lemma GrowThenShrink(w: Win, nlines: int, ncols: int)
    requires w.maxy <= nlines && w.maxx <= ncols
    ensures Resized(Resized(w, nlines, ncols), w.maxy, w.maxx) == TouchWin(w)
  {
    var v := Resized(Resized(w, nlines, ncols), w.maxy, w.maxx);
    forall r | 0 <= r < w.maxy
      ensures v.cells[r] == w.cells[r]
    {
    }
    assert v.cells == w.cells && v.first == TouchWin(w).first && v.last == TouchWin(w).last;
  }

  lemma ShrinkThenGrow(w: Win, nlines: int, ncols: int, r: int, x: int)
    requires 0 < nlines <= w.maxy && 0 < ncols <= w.maxx && 0 <= r < w.maxy && 0 <= x < w.maxx
    ensures Resized(Resized(w, nlines, ncols), w.maxy, w.maxx).cells[r][x] ==
            if r < nlines && x < ncols then w.cells[r][x] else BLANK
  {
  }
}
