/** The copy loops of overlay.c, touchoverlap, and resize_window on WINDOW objects. */
module Overlaps {
  import opened Cells
  import opened WindowModel
  import opened Windows
  import opened Damage
  import opened OverlapModel
  import Model = OverlapModel

  /** The innermost step of _copy_win: store c unless it is there already or is a
      transparent blank, and note the column. */
  method CopyCell(dst: Window, r: int, x: int, c: Chtype, transparent: bool, first: int, last: int)
    returns (fc: int, lc: int)
    requires dst.Valid() && 0 <= r < dst.m.maxy && 0 <= x < dst.m.maxx
    modifies dst.Repr
    ensures dst.Valid() && dst.Repr == old(dst.Repr)
    ensures var was := old(dst.m).cells[r][x];
            var now := if transparent && c.text == SPACE then was else c;
            && dst.m == old(dst.m).(cells := old(dst.m).cells[r := old(dst.m).cells[r][x := now]])
            && if now == was then fc == first && lc == last
               else fc == (if first == NO_CHANGE then x else first) && lc == x
  {
    hide Window.Valid;
    dst.RowAgrees(r);
    fc, lc := first, last;
    if c != dst.y[r][x] && !(c.text == SPACE && transparent) {
      dst.SetCell(r, x, c);
      if fc == NO_CHANGE {
        fc := x;
      }
      lc := x;
    } else {
      ghost var row := dst.m.cells[r];
      assert row[x := row[x]] == row && dst.m.cells[r := row] == dst.m.cells;
    }
  }

  /** One line of _copy_win: fc and lc are the first and last columns stored, lc
      keeping its value from the line before when nothing is. */
  method CopyLine(src: Window, dst: Window, sr: int, sc: int, dr: int, dc: int, n: nat, transparent: bool, stale: int)
    returns (fc: int, lc: int)
    requires src.Valid() && dst.Valid() && src.Repr !! dst.Repr
    requires 0 <= sr < src.m.maxy && 0 <= sc && sc + n <= src.m.maxx
    requires 0 <= dr < dst.m.maxy && 0 <= dc && dc + n <= dst.m.maxx
    modifies dst.Repr
    ensures dst.Valid() && dst.Repr == old(dst.Repr)
    ensures LineLaid(old(dst.m), dst.m, dr, dc, Laid(src.m.cells[sr], sc, old(dst.m).cells[dr], dc, n, transparent),
                     stale, fc, lc)
  {
    hide *;
    src.FieldsAgree();
    src.RowAgrees(sr);
    dst.RowAgrees(dr);
    ghost var d, row, srow := dst.m, dst.m.cells[dr], src.m.cells[sr];
    ghost var t := Laid(srow, sc, row, dc, n, transparent);
    LineLaidNone(d, dr, dc, stale);
    assert t[..0] == [];
    fc, lc := NO_CHANGE, stale;
    var col := 0;
    while col < n
      invariant 0 <= col <= n
      invariant dst.Valid() && dst.Repr == old(dst.Repr)
      invariant LineLaid(d, dst.m, dr, dc, t[..col], stale, fc, lc)
    {
      src.RowAgrees(sr);
      LineUntouched(d, dst.m, dr, dc, t[..col], stale, fc, lc);
      LaidAt(srow, sc, row, dc, n, transparent, col);
      ghost var u, f, l := dst.m, fc, lc;
      fc, lc := CopyCell(dst, dr, dc + col, src.y[sr][sc + col], transparent, fc, lc);
      assert t[..col + 1] == t[..col] + [t[col]];
      LineLaidStep(d, u, dst.m, dr, dc, t[..col], t[col], stale, f, l, fc, lc);
      col := col + 1;
    }
    assert t[..n] == t;
  }

  /** A line of _copy_win with the merge of its columns into the line's interval. */
  method CopyAndMark(src: Window, dst: Window, g: Region, line: int, transparent: bool, stale: int) returns (lc: int)
    requires src.Valid() && dst.Valid() && src.Repr !! dst.Repr && g.Fits(src.m, dst.m) && 0 <= line < g.rows
    requires 0 <= stale < dst.m.maxx
    modifies dst.Repr
    ensures dst.Valid() && dst.Repr == old(dst.Repr) && 0 <= lc < dst.m.maxx
    ensures SameFrame(old(dst.m), dst.m) && LineCopied(src.m, old(dst.m), dst.m, g, transparent, line)
  {
    hide *;
    src.FieldsAgree();
    RegionLine(src.m, dst.m, g, line);
    ghost var d := dst.m;
    var fc;
    fc, lc := CopyLine(src, dst, g.sr + line, g.sc, g.dr + line, g.dc, g.cols, transparent, stale);
    ghost var u := dst.m;
    LaidBounds(src.m, d, u, g, transparent, line, stale, fc, lc);
    MergeSpan(dst, g.dr + line, fc, lc);
    LineMerged(src.m, d, u, dst.m, g, transparent, line, stale, fc, lc);
  }

  /** One line's changed columns merged into its interval; a clean row takes them as they are. */
  method MergeSpan(dst: Window, r: int, fc: int, lc: int)
    requires dst.Valid() && 0 <= r < dst.m.maxy && 0 <= lc < dst.m.maxx && (fc == NO_CHANGE || 0 <= fc <= lc)
    modifies dst.Repr
    ensures dst.Valid() && dst.Repr == old(dst.Repr)
    ensures var d := old(dst.m);
            dst.m == d.(first := d.first[r := if d.first[r] == NO_CHANGE || (fc != NO_CHANGE && fc < d.first[r])
                                              then fc else d.first[r]],
                        last := d.last[r := if d.first[r] == NO_CHANGE || (fc != NO_CHANGE && lc > d.last[r])
                                            then lc else d.last[r]])
  {
    hide Window.Valid;
    ghost var d := dst.m;
    dst.RowAgrees(r);
    assert d.first[r := d.first[r]] == d.first && d.last[r := d.last[r]] == d.last;
    if dst.firstch[r] == NO_CHANGE {
      dst.SetInterval(r, fc, lc);
    } else if fc != NO_CHANGE {
      var f, l := dst.firstch[r], dst.lastch[r];
      if fc < f {
        f := fc;
      }
      if lc > l {
        l := lc;
      }
      dst.SetInterval(r, f, l);
    }
  }

  /** _copy_win. */
  method CopyWin(src: Window, dst: Window, g: Region, transparent: bool)
    requires src.Valid() && dst.Valid() && src.Repr !! dst.Repr && g.Fits(src.m, dst.m)
    modifies dst.Repr
    ensures dst.Valid() && dst.Repr == old(dst.Repr) && Copied(src.m, old(dst.m), dst.m, g, transparent)
  {
    hide Window.Valid, Copied, LineCopied;
    src.FieldsAgree();
    dst.FieldsAgree();
    CopiedNothing(src.m, dst.m, g, transparent);
    var lc := 0;
    var line := 0;
    while line < g.rows
      invariant 0 <= line <= g.rows && 0 <= lc < dst.m.maxx && SameFrame(old(dst.m), dst.m)
      invariant dst.Valid() && dst.Repr == old(dst.Repr)
      invariant Copied(src.m, old(dst.m), dst.m, g.(rows := line), transparent)
    {
      ghost var u := dst.m;
      lc := CopyAndMark(src, dst, g, line, transparent, lc);
      CopiedStep(src.m, old(dst.m), u, dst.m, g, transparent, line);
      line := line + 1;
    }
    assert g.(rows := line) == g;
  }

  /** _copy_overlap: overlay (transparent) and overwrite. */
  method CopyOverlap(src: Window, dst: Window, transparent: bool)
    requires src.Valid() && dst.Valid() && src.Repr !! dst.Repr
    modifies dst.Repr
    ensures dst.Valid() && dst.Repr == old(dst.Repr)
    ensures Draws(old(dst.m), dst.m) && LaidOver(src.m, old(dst.m), dst.m, transparent)
    ensures if Meets(src.m, old(dst.m))
            then Common(src.m, old(dst.m)).Fits(src.m, old(dst.m)) &&
                 Copied(src.m, old(dst.m), dst.m, Common(src.m, old(dst.m)), transparent)
            else dst.m == old(dst.m)
  {
    hide Window.Valid, RawWin.Valid, Copied, Draws, LaidOver;
    src.FieldsAgree();
    dst.FieldsAgree();
    var firstCol := if dst.begx > src.begx then dst.begx else src.begx;
    var firstLine := if dst.begy > src.begy then dst.begy else src.begy;
    var lastCol := if src.begx + src.maxx < dst.begx + dst.maxx then src.begx + src.maxx else dst.begx + dst.maxx;
    var lastLine := if src.begy + src.maxy < dst.begy + dst.maxy then src.begy + src.maxy else dst.begy + dst.maxy;
    if lastCol < firstCol || lastLine < firstLine {
      CopiedOverlap(src.m, dst.m, dst.m, transparent);
      DrawsItself(dst.m);
      return;
    }
    var (sx, dx) := if src.begx <= dst.begx then (dst.begx - src.begx, 0) else (0, src.begx - dst.begx);
    var (sy, dy) := if src.begy <= dst.begy then (dst.begy - src.begy, 0) else (0, src.begy - dst.begy);
    var g := Region(sy, sx, dy, dx, lastLine - firstLine, lastCol - firstCol);
    LayOver(src, dst, g, transparent);
  }

  /** The copy of the common region. */
  method LayOver(src: Window, dst: Window, g: Region, transparent: bool)
    requires src.Valid() && dst.Valid() && src.Repr !! dst.Repr && Meets(src.m, dst.m) && g == Common(src.m, dst.m)
    modifies dst.Repr
    ensures dst.Valid() && dst.Repr == old(dst.Repr)
    ensures Draws(old(dst.m), dst.m) && LaidOver(src.m, old(dst.m), dst.m, transparent)
    ensures g.Fits(src.m, old(dst.m)) && Copied(src.m, old(dst.m), dst.m, g, transparent)
  {
    hide *;
    src.FieldsAgree();
    ghost var d := dst.m;
    OverlapFits(src.m, d);
    CopyWin(src, dst, g, transparent);
    CopyDraws(src.m, d, dst.m, g, transparent);
    CopiedOverlap(src.m, d, dst.m, transparent);
  }

  /** copywin, which refuses to write on curscr; the source's coordinates are its
      caller's business. */
  method CopyWinChecked(src: Window, dst: Window, onCurscr: bool, sr: int, sc: int, dr: int, dc: int,
                        br: int, bc: int, transparent: bool)
    returns (ok: bool)
    requires src.Valid() && dst.Valid() && src.Repr !! dst.Repr && 0 <= sr && 0 <= sc
    modifies dst.Repr
    ensures dst.Valid() && dst.Repr == old(dst.Repr)
    ensures ok <==> !onCurscr && br < dst.m.maxy && bc < dst.m.maxx && dr >= 0 && dc >= 0
    ensures !ok ==> dst.m == old(dst.m)
    ensures ok ==> var g := CopyRegionOf(src.m.maxy, src.m.maxx, sr, sc, dr, dc, br, bc);
                   g.Fits(src.m, old(dst.m)) && Copied(src.m, old(dst.m), dst.m, g, transparent)
    ensures ok ==> WinCopied(src.m, old(dst.m), dst.m, sr, sc, dr, dc, br, bc, transparent)
  {
    hide Window.Valid, Copied, WinCopied;
    src.FieldsAgree();
    dst.FieldsAgree();
    if onCurscr || br >= dst.maxy || bc >= dst.maxx || dr < 0 || dc < 0 {
      return false;
    }
    ghost var d := dst.m;
    var g := CopyRegionOf(src.maxy, src.maxx, sr, sc, dr, dc, br, bc);
    CopyWin(src, dst, g, transparent);
    CopiedFields(src.m, d, dst.m, g, transparent);
    CopyWinCells(src.m, d, dst.m, sr, sc, dr, dc, br, bc, transparent);
    return true;
  }

  /** touchoverlap. */
  method TouchOverlap(win1: Window, win2: Window)
    requires win1.Valid() && win2.Valid() && win1.Repr !! win2.Repr
    modifies win2.Repr
    ensures win2.Valid() && win2.Repr == old(win2.Repr) && win2.m == Model.TouchOverlap(win1.m, old(win2.m))
  {
    hide Window.Valid, RawWin.Valid, Spanned;
    win1.FieldsAgree();
    win2.FieldsAgree();
    var starty := (if win1.begy > win2.begy then win1.begy else win2.begy);
    var startx := (if win1.begx > win2.begx then win1.begx else win2.begx);
    var endy := Min(win1.maxy + win1.begy, win2.maxy + win2.begy);
    var endx := Min(win1.maxx + win1.begx, win2.maxx + win2.begx);
    if starty >= endy || startx >= endx {
      return;
    }
    MarkSpan(win2, starty - win2.begy, endy - win2.begy, startx - win2.begx, endx - win2.begx - 1);
  }

  /** The loop of touchoverlap. */
  method MarkSpan(win: Window, starty: int, endy: int, startx: int, endx: int)
    requires win.Valid() && 0 <= starty <= endy <= win.m.maxy && 0 <= startx <= endx < win.m.maxx
    modifies win.Repr
    ensures win.Valid() && win.Repr == old(win.Repr) && win.m == Spanned(old(win.m), starty, endy, startx, endx)
  {
    hide Window.Valid;
    ghost var d := win.m;
    assert d.first == Spanned(d, starty, starty, startx, endx).first &&
           d.last == Spanned(d, starty, starty, startx, endx).last;
    var r := starty;
    while r < endy
      invariant starty <= r <= endy
      invariant win.Valid() && win.Repr == old(win.Repr) && win.m == Spanned(d, starty, r, startx, endx)
    {
      win.SetInterval(r, startx, endx);
      r := r + 1;
      assert win.m.first == Spanned(d, starty, r, startx, endx).first;
      assert win.m.last == Spanned(d, starty, r, startx, endx).last;
    }
  }

  /** resize_window on a top-level window of a screen of lines x cols: new arrays,
      filled from the old ones. */
  method ResizeWindow(win: Window, nlines: int, ncols: int, lines: int, cols: int)
    requires win.Valid() && 0 < nlines && 0 < ncols
    modifies win
    ensures win.Valid() && fresh(win.Repr - {win}) && win.m == Resized(old(win.m), nlines, ncols)
  {
    hide Window.Valid, RawWin.Valid, Copied, NewWin, Erase, Fresh, Resized;
    win.FieldsAgree();
    var nw := new Window(nlines, ncols, win.begy, win.begx, lines, cols);
    var saveCurx, saveCury := Min(win.curx, ncols - 1), Min(win.cury, nlines - 1);
    nw.Erase();
    EraseFresh(nlines, ncols, win.begy, win.begx, nlines == lines && ncols == cols);
    ghost var d := nw.m;
    var ok := CopyWinChecked(win, nw, false, 0, 0, 0, 0, Min(win.maxy, nlines) - 1, Min(win.maxx, ncols) - 1, false);
    ResizedCells(win.m, d, nw.m, nlines, ncols, nlines == lines && ncols == cols);
    CarryOver(win, nw, saveCury, saveCurx);
    nw.FieldsAgree();
    Assign(win, nw);
  }

  /** The end of resize_window: the new window gets the old one's margins and flags. */
  method CarryOver(win: Window, nw: Window, saveCury: int, saveCurx: int)
    requires win.Valid() && nw.Valid() && win.Repr !! nw.Repr
    requires nw.m == Fresh(win.m, nw.m.maxy, nw.m.maxx, nw.m.clear, nw.m.cury, nw.m.curx)
    requires saveCury == Min(win.m.cury, nw.m.maxy - 1) && saveCurx == Min(win.m.curx, nw.m.maxx - 1)
    modifies nw.Repr
    ensures nw.Valid() && nw.Repr == old(nw.Repr) && nw.m == Resized(win.m, old(nw.m).maxy, old(nw.m).maxx)
  {
    hide *;
    win.FieldsAgree();
    nw.FieldsAgree();
    ResizedIs(win.m, nw.m);
    nw.CarryFlags(win);
    nw.SetMargins(if win.tmarg > nw.maxy - 1 then 0 else win.tmarg,
                  if win.bmarg == win.maxy - 1 then nw.maxy - 1 else Min(win.bmarg, nw.maxy - 1));
    nw.Place(saveCury, saveCurx);
  }

  /** `*win = *new`. */
  method Assign(win: Window, nw: Window)
    requires nw.Valid() && win !in nw.Repr
    modifies win
    ensures win.Valid() && win.Repr == nw.Repr - {nw} + {win} && win.m == nw.m
  {
    hide Window.Valid;
    nw.FieldsAgree();
    win.TakeGeometry(nw);
    win.TakeFlags(nw);
    TakeArrays(win, nw);
  }

  method TakeArrays(win: Window, nw: Window)
    requires nw.Valid() && win !in nw.Repr
    requires win.Resembles(nw)
    modifies win`y, win`firstch, win`lastch, win`Repr, win`m
    ensures win.Valid() && win.Repr == nw.Repr - {nw} + {win} && win.m == nw.m
  {
    hide RawWin.Valid, Distinct, Contents;
    win.y, win.firstch, win.lastch := nw.y, nw.firstch, nw.lastch;
    win.Repr, win.m := nw.Repr - {nw} + {win}, nw.m;
  }
}
