/** The screen: curscr, the image doupdate last sent (lastscr), the adapter, and the
    refresh pipeline between them. */
module Screens {
  import opened Cells
  import opened WindowModel
  import opened Damage
  import opened RefreshModel
  import opened Adapters
  import opened Windows

  /** The runs of one line as calls of PDC_transform_line. */
  function Sends(line: int, runs: seq<Run>): (s: seq<Send>)
    ensures |s| == |runs|
  {
    seq(|runs|, i requires 0 <= i < |runs| => Send(line, runs[i].x, runs[i].len))
  }

  /** The screen shows g. */
  ghost predicate Displays(cfg: Config, shown: seq<seq<VCell>>, g: Grid)
    requires cfg.Valid()
  {
    |shown| == |g| && forall r | 0 <= r < |g| :: shown[r] == RenderRow(cfg, g[r])
  }

  /** The state of doupdate on one line: src is curscr's row, d the row of lastscr the
      line began with, `row` what lastscr holds now and `shown` what the display shows.
      Columns first0..first-1 are done. */
  ghost predicate Sending(cfg: Config, src: Row, d: Row, row: Row, shown: seq<VCell>, line: int,
                          first0: int, first: int, last: int, log: seq<Send>, sent: seq<Send>)
  {
    && cfg.Valid() && 0 <= first0 <= first <= last + 1 <= |src| == |d|
    && row == Splice(d, first0, src[first0..first])
    && shown == RenderRow(cfg, row)
    && sent + Sends(line, Runs(src, d, first, last)) == log + Sends(line, Runs(src, d, first0, last))
  }

  lemma SendStart(cfg: Config, src: Row, d: Row, line: int, first: int, last: int, log: seq<Send>)
    requires cfg.Valid() && 0 <= first <= last + 1 <= |src| == |d|
    ensures Sending(cfg, src, d, d, RenderRow(cfg, d), line, first, first, last, log, log)
  {
  }

  /** The columns still to do are as they were. */
  lemma SendAhead(cfg: Config, src: Row, d: Row, row: Row, shown: seq<VCell>, line: int,
                  first0: int, first: int, last: int, log: seq<Send>, sent: seq<Send>)
    requires Sending(cfg, src, d, row, shown, line, first0, first, last, log, sent)
    ensures |row| == |d| == |src| == |shown| && 0 <= first <= last + 1 <= |src|
    ensures SameAhead(row, d, first, last)
  {
  }

  /** Columns first..last agree. */
  ghost predicate SameAhead(row: Row, d: Row, first: int, last: int) {
    0 <= first && last < |row| == |d| && forall k | first <= k <= last :: row[k] == d[k]
  }

  /** A run that has been copied leaves the columns behind it alone. */
  lemma StillAhead(row: Row, d: Row, first: int, last: int, part: Row)
    requires SameAhead(row, d, first, last) && first + |part| <= last + 1
    ensures first + |part| <= |row| && SameAhead(Splice(row, first, part), d, first + |part|, last)
  {
  }

  lemma SendsCons(line: int, r: Run, runs: seq<Run>)
    ensures Sends(line, [r] + runs) == [Send(line, r.x, r.len)] + Sends(line, runs)
  {
  }

  /** Sending a run, if there is one, and skipping to the next changed cell. */
  lemma SendStep(cfg: Config, src: Row, d: Row, row: Row, shown: seq<VCell>, line: int,
                 first0: int, first: int, last: int, log: seq<Send>, sent: seq<Send>, len: nat, next: int)
    requires Sending(cfg, src, d, row, shown, line, first0, first, last, log, sent) && first <= last
    requires len == RunLen(src, d, first, last, 0) && next == SkipSame(src, d, first + len, last)
    ensures first < next && first + len <= last + 1 && |row| == |shown| == |src|
    ensures len == 0 ==> Sending(cfg, src, d, row, shown, line, first0, next, last, log, sent)
    ensures len > 0 ==>
              Sending(cfg, src, d, Splice(row, first, src[first..first + len]),
                      Splice(shown, first, RenderRow(cfg, src[first..first + len])), line,
                      first0, next, last, log, sent + [Send(line, first, len)])
  {
    hide Splice, RenderRow, RunLen, SkipSame, Sends, Runs;
    RunsUnfold(src, d, first, last);
    var part := src[first..first + len];
    var rest := Runs(src, d, next, last);
    RowStep(src, d, row, first0, first, first + len, next);
    ShownStep(cfg, row, first, part);
    if len > 0 {
      SendsCons(line, Run(first, len), rest);
      assert sent + ([Send(line, first, len)] + Sends(line, rest)) ==
             sent + [Send(line, first, len)] + Sends(line, rest);
    } else {
      assert Splice(row, first, part) == row by { EmptySplice(row, first, part); }
    }
  }

  lemma RowStep(src: Row, d: Row, row: Row, first0: int, first: int, mid: int, next: int)
    requires 0 <= first0 <= first <= mid <= next <= |src| == |d| && row == Splice(d, first0, src[first0..first])
    requires forall k | mid <= k < next :: src[k] == d[k]
    ensures |row| == |d| && Splice(row, first, src[first..mid]) == Splice(d, first0, src[first0..next])
  {
  }

  lemma ShownStep(cfg: Config, row: Row, x: int, part: Row)
    requires cfg.Valid() && 0 <= x && x + |part| <= |row|
    ensures Splice(RenderRow(cfg, row), x, RenderRow(cfg, part)) == RenderRow(cfg, Splice(row, x, part))
  {
  }

  /** The same for the whole of lastscr (w, was w0) and the display. */
  ghost predicate InLine(cfg: Config, src: Row, w0: Win, w: Win, shown0: seq<seq<VCell>>, shown: seq<seq<VCell>>,
                         line: int, first0: int, first: int, last: int, log: seq<Send>, sent: seq<Send>)
  {
    && 0 <= line < w0.maxy == w.maxy == |shown0| && w.maxx == w0.maxx && |shown| == |shown0|
    && w == w0.(cells := w0.cells[line := w.cells[line]])
    && shown == shown0[line := shown[line]]
    && Sending(cfg, src, w0.cells[line], w.cells[line], shown[line], line, first0, first, last, log, sent)
  }

  lemma InLineStart(cfg: Config, src: Row, w: Win, shown: seq<seq<VCell>>, line: int, first: int, last: int,
                    log: seq<Send>)
    requires cfg.Valid() && 0 <= line < w.maxy == |shown| && 0 <= first <= last + 1 <= |src| == w.maxx
    requires shown[line] == RenderRow(cfg, w.cells[line])
    ensures InLine(cfg, src, w, w, shown, shown, line, first, first, last, log, log)
  {
    SendStart(cfg, src, w.cells[line], line, first, last, log);
  }

  lemma InLineAhead(cfg: Config, src: Row, w0: Win, w: Win, shown0: seq<seq<VCell>>, shown: seq<seq<VCell>>,
                    line: int, first0: int, first: int, last: int, log: seq<Send>, sent: seq<Send>)
    requires InLine(cfg, src, w0, w, shown0, shown, line, first0, first, last, log, sent)
    ensures |w0.cells| == |w.cells| == w.maxy == w0.maxy == |shown| > line >= 0 && 0 <= first <= last + 1
    ensures |w.cells[line]| == |w0.cells[line]| == |src| == w.maxx >= last + 1
    ensures SameAhead(w.cells[line], w0.cells[line], first, last)
  {
    SendAhead(cfg, src, w0.cells[line], w.cells[line], shown[line], line, first0, first, last, log, sent);
  }

  lemma InLineStep(cfg: Config, src: Row, w0: Win, w: Win, shown0: seq<seq<VCell>>, shown: seq<seq<VCell>>,
                   line: int, first0: int, first: int, last: int, log: seq<Send>, sent: seq<Send>, len: nat, next: int)
    requires InLine(cfg, src, w0, w, shown0, shown, line, first0, first, last, log, sent) &&
             first <= last < |src| == w0.maxx
    requires len == RunLen(src, w0.cells[line], first, last, 0) &&
             next == SkipSame(src, w0.cells[line], first + len, last)
    ensures first < next && first + len <= last + 1
    ensures len == 0 ==> InLine(cfg, src, w0, w, shown0, shown, line, first0, next, last, log, sent)
    ensures |w.cells| == |shown| == w.maxy > line >= 0 && |w.cells[line]| == |shown[line]| == |src|
    ensures len > 0 ==>
              var part := src[first..first + len];
              InLine(cfg, src, w0, w.(cells := w.cells[line := Splice(w.cells[line], first, part)]),
                     shown0, shown[line := Splice(shown[line], first, RenderRow(cfg, part))],
                     line, first0, next, last, log, sent + [Send(line, first, len)])
  {
    InLineAhead(cfg, src, w0, w, shown0, shown, line, first0, first, last, log, sent);
    hide Sending, Splice, RenderRow, RunLen, SkipSame;
    SendStep(cfg, src, w0.cells[line], w.cells[line], shown[line], line, first0, first, last, log, sent, len, next);
    if len > 0 {
      var row := Splice(w.cells[line], first, src[first..first + len]);
      assert w0.cells[line := w.cells[line]][line := row] == w0.cells[line := row];
    }
  }

  lemma InLineDone(cfg: Config, src: Row, w0: Win, w: Win, shown0: seq<seq<VCell>>, shown: seq<seq<VCell>>,
                   line: int, first0: int, first: int, last: int, log: seq<Send>, sent: seq<Send>)
    requires InLine(cfg, src, w0, w, shown0, shown, line, first0, first, last, log, sent) && first > last
    ensures 0 <= line < |w0.cells| == |shown0| && 0 <= first0 <= last + 1 <= |src| == |w0.cells[line]|
    ensures w == w0.(cells := w0.cells[line := Splice(w0.cells[line], first0, src[first0..last + 1])])
    ensures 0 <= line < |w.cells| && shown == shown0[line := RenderRow(cfg, w.cells[line])]
    ensures sent == log + Sends(line, Runs(src, w0.cells[line], first0, last))
  {
    SendDone(cfg, src, w0.cells[line], w.cells[line], shown[line], line, first0, first, last, log, sent);
  }

  lemma SendDone(cfg: Config, src: Row, d: Row, row: Row, shown: seq<VCell>, line: int,
                 first0: int, first: int, last: int, log: seq<Send>, sent: seq<Send>)
    requires Sending(cfg, src, d, row, shown, line, first0, first, last, log, sent) && first > last
    ensures row == Splice(d, first0, src[first0..last + 1]) && shown == RenderRow(cfg, row)
    ensures sent == log + Sends(line, Runs(src, d, first0, last))
  {
  }

  /** curscr and lastscr as initscr leaves them. */
  function Curscr(lines: nat, cols: nat, preserve: bool): Win
    requires 0 < lines && 0 < cols
  {
    var w := NewWin(lines, cols, 0, 0, true);
    if preserve then UntouchWin(w).(clear := false) else w.(clear := true)
  }

  function Lastscr(lines: nat, cols: nat): Win
    requires 0 < lines && 0 < cols
  {
    Erase(NewWin(lines, cols, 0, 0, true).(attrs := Ch(0xff, 0xff, 0)))
  }

  /** They are of one size and blank; nothing differs between them. */
  lemma ScreensFrames(lines: nat, cols: nat, preserve: bool)
    requires 0 < lines && 0 < cols
    ensures var (c, l) := (Curscr(lines, cols, preserve), Lastscr(lines, cols));
            && SameFrame(c, l) && c.maxy == lines && c.maxx == cols && c.begy == c.begx == 0
            && c.clear == !preserve && l.cells == c.cells == Fill(Fill(BLANK, cols), lines) && Covers(c, l.cells)
  {
    var (c, l) := (Curscr(lines, cols, preserve), Lastscr(lines, cols));
    forall r | 0 <= r < lines
      ensures l.cells[r] == c.cells[r]
    {
    }
    assert l.cells == c.cells;
  }

  method FreshScreens(lines: nat, cols: nat, preserve: bool) returns (cur: Window, last: Window)
    requires 0 < lines && 0 < cols
    ensures cur.Valid() && last.Valid() && fresh(cur.Repr) && fresh(last.Repr) && cur.Repr !! last.Repr
    ensures cur.m == Curscr(lines, cols, preserve) && last.m == Lastscr(lines, cols)
    ensures SameFrame(cur.m, last.m) && cur.m.maxy == lines && cur.m.maxx == cols && cur.m.begy == cur.m.begx == 0
    ensures cur.m.clear == !preserve && Covers(cur.m, last.m.cells)
  {
    hide Window.Valid, RawWin.Valid, Erase, NewWin, Covers, UntouchWin;
    cur := new Window(lines, cols, 0, 0, lines, cols);
    last := new Window(lines, cols, 0, 0, lines, cols);
    last.AttrSet(Ch(0xff, 0xff, 0));
    last.Erase();
    if preserve {
      cur.UntouchWin();
    }
    cur.ClearOk(!preserve);
    ScreensFrames(lines, cols, preserve);
  }

  lemma SliceOf(a: array<Chtype>, i: int, j: int)
    requires 0 <= i <= j <= a.Length
    ensures a[i..j] == a[..][i..j]
  {
  }

  class Screen {
    const curscr: Window
    const lastscr: Window
    const adapter: Adapter
    var cfg: Config
    /** SP->alive: FALSE between endwin and the next update. */
    var alive: bool
    var visibility: bool
    var cursrow: int
    var curscol: int

    ghost function Repr(): set<object>
      reads this, curscr, lastscr
    {
      {this, adapter, adapter.video} + curscr.Repr + lastscr.Repr
    }

    /** The parts are valid, of one size, and apart from each other. */
    ghost predicate Parts()
      reads `cfg, adapter`shown, adapter.video, curscr, curscr.Repr, lastscr, lastscr.Repr
    {
      && curscr.Valid() && lastscr.Valid() && adapter.Valid() && cfg.Valid()
      && curscr.Repr !! lastscr.Repr && {this, adapter, adapter.video} !! curscr.Repr + lastscr.Repr
      && curscr.m.maxy == lastscr.m.maxy == adapter.lines && curscr.m.maxx == lastscr.m.maxx == adapter.cols
      && curscr.m.begy == curscr.m.begx == 0
    }

    /** Unless a full repaint is pending, the display shows lastscr and curscr's damage
        covers where it differs. */
    ghost predicate InSync()
      requires cfg.Valid()
      reads `cfg, `alive, adapter`shown, curscr`m, lastscr`m
    {
      curscr.m.clear || !alive ||
      (Displays(cfg, adapter.shown, lastscr.m.cells) && Covers(curscr.m, lastscr.m.cells))
    }

    ghost predicate Valid()
      reads `cfg, `alive, adapter`shown, adapter.video, curscr, curscr.Repr, lastscr, lastscr.Repr
    {
      Parts() && InSync()
    }

    /** The screen part of initscr: two fresh windows, and a full repaint pending unless
        the old screen is to be preserved. Then nothing is marked either, and lastscr is
        taken for what is on the display, which it is only if that was blank. */
    constructor (lines: nat, cols: nat, adapter: Adapter, cfg: Config, preserve: bool)
      requires 0 < lines && 0 < cols && adapter.Valid() && adapter.lines == lines && adapter.cols == cols && cfg.Valid()
      ensures Parts() && fresh(Repr() - {adapter, adapter.video})
      ensures curscr.m == Curscr(lines, cols, preserve) && lastscr.m == Lastscr(lines, cols)
      ensures this.adapter == adapter && this.cfg == cfg && alive
      ensures Valid() <==> !preserve || Displays(cfg, adapter.shown, lastscr.m.cells)
    {
      hide Window.Valid, Adapter.Valid, RawWin.Valid, Curscr, Lastscr, Displays, Covers;
      var cur, last := FreshScreens(lines, cols, preserve);
      curscr, lastscr, this.adapter, this.cfg := cur, last, adapter, cfg;
      alive, visibility, cursrow, curscol := true, true, 0, 0;
    }

    lemma Apart()
      requires Parts()
      ensures curscr.Valid() && lastscr.Valid() && adapter.Valid() && cfg.Valid()
      ensures curscr.Repr !! lastscr.Repr && {this, adapter, adapter.video} !! curscr.Repr + lastscr.Repr
      ensures curscr in curscr.Repr && lastscr in lastscr.Repr
      ensures curscr.m.maxy == lastscr.m.maxy == adapter.lines > 0 &&
              curscr.m.maxx == lastscr.m.maxx == adapter.cols > 0
      ensures curscr.m.begy == curscr.m.begx == 0
    {
      curscr.FieldsAgree();
      lastscr.FieldsAgree();
    }

    // -------------------------------------------------------------- doupdate

    /** The first inner loop of doupdate: the length of the run at `first`. dst agrees
        with the row d the line started from on the columns still to do. */
    method RunAt(src: array<Chtype>, dst: array<Chtype>, first: int, last: int, ghost d: Row) returns (len: nat)
      requires 0 <= first <= last < src.Length == dst.Length == |d|
      requires SameAhead(dst[..], d, first, last)
      ensures len == RunLen(src[..], d, first, last, 0)
    {
      len := 0;
      while first + len <= last &&
            (src[first + len] != dst[first + len] ||
             (len > 0 && first + len < last && src[first + len + 1] != dst[first + len + 1]))
        invariant first + len <= last + 1
        invariant RunLen(src[..], d, first, last, len) == RunLen(src[..], d, first, last, 0)
      {
        len := len + 1;
      }
    }

    /** The second inner loop: the next changed column. */
    method SkipAt(src: array<Chtype>, dst: array<Chtype>, first: int, last: int, ghost d: Row) returns (n: int)
      requires 0 <= first <= last + 1 <= src.Length == dst.Length == |d|
      requires SameAhead(dst[..], d, first, last)
      ensures n == SkipSame(src[..], d, first, last)
    {
      n := first;
      while n <= last && src[n] == dst[n]
        invariant first <= n <= last + 1
        invariant SkipSame(src[..], d, n, last) == SkipSame(src[..], d, first, last)
      {
        n := n + 1;
      }
    }

    /** The first inner loop, on the row tables. */
    method RunLength(line: int, first: int, last: int, ghost src: Row, ghost d: Row) returns (len: nat)
      requires Parts() && 0 <= line < curscr.m.maxy && src == curscr.m.cells[line]
      requires 0 <= first <= last < |d| == curscr.m.maxx && SameAhead(lastscr.m.cells[line], d, first, last)
      ensures len == RunLen(src, d, first, last, 0)
    {
      hide Window.Valid, Adapter.Valid;
      curscr.RowAgrees(line);
      lastscr.RowAgrees(line);
      len := RunAt(curscr.y[line], lastscr.y[line], first, last, d);
    }

    /** The second inner loop, on the row tables. */
    method NextChange(line: int, first: int, last: int, ghost src: Row, ghost d: Row) returns (n: int)
      requires Parts() && 0 <= line < curscr.m.maxy && src == curscr.m.cells[line]
      requires 0 <= first <= last + 1 <= |d| == curscr.m.maxx
      requires SameAhead(lastscr.m.cells[line], d, first, last)
      ensures n == SkipSame(src, d, first, last)
    {
      hide Window.Valid, Adapter.Valid;
      curscr.RowAgrees(line);
      lastscr.RowAgrees(line);
      n := SkipAt(curscr.y[line], lastscr.y[line], first, last, d);
    }

    /** Send one run of a line and record it in lastscr. */
    method SendRun(line: int, first: int, len: int)
      requires Parts() && 0 <= line < adapter.lines && 0 <= first && 0 < len && first + len <= adapter.cols
      modifies lastscr.Repr, adapter`shown, adapter`packets, adapter`sent, adapter`row, adapter`col, adapter.video
      ensures Parts() && lastscr.Repr == old(lastscr.Repr)
      ensures var part := curscr.m.cells[line][first..first + len];
              && lastscr.m ==
                 old(lastscr.m).(cells := old(lastscr.m).cells[line := Splice(old(lastscr.m).cells[line], first, part)])
              && adapter.shown ==
                 old(adapter.shown)[line := Splice(old(adapter.shown)[line], first, RenderRow(cfg, part))]
      ensures adapter.sent == old(adapter.sent) + [Send(line, first, len)]
    {
      hide Window.Valid, Adapter.Valid, RawWin.Valid, RenderRow, Splice, Render;
      Apart();
      curscr.RowAgrees(line);
      adapter.Size();
      ghost var row := curscr.m.cells[line];
      SliceOf(curscr.y[line], first, first + len);
      adapter.TransformLine(cfg, line, first, len, curscr.y[line], first);
      curscr.RowAgrees(line);
      SliceOf(curscr.y[line], first, first + len);
      lastscr.WriteCells(line, first, curscr.y[line][first..first + len]);
    }

    /** One line of doupdate without a forced clear: the runs of changed cells between
        its bounds go to the display and into lastscr. */
    method SendChanges(line: int, first0: int, last: int)
      requires Parts() && 0 <= line < adapter.lines && 0 <= first0 <= last + 1 <= adapter.cols
      requires adapter.shown[line] == RenderRow(cfg, lastscr.m.cells[line])
      modifies lastscr.Repr, adapter`shown, adapter`packets, adapter`sent, adapter`row, adapter`col, adapter.video
      ensures Parts() && lastscr.Repr == old(lastscr.Repr)
      ensures LineDone(curscr.m, old(lastscr.m), lastscr.m, line, first0, last)
      ensures adapter.shown == old(adapter.shown)[line := RenderRow(cfg, lastscr.m.cells[line])]
      ensures adapter.sent ==
              old(adapter.sent) + Sends(line, Runs(curscr.m.cells[line], old(lastscr.m).cells[line], first0, last))
    {
      hide *;
      Apart();
      adapter.Size();
      curscr.RowAgrees(line);
      lastscr.RowAgrees(line);
      ghost var src, w0, shown0, log := curscr.m.cells[line], lastscr.m, adapter.shown, adapter.sent;
      InLineStart(cfg, src, w0, shown0, line, first0, last, log);
      var first := first0;
      while first <= last
        invariant Parts() && lastscr.Repr == old(lastscr.Repr)
        invariant InLine(cfg, src, w0, lastscr.m, shown0, adapter.shown, line, first0, first, last, log, adapter.sent)
      {
        first := SendNext(line, first0, first, last, src, w0, shown0, log);
      }
      InLineDone(cfg, src, w0, lastscr.m, shown0, adapter.shown, line, first0, first, last, log, adapter.sent);
      LineDoneIs(curscr.m, w0, lastscr.m, line, first0, last);
    }

    /** One round of the loop: the run at `first`, if there is one, and on to the next change. */
    method SendNext(line: int, first0: int, first: int, last: int, ghost src: Row, ghost w0: Win,
                    ghost shown0: seq<seq<VCell>>, ghost log: seq<Send>)
      returns (next: int)
      requires Parts() && 0 <= line < curscr.m.maxy && src == curscr.m.cells[line] && first <= last < |src| == w0.maxx
      requires InLine(cfg, src, w0, lastscr.m, shown0, adapter.shown, line, first0, first, last, log, adapter.sent)
      modifies lastscr.Repr, adapter`shown, adapter`packets, adapter`sent, adapter`row, adapter`col, adapter.video
      ensures Parts() && lastscr.Repr == old(lastscr.Repr) && first < next
      ensures InLine(cfg, src, w0, lastscr.m, shown0, adapter.shown, line, first0, next, last, log, adapter.sent)
    {
      hide *;
      Apart();
      InLineAhead(cfg, src, w0, lastscr.m, shown0, adapter.shown, line, first0, first, last, log, adapter.sent);
      var len := RunLength(line, first, last, src, w0.cells[line]);
      ghost var after := SkipSame(src, w0.cells[line], first + len, last);
      InLineStep(cfg, src, w0, lastscr.m, shown0, adapter.shown, line, first0, first, last, log, adapter.sent,
                 len, after);
      StillAhead(lastscr.m.cells[line], w0.cells[line], first, last, src[first..first + len]);
      if len > 0 {
        SendRun(line, first, len);
      }
      next := NextChange(line, first + len, last, src, w0.cells[line]);
    }

    /** One line of doupdate. */
    method DoLine(line: int, clearall: bool)
      requires Parts() && 0 <= line < adapter.lines
      requires LineReady(cfg, curscr.m, lastscr.m, adapter.shown, clearall, line)
      modifies curscr.Repr, lastscr.Repr, adapter`shown, adapter`packets, adapter`sent, adapter`row, adapter`col,
               adapter.video
      ensures Parts() && lastscr.Repr == old(lastscr.Repr) && curscr.Repr == old(curscr.Repr)
      ensures curscr.m == MarksOff(old(curscr.m), clearall, line)
      ensures lastscr.m == old(lastscr.m).(cells := old(lastscr.m).cells[line := old(curscr.m).cells[line]])
      ensures adapter.shown == old(adapter.shown)[line := RenderRow(cfg, old(curscr.m).cells[line])]
      ensures adapter.sent == old(adapter.sent) + LineSends(old(curscr.m), old(lastscr.m), clearall, line)
    {
      hide *;
      Apart();
      curscr.RowAgrees(line);
      ghost var c, d := curscr.m, lastscr.m;
      MarksOffIs(c, clearall, line);
      if clearall {
        SendWhole(line);
      } else if curscr.firstch[line] != NO_CHANGE {
        SendTouched(line);
      } else {
        CleanLine(cfg, c, d, adapter.shown, line);
        return;
      }
      ClearMarks(line);
    }

    /** The whole line is sent. */
    method SendWhole(line: int)
      requires Parts() && 0 <= line < adapter.lines
      modifies lastscr.Repr, adapter`shown, adapter`packets, adapter`sent, adapter`row, adapter`col, adapter.video
      ensures Parts() && lastscr.Repr == old(lastscr.Repr)
      ensures lastscr.m == old(lastscr.m).(cells := old(lastscr.m).cells[line := curscr.m.cells[line]])
      ensures adapter.shown == old(adapter.shown)[line := RenderRow(cfg, curscr.m.cells[line])]
      ensures adapter.sent == old(adapter.sent) + LineSends(curscr.m, old(lastscr.m), true, line)
    {
      hide Window.Valid, Adapter.Valid, RawWin.Valid, RenderRow, Splice, Parts;
      Apart();
      adapter.Size();
      curscr.RowAgrees(line);
      lastscr.RowAgrees(line);
      WholeRow(lastscr.m.cells[line], curscr.m.cells[line]);
      WholeShown(cfg, adapter.shown[line], curscr.m.cells[line]);
      SendRun(line, 0, adapter.cols);
    }

    /** The changes of a touched line are sent. */
    method SendTouched(line: int)
      requires Parts() && 0 <= line < adapter.lines && curscr.m.Touched(line)
      requires LineReady(cfg, curscr.m, lastscr.m, adapter.shown, false, line)
      modifies lastscr.Repr, adapter`shown, adapter`packets, adapter`sent, adapter`row, adapter`col, adapter.video
      ensures Parts() && lastscr.Repr == old(lastscr.Repr)
      ensures lastscr.m == old(lastscr.m).(cells := old(lastscr.m).cells[line := curscr.m.cells[line]])
      ensures adapter.shown == old(adapter.shown)[line := RenderRow(cfg, curscr.m.cells[line])]
      ensures adapter.sent == old(adapter.sent) + LineSends(curscr.m, old(lastscr.m), false, line)
    {
      hide Window.Valid, Adapter.Valid, RawWin.Valid, RenderRow, Splice, Runs, Sends, Parts;
      Apart();
      curscr.RowAgrees(line);
      lastscr.RowAgrees(line);
      LineCaughtUp(curscr.m, lastscr.m, line);
      SendChanges(line, curscr.firstch[line], curscr.lastch[line]);
    }

    /** Take line's marks off curscr. */
    method ClearMarks(line: int)
      requires Parts() && 0 <= line < adapter.lines
      modifies curscr.Repr
      ensures Parts() && curscr.Repr == old(curscr.Repr)
      ensures curscr.m ==
              old(curscr.m).(first := old(curscr.m).first[line := NO_CHANGE],
                             last := old(curscr.m).last[line := NO_CHANGE])
    {
      hide Window.Valid, Adapter.Valid;
      Apart();
      curscr.SetInterval(line, NO_CHANGE, NO_CHANGE);
    }

    /** doupdate. After endwin, or when curscr asks for a clear, every line is sent;
        otherwise only the runs of changed cells. */
    method DoUpdate()
      requires Valid()
      modifies Repr()
      ensures Valid() && curscr.Repr == old(curscr.Repr) && lastscr.Repr == old(lastscr.Repr) && cfg == old(cfg)
      ensures var clearall := !old(alive) || old(curscr.m).clear;
              && curscr.m == Unmarked(old(curscr.m), clearall, old(curscr.m).maxy).(clear := false)
              && lastscr.m == old(lastscr.m).(cells := curscr.m.cells)
              && adapter.sent ==
                 old(adapter.sent) + AllSends(old(curscr.m), old(lastscr.m), clearall, old(curscr.m).maxy)
      ensures Displays(cfg, adapter.shown, curscr.m.cells)
      ensures !curscr.m.clear && forall r | 0 <= r < |curscr.m.first| :: curscr.m.first[r] == NO_CHANGE
      ensures alive && cursrow == curscr.m.cury && curscol == curscr.m.curx
    {
      hide Parts, LineReady, AllSends, Unmarked, RenderRow, Covers, Displays, Window.Valid, Adapter.Valid, RawWin.Valid,
           Config.Valid;
      Apart();
      curscr.FieldsAgree();
      adapter.Size();
      var clearall := !alive || curscr.clear;
      SyncReady(cfg, curscr.m, lastscr.m, adapter.shown, clearall);
      UnmarkedClean(curscr.m, clearall);
      alive := true;
      UpdateLines(clearall);
      EndUpdate();
      SameIsCovered(curscr.m, lastscr.m);
    }

    /** The line loop of doupdate. */
    method UpdateLines(clearall: bool)
      requires Parts() && |adapter.shown| == curscr.m.maxy == lastscr.m.maxy && curscr.m.maxx == lastscr.m.maxx
      requires forall line | 0 <= line < curscr.m.maxy ::
               LineReady(cfg, curscr.m, lastscr.m, adapter.shown, clearall, line)
      modifies curscr.Repr, lastscr.Repr, adapter`shown, adapter`packets, adapter`sent, adapter`row, adapter`col,
               adapter.video
      ensures Parts() && curscr.Repr == old(curscr.Repr) && lastscr.Repr == old(lastscr.Repr)
      ensures curscr.m == Unmarked(old(curscr.m), clearall, curscr.m.maxy) &&
              lastscr.m == old(lastscr.m).(cells := old(curscr.m).cells)
      ensures Displays(cfg, adapter.shown, old(curscr.m).cells)
      ensures adapter.sent == old(adapter.sent) + AllSends(old(curscr.m), old(lastscr.m), clearall, old(curscr.m).maxy)
    {
      hide *;
      Apart();
      ghost var c0, d0, shown0, log := curscr.m, lastscr.m, adapter.shown, adapter.sent;
      UpdatingStart(cfg, c0, d0, shown0, clearall, log);
      var line := 0;
      while line < adapter.lines
        invariant 0 <= line <= adapter.lines
        invariant Parts() && curscr.Repr == old(curscr.Repr) && lastscr.Repr == old(lastscr.Repr)
        invariant Updating(cfg, c0, curscr.m, d0, lastscr.m, shown0, adapter.shown, clearall, line, log, adapter.sent)
      {
        UpdatingReady(cfg, c0, curscr.m, d0, lastscr.m, shown0, adapter.shown, clearall, line, log, adapter.sent);
        UpdatingStep(cfg, c0, curscr.m, d0, lastscr.m, shown0, adapter.shown, clearall, line, log, adapter.sent,
                     MarksOff(curscr.m, clearall, line),
                     lastscr.m.(cells := lastscr.m.cells[line := curscr.m.cells[line]]));
        DoLine(line, clearall);
        line := line + 1;
      }
      UpdatingDone(cfg, c0, curscr.m, d0, lastscr.m, shown0, adapter.shown, clearall, line, log, adapter.sent);
    }

    /** The end of doupdate: the clear request is met, the cursor goes to its place. */
    method EndUpdate()
      requires Parts()
      modifies curscr.Repr, `cursrow, `curscol, adapter`row, adapter`col
      ensures Parts() && curscr.Repr == old(curscr.Repr) && curscr.m == old(curscr.m).(clear := false)
      ensures cursrow == curscr.m.cury && curscol == curscr.m.curx
      ensures visibility ==> adapter.row == cursrow && adapter.col == curscol
    {
      hide Window.Valid, Adapter.Valid;
      Apart();
      curscr.ClearOk(false);
      curscr.FieldsAgree();
      if visibility {
        adapter.GotoYX(curscr.cury, curscr.curx);
      }
      cursrow := curscr.cury;
      curscol := curscr.curx;
    }

    // -------------------------------------------------------------- wnoutrefresh

    /** The narrowing loops of wnoutrefresh: first and last columns of [f, l] that differ. */
    method Narrow(src: array<Chtype>, dst: array<Chtype>, off: int, f: int, l: int) returns (first: int, last: int)
      requires 0 <= f <= l + 1 <= src.Length && 0 <= off && off + src.Length <= dst.Length
      ensures first == FirstDifference(src[..][..l + 1], dst[..], off, f)
      ensures first <= l ==> first <= last < src.Length && last == LastDifference(src[..], dst[..], off, l)
      ensures first > l ==> last < first
    {
      first, last := f, l;
      while first <= last && src[first] == dst[off + first]
        invariant f <= first <= l + 1
        invariant FirstDifference(src[..][..l + 1], dst[..], off, first) ==
                  FirstDifference(src[..][..l + 1], dst[..], off, f)
      {
        first := first + 1;
      }
      while last >= first && src[last] == dst[off + last]
        invariant -1 <= last <= l && first - 1 <= last
        invariant first <= l ==>
                  first <= last &&
                  LastDifference(src[..], dst[..], off, last) == LastDifference(src[..], dst[..], off, l)
      {
        last := last - 1;
      }
    }

    /** The bounds of what row i of win changes on curscr. */
    method NarrowLine(win: Window, i: int) returns (first: int, last: int)
      requires Parts() && win.Valid() && Inside(win.m, curscr.m) && 0 <= i < win.m.maxy && win.m.Touched(i)
      ensures Narrowed(win.m, curscr.m, i, first, last)
      ensures first <= last ==> 0 <= first && last < win.m.maxx
    {
      hide Window.Valid, Adapter.Valid, FirstDifference, LastDifference, Parts;
      Apart();
      win.FieldsAgree();
      var j := win.begy + i;
      win.RowAgrees(i);
      curscr.RowAgrees(j);
      first, last := Narrow(win.y[i], curscr.y[j], win.begx, win.firstch[i], win.lastch[i]);
    }

    /** One row of wnoutrefresh. */
    method RefreshLine(win: Window, i: int)
      requires Parts() && win.Valid() && win.Repr !! Repr() && Inside(win.m, curscr.m) && 0 <= i < win.m.maxy
      modifies curscr.Repr, win.Repr
      ensures Parts() && win.Valid() && win.Repr == old(win.Repr) && curscr.Repr == old(curscr.Repr)
      ensures win.m == Unmark(old(win.m), i) && curscr.m == MergeRow(old(win.m), old(curscr.m), i)
    {
      hide Window.Valid, Adapter.Valid, RawWin.Valid, Parts, MergeRow, Unmark;
      Apart();
      win.FieldsAgree();
      win.RowAgrees(i);
      if win.firstch[i] != NO_CHANGE {
        MergeTouched(win, i);
      } else {
        MergeRowClean(win.m, curscr.m, i);
      }
      DropMarks(win, i);
    }

    /** The part of the row of win that differs is copied into curscr. */
    method MergeTouched(win: Window, i: int)
      requires Parts() && win.Valid() && win.Repr !! Repr() && Inside(win.m, curscr.m) && 0 <= i < win.m.maxy &&
               win.m.Touched(i)
      modifies curscr.Repr
      ensures Parts() && win.Valid() && curscr.Repr == old(curscr.Repr) && curscr.m == MergeRow(win.m, old(curscr.m), i)
    {
      hide Window.Valid, Adapter.Valid, RawWin.Valid, Splice, Parts, MergeRow, Narrowed;
      Apart();
      win.FieldsAgree();
      win.RowAgrees(i);
      ghost var c := curscr.m;
      var first, last := NarrowLine(win, i);
      if first <= last {
        SliceOf(win.y[i], first, last + 1);
        MergeLine(win.begy + i, win.begx + first, win.begx + last, win.y[i][first..last + 1]);
      }
      MergeRowIs(win.m, c, i, first, last, curscr.m);
    }

    /** The row of win is up to date. */
    method DropMarks(win: Window, i: int)
      requires Parts() && win.Valid() && win.Repr !! Repr() && 0 <= i < win.m.maxy
      modifies win.Repr
      ensures Parts() && win.Valid() && win.Repr == old(win.Repr)
      ensures win.m == Unmark(old(win.m), i)
    {
      hide Window.Valid, Adapter.Valid;
      Apart();
      win.SetInterval(i, NO_CHANGE, NO_CHANGE);
    }

    /** Copy s into row j of curscr and merge [a, b] into its interval. */
    method MergeLine(j: int, a: int, b: int, s: Row)
      requires Parts() && 0 <= j < curscr.m.maxy && 0 <= a <= b < curscr.m.maxx && |s| == b - a + 1
      modifies curscr.Repr
      ensures Parts() && curscr.Repr == old(curscr.Repr)
      ensures var c := old(curscr.m);
              curscr.m == c.(cells := c.cells[j := Splice(c.cells[j], a, s)],
                             first := c.first[j := Lower(c.first[j], a)], last := c.last[j := Max(c.last[j], b)])
    {
      hide Window.Valid, Adapter.Valid, Splice;
      Apart();
      curscr.WriteCells(j, a, s);
      curscr.Widen(j, a, b);
    }

    /** wnoutrefresh. */
    method NoutRefresh(win: Window)
      requires Valid() && win.Valid() && win.Repr !! Repr() && Inside(win.m, curscr.m)
      modifies curscr.Repr, win.Repr
      ensures Valid() && win.Valid() && win.Repr == old(win.Repr) && curscr.Repr == old(curscr.Repr)
      ensures Repr() == old(Repr())
      ensures win.m == NoutWin(old(win.m)) && curscr.m == NoutCur(old(win.m), old(curscr.m))
    {
      hide RawWin.Valid, Parts, Window.Valid, Adapter.Valid, NoutWin, NoutCur, Covers, Displays;
      Apart();
      win.FieldsAgree();
      ghost var w, c := win.m, curscr.m;
      Merge(win);
      StaysInSync(w, c);
    }

    /** wnoutrefresh, whatever the display shows. */
    method Merge(win: Window)
      requires Parts() && win.Valid() && win.Repr !! Repr() && Inside(win.m, curscr.m)
      modifies curscr.Repr, win.Repr
      ensures Parts() && win.Valid() && win.Repr == old(win.Repr) && curscr.Repr == old(curscr.Repr)
      ensures win.m == NoutWin(old(win.m)) && curscr.m == NoutCur(old(win.m), old(curscr.m))
    {
      hide RawWin.Valid, Parts, Window.Valid, Adapter.Valid, NoutMarks, NoutRows, NoutWin, NoutCur;
      Apart();
      win.FieldsAgree();
      NoutEnd(win.m, curscr.m);
      NoutCurIs(win.m, curscr.m);
      MergeWindow(win);
      EndMarks(win);
      win.FieldsAgree();
      NoutCursor(win);
    }

    method EndMarks(win: Window)
      requires Parts() && win.Valid() && win.Repr !! Repr()
      modifies win.Repr
      ensures Parts() && win.Valid() && win.Repr == old(win.Repr) && win.m == old(win.m).(clear := false)
    {
      hide Window.Valid, Adapter.Valid;
      Apart();
      win.FieldsAgree();
      win.ClearOk(false);
    }

    /** Refreshing a window leaves the display in step as far as it was. */
    lemma StaysInSync(w: Win, c: Win)
      requires cfg.Valid() && Inside(w, c) && curscr.m == NoutCur(w, c)
      requires c.clear || !alive || (Displays(cfg, adapter.shown, lastscr.m.cells) && Covers(c, lastscr.m.cells))
      ensures InSync()
    {
      hide NoutCur, Covers, Displays, Draws;
      NoutDraws(w, c);
      if !(c.clear || !alive) {
        DrawsKeepsCoverage(c, curscr.m, lastscr.m.cells);
      }
    }

    /** The row loop of wnoutrefresh. */
    method MergeWindow(win: Window)
      requires Parts() && win.Valid() && win.Repr !! Repr() && Inside(win.m, curscr.m)
      modifies curscr.Repr, win.Repr
      ensures Parts() && win.Valid() && win.Repr == old(win.Repr) && curscr.Repr == old(curscr.Repr)
      ensures win.m == NoutMarks(old(win.m), old(win.m).maxy)
      ensures curscr.m == NoutRows(old(win.m), old(curscr.m), old(win.m).begy + old(win.m).maxy)
    {
      hide RawWin.Valid, Parts, Window.Valid, Adapter.Valid, NoutMarks, NoutRows, Unmark, MergeRow;
      Apart();
      win.FieldsAgree();
      ghost var w, c := win.m, curscr.m;
      NoutStart(w, c);
      var i := 0;
      while i < win.maxy
        invariant 0 <= i <= win.maxy == w.maxy
        invariant Parts() && win.Valid() && win.Repr == old(win.Repr) && curscr.Repr == old(curscr.Repr)
        invariant win.m == NoutMarks(w, i) && curscr.m == NoutRows(w, c, w.begy + i)
      {
        NoutStep(w, c, i);
        RefreshLine(win, i);
        Apart();
        win.FieldsAgree();
        i := i + 1;
      }
    }

    /** The cursor of curscr follows the window's, unless leaveok. */
    method NoutCursor(win: Window)
      requires Parts() && win.Valid() && win.Repr !! Repr() && Inside(win.m, curscr.m)
      modifies curscr.Repr
      ensures Parts() && curscr.Repr == old(curscr.Repr) && win.Valid()
      ensures curscr.m == if win.m.leaveit then old(curscr.m)
                          else old(curscr.m).(cury := win.m.cury + win.m.begy, curx := win.m.curx + win.m.begx)
    {
      hide Window.Valid, Adapter.Valid;
      Apart();
      win.FieldsAgree();
      if !win.leaveit {
        curscr.Place(win.cury + win.begy, win.curx + win.begx);
      }
    }

    // -------------------------------------------------------------- wrefresh

    /** Ask for a full repaint. */
    method RequestClear()
      requires Valid()
      modifies curscr.Repr
      ensures Valid() && curscr.Repr == old(curscr.Repr) && curscr.m == old(curscr.m).(clear := true)
    {
      hide Window.Valid, Adapter.Valid, RawWin.Valid, Displays, Covers;
      Apart();
      curscr.ClearOk(true);
    }

    /** wrefresh; refreshing curscr itself repaints everything, and so does refreshing a
        window of the screen's size that asked to be cleared. */
    method WRefresh(win: Window)
      requires Valid() && (win == curscr || (win.Valid() && win.Repr !! Repr() && Inside(win.m, curscr.m)))
      modifies Repr(), win.Repr
      ensures Valid() && curscr.Repr == old(curscr.Repr) && lastscr.Repr == old(lastscr.Repr) && cfg == old(cfg)
      ensures win != curscr ==> win.Valid() && win.Repr == old(win.Repr) && win.m == NoutWin(old(win.m))
      ensures adapter.sent == old(adapter.sent) +
                if win == curscr || !old(alive) || old(curscr.m).clear || AsksClear(old(win.m), old(curscr.m))
                then EveryLine(old(curscr.m).maxy, old(curscr.m).maxx)
                else AllSends(NoutCur(old(win.m), old(curscr.m)), old(lastscr.m), false, old(curscr.m).maxy)
      ensures var c := if win == curscr then old(curscr.m).(clear := true) else Refreshed(old(win.m), old(curscr.m));
              var clearall := !old(alive) || c.clear;
              && curscr.m == Unmarked(c, clearall, c.maxy).(clear := false) && Displays(cfg, adapter.shown, c.cells)
              && adapter.sent == old(adapter.sent) + AllSends(c, old(lastscr.m), clearall, c.maxy)
    {
      hide RawWin.Valid, Window.Valid, Adapter.Valid, Parts, InSync, Displays, Covers, AllSends, Unmarked, NoutCur,
           NoutWin, Refreshed, AsksClear, EveryLine;
      Apart();
      ghost var c, d, live := curscr.m, lastscr.m, alive;
      if win == curscr {
        RequestClear();
        Apart();
        ClearSends(curscr.m, d, curscr.m.maxy);
      } else {
        RefreshedSends(win.m, c, d, live);
        win.FieldsAgree();
        RefreshWindow(win);
        win.FieldsAgree();
      }
      DoUpdate();
    }

    /** The part of wrefresh for a window of the program. */
    method RefreshWindow(win: Window)
      requires Valid() && win.Valid() && win.Repr !! Repr() && Inside(win.m, curscr.m)
      modifies curscr.Repr, win.Repr
      ensures Valid() && win.Valid() && win.Repr == old(win.Repr) && curscr.Repr == old(curscr.Repr) &&
              Repr() == old(Repr())
      ensures win.m == NoutWin(old(win.m)) && curscr.m == Refreshed(old(win.m), old(curscr.m))
    {
      hide RawWin.Valid, Window.Valid, Adapter.Valid, Parts, InSync, NoutCur, NoutWin;
      Apart();
      win.FieldsAgree();
      var saveClear := win.clear;
      NoutRefresh(win);
      Apart();
      win.FieldsAgree();
      if saveClear && win.maxy == adapter.lines && win.maxx == adapter.cols {
        RequestClear();
      }
    }
  }

  /** curscr as doupdate finds it in wrefresh(w). */
  function Refreshed(w: Win, c: Win): (d: Win)
    requires Inside(w, c)
    ensures SameFrame(c, d)
  {
    var d := NoutCur(w, c);
    if w.clear && w.maxy == c.maxy && w.maxx == c.maxx then d.(clear := true) else d
  }

  // ---------------------------------------------------------------- whole updates

  /** What doupdate sends for one line. */
  function LineSends(c: Win, d: Win, clearall: bool, line: int): seq<Send>
    requires 0 <= line < c.maxy == d.maxy && c.maxx == d.maxx
  {
    if clearall then [Send(line, 0, c.maxx)]
    else if c.Touched(line) then Sends(line, Runs(c.cells[line], d.cells[line], c.first[line], c.last[line]))
    else []
  }

  /** What doupdate sends for the lines before `lines`. */
  function AllSends(c: Win, d: Win, clearall: bool, lines: nat): seq<Send>
    requires lines <= c.maxy == d.maxy && c.maxx == d.maxx
  {
    if lines == 0 then [] else AllSends(c, d, clearall, lines - 1) + LineSends(c, d, clearall, lines - 1)
  }

  /** Every line from edge to edge, in order. */
  function EveryLine(lines: nat, cols: int): (qs: seq<Send>)
    ensures |qs| == lines && forall r | 0 <= r < lines :: qs[r] == Send(r, 0, cols)
  {
    seq(lines, r => Send(r, 0, cols))
  }

  /** A full repaint sends every line, whatever has changed. */
  lemma {:induction false} ClearSends(c: Win, d: Win, lines: nat)
    requires lines <= c.maxy == d.maxy && c.maxx == d.maxx
    ensures AllSends(c, d, true, lines) == EveryLine(lines, c.maxx)
  {
    if lines > 0 {
      ClearSends(c, d, lines - 1);
    }
  }

  /** w asks for a repaint, and has the size of c. */
  predicate AsksClear(w: Win, c: Win) { w.clear && w.maxy == c.maxy && w.maxx == c.maxx }

  /** What wrefresh(w) sends: every line if a repaint is pending or w asks for one,
      and otherwise the changes alone. */
  lemma RefreshedSends(w: Win, c: Win, d: Win, alive: bool)
    requires Inside(w, c) && c.maxy == d.maxy && c.maxx == d.maxx
    ensures var r := Refreshed(w, c);
            AllSends(r, d, !alive || r.clear, r.maxy) ==
            if !alive || c.clear || AsksClear(w, c) then EveryLine(c.maxy, c.maxx)
            else AllSends(NoutCur(w, c), d, false, c.maxy)
  {
    hide AllSends, NoutCur;
    ClearSends(Refreshed(w, c), d, c.maxy);
  }

  /** c with the marks of the lines before `end` taken off, as far as they were sent. */
  function Unmarked(c: Win, clearall: bool, end: int): (v: Win)
    ensures SameFrame(c, v) && v.cells == c.cells
  {
    c.(first := seq(c.maxy, r requires 0 <= r < c.maxy => if r < end then NO_CHANGE else c.first[r]),
       last := seq(c.maxy, r requires 0 <= r < c.maxy =>
                     if r < end && (clearall || c.Touched(r)) then NO_CHANGE else c.last[r]))
  }

  lemma UnmarkedClean(c: Win, clearall: bool)
    ensures var v := Unmarked(c, clearall, c.maxy); forall r | 0 <= r < |v.first| :: v.first[r] == NO_CHANGE
  {
  }

  /** What one line of doupdate needs: the display in step with lastscr on this line,
      and the line's marks covering its differences, unless everything is repainted. */
  ghost predicate LineReady(cfg: Config, c: Win, d: Win, shown: seq<seq<VCell>>, clearall: bool, line: int)
    requires cfg.Valid() && 0 <= line < c.maxy == d.maxy == |shown| && c.maxx == d.maxx
  {
    clearall || (shown[line] == RenderRow(cfg, d.cells[line]) &&
                 forall x | 0 <= x < c.maxx :: c.cells[line][x] == d.cells[line][x] || c.Damaged(line, x))
  }

  /** A line without marks is up to date. */
  lemma CleanLine(cfg: Config, c: Win, d: Win, shown: seq<seq<VCell>>, line: int)
    requires cfg.Valid() && 0 <= line < c.maxy == d.maxy == |shown| && c.maxx == d.maxx && !c.Touched(line)
    requires LineReady(cfg, c, d, shown, false, line)
    ensures |d.cells| == d.maxy && d == d.(cells := d.cells[line := c.cells[line]]) &&
            shown == shown[line := RenderRow(cfg, c.cells[line])]
    ensures LineSends(c, d, false, line) == []
  {
    hide RenderRow;
    assert c.cells[line] == d.cells[line];
    assert d.cells[line := c.cells[line]] == d.cells;
  }

  lemma MarksOffIs(c: Win, clearall: bool, line: int)
    requires 0 <= line < c.maxy
    ensures |c.first| == |c.last| == c.maxy
    ensures MarksOff(c, clearall, line) ==
            if clearall || c.Touched(line)
            then c.(first := c.first[line := NO_CHANGE], last := c.last[line := NO_CHANGE]) else c
    ensures c.Touched(line) <==> c.first[line] != NO_CHANGE
  {
  }

  /** With display and lastscr in step, every line is ready. */
  lemma SyncReady(cfg: Config, c: Win, d: Win, shown: seq<seq<VCell>>, clearall: bool)
    requires cfg.Valid() && c.maxy == d.maxy == |shown| && c.maxx == d.maxx && c.begy == c.begx == 0
    requires clearall || (Displays(cfg, shown, d.cells) && Covers(c, d.cells))
    ensures forall line | 0 <= line < c.maxy :: LineReady(cfg, c, d, shown, clearall, line)
  {
    forall line | 0 <= line < c.maxy
      ensures LineReady(cfg, c, d, shown, clearall, line)
    {
      if !clearall {
        forall x | 0 <= x < c.maxx
          ensures c.cells[line][x] == d.cells[line][x] || c.Damaged(line, x)
        {
          assert CoversAt(c, d.cells, line, x);
        }
      }
    }
  }

  lemma SameIsCovered(c: Win, d: Win)
    requires c.cells == d.cells && c.maxy == d.maxy && c.maxx == d.maxx && c.begy == c.begx == 0
    ensures Covers(c, d.cells)
  {
  }

  /** doupdate before line `line`: the lines above are done, the others untouched. */
  ghost predicate Updating(cfg: Config, c0: Win, c: Win, d0: Win, d: Win, shown0: seq<seq<VCell>>,
                           shown: seq<seq<VCell>>, clearall: bool, line: int, log: seq<Send>, sent: seq<Send>)
    requires cfg.Valid()
  {
    && 0 <= line <= c0.maxy == d0.maxy == |shown0| == |shown| && c0.maxx == d0.maxx
    && c == Unmarked(c0, clearall, line)
    && d == d0.(cells := d.cells) && d.cells == c0.cells[..line] + d0.cells[line..]
    && (forall r | 0 <= r < line :: shown[r] == RenderRow(cfg, c0.cells[r]))
    && (forall r | line <= r < |shown| :: shown[r] == shown0[r])
    && sent == log + AllSends(c0, d0, clearall, line)
  }

  lemma UpdatingStart(cfg: Config, c: Win, d: Win, shown: seq<seq<VCell>>, clearall: bool, log: seq<Send>)
    requires cfg.Valid() && c.maxy == d.maxy == |shown| && c.maxx == d.maxx
    ensures Updating(cfg, c, c, d, d, shown, shown, clearall, 0, log, log)
  {
    assert Unmarked(c, clearall, 0).first == c.first && Unmarked(c, clearall, 0).last == c.last;
  }

  lemma UpdatingReady(cfg: Config, c0: Win, c: Win, d0: Win, d: Win, shown0: seq<seq<VCell>>, shown: seq<seq<VCell>>,
                      clearall: bool, line: int, log: seq<Send>, sent: seq<Send>)
    requires cfg.Valid() && Updating(cfg, c0, c, d0, d, shown0, shown, clearall, line, log, sent) && line < c0.maxy
    requires LineReady(cfg, c0, d0, shown0, clearall, line)
    ensures line < c.maxy == d.maxy == |shown| == |c.cells| == |d.cells| && c.maxx == d.maxx &&
            LineReady(cfg, c, d, shown, clearall, line)
    ensures LineSends(c, d, clearall, line) == LineSends(c0, d0, clearall, line)
  {
  }

  lemma UpdatingStep(cfg: Config, c0: Win, c: Win, d0: Win, d: Win, shown0: seq<seq<VCell>>, shown: seq<seq<VCell>>,
                     clearall: bool, line: int, log: seq<Send>, sent: seq<Send>, c': Win, d': RawWin)
    requires cfg.Valid() && Updating(cfg, c0, c, d0, d, shown0, shown, clearall, line, log, sent) && line < c0.maxy
    requires c' == MarksOff(c, clearall, line) && d' == d.(cells := d.cells[line := c.cells[line]])
    ensures d'.Valid() && Updating(cfg, c0, c', d0, d', shown0, shown[line := RenderRow(cfg, c.cells[line])],
                     clearall, line + 1, log, sent + LineSends(c0, d0, clearall, line))
  {
    hide RenderRow, LineSends, Unmarked, MarksOff, RawWin.Valid;
    UnmarkedStep(c0, clearall, line);
    RowsDone(c0, d0, d, line);
  }

  lemma UnmarkedStep(c: Win, clearall: bool, line: int)
    requires 0 <= line < c.maxy
    ensures MarksOff(Unmarked(c, clearall, line), clearall, line) == Unmarked(c, clearall, line + 1)
  {
    var u, v := MarksOff(Unmarked(c, clearall, line), clearall, line), Unmarked(c, clearall, line + 1);
    assert u.first == v.first && u.last == v.last;
  }

  lemma RowsDone(c: Win, d0: Win, d: Win, line: int)
    requires 0 <= line < c.maxy == d0.maxy && c.maxx == d0.maxx && d == d0.(cells := c.cells[..line] + d0.cells[line..])
    ensures |d.cells| == |c.cells| == c.maxy && d.maxy == d0.maxy &&
            d.cells[line := c.cells[line]] == c.cells[..line + 1] + d0.cells[line + 1..]
    ensures d.(cells := d.cells[line := c.cells[line]]).Valid()
  {
  }

  /** c with the marks of one line taken off if it was sent. */
  function MarksOff(c: Win, clearall: bool, line: int): (v: Win)
    requires 0 <= line < c.maxy
    ensures SameFrame(c, v)
  {
    if clearall || c.Touched(line)
    then c.(first := c.first[line := NO_CHANGE], last := c.last[line := NO_CHANGE]) else c
  }

  lemma UpdatingDone(cfg: Config, c0: Win, c: Win, d0: Win, d: Win, shown0: seq<seq<VCell>>, shown: seq<seq<VCell>>,
                     clearall: bool, line: int, log: seq<Send>, sent: seq<Send>)
    requires cfg.Valid() && Updating(cfg, c0, c, d0, d, shown0, shown, clearall, line, log, sent) && line == c0.maxy
    ensures c == Unmarked(c0, clearall, c0.maxy) && d == d0.(cells := c0.cells) && Displays(cfg, shown, c0.cells)
    ensures c.maxy == c0.maxy
    ensures sent == log + AllSends(c0, d0, clearall, c0.maxy)
  {
    assert d.cells == c0.cells;
  }

  /** After copying the marked columns a covered line agrees with curscr's. */
  lemma LineCaughtUp(c: Win, d: Win, line: int)
    requires 0 <= line < c.maxy == d.maxy && c.maxx == d.maxx && c.Touched(line)
    requires forall x | 0 <= x < c.maxx :: c.cells[line][x] == d.cells[line][x] || c.Damaged(line, x)
    ensures var (f, l) := (c.first[line], c.last[line]);
            0 <= f <= l + 1 <= c.maxx && Splice(d.cells[line], f, c.cells[line][f..l + 1]) == c.cells[line]
  {
    var (f, l) := (c.first[line], c.last[line]);
    forall x | 0 <= x < c.maxx
      ensures Splice(d.cells[line], f, c.cells[line][f..l + 1])[x] == c.cells[line][x]
    {
    }
  }

  lemma WholeRow(d: Row, s: Row)
    requires |d| == |s|
    ensures Splice(d, 0, s[0..0 + |s|]) == s
  {
  }

  lemma WholeShown(cfg: Config, shown: seq<VCell>, s: Row)
    requires cfg.Valid() && |shown| == |s|
    ensures Splice(shown, 0, RenderRow(cfg, s[0..0 + |s|])) == RenderRow(cfg, s)
  {
    assert s[0..0 + |s|] == s;
  }

  lemma LineDoneIs(c: Win, d: Win, v: Win, line: int, first: int, last: int)
    requires 0 <= line < |c.cells| == |d.cells| && 0 <= first <= last + 1 <= |d.cells[line]| == |c.cells[line]|
    requires v == d.(cells := d.cells[line := Splice(d.cells[line], first, c.cells[line][first..last + 1])])
    ensures 0 <= line < c.maxy == d.maxy && last < d.maxx && LineDone(c, d, v, line, first, last)
  {
  }

  /** Columns first..last of row `line` of v are those of c; all else is as in d. */
  ghost predicate LineDone(c: Win, d: Win, v: Win, line: int, first: int, last: int)
    requires 0 <= line < c.maxy == d.maxy && 0 <= first <= last + 1 <= d.maxx && last < c.maxx
  {
    v == d.(cells := d.cells[line := Splice(d.cells[line], first, c.cells[line][first..last + 1])])
  }
}
