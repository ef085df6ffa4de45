/** The whole pipeline over runs: any drawing on disjoint windows, refreshes, colour
    changes and updates, and what the display shows in the end. */
module Pipeline {
  import opened Cells
  import opened WindowModel
  import opened Damage
  import opened RefreshModel
  import opened Adapters
  import opened Screens
  import opened Colors
  import opened OverlapModel

  /** A program's windows, curscr, lastscr, the display and the colour state. */
  datatype Sys = Sys(wins: seq<Win>, cur: Win, last: Win, shown: seq<seq<VCell>>,
                     cfg: Config, alive: bool, pal: Palette) {
    /** The windows lie on the screen and apart from each other. */
    ghost predicate Valid() {
      && cfg.Valid() && pal.Valid() && cur.begy == cur.begx == 0
      && last.maxy == cur.maxy == |shown| && last.maxx == cur.maxx
      && (forall r | 0 <= r < |shown| :: |shown[r]| == cur.maxx)
      && (forall i | 0 <= i < |wins| :: Inside(wins[i], cur))
      && (forall i, j | 0 <= i < j < |wins| :: Beside(wins[i], wins[j]))
    }

    /** doupdate is to repaint everything. */
    predicate Repaints() { cur.clear || !alive }
  }

  /** Two windows share no screen position. */
  predicate Beside(a: Win, b: Win) {
    a.begy + a.maxy <= b.begy || b.begy + b.maxy <= a.begy || a.begx + a.maxx <= b.begx || b.begx + b.maxx <= a.begx
  }

  /** What every step keeps. */
  ghost predicate Inv(s: Sys) {
    && s.Valid() && (forall i | 0 <= i < |s.wins| :: Covers(s.wins[i], s.cur.cells))
    && (s.Repaints() ||
        (Covers(s.cur, s.last.cells) && Displays(s.cfg, s.shown, s.last.cells) && AllUse(s.pal, s.last.cells)))
  }

  // ---------------------------------------------------------------- doupdate

  predicate Hits(q: Send, r: int, x: int) { q.line == r && q.x <= x < q.x + q.len }

  ghost predicate Hit(qs: seq<Send>, r: int, x: int) { exists q :: q in qs && Hits(q, r, x) }

  /** The cells that doupdate sends now look like curscr's; the others are left. */
  ghost function Repainted(s: Sys): (v: seq<seq<VCell>>)
    requires s.Valid()
    ensures |v| == |s.shown| && forall r | 0 <= r < |v| :: |v[r]| == s.cur.maxx
  {
    var qs := AllSends(s.cur, s.last, s.Repaints(), s.cur.maxy);
    seq(s.cur.maxy, r requires 0 <= r < s.cur.maxy => seq(s.cur.maxx, x requires 0 <= x < s.cur.maxx =>
      if Hit(qs, r, x) then Render(s.cfg, s.cur.cells[r][x]) else s.shown[r][x]))
  }

  /** doupdate; Screens.Screen.DoUpdate sends these cells and leaves these windows. */
  ghost function Update(s: Sys): Sys
    requires s.Valid()
  {
    s.(cur := Unmarked(s.cur, s.Repaints(), s.cur.maxy).(clear := false), last := s.last.(cells := s.cur.cells),
       shown := Repainted(s), alive := true)
  }

  /** Every changed column of the interval is in a run. */
  lemma {:induction false} RunsReach(runs: seq<Run>, src: Row, dst: Row, from: int, last: int, k: int)
    requires 0 <= from <= k <= last < |src| == |dst| && Separated(runs, src, dst, from, last) && src[k] != dst[k]
    ensures exists i | 0 <= i < |runs| :: runs[i].x <= k < runs[i].x + runs[i].len
  {
    assert runs == [] || k < runs[0].x ==> Quiet(src, dst, k, last);
    if runs != [] && k >= runs[0].x + runs[0].len {
      RunsReach(runs[1..], src, dst, runs[0].x + runs[0].len, last, k);
      var i :| 0 <= i < |runs[1..]| && runs[1..][i].x <= k < runs[1..][i].x + runs[1..][i].len;
      assert runs[i + 1] == runs[1..][i];
    }
  }

  lemma {:induction false} AllSendsHas(c: Win, d: Win, clearall: bool, lines: nat, r: nat, q: Send)
    requires r < lines <= c.maxy == d.maxy && c.maxx == d.maxx && q in LineSends(c, d, clearall, r)
    ensures q in AllSends(c, d, clearall, lines)
  {
    hide LineSends;
    if r < lines - 1 {
      AllSendsHas(c, d, clearall, lines - 1, r, q);
    }
  }

  /** doupdate sends every cell that must be sent. */
  lemma ChangedIsSent(c: Win, d: Win, r: nat, x: nat)
    requires r < c.maxy == d.maxy && x < c.maxx == d.maxx && c.Damaged(r, x) && c.cells[r][x] != d.cells[r][x]
    ensures Hit(AllSends(c, d, false, c.maxy), r, x)
  {
    var runs := Runs(c.cells[r], d.cells[r], c.first[r], c.last[r]);
    RunsSeparated(c.cells[r], d.cells[r], c.first[r], c.last[r]);
    hide Runs, Separated, AllSends;
    RunsReach(runs, c.cells[r], d.cells[r], c.first[r], c.last[r], x);
    var i :| 0 <= i < |runs| && runs[i].x <= x < runs[i].x + runs[i].len;
    var q := Sends(r, runs)[i];
    assert q in LineSends(c, d, false, r) && Hits(q, r, x);
    AllSendsHas(c, d, false, c.maxy, r, q);
  }

  /** q begins and ends on marked cells of its line that have changed, and passes over no two
      unchanged cells in a row. */
  predicate Worth(q: Send, c: Win, d: Win)
    requires c.maxy == d.maxy && c.maxx == d.maxx
  {
    && 0 <= q.line < c.maxy && 0 <= q.x && 0 < q.len && q.x + q.len <= c.maxx
    && c.Damaged(q.line, q.x) && c.Damaged(q.line, q.x + q.len - 1)
    && WorthSending(Run(q.x, q.len), c.cells[q.line], d.cells[q.line])
  }

  predicate WorthSending(r: Run, src: Row, dst: Row)
    requires 0 <= r.x && 0 < r.len && r.x + r.len <= |src| == |dst|
  {
    && src[r.x] != dst[r.x] && src[r.x + r.len - 1] != dst[r.x + r.len - 1]
    && forall k | r.x < k < r.x + r.len :: src[k] != dst[k] || src[k - 1] != dst[k - 1]
  }

  /** p is on an earlier line than q, or on the same one with two cells between them at least. */
  predicate Precedes(p: Send, q: Send) { p.line < q.line || (p.line == q.line && p.x + p.len + 1 < q.x) }

  /** qs are in order, each worth sending, on lines from..to-1. */
  ghost predicate Ordered(qs: seq<Send>, c: Win, d: Win, from: int, to: int)
    requires c.maxy == d.maxy && c.maxx == d.maxx
  {
    && (forall i | 0 <= i < |qs| :: Worth(qs[i], c, d) && from <= qs[i].line < to)
    && (forall i, j | 0 <= i < j < |qs| :: Precedes(qs[i], qs[j]))
  }

  /** qs are in order, each worth sending, and every marked cell that has changed is in one. */
  ghost predicate OnlyChanges(qs: seq<Send>, c: Win, d: Win)
    requires c.maxy == d.maxy && c.maxx == d.maxx
  {
    && Ordered(qs, c, d, 0, c.maxy)
    && (forall r, x | 0 <= r < c.maxy && 0 <= x < c.maxx && c.Damaged(r, x) && c.cells[r][x] != d.cells[r][x] ::
        Hit(qs, r, x))
  }

  /** Unless everything is repainted, doupdate sends the changes alone. */
  lemma ChangesSent(c: Win, d: Win)
    requires c.maxy == d.maxy && c.maxx == d.maxx
    ensures OnlyChanges(AllSends(c, d, false, c.maxy), c, d)
  {
    hide AllSends, Ordered, Hit, RawWin.Damaged;
    SendsOrdered(c, d, c.maxy);
    forall r, x | 0 <= r < c.maxy && 0 <= x < c.maxx && c.Damaged(r, x) && c.cells[r][x] != d.cells[r][x]
      ensures Hit(AllSends(c, d, false, c.maxy), r, x)
    {
      ChangedIsSent(c, d, r, x);
    }
  }

  lemma {:induction false} SendsOrdered(c: Win, d: Win, lines: nat)
    requires lines <= c.maxy == d.maxy && c.maxx == d.maxx
    ensures Ordered(AllSends(c, d, false, lines), c, d, 0, lines)
  {
    hide *;
    NoSends(c, d);
    if lines > 0 {
      SendsOrdered(c, d, lines - 1);
      LineOrdered(c, d, lines - 1);
      SendsNext(c, d, lines - 1);
      Behind(AllSends(c, d, false, lines - 1), LineSends(c, d, false, lines - 1), c, d, lines - 1);
    }
  }

  lemma NoSends(c: Win, d: Win)
    requires c.maxy == d.maxy && c.maxx == d.maxx
    ensures 0 < c.maxy && Ordered(AllSends(c, d, false, 0), c, d, 0, 0)
  {
  }

  lemma SendsNext(c: Win, d: Win, line: nat)
    requires line < c.maxy == d.maxy && c.maxx == d.maxx
    ensures AllSends(c, d, false, line + 1) == AllSends(c, d, false, line) + LineSends(c, d, false, line)
  {
  }

  /** The sends of one more line behind those of the lines before it. */
  lemma Behind(a: seq<Send>, b: seq<Send>, c: Win, d: Win, line: nat)
    requires c.maxy == d.maxy && c.maxx == d.maxx && Ordered(a, c, d, 0, line) && Ordered(b, c, d, line, line + 1)
    ensures Ordered(a + b, c, d, 0, line + 1)
  {
    hide Worth;
  }

  lemma LineOrdered(c: Win, d: Win, line: nat)
    requires line < c.maxy == d.maxy && c.maxx == d.maxx
    ensures Ordered(LineSends(c, d, false, line), c, d, line, line + 1)
  {
    hide Runs, Separated, WorthSending;
    if c.Touched(line) {
      RunsSeparated(c.cells[line], d.cells[line], c.first[line], c.last[line]);
      RunsOrdered(Runs(c.cells[line], d.cells[line], c.first[line], c.last[line]), c.cells[line], d.cells[line],
                  c.first[line], c.last[line]);
    }
  }

  /** Separated runs one by one. */
  lemma {:induction false} RunsOrdered(runs: seq<Run>, src: Row, dst: Row, from: int, last: int)
    requires 0 <= from && last < |src| == |dst| && Separated(runs, src, dst, from, last)
    ensures forall i | 0 <= i < |runs| ::
              && from <= runs[i].x && 0 < runs[i].len && runs[i].x + runs[i].len <= last + 1
              && WorthSending(runs[i], src, dst)
    ensures forall i, j | 0 <= i < j < |runs| :: runs[i].x + runs[i].len + 1 < runs[j].x
    decreases |runs|
  {
    if runs != [] {
      var (r, rest) := (runs[0], runs[1..]);
      HeadWorth(r, src, dst, from, last);
      RunsOrdered(rest, src, dst, r.x + r.len, last);
      forall i | 0 <= i < |rest|
        ensures r.x + r.len + 1 < rest[i].x
      {
        AfterGap(r, rest[i], src, dst, from, last);
      }
      assert runs == [r] + rest;
      hide Separated, WorthSending, Heads;
    }
  }

  lemma HeadWorth(r: Run, src: Row, dst: Row, from: int, last: int)
    requires 0 <= from && last < |src| == |dst| && Heads(r, src, dst, from, last)
    ensures 0 < r.len && from <= r.x && r.x + r.len <= last + 1 && WorthSending(r, src, dst)
  {
    forall k | r.x < k < r.x + r.len
      ensures src[k] != dst[k] || src[k - 1] != dst[k - 1]
    {
      assert Worthwhile(src, dst, k - 1, r.x + r.len);
    }
  }

  lemma AfterGap(r: Run, q: Run, src: Row, dst: Row, from: int, last: int)
    requires 0 <= from && last < |src| == |dst| && Heads(r, src, dst, from, last)
    requires r.x + r.len <= q.x && 0 < q.len && q.x + q.len <= last + 1 && WorthSending(q, src, dst)
    ensures r.x + r.len + 1 < q.x
  {
    assert Quiet(src, dst, r.x + r.len, last) && Quiet(src, dst, r.x + r.len + 1, last);
  }

  lemma AllIsSent(c: Win, d: Win, r: nat, x: nat)
    requires r < c.maxy == d.maxy && x < c.maxx == d.maxx
    ensures Hit(AllSends(c, d, true, c.maxy), r, x)
  {
    var q := Send(r, 0, c.maxx);
    assert q in LineSends(c, d, true, r) && Hits(q, r, x);
    AllSendsHas(c, d, true, c.maxy, r, q);
  }

  /** After doupdate the display shows curscr under the current pair table. */
  lemma UpdateShows(s: Sys)
    requires Inv(s)
    ensures Update(s).Valid() && Displays(s.cfg, Update(s).shown, s.cur.cells)
  {
    hide Render, AllSends;
    forall r | 0 <= r < s.cur.maxy
      ensures Repainted(s)[r] == RenderRow(s.cfg, s.cur.cells[r])
    {
      forall x | 0 <= x < s.cur.maxx
        ensures Repainted(s)[r][x] == Render(s.cfg, s.cur.cells[r][x])
      {
        CellShows(s, r, x);
      }
    }
  }

  lemma CellShows(s: Sys, r: nat, x: nat)
    requires Inv(s) && r < s.cur.maxy && x < s.cur.maxx
    ensures Repainted(s)[r][x] == Render(s.cfg, s.cur.cells[r][x])
  {
    hide Render, AllSends, Hit;
    if s.Repaints() {
      AllIsSent(s.cur, s.last, r, x);
    } else {
      assert CoversAt(s.cur, s.last.cells, r, x);
      if s.cur.cells[r][x] != s.last.cells[r][x] {
        ChangedIsSent(s.cur, s.last, r, x);
      } else {
        assert s.shown[r][x] == RenderRow(s.cfg, s.last.cells[r])[x];
      }
    }
  }

  // ---------------------------------------------------------------- runs

  /** One step of a program. A copy takes its cells from any other window, of the run or
      not; what it leaves in the interval of a clean row is open, so the step names its
      outcome v. */
  datatype Event =
    | Opens(w: Win)                                               // newwin
    | Closes(i: nat)                                              // delwin(window i)
    | Moves(i: nat, y: int, x: int)                               // mvwin(window i, y, x)
    | Resizes(i: nat, nlines: int, ncols: int)                    // resize_window(window i, nlines, ncols)
    | Draws(i: nat, op: DrawOp)                                   // a drawing operation on window i
    | Copies(src: Win, i: nat, g: Region, over: bool, v: Win)     // overlay, overwrite or copywin onto window i
    | Refreshes(i: nat)                                           // wnoutrefresh(window i)
    | Merges(w: Win)                                              // wnoutrefresh of a window that may overlap others
    | Updates                                                     // doupdate
    | StartsColor(colors: int, original: bool)                    // start_color
    | SetsPair(pair: int, fg: int, bg: int)                       // init_pair
    | SetsDefaults(fg: int, bg: int)                              // assume_default_colors
    | UsesDefaults                                                // use_default_colors
    | Leaves                                                      // endwin
    | Redraws                                                     // clearok(curscr, TRUE)

  /** Windows are kept on the screen and apart, unless none is kept track of, and are drawn
      on safely, colours are started before anything they would change is painted, and no
      cell reaches the display in a colour pair the program has not set. */
  ghost predicate Legal(s: Sys, e: Event)
    requires s.Valid()
  {
    match e
    case Opens(w) => New(w) && Placed(s, w, |s.wins|)
    case Closes(i) => i < |s.wins|
    case Moves(i, y, x) => i < |s.wins| && Placed(s, MvWin(s.wins[i], y, x, s.cur.maxy, s.cur.maxx).win, i)
    case Resizes(i, nlines, ncols) =>
      i < |s.wins| && 0 < nlines && 0 < ncols && Placed(s, Resized(s.wins[i], nlines, ncols), i)
    case Draws(i, op) => i < |s.wins| && Safe(s.wins[i], op)
    case Copies(src, i, g, over, v) => i < |s.wins| && g.Fits(src, s.wins[i]) && Copied(src, s.wins[i], v, g, over)
    case Refreshes(i) => i < |s.wins|
    case Merges(w) => s.wins == [] && Inside(w, s.cur)
    case Updates => AllUse(s.pal, s.cur.cells)
    case StartsColor(n, original) =>
      (n == 8 || n == 16) &&
      var c := StartColor(s.pal, s.cfg, n, original);
      s.Repaints() || (AllUse(c.pal, s.last.cells) && LooksSame(s.cfg, c.cfg, s.last.cells))
    case _ => true
  }

  /** w is as newwin leaves a window. */
  predicate New(w: Win) { w == NewWin(w.maxy, w.maxx, w.begy, w.begx, w.clear) }

  /** w may stand on the screen in place of window i, or beside all windows. */
  predicate Placed(s: Sys, w: Win, i: nat) {
    Inside(w, s.cur) && forall j | 0 <= j < |s.wins| && j != i :: Beside(s.wins[j], w) || Beside(w, s.wins[j])
  }

  function Recolor(s: Sys, c: Change): Sys {
    s.(pal := c.pal, cfg := c.cfg, cur := s.cur.(clear := s.cur.clear || c.repaint))
  }

  ghost function Step(raw: bool, s: Sys, e: Event): Sys
    requires s.Valid() && Legal(s, e)
  {
    match e
    case Opens(w) => s.(wins := s.wins + [w])
    case Closes(i) => s.(wins := s.wins[..i] + s.wins[i + 1..])
    case Moves(i, y, x) => s.(wins := s.wins[i := MvWin(s.wins[i], y, x, s.cur.maxy, s.cur.maxx).win])
    case Resizes(i, nlines, ncols) => s.(wins := s.wins[i := Resized(s.wins[i], nlines, ncols)])
    case Draws(i, op) => s.(wins := s.wins[i := Apply(raw, s.wins[i], op)])
    case Copies(_, i, _, _, v) => s.(wins := s.wins[i := v])
    case Refreshes(i) => s.(wins := s.wins[i := NoutWin(s.wins[i])], cur := NoutCur(s.wins[i], s.cur))
    case Merges(w) => s.(cur := NoutCur(w, s.cur))
    case Updates => Update(s)
    case StartsColor(n, original) => Recolor(s, StartColor(s.pal, s.cfg, n, original))
    case SetsPair(p, fg, bg) => Recolor(s, InitPair(s.pal, s.cfg, p, fg, bg))
    case SetsDefaults(fg, bg) => Recolor(s, DefaultColors(s.pal, s.cfg, fg, bg))
    case UsesDefaults => Recolor(s, UseDefaultColors(s.pal, s.cfg))
    case Leaves => s.(alive := false)
    case Redraws => s.(cur := s.cur.(clear := true))
  }

  /** The state after initscr: stdscr, the one window, is wholly marked, unless the old
      screen is to be preserved. */
  ghost predicate Started(s: Sys, preserve: bool) {
    && s.Valid() && s.alive && s.cur == Curscr(s.cur.maxy, s.cur.maxx, preserve)
    && s.last == Lastscr(s.cur.maxy, s.cur.maxx)
    && |s.wins| == 1 && var w := NewWin(s.cur.maxy, s.cur.maxx, 0, 0, true);
    s.wins[0] == if preserve then UntouchWin(w).(clear := false) else w
  }

  /** After initscr the invariant holds, but for a preserved screen that was not blank:
      then doupdate takes cells for painted that are not. */
  lemma Startup(s: Sys, preserve: bool)
    requires Started(s, preserve)
    ensures Inv(s) <==> !preserve || Displays(s.cfg, s.shown, s.last.cells)
  {
    hide Displays;
    ScreensFrames(s.cur.maxy, s.cur.maxx, preserve);
    SameIsCovered(s.wins[0], s.cur);
    forall r, x | 0 <= r < |s.last.cells| && 0 <= x < |s.last.cells[r]|
      ensures Uses(s.pal, s.last.cells[r][x])
    {
      assert s.last.cells[r][x] == BLANK;
    }
  }

  /** Putting any covered window on the screen, in an old one's place or a place of its own. */
  lemma PlaceStep(s: Sys, i: nat, w: Win)
    requires Inv(s) && i < |s.wins| && Placed(s, w, i) && Covers(w, s.cur.cells)
    ensures Inv(s.(wins := s.wins[i := w]))
  {
    hide Covers, Displays, AllUse, Inside;
    var t := s.(wins := s.wins[i := w]);
    forall a, b | 0 <= a < b < |t.wins|
      ensures Beside(t.wins[a], t.wins[b])
    {
      assert Beside(s.wins[a], s.wins[b]);
    }
  }

  lemma OpenStep(s: Sys, w: Win)
    requires Inv(s) && New(w) && Placed(s, w, |s.wins|)
    ensures Inv(s.(wins := s.wins + [w]))
  {
    MarkedCovers(w, s.cur.cells);
    hide Covers, Displays, AllUse, Inside;
    var t := s.(wins := s.wins + [w]);
    forall a, b | 0 <= a < b < |t.wins|
      ensures Beside(t.wins[a], t.wins[b])
    {
      assert b < |s.wins| ==> Beside(s.wins[a], s.wins[b]);
    }
  }

  lemma MarkedCovers(w: Win, g: Grid)
    requires OnScreen(w, g) && w.first == Fill(0, w.maxy) && w.last == Fill(w.maxx - 1, w.maxy)
    ensures Covers(w, g)
  {
  }

  lemma CloseStep(s: Sys, i: nat)
    requires Inv(s) && i < |s.wins|
    ensures Inv(s.(wins := s.wins[..i] + s.wins[i + 1..]))
  {
    hide Covers, Displays, AllUse, Inside;
    var t := s.(wins := s.wins[..i] + s.wins[i + 1..]);
    forall a, b | 0 <= a < b < |t.wins|
      ensures Beside(t.wins[a], t.wins[b])
    {
      assert Beside(s.wins[if a < i then a else a + 1], s.wins[if b < i then b else b + 1]);
    }
  }

  lemma MoveStep(s: Sys, i: nat, y: int, x: int)
    requires Inv(s) && i < |s.wins| && Placed(s, MvWin(s.wins[i], y, x, s.cur.maxy, s.cur.maxx).win, i)
    ensures Inv(s.(wins := s.wins[i := MvWin(s.wins[i], y, x, s.cur.maxy, s.cur.maxx).win]))
  {
    var w := s.wins[i];
    var m := MvWin(w, y, x, s.cur.maxy, s.cur.maxx);
    if m.ok {
      assert m.win.first == Fill(0, w.maxy) && m.win.last == Fill(w.maxx - 1, w.maxy);
      MarkedCovers(m.win, s.cur.cells);
    }
    hide MvWin, Covers;
    PlaceStep(s, i, m.win);
  }

  /** A window just resized is wholly marked. */
  lemma ResizeStep(s: Sys, i: nat, nlines: int, ncols: int)
    requires Inv(s) && i < |s.wins| && 0 < nlines && 0 < ncols && Placed(s, Resized(s.wins[i], nlines, ncols), i)
    ensures Inv(s.(wins := s.wins[i := Resized(s.wins[i], nlines, ncols)]))
  {
    var v := Resized(s.wins[i], nlines, ncols);
    assert v.first == Fill(0, v.maxy) && v.last == Fill(v.maxx - 1, v.maxy);
    hide Resized, Covers;
    assert OnScreen(v, s.cur.cells);
    MarkedCovers(v, s.cur.cells);
    PlaceStep(s, i, v);
  }

  /** Whatever draws on a window keeps the invariant. */
  lemma DrawStep(s: Sys, i: nat, v: Win)
    requires Inv(s) && i < |s.wins| && Damage.Draws(s.wins[i], v)
    ensures Inv(s.(wins := s.wins[i := v]))
  {
    hide Covers, Displays, AllUse;
    DrawsKeepsCoverage(s.wins[i], v, s.cur.cells);
    PlaceStep(s, i, v);
  }

  lemma RefreshStep(s: Sys, i: nat)
    requires Inv(s) && i < |s.wins|
    ensures Inv(s.(wins := s.wins[i := NoutWin(s.wins[i])], cur := NoutCur(s.wins[i], s.cur)))
  {
    hide NoutCur, NoutWin, Covers, Displays, AllUse, Damage.Draws;
    var t := s.(wins := s.wins[i := NoutWin(s.wins[i])], cur := NoutCur(s.wins[i], s.cur));
    NoutDraws(s.wins[i], s.cur);
    RefreshedOnCur(s.wins[i], s.cur);
    OnCurCovered(t.wins[i], t.cur);
    forall j | 0 <= j < |s.wins|
      ensures Covers(t.wins[j], t.cur.cells)
    {
      if j != i {
        BesideCovered(s.wins[i], s.wins[j], s.cur);
      }
    }
    if !s.Repaints() {
      DrawsKeepsCoverage(s.cur, t.cur, s.last.cells);
    }
  }

  /** curscr holds the window's cells. */
  ghost predicate OnCur(w: Win, c: Win) {
    Inside(w, c) && forall r, x | 0 <= r < w.maxy && 0 <= x < w.maxx :: OnCurAt(w, c, r, x)
  }

  predicate OnCurAt(w: Win, c: Win, r: int, x: int)
    requires Inside(w, c) && 0 <= r < w.maxy && 0 <= x < w.maxx
  {
    c.cells[w.begy + r][w.begx + x] == w.cells[r][x]
  }

  lemma RefreshedOnCur(w: Win, c: Win)
    requires Inside(w, c) && Covers(w, c.cells)
    ensures OnCur(w, NoutCur(w, c)) && OnCur(NoutWin(w), NoutCur(w, c))
  {
    hide NoutCur, NoutWin, Covers;
    NoutShows(w, c);
    forall r, x | 0 <= r < w.maxy && 0 <= x < w.maxx
      ensures OnCurAt(w, NoutCur(w, c), r, x)
    {
    }
    SameOnCur(w, NoutWin(w), NoutCur(w, c));
  }

  lemma SameOnCur(w: Win, v: Win, c: Win)
    requires OnCur(w, c) && SameFrame(w, v) && v.cells == w.cells
    ensures OnCur(v, c)
  {
    forall r, x | 0 <= r < v.maxy && 0 <= x < v.maxx
      ensures OnCurAt(v, c, r, x)
    {
      assert OnCurAt(w, c, r, x);
    }
  }

  lemma OnCurCovered(w: Win, c: Win)
    requires OnCur(w, c)
    ensures Covers(w, c.cells)
  {
    forall r, x | 0 <= r < w.maxy && 0 <= x < w.maxx
      ensures CoversAt(w, c.cells, r, x)
    {
      assert OnCurAt(w, c, r, x);
    }
  }

  /** Drawing on curscr keeps what joins it to the display. */
  lemma CurDrawn(s: Sys, c: Win)
    requires Inv(s) && s.wins == [] && Damage.Draws(s.cur, c) && c.clear == s.cur.clear
    ensures Inv(s.(cur := c))
  {
    assert SameFrame(s.cur, c);
    hide Damage.Draws, Covers, Displays, AllUse;
    if !s.Repaints() {
      DrawsKeepsCoverage(s.cur, c, s.last.cells);
    }
  }

  /** Refreshing one window leaves the cells under another alone. */
  lemma BesideCovered(w: Win, v: Win, c: Win)
    requires Inside(w, c) && Inside(v, c) && (Beside(w, v) || Beside(v, w)) && Covers(v, c.cells)
    ensures Covers(v, NoutCur(w, c).cells)
  {
    hide NoutCur;
    forall r, x | 0 <= r < v.maxy && 0 <= x < v.maxx
      ensures CoversAt(v, NoutCur(w, c).cells, r, x)
    {
      assert CoversAt(v, c.cells, r, x);
      NoutCell(w, c, v.begy + r, v.begx + x);
    }
  }

  lemma UpdateStep(s: Sys)
    requires Inv(s) && AllUse(s.pal, s.cur.cells)
    ensures Inv(Update(s))
  {
    UpdateShows(s);
    hide Repainted, AllUse, Displays, Render, Unmarked;
    SameIsCovered(Update(s).cur, Update(s).last);
  }

  lemma RecolorStep(s: Sys, c: Change)
    requires Inv(s) && c.pal.Valid() && c.cfg.Valid()
    requires !s.Repaints() ==> AllUse(c.pal, s.last.cells) && (c.repaint || LooksSame(s.cfg, c.cfg, s.last.cells))
    ensures Inv(Recolor(s, c))
  {
    hide Render, Covers, AllUse, LooksSame, Displays;
    if !s.Repaints() && !c.repaint {
      LooksKept(s.cfg, c.cfg, s.shown, s.last.cells);
    }
  }

  lemma LooksKept(before: Config, after: Config, shown: seq<seq<VCell>>, g: Grid)
    requires before.Valid() && after.Valid() && LooksSame(before, after, g) && Displays(before, shown, g)
    ensures Displays(after, shown, g)
  {
    hide Render;
    forall r | 0 <= r < |g|
      ensures RenderRow(after, g[r]) == RenderRow(before, g[r])
    {
      assert forall x | 0 <= x < |g[r]| :: Render(after, g[r][x]) == Render(before, g[r][x]);
    }
  }

  lemma InvValid(s: Sys)
    requires Inv(s)
    ensures s.Valid() && s.pal.Valid() && s.cfg.Valid()
    ensures s.Repaints() || AllUse(s.pal, s.last.cells)
  {
  }

  lemma StepInv(raw: bool, s: Sys, e: Event)
    requires Inv(s) && Legal(s, e)
    ensures Inv(Step(raw, s, e))
  {
    hide Covers, Displays, AllUse, Update, Apply, Render, StartColor, InitPair, DefaultColors, UseDefaultColors, Copied,
         MvWin, Resized, NoutCur, NoutWin, Safe, Placed, Damage.Draws, New, Inv, LooksSame;
    InvValid(s);
    match e
    case Opens(w) => OpenStep(s, w);
    case Closes(i) => CloseStep(s, i);
    case Moves(i, y, x) => MoveStep(s, i, y, x);
    case Resizes(i, nlines, ncols) => ResizeStep(s, i, nlines, ncols);
    case Draws(i, op) =>
      EveryOpDraws(raw, s.wins[i], op);
      DrawStep(s, i, Apply(raw, s.wins[i], op));
    case Copies(src, i, g, over, v) =>
      CopyDraws(src, s.wins[i], v, g, over);
      DrawStep(s, i, v);
    case Refreshes(i) => RefreshStep(s, i);
    case Merges(w) =>
      NoutDraws(w, s.cur);
      CurDrawn(s, NoutCur(w, s.cur));
    case Updates => UpdateStep(s);
    case StartsColor(n, original) => RecolorStep(s, StartColor(s.pal, s.cfg, n, original));
    case SetsPair(p, fg, bg) =>
      InitPairKeeps(s.pal, s.cfg, p, fg, bg, s.last.cells);
      RecolorStep(s, InitPair(s.pal, s.cfg, p, fg, bg));
    case SetsDefaults(fg, bg) =>
      DefaultColorsKeeps(s.pal, s.cfg, fg, bg, s.last.cells);
      RecolorStep(s, DefaultColors(s.pal, s.cfg, fg, bg));
    case UsesDefaults =>
      UseDefaultsKeeps(s.pal, s.cfg, s.last.cells);
      RecolorStep(s, UseDefaultColors(s.pal, s.cfg));
    case Leaves => ClearStep(s);
    case Redraws => ClearStep(s);
  }

  /** With a repaint pending the display need not be in step. */
  lemma ClearStep(s: Sys)
    requires Inv(s)
    ensures Inv(s.(alive := false)) && Inv(s.(cur := s.cur.(clear := true)))
  {
  }

  ghost predicate LegalSysRun(raw: bool, s: Sys, es: seq<Event>)
    requires Inv(s)
    decreases |es|
  {
    if es == [] then true
    else Legal(s, es[0]) && (StepInv(raw, s, es[0]); LegalSysRun(raw, Step(raw, s, es[0]), es[1..]))
  }

  ghost function SysRun(raw: bool, s: Sys, es: seq<Event>): (t: Sys)
    requires Inv(s) && LegalSysRun(raw, s, es)
    ensures Inv(t)
    decreases |es|
  {
    if es == [] then s else StepInv(raw, s, es[0]); SysRun(raw, Step(raw, s, es[0]), es[1..])
  }

  // ---------------------------------------------------------------- end to end

  /** Every window refreshed in turn, the first n of them. */
  ghost function RefreshAll(s: Sys, n: nat): (t: Sys)
    requires Inv(s) && n <= |s.wins|
    ensures Inv(t) && |t.wins| == |s.wins| && t.cfg == s.cfg && t.pal == s.pal
  {
    if n == 0 then s
    else
      RefreshOne(RefreshAll(s, n - 1), n - 1)
  }

  ghost function RefreshOne(s: Sys, i: nat): (t: Sys)
    requires Inv(s) && i < |s.wins|
    ensures Inv(t) && |t.wins| == |s.wins| && t.cfg == s.cfg && t.pal == s.pal
  {
    RefreshStep(s, i);
    s.(wins := s.wins[i := NoutWin(s.wins[i])], cur := NoutCur(s.wins[i], s.cur))
  }

  lemma BesideOnCur(w: Win, v: Win, c: Win)
    requires Inside(w, c) && (Beside(w, v) || Beside(v, w)) && OnCur(v, c)
    ensures OnCur(v, NoutCur(w, c))
  {
    hide NoutCur;
    forall r, x | 0 <= r < v.maxy && 0 <= x < v.maxx
      ensures OnCurAt(v, NoutCur(w, c), r, x)
    {
      assert OnCurAt(v, c, r, x);
      NoutCell(w, c, v.begy + r, v.begx + x);
    }
  }

  /** The first n windows are on curscr. */
  ghost predicate FirstOnCur(s: Sys, n: nat) {
    n <= |s.wins| && forall i | 0 <= i < n :: OnCur(s.wins[i], s.cur)
  }

  /** The windows show what they did. */
  predicate SameWindows(s: Sys, t: Sys) {
    |t.wins| == |s.wins| &&
    forall i | 0 <= i < |s.wins| :: SameFrame(s.wins[i], t.wins[i]) && t.wins[i].cells == s.wins[i].cells
  }

  lemma SameWindowsTransitive(s: Sys, t: Sys, u: Sys)
    requires SameWindows(s, t) && SameWindows(t, u)
    ensures SameWindows(s, u)
  {
  }

  /** One more window refreshed. */
  lemma RefreshOneOnCur(s: Sys, n: nat)
    requires Inv(s) && n < |s.wins| && FirstOnCur(s, n)
    ensures FirstOnCur(RefreshOne(s, n), n + 1) && SameWindows(s, RefreshOne(s, n))
  {
    hide NoutCur, NoutWin, Covers, Displays, AllUse, OnCur, RawWin.Valid;
    RefreshedOnCur(s.wins[n], s.cur);
    forall i | 0 <= i < n
      ensures OnCur(s.wins[i], NoutCur(s.wins[n], s.cur))
    {
      BesideOnCur(s.wins[n], s.wins[i], s.cur);
    }
  }

  lemma {:induction false} RefreshAllOnCur(s: Sys, n: nat)
    requires Inv(s) && n <= |s.wins|
    ensures FirstOnCur(RefreshAll(s, n), n) && SameWindows(s, RefreshAll(s, n))
    decreases n
  {
    hide Inv, RefreshOne, OnCur, RawWin.Valid;
    if n > 0 {
      RefreshAllOnCur(s, n - 1);
      var u := RefreshAll(s, n - 1);
      RefreshOneOnCur(u, n - 1);
      SameWindowsTransitive(s, u, RefreshOne(u, n - 1));
    }
  }

  /** The window is on the display. */
  ghost predicate OnDisplay(cfg: Config, shown: seq<seq<VCell>>, w: Win)
    requires cfg.Valid()
  {
    && 0 <= w.begy && w.begy + w.maxy <= |shown| && 0 <= w.begx
    && (forall r | 0 <= r < |shown| :: w.begx + w.maxx <= |shown[r]|)
    && (forall r, x | 0 <= r < w.maxy && 0 <= x < w.maxx :: OnDisplayAt(cfg, shown, w, r, x))
  }

  predicate OnDisplayAt(cfg: Config, shown: seq<seq<VCell>>, w: Win, r: int, x: int)
    requires cfg.Valid() && 0 <= r < w.maxy && 0 <= x < w.maxx
    requires 0 <= w.begy && w.begy + r < |shown| && 0 <= w.begx && w.begx + x < |shown[w.begy + r]|
  {
    shown[w.begy + r][w.begx + x] == Render(cfg, w.cells[r][x])
  }

  lemma OnCurDisplays(cfg: Config, shown: seq<seq<VCell>>, w: Win, c: Win)
    requires cfg.Valid() && OnCur(w, c) && Displays(cfg, shown, c.cells)
    ensures OnDisplay(cfg, shown, w)
  {
    hide Render;
    forall r, x | 0 <= r < w.maxy && 0 <= x < w.maxx
      ensures OnDisplayAt(cfg, shown, w, r, x)
    {
      assert OnCurAt(w, c, r, x);
      assert shown[w.begy + r] == RenderRow(cfg, c.cells[w.begy + r]);
    }
  }

  /** End to end: after any legal run, refreshing every window and updating once shows
      each window, whole and in the present colours, in its place on the display. */
  lemma EndToEnd(raw: bool, s: Sys, es: seq<Event>)
    requires Inv(s) && LegalSysRun(raw, s, es)
    ensures var t := SysRun(raw, s, es);
            forall i | 0 <= i < |t.wins| :: OnDisplay(t.cfg, Update(RefreshAll(t, |t.wins|)).shown, t.wins[i])
  {
    var t := SysRun(raw, s, es);
    hide SysRun, LegalSysRun, Repainted, Displays, OnCur, OnDisplay, Covers, AllUse, RefreshAll;
    var u := RefreshAll(t, |t.wins|);
    RefreshAllOnCur(t, |t.wins|);
    UpdateShows(u);
    forall i | 0 <= i < |t.wins|
      ensures OnDisplay(t.cfg, Update(u).shown, t.wins[i])
    {
      OnCurDisplays(t.cfg, Update(u).shown, u.wins[i], u.cur);
      SameOnDisplay(t.cfg, Update(u).shown, t.wins[i], u.wins[i]);
    }
  }

  lemma SameOnDisplay(cfg: Config, shown: seq<seq<VCell>>, w: Win, v: Win)
    requires cfg.Valid() && SameFrame(w, v) && v.cells == w.cells && OnDisplay(cfg, shown, v)
    ensures OnDisplay(cfg, shown, w)
  {
    hide Render;
    forall r, x | 0 <= r < w.maxy && 0 <= x < w.maxx
      ensures OnDisplayAt(cfg, shown, w, r, x)
    {
      assert OnDisplayAt(cfg, shown, v, r, x);
    }
  }

  /** Colours: whatever has been redefined along the way, each doupdate of a legal run
      leaves the display showing curscr under the pair table of that moment. */
  lemma EveryUpdateShows(raw: bool, s: Sys, es: seq<Event>)
    requires Inv(s) && LegalSysRun(raw, s, es)
    ensures var t := SysRun(raw, s, es);
            Displays(t.cfg, Update(t).shown, t.cur.cells) && Update(t).last.cells == t.cur.cells
  {
    hide SysRun, LegalSysRun, Repainted, Displays;
    UpdateShows(SysRun(raw, s, es));
  }
}
