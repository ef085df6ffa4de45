/** wnoutrefresh and doupdate as functions: what one refresh copies into curscr, and
    the runs of cells one update sends to the display. */
module RefreshModel {
  import opened Cells
  import opened WindowModel
  import opened Damage

  // ---------------------------------------------------------------- wnoutrefresh

  /** w lies inside c. */
  predicate Inside(w: Win, c: Win) {
    0 <= w.begy && w.begy + w.maxy <= c.maxy && 0 <= w.begx && w.begx + w.maxx <= c.maxx
  }

  /** Row j of c, with its interval, after row j of the screen of w is refreshed. */
  datatype Line = Line(row: Row, f: int, l: int)

  /** src's marked interval [f, l], narrowed to its first and last real difference from
      dst, is copied into dst at `off` and merged into the interval of dst. */
  function NoutLine(src: Row, f: int, l: int, dst: Line, off: nat): (r: Line)
    requires off + |src| <= |dst.row| && IsInterval(f, l, |src|) && IsInterval(dst.f, dst.l, |dst.row|)
    ensures |r.row| == |dst.row| && IsInterval(r.f, r.l, |dst.row|)
  {
    if f == NO_CHANGE then dst
    else
      var first := FirstDifference(src[..l + 1], dst.row, off, f);
      if first > l then dst
      else
        var last := LastDifference(src, dst.row, off, l);
        Line(Splice(dst.row, off + first, src[first..last + 1]), Lower(dst.f, off + first), Max(dst.l, off + last))
  }

  /** NoutLine in terms of the narrowed bounds. */
  lemma NoutLineNarrowed(src: Row, f: int, l: int, dst: Line, off: nat, first: int, last: int)
    requires off + |src| <= |dst.row| && IsInterval(f, l, |src|) && IsInterval(dst.f, dst.l, |dst.row|) &&
             f != NO_CHANGE
    requires first == FirstDifference(src[..l + 1], dst.row, off, f)
    requires if first <= l then last == LastDifference(src, dst.row, off, l) else last < first
    ensures first <= last ==>
              (0 <= first <= last < |src| && NoutLine(src, f, l, dst, off) ==
               Line(Splice(dst.row, off + first, src[first..last + 1]), Lower(dst.f, off + first),
                    Max(dst.l, off + last)))
    ensures first > last ==> NoutLine(src, f, l, dst, off) == dst
  {
    hide Splice, FirstDifference, LastDifference;
    if first <= l {
      NarrowedEnds(src, l, dst.row, off, f);
    }
  }

  /** The narrowed interval is in order. */
  lemma NarrowedEnds(src: Row, l: int, row: Row, off: nat, f: int)
    requires off + |src| <= |row| && 0 <= f <= l + 1 <= |src|
    ensures var first := FirstDifference(src[..l + 1], row, off, f);
            && 0 <= f <= first <= l + 1
            && (first <= l ==> first <= LastDifference(src, row, off, l) <= l && src[first] != row[off + first])
  {
    hide FirstDifference, LastDifference;
    var first := FirstDifference(src[..l + 1], row, off, f);
    assert first <= l ==> src[..l + 1][first] == src[first];
  }

  function LineOf(c: Win, j: int): Line
    requires 0 <= j < c.maxy
  {
    Line(c.cells[j], c.first[j], c.last[j])
  }

  function NoutRow(w: Win, c: Win, j: int): (r: Line)
    requires Inside(w, c) && 0 <= j < c.maxy
    ensures |r.row| == c.maxx && IsInterval(r.f, r.l, c.maxx)
  {
    var i := j - w.begy;
    if 0 <= i < w.maxy then NoutLine(w.cells[i], w.first[i], w.last[i], LineOf(c, j), w.begx) else LineOf(c, j)
  }

  /** curscr with its rows before j (on the screen) refreshed from w. */
  function NoutRows(w: Win, c: Win, end: int): (d: Win)
    requires Inside(w, c)
    ensures SameFrame(c, d)
  {
    c.(cells := seq(c.maxy, j requires 0 <= j < c.maxy => if j < end then NoutRow(w, c, j).row else c.cells[j]),
       first := seq(c.maxy, j requires 0 <= j < c.maxy => if j < end then NoutRow(w, c, j).f else c.first[j]),
       last := seq(c.maxy, j requires 0 <= j < c.maxy => if j < end then NoutRow(w, c, j).l else c.last[j]))
  }

  /** curscr after wnoutrefresh(w). */
  function NoutCur(w: Win, c: Win): (d: Win)
    requires Inside(w, c)
    ensures SameFrame(c, d) && d.clear == c.clear
  {
    var d := NoutRows(w, c, c.maxy);
    if w.leaveit then d else d.(cury := w.cury + w.begy, curx := w.curx + w.begx)
  }

  lemma NoutCurIs(w: Win, c: Win)
    requires Inside(w, c)
    ensures var d := NoutRows(w, c, c.maxy);
            NoutCur(w, c) == if w.leaveit then d else d.(cury := w.cury + w.begy, curx := w.curx + w.begx)
  {
  }

  /** w after wnoutrefresh(w). */
  function NoutWin(w: Win): (v: Win)
    ensures SameFrame(w, v) && v.cells == w.cells
  {
    w.(first := Fill(NO_CHANGE, w.maxy), last := Fill(NO_CHANGE, w.maxy), clear := false)
  }

  /** w with the marks of its rows before i taken off. */
  function NoutMarks(w: Win, i: int): (v: Win)
    ensures v == w.(first := v.first, last := v.last)
  {
    w.(first := seq(w.maxy, r requires 0 <= r < w.maxy => if r < i then NO_CHANGE else w.first[r]),
       last := seq(w.maxy, r requires 0 <= r < w.maxy => if r < i then NO_CHANGE else w.last[r]))
  }

  lemma NoutStart(w: Win, c: Win)
    requires Inside(w, c)
    ensures NoutMarks(w, 0) == w && NoutRows(w, c, w.begy) == c
  {
    assert NoutMarks(w, 0).first == w.first && NoutMarks(w, 0).last == w.last;
    var d := NoutRows(w, c, w.begy);
    assert d.cells == c.cells && d.first == c.first && d.last == c.last;
  }

  /** w with the marks of row i taken off. */
  function Unmark(w: Win, i: int): (v: Win)
    requires 0 <= i < w.maxy
    ensures SameFrame(w, v)
  {
    w.(first := w.first[i := NO_CHANGE], last := w.last[i := NO_CHANGE])
  }

  /** c with one row refreshed from row i of w. */
  function MergeRow(w: Win, c: Win, i: int): (d: Win)
    requires Inside(w, c) && 0 <= i < w.maxy
    ensures SameFrame(c, d)
  {
    var r := NoutRow(w, c, w.begy + i);
    WithRow(c, w.begy + i, r.row, r.f, r.l)
  }

  /** MergeRow in terms of the narrowed bounds first..last. */
  lemma MergeRowIs(w: Win, c: Win, i: int, first: int, last: int, d: RawWin)
    requires Inside(w, c) && 0 <= i < w.maxy && w.Touched(i) && Narrowed(w, c, i, first, last)
    requires var j := w.begy + i;
             if first <= last
             then d == c.(cells := c.cells[j := Splice(c.cells[j], w.begx + first, w.cells[i][first..last + 1])],
                          first := c.first[j := Lower(c.first[j], w.begx + first)],
                          last := c.last[j := Max(c.last[j], w.begx + last)])
             else d == c
    ensures d == MergeRow(w, c, i)
  {
    var j := w.begy + i;
    hide NoutLine, FirstDifference, LastDifference, Splice, Lower, Max;
    NoutLineNarrowed(w.cells[i], w.first[i], w.last[i], LineOf(c, j), w.begx, first, last);
    assert c.cells[j := c.cells[j]] == c.cells && c.first[j := c.first[j]] == c.first &&
           c.last[j := c.last[j]] == c.last;
  }

  /** A clean row changes nothing. */
  lemma MergeRowClean(w: Win, c: Win, i: int)
    requires Inside(w, c) && 0 <= i < w.maxy && !w.Touched(i)
    ensures MergeRow(w, c, i) == c
  {
    var j := w.begy + i;
    assert c.cells[j := c.cells[j]] == c.cells && c.first[j := c.first[j]] == c.first &&
           c.last[j := c.last[j]] == c.last;
  }

  /** [first, last] is the interval of w's row i narrowed to real differences from c. */
  ghost predicate Narrowed(w: Win, c: Win, i: int, first: int, last: int)
    requires Inside(w, c) && 0 <= i < w.maxy && w.Touched(i)
  {
    && first == FirstDifference(w.cells[i][..w.last[i] + 1], c.cells[w.begy + i], w.begx, w.first[i])
    && (if first <= w.last[i]
        then first <= last < w.maxx && last == LastDifference(w.cells[i], c.cells[w.begy + i], w.begx, w.last[i])
        else last < first)
  }

  /** One more row refreshed. */
  lemma NoutStep(w: Win, c: Win, i: int)
    requires Inside(w, c) && 0 <= i < w.maxy
    ensures NoutMarks(w, i + 1) == Unmark(NoutMarks(w, i), i)
    ensures Inside(NoutMarks(w, i), NoutRows(w, c, w.begy + i))
    ensures NoutRows(w, c, w.begy + i + 1) == MergeRow(NoutMarks(w, i), NoutRows(w, c, w.begy + i), i)
  {
    hide NoutMarks, NoutRows, MergeRow, Unmark, RawWin.Valid;
    MarksStep(w, i);
    RowsStep(w, c, i);
    MergeSame(w, c, i);
  }

  lemma MarksStep(w: Win, i: int)
    requires 0 <= i < w.maxy
    ensures NoutMarks(w, i + 1) == Unmark(NoutMarks(w, i), i)
  {
    var v := NoutMarks(w, i);
    assert NoutMarks(w, i + 1).first == Unmark(v, i).first && NoutMarks(w, i + 1).last == Unmark(v, i).last;
  }

  lemma RowsStep(w: Win, c: Win, i: int)
    requires Inside(w, c) && 0 <= i < w.maxy
    ensures NoutRows(w, c, w.begy + i + 1) == MergeRow(w, NoutRows(w, c, w.begy + i), i)
  {
    hide NoutLine;
    var j := w.begy + i;
    var d := NoutRows(w, c, j);
    assert LineOf(d, j) == LineOf(c, j);
    var e := NoutRows(w, c, j + 1);
    var g := MergeRow(w, d, i);
    assert e.cells == g.cells && e.first == g.first && e.last == g.last;
  }

  /** The marks taken off the rows above make no difference to row i. */
  lemma MergeSame(w: Win, c: Win, i: int)
    requires Inside(w, c) && 0 <= i < w.maxy
    ensures Inside(NoutMarks(w, i), NoutRows(w, c, w.begy + i))
    ensures MergeRow(NoutMarks(w, i), NoutRows(w, c, w.begy + i), i) == MergeRow(w, NoutRows(w, c, w.begy + i), i)
  {
    hide NoutLine, NoutRows;
  }

  lemma NoutEnd(w: Win, c: Win)
    requires Inside(w, c)
    ensures NoutWin(w) == NoutMarks(w, w.maxy).(clear := false)
    ensures NoutRows(w, c, w.begy + w.maxy) == NoutRows(w, c, c.maxy)
  {
    assert NoutWin(w).first == NoutMarks(w, w.maxy).first && NoutWin(w).last == NoutMarks(w, w.maxy).last;
    var a := NoutRows(w, c, w.begy + w.maxy);
    var b := NoutRows(w, c, c.maxy);
    assert a.cells == b.cells && a.first == b.first && a.last == b.last;
  }

  /** A refreshed line holds src's marked cells and keeps the rest; whatever changed is
      marked, and no mark is lost. */
  lemma NoutLineCell(src: Row, f: int, l: int, dst: Line, off: nat, x: nat)
    requires off + |src| <= |dst.row| && IsInterval(f, l, |src|) && IsInterval(dst.f, dst.l, |dst.row|) && x < |dst.row|
    ensures var r := NoutLine(src, f, l, dst, off);
            && r.row[x] == (if f != NO_CHANGE && off + f <= x <= off + l then src[x - off] else dst.row[x])
            && (dst.f != NO_CHANGE && dst.f <= x <= dst.l ==> r.f != NO_CHANGE && r.f <= x <= r.l)
            && (r.row[x] != dst.row[x] ==> r.f != NO_CHANGE && r.f <= x <= r.l)
  {
    hide *;
    LineCopied(src, f, l, dst, off, x);
    LineMarked(src, f, l, dst, off, x);
  }

  lemma LineCopied(src: Row, f: int, l: int, dst: Line, off: nat, x: nat)
    requires off + |src| <= |dst.row| && IsInterval(f, l, |src|) && IsInterval(dst.f, dst.l, |dst.row|) && x < |dst.row|
    ensures NoutLine(src, f, l, dst, off).row[x] ==
            if f != NO_CHANGE && off + f <= x <= off + l then src[x - off] else dst.row[x]
  {
    hide Splice, FirstDifference, LastDifference, Lower, Max;
    if f != NO_CHANGE {
      var first := FirstDifference(src[..l + 1], dst.row, off, f);
      NarrowedEnds(src, l, dst.row, off, f);
      OutsideSame(src, l, dst.row, off, f, x);
      if first <= l {
        SpliceCell(dst.row, src, off, first, LastDifference(src, dst.row, off, l), x);
      }
    }
  }

  lemma LineMarked(src: Row, f: int, l: int, dst: Line, off: nat, x: nat)
    requires off + |src| <= |dst.row| && IsInterval(f, l, |src|) && IsInterval(dst.f, dst.l, |dst.row|) && x < |dst.row|
    ensures var r := NoutLine(src, f, l, dst, off);
            && (dst.f != NO_CHANGE && dst.f <= x <= dst.l ==> r.f != NO_CHANGE && r.f <= x <= r.l)
            && (r.row[x] != dst.row[x] ==> r.f != NO_CHANGE && r.f <= x <= r.l)
  {
    hide Splice, FirstDifference, LastDifference;
    if f != NO_CHANGE {
      var first := FirstDifference(src[..l + 1], dst.row, off, f);
      NarrowedEnds(src, l, dst.row, off, f);
      if first <= l {
        SpliceCell(dst.row, src, off, first, LastDifference(src, dst.row, off, l), x);
      }
    }
  }

  /** Marked cells outside the narrowed interval are what they were. */
  lemma OutsideSame(src: Row, l: int, row: Row, off: nat, f: int, x: nat)
    requires off + |src| <= |row| && 0 <= f <= l + 1 <= |src| && x < |row|
    ensures var first := FirstDifference(src[..l + 1], row, off, f);
            && (off + f <= x < off + first ==> src[x - off] == row[x])
            && (first <= l && off + LastDifference(src, row, off, l) < x <= off + l ==> src[x - off] == row[x])
  {
    hide FirstDifference, LastDifference;
    var i := x - off;
    var first := FirstDifference(src[..l + 1], row, off, f);
    assert row[off + i] == row[x];
    assert f <= i < first ==> src[..l + 1][i] == src[i];
  }

  lemma SpliceCell(row: Row, src: Row, off: nat, first: nat, last: int, x: nat)
    requires off + |src| <= |row| && first <= last < |src| && x < |row|
    ensures Splice(row, off + first, src[first..last + 1])[x] ==
            if off + first <= x <= off + last then src[x - off] else row[x]
  {
    var part := src[first..last + 1];
    assert off + first <= x <= off + last ==> part[x - (off + first)] == src[x - off];
  }

  /** Refreshing curscr is drawing on it. */
  lemma NoutDraws(w: Win, c: Win)
    requires Inside(w, c)
    ensures Draws(c, NoutCur(w, c))
  {
    hide NoutLine;
    var d := NoutCur(w, c);
    forall j, x | 0 <= j < c.maxy && 0 <= x < c.maxx
      ensures DrawnAt(c, d, j, x)
    {
      var i := j - w.begy;
      if 0 <= i < w.maxy {
        NoutLineCell(w.cells[i], w.first[i], w.last[i], LineOf(c, j), w.begx, x);
      }
    }
  }

  /** Exactly the marked cells of w are copied. */
  lemma NoutCell(w: Win, c: Win, j: int, x: int)
    requires Inside(w, c) && 0 <= j < c.maxy && 0 <= x < c.maxx
    ensures var (i, k) := (j - w.begy, x - w.begx);
            NoutCur(w, c).cells[j][x] ==
            if 0 <= i < w.maxy && 0 <= k < w.maxx && w.Damaged(i, k) then w.cells[i][k] else c.cells[j][x]
  {
    hide NoutLine;
    var i := j - w.begy;
    if 0 <= i < w.maxy {
      NoutLineCell(w.cells[i], w.first[i], w.last[i], LineOf(c, j), w.begx, x);
    }
  }

  /** What else a refresh does: curscr's cursor goes to the window's, unless that leaves it
      alone, and the window keeps no mark and no request to be cleared. */
  lemma NoutEffect(w: Win, c: Win)
    requires Inside(w, c)
    ensures var d := NoutCur(w, c);
            if w.leaveit then d.cury == c.cury && d.curx == c.curx
            else d.cury == w.begy + w.cury && d.curx == w.begx + w.curx
    ensures var v := NoutWin(w);
            && !v.clear && v.cury == w.cury && v.curx == w.curx && v.attrs == w.attrs && v.bkgd == w.bkgd
            && forall r | 0 <= r < w.maxy :: !v.Touched(r)
  {
    hide NoutLine;
  }

  /** A window whose damage is complete is wholly on curscr after its refresh. */
  lemma NoutShows(w: Win, c: Win)
    requires Inside(w, c) && Covers(w, c.cells)
    ensures forall i, k | 0 <= i < w.maxy && 0 <= k < w.maxx ::
            NoutCur(w, c).cells[w.begy + i][w.begx + k] == w.cells[i][k]
  {
    hide NoutCur;
    forall i, k | 0 <= i < w.maxy && 0 <= k < w.maxx
      ensures NoutCur(w, c).cells[w.begy + i][w.begx + k] == w.cells[i][k]
    {
      NoutCell(w, c, w.begy + i, w.begx + k);
      assert CoversAt(w, c.cells, i, k);
    }
  }

  // ---------------------------------------------------------------- doupdate

  /** `len` cells of a line from column x, sent to the display at once. */
  datatype Run = Run(x: int, len: int)

  /** How far the run at `first` reaches: changed cells, and single unchanged ones with
      a changed one behind. len cells are in it already. */
  function RunLen(src: Row, dst: Row, first: int, last: int, len: nat): (n: nat)
    requires 0 <= first && first + len <= last + 1 <= |src| == |dst|
    ensures len <= n && first + n <= last + 1
    decreases last - first - len
  {
    if first + len <= last &&
       (src[first + len] != dst[first + len] ||
        (len > 0 && first + len < last && src[first + len + 1] != dst[first + len + 1]))
    then RunLen(src, dst, first, last, len + 1) else len
  }

  /** The next changed cell from first on, or last + 1. */
  function SkipSame(src: Row, dst: Row, first: int, last: int): (n: int)
    requires 0 <= first <= last + 1 <= |src| == |dst|
    ensures first <= n <= last + 1 && (forall k | first <= k < n :: src[k] == dst[k]) &&
            (n <= last ==> src[n] != dst[n])
    decreases last - first
  {
    if first <= last && src[first] == dst[first] then SkipSame(src, dst, first + 1, last) else first
  }

  /** The runs doupdate sends for columns first..last of a line. */
  function Runs(src: Row, dst: Row, first: int, last: int): (runs: seq<Run>)
    requires 0 <= first <= last + 1 <= |src| == |dst|
    decreases last + 1 - first
  {
    if first > last then []
    else
      var len := RunLen(src, dst, first, last, 0);
      var rest := SkipSame(src, dst, first + len, last);
      RunProgress(src, dst, first, last);
      if len > 0 then [Run(first, len)] + Runs(src, dst, rest, last) else Runs(src, dst, rest, last)
  }

  /** Each round of the outer loop moves on. */
  lemma RunProgress(src: Row, dst: Row, first: int, last: int)
    requires 0 <= first <= last < |src| == |dst|
    ensures first < SkipSame(src, dst, first + RunLen(src, dst, first, last, 0), last)
    ensures RunLen(src, dst, first, last, 0) > 0 <==> src[first] != dst[first]
  {
  }

  /** Number of changed cells in columns first..last. */
  function Changed(src: Row, dst: Row, first: int, last: int): (n: nat)
    requires 0 <= first <= last + 1 <= |src| == |dst|
    decreases last + 1 - first
  {
    if first > last then 0 else (if src[first] != dst[first] then 1 else 0) + Changed(src, dst, first + 1, last)
  }

  /** Total number of cells in the runs. */
  function Sent(runs: seq<Run>): int {
    if runs == [] then 0 else runs[0].len + Sent(runs[1..])
  }

  lemma {:induction false} ChangedSplit(src: Row, dst: Row, a: int, b: int, last: int)
    requires 0 <= a <= b <= last + 1 <= |src| == |dst|
    ensures Changed(src, dst, a, last) == Changed(src, dst, a, b - 1) + Changed(src, dst, b, last)
    decreases b - a
  {
    if a < b {
      ChangedSplit(src, dst, a + 1, b, last);
    }
  }

  lemma {:induction false} NothingChanged(src: Row, dst: Row, a: int, b: int)
    requires 0 <= a <= b <= |src| == |dst| && forall k | a <= k < b :: src[k] == dst[k]
    ensures Changed(src, dst, a, b - 1) == 0
    decreases b - a
  {
    if a < b {
      NothingChanged(src, dst, a + 1, b);
    }
  }

  /** Column k of a run is changed, or the next one is and belongs to the run too. */
  predicate Worthwhile(src: Row, dst: Row, k: int, end: int)
    requires 0 <= k < end <= |src| == |dst|
  {
    src[k] != dst[k] || (k + 1 < end && src[k + 1] != dst[k + 1])
  }

  predicate Dense(src: Row, dst: Row, from: int, to: int, end: int)
    requires 0 <= from && to <= end <= |src| == |dst|
  {
    forall k | from <= k < to :: Worthwhile(src, dst, k, end)
  }

  lemma DenseLonger(src: Row, dst: Row, from: int, end: int)
    requires 0 <= from < end < |src| == |dst| && Dense(src, dst, from, end - 1, end)
    requires src[end - 1] != dst[end - 1] || src[end] != dst[end]
    ensures Dense(src, dst, from, end, end + 1)
  {
    var longer := end + 1;
    forall k | from <= k < end
      ensures Worthwhile(src, dst, k, longer)
    {
      assert k < end - 1 ==> Worthwhile(src, dst, k, end);
    }
  }

  /** Nothing to send at column k. */
  predicate Quiet(src: Row, dst: Row, k: int, last: int)
    requires |src| == |dst|
  {
    0 <= k <= last < |src| ==> src[k] == dst[k]
  }

  /** A run that has begun ends on a changed cell, two unchanged cells or the end of the
      interval follow it, and it holds fewer unchanged cells than changed ones. */
  lemma {:induction false} RunLenProper(src: Row, dst: Row, first: int, last: int, len: nat)
    requires 0 <= first && 0 < len && first + len <= last + 1 <= |src| == |dst|
    requires src[first + len - 1] != dst[first + len - 1] ||
             (first + len <= last && src[first + len] != dst[first + len])
    requires len + (if src[first + len - 1] != dst[first + len - 1] then 1 else 0)
             <= 2 * Changed(src, dst, first, first + len - 1)
    requires Dense(src, dst, first, first + len - 1, first + len)
    ensures var n := RunLen(src, dst, first, last, len);
            && src[first + n - 1] != dst[first + n - 1]
            && Quiet(src, dst, first + n, last) && Quiet(src, dst, first + n + 1, last)
            && n + 1 <= 2 * Changed(src, dst, first, first + n - 1)
            && Dense(src, dst, first, first + n, first + n)
    decreases last - first - len
  {
    hide Dense, Worthwhile, Quiet;
    if RunLen(src, dst, first, last, len) > len {
      ChangedSplit(src, dst, first, first + len, first + len);
      DenseLonger(src, dst, first, first + len);
      RunLenProper(src, dst, first, last, len + 1);
    } else {
      RunStops(src, dst, first, last, len);
    }
  }

  /** Where a run stops it ends on a changed cell with nothing to send behind it. */
  lemma RunStops(src: Row, dst: Row, first: int, last: int, len: nat)
    requires 0 <= first && 0 < len && first + len <= last + 1 <= |src| == |dst| &&
             RunLen(src, dst, first, last, len) == len
    requires src[first + len - 1] != dst[first + len - 1] ||
             (first + len <= last && src[first + len] != dst[first + len])
    requires Dense(src, dst, first, first + len - 1, first + len)
    ensures src[first + len - 1] != dst[first + len - 1] && Dense(src, dst, first, first + len, first + len)
    ensures Quiet(src, dst, first + len, last) && Quiet(src, dst, first + len + 1, last)
  {
    var end := first + len;
    assert Worthwhile(src, dst, end - 1, end);
  }

  /** r is the first run of columns from..last. */
  predicate Heads(r: Run, src: Row, dst: Row, from: int, last: int)
    requires 0 <= from && last < |src| == |dst|
  {
    && from <= r.x && 0 < r.len && r.x + r.len <= last + 1
    && (forall k | from <= k < r.x :: Quiet(src, dst, k, last))
    && src[r.x] != dst[r.x] && src[r.x + r.len - 1] != dst[r.x + r.len - 1]
    && Dense(src, dst, r.x, r.x + r.len, r.x + r.len)
    && Quiet(src, dst, r.x + r.len, last) && Quiet(src, dst, r.x + r.len + 1, last)
  }

  /** The runs cover exactly what must be sent of columns from..last: outside them
      nothing differs, each begins and ends on a changed cell and passes over single
      unchanged cells only, and at least two unchanged cells part it from the next. */
  predicate Separated(runs: seq<Run>, src: Row, dst: Row, from: int, last: int)
    requires 0 <= from && last < |src| == |dst|
  {
    if runs == [] then forall k | from <= k <= last :: Quiet(src, dst, k, last)
    else
      Heads(runs[0], src, dst, from, last) && Separated(runs[1..], src, dst, runs[0].x + runs[0].len, last)
  }

  lemma RunsUnfold(src: Row, d: Row, first: int, last: int)
    requires 0 <= first <= last < |src| == |d|
    ensures var len := RunLen(src, d, first, last, 0);
            var next := SkipSame(src, d, first + len, last);
            first < next && Runs(src, d, first, last) ==
            if len > 0 then [Run(first, len)] + Runs(src, d, next, last) else Runs(src, d, next, last)
  {
    RunProgress(src, d, first, last);
  }

  /** The run builder: without a forced clear the runs are separated, and the cells
      sent are at most twice the changed ones less the number of runs. */
  lemma {:induction false} RunsSeparated(src: Row, dst: Row, first: int, last: int)
    requires 0 <= first <= last + 1 <= |src| == |dst|
    ensures Separated(Runs(src, dst, first, last), src, dst, first, last)
    ensures Sent(Runs(src, dst, first, last)) + |Runs(src, dst, first, last)| <= 2 * Changed(src, dst, first, last)
    decreases last + 1 - first
  {
    hide *;
    if first <= last {
      var len := RunLen(src, dst, first, last, 0);
      var rest := SkipSame(src, dst, first + len, last);
      RunsUnfold(src, dst, first, last);
      RunProgress(src, dst, first, last);
      RunsSeparated(src, dst, rest, last);
      ChangedSplit(src, dst, first, first + len, last);
      ChangedSplit(src, dst, first + len, rest, last);
      NothingChanged(src, dst, first + len, rest);
      SkippedQuiet(src, dst, first + len, rest, last);
      SeparatedEarlier(Runs(src, dst, rest, last), src, dst, first + len, rest, last);
      if len > 0 {
        FirstRunHeads(src, dst, first, last);
        HeadedSeparated(Run(first, len), Runs(src, dst, rest, last), src, dst, first, last);
      }
    } else {
      NoRuns(src, dst, first, last);
    }
  }

  lemma NoRuns(src: Row, dst: Row, first: int, last: int)
    requires 0 <= first == last + 1 <= |src| == |dst|
    ensures Separated(Runs(src, dst, first, last), src, dst, first, last)
    ensures Sent(Runs(src, dst, first, last)) == |Runs(src, dst, first, last)| == 0
  {
  }

  lemma SkippedQuiet(src: Row, dst: Row, a: int, b: int, last: int)
    requires 0 <= a <= b && |src| == |dst| && (forall k | a <= k < b :: 0 <= k < |src| && src[k] == dst[k])
    ensures forall k | a <= k < b :: Quiet(src, dst, k, last)
  {
  }

  lemma FirstRunHeads(src: Row, dst: Row, first: int, last: int)
    requires 0 <= first <= last < |src| == |dst| && src[first] != dst[first]
    ensures var len := RunLen(src, dst, first, last, 0);
            len > 0 && Heads(Run(first, len), src, dst, first, last) &&
            len + 1 <= 2 * Changed(src, dst, first, first + len - 1)
  {
    RunLenProper(src, dst, first, last, 1);
  }

  lemma HeadedSeparated(r: Run, rest: seq<Run>, src: Row, dst: Row, from: int, last: int)
    requires 0 <= from && last < |src| == |dst| && Heads(r, src, dst, from, last)
    requires Separated(rest, src, dst, r.x + r.len, last)
    ensures Separated([r] + rest, src, dst, from, last) && Sent([r] + rest) == r.len + Sent(rest)
  {
    assert ([r] + rest)[1..] == rest;
  }

  lemma SeparatedEarlier(runs: seq<Run>, src: Row, dst: Row, a: int, b: int, last: int)
    requires 0 <= a <= b && last < |src| == |dst| && Separated(runs, src, dst, b, last)
    requires forall k | a <= k < b :: Quiet(src, dst, k, last)
    ensures Separated(runs, src, dst, a, last)
  {
  }

  lemma SameHead(r: Run, q: Run, src: Row, dst: Row, from: int, last: int)
    requires 0 <= from && last < |src| == |dst| && Heads(r, src, dst, from, last) && Heads(q, src, dst, from, last)
    ensures r == q
  {
    assert r.x < q.x ==> Quiet(src, dst, r.x, last);
    assert q.x < r.x ==> Quiet(src, dst, q.x, last);
    assert r.x == q.x && r.len < q.len ==> Worthwhile(src, dst, r.x + r.len, q.x + q.len);
    assert r.x == q.x && q.len < r.len ==> Worthwhile(src, dst, q.x + q.len, r.x + r.len);
  }

  /** Separation determines the runs: doupdate has no choice. */
  lemma {:induction false} SeparatedUnique(runs: seq<Run>, other: seq<Run>, src: Row, dst: Row, from: int, last: int)
    requires 0 <= from && last < |src| == |dst|
    requires Separated(runs, src, dst, from, last) && Separated(other, src, dst, from, last)
    ensures runs == other
  {
    if runs != [] && other != [] {
      SameHead(runs[0], other[0], src, dst, from, last);
      SeparatedUnique(runs[1..], other[1..], src, dst, runs[0].x + runs[0].len, last);
      assert runs == [runs[0]] + runs[1..] && other == [other[0]] + other[1..];
    } else {
      assert runs != [] ==> Quiet(src, dst, runs[0].x, last);
      assert other != [] ==> Quiet(src, dst, other[0].x, last);
    }
  }
}
