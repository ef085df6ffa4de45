/** A scrolling window is a terminal: text written into an erased window shows the
    last rows of the same text laid out on an endless page. */
module Terminal {
  import opened Cells
  import opened WindowModel

  predicate IsNewline(raw: bool, c: Chtype) { Expands(raw, c) && c.text == NEWLINE }

  predicate IsText(raw: bool, s: seq<Chtype>) {
    forall i | 0 <= i < |s| :: !Expands(raw, s[i]) || IsNewline(raw, s[i])
  }

  /** Length of the first line of s: up to a newline, the page width or the end. */
  function LineLength(raw: bool, s: seq<Chtype>, width: nat): (k: nat)
    ensures k <= width && k <= |s|
    ensures forall i | 0 <= i < k :: !IsNewline(raw, s[i])
    ensures k < width && k < |s| ==> IsNewline(raw, s[k])
    decreases width
  {
    if s == [] || width == 0 || IsNewline(raw, s[0]) then 0 else 1 + LineLength(raw, s[1..], width - 1)
  }

  /** The endless page: s cut at newlines and after every `width` characters. A full
      line is followed by a new one at once. */
  function Lines(raw: bool, s: seq<Chtype>, width: nat): (lines: seq<seq<Chtype>>)
    requires 0 < width
    ensures |lines| > 0 && |lines[|lines| - 1]| < width && forall i | 0 <= i < |lines| :: |lines[i]| <= width
    decreases |s|
  {
    var k := LineLength(raw, s, width);
    if k == width then [s[..k]] + Lines(raw, s[k..], width)
    else if k < |s| then [s[..k]] + Lines(raw, s[k + 1..], width)
    else [s]
  }

  /** The page after one more character. */
  function Extend(raw: bool, lines: seq<seq<Chtype>>, c: Chtype, width: nat): seq<seq<Chtype>>
    requires |lines| > 0
  {
    var last := lines[|lines| - 1];
    if IsNewline(raw, c) then lines + [[]]
    else if |last| + 1 < width then lines[..|lines| - 1] + [last + [c]]
    else lines[..|lines| - 1] + [last + [c], []]
  }

  /** Lines unfolded at any k that is the length of the first line. */
  lemma LinesAt(raw: bool, s: seq<Chtype>, width: nat, k: nat)
    requires 0 < width && k <= width && k <= |s| && (forall i | 0 <= i < k :: !IsNewline(raw, s[i]))
    requires k == width || k == |s| || IsNewline(raw, s[k])
    ensures Lines(raw, s, width) ==
            if k == width then [s[..k]] + Lines(raw, s[k..], width)
            else if k < |s| then [s[..k]] + Lines(raw, s[k + 1..], width)
            else [s]
  {
    FirstLine(raw, s, width, k);
  }

  lemma FirstLine(raw: bool, s: seq<Chtype>, width: nat, k: nat)
    requires k <= width && k <= |s| && (forall i | 0 <= i < k :: !IsNewline(raw, s[i]))
    requires k == width || k == |s| || IsNewline(raw, s[k])
    ensures LineLength(raw, s, width) == k
  {
  }

  lemma ExtendCons(raw: bool, head: seq<Chtype>, lines: seq<seq<Chtype>>, c: Chtype, width: nat)
    requires |lines| > 0
    ensures Extend(raw, [head] + lines, c, width) == [head] + Extend(raw, lines, c, width)
  {
    assert ([head] + lines)[..|lines|] == [head] + lines[..|lines| - 1];
  }

  /** Laying out is typing: one more character extends the page at its end. */
  lemma {:induction false} LinesSnoc(raw: bool, s: seq<Chtype>, c: Chtype, width: nat)
    requires 0 < width
    ensures Lines(raw, s + [c], width) == Extend(raw, Lines(raw, s, width), c, width)
    decreases |s|
  {
    var k := LineLength(raw, s, width);
    hide LineLength, Lines, IsNewline, Extend;
    if k == width || k < |s| {
      var rest := if k == width then k else k + 1;
      LinesSnoc(raw, s[rest..], c, width);
      FirstKept(raw, s, c, width, k);
      ExtendCons(raw, s[..k], Lines(raw, s[rest..], width), c, width);
    } else {
      LastGrows(raw, s, c, width);
    }
  }

  /** A first line that is finished stays as it is. */
  lemma FirstKept(raw: bool, s: seq<Chtype>, c: Chtype, width: nat, k: nat)
    requires 0 < width && k <= width && k <= |s| && (forall i | 0 <= i < k :: !IsNewline(raw, s[i]))
    requires k == width || (k < |s| && IsNewline(raw, s[k]))
    ensures var rest := if k == width then k else k + 1;
            && Lines(raw, s, width) == [s[..k]] + Lines(raw, s[rest..], width)
            && Lines(raw, s + [c], width) == [s[..k]] + Lines(raw, s[rest..] + [c], width)
  {
    hide LineLength, Lines, IsNewline;
    var t := s + [c];
    var rest := if k == width then k else k + 1;
    assert t[..k] == s[..k] && t[rest..] == s[rest..] + [c];
    LinesAt(raw, s, width, k);
    LinesAt(raw, t, width, k);
  }

  /** One character more on the only line. */
  lemma LastGrows(raw: bool, s: seq<Chtype>, c: Chtype, width: nat)
    requires |s| < width && (forall i | 0 <= i < |s| :: !IsNewline(raw, s[i]))
    ensures Lines(raw, s, width) == [s] && Lines(raw, s + [c], width) == Extend(raw, [s], c, width)
  {
    hide LineLength, Lines, IsNewline;
    var t := s + [c];
    var k := |s|;
    LinesAt(raw, s, width, k);
    EmptyPage(raw, width);
    assert [s][..0] == [];
    if IsNewline(raw, c) {
      LinesAt(raw, t, width, k);
      assert t[..k] == s && t[k + 1..] == [];
    } else {
      LinesAt(raw, t, width, k + 1);
      assert t[..k + 1] == t && t[k + 1..] == [];
    }
  }

  lemma EmptyPage(raw: bool, width: nat)
    requires 0 < width
    ensures Lines(raw, [], width) == [[]]
  {
  }

  /** Line i of the page as a row of w: its characters blended, the rest background. */
  function PageRow(w: Win, lines: seq<seq<Chtype>>, i: int): (row: Row)
    ensures |row| == w.maxx
  {
    seq(w.maxx, x requires 0 <= x < w.maxx =>
      if 0 <= i < |lines| && x < |lines[i]| then Blend(w.attrs, w.bkgd, lines[i][x]) else w.bkgd)
  }

  /** The first page line visible in a window of w's height. */
  function Top(w: Win, lines: seq<seq<Chtype>>): int { Max(|lines| - w.maxy, 0) }

  /** w shows the last rows of the page and its cursor stands at the page's end. */
  ghost predicate Shows(w: Win, lines: seq<seq<Chtype>>)
    requires |lines| > 0
  {
    && w.cury == |lines| - 1 - Top(w, lines)
    && w.curx == |lines[|lines| - 1]|
    && RowsShown(w, lines)
  }

  ghost predicate RowsShown(w: Win, lines: seq<seq<Chtype>>) {
    forall r | 0 <= r < w.maxy :: RowShown(w, lines, r)
  }

  predicate RowShown(w: Win, lines: seq<seq<Chtype>>, r: int)
    requires 0 <= r < w.maxy
  {
    w.cells[r] == PageRow(w, lines, Top(w, lines) + r)
  }

  /** Scrolling is on and covers the window. */
  predicate ScrollsWhole(w: Win) { w.scroll && w.tmarg == 0 && w.bmarg == w.maxy - 1 }

  /** v differs from w in contents, marks and cursor only. */
  predicate SameSettings(w: Win, v: Win) {
    v == w.(cells := v.cells, first := v.first, last := v.last, cury := v.cury, curx := v.curx)
  }

  /** A line feed at the page's end starts a new page line. */
  lemma LineFeedShows(w: Win, lines: seq<seq<Chtype>>)
    requires ScrollsWhole(w) && |lines| > 0
    requires w.cury == |lines| - 1 - Top(w, lines) && RowsShown(w, lines)
    ensures var o := LineFeed(w, w.cury, 0); o.ok && SameSettings(w, o.win) && Shows(o.win, lines + [[]])
  {
    FedRows(w);
    hide PageRow, LineFeed, RawWin.Valid, RowShown;
    forall r | 0 <= r < w.maxy
      ensures RowShown(LineFeed(w, w.cury, 0).win, lines + [[]], r)
    {
      FedRow(w, lines, r);
    }
  }

  /** What a line feed in a wholly scrolling window does to its rows. */
  lemma FedRows(w: Win)
    requires ScrollsWhole(w)
    ensures var o := LineFeed(w, w.cury, 0);
            && o.ok && SameSettings(w, o.win) && SameFrame(w, o.win) && o.win.curx == 0
            && o.win.cury == Min(w.cury + 1, w.maxy - 1)
            && (w.cury < w.maxy - 1 ==> o.win.cells == w.cells)
            && (w.cury == w.maxy - 1 ==> o.win.cells == Shift(w.cells, 0, w.maxy - 1, 1, Fill(w.bkgd, w.maxx)))
  {
  }

  lemma FedRow(w: Win, lines: seq<seq<Chtype>>, r: int)
    requires ScrollsWhole(w) && |lines| > 0 && 0 <= r < w.maxy
    requires w.cury == |lines| - 1 - Top(w, lines) && RowsShown(w, lines)
    ensures RowShown(LineFeed(w, w.cury, 0).win, lines + [[]], r)
  {
    FedRows(w);
    FedRowShown(w, LineFeed(w, w.cury, 0).win, lines, r);
  }

  lemma FedRowShown(w: Win, v: Win, lines: seq<seq<Chtype>>, r: int)
    requires 0 <= r < w.maxy && |lines| > 0 && w.cury == |lines| - 1 - Top(w, lines) && RowsShown(w, lines) &&
             SameSettings(w, v)
    requires w.cury < w.maxy - 1 ==> v.cells == w.cells
    requires w.cury == w.maxy - 1 ==> v.cells == Shift(w.cells, 0, w.maxy - 1, 1, Fill(w.bkgd, w.maxx))
    ensures RowShown(v, lines + [[]], r)
  {
    hide PageRow, RowsShown;
    var i := Top(v, lines + [[]]) + r;
    LongerPage(w, v, lines, i);
    if w.cury < w.maxy - 1 {
      RowIs(w, lines, r);
    } else if r < w.maxy - 1 {
      RowIs(w, lines, r + 1);
    }
  }

  lemma RowIs(w: Win, lines: seq<seq<Chtype>>, r: int)
    requires 0 <= r < w.maxy && RowsShown(w, lines)
    ensures |w.cells| == w.maxy && w.cells[r] == PageRow(w, lines, Top(w, lines) + r)
  {
    assert RowShown(w, lines, r);
  }

  /** An empty line at the page's end changes none of its rows. */
  lemma LongerPage(w: Win, v: Win, lines: seq<seq<Chtype>>, i: int)
    requires v.maxx == w.maxx && v.attrs == w.attrs && v.bkgd == w.bkgd
    ensures PageRow(v, lines + [[]], i) == PageRow(w, lines, i)
    ensures i == |lines| ==> PageRow(w, lines, i) == Fill(w.bkgd, w.maxx)
  {
  }

  lemma StoreShows(w: Win, lines: seq<seq<Chtype>>, c: Chtype)
    requires |lines| > 0 && Shows(w, lines) && w.curx < w.maxx
    ensures var v := Store(w, Blend(w.attrs, w.bkgd, c));
            var grown := lines[..|lines| - 1] + [lines[|lines| - 1] + [c]];
            && SameSettings(w, v) && v.cury == w.cury && v.curx == w.curx && RowsShown(v, grown)
  {
    hide Store, Blend, RowShown;
    var v := Store(w, Blend(w.attrs, w.bkgd, c));
    var grown := lines[..|lines| - 1] + [lines[|lines| - 1] + [c]];
    StoredCell(w, Blend(w.attrs, w.bkgd, c));
    forall r | 0 <= r < w.maxy
      ensures RowShown(v, grown, r)
    {
      StoredRow(w, v, lines, c, r);
    }
  }

  lemma StoredRow(w: Win, v: Win, lines: seq<seq<Chtype>>, c: Chtype, r: int)
    requires |lines| > 0 && Shows(w, lines) && 0 <= r < w.maxy && SameSettings(w, v)
    requires v.cells == w.cells[w.cury := w.cells[w.cury][w.curx := Blend(w.attrs, w.bkgd, c)]]
    ensures RowShown(v, lines[..|lines| - 1] + [lines[|lines| - 1] + [c]], r)
  {
    hide PageRow, Blend, RowsShown;
    RowIs(w, lines, r);
    GrownRow(w, v, lines, c, Top(w, lines) + r);
  }

  lemma StoredCell(w: Win, c: Chtype)
    ensures var v := Store(w, c);
            SameSettings(w, v) && v.cells == w.cells[w.cury := w.cells[w.cury][w.curx := c]]
  {
    assert w.cells[w.cury][w.curx] == c ==> w.cells[w.cury][w.curx := c] == w.cells[w.cury];
    assert w.cells[w.cury := w.cells[w.cury]] == w.cells;
  }

  /** A character at the page's end changes only the last line's row. */
  lemma GrownRow(w: Win, v: Win, lines: seq<seq<Chtype>>, c: Chtype, i: int)
    requires |lines| > 0 && |lines[|lines| - 1]| < w.maxx && v.maxx == w.maxx && v.attrs == w.attrs && v.bkgd == w.bkgd
    ensures var grown := lines[..|lines| - 1] + [lines[|lines| - 1] + [c]];
            PageRow(v, grown, i) ==
            if i == |lines| - 1 then PageRow(w, lines, i)[|lines[i]| := Blend(w.attrs, w.bkgd, c)]
            else PageRow(w, lines, i)
  {
  }

  lemma NewlineShows(raw: bool, w: Win, lines: seq<seq<Chtype>>, c: Chtype)
    requires ScrollsWhole(w) && |lines| > 0 && Shows(w, lines) && IsNewline(raw, c)
    ensures var o := AddCh(raw, w, c); o.ok && SameSettings(w, o.win) && Shows(o.win, lines + [[]])
  {
    var v := ClrToEol(w);
    forall r | 0 <= r < w.maxy
      ensures RowShown(v, lines, r)
    {
      assert RowShown(w, lines, r);
      assert PageRow(v, lines, Top(v, lines) + r) == PageRow(w, lines, Top(w, lines) + r);
      assert v.cells[r] == w.cells[r];
    }
    hide Shows, ClrToEol, LineFeed;
    LineFeedShows(v, lines);
  }

  lemma PlainShows(w: Win, lines: seq<seq<Chtype>>, c: Chtype)
    requires ScrollsWhole(w) && |lines| > 0 && Shows(w, lines)
    ensures var o := AddPlain(w, c);
            var grown := lines[..|lines| - 1] + [lines[|lines| - 1] + [c]];
            o.ok && SameSettings(w, o.win) && Shows(o.win, if w.curx + 1 < w.maxx then grown else grown + [[]])
  {
    var v := Store(w, Blend(w.attrs, w.bkgd, c));
    StoreShows(w, lines, c);
    hide Store, LineFeed, Blend, RawWin.Valid, RowsShown;
    var grown := lines[..|lines| - 1] + [lines[|lines| - 1] + [c]];
    if v.curx + 1 >= v.maxx {
      LineFeedShows(v, grown);
    } else {
      AdvanceShows(v, grown);
    }
  }

  /** Moving the cursor along changes nothing that shows. */
  lemma AdvanceShows(v: Win, lines: seq<seq<Chtype>>)
    requires v.curx + 1 < v.maxx && RowsShown(v, lines)
    ensures RowsShown(v.(curx := v.curx + 1), lines)
  {
    var u := v.(curx := v.curx + 1);
    forall r | 0 <= r < v.maxy
      ensures RowShown(u, lines, r)
    {
      assert RowShown(v, lines, r);
      assert PageRow(u, lines, Top(u, lines) + r) == PageRow(v, lines, Top(v, lines) + r);
    }
  }

  /** Writing one character keeps the window in step with the page. */
  lemma AddChShows(raw: bool, w: Win, lines: seq<seq<Chtype>>, c: Chtype)
    requires ScrollsWhole(w) && |lines| > 0 && Shows(w, lines)
    requires !Expands(raw, c) || IsNewline(raw, c)
    ensures var o := AddCh(raw, w, c);
            o.ok && SameSettings(w, o.win) && Shows(o.win, Extend(raw, lines, c, w.maxx))
  {
    assert w.curx == |lines[|lines| - 1]|;
    hide Shows, AddPlain;
    if IsNewline(raw, c) {
      NewlineShows(raw, w, lines, c);
    } else {
      PlainShows(w, lines, c);
      assert lines[..|lines| - 1] + [lines[|lines| - 1] + [c]] + [[]] ==
             lines[..|lines| - 1] + [lines[|lines| - 1] + [c], []];
    }
  }

  /** The terminal theorem: writing any text of printable characters and newlines into
      an erased scrolling window succeeds, and the window shows the last rows of the
      endless page, with the cursor at the page's end. */
  lemma {:induction false} TextShowsPage(raw: bool, w: Win, s: seq<Chtype>)
    requires ScrollsWhole(w) && IsText(raw, s)
    ensures var o := AddStr(raw, Erase(w), s);
            o.ok && SameSettings(w, o.win) && Shows(o.win, Lines(raw, s, w.maxx))
    decreases |s|
  {
    hide Shows, Lines, Erase, AddCh, Extend;
    if s == [] {
      ErasedShowsEmptyPage(raw, w);
    } else {
      var t := s[..|s| - 1];
      var c := s[|s| - 1];
      TextShowsPage(raw, w, t);
      var v := AddStr(raw, Erase(w), t).win;
      AddChShows(raw, v, Lines(raw, t, w.maxx), c);
      assert t + [c] == s;
      LinesSnoc(raw, t, c, w.maxx);
    }
  }

  lemma ErasedShowsEmptyPage(raw: bool, w: Win)
    requires ScrollsWhole(w)
    ensures SameSettings(w, Erase(w)) && Shows(Erase(w), Lines(raw, [], w.maxx))
  {
    var e := Erase(w);
    assert Lines(raw, [], w.maxx) == [[]];
    forall r | 0 <= r < w.maxy
      ensures RowShown(e, [[]], r)
    {
    }
  }
}
