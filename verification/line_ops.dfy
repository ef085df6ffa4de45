/** Scrolling and line insertion: what repeated single steps add up to. */
module LineOps {
  import opened Cells
  import opened WindowModel
  import opened Damage

  /** k scrolls by one line, up or down. */
  function ScrollSteps(w: Win, up: bool, k: nat): Win {
    if k == 0 then w else Scroll(ScrollSteps(w, up, k - 1), if up then 1 else -1).win
  }

  /** wscrl by any n, also past the size of the region, is |n| scrolls by one line. */
  lemma {:induction false} ScrollIsSteps(w: Win, up: bool, k: int)
    requires w.scroll && 0 < k
    ensures Scroll(w, if up then k else -k).win == ScrollSteps(w, up, k)
  {
    if k > 1 {
      hide Scroll, RawWin.Valid;
      ScrollIsSteps(w, up, k - 1);
      ScrollFurther(w, if up then k - 1 else 1 - k, if up then 1 else -1);
    } else {
      assert ScrollSteps(w, up, 0) == w;
    }
  }

  lemma ScrollFurther(w: Win, n: int, s: int)
    requires w.scroll && (if s > 0 then n > 0 else s < 0 && n < 0)
    ensures Scroll(Scroll(w, n).win, s).win == Scroll(w, n + s).win
  {
    hide Shift, MarkRows;
    var blank := Fill(w.bkgd, w.maxx);
    var g := Shift(w.cells, w.tmarg, w.bmarg, n, blank);
    ShiftCompose(w.cells, w.tmarg, w.bmarg, n, s, blank);
    ShiftedGrid(w, w.tmarg, w.bmarg, n);
    ShiftedGrid(w, w.tmarg, w.bmarg, n + s);
    MarkKeeps(w.(cells := g), w.tmarg, w.bmarg);
    MarkTwice(w.(cells := g), Shift(g, w.tmarg, w.bmarg, s, blank), w.tmarg, w.bmarg);
  }

  lemma MarkKeeps(w: Win, lo: int, hi: int)
    ensures MarkRows(w, lo, hi) == w.(first := MarkRows(w, lo, hi).first, last := MarkRows(w, lo, hi).last)
  {
  }

  /** Marking the same rows again changes nothing. */
  lemma MarkTwice(w: Win, g: Grid, lo: int, hi: int)
    requires IsGrid(g, w.maxy, w.maxx)
    ensures MarkRows(MarkRows(w, lo, hi).(cells := g), lo, hi) == MarkRows(w.(cells := g), lo, hi)
  {
    var a := MarkRows(MarkRows(w, lo, hi).(cells := g), lo, hi);
    var b := MarkRows(w.(cells := g), lo, hi);
    assert a.first == b.first && a.last == b.last;
  }

  /** winsdelln(n), n >= 0, on the cells: everything from the cursor down moves n rows. */
  lemma {:induction false} InsertCells(w: Win, n: int)
    requires 0 <= n
    ensures InsDelLn(w, n) ==
            w.(cells := InsDelLn(w, n).cells, first := InsDelLn(w, n).first, last := InsDelLn(w, n).last)
    ensures InsDelLn(w, n).cells == Shift(w.cells, w.cury, w.maxy - 1, -n, Fill(w.bkgd, w.maxx))
  {
    hide Shift, InsertLn, RawWin.Valid;
    InMargins(w);
    var blank := Fill(w.bkgd, w.maxx);
    if n == 0 {
      ShiftNothing(w.cells, w.cury, w.maxy - 1, blank);
    } else {
      InsertCells(w, n - 1);
      InsertOnce(InsDelLn(w, n - 1));
      ShiftMore(w, w.cury, w.maxy - 1, -(n - 1), -1);
    }
  }

  lemma ShiftNothing(g: Grid, lo: int, hi: int, blank: Row)
    ensures Shift(g, lo, hi, 0, blank) == g
  {
  }

  lemma ShiftMore(w: Win, lo: int, hi: int, n: int, d: int)
    requires 0 <= lo && hi < w.maxy && ((n >= 0 && d >= 0) || (n <= 0 && d <= 0))
    ensures var blank := Fill(w.bkgd, w.maxx);
            Shift(Shift(w.cells, lo, hi, n, blank), lo, hi, d, blank) == Shift(w.cells, lo, hi, n + d, blank)
  {
    ShiftCompose(w.cells, lo, hi, n, d, Fill(w.bkgd, w.maxx));
  }

  lemma InsertOnce(w: Win)
    ensures var v := InsertLn(w);
            && v == w.(cells := v.cells, first := v.first, last := v.last)
            && v.cells == Shift(w.cells, w.cury, w.maxy - 1, -1, Fill(w.bkgd, w.maxx))
  {
    hide Shift;
    ShiftedGrid(w, w.cury, w.maxy - 1, -1);
  }

  lemma DeleteOnce(w: Win)
    requires w.cury <= w.bmarg
    ensures var v := DeleteLn(w);
            && v == w.(cells := v.cells, first := v.first, last := v.last)
            && v.cells == Shift(w.cells, w.cury, w.bmarg, 1, Fill(w.bkgd, w.maxx))
  {
    hide Shift;
    ShiftedGrid(w, w.cury, w.bmarg, 1);
  }

  /** winsdelln(-n) at or above the bottom margin: the region from the cursor to the
      margin moves up n rows. */
  lemma {:induction false} DeleteCells(w: Win, n: int)
    requires 0 <= n && w.cury <= w.bmarg
    ensures InsDelLn(w, -n).cells == Shift(w.cells, w.cury, w.bmarg, n, Fill(w.bkgd, w.maxx))
    ensures InsDelLn(w, -n) ==
            w.(cells := InsDelLn(w, -n).cells, first := InsDelLn(w, -n).first, last := InsDelLn(w, -n).last)
    decreases n
  {
    hide Shift, DeleteLn, RawWin.Valid;
    InMargins(w);
    if n == 0 {
      ShiftNothing(w.cells, w.cury, w.bmarg, Fill(w.bkgd, w.maxx));
    } else {
      DeleteCells(w, n - 1);
      DeleteOnce(InsDelLn(w, 1 - n));
      ShiftMore(w, w.cury, w.bmarg, n - 1, 1);
    }
  }

  lemma InMargins(w: Win)
    ensures 0 <= w.cury && w.bmarg < w.maxy && 0 < w.maxx
  {
  }

  /** Row r after inserting n lines at the cursor and deleting n again: the insertion
      pushes rows off the bottom of the window, the deletion works up to the margin, or on
      the cursor's row alone when that lies below it. */
  lemma InsertThenDelete(w: Win, n: int, r: int)
    requires 0 <= n && 0 <= r < w.maxy
    ensures InsDelLn(InsDelLn(w, n), -n).cells[r] ==
            if r < w.cury || r + n <= w.bmarg then w.cells[r]
            else if r > w.bmarg && r - n >= w.cury then w.cells[r - n]
            else Fill(w.bkgd, w.maxx)
  {
    hide InsDelLn;
    InsertCells(w, n);
    if w.cury <= w.bmarg {
      DeleteCells(InsDelLn(w, n), n);
    } else {
      DeleteBelow(InsDelLn(w, n), n, r);
    }
  }

  lemma DeleteBelow(v: Win, n: int, r: int)
    requires 0 <= n && 0 <= r < v.maxy && v.bmarg < v.cury
    ensures InsDelLn(v, -n).cells[r] == if n > 0 && r == v.cury then Fill(v.bkgd, v.maxx) else v.cells[r]
  {
    if n > 0 {
      DeleteBelowMargin(v, -n);
    }
  }

  /** Deleting undoes inserting: every row that was not pushed off the bottom is back,
      and the rows below are blank. */
  predicate Undone(w: Win, v: Win, n: int)
    requires v.maxy == w.maxy
  {
    forall r | 0 <= r < w.maxy ::
      v.cells[r] == if r < w.cury || r + n < w.maxy then w.cells[r] else Fill(w.bkgd, w.maxx)
  }

  /** The rows that only a margin at the last row saves: pushed below the margin by the
      insertion, they are not brought back by the deletion. */
  function FirstLost(w: Win, n: int): int { Max(w.cury, w.bmarg - n + 1) }

  predicate NothingLost(w: Win, n: nat) {
    forall r | FirstLost(w, n) <= r < w.maxy - n :: w.cells[r] == Fill(w.bkgd, w.maxx)
  }

  /** winsdelln(n) then winsdelln(-n) is undone exactly when every row pushed below the
      bottom margin, though not off the window, was blank to begin with; with the
      margin at the last row there is no such row. */
  lemma RoundTrip(w: Win, n: int)
    requires 0 <= n
    ensures Undone(w, InsDelLn(InsDelLn(w, n), -n), n) <==> n == 0 || NothingLost(w, n)
    ensures w.bmarg == w.maxy - 1 ==> NothingLost(w, n)
  {
    var v := InsDelLn(InsDelLn(w, n), -n);
    if n == 0 || NothingLost(w, n) {
      forall r | 0 <= r < w.maxy
        ensures v.cells[r] == if r < w.cury || r + n < w.maxy then w.cells[r] else Fill(w.bkgd, w.maxx)
      {
        InsertThenDelete(w, n, r);
      }
    } else if Undone(w, v, n) {
      forall r | FirstLost(w, n) <= r < w.maxy - n
        ensures w.cells[r] == Fill(w.bkgd, w.maxx)
      {
        LostIsBlank(w, n, r);
      }
    }
  }

  /** It is not undone for a letter in row 0 with the margin there: the insertion pushes it
      to row 1, which the deletion does not move. */
  lemma RoundTripBreaks()
    ensures var w := SetScrReg(AddCh(false, NewWin(2, 2, 0, 0, false), Ch(0, 0, 0x41)).win, 0, 0).win;
            w.cury <= w.bmarg && !Undone(w, InsDelLn(InsDelLn(w, 1), -1), 1)
  {
    var w := SetScrReg(AddCh(false, NewWin(2, 2, 0, 0, false), Ch(0, 0, 0x41)).win, 0, 0).win;
    BlendPrecedence(Ch(0, 0, 0), BLANK, Ch(0, 0, 0x41));
    assert w.cells[0][0] == Ch(0, 0, 0x41);
    RoundTrip(w, 1);
  }

  /** A lost row shows up n rows further down, where undoing leaves a lost row again or
      a blank one. */
  lemma {:induction false} LostIsBlank(w: Win, n: int, r: int)
    requires 0 < n && FirstLost(w, n) <= r < w.maxy - n
    requires Undone(w, InsDelLn(InsDelLn(w, n), -n), n)
    ensures w.cells[r] == Fill(w.bkgd, w.maxx)
    decreases w.maxy - r
  {
    hide InsDelLn, Fill, Undone, RawWin.Valid, FirstLost;
    LostAgain(w, n, r);
    if r + n < w.maxy - n {
      LostIsBlank(w, n, r + n);
    }
  }

  /** What undoing finds n rows below a lost row. */
  lemma LostAgain(w: Win, n: int, r: int)
    requires 0 < n && FirstLost(w, n) <= r < w.maxy - n
    requires Undone(w, InsDelLn(InsDelLn(w, n), -n), n)
    ensures r < r + n < w.maxy == |w.cells| && FirstLost(w, n) <= r + n
    ensures w.cells[r] == if r + n < w.maxy - n then w.cells[r + n] else Fill(w.bkgd, w.maxx)
  {
    hide InsDelLn, Fill;
    InsertThenDelete(w, n, r + n);
  }
}
