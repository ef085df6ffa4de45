/** Editing one row: insertion and deletion undo each other, attribute changes keep the
    text, batched writes mark no more than they must, borders keep the inside. */
module RowOps {
  import opened Cells
  import opened WindowModel
  import opened Damage

  /** winsch of a stored character and then wdelch at the same cursor: every cell is back
      but the last, which was pushed off the row and is now background. */
  lemma InsertThenDeleteChar(w: Win, ch: Chtype)
    ensures var v := DelCh(InsPlain(w, ch));
            && v.cury == w.cury && v.curx == w.curx
            && v.cells == w.cells[w.cury := w.cells[w.cury][w.maxx - 1 := w.bkgd]]
  {
    var v := DelCh(InsPlain(w, ch));
    assert v.cells[w.cury] == w.cells[w.cury][w.maxx - 1 := w.bkgd];
  }

  /** The other way round the character deleted is replaced by the one inserted, and only
      the last cell is lost. */
  lemma DeleteThenInsertChar(w: Win, ch: Chtype)
    ensures InsPlain(DelCh(w), ch).cells ==
            w.cells[w.cury := w.cells[w.cury][w.curx := Blend(w.attrs, w.bkgd, ch)]]
  {
    hide Blend;
    var v := InsPlain(DelCh(w), ch);
    assert v.cells[w.cury] == w.cells[w.cury][w.curx := Blend(w.attrs, w.bkgd, ch)];
  }

  /** winsch of k blanks, as a tab makes them, pushes the row right by k or by all the room
      there is. */
  lemma {:induction false} InsertBlanks(w: Win, ch: Chtype, k: nat)
    ensures var v := InsBlanks(w, ch, k);
            var c := Blend(w.attrs, w.bkgd, ch.WithText(SPACE));
            var n := Min(k, w.maxx - w.curx);
            && v.cury == w.cury && v.curx == w.curx && v.attrs == w.attrs && v.bkgd == w.bkgd
            && v.cells[w.cury] == w.cells[w.cury][..w.curx] + Fill(c, n) + w.cells[w.cury][w.curx..w.maxx - n]
    decreases k
  {
    hide Blend, InsPlain, RawWin.Valid;
    var c := Blend(w.attrs, w.bkgd, ch.WithText(SPACE));
    if k > 0 {
      InsertOne(w, ch.WithText(SPACE));
      InsertBlanks(InsPlain(w, ch.WithText(SPACE)), ch, k - 1);
      BlanksAhead(w.cells[w.cury], w.curx, c, k);
    } else {
      RowWhole(w);
    }
  }

  lemma RowWhole(w: Win)
    ensures |w.cells| == w.maxy && 0 <= w.cury < w.maxy && |w.cells[w.cury]| == w.maxx && 0 <= w.curx < w.maxx
    ensures w.cells[w.cury] == w.cells[w.cury][..w.curx] + [] + w.cells[w.cury][w.curx..w.maxx]
  {
  }

  lemma InsertOne(w: Win, ch: Chtype)
    ensures var v := InsPlain(w, ch);
            && v.cury == w.cury && v.curx == w.curx && v.attrs == w.attrs && v.bkgd == w.bkgd
            && |v.cells| == |w.cells| == v.maxy == w.maxy && 0 <= w.cury < w.maxy && v.maxx == w.maxx
            && 0 <= w.curx < w.maxx
            && |w.cells[w.cury]| == w.maxx
            && v.cells[w.cury] ==
               w.cells[w.cury][..w.curx] + [Blend(w.attrs, w.bkgd, ch)] + w.cells[w.cury][w.curx..w.maxx - 1]
  {
    hide Blend;
  }

  lemma BlanksAhead(row: Row, x: nat, c: Chtype, k: nat)
    requires 0 < k && x < |row|
    ensures var next := row[..x] + [c] + row[x..|row| - 1];
            var (m, n) := (Min(k - 1, |row| - x), Min(k, |row| - x));
            next[..x] + Fill(c, m) + next[x..|row| - m] == row[..x] + Fill(c, n) + row[x..|row| - n]
  {
    var next := row[..x] + [c] + row[x..|row| - 1];
    assert next[..x] == row[..x];
    if k <= |row| - x {
      RestMoves(row, x, c, k);
      assert Fill(c, k) == Fill(c, k - 1) + [c];
      Regroup(row[..x], Fill(c, k - 1), [c], row[x..|row| - k]);
    }
  }

  lemma RestMoves(row: Row, x: nat, c: Chtype, k: nat)
    requires 0 < k && x < |row| && k <= |row| - x
    ensures (row[..x] + [c] + row[x..|row| - 1])[x..|row| - (k - 1)] == [c] + row[x..|row| - k]
  {
    var (a, b) := (row[..x], row[x..|row| - 1]);
    var n := |row| - (k - 1) - x;
    assert a + [c] + b == a + ([c] + b);
    assert (a + ([c] + b))[x..x + n] == ([c] + b)[..n];
    assert ([c] + b)[..n] == [c] + b[..n - 1];
    assert b[..n - 1] == row[x..|row| - k];
  }

  lemma Regroup(a: Row, b: Row, c: Row, d: Row)
    ensures a + b + (c + d) == a + (b + c) + d
  {
  }

  /** winsch of a control character or DEL shows a caret and the character's letter at
      the cursor, in that order, and pushes the rest of the row right by two; in the last
      column there is room for the caret only. */
  lemma InsertControl(raw: bool, w: Win, ch: Chtype)
    requires Expands(raw, ch) && ch.text != TAB && ch.text != NEWLINE
    ensures var letter: Half := if ch.text == DEL then QUESTION else ch.text + AT_SIGN;
            var pair := [Blend(w.attrs, w.bkgd, ch.WithText(CARET)), Blend(w.attrs, w.bkgd, ch.WithText(letter))];
            var n := Min(2, w.maxx - w.curx);
            InsCh(raw, w, ch).cells[w.cury] ==
            w.cells[w.cury][..w.curx] + pair[..n] + w.cells[w.cury][w.curx..w.maxx - n]
  {
    hide Blend, InsPlain, RawWin.Valid;
    var letter: Half := if ch.text == DEL then QUESTION else ch.text + AT_SIGN;
    InsertOne(w, ch.WithText(letter));
    InsertOne(InsPlain(w, ch.WithText(letter)), ch.WithText(CARET));
    PairAhead(w.cells[w.cury], w.curx, Blend(w.attrs, w.bkgd, ch.WithText(letter)),
              Blend(w.attrs, w.bkgd, ch.WithText(CARET)));
  }

  /** Two cells pushed into a row at the same place. */
  lemma PairAhead(row: Row, x: nat, c: Chtype, d: Chtype)
    requires x < |row|
    ensures var next := row[..x] + [c] + row[x..|row| - 1];
            var n := Min(2, |row| - x);
            next[..x] + [d] + next[x..|row| - 1] == row[..x] + [d, c][..n] + row[x..|row| - n]
  {
    var next := row[..x] + [c] + row[x..|row| - 1];
    assert next[..x] == row[..x];
    if x + 2 <= |row| {
      RestMoves(row, x, c, 2);
      Regroup(row[..x], [d], [c], row[x..|row| - 2]);
    }
  }

  /** wchgat changes the attributes of exactly the named cells and no text. */
  lemma ChgAtKeepsText(w: Win, n: int, attr: Chtype, color: bv8, r: int, x: int)
    requires 0 <= r < w.maxy && 0 <= x < w.maxx
    ensures var v := ChgAt(w, n, attr, color);
            && v.cells[r][x].text == w.cells[r][x].text
            && (if r == w.cury && w.curx <= x && (n < 0 || x < w.curx + n)
                then v.cells[r][x].mods == attr.mods && v.cells[r][x].pair == attr.pair | color
                else v.cells[r][x] == w.cells[r][x])
  {
  }

  /** With no cells to change wchgat makes a clean row count as touched, and marks what lies
      between the cursor and the last bound, which a copy may have left there: nothing when
      that bound is left of the cursor. */
  lemma ChgAtNothing(w: Win, attr: Chtype, color: bv8)
    requires w.first[w.cury] == NO_CHANGE
    ensures var v := ChgAt(w, 0, attr, color);
            && v.cells == w.cells && v.Touched(w.cury)
            && (forall x | 0 <= x < w.maxx :: v.Damaged(w.cury, x) <==> w.curx <= x <= w.last[w.cury])
            && ((forall x | 0 <= x < w.maxx :: !v.Damaged(w.cury, x)) <==> w.last[w.cury] < w.curx)
  {
    var v := ChgAt(w, 0, attr, color);
    assert v.cells[w.cury] == w.cells[w.cury];
    assert w.last[w.cury] < w.maxx;
    assert w.curx <= w.last[w.cury] ==> v.Damaged(w.cury, w.curx);
  }

  /** waddchnstr on a clean row marks from the first changed column to the last, or to the
      last bound that a copy has left there if that lies further right. */
  lemma PutCellsTight(w: Win, t: Row)
    requires w.curx + |t| <= w.maxx && w.first[w.cury] == NO_CHANGE
    ensures var v := PutCells(w, t);
            var (row, was, stale) := (v.cells[w.cury], w.cells[w.cury], w.last[w.cury]);
            var (f, l) := (v.first[w.cury], v.last[w.cury]);
            if v.cells == w.cells then !v.Touched(w.cury) && l == stale
            else && 0 <= f <= l < w.maxx && row[f] != was[f] && stale <= l && (l == stale || row[l] != was[l])
                 && forall x | 0 <= x < w.maxx && row[x] != was[x] :: f <= x <= l
  {
    TightRow(w.cells[w.cury], w.curx, t, w.last[w.cury]);
    hide Splice, MinColumn, MaxColumn;
    assert Splice(w.cells[w.cury], w.curx, t) == w.cells[w.cury] ==> PutCells(w, t).cells == w.cells;
  }

  /** The bounds recorded for a clean row are the first change and the last, if the last
      bound does not reach further already. */
  lemma TightRow(row: Row, x: nat, t: Row, stale: int)
    requires x + |t| <= |row| && -1 <= stale < |row|
    ensures var (v, f, l) := (Splice(row, x, t), MinColumn(row, x, t, NO_CHANGE), MaxColumn(row, x, t, stale));
            if v == row then f == NO_CHANGE && l == stale
            else && 0 <= f <= l < |row| && v[f] != row[f] && stale <= l && (l == stale || v[l] != row[l])
                 && forall c | 0 <= c < |row| && v[c] != row[c] :: f <= c <= l
  {
    hide Splice, FirstDifference, LastDifference;
    var v := Splice(row, x, t);
    var lo := FirstDifference(t, row, x, 0);
    var hi := LastDifference(t, row, x, |t| - 1);
    if lo == |t| {
      SpliceSame(row, x, t);
    } else {
      SpliceAt(row, x, t, lo);
      SpliceAt(row, x, t, hi);
      forall c | 0 <= c < |row| && v[c] != row[c]
        ensures x + lo <= c <= x + hi
      {
        SpliceDiffers(row, x, t, NO_CHANGE, NO_CHANGE, c);
      }
    }
  }

  lemma SpliceSame(row: Row, x: nat, t: Row)
    requires x + |t| <= |row| && forall i | 0 <= i < |t| :: t[i] == row[x + i]
    ensures Splice(row, x, t) == row
  {
  }

  lemma SpliceAt(row: Row, x: nat, t: Row, i: nat)
    requires x + |t| <= |row| && i < |t|
    ensures Splice(row, x, t)[x + i] == t[i]
  {
  }

  /** Writing a batch of cells is writing its parts one after the other, marks included. */
  lemma PutCellsSplit(w: Win, s: Row, t: Row)
    requires w.curx + |s| < w.maxx && w.curx + |s| + |t| <= w.maxx
    ensures PutCells(w, s + t) == PutCells(PutCells(w, s).(curx := w.curx + |s|), t).(curx := w.curx)
  {
    hide Splice, MinColumn, MaxColumn;
    var (row, x, f, l) := (w.cells[w.cury], w.curx, w.first[w.cury], w.last[w.cury]);
    ColumnsSplit(row, x, s, t, f, l);
    RowTwice(w, x + |s|, Splice(row, x, s), MinColumn(row, x, s, f), MaxColumn(row, x, s, l),
             Splice(row, x, s + t), MinColumn(row, x, s + t, f), MaxColumn(row, x, s + t, l));
    hide RawWin.Valid;
  }

  /** Of two rows stored in the same place the second remains. */
  lemma RowTwice(w: Win, c: nat, a: Row, f: int, l: int, b: Row, f2: int, l2: int)
    requires c < w.maxx && |a| == |b| == w.maxx && IsInterval(f, l, w.maxx) && IsInterval(f2, l2, w.maxx)
    ensures var u := WithRow(w, w.cury, a, f, l).(curx := c);
            && u.cells[w.cury] == a && u.first[w.cury] == f && u.last[w.cury] == l
            && WithRow(u, w.cury, b, f2, l2).(curx := w.curx) == WithRow(w, w.cury, b, f2, l2)
  {
    var v := WithRow(WithRow(w, w.cury, a, f, l).(curx := c), w.cury, b, f2, l2);
    assert v.cells == w.cells[w.cury := b] && v.first == w.first[w.cury := f2] && v.last == w.last[w.cury := l2];
  }

  lemma ColumnsSplit(row: Row, x: nat, s: Row, t: Row, f: int, l: int)
    requires x + |s| + |t| <= |row| && IsInterval(f, l, |row|)
    ensures MinColumn(row, x, s + t, f) == MinColumn(Splice(row, x, s), x + |s|, t, MinColumn(row, x, s, f))
    ensures MaxColumn(row, x, s + t, l) == MaxColumn(Splice(row, x, s), x + |s|, t, MaxColumn(row, x, s, l))
    ensures Splice(Splice(row, x, s), x + |s|, t) == Splice(row, x, s + t)
    ensures IsInterval(MinColumn(row, x, s, f), MaxColumn(row, x, s, l), |row|)
    ensures IsInterval(MinColumn(row, x, s + t, f), MaxColumn(row, x, s + t, l), |row|)
  {
    SpliceMore(row, x, s, t);
    ColumnsValid(row, x, s, f, l);
    ColumnsValid(row, x, s + t, f, l);
    MinSplit(row, x, s, t, f);
    MaxSplit(row, x, s, t, l);
    hide *;
  }

  lemma MinSplit(row: Row, x: nat, s: Row, t: Row, f: int)
    requires x + |s| + |t| <= |row|
    ensures MinColumn(row, x, s + t, f) == MinColumn(Splice(row, x, s), x + |s|, t, MinColumn(row, x, s, f))
  {
    hide Splice, FirstDifference;
    FirstSplit(row, x, s, t);
  }

  lemma MaxSplit(row: Row, x: nat, s: Row, t: Row, l: int)
    requires x + |s| + |t| <= |row|
    ensures MaxColumn(row, x, s + t, l) == MaxColumn(Splice(row, x, s), x + |s|, t, MaxColumn(row, x, s, l))
  {
    hide Splice, LastDifference;
    LastSplit(row, x, s, t);
  }

  /** A border leaves the inside of the window alone. */
  lemma BorderInside(w: Win, f: Frame, r: int, x: int)
    requires 0 < r < w.maxy - 1 && 0 < x < w.maxx - 1
    ensures Border(w, f).cells[r][x] == w.cells[r][x]
  {
    hide BlendFrame;
  }

  /** whline and wvline meet in the cell under the cursor and change no other in common. */
  lemma LinesCross(w: Win, ch: Chtype, n: int, m: int, r: int, x: int)
    requires 0 < n && 0 < m && 0 <= r < w.maxy && 0 <= x < w.maxx
    requires HLine(w, ch, n).win.cells[r][x] != w.cells[r][x] && VLine(w, ch, m).win.cells[r][x] != w.cells[r][x]
    ensures r == w.cury && x == w.curx
  {
    hide PassThrough;
  }
}
