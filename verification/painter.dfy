/** The painter's theorem: what update_panels leaves on curscr over every run of deck
    operations, and exactly what a refused move can break. */
module Painter {
  import opened Cells
  import opened WindowModel
  import opened Damage
  import opened RefreshModel
  import opened PanelModel
  import opened OverlapModel

  // ---------------------------------------------------------------- the painter's theorem

  predicate RowWhole(v: Win, r: int)
    requires 0 <= r < v.maxy
  {
    v.first[r] == 0 && v.last[r] == v.maxx - 1
  }

  /** v, above w, is wholly marked on every row where w or stdscr is touched, if they overlap. */
  ghost predicate ClosedPair(w: Win, v: Win, std: Win)
    requires 0 <= v.begy && v.begy + v.maxy <= std.maxy
  {
    Overlap(RectOf(w), RectOf(v)) ==> forall r | 0 <= r < v.maxy && Shares(w, v, std, r) :: RowWhole(v, r)
  }

  ghost predicate Closed(layers: seq<Win>, std: Win, n: nat)
    requires n <= |layers| && OnStd(layers, std)
  {
    forall k, t | 0 <= k < n && k < t < |layers| :: ClosedPair(layers[k], layers[t], std)
  }

  lemma SharedClosed(w: Win, v: Win, std: Win, k: Win)
    requires 0 <= v.begy && v.begy + v.maxy <= std.maxy
    ensures ClosedPair(w, MarkAllShared(w, v, std), std)
    ensures ClosedPair(k, v, std) ==> ClosedPair(k, MarkAllShared(w, v, std), std)
  {
    var u := MarkAllShared(w, v, std);
    assert forall r | 0 <= r < v.maxy :: (Shares(w, u, std, r) <==> Shares(w, v, std, r));
    assert forall r | 0 <= r < v.maxy :: (Shares(k, u, std, r) <==> Shares(k, v, std, r));
    assert forall r | 0 <= r < v.maxy && RowWhole(v, r) :: RowWhole(u, r);
  }

  /** Pass 1 reaches every panel: whatever shows through a touched row is marked above it. */
  lemma {:induction false} PropagatedClosed(layers: seq<Win>, std: Win, n: nat)
    requires n <= |layers| && OnStd(layers, std)
    ensures Closed(Propagated(layers, std, n), std, n)
  {
    hide *;
    ClosedNone(layers, std);
    if n > 0 {
      PropagatedClosed(layers, std, n - 1);
      PropagatedNext(layers, std, n - 1);
      PropagateFromCloses(Propagated(layers, std, n - 1), std, n - 1);
    }
  }

  lemma ClosedNone(layers: seq<Win>, std: Win)
    requires OnStd(layers, std)
    ensures Closed(Propagated(layers, std, 0), std, 0)
  {
  }

  lemma PropagatedNext(layers: seq<Win>, std: Win, i: nat)
    requires i < |layers| && OnStd(layers, std)
    ensures Propagated(layers, std, i + 1) == PropagateFrom(Propagated(layers, std, i), std, i)
  {
  }

  lemma PropagateFromCloses(layers: seq<Win>, std: Win, i: nat)
    requires i < |layers| && OnStd(layers, std) && Closed(layers, std, i)
    ensures Closed(PropagateFrom(layers, std, i), std, i + 1)
  {
    var after := PropagateFrom(layers, std, i);
    var n := i + 1;
    hide MarkAllShared, ClosedPair, Overlap, RawWin.Valid;
    forall k, t | 0 <= k < n && k < t < |layers|
      ensures ClosedPair(after[k], after[t], std)
    {
      SharedClosed(layers[i], layers[t], std, layers[k]);
      if !Overlap(RectOf(layers[i]), RectOf(layers[t])) {
        ApartClosed(layers[i], layers[t], std);
      }
    }
  }

  lemma ApartClosed(w: Win, v: Win, std: Win)
    requires 0 <= v.begy && v.begy + v.maxy <= std.maxy && !Overlap(RectOf(w), RectOf(v))
    ensures ClosedPair(w, v, std)
  {
  }

  /** Pass 1 only adds marks. */
  lemma {:induction false} PropagatedDraws(layers: seq<Win>, std: Win, n: nat)
    requires n <= |layers| && OnStd(layers, std)
    ensures forall j | 0 <= j < |layers| :: Draws(layers[j], Propagated(layers, std, n)[j])
  {
    hide Draws, OverriddenAt, RawWin.Valid, Remarked, OnStd, Obscures;
    forall j | 0 <= j < |layers|
      ensures Draws(layers[j], layers[j])
    {
      DrawsItself(layers[j]);
    }
    if n > 0 {
      var before := Propagated(layers, std, n - 1);
      PropagatedDraws(layers, std, n - 1);
      forall j | 0 <= j < |layers|
        ensures Draws(layers[j], Propagated(layers, std, n)[j])
      {
        OverriddenDraws(before, std, n - 1, Obscures(before, n - 1, j), j);
        DrawsTransitive(layers[j], before[j], Propagated(layers, std, n)[j]);
      }
    }
  }

  lemma OverriddenDraws(layers: seq<Win>, std: Win, i: nat, marked: bool, j: nat)
    requires i < |layers| && j < |layers| && OnStd(layers, std)
    ensures Draws(layers[j], OverriddenAt(layers, std, i, marked, j))
  {
    hide Draws, MarkAllShared;
    DrawsItself(layers[j]);
    MarkSharedDraws(layers[i], layers[j], std);
  }

  /** The same windows with other marks. */
  ghost predicate SameLayers(d: Deck, e: Deck) {
    && |e.layers| == |d.layers| && SameFrame(d.cur, e.cur)
    && SameFrame(d.std, e.std) && e.std.cells == d.std.cells
    && forall k | 0 <= k < |d.layers| :: SameFrame(d.layers[k], e.layers[k]) && e.layers[k].cells == d.layers[k].cells
  }

  lemma {:induction false} TopSame(ls: seq<Win>, ms: seq<Win>, r: int, x: int)
    requires |ls| == |ms| && forall k | 0 <= k < |ls| :: SameFrame(ls[k], ms[k])
    ensures Top(ls, r, x) == Top(ms, r, x)
  {
    if ls != [] {
      TopSame(ls[..|ls| - 1], ms[..|ls| - 1], r, x);
    }
  }

  ghost predicate SamePicture(d: Deck, e: Deck) {
    SameFrame(d.cur, e.cur) && forall r, x | 0 <= r < d.cur.maxy && 0 <= x < d.cur.maxx :: SamePictureAt(d, e, r, x)
  }

  predicate SamePictureAt(d: Deck, e: Deck, r: int, x: int)
    requires SameFrame(d.cur, e.cur) && 0 <= r < d.cur.maxy && 0 <= x < d.cur.maxx
  {
    Picture(e, r, x) == Picture(d, r, x)
  }

  lemma PictureSame(d: Deck, e: Deck, r: int, x: int)
    requires SameLayers(d, e) && 0 <= r < d.cur.maxy && 0 <= x < d.cur.maxx
    ensures Picture(e, r, x) == Picture(d, r, x)
  {
    hide Top, RawWin.Valid;
    TopSame(d.layers, e.layers, r, x);
  }

  /** More marks keep a deck sound. */
  lemma RemarkedSound(d: Deck, e: Deck)
    requires Sound(d) && SameLayers(d, e) && e.cur == d.cur && e.std == d.std
    requires forall k | 0 <= k < |d.layers| :: Draws(d.layers[k], e.layers[k])
    ensures Sound(e)
  {
    hide Draws, RawDeck.Valid, RawWin.Damaged;
    forall r, x | 0 <= r < d.cur.maxy && 0 <= x < d.cur.maxx
      ensures PendingAt(e, r, x)
    {
      var t := Top(d.layers, r, x);
      TopSame(d.layers, e.layers, r, x);
      assert PendingAt(d, r, x);
      if t >= 0 {
        DrawnPending(d.layers[t], e.layers[t], d.cur.cells[r][x], r, x);
      }
    }
    forall k | 0 <= k < |d.layers| && AnyTouched(e.std)
      ensures Whole(e.layers[k])
    {
      WholeKept(d.layers[k], e.layers[k]);
    }
  }

  lemma WholeKept(w: Win, v: Win)
    requires Whole(w) && Draws(w, v)
    ensures Whole(v)
  {
    forall r, x | 0 <= r < v.maxy && 0 <= x < v.maxx
      ensures v.Damaged(r, x)
    {
      assert DrawnAt(w, v, r, x) && w.Damaged(r, x);
    }
  }

  /** curscr shows the picture wherever panel n or a higher one is not on top, and
      elsewhere unless that panel is still marked. */
  ghost predicate Upto(d: Deck, cur: Win, n: int) {
    SameFrame(d.cur, cur) && forall r, x | 0 <= r < d.cur.maxy && 0 <= x < d.cur.maxx :: UptoAt(d, cur, n, r, x)
  }

  predicate UptoAt(d: Deck, cur: Win, n: int, r: int, x: int)
    requires SameFrame(d.cur, cur) && 0 <= r < d.cur.maxy && 0 <= x < d.cur.maxx
  {
    cur.cells[r][x] == Picture(d, r, x) || (Top(d.layers, r, x) >= n && MarkedAt(Seen(d, r, x), r, x))
  }

  lemma DamagedTouches(w: Win, r: int, x: int)
    requires In(RectOf(w), r, x) && MarkedAt(w, r, x)
    ensures AnyTouched(w) && w.Touched(r - w.begy)
  {
    assert w.Touched(r - w.begy);
  }

  lemma PaintStdUpto(d: Deck)
    requires Sound(d)
    ensures Upto(d, PaintStd(d).cur, 0)
  {
    hide PaintStd, MarkedAt, CellAt, RawWin.Valid, RawDeck.Valid, In;
    assert SameFrame(d.cur, PaintStd(d).cur) by { StdFrame(d); }
    forall r, x | 0 <= r < d.cur.maxy && 0 <= x < d.cur.maxx
      ensures UptoAt(d, PaintStd(d).cur, 0, r, x)
    {
      assert PendingAt(d, r, x);
      StdCell(d, r, x);
      var t := Top(d.layers, r, x);
      if t >= 0 && MarkedAt(d.std, r, x) {
        DamagedTouches(d.std, r, x);
        WholeMarked(d.layers[t], r, x);
      }
    }
  }

  lemma StdFrame(d: Deck)
    ensures SameFrame(d.cur, PaintStd(d).cur)
  {
  }

  /** What refreshing stdscr leaves at a position. */
  lemma StdCell(d: Deck, r: int, x: int)
    requires 0 <= r < d.cur.maxy && 0 <= x < d.cur.maxx
    ensures In(RectOf(d.std), r, x) && SameFrame(d.cur, PaintStd(d).cur)
    ensures PaintStd(d).cur.cells[r][x] == if MarkedAt(d.std, r, x) then CellAt(d.std, r, x) else d.cur.cells[r][x]
  {
    hide NoutCur, NoutWin, AnyTouched, RawWin.Damaged;
    if AnyTouched(d.std) {
      NoutCell(d.std, d.cur, r, x);
    } else if MarkedAt(d.std, r, x) {
      DamagedTouches(d.std, r, x);
    }
  }

  /** What painting one panel leaves at a position. */
  lemma LayerCell(e: Deck, i: nat, r: int, x: int)
    requires i < |e.layers| && 0 <= r < e.cur.maxy && 0 <= x < e.cur.maxx
    ensures var w := e.layers[i];
            PaintLayer(e, i).cur.cells[r][x] ==
            if In(RectOf(w), r, x) && MarkedAt(w, r, x) then CellAt(w, r, x) else e.cur.cells[r][x]
  {
    hide NoutCur, NoutWin, AnyTouched, RawWin.Damaged;
    var w := e.layers[i];
    NoutCell(w, e.cur, r, x);
    if In(RectOf(w), r, x) && MarkedAt(w, r, x) {
      DamagedTouches(w, r, x);
    }
  }

  lemma PaintLayerUpto(d: Deck, e: Deck, i: nat)
    requires i < |d.layers| == |e.layers| && e.layers[i] == d.layers[i]
    requires Upto(d, e.cur, i) && OnStd(d.layers, d.std)
    requires forall t | i < t < |d.layers| :: ClosedPair(d.layers[i], d.layers[t], d.std)
    ensures Upto(d, PaintLayer(e, i).cur, i + 1)
  {
    hide PaintLayer, ClosedPair, MarkedAt, CellAt, In, RawWin.Valid, RawDeck.Valid;
    var w := d.layers[i];
    var next := i + 1;
    forall r, x | 0 <= r < d.cur.maxy && 0 <= x < d.cur.maxx
      ensures UptoAt(d, PaintLayer(e, i).cur, next, r, x)
    {
      assert UptoAt(d, e.cur, i, r, x);
      LayerCell(e, i, r, x);
      var t := Top(d.layers, r, x);
      if In(RectOf(w), r, x) && MarkedAt(w, r, x) && t > i {
        DamagedTouches(w, r, x);
        CoveredMarked(w, d.layers[t], d.std, r, x);
      }
    }
  }

  /** A panel over a marked cell of a lower one is marked there too. */
  lemma CoveredMarked(w: Win, v: Win, std: Win, r: int, x: int)
    requires 0 <= v.begy && v.begy + v.maxy <= std.maxy && ClosedPair(w, v, std)
    requires In(RectOf(w), r, x) && In(RectOf(v), r, x) && w.Touched(r - w.begy)
    ensures MarkedAt(v, r, x)
  {
    assert Overlap(RectOf(w), RectOf(v)) && Shares(w, v, std, r - v.begy);
    assert RowWhole(v, r - v.begy);
  }

  /** Pass 2 up to panel n: the panels from n on still have their marks. */
  lemma {:induction false} PaintToUpto(d: Deck, n: nat)
    requires n <= |d.layers| && Sound(d) && OnStd(d.layers, d.std) && Closed(d.layers, d.std, |d.layers|)
    ensures var e := PaintTo(d, n);
            && Upto(d, e.cur, n) && SameLayers(d, e) && forall k | n <= k < |d.layers| :: e.layers[k] == d.layers[k]
  {
    hide Sound, Upto, Closed, ClosedPair, PaintStd, PaintLayer, SameLayers, RawWin.Valid, RawDeck.Valid, OnStd;
    if n == 0 {
      PaintStdUpto(d);
      PaintStdSame(d);
    } else {
      var e := PaintTo(d, n - 1);
      PaintToUpto(d, n - 1);
      ClosedAbove(d, n - 1);
      PaintLayerUpto(d, e, n - 1);
      PaintLayerSame(e, n - 1);
      SameTransitive(d, e, PaintLayer(e, n - 1));
      LayersAbove(e, n - 1);
    }
  }

  lemma ClosedAbove(d: Deck, i: nat)
    requires i < |d.layers| && OnStd(d.layers, d.std) && Closed(d.layers, d.std, |d.layers|)
    ensures forall t | i < t < |d.layers| :: ClosedPair(d.layers[i], d.layers[t], d.std)
  {
  }

  /** No row of a window is touched after the update. */
  lemma {:induction false} PaintToClears(d: Deck, n: nat)
    requires n <= |d.layers|
    ensures var e := PaintTo(d, n);
            !AnyTouched(e.std) && forall k | 0 <= k < n :: !AnyTouched(e.layers[k])
  {
    hide NoutCur;
    if n > 0 {
      PaintToClears(d, n - 1);
    }
  }

  lemma PropagateReady(d: Deck)
    requires Sound(d)
    ensures var p := Propagate(d, |d.layers|);
            Sound(p) && SameLayers(d, p) && OnStd(p.layers, p.std) && Closed(p.layers, p.std, |p.layers|)
  {
    hide Draws, Sound, Closed;
    DeckOnStd(d);
    PropagatedDraws(d.layers, d.std, |d.layers|);
    PropagatedClosed(d.layers, d.std, |d.layers|);
    RemarkedSound(d, Propagate(d, |d.layers|));
  }

  lemma UptoAll(d: Deck, p: Deck, e: Deck)
    requires SameLayers(d, p) && SameLayers(p, e) && Upto(p, e.cur, |d.layers|)
    ensures SameLayers(d, e) && Painted(e) && SamePicture(d, e)
  {
    forall r, x | 0 <= r < d.cur.maxy && 0 <= x < d.cur.maxx
      ensures SamePictureAt(d, e, r, x) && PaintedAt(e, r, x)
    {
      PictureSame(d, p, r, x);
      PictureSame(p, e, r, x);
      assert UptoAt(p, e.cur, |d.layers|, r, x);
    }
  }

  /** The painter's theorem: update_panels on a sound deck leaves on curscr, at every
      position, the cell of the topmost panel there, or stdscr's where there is none. */
  lemma PainterTheorem(d: Deck)
    requires Sound(d)
    ensures var e := UpdatePanels(d);
            Painted(e) && Sound(e) && SameLayers(d, e) && SamePicture(d, e)
  {
    hide *;
    var p := Propagate(d, |d.layers|);
    PropagateReady(d);
    PaintToUpto(p, |d.layers|);
    PaintToClears(p, |d.layers|);
    UpdatePanelsIs(d);
    UptoAll(d, p, UpdatePanels(d));
    PaintedSound(UpdatePanels(d));
  }

  lemma PaintNext(d: Deck, i: nat)
    requires i < |d.layers|
    ensures PaintTo(d, i + 1) == PaintLayer(PaintTo(d, i), i) && PaintTo(d, 0) == PaintStd(d)
  {
  }

  lemma PaintStart(d: Deck)
    ensures PaintTo(d, 0) == if AnyTouched(d.std) then d.(std := NoutWin(d.std), cur := NoutCur(d.std, d.cur)) else d
  {
  }

  lemma PaintLayerIs(d: Deck, i: nat)
    requires i < |d.layers|
    ensures PaintLayer(d, i) ==
            if AnyTouched(d.layers[i]) || i == |d.layers| - 1
            then d.(layers := d.layers[i := NoutWin(d.layers[i])], cur := NoutCur(d.layers[i], d.cur)) else d
  {
  }

  lemma UpdatePanelsIs(d: Deck)
    ensures UpdatePanels(d) == PaintTo(Propagate(d, |d.layers|), |d.layers|)
  {
  }

  lemma PaintedSound(d: Deck)
    requires Painted(d) && !AnyTouched(d.std)
    ensures Sound(d)
  {
    forall r, x | 0 <= r < d.cur.maxy && 0 <= x < d.cur.maxx
      ensures PendingAt(d, r, x)
    {
      assert PaintedAt(d, r, x);
    }
  }

  // ---------------------------------------------------------------- soundness

  ghost predicate AllWhole(ls: seq<Win>) { forall k | 0 <= k < |ls| :: Whole(ls[k]) }

  lemma TouchedAllWhole(ls: seq<Win>)
    ensures AllWhole(TouchedAll(ls))
  {
    forall k | 0 <= k < |ls|
      ensures Whole(TouchedAll(ls)[k])
    {
      TouchTwice(ls[k]);
    }
  }

  /** With everything marked, nothing is forgotten. */
  lemma WholeIsSound(e: Deck)
    requires AllWhole(e.layers) && Whole(e.std)
    ensures Sound(e)
  {
    forall r, x | 0 <= r < e.cur.maxy && 0 <= x < e.cur.maxx
      ensures PendingAt(e, r, x)
    {
      var w := Seen(e, r, x);
      assert Whole(w) && w.Damaged(r - w.begy, x - w.begx);
    }
  }

  /** With every panel marked, only where no panel covers stdscr could anything be
      forgotten; there nothing changed if no panel was there before either. */
  lemma WholeKeepsSound(d: Deck, e: Deck)
    requires Sound(d) && AllWhole(e.layers) && e.std == d.std && e.cur == d.cur
    requires forall r, x | Top(d.layers, r, x) >= 0 :: Top(e.layers, r, x) >= 0
    ensures Sound(e)
  {
    forall r, x | 0 <= r < e.cur.maxy && 0 <= x < e.cur.maxx
      ensures PendingAt(e, r, x)
    {
      assert PendingAt(d, r, x);
      var w := Seen(e, r, x);
      assert Top(e.layers, r, x) >= 0 ==> Whole(w) && w.Damaged(r - w.begy, x - w.begx);
    }
  }

  lemma TopCovers(ls: seq<Win>, k: nat, r: int, x: int)
    requires k < |ls| && In(RectOf(ls[k]), r, x)
    ensures Top(ls, r, x) >= 0
  {
  }

  lemma LinkSound(d: Deck, w: Win)
    requires Sound(d) && Inside(w, d.cur)
    ensures Sound(LinkTop(d, w)) && Sound(LinkBottom(d, w))
  {
    hide *;
    LinkTopSound(d, w);
    LinkBottomSound(d, w);
  }

  lemma LinkTopSound(d: Deck, w: Win)
    requires Sound(d) && Inside(w, d.cur)
    ensures Sound(LinkTop(d, w))
  {
    hide Sound, AllWhole, TouchWin, Top, RawWin.Valid, RawDeck.Valid, In;
    TouchedAllWhole(d.layers + [w]);
    forall r, x | Top(d.layers, r, x) >= 0
      ensures Top(LinkTop(d, w).layers, r, x) >= 0
    {
      CoveredStill(d.layers, LinkTop(d, w).layers, Top(d.layers, r, x), Top(d.layers, r, x), r, x);
    }
    WholeKeepsSound(d, LinkTop(d, w));
  }

  lemma LinkBottomSound(d: Deck, w: Win)
    requires Sound(d) && Inside(w, d.cur)
    ensures Sound(LinkBottom(d, w))
  {
    hide Sound, AllWhole, TouchWin, Top, RawWin.Valid, RawDeck.Valid, In;
    TouchedAllWhole([w] + d.layers);
    forall r, x | Top(d.layers, r, x) >= 0
      ensures Top(LinkBottom(d, w).layers, r, x) >= 0
    {
      CoveredStill(d.layers, LinkBottom(d, w).layers, Top(d.layers, r, x), 1 + Top(d.layers, r, x), r, x);
    }
    WholeKeepsSound(d, LinkBottom(d, w));
  }

  /** A window in another place of the deck, touched, covers what it covered. */
  lemma CoveredStill(ls: seq<Win>, ms: seq<Win>, i: nat, k: nat, r: int, x: int)
    requires i < |ls| && k < |ms| && ms[k] == TouchWin(ls[i]) && In(RectOf(ls[i]), r, x)
    ensures Top(ms, r, x) >= 0
  {
    TopCovers(ms, k, r, x);
  }

  lemma UnlinkSound(d: Deck, k: nat)
    requires k < |d.layers|
    ensures Sound(Unlink(d, k))
  {
    TouchedAllWhole(d.layers[..k] + d.layers[k + 1..]);
    TouchTwice(d.std);
    WholeIsSound(Unlink(d, k));
  }

  lemma ReplaceSound(d: Deck, k: nat, w: Win)
    requires k < |d.layers| && Inside(w, d.cur)
    ensures Sound(Replace(d, k, w))
  {
    TouchedAllWhole(d.layers[k := w]);
    TouchTwice(d.std);
    WholeIsSound(Replace(d, k, w));
  }

  /** Row r of panel j needs no more marks after _override(panel k, 0). */
  predicate Reached(d: Deck, k: nat, j: nat, r: int)
    requires k < |d.layers| && j < |d.layers| && 0 <= r < d.layers[j].maxy
  {
    var (w, v) := (d.layers[k], d.layers[j]);
    RowWhole(v, r) || (Overlap(RectOf(w), RectOf(v)) && w.begy <= v.begy + r < w.begy + w.maxy)
  }

  /** Every other panel is wholly marked already, or marked through an overlap with panel k on all its rows. */
  predicate AllReached(d: Deck, k: nat)
    requires k < |d.layers|
  {
    forall j, r | 0 <= j < |d.layers| && j != k && 0 <= r < d.layers[j].maxy :: Reached(d, k, j, r)
  }

  lemma WholeRows(w: Win)
    ensures Whole(w) <==> forall r | 0 <= r < w.maxy :: RowWhole(w, r)
  {
    if Whole(w) {
      forall r | 0 <= r < w.maxy
        ensures RowWhole(w, r)
      {
        assert w.Damaged(r, 0) && w.Damaged(r, w.maxx - 1);
      }
    } else if forall r | 0 <= r < w.maxy :: RowWhole(w, r) {
      assert forall r, x | 0 <= r < w.maxy && 0 <= x < w.maxx && RowWhole(w, r) :: w.Damaged(r, x);
    }
  }

  lemma DisturbedLayer(d: Deck, k: nat, j: nat)
    requires k < |d.layers| && j < |d.layers|
    ensures 0 <= d.layers[j].begy && d.layers[j].begy + d.layers[j].maxy <= d.std.maxy
    ensures var (w, v) := (d.layers[k], d.layers[j]);
            Disturbed(d, k).layers[j] ==
            if j == k then TouchWin(w)
            else if Overlap(RectOf(w), RectOf(v)) then MarkAllShared(TouchWin(w), v, TouchWin(d.std)) else v
  {
    hide MarkAllShared, TouchWin, Obscuring, Overlap, RawWin.Valid;
    DeckOnStd(d);
    DeckOnStd(StdTouched(Raised(d, k)));
  }

  lemma TouchedShares(w: Win, v: Win, std: Win, r: int)
    requires 0 <= v.begy && v.begy + v.maxy <= std.maxy && 0 <= r < v.maxy
    ensures RowWhole(MarkAllShared(TouchWin(w), v, TouchWin(std)), r) <==>
            RowWhole(v, r) || w.begy <= v.begy + r < w.begy + w.maxy
  {
  }

  lemma DisturbedRow(d: Deck, k: nat, j: nat, r: int)
    requires k < |d.layers| && j < |d.layers| && j != k && 0 <= r < d.layers[j].maxy
    ensures SameFrame(d.layers[j], Disturbed(d, k).layers[j])
    ensures RowWhole(Disturbed(d, k).layers[j], r) <==> Reached(d, k, j, r)
  {
    DisturbedLayer(d, k, j);
    hide Disturbed, MarkAllShared, RowWhole, TouchWin;
    TouchedShares(d.layers[k], d.layers[j], d.std, r);
  }

  lemma DisturbedDraws(d: Deck, k: nat)
    requires k < |d.layers|
    ensures SameLayers(d, Disturbed(d, k)) && Draws(d.std, Disturbed(d, k).std) && Whole(Disturbed(d, k).std)
    ensures forall j | 0 <= j < |d.layers| :: Draws(d.layers[j], Disturbed(d, k).layers[j])
    ensures Whole(Disturbed(d, k).layers[k])
  {
    hide Disturbed, Draws, MarkAllShared, Whole, TouchWin, Overlap, RawWin.Valid, RawDeck.Valid;
    TouchTwice(d.std);
    TouchTwice(d.layers[k]);
    DisturbedLayer(d, k, k);
    forall j | 0 <= j < |d.layers|
      ensures SameFrame(d.layers[j], Disturbed(d, k).layers[j]) && Disturbed(d, k).layers[j].cells == d.layers[j].cells
      ensures Draws(d.layers[j], Disturbed(d, k).layers[j])
    {
      DisturbedLayer(d, k, j);
      MarkSharedDraws(TouchWin(d.layers[k]), d.layers[j], TouchWin(d.std));
      DrawsItself(d.layers[j]);
    }
  }

  /** A move keeps the deck sound exactly when the window fits on the screen, or
      touching had reached every row of the other panels anyway. */
  lemma MoveSound(d: Deck, k: nat, y: int, x: int)
    requires Sound(d) && k < |d.layers|
    ensures Sound(MoveLayer(d, k, y, x)) <==> Fits(d, d.layers[k], y, x) || AllReached(d, k)
  {
    if Fits(d, d.layers[k], y, x) {
      var moved := MvWin(d.layers[k], y, x, d.cur.maxy, d.cur.maxx).win;
      TouchedAllWhole(d.layers[k := moved]);
      TouchTwice(d.std);
      WholeIsSound(MoveLayer(d, k, y, x));
    } else {
      DisturbedSound(d, k);
    }
  }

  lemma DisturbedSound(d: Deck, k: nat)
    requires Sound(d) && k < |d.layers|
    ensures Sound(Disturbed(d, k)) <==> AllReached(d, k)
  {
    hide Sound, Disturbed, Whole, Draws, Reached, RawWin.Valid, RawDeck.Valid;
    var e := Disturbed(d, k);
    DisturbedDraws(d, k);
    forall j | 0 <= j < |d.layers|
      ensures Whole(e.layers[j]) <==> j == k || RowsReached(d, k, j)
    {
      DisturbedWhole(d, k, j);
    }
    if AllReached(d, k) {
      forall j | 0 <= j < |d.layers| && j != k
        ensures RowsReached(d, k, j)
      {
      }
      WholeIsSound(e);
    } else if Sound(e) {
      WholeBelow(e);
    }
  }

  /** In a sound deck whose stdscr is wholly marked, so are the panels. */
  lemma WholeBelow(e: Deck)
    requires Sound(e) && Whole(e.std)
    ensures AllWhole(e.layers)
  {
    assert e.std.Damaged(0, 0) && e.std.Touched(0);
  }

  predicate RowsReached(d: Deck, k: nat, j: nat)
    requires k < |d.layers| && j < |d.layers|
  {
    forall r | 0 <= r < d.layers[j].maxy :: Reached(d, k, j, r)
  }

  lemma DisturbedWhole(d: Deck, k: nat, j: nat)
    requires k < |d.layers| && j < |d.layers|
    ensures Whole(Disturbed(d, k).layers[j]) <==> j == k || RowsReached(d, k, j)
  {
    hide Disturbed, Reached, RowWhole, Whole, Draws, SameLayers, RawWin.Valid, RawDeck.Valid;
    DisturbedDraws(d, k);
    if j != k {
      WholeRows(Disturbed(d, k).layers[j]);
      RowWindow(d.layers[j]);
      DisturbedRow(d, k, j, 0);
      forall r | 0 <= r < d.layers[j].maxy
        ensures RowWhole(Disturbed(d, k).layers[j], r) <==> Reached(d, k, j, r)
      {
        DisturbedRow(d, k, j, r);
      }
    }
  }

  lemma RowWindow(w: Win)
    ensures 0 < w.maxy
  {
  }

  lemma WriteSound(raw: bool, d: Deck, k: nat, op: DrawOp)
    requires Sound(d) && k < |d.layers| && Safe(d.layers[k], op)
    ensures Sound(Write(raw, d, k, op))
  {
    EveryOpDraws(raw, d.layers[k], op);
    hide Apply, Draws, Sound, Safe;
    DrawnSound(d, k, Apply(raw, d.layers[k], op));
  }

  lemma CopySound(d: Deck, src: Win, k: nat, g: Region, over: bool, v: Win)
    requires Sound(d) && k < |d.layers| && g.Fits(src, d.layers[k]) && Copied(src, d.layers[k], v, g, over)
    ensures SameFrame(d.layers[k], v) && Sound(Drawn(d, k, v))
  {
    CopyDraws(src, d.layers[k], v, g, over);
    hide Copied, Sound;
    DrawnSound(d, k, v);
  }

  /** Drawing on one panel keeps the deck sound. */
  lemma DrawnSound(d: Deck, k: nat, v: Win)
    requires Sound(d) && k < |d.layers| && Draws(d.layers[k], v)
    ensures SameFrame(d.layers[k], v) && Sound(Drawn(d, k, v))
  {
    var w := d.layers[k];
    assert SameFrame(w, v);
    hide Draws, RawWin.Valid, RawDeck.Valid;
    var e := Drawn(d, k, v);
    forall r, x | 0 <= r < d.cur.maxy && 0 <= x < d.cur.maxx
      ensures PendingAt(e, r, x)
    {
      TopSame(d.layers, e.layers, r, x);
      assert PendingAt(d, r, x);
      if Top(d.layers, r, x) == k {
        DrawnPending(w, v, d.cur.cells[r][x], r, x);
      }
    }
    if AnyTouched(e.std) {
      WholeKept(w, v);
    }
  }

  lemma DrawnPending(w: Win, v: Win, c: Chtype, r: int, x: int)
    requires Draws(w, v) && In(RectOf(w), r, x) && (c == CellAt(w, r, x) || MarkedAt(w, r, x))
    ensures In(RectOf(v), r, x) && (c == CellAt(v, r, x) || MarkedAt(v, r, x))
  {
    assert DrawnAt(w, v, r - w.begy, x - w.begx);
  }

  // ---------------------------------------------------------------- runs

  /** One step of a program using panels. Showing a linked panel on top is unlinking
      it and linking it again. A copy takes its cells from any window, that of another
      panel, a hidden one or stdscr, and leaves v. */
  datatype DeckEvent =
    | LinksTop(w: Win) | LinksBottom(w: Win) | Unlinks(k: nat) | Moves(k: nat, y: int, x: int)
    | Replaces(k: nat, w: Win) | Writes(k: nat, op: DrawOp) | Copies(src: Win, k: nat, g: Region, over: bool, v: Win)
    | WritesStd(op: DrawOp) | Paints

  /** What the library asks of its callers: windows on the screen, moves that succeed or
      whose touching reaches every other panel anyway, and stdscr left alone while panels
      are linked. */
  predicate LegalIn(d: Deck, e: DeckEvent) {
    match e
    case LinksTop(w) => Inside(w, d.cur)
    case LinksBottom(w) => Inside(w, d.cur)
    case Unlinks(k) => k < |d.layers|
    case Moves(k, y, x) => k < |d.layers| && (Fits(d, d.layers[k], y, x) || AllReached(d, k))
    case Replaces(k, w) => k < |d.layers| && Inside(w, d.cur)
    case Writes(k, op) => k < |d.layers| && Safe(d.layers[k], op)
    case Copies(src, k, g, over, v) =>
      k < |d.layers| && g.Fits(src, d.layers[k]) && Copied(src, d.layers[k], v, g, over)
    case WritesStd(op) => d.layers == [] && Safe(d.std, op)
    case Paints => true
  }

  function DeckStep(raw: bool, d: Deck, e: DeckEvent): Deck
    requires LegalIn(d, e)
  {
    match e
    case LinksTop(w) => LinkTop(d, w)
    case LinksBottom(w) => LinkBottom(d, w)
    case Unlinks(k) => Unlink(d, k)
    case Moves(k, y, x) => MoveLayer(d, k, y, x)
    case Replaces(k, w) => Replace(d, k, w)
    case Writes(k, op) => Write(raw, d, k, op)
    case Copies(_, k, _, _, v) => Drawn(d, k, v)
    case WritesStd(op) => WriteStd(raw, d, op)
    case Paints => UpdatePanels(d)
  }

  predicate LegalDeckRun(raw: bool, d: Deck, es: seq<DeckEvent>)
    decreases |es|
  {
    es == [] || (LegalIn(d, es[0]) && LegalDeckRun(raw, DeckStep(raw, d, es[0]), es[1..]))
  }

  function DeckRun(raw: bool, d: Deck, es: seq<DeckEvent>): Deck
    requires LegalDeckRun(raw, d, es)
    decreases |es|
  {
    if es == [] then d else DeckRun(raw, DeckStep(raw, d, es[0]), es[1..])
  }

  lemma StepSound(raw: bool, d: Deck, e: DeckEvent)
    requires Sound(d) && LegalIn(d, e)
    ensures Sound(DeckStep(raw, d, e))
  {
    hide Sound, Apply, Copied, UpdatePanels, AllReached;
    match e
    case LinksTop(w) => LinkSound(d, w);
    case LinksBottom(w) => LinkSound(d, w);
    case Unlinks(k) => UnlinkSound(d, k);
    case Moves(k, y, x) => MoveSound(d, k, y, x);
    case Replaces(k, w) => ReplaceSound(d, k, w);
    case Writes(k, op) => WriteSound(raw, d, k, op);
    case Copies(src, k, g, over, v) => CopySound(d, src, k, g, over, v);
    case WritesStd(op) => WriteStdSound(raw, d, op);
    case Paints => PainterTheorem(d);
  }

  lemma {:induction false} RunSound(raw: bool, d: Deck, es: seq<DeckEvent>)
    requires Sound(d) && LegalDeckRun(raw, d, es)
    ensures Sound(DeckRun(raw, d, es))
    decreases |es|
  {
    if es != [] {
      StepSound(raw, d, es[0]);
      hide Sound, DeckStep;
      RunSound(raw, DeckStep(raw, d, es[0]), es[1..]);
    }
  }

  /** From any sound deck, such as one without panels whose stdscr has been refreshed,
      every run of deck operations, writes into panels and copies onto them leaves a deck
      that the next update_panels paints right. */
  lemma RunPaints(raw: bool, d: Deck, es: seq<DeckEvent>)
    requires Sound(d) && LegalDeckRun(raw, d, es)
    ensures var e := DeckRun(raw, d, es);
            Painted(UpdatePanels(e)) && SamePicture(e, UpdatePanels(e))
  {
    RunSound(raw, d, es);
    hide *;
    PainterTheorem(DeckRun(raw, d, es));
  }

  /** Drawing on stdscr keeps a deck without panels sound. */
  lemma WriteStdSound(raw: bool, d: Deck, op: DrawOp)
    requires Sound(d) && d.layers == [] && Safe(d.std, op)
    ensures Sound(WriteStd(raw, d, op))
  {
    EmptySound(d);
    EmptySound(WriteStd(raw, d, op));
    EveryOpDraws(raw, d.std, op);
    hide *;
    StdWritten(raw, d, op);
    DrawsKeepsCoverage(d.std, Apply(raw, d.std, op), d.cur.cells);
  }

  lemma StdWritten(raw: bool, d: Deck, op: DrawOp)
    requires Safe(d.std, op)
    ensures var e := WriteStd(raw, d, op); e.std == Apply(raw, d.std, op) && e.cur == d.cur && e.layers == d.layers
  {
  }

  /** A deck without panels is sound exactly when stdscr's damage is complete. */
  lemma EmptySound(d: Deck)
    requires d.layers == []
    ensures Sound(d) <==> Covers(d.std, d.cur.cells)
  {
    if Covers(d.std, d.cur.cells) {
      forall r, x | 0 <= r < d.cur.maxy && 0 <= x < d.cur.maxx
        ensures PendingAt(d, r, x)
      {
        assert CoversAt(d.std, d.cur.cells, r, x);
      }
    } else if Sound(d) {
      forall r, x | 0 <= r < d.std.maxy && 0 <= x < d.std.maxx
        ensures CoversAt(d.std, d.cur.cells, r, x)
      {
        assert PendingAt(d, r, x);
      }
    }
  }

  // ---------------------------------------------------------------- a refused move, exactly

  /** What pass 2 leaves at a position, whatever the marks: the highest marked cell. */
  function Shown(d: Deck, n: nat, r: int, x: int): Chtype
    requires n <= |d.layers| && 0 <= r < d.cur.maxy && 0 <= x < d.cur.maxx
  {
    if n == 0 then if MarkedAt(d.std, r, x) then CellAt(d.std, r, x) else d.cur.cells[r][x]
    else
      var w := d.layers[n - 1];
      if In(RectOf(w), r, x) && MarkedAt(w, r, x) then CellAt(w, r, x) else Shown(d, n - 1, r, x)
  }

  lemma {:induction false} PaintToShown(d: Deck, n: nat, r: int, x: int)
    requires n <= |d.layers| && 0 <= r < d.cur.maxy && 0 <= x < d.cur.maxx
    ensures var e := PaintTo(d, n);
            && SameFrame(d.cur, e.cur) && e.cur.cells[r][x] == Shown(d, n, r, x)
            && forall k | n <= k < |d.layers| :: e.layers[k] == d.layers[k]
  {
    hide PaintStd, PaintLayer, MarkedAt, CellAt, In, RawWin.Valid, RawDeck.Valid;
    if n == 0 {
      StdCell(d, r, x);
    } else {
      PaintToShown(d, n - 1, r, x);
      LayerCell(PaintTo(d, n - 1), n - 1, r, x);
      LayersAbove(PaintTo(d, n - 1), n - 1);
    }
  }

  /** Painting panel i leaves the others alone. */
  lemma LayersAbove(e: Deck, i: nat)
    requires i < |e.layers|
    ensures forall k | 0 <= k < |e.layers| && k != i :: PaintLayer(e, i).layers[k] == e.layers[k]
  {
    hide NoutCur, NoutWin;
  }

  /** Where the panel on top is not marked, no lower one is, and stdscr shows through. */
  lemma {:induction false} ShownThrough(d: Deck, n: nat, r: int, x: int)
    requires n <= |d.layers| && OnStd(d.layers, d.std) && Closed(d.layers, d.std, |d.layers|) && Whole(d.std)
    requires 0 <= r < d.cur.maxy && 0 <= x < d.cur.maxx
    requires var t := Top(d.layers, r, x); t >= 0 && !MarkedAt(d.layers[t], r, x)
    ensures Shown(d, n, r, x) == CellAt(d.std, r, x)
  {
    hide MarkedAt, CellAt, In, Whole, Closed, ClosedPair, OnStd, RawWin.Valid, RawDeck.Valid;
    if n == 0 {
      WholeStd(d, r, x);
    } else {
      ShownThrough(d, n - 1, r, x);
      var t := Top(d.layers, r, x);
      var w := d.layers[n - 1];
      if n - 1 < t && In(RectOf(w), r, x) {
        ClosedAt(d.layers, d.std, n - 1, t);
        LowerUnmarked(w, d.layers[t], d.std, r, x);
      }
    }
  }

  lemma LowerUnmarked(w: Win, v: Win, std: Win, r: int, x: int)
    requires 0 <= v.begy && v.begy + v.maxy <= std.maxy && ClosedPair(w, v, std)
    requires In(RectOf(w), r, x) && In(RectOf(v), r, x) && !MarkedAt(v, r, x)
    ensures !MarkedAt(w, r, x)
  {
    if w.Touched(r - w.begy) {
      CoveredMarked(w, v, std, r, x);
    }
  }

  lemma {:induction false} ShownTop(d: Deck, n: nat, r: int, x: int)
    requires n <= |d.layers| && 0 <= r < d.cur.maxy && 0 <= x < d.cur.maxx
    requires Top(d.layers, r, x) < n
    requires MarkedAt(Seen(d, r, x), r, x)
    ensures Shown(d, n, r, x) == Picture(d, r, x)
  {
    if n > 0 && Top(d.layers, r, x) < n - 1 {
      ShownTop(d, n - 1, r, x);
    }
  }

  /** Panel i makes _override mark screen row r of panel t: they overlap, and i is below
      t or is the panel k that should have moved. */
  predicate Reaches(d: Deck, k: nat, i: int, t: int, r: int)
    requires 0 <= t < |d.layers|
  {
    && 0 <= i < |d.layers| && i != t && (i < t || i == k) && Overlap(RectOf(d.layers[i]), RectOf(d.layers[t]))
    && d.layers[i].begy <= r < d.layers[i].begy + d.layers[i].maxy
  }

  /** What stands at a position outlives a refused move of panel k. */
  ghost predicate Survives(d: Deck, k: nat, r: int, x: int)
    requires 0 <= r < d.cur.maxy && 0 <= x < d.cur.maxx
  {
    var t := Top(d.layers, r, x);
    t < 0 || t == k || MarkedAt(d.layers[t], r, x) || CellAt(d.std, r, x) == CellAt(d.layers[t], r, x)
    || exists i :: Reaches(d, k, i, t, r)
  }

  predicate SameRow(w: Win, v: Win, r: int)
    requires 0 <= r < w.maxy && 0 <= r < v.maxy
  {
    v.first[r] == w.first[r] && v.last[r] == w.last[r]
  }

  /** Panel i lies below panel j, overlaps it and covers screen row y. */
  predicate Under(layers: seq<Win>, i: int, j: int, y: int) {
    && 0 <= i < j < |layers| && Overlap(RectOf(layers[i]), RectOf(layers[j]))
    && layers[i].begy <= y < layers[i].begy + layers[i].maxy
  }

  lemma MarkedOrigin(layers: seq<Win>, std: Win, i: nat, j: nat, r: int)
    requires i < |layers| && j < |layers| && OnStd(layers, std) && 0 <= r < layers[j].maxy
    ensures var u := PropagateFrom(layers, std, i)[j];
            SameFrame(layers[j], u) && (SameRow(layers[j], u, r) || Under(layers, i, j, layers[j].begy + r))
  {
    hide Overlap;
  }

  lemma UnderSame(layers: seq<Win>, ls: seq<Win>, i: int, j: int, y: int)
    requires Remarked(layers, ls)
    ensures Under(layers, i, j, y) <==> Under(ls, i, j, y)
    ensures 0 <= j < |layers| ==> SameFrame(layers[j], ls[j])
  {
    hide Overlap;
  }

  /** Row r of panel j is as it was, or panel i made pass 1 mark it. */
  predicate Origin(layers: seq<Win>, ls: seq<Win>, i: int, j: nat, r: int)
    requires j < |layers| == |ls|
  {
    && SameFrame(layers[j], ls[j]) && 0 <= r < layers[j].maxy
    && (SameRow(layers[j], ls[j], r) || Under(layers, i, j, layers[j].begy + r))
  }

  lemma OriginStep(layers: seq<Win>, before: seq<Win>, std: Win, i: int, n: nat, j: nat, r: int)
    requires n < |layers| == |before| && j < |layers| && OnStd(before, std) && Remarked(layers, before) &&
             Origin(layers, before, i, j, r)
    ensures Origin(layers, PropagateFrom(before, std, n), i, j, r) ||
            Origin(layers, PropagateFrom(before, std, n), n, j, r)
  {
    hide PropagateFrom, Under, RawWin.Valid;
    UnderSame(layers, before, n, j, layers[j].begy + r);
    MarkedOrigin(before, std, n, j, r);
  }

  lemma OriginStart(layers: seq<Win>, std: Win, j: nat, r: int)
    requires j < |layers| && OnStd(layers, std) && 0 <= r < layers[j].maxy
    ensures Origin(layers, Propagated(layers, std, 0), -1, j, r)
  {
  }

  /** Pass 1 marks a row of panel j only for an overlapping panel below it on that row. */
  lemma {:induction false} PropagatedOrigin(layers: seq<Win>, std: Win, n: nat, j: nat, r: int) returns (i: int)
    requires n <= |layers| && j < |layers| && OnStd(layers, std) && 0 <= r < layers[j].maxy
    ensures Origin(layers, Propagated(layers, std, n), i, j, r)
  {
    hide *;
    i := -1;
    OriginStart(layers, std, j, r);
    if n > 0 {
      i := PropagatedOrigin(layers, std, n - 1, j, r);
      PropagatedNext(layers, std, n - 1);
      OriginStep(layers, Propagated(layers, std, n - 1), std, i, n - 1, j, r);
      if Origin(layers, Propagated(layers, std, n), n - 1, j, r) {
        i := n - 1;
      }
    }
  }

  /** e is d after the refused move of panel k, and p is e after pass 1. */
  ghost predicate Refused(d: Deck, k: nat, e: Deck, p: Deck) {
    && k < |d.layers| == |e.layers| == |p.layers| && e == Disturbed(d, k) && p == Propagate(e, |d.layers|)
  }

  lemma RefusedFacts(d: Deck, k: nat, e: Deck, p: Deck)
    requires Refused(d, k, e, p)
    ensures SameLayers(d, e) && SameLayers(e, p) && SameLayers(d, p) && p.std == e.std && p.cur == d.cur
    ensures Whole(e.std) && Whole(e.layers[k]) && OnStd(e.layers, e.std) && OnStd(p.layers, p.std)
    ensures p.layers == Propagated(e.layers, e.std, |d.layers|) && Closed(p.layers, p.std, |d.layers|)
    ensures forall j | 0 <= j < |d.layers| :: Draws(d.layers[j], p.layers[j]) && Draws(e.layers[j], p.layers[j])
  {
    DisturbedDraws(d, k);
    DeckOnStd(e);
    DeckOnStd(p);
    PropagatedDraws(e.layers, e.std, |d.layers|);
    PropagateReadyAny(e);
    hide *;
    PropagateIs(e, |d.layers|);
    SameTransitive(d, e, p);
    forall j | 0 <= j < |d.layers|
      ensures Draws(d.layers[j], p.layers[j])
    {
      DrawsTransitive(d.layers[j], e.layers[j], p.layers[j]);
    }
  }

  lemma PropagateIs(d: Deck, n: nat)
    requires n <= |d.layers|
    ensures OnStd(d.layers, d.std) && Propagate(d, n) == d.(layers := Propagated(d.layers, d.std, n))
  {
    DeckOnStd(d);
  }

  lemma MarkKept(w: Win, v: Win, r: int, x: int)
    requires Draws(w, v) && In(RectOf(w), r, x)
    ensures In(RectOf(v), r, x) && (MarkedAt(w, r, x) ==> MarkedAt(v, r, x))
  {
    assert DrawnAt(w, v, r - w.begy, x - w.begx);
  }

  lemma WholeMarked(w: Win, r: int, x: int)
    requires In(RectOf(w), r, x) && (Whole(w) || RowWhole(w, r - w.begy))
    ensures MarkedAt(w, r, x)
  {
    assert Whole(w) ==> w.Damaged(r - w.begy, x - w.begx);
  }

  lemma ReachedBelow(w: Win, v: Win, std: Win, r: int, x: int)
    requires 0 <= v.begy && v.begy + v.maxy <= std.maxy && ClosedPair(w, v, std) && Whole(std) && std.begy == 0 &&
             0 < std.maxx
    requires In(RectOf(v), r, x) && Overlap(RectOf(w), RectOf(v)) && w.begy <= r < w.begy + w.maxy
    ensures MarkedAt(v, r, x)
  {
    assert std.Damaged(r, 0);
    assert Shares(w, v, std, r - v.begy) && RowWhole(v, r - v.begy);
  }

  lemma ReachedOver(d: Deck, k: nat, t: nat, r: int, x: int)
    requires k < |d.layers| && t < |d.layers| && t != k && In(RectOf(d.layers[t]), r, x) && Reaches(d, k, k, t, r)
    ensures In(RectOf(Disturbed(d, k).layers[t]), r, x) && MarkedAt(Disturbed(d, k).layers[t], r, x)
  {
    hide Disturbed, Overlap, RowWhole, MarkedAt, Whole, RawWin.Valid, RawDeck.Valid;
    var row := r - d.layers[t].begy;
    assert Reached(d, k, t, row);
    DisturbedRow(d, k, t, row);
    WholeMarked(Disturbed(d, k).layers[t], r, x);
  }

  lemma MarkedForward(d: Deck, k: nat, e: Deck, p: Deck, r: int, x: int, i: int)
    requires Refused(d, k, e, p) && 0 <= r < d.cur.maxy && 0 <= x < d.cur.maxx && Top(d.layers, r, x) >= 0
    requires var t := Top(d.layers, r, x); t == k || MarkedAt(d.layers[t], r, x) || Reaches(d, k, i, t, r)
    ensures var t := Top(d.layers, r, x); In(RectOf(p.layers[t]), r, x) && MarkedAt(p.layers[t], r, x)
  {
    hide Disturbed, Propagate, Draws, Overlap, Whole, Closed, ClosedPair, RawWin.Valid, RawDeck.Valid;
    var t := Top(d.layers, r, x);
    RefusedFacts(d, k, e, p);
    MarkKept(d.layers[t], p.layers[t], r, x);
    MarkKept(e.layers[t], p.layers[t], r, x);
    if t == k {
      WholeMarked(e.layers[t], r, x);
    } else if !MarkedAt(d.layers[t], r, x) {
      if i < t {
        ReachesBelow(d, k, e, p, i, t, r, x);
      } else {
        ReachedOver(d, k, t, r, x);
      }
    }
  }

  lemma ReachesBelow(d: Deck, k: nat, e: Deck, p: Deck, i: int, t: nat, r: int, x: int)
    requires Refused(d, k, e, p) && i < t < |d.layers| && In(RectOf(d.layers[t]), r, x) && Reaches(d, k, i, t, r)
    ensures In(RectOf(p.layers[t]), r, x) && MarkedAt(p.layers[t], r, x)
  {
    hide Disturbed, Propagate, Draws, Overlap, Whole, Closed, ClosedPair, MarkedAt, OnStd, RawWin.Valid, Refused;
    RefusedFacts(d, k, e, p);
    ClosedAt(p.layers, p.std, i, t);
    ReachedBelow(p.layers[i], p.layers[t], p.std, r, x);
  }

  lemma ClosedAt(layers: seq<Win>, std: Win, i: int, t: int)
    requires OnStd(layers, std) && Closed(layers, std, |layers|) && 0 <= i < t < |layers|
    ensures 0 <= layers[t].begy && layers[t].begy + layers[t].maxy <= std.maxy && ClosedPair(layers[i], layers[t], std)
  {
  }

  lemma MarkedBack(d: Deck, k: nat, e: Deck, p: Deck, r: int, x: int) returns (i: int)
    requires Refused(d, k, e, p) && 0 <= r < d.cur.maxy && 0 <= x < d.cur.maxx && Top(d.layers, r, x) >= 0
    requires var t := Top(d.layers, r, x); In(RectOf(p.layers[t]), r, x) && MarkedAt(p.layers[t], r, x)
    ensures var t := Top(d.layers, r, x); t == k || MarkedAt(d.layers[t], r, x) || Reaches(d, k, i, t, r)
  {
    hide Disturbed, Propagate, Propagated, OnStd, Draws, Overlap, Whole, Closed, RawWin.Valid, RawDeck.Valid;
    var t := Top(d.layers, r, x);
    RefusedFacts(d, k, e, p);
    i := PropagatedOrigin(e.layers, e.std, |d.layers|, t, r - d.layers[t].begy);
    if t != k && !Under(e.layers, i, t, r) {
      OverriddenOrigin(d, k, t, r - d.layers[t].begy);
      if Reaches(d, k, k, t, r) {
        i := k;
      }
    }
  }

  lemma OverriddenOrigin(d: Deck, k: nat, t: nat, r: int)
    requires k < |d.layers| && t < |d.layers| && t != k && 0 <= r < d.layers[t].maxy
    ensures SameFrame(d.layers[t], Disturbed(d, k).layers[t])
    ensures SameRow(d.layers[t], Disturbed(d, k).layers[t], r) || Reaches(d, k, k, t, d.layers[t].begy + r)
  {
    hide Disturbed, Overlap, MarkAllShared, TouchWin, RawWin.Valid, RawDeck.Valid;
    DisturbedLayer(d, k, t);
    SharedOrigin(TouchWin(d.layers[k]), d.layers[t], TouchWin(d.std), r);
  }

  lemma SharedOrigin(w: Win, v: Win, std: Win, r: int)
    requires 0 <= v.begy && v.begy + v.maxy <= std.maxy && 0 <= r < v.maxy
    ensures SameRow(v, MarkAllShared(w, v, std), r) || w.begy <= v.begy + r < w.begy + w.maxy
  {
  }

  /** After a refused move the next update_panels paints right exactly when every
      position survives; a caller who checks mvwin's guard first never needs to ask. */
  lemma RefusedMove(d: Deck, k: nat, y: int, x: int)
    requires Sound(d) && k < |d.layers| && !Fits(d, d.layers[k], y, x)
    ensures Painted(UpdatePanels(MoveLayer(d, k, y, x))) <==>
            forall r, c | 0 <= r < d.cur.maxy && 0 <= c < d.cur.maxx :: Survives(d, k, r, c)
  {
    var e := Disturbed(d, k);
    var p := Propagate(e, |d.layers|);
    var u := UpdatePanels(e);
    hide *;
    RefusedIs(d, k, y, x);
    RefusedFacts(d, k, e, p);
    UpdatePanelsIs(e);
    PaintToSame(p, |d.layers|);
    SameTransitive(d, p, u);
    forall r, c | 0 <= r < d.cur.maxy && 0 <= c < d.cur.maxx
      ensures SameFrame(d.cur, u.cur) && (PaintedAt(u, r, c) <==> Survives(d, k, r, c))
    {
      SurvivorShown(d, k, e, p, u, r, c);
    }
    AllPainted(d, k, u);
  }

  lemma RefusedIs(d: Deck, k: nat, y: int, x: int)
    requires k < |d.layers| && !Fits(d, d.layers[k], y, x)
    ensures MoveLayer(d, k, y, x) == Disturbed(d, k) && |Disturbed(d, k).layers| == |d.layers|
    ensures Refused(d, k, Disturbed(d, k), Propagate(Disturbed(d, k), |d.layers|))
  {
  }

  lemma AllPainted(d: Deck, k: nat, u: Deck)
    requires SameFrame(d.cur, u.cur)
    requires forall r, c | 0 <= r < d.cur.maxy && 0 <= c < d.cur.maxx :: PaintedAt(u, r, c) <==> Survives(d, k, r, c)
    ensures Painted(u) <==> forall r, c | 0 <= r < d.cur.maxy && 0 <= c < d.cur.maxx :: Survives(d, k, r, c)
  {
  }

  lemma PropagateReadyAny(d: Deck)
    ensures var p := Propagate(d, |d.layers|);
            SameLayers(d, p) && p.std == d.std && OnStd(p.layers, p.std) && Closed(p.layers, p.std, |p.layers|)
  {
    hide Draws, Closed;
    DeckOnStd(d);
    PropagatedClosed(d.layers, d.std, |d.layers|);
  }

  lemma {:induction false} PaintToSame(d: Deck, n: nat)
    requires n <= |d.layers|
    ensures SameLayers(d, PaintTo(d, n))
  {
    hide PaintStd, PaintLayer, RawWin.Valid, RawDeck.Valid, SameLayers;
    if n == 0 {
      PaintStdSame(d);
    } else {
      var e := PaintTo(d, n - 1);
      PaintToSame(d, n - 1);
      PaintLayerSame(e, n - 1);
      SameTransitive(d, e, PaintLayer(e, n - 1));
    }
  }

  lemma PaintStdSame(d: Deck)
    ensures SameLayers(d, PaintStd(d))
  {
    hide NoutCur;
  }

  lemma PaintLayerSame(e: Deck, i: nat)
    requires i < |e.layers|
    ensures SameLayers(e, PaintLayer(e, i))
  {
    hide NoutCur;
  }

  lemma SameTransitive(d: Deck, e: Deck, f: Deck)
    requires SameLayers(d, e) && SameLayers(e, f)
    ensures SameLayers(d, f) && SameFrame(d.cur, f.cur) && |d.layers| == |f.layers|
  {
  }

  lemma SurvivorShown(d: Deck, k: nat, e: Deck, p: Deck, u: Deck, r: int, x: int)
    requires Refused(d, k, e, p) && u == PaintTo(p, |d.layers|) && SameLayers(d, u) && 0 <= r < d.cur.maxy &&
             0 <= x < d.cur.maxx
    ensures SameFrame(d.cur, u.cur) && (PaintedAt(u, r, x) <==> Survives(d, k, r, x))
  {
    hide *;
    RefusedFacts(d, k, e, p);
    TopIn(d, p, r, x);
    ShownPainted(d, p, u, r, x);
    var t := Top(d.layers, r, x);
    if t < 0 {
      BareSurvives(d, k, e, p, r, x);
    } else if MarkedAt(p.layers[t], r, x) {
      MarkedSurvives(d, k, e, p, r, x);
    } else {
      UnmarkedSurvives(d, k, e, p, r, x, t);
      UnmarkedShown(d, k, e, p, r, x, t);
    }
  }

  lemma ShownPainted(d: Deck, p: Deck, u: Deck, r: int, x: int)
    requires |d.layers| == |p.layers| && u == PaintTo(p, |d.layers|) && SameLayers(d, u) && SameFrame(d.cur, p.cur)
    requires 0 <= r < d.cur.maxy && 0 <= x < d.cur.maxx
    ensures SameFrame(d.cur, u.cur) && (PaintedAt(u, r, x) <==> Shown(p, |d.layers|, r, x) == Picture(d, r, x))
  {
    PaintToShown(p, |d.layers|, r, x);
    PictureSame(d, u, r, x);
    hide Shown, PaintTo, Picture, RawWin.Valid, RawDeck.Valid;
  }

  lemma TopIn(d: Deck, p: Deck, r: int, x: int)
    requires SameLayers(d, p)
    ensures var t := Top(d.layers, r, x);
            t < |p.layers| == |d.layers| && Top(p.layers, r, x) == t && (t >= 0 ==> In(RectOf(p.layers[t]), r, x))
    ensures SameFrame(d.cur, p.cur) && (0 <= r < d.cur.maxy && 0 <= x < d.cur.maxx ==> In(RectOf(d.std), r, x))
  {
    TopSame(d.layers, p.layers, r, x);
  }

  /** Where no panel is, stdscr has been touched and shows. */
  lemma BareSurvives(d: Deck, k: nat, e: Deck, p: Deck, r: int, x: int)
    requires Refused(d, k, e, p) && 0 <= r < d.cur.maxy && 0 <= x < d.cur.maxx && Top(d.layers, r, x) < 0
    ensures |p.layers| == |d.layers| && SameFrame(d.cur, p.cur)
    ensures Survives(d, k, r, x) && Shown(p, |d.layers|, r, x) == Picture(d, r, x)
  {
    hide Refused, Propagated, Closed, Shown, Draws, Whole, RawWin.Valid, RawDeck.Valid, MarkedAt, CellAt;
    RefusedFacts(d, k, e, p);
    TopIn(d, p, r, x);
    PictureSame(d, p, r, x);
    WholeStd(p, r, x);
    ShownTop(p, |d.layers|, r, x);
  }

  lemma WholeStd(p: Deck, r: int, x: int)
    requires Whole(p.std) && 0 <= r < p.cur.maxy && 0 <= x < p.cur.maxx
    ensures In(RectOf(p.std), r, x) && MarkedAt(p.std, r, x)
  {
    WholeMarked(p.std, r, x);
  }

  /** Where the topmost panel is marked, it is painted. */
  lemma MarkedSurvives(d: Deck, k: nat, e: Deck, p: Deck, r: int, x: int)
    requires Refused(d, k, e, p) && 0 <= r < d.cur.maxy && 0 <= x < d.cur.maxx && Top(d.layers, r, x) >= 0
    requires var t := Top(d.layers, r, x); In(RectOf(p.layers[t]), r, x) && MarkedAt(p.layers[t], r, x)
    ensures SameFrame(d.cur, p.cur) && Survives(d, k, r, x) && Shown(p, |d.layers|, r, x) == Picture(d, r, x)
  {
    hide Refused, Propagated, Closed, Shown, Reaches, Draws, Whole, RawWin.Valid, RawDeck.Valid, MarkedAt, CellAt, In;
    RefusedFacts(d, k, e, p);
    TopIn(d, p, r, x);
    PictureSame(d, p, r, x);
    var i := MarkedBack(d, k, e, p, r, x);
    ShownTop(p, |d.layers|, r, x);
  }

  lemma UnmarkedSurvives(d: Deck, k: nat, e: Deck, p: Deck, r: int, x: int, t: nat)
    requires Refused(d, k, e, p) && 0 <= r < d.cur.maxy && 0 <= x < d.cur.maxx && t < |d.layers| == |p.layers|
    requires t == Top(d.layers, r, x) && In(RectOf(p.layers[t]), r, x) && !MarkedAt(p.layers[t], r, x) &&
             In(RectOf(d.std), r, x)
    ensures Survives(d, k, r, x) <==> CellAt(d.std, r, x) == CellAt(d.layers[t], r, x)
  {
    hide Refused, Reaches, MarkedAt, Top, CellAt, In, RawDeck.Valid, RawWin.Valid;
    forall i | Reaches(d, k, i, t, r)
      ensures false
    {
      MarkedForward(d, k, e, p, r, x, i);
      assert false;
    }
    if t == k || MarkedAt(d.layers[t], r, x) {
      MarkedForward(d, k, e, p, r, x, -1);
      assert false;
    }
  }

  /** Where it is not, stdscr shows through. */
  lemma UnmarkedShown(d: Deck, k: nat, e: Deck, p: Deck, r: int, x: int, t: nat)
    requires Refused(d, k, e, p) && 0 <= r < d.cur.maxy && 0 <= x < d.cur.maxx
    requires t == Top(d.layers, r, x) && In(RectOf(p.layers[t]), r, x) && !MarkedAt(p.layers[t], r, x)
    ensures SameFrame(d.cur, p.cur) && In(RectOf(d.std), r, x) && Shown(p, |d.layers|, r, x) == CellAt(d.std, r, x)
    ensures Picture(d, r, x) == CellAt(d.layers[t], r, x)
  {
    hide Refused, Propagated, Closed, Shown, Draws, Whole, RawWin.Valid, MarkedAt;
    RefusedFacts(d, k, e, p);
    TopIn(d, p, r, x);
    ShownThrough(p, |d.layers|, r, x);
  }

  // A screen of one row and two columns: panels showing 'A' and 'B' side by side on a
  // blank stdscr, all of it refreshed.
  const LETTER_A := Ch(0, 0, 0x41)
  const LETTER_B := Ch(0, 0, 0x42)

  function Clean(cells: Row, x: nat): Win
    requires cells != []
  {
    RawWin(1, |cells|, 0, x, 0, 0, 0, 0, BLANK, BLANK, false, false, false, [cells], [NO_CHANGE], [NO_CHANGE])
  }

  function SideBySide(): Deck {
    RawDeck([Clean([LETTER_A], 0), Clean([LETTER_B], 1)], Clean([BLANK, BLANK], 0), Clean([LETTER_A, LETTER_B], 0))
  }

  /** A refused move can break the painting: the panel beside the one that should have
      moved disappears behind stdscr at the next update. */
  lemma RefusedMoveBreaks()
    ensures Sound(SideBySide()) && Painted(SideBySide()) && !Painted(UpdatePanels(MoveLayer(SideBySide(), 0, -1, 0)))
  {
    hide *;
    SideLost();
    PaintedSound(SideBySide());
    RefusedMove(SideBySide(), 0, -1, 0);
  }

  lemma SideLost()
    ensures !Survives(SideBySide(), 0, 0, 1) && Painted(SideBySide())
    ensures |SideBySide().layers| == 2 && SideBySide().cur.maxy == 1 && SideBySide().cur.maxx == 2
    ensures !Fits(SideBySide(), SideBySide().layers[0], -1, 0) && !AnyTouched(SideBySide().std)
  {
    var d := SideBySide();
    assert Top(d.layers, 0, 1) == 1 && Top(d.layers[..1], 0, 0) == 0;
  }
}
