/** The panel deck as a value: the windows of the linked panels from bottom to top,
    stdscr behind them, and curscr, on which update_panels paints. */
module PanelModel {
  import opened Cells
  import opened WindowModel
  import opened Damage
  import opened RefreshModel

  // ---------------------------------------------------------------- rectangles

  /** A panel's place on the screen: rows y0..y1-1, columns x0..x1-1. */
  datatype Rect = Rect(y0: int, y1: int, x0: int, x1: int)

  function RectOf(w: Win): Rect { Rect(w.begy, w.begy + w.maxy, w.begx, w.begx + w.maxx) }

  predicate In(a: Rect, r: int, x: int) { a.y0 <= r < a.y1 && a.x0 <= x < a.x1 }

  /** _panels_overlapped. */
  predicate Overlap(a: Rect, b: Rect) {
    && ((b.y0 <= a.y0 < b.y1) || (a.y0 <= b.y0 < a.y1))
    && ((b.x0 <= a.x0 < b.x1) || (a.x0 <= b.x0 < a.x1))
  }

  /** Two panels overlap exactly when some screen position lies in both. */
  lemma OverlapIsMeeting(a: Rect, b: Rect)
    requires a.y0 < a.y1 && a.x0 < a.x1 && b.y0 < b.y1 && b.x0 < b.x1
    ensures Overlap(a, b) <==> exists r, x :: In(a, r, x) && In(b, r, x)
  {
    if Overlap(a, b) {
      assert In(a, Max(a.y0, b.y0), Max(a.x0, b.x0)) && In(b, Max(a.y0, b.y0), Max(a.x0, b.x0));
    }
  }

  /** The indices below n of the panels that panel i overlaps, in deck order. */
  function Obscuring(rects: seq<Rect>, i: nat, n: nat): (js: seq<int>)
    requires i < |rects| && n <= |rects|
    ensures forall t | 0 <= t < |js| :: 0 <= js[t] < n && Overlap(rects[i], rects[js[t]])
    ensures forall t, u | 0 <= t < u < |js| :: js[t] < js[u]
    ensures forall j | 0 <= j < n && Overlap(rects[i], rects[j]) :: j in js
    decreases n
  {
    if n == 0 then []
    else
      var js := Obscuring(rects, i, n - 1);
      if Overlap(rects[i], rects[n - 1]) then js + [n - 1] else js
  }

  // ---------------------------------------------------------------- the deck

  datatype RawDeck = RawDeck(layers: seq<Win>, std: Win, cur: Win) {
    predicate Valid() {
      && cur.begy == cur.begx == 0 && RectOf(std) == RectOf(cur)
      && forall i | 0 <= i < |layers| :: Inside(layers[i], cur)
    }
  }

  type Deck = d: RawDeck | d.Valid()
    witness RawDeck([], NewWin(1, 1, 0, 0, false), NewWin(1, 1, 0, 0, false))

  /** Index of the topmost panel at a screen position, or -1. */
  function Top(layers: seq<Win>, r: int, x: int): (t: int)
    ensures -1 <= t < |layers| && (t >= 0 ==> In(RectOf(layers[t]), r, x))
    ensures forall k | t < k < |layers| :: !In(RectOf(layers[k]), r, x)
  {
    if layers == [] then -1
    else if In(RectOf(layers[|layers| - 1]), r, x) then |layers| - 1
    else Top(layers[..|layers| - 1], r, x)
  }

  /** The window seen at a screen position. */
  function Seen(d: Deck, r: int, x: int): (w: Win)
    requires 0 <= r < d.cur.maxy && 0 <= x < d.cur.maxx
    ensures In(RectOf(w), r, x)
  {
    var t := Top(d.layers, r, x);
    if t < 0 then d.std else d.layers[t]
  }

  function CellAt(w: Win, r: int, x: int): Chtype
    requires In(RectOf(w), r, x)
  {
    w.cells[r - w.begy][x - w.begx]
  }

  predicate MarkedAt(w: Win, r: int, x: int)
    requires In(RectOf(w), r, x)
  {
    w.Damaged(r - w.begy, x - w.begx)
  }

  /** What the painter's algorithm shows: the topmost panel's cell, or stdscr's. */
  function Picture(d: Deck, r: int, x: int): Chtype
    requires 0 <= r < d.cur.maxy && 0 <= x < d.cur.maxx
  {
    CellAt(Seen(d, r, x), r, x)
  }

  /** curscr is the picture. */
  ghost predicate Painted(d: Deck) {
    forall r, x | 0 <= r < d.cur.maxy && 0 <= x < d.cur.maxx :: PaintedAt(d, r, x)
  }

  predicate PaintedAt(d: Deck, r: int, x: int)
    requires 0 <= r < d.cur.maxy && 0 <= x < d.cur.maxx
  {
    d.cur.cells[r][x] == Picture(d, r, x)
  }

  /** At every position curscr is right, or the window seen there is marked there. */
  ghost predicate Pending(d: Deck) {
    forall r, x | 0 <= r < d.cur.maxy && 0 <= x < d.cur.maxx :: PendingAt(d, r, x)
  }

  predicate PendingAt(d: Deck, r: int, x: int)
    requires 0 <= r < d.cur.maxy && 0 <= x < d.cur.maxx
  {
    d.cur.cells[r][x] == Picture(d, r, x) || MarkedAt(Seen(d, r, x), r, x)
  }

  /** Every cell of w is marked. */
  ghost predicate Whole(w: Win) {
    forall r, x | 0 <= r < w.maxy && 0 <= x < w.maxx :: w.Damaged(r, x)
  }

  predicate AnyTouched(w: Win) { exists r | 0 <= r < w.maxy :: w.Touched(r) }

  /** If any row of stdscr is touched, every linked panel is wholly marked. */
  ghost predicate Backed(d: Deck) {
    AnyTouched(d.std) ==> forall k | 0 <= k < |d.layers| :: Whole(d.layers[k])
  }

  /** What every deck operation keeps. */
  ghost predicate Sound(d: Deck) { Pending(d) && Backed(d) }

  // ---------------------------------------------------------------- _override

  /** Row r of v lies on a row of w, and w or stdscr is touched there. */
  predicate Shares(w: Win, v: Win, std: Win, r: int)
    requires 0 <= r < v.maxy && 0 <= v.begy && v.begy + v.maxy <= std.maxy
  {
    var y := v.begy + r;
    w.begy <= y < w.begy + w.maxy && (w.Touched(y - w.begy) || std.Touched(y))
  }

  /** v with the rows it shares with w marked, those above screen row y only. */
  function MarkShared(w: Win, v: Win, std: Win, y: int): (u: Win)
    requires 0 <= v.begy && v.begy + v.maxy <= std.maxy
    ensures u.cells == v.cells && SameFrame(v, u) && u == v.(first := u.first, last := u.last)
  {
    v.(first := seq(v.maxy, r requires 0 <= r < v.maxy =>
                      if v.begy + r < y && Shares(w, v, std, r) then 0 else v.first[r]),
       last := seq(v.maxy, r requires 0 <= r < v.maxy =>
                     if v.begy + r < y && Shares(w, v, std, r) then v.maxx - 1 else v.last[r]))
  }

  function MarkAllShared(w: Win, v: Win, std: Win): (u: Win)
    requires 0 <= v.begy && v.begy + v.maxy <= std.maxy
    ensures u.cells == v.cells && SameFrame(v, u)
  {
    MarkShared(w, v, std, w.begy + w.maxy)
  }

  /** The y loop of _override, one row further. */
  lemma MarkSharedStep(w: Win, v: Win, std: Win, y: int)
    requires 0 <= v.begy && v.begy + v.maxy <= std.maxy && w.begy <= y < w.begy + w.maxy && 0 <= w.begy &&
             w.begy + w.maxy <= std.maxy
    ensures var u := MarkShared(w, v, std, y);
            MarkShared(w, v, std, y + 1) ==
            if v.begy <= y < v.begy + v.maxy && (w.Touched(y - w.begy) || std.Touched(y))
            then TouchLine(u, y - v.begy, 1).win else u
  {
    hide MarkShared, TouchLine, RawWin.Touched;
    var u := MarkShared(w, v, std, y);
    var next := y + 1;
    var t := MarkShared(w, v, std, next);
    var i := y - v.begy;
    if 0 <= i < v.maxy && (w.Touched(y - w.begy) || std.Touched(y)) {
      TouchOne(u, i);
      forall r | 0 <= r < v.maxy
        ensures t.first[r] == u.first[i := 0][r] && t.last[r] == u.last[i := v.maxx - 1][r]
      {
        MarkedRow(w, v, std, y, r);
        MarkedRow(w, v, std, next, r);
      }
      assert t.first == u.first[i := 0] && t.last == u.last[i := v.maxx - 1];
    } else {
      forall r | 0 <= r < v.maxy
        ensures t.first[r] == u.first[r] && t.last[r] == u.last[r]
      {
        MarkedRow(w, v, std, y, r);
        MarkedRow(w, v, std, next, r);
      }
      assert t.first == u.first && t.last == u.last;
    }
  }

  lemma MarkedRow(w: Win, v: Win, std: Win, y: int, r: int)
    requires 0 <= v.begy && v.begy + v.maxy <= std.maxy && 0 <= r < v.maxy
    ensures var u := MarkShared(w, v, std, y);
            if v.begy + r < y && Shares(w, v, std, r) then u.first[r] == 0 && u.last[r] == v.maxx - 1
            else u.first[r] == v.first[r] && u.last[r] == v.last[r]
  {
    hide Shares;
  }

  lemma TouchOne(u: Win, i: int)
    requires 0 <= i < u.maxy
    ensures |u.first| == |u.last| == u.maxy
    ensures TouchLine(u, i, 1).win == u.(first := u.first[i := 0], last := u.last[i := u.maxx - 1])
  {
    var t := TouchLine(u, i, 1).win;
    assert t.first == u.first[i := 0] && t.last == u.last[i := u.maxx - 1];
  }

  lemma MarkSharedStart(w: Win, v: Win, std: Win)
    requires 0 <= v.begy && v.begy + v.maxy <= std.maxy
    ensures MarkShared(w, v, std, w.begy) == v
  {
    var u := MarkShared(w, v, std, w.begy);
    assert u.first == v.first && u.last == v.last;
  }

  /** Marking rows is drawing, and a whole mark absorbs it. */
  lemma MarkSharedDraws(w: Win, v: Win, std: Win)
    requires 0 <= v.begy && v.begy + v.maxy <= std.maxy
    ensures Draws(v, MarkAllShared(w, v, std)) && TouchWin(MarkAllShared(w, v, std)) == TouchWin(v)
    ensures v == TouchWin(v) ==> MarkAllShared(w, v, std) == v
  {
    var u := MarkAllShared(w, v, std);
    assert TouchWin(u).first == TouchWin(v).first && TouchWin(u).last == TouchWin(v).last;
    if v == TouchWin(v) {
      assert u.first == v.first && u.last == v.last;
    }
  }

  lemma TouchTwice(w: Win)
    ensures TouchWin(TouchWin(w)) == TouchWin(w) && Whole(TouchWin(w)) && Draws(w, TouchWin(w))
  {
    var u := TouchWin(w);
    assert TouchWin(u).first == u.first && TouchWin(u).last == u.last;
  }

  /** _override(pan i): the layers named in js, other than i itself, with the rows shared with
      layer i marked. */
  function Overridden(layers: seq<Win>, std: Win, i: nat, js: seq<int>): (ls: seq<Win>)
    requires i < |layers| && OnStd(layers, std)
    ensures |ls| == |layers| && Remarked(layers, ls) && OnStd(ls, std) && ls[i] == layers[i]
  {
    seq(|layers|, j requires 0 <= j < |layers| => OverriddenAt(layers, std, i, j != i && j in js, j))
  }

  function OverriddenAt(layers: seq<Win>, std: Win, i: nat, marked: bool, j: nat): (v: Win)
    requires i < |layers| && j < |layers| && OnStd(layers, std)
    ensures v == layers[j].(first := v.first, last := v.last)
  {
    if marked then MarkAllShared(layers[i], layers[j], std) else layers[j]
  }

  predicate OnStd(layers: seq<Win>, std: Win) {
    forall i | 0 <= i < |layers| :: 0 <= layers[i].begy && layers[i].begy + layers[i].maxy <= std.maxy
  }

  lemma OverrideNone(layers: seq<Win>, std: Win, i: nat)
    requires i < |layers| && OnStd(layers, std)
    ensures Overridden(layers, std, i, []) == layers
  {
  }

  lemma OverrideStep(layers: seq<Win>, std: Win, i: nat, js: seq<int>, j: int)
    requires i < |layers| && OnStd(layers, std) && 0 <= j < |layers| && j !in js
    ensures var ls := Overridden(layers, std, i, js);
            ls[j] == layers[j] &&
            Overridden(layers, std, i, js + [j]) ==
            if j == i then ls else ls[j := MarkAllShared(layers[i], layers[j], std)]
  {
    hide MarkAllShared, RawWin.Valid;
    var next := js + [j];
    forall t | 0 <= t < |layers|
      ensures t in next <==> t in js || t == j
    {
      assert t == j ==> next[|js|] == t;
      assert t in js ==> t in next;
    }
  }

  // ---------------------------------------------------------------- update_panels

  /** Pass 1, one panel: touched rows of layer i are touched on the layers above it
      that it overlaps. */
  function PropagateFrom(layers: seq<Win>, std: Win, i: nat): (ls: seq<Win>)
    requires i < |layers| && OnStd(layers, std)
    ensures |ls| == |layers| && Remarked(layers, ls) && OnStd(ls, std)
  {
    seq(|layers|, j requires 0 <= j < |layers| =>
      OverriddenAt(layers, std, i, Obscures(layers, i, j), j))
  }

  /** Panel j lies above panel i and overlaps it. */
  predicate Obscures(layers: seq<Win>, i: nat, j: nat)
    requires i < |layers| && j < |layers|
  {
    j > i && Overlap(RectOf(layers[i]), RectOf(layers[j]))
  }

  /** Pass 1 up to panel n. */
  function Propagated(layers: seq<Win>, std: Win, n: nat): (ls: seq<Win>)
    requires n <= |layers| && OnStd(layers, std)
    ensures |ls| == |layers| && Remarked(layers, ls) && OnStd(ls, std)
  {
    if n == 0 then layers else PropagateFrom(Propagated(layers, std, n - 1), std, n - 1)
  }

  /** Pass 1 never alters a window but for its marks. */
  predicate Remarked(layers: seq<Win>, ls: seq<Win>) {
    |ls| == |layers| && forall j | 0 <= j < |layers| :: ls[j] == layers[j].(first := ls[j].first, last := ls[j].last)
  }

  /** The part of update_panels between the two passes. */
  function PaintStd(d: Deck): (e: Deck)
    ensures e.layers == d.layers
  {
    if AnyTouched(d.std) then d.(std := NoutWin(d.std), cur := NoutCur(d.std, d.cur)) else d
  }

  /** Pass 2, one panel: refreshed if touched, or if it is the topmost. */
  function PaintLayer(d: Deck, i: nat): (e: Deck)
    requires i < |d.layers|
    ensures e.std == d.std && |e.layers| == |d.layers| && SameFrame(d.cur, e.cur)
  {
    if AnyTouched(d.layers[i]) || i == |d.layers| - 1
    then d.(layers := d.layers[i := NoutWin(d.layers[i])], cur := NoutCur(d.layers[i], d.cur)) else d
  }

  function PaintTo(d: Deck, n: nat): (e: Deck)
    requires n <= |d.layers|
    ensures |e.layers| == |d.layers|
  {
    if n == 0 then PaintStd(d) else PaintLayer(PaintTo(d, n - 1), n - 1)
  }

  lemma RemarkedOnStd(d: Deck, ls: seq<Win>)
    requires Remarked(d.layers, ls)
    ensures d.(layers := ls).Valid()
  {
  }

  lemma DeckOnStd(d: Deck)
    ensures OnStd(d.layers, d.std)
  {
  }

  /** The deck after pass 1 up to panel n. */
  function Propagate(d: Deck, n: nat): (e: Deck)
    requires n <= |d.layers|
    ensures |e.layers| == |d.layers| && e.std == d.std && e.cur == d.cur
  {
    DeckOnStd(d);
    RemarkedOnStd(d, Propagated(d.layers, d.std, n));
    d.(layers := Propagated(d.layers, d.std, n))
  }

  function UpdatePanels(d: Deck): (e: Deck)
  {
    PaintTo(Propagate(d, |d.layers|), |d.layers|)
  }

  // ---------------------------------------------------------------- deck operations

  /** _calculate_obscure touches every linked panel. */
  function TouchedAll(ls: seq<Win>): (ts: seq<Win>)
    ensures |ts| == |ls| && forall i | 0 <= i < |ls| :: ts[i] == TouchWin(ls[i])
  {
    seq(|ls|, i requires 0 <= i < |ls| => TouchWin(ls[i]))
  }

  function LinkTop(d: Deck, w: Win): (e: Deck)
    requires Inside(w, d.cur)
  {
    d.(layers := TouchedAll(d.layers + [w]))
  }

  function LinkBottom(d: Deck, w: Win): (e: Deck)
    requires Inside(w, d.cur)
  {
    d.(layers := TouchedAll([w] + d.layers))
  }

  function Unlink(d: Deck, k: nat): (e: Deck)
    requires k < |d.layers|
  {
    d.(layers := TouchedAll(d.layers[..k] + d.layers[k + 1..]), std := TouchWin(d.std))
  }

  /** The deck with another window in place k. */
  function Seated(d: Deck, k: nat, w: Win): (e: Deck)
    requires k < |d.layers| && Inside(w, d.cur)
    ensures e == d.(layers := d.layers[k := w])
  {
    d.(layers := d.layers[k := w])
  }

  /** replace_panel. */
  function Replace(d: Deck, k: nat, w: Win): (e: Deck)
    requires k < |d.layers| && Inside(w, d.cur)
  {
    d.(layers := TouchedAll(d.layers[k := w]), std := TouchWin(d.std))
  }

  /** The panel itself has been touched. */
  function Raised(d: Deck, i: nat): (e: Deck)
    requires i < |d.layers|
    ensures |e.layers| == |d.layers| && e.std == d.std && e.cur == d.cur
  {
    d.(layers := d.layers[i := TouchWin(d.layers[i])])
  }

  function StdTouched(d: Deck): (e: Deck)
    ensures e == d.(std := TouchWin(d.std))
  {
    d.(std := TouchWin(d.std))
  }

  /** Panel i's _override for the panels in js. */
  function Spread(d: Deck, i: nat, js: seq<int>): (e: Deck)
    requires i < |d.layers|
    ensures |e.layers| == |d.layers| && e.std == d.std && e.cur == d.cur
  {
    DeckOnStd(d);
    RemarkedOnStd(d, Overridden(d.layers, d.std, i, js));
    d.(layers := Overridden(d.layers, d.std, i, js))
  }

  /** _override(pan, 0): panel k and stdscr are touched, and of the panels it overlaps
      the rows they share. */
  function Disturbed(d: Deck, k: nat): (e: Deck)
    requires k < |d.layers|
    ensures |e.layers| == |d.layers| && e.cur == d.cur && e.std == TouchWin(d.std)
  {
    Spread(StdTouched(Raised(d, k)), k, Obscuring(Rects(d.layers), k, |d.layers|))
  }

  function Rects(ls: seq<Win>): (rs: seq<Rect>)
    ensures |rs| == |ls| && forall i | 0 <= i < |ls| :: rs[i] == RectOf(ls[i])
  {
    seq(|ls|, i requires 0 <= i < |ls| => RectOf(ls[i]))
  }

  /** show_panel of linked panel k. */
  function ShowAt(d: Deck, k: nat): Deck
    requires k < |d.layers|
  {
    if k == |d.layers| - 1 then d else LinkTop(Unlink(d, k), TouchWin(d.layers[k]))
  }

  /** bottom_panel of linked panel k. */
  function BottomAt(d: Deck, k: nat): Deck
    requires k < |d.layers|
  {
    if k == 0 then d else LinkBottom(Unlink(d, k), TouchWin(d.layers[k]))
  }

  /** mvwin's guard. */
  predicate Fits(d: Deck, w: Win, y: int, x: int) {
    0 <= y && y + w.maxy <= d.cur.maxy && 0 <= x && x + w.maxx <= d.cur.maxx
  }

  /** move_panel, which has touched windows before mvwin may refuse. */
  function MoveLayer(d: Deck, k: nat, y: int, x: int): (e: Deck)
    requires k < |d.layers|
  {
    var m := MvWin(d.layers[k], y, x, d.cur.maxy, d.cur.maxx);
    if m.ok then d.(layers := TouchedAll(d.layers[k := m.win]), std := TouchWin(d.std)) else Disturbed(d, k)
  }

  /** Something has been drawn on panel k. */
  function Drawn(d: Deck, k: nat, v: Win): (e: Deck)
    requires k < |d.layers| && SameFrame(d.layers[k], v)
    ensures e.layers == d.layers[k := v] && e.std == d.std && e.cur == d.cur
  {
    d.(layers := d.layers[k := v])
  }

  function Write(raw: bool, d: Deck, k: nat, op: DrawOp): (e: Deck)
    requires k < |d.layers| && Safe(d.layers[k], op)
  {
    EveryOpDraws(raw, d.layers[k], op);
    Drawn(d, k, Apply(raw, d.layers[k], op))
  }

  function WriteStd(raw: bool, d: Deck, op: DrawOp): Deck
    requires Safe(d.std, op)
  {
    EveryOpDraws(raw, d.std, op);
    d.(std := Apply(raw, d.std, op))
  }
}
