/** The loops of the panel library, one step at a time, as facts about deck values. */
module PanelSteps {
  import opened Cells
  import opened WindowModel
  import opened Damage
  import opened RefreshModel
  import opened PanelModel
  import opened Painter

  // ---------------------------------------------------------------- the loops, step by step

  /** _override(pan i) while it goes down the rows of panel j: rows above y are done. */
  function Marking(d: Deck, i: nat, j: nat, y: int): (e: Deck)
    requires i < |d.layers| && j < |d.layers| && i != j
    ensures |e.layers| == |d.layers| && e.std == d.std && e.cur == d.cur
  {
    d.(layers := d.layers[j := MarkShared(d.layers[i], d.layers[j], d.std, y)])
  }

  lemma MarkingStart(d: Deck, i: nat, j: nat)
    requires i < |d.layers| && j < |d.layers| && i != j
    ensures Marking(d, i, j, d.layers[i].begy) == d && d.layers[i].begy < d.layers[i].begy + d.layers[i].maxy
  {
    MarkSharedStart(d.layers[i], d.layers[j], d.std);
  }

  lemma MarkingStep(d: Deck, i: nat, j: nat, y: int)
    requires i < |d.layers| && j < |d.layers| && i != j && d.layers[i].begy <= y < d.layers[i].begy + d.layers[i].maxy
    ensures var (e, w, v) := (Marking(d, i, j, y), d.layers[i], d.layers[j]);
            && e.layers[i] == w && e.layers[j].begy == v.begy && e.layers[j].maxy == v.maxy && 0 <= y < d.std.maxy
            && Marking(d, i, j, y + 1) ==
               if v.begy <= y < v.begy + v.maxy && (w.Touched(y - w.begy) || d.std.Touched(y))
               then e.(layers := e.layers[j := TouchLine(e.layers[j], y - v.begy, 1).win]) else e
  {
    hide MarkShared;
    MarkSharedStep(d.layers[i], d.layers[j], d.std, y);
  }

  lemma SpreadStart(d: Deck, i: nat)
    requires i < |d.layers|
    ensures Spread(d, i, []) == d
  {
    DeckOnStd(d);
    OverrideNone(d.layers, d.std, i);
  }

  lemma SpreadStep(d: Deck, i: nat, js: seq<int>, j: nat)
    requires i < |d.layers| && j < |d.layers| && j !in js
    ensures var e := Spread(d, i, js);
            Spread(d, i, js + [j]) == if j == i then e else Marking(e, i, j, d.layers[i].begy + d.layers[i].maxy)
  {
    hide MarkShared;
    DeckOnStd(d);
    OverrideStep(d.layers, d.std, i, js, j);
  }

  /** SpreadStep for a list that is being walked. */
  lemma ListStep(d: Deck, i: nat, js: seq<int>, from: nat, t: nat)
    requires i < |d.layers| && from <= t < |js| && 0 <= js[t] < |d.layers|
    requires forall u, v | 0 <= u < v < |js| :: js[u] < js[v]
    ensures var e := Spread(d, i, js[from..t]);
            && |e.layers| == |d.layers| && e.layers[i] == d.layers[i]
            && Spread(d, i, js[from..t + 1]) ==
               if js[t] == i then e else Marking(e, i, js[t], e.layers[i].begy + e.layers[i].maxy)
  {
    hide *;
    NotYet(js, from, t);
    SpreadKeeps(d, i, js[from..t]);
    SpreadStep(d, i, js[from..t], js[t]);
  }

  lemma NotYet(js: seq<int>, from: nat, t: nat)
    requires from <= t < |js| && forall u, v | 0 <= u < v < |js| :: js[u] < js[v]
    ensures js[t] !in js[from..t] && js[from..t + 1] == js[from..t] + [js[t]]
  {
  }

  lemma SpreadKeeps(d: Deck, i: nat, js: seq<int>)
    requires i < |d.layers|
    ensures Spread(d, i, js).layers[i] == d.layers[i]
  {
    DeckOnStd(d);
  }

  /** _override(panel i, -1). */
  function Passed(d: Deck, i: nat): (e: Deck)
    requires i < |d.layers|
    ensures |e.layers| == |d.layers| && e.std == d.std && e.cur == d.cur
  {
    DeckOnStd(d);
    RemarkedOnStd(d, PropagateFrom(d.layers, d.std, i));
    d.(layers := PropagateFrom(d.layers, d.std, i))
  }

  lemma PassedIs(d: Deck, i: nat, from: nat)
    requires i < |d.layers|
    requires var js := Obscuring(Rects(d.layers), i, |d.layers|); from < |js| && js[from] == i
    ensures Spread(d, i, Obscuring(Rects(d.layers), i, |d.layers|)[from..]) == Passed(d, i)
  {
    hide OverriddenAt, Overlap, Obscuring, RawWin.Valid, RawDeck.Valid;
    DeckOnStd(d);
    forall j | 0 <= j < |d.layers|
      ensures j != i && j in Obscuring(Rects(d.layers), i, |d.layers|)[from..] <==> Obscures(d.layers, i, j)
    {
      ListedFrom(Rects(d.layers), i, from, j);
    }
  }

  /** The rest of the list after panel i names the overlapping panels above it. */
  lemma ListedFrom(rects: seq<Rect>, i: nat, from: nat, j: nat)
    requires i < |rects| && j < |rects|
    requires var js := Obscuring(rects, i, |rects|); from < |js| && js[from] == i
    ensures j != i && j in Obscuring(rects, i, |rects|)[from..] <==> j > i && Overlap(rects[i], rects[j])
  {
    hide Overlap, Obscuring;
    var js := Obscuring(rects, i, |rects|);
    if j in js {
      var t :| 0 <= t < |js| && js[t] == j;
      assert t > from ==> js[from..][t - from] == j;
    }
  }

  lemma PropagateStart(d: Deck)
    ensures Propagate(d, 0) == d
  {
  }

  lemma PropagateNext(d: Deck, i: nat)
    requires i < |d.layers|
    ensures Propagate(d, i + 1) == Passed(Propagate(d, i), i)
  {
    hide PropagateFrom;
    PropagateIs(d, i);
    PropagateIs(d, i + 1);
    PropagatedNext(d.layers, d.std, i);
  }

  lemma DisturbedIs(d: Deck, k: nat)
    requires k < |d.layers|
    ensures Disturbed(d, k) == Spread(StdTouched(Raised(d, k)), k, Obscuring(Rects(d.layers), k, |d.layers|))
  {
    hide Spread, Raised, Obscuring, TouchWin, RawWin.Valid, RawDeck.Valid;
  }

  function TouchAll(d: Deck): (e: Deck)
    ensures |e.layers| == |d.layers| && e.std == d.std && e.cur == d.cur
  {
    d.(layers := TouchedAll(d.layers))
  }

  /** The deck without panel k. */
  function Dropped(d: Deck, k: nat): (e: Deck)
    requires k < |d.layers|
    ensures |e.layers| == |d.layers| - 1 && e.std == d.std && e.cur == d.cur
  {
    d.(layers := d.layers[..k] + d.layers[k + 1..])
  }

  /** What _override leaves is made good by _calculate_obscure. */
  lemma DisturbedTouch(d: Deck, k: nat)
    requires k < |d.layers|
    ensures forall j | 0 <= j < |d.layers| :: TouchWin(Disturbed(d, k).layers[j]) == TouchWin(d.layers[j])
    ensures Disturbed(d, k).layers[k] == TouchWin(d.layers[k])
  {
    hide Disturbed, MarkAllShared, TouchWin, Overlap;
    DisturbedLayer(d, k, k);
    TouchTwice(d.layers[k]);
    forall j | 0 <= j < |d.layers|
      ensures TouchWin(Disturbed(d, k).layers[j]) == TouchWin(d.layers[j])
    {
      DisturbedLayer(d, k, j);
      MarkSharedDraws(TouchWin(d.layers[k]), d.layers[j], TouchWin(d.std));
    }
  }

  /** _panel_unlink: touch, drop, touch the rest. */
  lemma UnlinkIs(d: Deck, k: nat)
    requires k < |d.layers|
    ensures TouchAll(Dropped(Disturbed(d, k), k)) == Unlink(d, k)
  {
    DisturbedTouch(d, k);
    hide Disturbed, TouchWin, TouchedAll, RawWin.Valid, RawDeck.Valid;
    var e := Disturbed(d, k);
    TouchedSame(e.layers, d.layers);
    TouchedDrop(e.layers, k);
    TouchedDrop(d.layers, k);
  }

  lemma TouchedDrop(ls: seq<Win>, k: nat)
    requires k < |ls|
    ensures TouchedAll(ls[..k] + ls[k + 1..]) == TouchedAll(ls)[..k] + TouchedAll(ls)[k + 1..]
  {
    hide TouchWin;
  }

  lemma TouchedSame(ls: seq<Win>, ms: seq<Win>)
    requires |ls| == |ms| && forall j | 0 <= j < |ls| :: TouchWin(ls[j]) == TouchWin(ms[j])
    ensures TouchedAll(ls) == TouchedAll(ms)
  {
    hide TouchWin;
  }

  /** replace_panel and a successful move_panel: touch, put w in place, touch again. */
  lemma ReplaceIs(d: Deck, k: nat, w: Win)
    requires k < |d.layers| && Inside(w, d.cur)
    ensures var e := Disturbed(d, k);
            TouchAll(Seated(e, k, w)) == Replace(d, k, w)
  {
    hide Disturbed, TouchWin, TouchedAll, RawWin.Valid, RawDeck.Valid, Inside;
    DisturbedTouch(d, k);
    TouchedSame(Disturbed(d, k).layers[k := w], d.layers[k := w]);
  }

  lemma MvInside(d: Deck, k: nat, y: int, x: int)
    requires k < |d.layers|
    ensures var m := MvWin(d.layers[k], y, x, d.cur.maxy, d.cur.maxx);
            Inside(m.win, d.cur) && d.(layers := d.layers[k := m.win]).Valid() && (!m.ok ==> m.win == d.layers[k])
  {
  }

  /** mvwin touches the window, so touching it before makes no difference. */
  lemma MvTouched(w: Win, y: int, x: int, lines: int, cols: int)
    ensures var (m, n) := (MvWin(TouchWin(w), y, x, lines, cols), MvWin(w, y, x, lines, cols));
            && m.ok == n.ok == (0 <= y && y + w.maxy <= lines && 0 <= x && x + w.maxx <= cols)
            && (if m.ok then m.win == n.win else m.win == TouchWin(w))
  {
    var (m, n) := (MvWin(TouchWin(w), y, x, lines, cols), MvWin(w, y, x, lines, cols));
    assert m.ok ==> m.win.first == n.win.first && m.win.last == n.win.last;
  }

  /** mvwin after the window has been touched. */
  lemma MoveIs(d: Deck, k: nat, y: int, x: int)
    requires k < |d.layers|
    ensures var (e, m) := (Disturbed(d, k), MvWin(TouchWin(d.layers[k]), y, x, d.cur.maxy, d.cur.maxx));
            && e.layers[k] == TouchWin(d.layers[k]) && (m.ok <==> Fits(d, d.layers[k], y, x))
            && (m.ok ==> Inside(m.win, d.cur) && TouchAll(Seated(e, k, m.win)) == MoveLayer(d, k, y, x))
            && (!m.ok ==> m.win == e.layers[k] && e == MoveLayer(d, k, y, x))
  {
    hide Disturbed, MvWin, TouchWin, TouchedAll, RawWin.Valid, RawDeck.Valid, Inside;
    var w := d.layers[k];
    var m := MvWin(TouchWin(w), y, x, d.cur.maxy, d.cur.maxx);
    DisturbedTouch(d, k);
    MvTouched(w, y, x, d.cur.maxy, d.cur.maxx);
    MvInside(d, k, y, x);
    if m.ok {
      ReplaceIs(d, k, m.win);
    }
  }

  /** _calculate_obscure before panel i: the panels below are wholly touched, and
      nothing but marks has changed above. */
  ghost predicate Touching(d: Deck, e: Deck, i: int) {
    && |e.layers| == |d.layers| && e.std == d.std && e.cur == d.cur
    && (forall j | 0 <= j < |d.layers| :: TouchWin(e.layers[j]) == TouchWin(d.layers[j]))
    && (forall j | 0 <= j < i && j < |d.layers| :: e.layers[j] == TouchWin(d.layers[j]))
  }

  lemma TouchingStart(d: Deck)
    ensures Touching(d, d, 0)
  {
  }

  lemma TouchingStep(d: Deck, e: Deck, i: nat, js: seq<int>)
    requires Touching(d, e, i) && i < |d.layers|
    ensures Touching(d, Spread(Raised(e, i), i, js), i + 1)
  {
    hide Raised, Spread, TouchWin, RawWin.Valid, RawDeck.Valid;
    var n := i + 1;
    forall j | 0 <= j < |d.layers|
      ensures TouchWin(Spread(Raised(e, i), i, js).layers[j]) == TouchWin(d.layers[j])
      ensures j < n ==> Spread(Raised(e, i), i, js).layers[j] == TouchWin(d.layers[j])
    {
      TouchTwice(d.layers[j]);
      SpreadTouched(Raised(e, i), i, js, j);
      RaisedTouched(e, i, j);
    }
  }

  /** Marking shared rows makes no difference to a window that is touched anyway. */
  lemma SpreadTouched(d: Deck, i: nat, js: seq<int>, j: nat)
    requires i < |d.layers| && j < |d.layers|
    ensures TouchWin(Spread(d, i, js).layers[j]) == TouchWin(d.layers[j])
    ensures d.layers[j] == TouchWin(d.layers[j]) ==> Spread(d, i, js).layers[j] == d.layers[j]
  {
    hide TouchWin, MarkAllShared, RawWin.Valid, RawDeck.Valid;
    DeckOnStd(d);
    MarkSharedDraws(d.layers[i], d.layers[j], d.std);
  }

  lemma RaisedTouched(d: Deck, i: nat, j: nat)
    requires i < |d.layers| && j < |d.layers|
    ensures Raised(d, i).layers[j] == if j == i then TouchWin(d.layers[i]) else d.layers[j]
  {
  }

  lemma TouchingDone(d: Deck, e: Deck)
    requires Touching(d, e, |d.layers|)
    ensures e == TouchAll(d)
  {
    assert e.layers == TouchedAll(d.layers);
  }

  lemma DeckGrows(d: Deck, w: Win)
    requires Inside(w, d.cur)
    ensures d.(layers := d.layers + [w]).Valid() && d.(layers := [w] + d.layers).Valid()
    ensures TouchAll(d.(layers := d.layers + [w])) == LinkTop(d, w) &&
            TouchAll(d.(layers := [w] + d.layers)) == LinkBottom(d, w)
  {
  }
}
