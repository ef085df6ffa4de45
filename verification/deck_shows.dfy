/** What a program sees at each screen position after one deck operation and update_panels. */
module DeckShows {
  import opened Cells
  import opened WindowModel
  import opened RefreshModel
  import opened PanelModel
  import opened Painter

  /** curscr at (r, x) after the next update_panels. */
  function Shown(d: Deck, r: int, x: int): Chtype
    requires 0 <= r < d.cur.maxy && 0 <= x < d.cur.maxx
  {
    var e := UpdatePanels(d);
    if r < e.cur.maxy && x < e.cur.maxx then e.cur.cells[r][x] else BLANK
  }

  /** The cell of the topmost of these windows at (r, x), or stdscr's where there is none. */
  function Topmost(layers: seq<Win>, std: Win, r: int, x: int): Chtype
    requires In(RectOf(std), r, x)
  {
    if layers == [] then CellAt(std, r, x)
    else if In(RectOf(layers[|layers| - 1]), r, x) then CellAt(layers[|layers| - 1], r, x)
    else Topmost(layers[..|layers| - 1], std, r, x)
  }

  lemma {:induction false} TopmostIsTop(layers: seq<Win>, std: Win, r: int, x: int)
    requires In(RectOf(std), r, x)
    ensures var t := Top(layers, r, x);
            Topmost(layers, std, r, x) == if t < 0 then CellAt(std, r, x) else CellAt(layers[t], r, x)
  {
    hide CellAt;
    if layers != [] {
      TopmostIsTop(layers[..|layers| - 1], std, r, x);
    }
  }

  /** Windows that differ in their marks only show the same. */
  lemma {:induction false} TopmostSame(ls: seq<Win>, ms: seq<Win>, std: Win, r: int, x: int)
    requires In(RectOf(std), r, x)
    requires |ls| == |ms| && forall k | 0 <= k < |ls| :: SameFrame(ls[k], ms[k]) && ms[k].cells == ls[k].cells
    ensures Topmost(ls, std, r, x) == Topmost(ms, std, r, x)
  {
    if ls != [] {
      TopmostSame(ls[..|ls| - 1], ms[..|ls| - 1], std, r, x);
    }
  }

  /** A sound deck shows the topmost of its windows. */
  lemma ShowsTopmost(d: Deck, r: int, x: int)
    requires Sound(d) && 0 <= r < d.cur.maxy && 0 <= x < d.cur.maxx
    ensures In(RectOf(d.std), r, x) && Shown(d, r, x) == Topmost(d.layers, d.std, r, x)
  {
    hide UpdatePanels, Sound, Top, CellAt;
    var e := UpdatePanels(d);
    PainterTheorem(d);
    StdEverywhere(d, r, x);
    TopmostIsTop(d.layers, d.std, r, x);
    assert PaintedAt(e, r, x) && SamePictureAt(d, e, r, x);
  }

  lemma StdEverywhere(d: Deck, r: int, x: int)
    requires 0 <= r < d.cur.maxy && 0 <= x < d.cur.maxx
    ensures In(RectOf(d.std), r, x)
  {
  }

  /** A deck whose windows are ls but for their marks, with stdscr as in d. */
  lemma ShowsThese(d: Deck, e: Deck, ls: seq<Win>, r: int, x: int)
    requires Sound(e) && 0 <= r < d.cur.maxy && 0 <= x < d.cur.maxx && SameFrame(d.cur, e.cur)
    requires SameFrame(d.std, e.std) && e.std.cells == d.std.cells
    requires |e.layers| == |ls| &&
             forall k | 0 <= k < |ls| :: SameFrame(ls[k], e.layers[k]) && e.layers[k].cells == ls[k].cells
    ensures In(RectOf(d.std), r, x) && Shown(e, r, x) == Topmost(ls, d.std, r, x)
  {
    hide Sound, Shown;
    StdEverywhere(d, r, x);
    ShowsTopmost(e, r, x);
    TopmostSame(ls, e.layers, d.std, r, x);
    OtherStd(ls, d.std, e.std, r, x);
    OtherStd(e.layers, d.std, e.std, r, x);
  }

  lemma {:induction false} OtherStd(ls: seq<Win>, std: Win, other: Win, r: int, x: int)
    requires In(RectOf(std), r, x) && SameFrame(std, other) && other.cells == std.cells
    ensures Topmost(ls, other, r, x) == Topmost(ls, std, r, x)
  {
    if ls != [] {
      OtherStd(ls[..|ls| - 1], std, other, r, x);
    }
  }

  /** A panel linked at the top is seen at each of its positions, in front of what was there;
      one linked at the bottom only where no other panel is. */
  lemma LinkShows(d: Deck, w: Win, r: int, x: int)
    requires Sound(d) && Inside(w, d.cur) && 0 <= r < d.cur.maxy && 0 <= x < d.cur.maxx
    ensures In(RectOf(d.std), r, x)
    ensures Shown(LinkTop(d, w), r, x) ==
            if In(RectOf(w), r, x) then CellAt(w, r, x) else Topmost(d.layers, d.std, r, x)
    ensures Shown(LinkBottom(d, w), r, x) ==
            if In(RectOf(w), r, x) && Top(d.layers, r, x) < 0 then CellAt(w, r, x) else Topmost(d.layers, d.std, r, x)
  {
    LinkSound(d, w);
    hide Sound, CellAt, Shown;
    ShowsThese(d, LinkTop(d, w), d.layers + [w], r, x);
    ShowsThese(d, LinkBottom(d, w), [w] + d.layers, r, x);
    assert (d.layers + [w])[..|d.layers|] == d.layers;
    Underneath(d.layers, w, d.std, r, x);
  }

  lemma {:induction false} Underneath(ls: seq<Win>, w: Win, std: Win, r: int, x: int)
    requires In(RectOf(std), r, x)
    ensures Topmost([w] + ls, std, r, x) ==
            if In(RectOf(w), r, x) && Top(ls, r, x) < 0 then CellAt(w, r, x) else Topmost(ls, std, r, x)
  {
    hide CellAt;
    if ls == [] {
      assert [w] + ls == [w] && [w][..0] == [];
    } else {
      assert ([w] + ls)[..|ls|] == [w] + ls[..|ls| - 1];
      Underneath(ls[..|ls| - 1], w, std, r, x);
    }
  }

  /** Once a panel is unlinked, what the others show is seen. */
  lemma UnlinkShows(d: Deck, k: nat, r: int, x: int)
    requires Sound(d) && k < |d.layers| && 0 <= r < d.cur.maxy && 0 <= x < d.cur.maxx
    ensures In(RectOf(d.std), r, x)
    ensures Shown(Unlink(d, k), r, x) == Topmost(d.layers[..k] + d.layers[k + 1..], d.std, r, x)
  {
    UnlinkSound(d, k);
    hide Sound, Shown, Topmost;
    ShowsThese(d, Unlink(d, k), d.layers[..k] + d.layers[k + 1..], r, x);
  }

  /** A replaced window is seen in the place of the panel. */
  lemma ReplaceShows(d: Deck, k: nat, w: Win, r: int, x: int)
    requires Sound(d) && k < |d.layers| && Inside(w, d.cur) && 0 <= r < d.cur.maxy && 0 <= x < d.cur.maxx
    ensures In(RectOf(d.std), r, x) && Shown(Replace(d, k, w), r, x) == Topmost(d.layers[k := w], d.std, r, x)
  {
    ReplaceSound(d, k, w);
    hide Sound, Shown, Topmost;
    ShowsThese(d, Replace(d, k, w), d.layers[k := w], r, x);
  }

  /** A panel that has been moved to (y, x) shows its cell (r, c) at (y + r, x + c), unless a
      higher panel is there, and what it covered before is seen. */
  lemma MoveShows(d: Deck, k: nat, y: int, x: int, r: int, c: int)
    requires Sound(d) && k < |d.layers| && 0 <= r < d.cur.maxy && 0 <= c < d.cur.maxx
    requires 0 <= y && y + d.layers[k].maxy <= d.cur.maxy && 0 <= x && x + d.layers[k].maxx <= d.cur.maxx
    ensures In(RectOf(d.std), r, c)
    ensures Shown(MoveLayer(d, k, y, x), r, c) ==
            Topmost(d.layers[k := d.layers[k].(begy := y, begx := x)], d.std, r, c)
  {
    MoveSound(d, k, y, x);
    hide Sound, Shown, Topmost;
    ShowsThese(d, MoveLayer(d, k, y, x), d.layers[k := d.layers[k].(begy := y, begx := x)], r, c);
  }

  /** In particular where no higher panel is. */
  lemma MovedCell(d: Deck, k: nat, y: int, x: int, r: int, c: int)
    requires Sound(d) && k < |d.layers| && 0 <= r < d.layers[k].maxy && 0 <= c < d.layers[k].maxx
    requires 0 <= y && y + d.layers[k].maxy <= d.cur.maxy && 0 <= x && x + d.layers[k].maxx <= d.cur.maxx
    requires forall j | k < j < |d.layers| :: !In(RectOf(d.layers[j]), y + r, x + c)
    ensures Shown(MoveLayer(d, k, y, x), y + r, x + c) == d.layers[k].cells[r][c]
  {
    hide Sound, Shown, Topmost, MoveLayer, CellAt, In, RawDeck.Valid;
    var w := d.layers[k];
    Standing(w, y, x, r, c);
    MoveShows(d, k, y, x, y + r, x + c);
    SetAt(d.layers, k, w.(begy := y, begx := x), d.std, y + r, x + c);
  }

  lemma Standing(w: Win, y: int, x: int, r: int, c: int)
    requires 0 <= r < w.maxy && 0 <= c < w.maxx
    ensures var v := w.(begy := y, begx := x);
            && In(RectOf(v), y + r, x + c) && CellAt(v, y + r, x + c) == w.cells[r][c]
            && v.maxy == w.maxy && |w.cells| == w.maxy && |w.cells[r]| == w.maxx
  {
  }

  /** A window set in place k, where no higher one is. */
  lemma SetAt(ls: seq<Win>, k: nat, w: Win, std: Win, r: int, x: int)
    requires k < |ls| && In(RectOf(std), r, x) && In(RectOf(w), r, x)
    requires forall j | k < j < |ls| :: !In(RectOf(ls[j]), r, x)
    ensures Topmost(ls[k := w], std, r, x) == CellAt(w, r, x)
  {
    hide CellAt;
    TopmostIsTop(ls[k := w], std, r, x);
    assert In(RectOf(ls[k := w][k]), r, x);
  }
}
