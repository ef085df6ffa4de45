/** Panels down to the display: update_panels and doupdate together, over every run of deck
    operations, writes, colour changes and updates. */
module Desktop {
  import opened Cells
  import opened WindowModel
  import opened Damage
  import opened RefreshModel
  import opened Adapters
  import opened Screens
  import opened Colors
  import opened PanelModel
  import opened Painter
  import Pipe = Pipeline

  /** The deck and, without windows of its own, the system that shows its curscr. */
  datatype Desk = Desk(d: Deck, s: Pipe.Sys)

  ghost predicate DeskInv(k: Desk) {
    Sound(k.d) && Pipe.Inv(k.s) && k.s.wins == [] && k.s.cur == k.d.cur
  }

  datatype DeskEvent = OnDeck(e: DeckEvent) | OnScreen(o: ScreenEvent)

  /** What a program does to the screen as a whole. */
  datatype ScreenEvent =
    | Updates | StartsColor(colors: int, original: bool) | SetsPair(pair: int, fg: int, bg: int)
    | SetsDefaults(fg: int, bg: int) | UsesDefaults | Leaves | Redraws

  function InPipeline(o: ScreenEvent): Pipe.Event {
    match o
    case Updates => Pipe.Updates
    case StartsColor(n, original) => Pipe.StartsColor(n, original)
    case SetsPair(p, fg, bg) => Pipe.SetsPair(p, fg, bg)
    case SetsDefaults(fg, bg) => Pipe.SetsDefaults(fg, bg)
    case UsesDefaults => Pipe.UsesDefaults
    case Leaves => Pipe.Leaves
    case Redraws => Pipe.Redraws
  }

  ghost predicate Allowed(k: Desk, e: DeskEvent)
    requires DeskInv(k)
  {
    match e
    case OnDeck(e) => LegalIn(k.d, e)
    case OnScreen(o) => Pipe.Legal(k.s, InPipeline(o))
  }

  ghost function DeskStep(raw: bool, k: Desk, e: DeskEvent): (t: Desk)
    requires DeskInv(k) && Allowed(k, e)
    ensures DeskInv(t)
  {
    match e
    case OnDeck(e) =>
      DeckStepKeeps(raw, k, e);
      var d := DeckStep(raw, k.d, e);
      Desk(d, k.s.(cur := d.cur))
    case OnScreen(o) =>
      ScreenStepKeeps(raw, k, o);
      var s := Pipe.Step(raw, k.s, InPipeline(o));
      Desk(k.d.(cur := s.cur), s)
  }

  // ---------------------------------------------------------------- deck steps

  /** update_panels changes no cell of curscr without marking it. */
  lemma {:induction false} PaintToDraws(d: Deck, n: nat)
    requires n <= |d.layers|
    ensures Draws(d.cur, PaintTo(d, n).cur) && PaintTo(d, n).cur.clear == d.cur.clear
  {
    hide NoutCur, NoutWin, Draws, AnyTouched, RawDeck.Valid, RawWin.Valid;
    DrawsItself(d.cur);
    if n == 0 {
      PaintStart(d);
      if AnyTouched(d.std) {
        StdInside(d);
        NoutDraws(d.std, d.cur);
      }
    } else {
      var e := PaintTo(d, n - 1);
      PaintToDraws(d, n - 1);
      Painter.PaintNext(d, n - 1);
      PaintLayerIs(e, n - 1);
      LayerInside(e, n - 1);
      NoutDraws(e.layers[n - 1], e.cur);
      if PaintTo(d, n).cur != e.cur {
        DrawsTransitive(d.cur, e.cur, PaintTo(d, n).cur);
      }
    }
  }

  lemma StdInside(d: Deck)
    ensures Inside(d.std, d.cur)
  {
  }

  lemma LayerInside(d: Deck, i: nat)
    requires i < |d.layers|
    ensures Inside(d.layers[i], d.cur)
  {
  }

  lemma UpdatePanelsDraws(d: Deck)
    ensures Draws(d.cur, UpdatePanels(d).cur) && UpdatePanels(d).cur.clear == d.cur.clear
  {
    hide Draws;
    PaintToDraws(Propagate(d, |d.layers|), |d.layers|);
  }

  lemma DeckStepDraws(raw: bool, d: Deck, e: DeckEvent)
    requires LegalIn(d, e)
    ensures Draws(d.cur, DeckStep(raw, d, e).cur) && DeckStep(raw, d, e).cur.clear == d.cur.clear
  {
    hide Draws, UpdatePanels, Apply, OverlapModel.Copied, MvWin, RawDeck.Valid, RawWin.Valid;
    DrawsItself(d.cur);
    if e.Paints? {
      UpdatePanelsDraws(d);
    }
  }

  lemma DeckStepKeeps(raw: bool, k: Desk, e: DeckEvent)
    requires DeskInv(k) && LegalIn(k.d, e)
    ensures var d := DeckStep(raw, k.d, e); DeskInv(Desk(d, k.s.(cur := d.cur)))
  {
    StepSound(raw, k.d, e);
    DeckStepDraws(raw, k.d, e);
    hide DeckStep, Sound;
    Pipe.CurDrawn(k.s, DeckStep(raw, k.d, e).cur);
  }

  // ---------------------------------------------------------------- screen steps

  lemma ScreenStepKeeps(raw: bool, k: Desk, o: ScreenEvent)
    requires DeskInv(k) && Pipe.Legal(k.s, InPipeline(o))
    ensures var s := Pipe.Step(raw, k.s, InPipeline(o));
            k.d.(cur := s.cur).Valid() && DeskInv(Desk(k.d.(cur := s.cur), s))
  {
    hide Pipe.Legal, Pipe.Step, InPipeline, Sound, RawDeck.Valid, RawWin.Valid;
    Pipe.StepInv(raw, k.s, InPipeline(o));
    ScreenStepCur(raw, k.s, o);
    SameCellsSound(k.d, Pipe.Step(raw, k.s, InPipeline(o)).cur);
  }

  /** Only the marks, the clear request and the cursor of curscr may change. */
  lemma ScreenStepCur(raw: bool, s: Pipe.Sys, o: ScreenEvent)
    requires s.Valid() && Pipe.Legal(s, InPipeline(o))
    ensures var t := Pipe.Step(raw, s, InPipeline(o));
            t.wins == s.wins && SameFrame(s.cur, t.cur) && t.cur.cells == s.cur.cells
  {
    hide Pipe.Legal, Pipe.Update, StartColor, InitPair, DefaultColors, UseDefaultColors;
    UpdateCur(s);
  }

  lemma UpdateCur(s: Pipe.Sys)
    requires s.Valid()
    ensures var c := Pipe.Update(s).cur; SameFrame(s.cur, c) && c.cells == s.cur.cells && Pipe.Update(s).wins == s.wins
  {
  }

  /** Nothing about a deck depends on more of curscr than its cells. */
  lemma SameCellsSound(d: Deck, c: Win)
    requires Sound(d) && SameFrame(d.cur, c) && c.cells == d.cur.cells
    ensures d.(cur := c).Valid() && Sound(d.(cur := c))
  {
    var e: RawDeck := d.(cur := c);
    assert e.Valid();
    hide RawWin.Valid, RawDeck.Valid;
    forall r, x | 0 <= r < e.cur.maxy && 0 <= x < e.cur.maxx
      ensures PendingAt(e, r, x)
    {
      assert PendingAt(d, r, x);
    }
  }

  // ---------------------------------------------------------------- runs

  ghost predicate AllowedRun(raw: bool, k: Desk, es: seq<DeskEvent>)
    requires DeskInv(k)
    decreases |es|
  {
    es == [] || (Allowed(k, es[0]) && AllowedRun(raw, DeskStep(raw, k, es[0]), es[1..]))
  }

  ghost function DeskRun(raw: bool, k: Desk, es: seq<DeskEvent>): (t: Desk)
    requires DeskInv(k) && AllowedRun(raw, k, es)
    ensures DeskInv(t)
    decreases |es|
  {
    if es == [] then k else DeskRun(raw, DeskStep(raw, k, es[0]), es[1..])
  }

  /** After initscr, before the first panel: stdscr is fresh, or blank and unmarked on a
      preserved screen, which was blank as well. */
  lemma DeskStart(s: Pipe.Sys, preserve: bool)
    requires Pipe.Started(s, preserve) && (preserve ==> Displays(s.cfg, s.shown, s.last.cells))
    ensures RawDeck([], s.wins[0], s.cur).Valid() && DeskInv(Desk(RawDeck([], s.wins[0], s.cur), s.(wins := [])))
  {
    Pipe.Startup(s, preserve);
    EmptySound(RawDeck([], s.wins[0], s.cur));
    hide Covers, Displays, Sound, NewWin;
  }

  /** update_panels and doupdate. */
  ghost function PaintAndUpdate(raw: bool, k: Desk): (shown: seq<seq<VCell>>)
    requires DeskInv(k)
  {
    Pipe.Update(DeskStep(raw, k, OnDeck(Paints)).s).shown
  }

  /** The display shows the topmost panel's cell at every position, or stdscr's where
      there is no panel, in the present colours. */
  ghost predicate ShowsDeck(t: Desk, shown: seq<seq<VCell>>)
    requires DeskInv(t)
  {
    forall r, x | 0 <= r < t.d.cur.maxy && 0 <= x < t.d.cur.maxx :: ShowsPicture(t, shown, r, x)
  }

  /** After any run, update_panels and doupdate leave the deck on the display. */
  lemma DeskShows(raw: bool, k: Desk, es: seq<DeskEvent>)
    requires DeskInv(k) && AllowedRun(raw, k, es)
    ensures ShowsDeck(DeskRun(raw, k, es), PaintAndUpdate(raw, DeskRun(raw, k, es)))
  {
    hide *;
    DeckShows(raw, DeskRun(raw, k, es));
  }

  lemma DeckShows(raw: bool, t: Desk)
    requires DeskInv(t)
    ensures ShowsDeck(t, PaintAndUpdate(raw, t))
  {
    hide Sound, Displays, Pipe.Update, Pipe.Inv, Pipe.Legal, Render, Picture, Painted, SamePicture, UpdatePanels,
         DeskStep, RawDeck.Valid, RawWin.Valid;
    var u := DeskStep(raw, t, OnDeck(Paints));
    PaintStep(raw, t);
    PainterTheorem(t.d);
    Pipe.InvValid(u.s);
    Pipe.UpdateShows(u.s);
    forall r, x | 0 <= r < t.d.cur.maxy && 0 <= x < t.d.cur.maxx
      ensures ShowsPicture(t, Pipe.Update(u.s).shown, r, x)
    {
      PictureShown(t, u.d, Pipe.Update(u.s).shown, r, x);
    }
  }

  lemma PaintStep(raw: bool, t: Desk)
    requires DeskInv(t)
    ensures var u := DeskStep(raw, t, OnDeck(Paints)); u.d == UpdatePanels(t.d) && u.s.cfg == t.s.cfg
  {
    hide UpdatePanels, Sound, Pipe.Inv;
  }

  ghost predicate ShowsPicture(t: Desk, shown: seq<seq<VCell>>, r: int, x: int)
    requires DeskInv(t) && 0 <= r < t.d.cur.maxy && 0 <= x < t.d.cur.maxx
  {
    r < |shown| && x < |shown[r]| && shown[r][x] == Render(t.s.cfg, Picture(t.d, r, x))
  }

  lemma PictureShown(t: Desk, e: Deck, shown: seq<seq<VCell>>, r: int, x: int)
    requires DeskInv(t) && Painted(e) && SamePicture(t.d, e) && Displays(t.s.cfg, shown, e.cur.cells)
    requires 0 <= r < t.d.cur.maxy && 0 <= x < t.d.cur.maxx
    ensures ShowsPicture(t, shown, r, x)
  {
    hide Sound, Render;
    assert SamePictureAt(t.d, e, r, x) && PaintedAt(e, r, x);
    assert shown[r] == RenderRow(t.s.cfg, e.cur.cells[r]);
  }
}
