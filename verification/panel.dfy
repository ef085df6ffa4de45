/** The panel library: panels linked into a deck, their lists of overlapping panels,
    and lazy redraw by touching rows. Each method is proved to act on the deck as a
    value (PanelModel) and on the sequence of linked panels. */
module Panels {
  import opened Cells
  import opened WindowModel
  import opened Damage
  import opened RefreshModel
  import opened PanelModel
  import opened Painter
  import opened PanelSteps
  import opened Windows
  import opened Screens
  import opened OverlapModel
  import Overlaps
  import Model = PanelModel

  class Panel {
    var win: Window
    var wstarty: int
    var wendy: int
    var wstartx: int
    var wendx: int
    var below: Panel?
    var above: Panel?
    /** The PANELOBS list: the linked panels that overlap this one, bottom to top. */
    var obscure: seq<Panel>

    function Place(): Rect
      reads `wstarty, `wendy, `wstartx, `wendx
    {
      Rect(wstarty, wendy, wstartx, wendx)
    }

    /** The part of new_panel that fills in the record. */
    constructor (win: Window)
      requires win.Valid()
      ensures this.win == win && Place() == RectOf(win.m) && below == null && above == null && obscure == []
    {
      hide Window.Valid;
      win.FieldsAgree();
      this.win := win;
      wstarty, wstartx := win.begy, win.begx;
      wendy, wendx := win.begy + win.maxy, win.begx + win.maxx;
      below, above, obscure := null, null, [];
    }

    /** The window and the place are as they were. */
    twostate predicate Stays()
      reads this
    {
      win == old(win) && Place() == old(Place())
    }

    /** So are the links. */
    twostate predicate StaysLinked()
      reads this
    {
      below == old(below) && above == old(above)
    }

    /** The panel's window is w, on these objects, and stands at this place. */
    ghost predicate Fitted(part: set<object>, w: Win, place: Rect)
      reads this, part
    {
      win in part && win.Repr == part && win.Valid() && win.m == w && Place() == place == RectOf(w)
    }

    /** Get another window and take its place. */
    method Occupy(win: Window)
      requires win.Valid() && this !in win.Repr && win in win.Repr
      modifies `win, `wstarty, `wstartx, `wendy, `wendx
      ensures this.win == win && win.Repr == old(win.Repr) && Fitted(win.Repr, old(win.m), Place()) &&
              Place() == RectOf(win.m)
    {
      hide Window.Valid;
      this.win := win;
      Settle();
    }

    /** Take the place of the window. */
    method Settle()
      requires win.Valid() && win in win.Repr && this !in win.Repr
      modifies `wstarty, `wstartx, `wendy, `wendx
      ensures Fitted(win.Repr, win.m, Place()) && Place() == RectOf(win.m)
    {
      hide Window.Valid;
      win.FieldsAgree();
      wstarty, wstartx := win.begy, win.begx;
      wendy, wendx := wstarty + win.maxy, wstartx + win.maxx;
    }
  }

  /** The panels at the given places of the deck. */
  function Pick(stack: seq<Panel>, js: seq<int>): (ps: seq<Panel>)
    requires forall t | 0 <= t < |js| :: 0 <= js[t] < |stack|
    ensures |ps| == |js| && forall t | 0 <= t < |js| :: ps[t] == stack[js[t]]
  {
    seq(|js|, t requires 0 <= t < |js| => stack[js[t]])
  }

  function Without(s: seq<Panel>, p: Panel): seq<Panel> {
    if s == [] then [] else if s[0] == p then s[1..] else [s[0]] + Without(s[1..], p)
  }

  lemma {:induction false} WithoutIs(s: seq<Panel>, p: Panel, k: nat)
    requires k < |s| && s[k] == p && forall i | 0 <= i < k :: s[i] != p
    ensures Without(s, p) == s[..k] + s[k + 1..]
  {
    if k > 0 {
      WithoutIs(s[1..], p, k - 1);
      assert s[1..][..k - 1] == s[1..k] && s[1..][k..] == s[k + 1..];
      assert [s[0]] + (s[1..k] + s[k + 1..]) == s[..k] + s[k + 1..];
    }
  }

  lemma {:induction false} WithoutNone(s: seq<Panel>, p: Panel)
    requires p !in s
    ensures Without(s, p) == s
  {
    if s != [] {
      WithoutNone(s[1..], p);
    }
  }

  /** The parts of a deck share nothing. */
  ghost predicate Apart(deck: object, stack: seq<Panel>, parts: seq<set<object>>, scr: set<object>, std: set<object>) {
    && |parts| == |stack| && deck !in scr && deck !in std && scr !! std
    && (forall i | 0 <= i < |stack| ::
          parts[i] !! scr && parts[i] !! std && deck !in parts[i] && stack[i] !in scr && stack[i] !in std)
    && (forall i, j | 0 <= i < |stack| && 0 <= j < |stack| ::
          stack[i] !in parts[j] && (i != j ==> parts[i] !! parts[j] && stack[i] != stack[j]))
  }

  class PanelStack {
    const screen: Screen
    const stdscr: Window
    var bottom: Panel?
    var top: Panel?

    /** The linked panels from bottom to top, the objects of their windows, and their places. */
    ghost var stack: seq<Panel>
    ghost var parts: seq<set<object>>
    ghost var places: seq<Rect>
    /** The windows as values. */
    ghost var d: Model.Deck
    /** How many panels, from the bottom, have an up-to-date obscure list. */
    ghost var known: nat
    ghost const scr: set<object>
    ghost const std: set<object>
    ghost var Repr: set<object>

    /** The library before the first panel. */
    constructor (screen: Screen, stdscr: Window)
      requires screen.Valid() && stdscr.Valid() && stdscr.Repr !! screen.Repr()
      requires RectOf(stdscr.m) == RectOf(screen.curscr.m)
      ensures Ready() && stack == [] && d == RawDeck([], stdscr.m, screen.curscr.m)
      ensures this.screen == screen && this.stdscr == stdscr && scr == screen.Repr() && std == stdscr.Repr
    {
      this.screen, this.stdscr := screen, stdscr;
      bottom, top := null, null;
      stack, parts, places, known := [], [], [], 0;
      scr, std := screen.Repr(), stdscr.Repr;
      Repr := {this} + screen.Repr() + stdscr.Repr;
      d := RawDeck([], stdscr.m, screen.curscr.m);
      hide Window.Valid, Screen.Valid, RawWin.Valid;
      new;
    }

    ghost predicate Valid()
      reads this, Repr
    {
      && Apart(this, stack, parts, scr, std)
      && Owned() && Linked() && Listed()
    }

    /** The windows and the screen are those of d. */
    ghost predicate Owned()
      requires |parts| == |stack|
      reads this, Repr
    {
      && this in Repr && scr + std <= Repr && (forall i | 0 <= i < |stack| :: parts[i] <= Repr && stack[i] in Repr)
      && screen in scr && stdscr in std && screen.curscr in scr && screen.lastscr in scr
      && scr == screen.Repr() && std == stdscr.Repr && screen.Valid() && stdscr.Valid()
      && d.std == stdscr.m && d.cur == screen.curscr.m
      && |d.layers| == |stack| == |places|
      && (forall i | 0 <= i < |stack| :: Owns(i))
    }

    /** Panel i's window is layer i, and the panel knows its place. */
    ghost predicate Owns(i: nat)
      requires i < |stack| == |parts| == |places| == |d.layers|
      reads this, stack[i], parts[i]
    {
      stack[i].Fitted(parts[i], d.layers[i], places[i])
    }

    /** The panel at place i of the deck; null past either end. */
    ghost function PanelAt(i: int): Panel?
      reads `stack
    {
      if 0 <= i < |stack| then stack[i] else null
    }

    /** The links spell out the stack. */
    ghost predicate Linked()
      reads `stack, `bottom, `top, stack
    {
      && bottom == PanelAt(0) && top == PanelAt(|stack| - 1)
      && (forall i | 0 <= i < |stack| :: LinkedAt(i))
    }

    ghost predicate LinkedAt(i: nat)
      requires i < |stack|
      reads `stack, stack[i]
    {
      stack[i].below == PanelAt(i - 1) && stack[i].above == PanelAt(i + 1)
    }

    /** The obscure lists computed so far are right. */
    ghost predicate Listed()
      reads this, stack
    {
      known <= |stack| == |places| && forall i | 0 <= i < known :: ListedAt(i)
    }

    ghost predicate ListedAt(i: nat)
      requires i < |stack| == |places|
      reads this, stack[i]
    {
      stack[i].obscure == Pick(stack, Obscuring(places, i, |stack|))
    }

    /** What the steps on single windows may write: the windows of the panels and stdscr. */
    ghost function Panes(): set<object>
      reads `Repr, `stack
    {
      Repr - {this} - scr - set p: Panel | p in stack
    }

    ghost predicate Ready()
      reads this, Repr
    {
      Valid() && known == |stack|
    }

    // What a step on one window leaves alone, part by part.

    twostate lemma OwnsKept(i: nat)
      requires i < |stack| == |parts| == |places| == |d.layers| == |old(d).layers|
      requires unchanged(`stack, `parts, `places) && d.layers[i] == old(d).layers[i]
      requires old(Owns(i)) && unchanged(stack[i]) && unchanged(parts[i])
      ensures Owns(i)
    {
      hide Window.Valid;
    }

    twostate lemma ScreenKept()
      requires old(screen.Valid()) && scr == old(screen.Repr()) && unchanged(scr)
      ensures screen.Valid() && screen.Repr() == scr && screen.curscr.m == old(screen.curscr.m)
    {
    }

    twostate lemma StdKept()
      requires old(stdscr.Valid()) && std == old(stdscr.Repr) && stdscr in std && unchanged(std)
      ensures stdscr.Valid() && stdscr.Repr == std && stdscr.m == old(stdscr.m)
    {
      hide Window.Valid;
    }

    /** Writing windows only keeps the links and the lists. */
    twostate lemma ChainKept()
      requires unchanged(`stack, `places, `known, `bottom, `top)
      requires forall i | 0 <= i < |stack| :: unchanged(stack[i])
      requires old(Linked()) && old(Listed())
      ensures Linked() && Listed()
    {
      forall i | 0 <= i < known
        ensures ListedAt(i)
      {
        assert old(ListedAt(i));
      }
    }

    /** Panel k's window has been written. */
    twostate lemma LayerWritten(k: nat)
      requires old(Valid()) && k < |stack| && unchanged(`stack, `parts, `places, `known, `bottom, `top, `Repr)
      requires unchanged(old(Repr) - {this} - parts[k])
      requires |d.layers| == |stack| && d == old(d).(layers := old(d).layers[k := d.layers[k]]) && Owns(k)
      ensures Valid()
    {
      hide Window.Valid, Screen.Valid, Owns, Linked, Listed, RawWin.Valid;
      ScreenKept();
      ChainKept();
      forall i | 0 <= i < |stack|
        ensures Owns(i)
      {
        if i != k {
          OwnsKept(i);
        }
      }
    }

    /** stdscr has been written. */
    twostate lemma StdWritten()
      requires old(Valid()) && unchanged(`stack, `parts, `places, `known, `bottom, `top, `Repr)
      requires unchanged(old(Repr) - {this} - std)
      requires d == old(d).(std := stdscr.m) && stdscr.Valid() && stdscr.Repr == std
      ensures Valid()
    {
      hide Window.Valid, Screen.Valid, Owns, Linked, Listed, RawWin.Valid;
      ScreenKept();
      ChainKept();
      forall i | 0 <= i < |stack|
        ensures Owns(i)
      {
        OwnsKept(i);
      }
    }

    /** Panel k's window has been refreshed. */
    twostate lemma LayerRefreshed(k: nat)
      requires old(Valid()) && k < |stack| && unchanged(`stack, `parts, `places, `known, `bottom, `top, `Repr)
      requires unchanged(old(Repr) - {this} - parts[k] - scr)
      requires |d.layers| == |stack| &&
               d == old(d).(layers := old(d).layers[k := d.layers[k]], cur := screen.curscr.m) && Owns(k)
      requires screen.Valid() && screen.Repr() == scr && screen.curscr in scr && screen.lastscr in scr
      ensures Valid()
    {
      hide Window.Valid, Screen.Valid, Owns, Linked, Listed, RawWin.Valid;
      ChainKept();
      forall i | 0 <= i < |stack|
        ensures Owns(i)
      {
        if i != k {
          OwnsKept(i);
        }
      }
    }

    /** stdscr has been refreshed. */
    twostate lemma StdRefreshed()
      requires old(Valid()) && unchanged(`stack, `parts, `places, `known, `bottom, `top, `Repr)
      requires unchanged(old(Repr) - {this} - std - scr)
      requires d == old(d).(std := stdscr.m, cur := screen.curscr.m) && stdscr.Valid() && stdscr.Repr == std
      requires screen.Valid() && screen.Repr() == scr && screen.curscr in scr && screen.lastscr in scr
      ensures Valid()
    {
      hide Window.Valid, Screen.Valid, Owns, Linked, Listed, RawWin.Valid;
      ChainKept();
      forall i | 0 <= i < |stack|
        ensures Owns(i)
      {
        OwnsKept(i);
      }
    }

    // What a method may read while Valid is hidden.

    lemma Holds(k: nat)
      requires Valid() && k < |stack|
      ensures |parts| == |places| == |d.layers| == |stack| && Owns(k)
      ensures stack[k] in Repr && parts[k] <= Repr && stack[k] !in parts[k] && this !in parts[k]
      ensures parts[k] !! scr && parts[k] !! std && LinkedAt(k) && stack[k].below == PanelAt(k - 1) &&
              stack[k].above == PanelAt(k + 1)
      ensures stack[k].win in parts[k] && stack[k].win.Valid() && stack[k].win.m == d.layers[k]
      ensures stack[k].Place() == places[k] == RectOf(d.layers[k]) && stack[k].win.Repr == parts[k]
      ensures Inside(d.layers[k], d.cur) && 0 <= places[k].y0 < places[k].y1 <= d.std.maxy
    {
    }

    lemma PaneOf(k: nat)
      requires Valid() && k < |stack|
      ensures |parts| == |stack| && parts[k] <= Panes() && stack[k] !in Panes() && this !in Panes()
    {
      hide Owns, Linked, Listed, Window.Valid, Screen.Valid;
      assert stack[k] in set p: Panel | p in stack;
    }

    lemma Base()
      requires Valid()
      ensures screen in scr && stdscr in std && screen.curscr in scr && screen.lastscr in scr &&
              scr + std + {this} <= Repr
      ensures scr == screen.Repr() && std == stdscr.Repr && screen.Valid() && stdscr.Valid() && scr !! std &&
              this !in scr + std
      ensures d.std == stdscr.m && d.cur == screen.curscr.m
      ensures std <= Panes() && this !in Panes() && scr !! Panes() && places == Rects(d.layers)
      ensures d.std.begy == 0 && d.std.maxy == d.cur.maxy && d.std.maxx == d.cur.maxx
      ensures |parts| == |places| == |d.layers| == |stack| >= known && bottom == PanelAt(0) &&
              top == PanelAt(|stack| - 1)
    {
      forall i | 0 <= i < |stack|
        ensures places[i] == Rects(d.layers)[i]
      {
        assert Owns(i);
      }
    }

    lemma KnownList(k: nat)
      requires Valid() && k < known
      ensures k < |stack| == |places| && stack[k].obscure == Pick(stack, Obscuring(places, k, |stack|))
    {
      assert ListedAt(k);
    }

    // -------------------------------------------------------------- one window at a time

    method TouchPan(pan: Panel, ghost k: nat)
      requires Valid() && k < |stack| && stack[k] == pan
      modifies parts[k], `d
      ensures Valid() && d == Raised(old(d), k)
    {
      hide Window.Valid, Screen.Valid, RawWin.Valid, TouchWin, Linked, Listed;
      assert Owns(k);
      pan.win.TouchWin();
      d := d.(layers := d.layers[k := pan.win.m]);
      LayerWritten(k);
    }

    /** touchline(pan->win, row, 1). */
    method TouchRow(pan: Panel, row: int, ghost k: nat)
      requires Valid() && k < |stack| && stack[k] == pan && 0 <= row < d.layers[k].maxy
      modifies parts[k], `d
      ensures Valid() && d == old(d).(layers := old(d).layers[k := TouchLine(old(d).layers[k], row, 1).win])
    {
      hide Window.Valid, Screen.Valid, RawWin.Valid, TouchWin, TouchLine, Linked, Listed;
      assert Owns(k);
      var ok := pan.win.TouchLine(row, 1);
      d := d.(layers := d.layers[k := pan.win.m]);
      LayerWritten(k);
    }

    method TouchStd()
      requires Valid()
      modifies std, `d
      ensures Valid() && d == old(d).(std := TouchWin(old(d).std))
    {
      hide Window.Valid, Screen.Valid, RawWin.Valid, TouchWin, Linked, Listed, Owns;
      stdscr.TouchWin();
      d := d.(std := stdscr.m);
      StdWritten();
    }

    method RefreshPan(pan: Panel, ghost k: nat)
      requires Valid() && k < |stack| && stack[k] == pan
      modifies parts[k], scr, `d
      ensures Valid()
      ensures d ==
              old(d).(layers := old(d).layers[k := NoutWin(old(d).layers[k])],
                      cur := NoutCur(old(d).layers[k], old(d).cur))
    {
      hide Window.Valid, Screen.Valid, RawWin.Valid, NoutWin, NoutCur, Linked, Listed;
      assert Owns(k);
      screen.NoutRefresh(pan.win);
      d := d.(layers := d.layers[k := pan.win.m], cur := screen.curscr.m);
      LayerRefreshed(k);
    }

    method RefreshStd()
      requires Valid()
      modifies std, scr, `d
      ensures Valid() && d == old(d).(std := NoutWin(old(d).std), cur := NoutCur(old(d).std, old(d).cur))
    {
      hide Window.Valid, Screen.Valid, RawWin.Valid, NoutWin, NoutCur, Linked, Listed, Owns;
      screen.NoutRefresh(stdscr);
      d := d.(std := stdscr.m, cur := screen.curscr.m);
      StdRefreshed();
    }

    /** A program's own write into a panel's window. */
    method Write(raw: bool, pan: Panel, op: DrawOp, ghost k: nat)
      requires Valid() && k < |stack| && stack[k] == pan && Safe(d.layers[k], op)
      modifies parts[k], `d
      ensures Valid() && d == Model.Write(raw, old(d), k, op)
    {
      hide Window.Valid, Screen.Valid, RawWin.Valid, Apply, Linked, Listed, Safe;
      assert Owns(k);
      Perform(raw, pan.win, op);
      EveryOpDraws(raw, d.layers[k], op);
      d := d.(layers := d.layers[k := pan.win.m]);
      LayerWritten(k);
    }

    /** A copy of part of another window onto a panel's window. */
    method CopyOnto(src: Window, pan: Panel, g: Region, over: bool, ghost k: nat)
      requires Valid() && k < |stack| && stack[k] == pan
      requires src.Valid() && src.Repr !! parts[k] && this !in src.Repr && g.Fits(src.m, d.layers[k])
      modifies parts[k], `d
      ensures Valid() && src.m == old(src.m) && |d.layers| == |old(d).layers| &&
              SameFrame(old(d).layers[k], d.layers[k])
      ensures d == Drawn(old(d), k, d.layers[k]) && Copied(src.m, old(d).layers[k], d.layers[k], g, over)
    {
      hide Window.Valid, Screen.Valid, RawWin.Valid, Copied, Linked, Listed;
      assert Owns(k);
      src.FieldsAgree();
      Overlaps.CopyWin(src, pan.win, g, over);
      CopiedFields(src.m, d.layers[k], pan.win.m, g, over);
      d := d.(layers := d.layers[k := pan.win.m]);
      LayerWritten(k);
    }

    // -------------------------------------------------------------- _override

    /** Place of a panel in the deck; no two panels share one. */
    lemma PlaceIs(j: nat, k: nat)
      requires Valid() && j < |stack| && k < |stack|
      ensures stack[j] == stack[k] <==> j == k
    {
    }

    /** The rows of pan2 that pan2 shares with pan. */
    method OverridePair(pan: Panel, pan2: Panel, ghost i: nat, ghost j: nat)
      requires Valid() && i < |stack| == |d.layers| && j < |stack| && i != j && stack[i] == pan && stack[j] == pan2
      modifies Panes(), `d
      ensures Valid() && d == Marking(old(d), i, j, old(d).layers[i].begy + old(d).layers[i].maxy)
    {
      hide *;
      Holds(i);
      PaneOf(i);
      PaneOf(j);
      ghost var d0 := d;
      MarkingStart(d0, i, j);
      var y := pan.wstarty;
      PlaceFields(i);
      while y < pan.wendy
        invariant Valid() && |d.layers| == |stack| && pan.wstarty == d0.layers[i].begy &&
                  pan.wendy == d0.layers[i].begy + d0.layers[i].maxy
        invariant pan.wstarty <= y <= pan.wendy && d == Marking(d0, i, j, y)
      {
        MarkRow(pan, pan2, y, d0, i, j);
        y := y + 1;
      }
    }

    /** One row of _override. */
    method MarkRow(pan: Panel, pan2: Panel, y: int, ghost d0: Model.Deck, ghost i: nat, ghost j: nat)
      requires Valid() && i < |stack| == |d.layers| == |d0.layers| && j < |stack| && i != j && stack[i] == pan &&
               stack[j] == pan2
      requires d0.layers[i].begy <= y < d0.layers[i].begy + d0.layers[i].maxy && d == Marking(d0, i, j, y)
      modifies Panes(), `d
      ensures Valid() && |d.layers| == |stack| && d == Marking(d0, i, j, y + 1)
    {
      hide *;
      PaneOf(i);
      PaneOf(j);
      Base();
      PlaceFields(i);
      PlaceFields(j);
      MarkingStep(d0, i, j, y);
      if y >= pan2.wstarty && y < pan2.wendy {
        var touched := LineTouched(pan, y, i);
        if touched {
          TouchRow(pan2, y - pan2.wstarty, j);
        }
      }
    }

    /** is_linetouched of pan's row at screen row y, or of stdscr's. */
    method LineTouched(pan: Panel, y: int, ghost i: nat) returns (t: bool)
      requires Valid() && i < |stack| == |d.layers| && stack[i] == pan
      requires d.layers[i].begy <= y < d.layers[i].begy + d.layers[i].maxy && 0 <= y < d.std.maxy
      ensures t <==> d.layers[i].Touched(y - d.layers[i].begy) || d.std.Touched(y)
    {
      hide Window.Valid, Valid;
      Holds(i);
      Base();
      PlaceFields(i);
      pan.win.FieldsAgree();
      stdscr.FieldsAgree();
      t := pan.win.IsLineTouched(y - pan.wstarty);
      if !t {
        t := stdscr.IsLineTouched(y);
      }
    }

    /** _override: with show 1 or 0 the panel is touched, with 0 stdscr too; then rows are
        touched on the overlapping panels, with -1 on those above only. */
    method Override(pan: Panel, show: int, ghost i: nat)
      requires Valid() && i < known && i < |stack| == |d.layers| && stack[i] == pan && -1 <= show <= 1
      modifies Panes(), `d
      ensures Valid() && |d.layers| == |stack|
      ensures show == -1 ==> d == Passed(old(d), i)
      ensures show == 0 ==> d == Disturbed(old(d), i)
      ensures show == 1 ==> d == Spread(Raised(old(d), i), i, Obscuring(places, i, |stack|))
    {
      hide *;
      KnownList(i);
      Base();
      PaneOf(i);
      DisturbedIs(d, i);
      var tobs := pan.obscure;
      ghost var js := Obscuring(places, i, |stack|);
      var t := 0;
      if show == 1 {
        TouchPan(pan, i);
      } else if show == 0 {
        TouchPan(pan, i);
        TouchStd();
      } else {
        while t < |tobs| && tobs[t] != pan
          invariant 0 <= t <= |tobs| && forall u | 0 <= u < t :: tobs[u] != pan
        {
          t := t + 1;
        }
        FoundSelf(tobs, js, i, t);
        PassedIs(d, i, t);
      }
      assert js[0..] == js;
      OverrideList(pan, tobs, t, i);
    }

    /** The rest of a list, from place `from` on. */
    method OverrideList(pan: Panel, tobs: seq<Panel>, from: nat, ghost i: nat)
      requires Valid() && i < |stack| == |d.layers| == |places| && stack[i] == pan
      requires tobs == Pick(stack, Obscuring(places, i, |stack|)) && from <= |tobs|
      modifies Panes(), `d
      ensures Valid() && |d.layers| == |stack| && d == Spread(old(d), i, Obscuring(places, i, |stack|)[from..])
    {
      hide *;
      Base();
      PaneOf(i);
      ghost var js, d1 := Obscuring(places, i, |stack|), d;
      SpreadStart(d1, i);
      var t := from;
      assert js[from..t] == [];
      while t < |tobs|
        invariant Valid() && from <= t <= |tobs| == |js| && |d.layers| == |stack| == |d1.layers| &&
                  d == Spread(d1, i, js[from..t])
      {
        var pan2 := tobs[t];
        ListStep(d1, i, js, from, t);
        PlaceIs(js[t], i);
        if pan2 != pan {
          OverridePair(pan, pan2, i, js[t]);
        }
        t := t + 1;
      }
      assert js[from..t] == js[from..];
    }

    /** A panel overlaps itself, so the search in its own list succeeds. */
    lemma FoundSelf(tobs: seq<Panel>, js: seq<int>, i: nat, t: nat)
      requires Valid() && i < |stack| == |places| && js == Obscuring(places, i, |stack|) && tobs == Pick(stack, js)
      requires t <= |tobs| && (forall u | 0 <= u < t :: tobs[u] != stack[i]) && (t < |tobs| ==> tobs[t] == stack[i])
      ensures t < |js| == |tobs| && js[t] == i
    {
      assert Owns(i);
      assert i in js;
    }

    lemma PlaceFields(k: nat)
      requires Valid() && k < |stack| == |d.layers|
      ensures var (p, w) := (stack[k], d.layers[k]);
              p.wstarty == w.begy && p.wendy == w.begy + w.maxy && p.wstartx == w.begx && p.wendx == w.begx + w.maxx
    {
      Holds(k);
    }

    // -------------------------------------------------------------- _calculate_obscure

    /** The inner loop of _calculate_obscure: the panels that overlap pan, bottom to top. */
    method OverlapList(pan: Panel, ghost i: nat) returns (list: seq<Panel>)
      requires Valid() && i < |stack| == |places| && stack[i] == pan
      ensures list == Pick(stack, Obscuring(places, i, |stack|))
    {
      hide *;
      Base();
      list := [];
      var pan2 := bottom;
      ghost var j := 0;
      ListStart(i);
      AtBounds(0);
      while pan2 != null
        invariant 0 <= j <= |stack| && pan2 == PanelAt(j)
        invariant ListUpto(list, i, j)
        decreases |stack| - j
      {
        AtBounds(j);
        Holds(i);
        Holds(j);
        ListGrows(list, i, j);
        if Overlap(pan.Place(), pan2.Place()) {
          list := list + [pan2];
        }
        pan2 := pan2.above;
        j := j + 1;
        AtBounds(j);
      }
      AtBounds(j);
      ListWhole(list, i, j);
    }

    /** The list for panel i as far as place j. */
    ghost predicate ListUpto(list: seq<Panel>, i: nat, j: nat)
      reads `stack, `places
    {
      i < |stack| == |places| && j <= |stack| && list == Pick(stack, Obscuring(places, i, j))
    }

    lemma ListStart(i: nat)
      requires i < |stack| == |places|
      ensures ListUpto([], i, 0)
    {
    }

    lemma ListGrows(list: seq<Panel>, i: nat, j: nat)
      requires ListUpto(list, i, j) && i < |stack| == |places| && j < |stack|
      ensures ListUpto(if Overlap(places[i], places[j]) then list + [stack[j]] else list, i, j + 1)
    {
    }

    lemma ListWhole(list: seq<Panel>, i: nat, j: nat)
      requires ListUpto(list, i, j) && i < |stack| == |places| && j >= |stack|
      ensures list == Pick(stack, Obscuring(places, i, |stack|))
    {
    }

    /** Replace a panel's list. */
    method SetList(pan: Panel, list: seq<Panel>, ghost i: nat)
      requires Valid() && i == known && i < |stack| == |places| && stack[i] == pan
      requires list == Pick(stack, Obscuring(places, i, |stack|))
      modifies pan`obscure, `known
      ensures Valid() && known == i + 1
    {
      hide Window.Valid, Screen.Valid, Overlap, RawDeck.Valid, RawWin.Valid, Obscuring, Pick;
      pan.obscure := list;
      known := i + 1;
      Relisted(i);
    }

    twostate lemma Relisted(i: nat)
      requires old(Valid()) && old(known) == i < |stack| && known == i + 1
      requires unchanged(`stack, `parts, `places, `d, `bottom, `top, `Repr)
      requires unchanged(old(Repr) - {this, stack[i]})
      requires stack[i].Stays() && stack[i].StaysLinked()
      requires |places| == |stack| && ListedAt(i)
      ensures Valid()
    {
      hide Window.Valid, Screen.Valid, RawWin.Valid, RawDeck.Valid, Linked, Listed, Owns, Screen.Repr;
      ScreenKept();
      StdKept();
      ChainRelisted(i);
      forall j | 0 <= j < |stack|
        ensures Owns(j)
      {
        OwnsStays(j);
      }
    }

    twostate lemma ChainRelisted(i: nat)
      requires old(Linked()) && old(Listed()) && old(known) == i < |stack| && known == i + 1
      requires unchanged(`stack, `places, `bottom, `top)
      requires forall j | 0 <= j < |stack| && j != i :: unchanged(stack[j])
      requires stack[i].StaysLinked()
      requires |places| == |stack| && ListedAt(i)
      ensures Linked() && Listed()
    {
      hide ListedAt;
      forall j | 0 <= j < |stack|
        ensures LinkedAt(j)
      {
        assert old(LinkedAt(j));
      }
      forall j | 0 <= j < known
        ensures ListedAt(j)
      {
        if j < i {
          ListKept(j);
        }
      }
    }

    twostate lemma ListKept(j: nat)
      requires j < |stack| == |places| && unchanged(`stack, `places) && unchanged(stack[j]) && old(ListedAt(j))
      ensures ListedAt(j)
    {
    }

    twostate lemma OwnsStays(j: nat)
      requires j < |stack| == |parts| == |places| == |d.layers|
      requires j < |old(stack)| == |old(parts)| == |old(places)| == |old(d).layers|
      requires stack[j] == old(stack)[j] && parts[j] == old(parts)[j] && places[j] == old(places)[j] &&
               d.layers[j] == old(d).layers[j]
      requires old(Owns(j)) && unchanged(parts[j]) && stack[j].Stays()
      ensures Owns(j)
    {
      hide Window.Valid;
    }

    /** Panel j owns its window as it did one place higher. */
    twostate lemma OwnsDown(j: nat)
      requires j < |stack| == |parts| == |places| == |d.layers|
      requires j + 1 < |old(stack)| == |old(parts)| == |old(places)| == |old(d).layers|
      requires stack[j] == old(stack)[j + 1] && parts[j] == old(parts)[j + 1]
      requires places[j] == old(places)[j + 1] && d.layers[j] == old(d).layers[j + 1]
      requires old(Owns(j + 1)) && unchanged(parts[j]) && stack[j].Stays()
      ensures Owns(j)
    {
      hide Window.Valid;
    }

    /** Panel j + 1 owns its window as it did one place lower. */
    twostate lemma OwnsUp(j: nat)
      requires j + 1 < |stack| == |parts| == |places| == |d.layers|
      requires j < |old(stack)| == |old(parts)| == |old(places)| == |old(d).layers|
      requires stack[j + 1] == old(stack)[j] && parts[j + 1] == old(parts)[j]
      requires places[j + 1] == old(places)[j] && d.layers[j + 1] == old(d).layers[j]
      requires old(Owns(j)) && unchanged(parts[j + 1]) && stack[j + 1].Stays()
      ensures Owns(j + 1)
    {
      hide Window.Valid;
    }

    /** _calculate_obscure. */
    method CalculateObscure()
      requires Valid() && known == 0
      modifies Panes(), (set p | p in stack)`obscure, `d, `known
      ensures Ready() && d == TouchAll(old(d))
    {
      hide *;
      Base();
      var pan := bottom;
      ghost var d0, i := d, 0;
      TouchingStart(d0);
      AtBounds(0);
      while pan != null
        invariant Valid() && 0 <= i <= |stack| == |places| == |d.layers| == |d0.layers| && known == i &&
                  pan == PanelAt(i)
        invariant Touching(d0, d, i)
        decreases |stack| - i
      {
        AtBounds(i);
        Obscure(pan, i, d0);
        Holds(i);
        pan := pan.above;
        i := i + 1;
        AtBounds(i);
      }
      AtBounds(i);
      TouchingDone(d0, d);
      NowReady();
    }

    /** One panel of _calculate_obscure. */
    method Obscure(pan: Panel, ghost i: nat, ghost d0: Model.Deck)
      requires Valid() && i < |stack| == |places| == |d.layers| == |d0.layers| && known == i && stack[i] == pan &&
               Touching(d0, d, i)
      modifies Panes(), (set p | p in stack)`obscure, `d, `known
      ensures Valid() && |stack| == |places| == |d.layers| && known == i + 1 && Touching(d0, d, i + 1)
    {
      hide *;
      PaneOf(i);
      var list := OverlapList(pan, i);
      SetList(pan, list, i);
      TouchingStep(d0, d, i, Obscuring(places, i, |stack|));
      Override(pan, 1, i);
      Base();
    }

    lemma AtBounds(i: int)
      ensures PanelAt(i) == if 0 <= i < |stack| then stack[i] else null
    {
    }

    lemma NowReady()
      requires Valid() && known == |stack|
      ensures Ready()
    {
    }

    // -------------------------------------------------------------- links

    /** A panel that is not in the deck: its window is its own. */
    ghost predicate Foreign(pan: Panel)
      reads `Repr, pan, pan.win, pan.win.Repr
    {
      && pan !in Repr && pan.win.Repr !! Repr && pan !in pan.win.Repr && pan.win in pan.win.Repr
      && pan.win.Valid() && pan.Place() == RectOf(pan.win.m)
    }

    /** No panel is linked twice. */
    ghost predicate Simple()
      reads `stack
    {
      forall i, j | 0 <= i < j < |stack| :: stack[i] != stack[j]
    }

    /** The pointers of _panel_link_top. */
    method ChainAbove(pan: Panel)
      requires Linked() && Simple() && pan !in stack
      modifies pan`below, pan`above, `top, `bottom, `stack, set p | p in stack
      ensures Linked() && Simple() && stack == old(stack) + [pan]
      ensures forall p | p in stack :: p.Stays()
    {
      pan.above := null;
      pan.below := null;
      if top != null {
        top.above := pan;
        pan.below := top;
      }
      top := pan;
      if bottom == null {
        bottom := pan;
      }
      stack := stack + [pan];
      forall j | 0 <= j < |stack|
        ensures LinkedAt(j)
      {
        assert j < |stack| - 1 ==> old(LinkedAt(j));
      }
    }

    /** The pointers of _panel_link_bottom. */
    method ChainBelow(pan: Panel)
      requires Linked() && Simple() && pan !in stack
      modifies pan`below, pan`above, `top, `bottom, `stack, set p | p in stack
      ensures Linked() && Simple() && stack == [pan] + old(stack)
      ensures forall p | p in stack :: p.Stays()
    {
      pan.above := null;
      pan.below := null;
      if bottom != null {
        bottom.below := pan;
        pan.above := bottom;
      }
      bottom := pan;
      if top == null {
        top := pan;
      }
      stack := [pan] + stack;
      forall j | 0 <= j < |stack|
        ensures LinkedAt(j)
      {
        assert j > 0 ==> old(LinkedAt(j - 1));
      }
    }

    /** The neighbours of panel k, and the ends of the deck, are linked past it. */
    method Bypass(pan: Panel, ghost k: nat)
      requires Linked() && Simple() && k < |stack| && stack[k] == pan
      modifies `top, `bottom, set p | p in stack
      ensures bottom == (if k == 0 then PanelAt(1) else old(bottom)) &&
              top == if k == |stack| - 1 then PanelAt(k - 1) else old(top)
      ensures forall j | 0 <= j < |stack| && j != k ::
                && stack[j].below == (if j == k + 1 then PanelAt(k - 1) else old(stack[j].below))
                && stack[j].above == (if j == k - 1 then PanelAt(k + 1) else old(stack[j].above))
      ensures forall p | p in stack :: p.Stays()
    {
      assert LinkedAt(k);
      pan.obscure := [];
      var prev := pan.below;
      var next := pan.above;
      if prev != null {
        prev.above := next;
        if next != null {
          next.below := prev;
        }
      } else if next != null {
        next.below := prev;
      }
      if pan == bottom {
        bottom := next;
      }
      if pan == top {
        top := prev;
      }
    }

    /** The list and the pointers in _panel_unlink. */
    method ChainOut(pan: Panel, ghost k: nat)
      requires Linked() && Simple() && k < |stack| && stack[k] == pan
      modifies `top, `bottom, `stack, set p | p in stack
      ensures Linked() && Simple() && stack == old(stack)[..k] + old(stack)[k + 1..] && pan !in stack
      ensures forall p | p in old(stack) :: p.Stays()
    {
      Bypass(pan, k);
      stack := stack[..k] + stack[k + 1..];
      forall j | 0 <= j < |stack|
        ensures LinkedAt(j)
      {
        assert if j < k then old(LinkedAt(j)) else old(LinkedAt(j + 1));
      }
    }

    lemma Member(k: nat)
      requires Valid() && k < |stack|
      ensures this in Repr && stack[k] in Repr
    {
    }

    lemma InRepr()
      requires Valid()
      ensures Panes() <= Repr && this in Repr && this !in Panes() && scr <= Repr
      ensures forall p | p in stack :: p in Repr && p !in Panes()
    {
    }

    lemma Chained()
      requires Valid()
      ensures Linked() && Simple() && |parts| == |places| == |d.layers| == |stack|
    {
    }

    twostate lemma WindowKept(pan: Panel)
      requires old(Foreign(pan)) && unchanged(old(pan.win.Repr)) && pan.Stays()
      ensures pan.win.Valid() && pan.win.m == old(pan.win.m) && pan.win.Repr == old(pan.win.Repr)
      ensures pan.win in pan.win.Repr && pan.Place() == RectOf(pan.win.m)
    {
      hide Window.Valid;
    }

    /** The pointers have been changed; everything else goes with the panels. */
    twostate lemma OthersKept()
      requires old(Valid()) && unchanged(old(Repr) - {this} - set p | p in old(stack))
      ensures screen.Valid() && screen.Repr() == scr && screen.curscr.m == old(screen.curscr.m)
      ensures stdscr.Valid() && stdscr.Repr == std && stdscr.m == old(stdscr.m)
      ensures screen in scr && stdscr in std && screen.curscr in scr && screen.lastscr in scr
    {
      hide Window.Valid, Screen.Valid, Owns, Linked, Listed, RawWin.Valid;
      ScreenKept();
      StdKept();
    }

    twostate lemma GrownAbove(pan: Panel)
      requires old(Valid()) && old(Foreign(pan)) && Inside(old(pan.win.m), old(d).cur) && known == 0 && Linked()
      requires stack == old(stack) + [pan] && parts == old(parts) + [old(pan.win.Repr)] &&
               places == old(places) + [pan.Place()]
      requires Repr == old(Repr) + {pan} + old(pan.win.Repr) && d == old(d).(layers := old(d).layers + [old(pan.win.m)])
      requires forall p | p in stack :: p.Stays()
      requires unchanged(old(pan.win.Repr))
      requires unchanged(old(Repr) - {this} - set p | p in old(stack))
      ensures Valid()
    {
      hide Window.Valid, Screen.Valid, Screen.Repr, Linked, RawWin.Valid, RawDeck.Valid, Owns;
      OthersKept();
      WindowKept(pan);
      OwnsForeign(|stack| - 1);
      forall j | 0 <= j < |stack|
        ensures Owns(j)
      {
        if j < |old(stack)| {
          OwnsStays(j);
        }
      }
    }

    lemma OwnsForeign(j: nat)
      requires j < |stack| == |parts| == |places| == |d.layers|
      requires var p := stack[j];
               && p.win in p.win.Repr && p.win.Repr == parts[j] && p.win.Valid() && p.win.m == d.layers[j]
               && p.Place() == places[j] == RectOf(p.win.m)
      ensures Owns(j)
    {
    }

    twostate lemma GrownBelow(pan: Panel)
      requires old(Valid()) && old(Foreign(pan)) && Inside(old(pan.win.m), old(d).cur) && known == 0 && Linked()
      requires stack == [pan] + old(stack) && parts == [old(pan.win.Repr)] + old(parts) &&
               places == [pan.Place()] + old(places)
      requires Repr == old(Repr) + {pan} + old(pan.win.Repr) && d == old(d).(layers := [old(pan.win.m)] + old(d).layers)
      requires forall p | p in stack :: p.Stays()
      requires unchanged(old(pan.win.Repr))
      requires unchanged(old(Repr) - {this} - set p | p in old(stack))
      ensures Valid()
    {
      hide Window.Valid, Screen.Valid, Screen.Repr, Linked, RawWin.Valid, RawDeck.Valid, Owns;
      OthersKept();
      WindowKept(pan);
      OwnsForeign(0);
      forall j | 0 <= j < |stack|
        ensures Owns(j)
      {
        if j > 0 {
          OwnsUp(j - 1);
        }
      }
    }

    twostate lemma ShrunkOut(k: nat)
      requires old(Valid()) && k < |old(stack)| == |old(parts)| == |old(places)| == |old(d).layers| &&
               known == 0 && Linked()
      requires stack == old(stack)[..k] + old(stack)[k + 1..] && parts == old(parts)[..k] + old(parts)[k + 1..]
      requires places == old(places)[..k] + old(places)[k + 1..]
      requires Repr == old(Repr) - {old(stack)[k]} - old(parts)[k] && d == Dropped(old(d), k)
      requires forall p | p in old(stack) :: p.Stays()
      requires unchanged(old(Repr) - {this} - set p | p in old(stack))
      ensures Valid() && Foreign(old(stack[k]))
    {
      hide Window.Valid, Screen.Valid, Screen.Repr, Linked, RawWin.Valid, RawDeck.Valid, Owns;
      OthersKept();
      Released(k);
      OwnsLeft(k);
    }

    /** The other panels own their windows as before. */
    twostate lemma OwnsLeft(k: nat)
      requires old(Valid()) && k < |old(stack)| == |old(parts)| == |old(places)| == |old(d).layers|
      requires stack == old(stack)[..k] + old(stack)[k + 1..] && parts == old(parts)[..k] + old(parts)[k + 1..]
      requires places == old(places)[..k] + old(places)[k + 1..] && d == Dropped(old(d), k)
      requires forall p | p in old(stack) :: p.Stays()
      requires forall i | 0 <= i < |old(parts)| && i != k :: unchanged(old(parts)[i])
      ensures forall j | 0 <= j < |stack| :: Owns(j)
    {
      hide Window.Valid, Screen.Valid, Screen.Repr, Linked, Listed, RawWin.Valid, RawDeck.Valid, Owns;
      forall j | 0 <= j < |stack|
        ensures Owns(j)
      {
        if j < k {
          OwnsStays(j);
        } else {
          OwnsDown(j);
        }
      }
    }

    /** An unlinked panel keeps its window. */
    twostate lemma Released(k: nat)
      requires old(Valid()) && k < |old(stack)| == |old(parts)| == |old(d).layers|
      requires Repr == old(Repr) - {old(stack)[k]} - old(parts)[k]
      requires old(stack)[k].Stays() && unchanged(old(Repr) - {this} - set p | p in old(stack))
      ensures Foreign(old(stack[k])) && old(stack[k]).win.m == old(d).layers[k] &&
              old(stack[k]).win.Repr == old(parts)[k]
    {
      hide Window.Valid, Screen.Valid, Linked, Listed, RawWin.Valid;
      assert old(Owns(k));
    }

    /** Put a panel on top of the deck. */
    method LinkAbove(pan: Panel)
      requires Valid() && Foreign(pan) && Inside(pan.win.m, d.cur)
      modifies pan, this, set p | p in stack
      ensures Valid() && known == 0 && stack == old(stack) + [pan] && Repr == old(Repr) + {pan} + old(pan.win.Repr)
      ensures pan.win == old(pan.win)
      ensures d == old(d).(layers := old(d).layers + [old(pan.win.m)])
    {
      hide *;
      Chained();
      Strange(pan);
      ChainAbove(pan);
      parts, places := parts + [pan.win.Repr], places + [pan.Place()];
      Repr := Repr + {pan} + pan.win.Repr;
      DeckGrows(d, pan.win.m);
      d := d.(layers := d.layers + [pan.win.m]);
      known := 0;
      GrownAbove(pan);
      StaysMeans(pan);
    }

    lemma Strange(pan: Panel)
      requires Valid() && Foreign(pan)
      ensures pan !in stack && pan !in Repr && this !in pan.win.Repr && pan.win in pan.win.Repr &&
              pan !in pan.win.Repr && this in Repr
      ensures pan.win.Repr !! Repr && forall p | p in stack :: p in Repr && p !in pan.win.Repr
    {
    }

    /** Put a panel under the deck. */
    method LinkUnder(pan: Panel)
      requires Valid() && Foreign(pan) && Inside(pan.win.m, d.cur)
      modifies pan, this, set p | p in stack
      ensures Valid() && known == 0 && stack == [pan] + old(stack) && Repr == old(Repr) + {pan} + old(pan.win.Repr)
      ensures pan.win == old(pan.win)
      ensures d == old(d).(layers := [old(pan.win.m)] + old(d).layers)
    {
      hide *;
      Chained();
      Strange(pan);
      ChainBelow(pan);
      parts, places := [pan.win.Repr] + parts, [pan.Place()] + places;
      Repr := Repr + {pan} + pan.win.Repr;
      DeckGrows(d, pan.win.m);
      d := d.(layers := [pan.win.m] + d.layers);
      known := 0;
      GrownBelow(pan);
      StaysMeans(pan);
    }

    /** Take a panel out of the deck. */
    method LinkOut(pan: Panel, ghost k: nat)
      requires Valid() && k < |stack| == |parts| == |d.layers| && stack[k] == pan
      modifies this, set p | p in stack
      ensures Valid() && known == 0 && stack == old(stack)[..k] + old(stack)[k + 1..]
      ensures Repr == old(Repr) - {pan} - old(parts)[k] && d == Dropped(old(d), k)
      ensures pan !in stack && Foreign(pan) && pan.win == old(pan.win) && pan.win.m == old(d).layers[k]
      ensures pan.win.Repr == old(parts)[k]
    {
      hide *;
      Chained();
      Holds(k);
      ChainOut(pan, k);
      parts, places := parts[..k] + parts[k + 1..], places[..k] + places[k + 1..];
      Repr := Repr - {pan} - old(parts)[k];
      d := Dropped(d, k);
      known := 0;
      ShrunkOut(k);
      Released(k);
      StaysMeans(pan);
    }

    twostate lemma StaysMeans(p: Panel)
      requires p.Stays()
      ensures p.win == old(p.win)
    {
    }

    method LinkTop(pan: Panel)
      requires Valid() && Foreign(pan) && Inside(pan.win.m, d.cur)
      modifies Repr, pan, pan.win.Repr
      ensures Ready() && stack == old(stack) + [pan] && Repr == old(Repr) + {pan} + old(pan.win.Repr)
      ensures d == Model.LinkTop(old(d), old(pan.win.m)) && pan.win == old(pan.win)
    {
      hide *;
      Strange(pan);
      DeckGrows(d, pan.win.m);
      InRepr();
      LinkAbove(pan);
      InRepr();
      CalculateObscure();
    }

    method LinkBottom(pan: Panel)
      requires Valid() && Foreign(pan) && Inside(pan.win.m, d.cur)
      modifies Repr, pan, pan.win.Repr
      ensures Ready() && stack == [pan] + old(stack) && Repr == old(Repr) + {pan} + old(pan.win.Repr)
      ensures d == Model.LinkBottom(old(d), old(pan.win.m)) && pan.win == old(pan.win)
    {
      hide *;
      Strange(pan);
      DeckGrows(d, pan.win.m);
      InRepr();
      LinkUnder(pan);
      InRepr();
      CalculateObscure();
    }

    // -------------------------------------------------------------- the library

    /** _panel_is_linked. */
    method IsLinked(pan: Panel) returns (r: bool)
      requires Valid()
      ensures r <==> pan in stack
    {
      hide *;
      Base();
      AtBounds(0);
      var pan2 := bottom;
      ghost var j := 0;
      while pan2 != null
        invariant 0 <= j <= |stack| && pan2 == PanelAt(j) && forall i | 0 <= i < j :: stack[i] != pan
        decreases |stack| - j
      {
        AtBounds(j);
        if pan2 == pan {
          return true;
        }
        Holds(j);
        pan2 := pan2.above;
        j := j + 1;
        AtBounds(j);
      }
      AtBounds(j);
      return false;
    }

    /** A linked panel's place in the deck. */
    ghost function Index(pan: Panel): (k: nat)
      requires pan in stack
      reads `stack
      ensures k < |stack| && stack[k] == pan
    {
      var k :| 0 <= k < |stack| && stack[k] == pan;
      k
    }

    /** _panel_unlink. */
    method Unlink(pan: Panel, ghost k: nat)
      requires Ready() && k < |stack| == |parts| == |d.layers| && stack[k] == pan
      modifies Repr
      ensures Ready() && stack == old(stack)[..k] + old(stack)[k + 1..] && Repr == old(Repr) - {pan} - old(parts)[k]
      ensures d == Model.Unlink(old(d), k)
      ensures pan !in stack && Foreign(pan) && pan.win == old(pan.win) && pan.win.m == TouchWin(old(d).layers[k])
      ensures pan.above == null && pan.below == null && pan.win.Repr == old(pan.win.Repr)
    {
      hide *;
      NowValid();
      InRepr();
      Holds(k);
      UnlinkIs(d, k);
      DisturbedTouch(d, k);
      Override(pan, 0, k);
      LinkOut(pan, k);
      label Out:
      Strange(pan);
      InRepr();
      CalculateObscure();
      NowValid();
      InRepr();
      ForeignKept@Out(pan);
      label Done:
      pan.above := null;
      pan.below := null;
      ForeignKept@Done(pan);
    }

    lemma NowValid()
      requires Ready()
      ensures Valid() && known == |stack|
    {
    }

    twostate lemma ForeignKept(pan: Panel)
      requires old(Foreign(pan)) && pan.win == old(pan.win) && pan.Place() == old(pan.Place())
      requires unchanged(old(pan.win.Repr)) && Repr <= old(Repr)
      ensures Foreign(pan) && pan.win.m == old(pan.win.m) && pan.win.Repr == old(pan.win.Repr)
    {
      hide Window.Valid;
    }

    /** A panel the library may be asked to show: linked, or with a window of its own on
        the screen. */
    ghost predicate Showable(pan: Panel)
      reads this, Repr, pan, pan.win, pan.win.Repr
    {
      pan in stack || (Foreign(pan) && Inside(pan.win.m, d.cur))
    }

    /** hide_panel. */
    method HidePanel(pan: Panel) returns (ok: bool)
      requires Ready() && (pan in stack || Foreign(pan))
      modifies Repr, pan
      ensures Ready() && Foreign(pan) && pan !in stack && pan.win == old(pan.win) && pan.above == null &&
              pan.below == null
      ensures pan.win.Repr == old(pan.win.Repr) && (ok <==> pan in old(stack))
      ensures stack == Without(old(stack), pan)
      ensures if ok
              then d == Model.Unlink(old(d), old(Index(pan))) && pan.win.m == TouchWin(old(d).layers[old(Index(pan))])
              else d == old(d) && pan.win.m == old(pan.win.m)
      ensures Repr == if ok then old(Repr) - {pan} - old(parts)[old(Index(pan))] else old(Repr)
    {
      hide *;
      NowValid();
      Chained();
      ok := IsLinked(pan);
      if !ok {
        WithoutNone(stack, pan);
        Strange(pan);
        label Before:
        pan.above := null;
        pan.below := null;
        ForeignKept@Before(pan);
      } else {
        ghost var k := Index(pan);
        WithoutAt(pan, k);
        Unlink(pan, k);
      }
    }

    lemma WithoutAt(pan: Panel, k: nat)
      requires Simple() && k < |stack| && stack[k] == pan
      ensures Without(stack, pan) == stack[..k] + stack[k + 1..]
    {
      WithoutIs(stack, pan, k);
    }

    /** del_panel; the record itself is freed. */
    method DelPanel(pan: Panel)
      requires Ready() && (pan in stack || Foreign(pan))
      modifies Repr, pan
      ensures Ready() && stack == Without(old(stack), pan) && Foreign(pan)
      ensures d == if pan in old(stack) then Model.Unlink(old(d), old(Index(pan))) else old(d)
    {
      hide *;
      NowValid();
      Chained();
      var linked := IsLinked(pan);
      if linked {
        var ok := HidePanel(pan);
      } else {
        WithoutNone(stack, pan);
      }
    }

    /** show_panel and top_panel. */
    method ShowPanel(pan: Panel)
      requires Ready() && Showable(pan)
      modifies Repr, pan, pan.win.Repr
      ensures Ready() && stack == Without(old(stack), pan) + [pan] && pan.win == old(pan.win)
      ensures d == if pan in old(stack) then ShowAt(old(d), old(Index(pan))) else Model.LinkTop(old(d), old(pan.win.m))
    {
      hide *;
      NowValid();
      ShowableIs(pan);
      Base();
      if pan == top {
        TopIs(pan);
        return;
      }
      var linked := IsLinked(pan);
      if linked {
        ShowIs(pan);
        var ok := HidePanel(pan);
      } else {
        WithoutNone(stack, pan);
      }
      NowValid();
      LinkTop(pan);
    }

    /** bottom_panel. */
    method BottomPanel(pan: Panel)
      requires Ready() && Showable(pan)
      modifies Repr, pan, pan.win.Repr
      ensures Ready() && stack == [pan] + Without(old(stack), pan) && pan.win == old(pan.win)
      ensures d == if pan in old(stack) then BottomAt(old(d), old(Index(pan)))
                   else Model.LinkBottom(old(d), old(pan.win.m))
    {
      hide *;
      NowValid();
      ShowableIs(pan);
      Base();
      if pan == bottom {
        BottomIs(pan);
        return;
      }
      var linked := IsLinked(pan);
      if linked {
        ShowIs(pan);
        var ok := HidePanel(pan);
      } else {
        WithoutNone(stack, pan);
      }
      NowValid();
      LinkBottom(pan);
    }

    lemma ShowableIs(pan: Panel)
      requires Valid() && Showable(pan)
      ensures pan in stack || (Foreign(pan) && Inside(pan.win.m, d.cur))
      ensures pan in stack ==> Index(pan) < |d.layers|
    {
    }

    /** What happens to a linked panel's window when the panel is shown again. */
    lemma ShowIs(pan: Panel)
      requires Valid() && pan in stack
      ensures var k := Index(pan);
              && k < |d.layers| && Inside(TouchWin(d.layers[k]), Model.Unlink(d, k).cur) && pan in Repr
              && (pan != top ==> ShowAt(d, k) == Model.LinkTop(Model.Unlink(d, k), TouchWin(d.layers[k])))
              && (pan != bottom ==> BottomAt(d, k) == Model.LinkBottom(Model.Unlink(d, k), TouchWin(d.layers[k])))
    {
    }

    lemma TopIs(pan: Panel)
      requires Valid() && pan == top
      ensures pan in stack && stack == Without(stack, pan) + [pan]
      ensures |d.layers| == |stack| && ShowAt(d, Index(pan)) == d
    {
      WithoutAt(pan, |stack| - 1);
      PlaceIs(Index(pan), |stack| - 1);
    }

    lemma BottomIs(pan: Panel)
      requires Valid() && pan == bottom
      ensures pan in stack && stack == [pan] + Without(stack, pan)
      ensures |d.layers| == |stack| && BottomAt(d, Index(pan)) == d
    {
      WithoutAt(pan, 0);
      PlaceIs(Index(pan), 0);
    }

    /** update_panels. */
    method UpdatePanels()
      requires Ready()
      modifies Panes(), scr, `d
      ensures Ready() && d == Model.UpdatePanels(old(d))
      ensures Sound(old(d)) ==> Painted(d) && Sound(d) && SamePicture(old(d), d)
    {
      hide *;
      NowValid();
      Base();
      InRepr();
      AtBounds(0);
      ghost var d0 := d;
      PropagateStart(d0);
      var pan := bottom;
      ghost var i := 0;
      while pan != null
        invariant Valid() && 0 <= i <= |stack| == |d.layers| == |d0.layers| == known && pan == PanelAt(i) &&
                  d == Propagate(d0, i)
        decreases |stack| - i
      {
        AtBounds(i);
        InRepr();
        PropagateNext(d0, i);
        Override(pan, -1, i);
        Holds(i);
        pan := pan.above;
        i := i + 1;
        AtBounds(i);
      }
      AtBounds(i);
      UpdatePanelsIs(d0);
      RepaintAll(d);
      NowReady();
      if Sound(d0) {
        PainterTheorem(d0);
      }
    }

    /** The second half of update_panels: refresh what is touched, and the topmost panel. */
    method RepaintAll(ghost p: Model.Deck)
      requires Valid() && d == p
      modifies Panes(), scr, `d
      ensures Valid() && |p.layers| == |stack| && d == PaintTo(p, |stack|)
    {
      hide *;
      Base();
      InRepr();
      PaintStart(p);
      var touched := stdscr.IsWinTouched();
      TouchedMeans(stdscr);
      if touched {
        RefreshStd();
      }
      var pan := bottom;
      ghost var i := 0;
      AtBounds(0);
      while pan != null
        invariant Valid() && 0 <= i <= |stack| == |d.layers| == |p.layers| && pan == PanelAt(i) && d == PaintTo(p, i)
        decreases |stack| - i
      {
        AtBounds(i);
        InRepr();
        PaintNext(p, i);
        RepaintPan(pan, i);
        Holds(i);
        pan := pan.above;
        i := i + 1;
      }
      AtBounds(i);
      Base();
    }

    /** Refresh a panel if it is touched or the topmost. */
    method RepaintPan(pan: Panel, ghost i: nat)
      requires Valid() && i < |stack| == |d.layers| && stack[i] == pan
      modifies Panes(), scr, `d
      ensures Valid() && d == PaintLayer(old(d), i) && |d.layers| == |stack|
    {
      hide *;
      AtBounds(i + 1);
      Holds(i);
      InRepr();
      PaneOf(i);
      PaintLayerIs(d, i);
      var touched := pan.win.IsWinTouched();
      TouchedMeans(pan.win);
      if touched || pan.above == null {
        RefreshPan(pan, i);
      }
      Base();
    }

    lemma TouchedMeans(w: Window)
      ensures AnyTouched(w.m) <==> exists r | 0 <= r < w.m.maxy :: w.m.Touched(r)
    {
    }

    // -------------------------------------------------------------- moving and replacing

    /** Panel k has been given another window or another place. */
    twostate lemma Reseated(k: nat)
      requires old(Valid()) && k < |stack| == |parts| == |places| == |old(parts)| && known == 0
      requires unchanged(`stack, `bottom, `top)
      requires parts == old(parts)[k := parts[k]] && places == old(places)[k := places[k]] && |d.layers| == |stack|
      requires d == old(d).(layers := old(d).layers[k := d.layers[k]]) && Owns(k)
      requires parts[k] == old(parts)[k] || (parts[k] !! old(Repr) && stack[k] !in parts[k])
      requires Repr == old(Repr) - old(parts)[k] + parts[k]
      requires stack[k].StaysLinked()
      requires unchanged(old(Repr) - {this, stack[k]} - old(parts)[k])
      ensures Valid()
    {
      hide Window.Valid, Screen.Valid, Screen.Repr, Owns, ListedAt, RawWin.Valid, RawDeck.Valid;
      ScreenKept();
      StdKept();
      forall i | 0 <= i < |stack|
        ensures Owns(i)
      {
        if i != k {
          OwnsStays(i);
        }
      }
      forall i | 0 <= i < |stack|
        ensures LinkedAt(i)
      {
        assert old(LinkedAt(i));
      }
    }

    /** mvwin and the new place, if the window fits. */
    method MoveWin(pan: Panel, y: int, x: int, ghost k: nat) returns (ok: bool)
      requires Valid() && k < |stack| == |parts| == |d.layers| && stack[k] == pan
      modifies parts[k], pan, `d, `places, `known
      ensures Valid() && (ok ==> known == 0) && (!ok ==> known == old(known)) && pan.win == old(pan.win)
      ensures var m := MvWin(old(d).layers[k], y, x, d.cur.maxy, d.cur.maxx);
              ok == m.ok && d == old(d).(layers := old(d).layers[k := m.win])
    {
      hide Window.Valid, Screen.Valid, RawWin.Valid, RawDeck.Valid, Linked, Listed, MvWin, Owned, Owns, Apart, Valid,
           Inside, Screen.Repr;
      Holds(k);
      ok := PutAt(pan, y, x, k);
      if ok {
        Reseated(k);
      } else {
        LayerWritten(k);
      }
    }

    /** The window, the record and the ghost state after mvwin. */
    method PutAt(pan: Panel, y: int, x: int, ghost k: nat) returns (ok: bool)
      requires Valid() && k < |stack| == |parts| == |d.layers| && stack[k] == pan
      modifies parts[k], pan, `d, `places, `known
      ensures k < |stack| == |parts| == |places| && |d.layers| == |stack| && pan.win == old(pan.win) && Owns(k)
      ensures var m := MvWin(old(d).layers[k], y, x, d.cur.maxy, d.cur.maxx);
              ok == m.ok && d == old(d).(layers := old(d).layers[k := m.win])
      ensures places == old(places)[k := places[k]] && parts[k] == old(parts)[k] && pan.StaysLinked()
      ensures if ok then known == 0 else known == old(known) && unchanged(pan, `places)
    {
      hide Window.Valid, Screen.Valid, RawWin.Valid, RawDeck.Valid, Linked, Listed, MvWin, Owned, Apart, Valid, Inside,
           Screen.Repr;
      MvInside(d, k, y, x);
      Holds(k);
      ScreenExtent();
      RefusedSame(d.layers[k], y, x, d.cur.maxy, d.cur.maxx);
      ok := pan.win.MvWin(y, x, screen.adapter.lines, screen.adapter.cols);
      d := d.(layers := d.layers[k := pan.win.m]);
      if ok {
        pan.Settle();
        places := places[k := pan.Place()];
        known := 0;
      }
      assert Owns(k);
    }

    lemma ScreenExtent()
      requires Valid()
      ensures screen.adapter.lines == d.cur.maxy && screen.adapter.cols == d.cur.maxx
    {
      hide Window.Valid, RawWin.Valid, Owns, Linked, Listed;
      ScreenSize();
    }

    lemma ScreenSize()
      requires screen.Valid()
      ensures screen.adapter.lines == screen.curscr.m.maxy && screen.adapter.cols == screen.curscr.m.maxx
    {
    }

    /** move_panel. When the window does not fit, the panel and its neighbours have been
        touched already. */
    method MovePanel(pan: Panel, y: int, x: int) returns (ok: bool)
      requires Ready() && (pan in stack || Foreign(pan))
      modifies Repr, pan, pan.win.Repr
      ensures Ready() && stack == old(stack) && pan.win == old(pan.win)
      ensures if pan in stack
              then var k := old(Index(pan));
                   d == MoveLayer(old(d), k, y, x) && (ok <==> Fits(old(d), old(d).layers[k], y, x))
              else Foreign(pan) && d == old(d) &&
                   Outcome(pan.win.m, ok) == MvWin(old(pan.win.m), y, x, d.cur.maxy, d.cur.maxx)
    {
      hide *;
      NowValid();
      Chained();
      InRepr();
      var linked := IsLinked(pan);
      if linked {
        ok := MoveLinked(pan, y, x, Index(pan));
      } else {
        Strange(pan);
        ok := MoveForeign(pan, y, x);
        NowReady();
      }
    }

    /** The same for a linked panel. */
    method MoveLinked(pan: Panel, y: int, x: int, ghost k: nat) returns (ok: bool)
      requires Ready() && k < |stack| == |d.layers| && stack[k] == pan
      modifies Repr, pan
      ensures Ready() && stack == old(stack) && pan.win == old(pan.win)
      ensures d == MoveLayer(old(d), k, y, x) && (ok <==> Fits(old(d), old(d).layers[k], y, x))
    {
      hide *;
      NowValid();
      Chained();
      InRepr();
      Holds(k);
      MoveIs(d, k, y, x);
      Override(pan, 0, k);
      ok := MoveWin(pan, y, x, k);
      Holds(k);
      if ok {
        InRepr();
        CalculateObscure();
      } else {
        SameDeck(Disturbed(old(d), k), k);
        NowReady();
      }
    }

    lemma SameDeck(e: Model.Deck, k: nat)
      requires k < |e.layers|
      ensures e.layers[k := e.layers[k]] == e.layers
    {
    }

    /** The same for a panel that is not linked. */
    method MoveForeign(pan: Panel, y: int, x: int) returns (ok: bool)
      requires Valid() && Foreign(pan)
      modifies pan, pan.win.Repr
      ensures Valid() && known == old(known) && Foreign(pan) && pan.win == old(pan.win)
      ensures Outcome(pan.win.m, ok) == MvWin(old(pan.win.m), y, x, d.cur.maxy, d.cur.maxx)
    {
      hide Window.Valid, Screen.Valid, RawWin.Valid, Valid, MvWin;
      Strange(pan);
      Base();
      ScreenSize();
      RefusedSame(pan.win.m, y, x, d.cur.maxy, d.cur.maxx);
      ok := pan.win.MvWin(y, x, screen.adapter.lines, screen.adapter.cols);
      if ok {
        pan.Settle();
      }
    }

    lemma RefusedSame(w: Win, y: int, x: int, lines: int, cols: int)
      ensures var m := MvWin(w, y, x, lines, cols); !m.ok ==> m.win == w
    {
    }

    /** replace_panel. */
    method ReplacePanel(pan: Panel, win: Window)
      requires Ready() && (pan in stack || Foreign(pan))
      requires win.Valid() && win in win.Repr && win.Repr !! Repr && pan !in win.Repr && Inside(win.m, d.cur)
      modifies Repr, pan, win.Repr
      ensures Ready() && stack == old(stack) && pan.win == win
      ensures if pan in stack then d == Model.Replace(old(d), old(Index(pan)), old(win.m))
              else Foreign(pan) && d == old(d)
    {
      hide *;
      NowValid();
      Chained();
      InRepr();
      var linked := IsLinked(pan);
      if linked {
        ReplaceLinked(pan, win, Index(pan));
      } else {
        Strange(pan);
        pan.win := win;
        pan.Settle();
        NowForeign(pan);
      }
    }

    /** The same for a linked panel. */
    method ReplaceLinked(pan: Panel, win: Window, ghost k: nat)
      requires Ready() && k < |stack| == |d.layers| && stack[k] == pan
      requires win.Valid() && win in win.Repr && win.Repr !! Repr && Inside(win.m, d.cur)
      modifies Repr, pan, win.Repr
      ensures Ready() && stack == old(stack) && pan.win == win && d == Model.Replace(old(d), k, old(win.m))
    {
      hide *;
      NowValid();
      Chained();
      InRepr();
      Holds(k);
      DisturbedTouch(d, k);
      ReplaceIs(d, k, win.m);
      Override(pan, 0, k);
      SetWin(pan, win, k);
      InRepr();
      CalculateObscure();
    }

    lemma NowForeign(pan: Panel)
      requires pan !in Repr && pan.win.Repr !! Repr && pan !in pan.win.Repr && pan.win in pan.win.Repr
      requires pan.win.Valid() && pan.Place() == RectOf(pan.win.m)
      ensures Foreign(pan)
    {
    }

    /** Give a linked panel another window. */
    method SetWin(pan: Panel, win: Window, ghost k: nat)
      requires Valid() && k < |stack| == |parts| == |d.layers| && stack[k] == pan
      requires win.Valid() && win in win.Repr && win.Repr !! Repr && Inside(win.m, d.cur)
      modifies pan, `d, `places, `known, `parts, `Repr
      ensures Valid() && known == 0 && Repr == old(Repr) - old(parts)[k] + win.Repr && pan.win == win
      ensures d == old(d).(layers := old(d).layers[k := win.m])
    {
      hide Window.Valid, Screen.Valid, RawWin.Valid, RawDeck.Valid, Linked, Listed, Owned, Owns, Apart, Valid, Inside,
           Screen.Repr;
      PutWin(pan, win, k);
      Reseated(k);
    }

    /** The record and the ghost state with the new window. */
    method PutWin(pan: Panel, win: Window, ghost k: nat)
      requires Valid() && k < |stack| == |parts| == |d.layers| && stack[k] == pan
      requires win.Valid() && win in win.Repr && win.Repr !! Repr && Inside(win.m, d.cur)
      modifies pan, `d, `places, `known, `parts, `Repr
      ensures k < |stack| == |parts| == |places| == |old(parts)| && known == 0 && pan.win == win &&
              win.m == old(win.m) && |d.layers| == |stack|
      ensures parts == old(parts)[k := win.Repr] && places == old(places)[k := places[k]] && Owns(k)
      ensures d == old(d).(layers := old(d).layers[k := win.m]) && win.Repr == old(win.Repr)
      ensures Repr == old(Repr) - old(parts)[k] + win.Repr && pan.StaysLinked() && pan !in win.Repr
    {
      hide Window.Valid, Screen.Valid, RawWin.Valid, RawDeck.Valid, Linked, Listed, Owned, Panel.Fitted, Apart, Valid,
           Inside, Screen.Repr, Panel.Place, RectOf, Rects, PanelAt, Panes, LinkedAt, MvWin;
      Holds(k);
      Member(k);
      pan.Occupy(win);
      d := Seated(d, k, win.m);
      parts, places := parts[k := win.Repr], places[k := pan.Place()];
      Repr := Repr - old(parts)[k] + win.Repr;
      known := 0;
      assert Owns(k);
    }

    /** new_panel, with the show_panel at its end. */
    method NewPanel(win: Window) returns (pan: Panel)
      requires Ready() && win.Valid() && win in win.Repr && win.Repr !! Repr && Inside(win.m, d.cur)
      modifies Repr, win.Repr
      ensures Ready() && fresh(pan) && pan.win == win && stack == old(stack) + [pan]
      ensures d == Model.LinkTop(old(d), old(win.m))
    {
      hide *;
      NowValid();
      InRepr();
      pan := new Panel(win);
      NowForeign(pan);
      Strange(pan);
      WithoutNone(stack, pan);
      ShowsForeign(pan);
      ShowPanel(pan);
    }

    lemma ShowsForeign(pan: Panel)
      requires Foreign(pan) && Inside(pan.win.m, d.cur)
      ensures Showable(pan)
    {
    }
  }

  /** Perform a drawing operation on a window. */
  method Perform(raw: bool, win: Window, op: DrawOp)
    requires win.Valid()
    modifies win.Repr
    ensures win.Valid() && win.Repr == old(win.Repr) && win.m == Apply(raw, old(win.m), op)
  {
    hide Window.Valid, RawWin.Valid, Move, SetScrReg, TouchWin, TouchLine, AddCh, AddStr, Plain, CText, AddChNStr,
         ClrToEol, ClrToBot, Erase, Clear, Edited, With;
    win.FieldsAgree();
    var ok := true;
    match op
    case OpMove(y, x) => ok := win.Move(y, x);
    case OpSetScrReg(t, b) => ok := win.SetScrReg(t, b);
    case OpTouchWin => win.TouchWin();
    case OpTouchLine(s, c) => ok := win.TouchLine(s, c);
    case OpAddCh(ch) => ok := win.AddCh(raw, ch);
    case OpAddStr(str, n) => ok := win.AddStr(raw, str, n);
    case OpAddChNStr(s, n) => ok := win.AddChNStr(s, n);
    case OpClrToEol => win.ClrToEol();
    case OpClrToBot => win.ClrToBot();
    case OpErase => win.Erase();
    case OpClear => win.Clear();
    case OpEdit(e) => Edit(raw, win, e);
    case OpSet(s) => Change(win, s);
  }

  method Edit(raw: bool, win: Window, e: EditOp)
    requires win.Valid()
    modifies win.Repr
    ensures win.Valid() && win.Repr == old(win.Repr) && win.m == Edited(raw, old(win.m), e)
  {
    hide Window.Valid, RawWin.Valid, Scroll, DeleteLn, InsertLn, InsDelLn, InsCh, DelCh, ChgAt, HLine, VLine, Border,
         Bkgd;
    var ok := true;
    match e
    case OpScroll(n) => ok := win.Scroll(n);
    case OpDeleteLn => win.DeleteLn();
    case OpInsertLn => win.InsertLn();
    case OpInsDelLn(n) => win.InsDelLn(n);
    case OpInsCh(ch) => win.InsCh(raw, ch);
    case OpDelCh => win.DelCh();
    case OpChgAt(n, a, c) => win.ChgAt(n, a, c);
    case OpHLine(ch, n) => ok := win.HLine(ch, n);
    case OpVLine(ch, n) => ok := win.VLine(ch, n);
    case OpBorder(f) => win.Border(f);
    case OpBkgd(ch) => win.Bkgd(ch);
  }

  /** Set attributes, background or flags of a window. */
  method Change(win: Window, s: Setting)
    requires win.Valid()
    modifies win
    ensures win.Valid() && win.Repr == old(win.Repr) && win.m == With(old(win.m), s)
  {
    hide Window.Valid, RawWin.Valid, Background, AttrOn, AttrOff;
    match s
    case AttrsOff(a) => win.AttrOff(a);
    case AttrsOn(a) => win.AttrOn(a);
    case AttrsSet(a) => win.AttrSet(a);
    case ColorSet(p) => win.ColorSet(p);
    case BkgdSet(ch) => win.BkgdSet(ch);
    case ScrollOk(bf) => win.ScrollOk(bf);
    case LeaveOk(bf) => win.LeaveOk(bf);
    case ClearOk(bf) => win.ClearOk(bf);
  }
}
