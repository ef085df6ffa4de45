/** color.c in place: pair_set and the pair table, changed together with curscr's
    clear flag. */
module ColorTables {
  import opened Cells
  import opened WindowModel
  import opened Damage
  import opened Adapters
  import opened Windows
  import opened Screens
  import opened Colors
  import Model = Colors

  class ColorTable {
    const screen: Screen
    var started: bool
    /** COLORS. */
    var colors: int
    var firstCol: int
    var defaults: bool
    var orig: Original
    const pairSet: array<bool>

    ghost function Pal(): Palette
      reads this, pairSet
    {
      Palette(started, colors, firstCol, defaults, orig, pairSet[..])
    }

    ghost predicate Valid()
      reads this, pairSet, screen, screen.curscr, screen.lastscr
    {
      Pal().Valid() && {this, pairSet} !! screen.Repr()
    }

    /** The state of color.c after initscr. */
    constructor (screen: Screen, colors: int, orig: Original)
      requires 0 <= colors <= 16
      ensures Valid() && this.screen == screen
      ensures Pal() == Palette(false, colors, 0, false, orig, Fill(false, 256))
    {
      this.screen, this.colors, this.orig := screen, colors, orig;
      started, firstCol, defaults := false, 0, false;
      pairSet := new bool[256](_ => false);
      new;
      assert pairSet[..] == Fill(false, 256);
    }

    /** What was in step with the display stays so if its cells look the same. */
    lemma StaysInSync(before: Config, was: Win)
      requires screen.Parts() && before.Valid()
      requires screen.curscr.m.cells == was.cells && screen.curscr.m == was.(clear := screen.curscr.m.clear)
      requires screen.curscr.m.clear || LooksSame(before, screen.cfg, screen.lastscr.m.cells)
      requires was.clear || !screen.alive ||
               (Displays(before, screen.adapter.shown, screen.lastscr.m.cells) && Covers(was, screen.lastscr.m.cells))
      requires was.clear ==> screen.curscr.m.clear
      ensures screen.Valid()
    {
      hide Window.Valid, Adapter.Valid, Render, RawWin.Valid, LooksSame, Displays, Covers;
      if !screen.curscr.m.clear && screen.alive {
        SameLooks(before, screen.cfg, screen.adapter.shown, screen.lastscr.m.cells);
      }
    }

    /** PDC_init_atrtab, with its loop over the pairs. */
    method InitTable(col: Color)
      requires screen.Parts()
      modifies screen`cfg
      ensures screen.Parts() && screen.cfg == old(screen.cfg).(pairs := Fill(col, 256))
    {
      hide Window.Valid, Adapter.Valid, RawWin.Valid;
      ghost var cfg := screen.cfg;
      var i := 0;
      while i < 256
        invariant 0 <= i <= 256 && screen.Parts()
        invariant screen.cfg == cfg.(pairs := Fill(col, i) + cfg.pairs[i..])
      {
        screen.cfg := screen.cfg.(pairs := screen.cfg.pairs[i := col]);
        i := i + 1;
        assert screen.cfg.pairs == Fill(col, i) + cfg.pairs[i..];
      }
      assert Fill(col, 256) + cfg.pairs[256..] == Fill(col, 256);
    }

    /** PDC_set_blink(FALSE), as far as the attributes go. */
    method BlinkOff(colors: int)
      requires screen.Parts()
      modifies screen`cfg
      ensures screen.Parts()
      ensures screen.cfg ==
              old(screen.cfg).(termattrs := if colors == 16 then old(screen.cfg).termattrs & !BLINK
                                            else old(screen.cfg).termattrs)
    {
      hide Window.Valid, Adapter.Valid, RawWin.Valid;
      if colors == 16 {
        screen.cfg := screen.cfg.(termattrs := screen.cfg.termattrs & !BLINK);
      }
    }

    /** memset of pair_set. */
    method Forget()
      requires Valid()
      modifies pairSet
      ensures Valid() && Pal() == old(Pal()).(isSet := Fill(false, 256))
    {
      forall i | 0 <= i < 256 {
        pairSet[i] := false;
      }
      assert pairSet[..] == Fill(false, 256);
    }

    method Begin(colors: int, original: bool)
      requires Valid() && screen.Parts() && (colors == 8 || colors == 16)
      modifies this
      ensures Valid() && screen.Parts() && Pal() == Started(old(Pal()), colors, original)
    {
      hide Screen.Parts;
      started, this.colors := true, colors;
      if !defaults && orig.Original? && original {
        defaults := true;
      }
    }

    /** start_color on a colour adapter. */
    method StartColor(colors: int, original: bool)
      requires Valid() && screen.Parts() && (colors == 8 || colors == 16)
      modifies this, pairSet, screen`cfg
      ensures Valid() && screen.Parts()
      ensures var c := Model.StartColor(old(Pal()), old(screen.cfg), colors, original);
              Pal() == c.pal && screen.cfg == c.cfg
      ensures old(screen.Valid()) && LooksSame(old(screen.cfg), screen.cfg, screen.lastscr.m.cells) ==> screen.Valid()
    {
      hide Window.Valid, Adapter.Valid, RawWin.Valid, Screen.Parts, Render, LooksSame, Displays, Covers,
           Model.StartColor;
      ghost var cfg := screen.cfg;
      screen.Apart();
      Restart(colors, original);
      if old(screen.Valid()) && LooksSame(cfg, screen.cfg, screen.lastscr.m.cells) {
        StaysInSync(cfg, screen.curscr.m);
      }
    }

    method Restart(colors: int, original: bool)
      requires Valid() && screen.Parts() && (colors == 8 || colors == 16)
      modifies this, pairSet, screen`cfg
      ensures Valid() && screen.Parts()
      ensures var c := Model.StartColor(old(Pal()), old(screen.cfg), colors, original);
              Pal() == c.pal && screen.cfg == c.cfg
    {
      hide Window.Valid, Adapter.Valid, RawWin.Valid, Screen.Parts, BaseColor, Palette.Valid;
      Begin(colors, original);
      Repaint();
      Forget();
    }

    /** The pair table and the attributes follow the palette. */
    method Repaint()
      requires Valid() && screen.Parts()
      modifies screen`cfg
      ensures Valid() && screen.Parts() && Pal() == old(Pal())
      ensures screen.cfg == old(screen.cfg).(pairs := Fill(BaseColor(Pal()), 256),
                              termattrs := if Pal().colors == 16 then old(screen.cfg).termattrs & !BLINK
                                           else old(screen.cfg).termattrs)
    {
      hide Window.Valid, Adapter.Valid, RawWin.Valid, Screen.Parts, BaseColor, Palette.Valid;
      BlinkOff(colors);
      InitTable(BaseColor(Palette(started, colors, firstCol, defaults, orig, pairSet[..])));
    }

    /** The end of init_pair and assume_default_colors: a pair gets its colours, and if
        `watch` is on and they are new, everything will be repainted. */
    method Redefine(pair: int, col: Color, watch: bool)
      requires Valid() && screen.Parts() && 0 <= pair < 256
      modifies screen`cfg, screen.curscr.Repr
      ensures Valid() && screen.Parts() && screen.curscr.Repr == old(screen.curscr.Repr) && Pal() == old(Pal())
      ensures screen.cfg == old(screen.cfg).(pairs := old(screen.cfg).pairs[pair := col])
      ensures screen.curscr.m == old(screen.curscr.m).(clear := screen.curscr.m.clear)
      ensures screen.curscr.m.clear == (old(screen.curscr.m).clear || (watch && old(screen.cfg).pairs[pair] != col))
      ensures old(screen.Valid()) &&
              (screen.curscr.m.clear || LooksSame(old(screen.cfg), screen.cfg, screen.lastscr.m.cells)) ==>
                screen.Valid()
    {
      hide Window.Valid, Adapter.Valid, RawWin.Valid, Palette.Valid, LooksSame, Displays, Covers, Screen.Parts;
      ghost var cfg, was := screen.cfg, screen.curscr.m;
      screen.Apart();
      Enter(pair, col, watch);
      if old(screen.Valid()) && (screen.curscr.m.clear || LooksSame(cfg, screen.cfg, screen.lastscr.m.cells)) {
        StaysInSync(cfg, was);
      }
    }

    method Enter(pair: int, col: Color, watch: bool)
      requires screen.Parts() && 0 <= pair < 256
      modifies screen`cfg, screen.curscr.Repr
      ensures screen.Parts() && screen.curscr.Repr == old(screen.curscr.Repr)
      ensures screen.cfg == old(screen.cfg).(pairs := old(screen.cfg).pairs[pair := col])
      ensures screen.curscr.m ==
              old(screen.curscr.m).(clear := old(screen.curscr.m).clear ||
                                             (watch && old(screen.cfg).pairs[pair] != col))
    {
      hide Window.Valid, Adapter.Valid, RawWin.Valid;
      screen.Apart();
      if watch && screen.cfg.pairs[pair] != col {
        screen.curscr.ClearOk(true);
      }
      screen.cfg := screen.cfg.(pairs := screen.cfg.pairs[pair := col]);
    }

    /** The part of init_pair after its checks. */
    method SetPair(pair: int, col: Color)
      requires Valid() && screen.Parts() && 1 <= pair < 256
      modifies pairSet, screen`cfg, screen.curscr.Repr
      ensures Valid() && screen.Parts() && screen.curscr.Repr == old(screen.curscr.Repr)
      ensures Pal() == old(Pal()).(isSet := old(Pal()).isSet[pair := true])
      ensures screen.cfg == old(screen.cfg).(pairs := old(screen.cfg).pairs[pair := col])
      ensures screen.curscr.m == old(screen.curscr.m).(clear := screen.curscr.m.clear)
      ensures screen.curscr.m.clear ==
              (old(screen.curscr.m).clear || (old(pairSet[pair]) && old(screen.cfg).pairs[pair] != col))
      ensures old(screen.Valid()) &&
              (screen.curscr.m.clear || LooksSame(old(screen.cfg), screen.cfg, screen.lastscr.m.cells)) ==>
                screen.Valid()
    {
      hide Window.Valid, Adapter.Valid, RawWin.Valid, Config.Valid, LooksSame, Displays, Covers;
      Redefine(pair, col, pairSet[pair]);
      pairSet[pair] := true;
    }

    /** init_pair. */
    method InitPair(pair: int, fg: int, bg: int) returns (ok: bool)
      requires Valid() && screen.Parts()
      modifies pairSet, screen`cfg, screen.curscr.Repr
      ensures Valid() && screen.Parts() && screen.curscr.Repr == old(screen.curscr.Repr)
      ensures var c := Model.InitPair(old(Pal()), old(screen.cfg), pair, fg, bg);
              && Pal() == c.pal && screen.cfg == c.cfg && ok == c.ok
              && screen.curscr.m == old(screen.curscr.m).(clear := old(screen.curscr.m).clear || c.repaint)
      ensures ok ==> 0 <= pair < 256 && StandsFor(old(Pal()), fg, bg, screen.cfg.pairs[pair])
      ensures old(screen.Valid()) && AllUse(old(Pal()), screen.lastscr.m.cells) ==> screen.Valid()
    {
      hide Window.Valid, Adapter.Valid, Screen.Parts, Render, RawWin.Valid, AllUse, LooksSame, Displays, Covers,
           Normalize, StandsFor, OnlyPair;
      screen.Apart();
      InitPairKeeps(Pal(), screen.cfg, pair, fg, bg, screen.lastscr.m.cells);
      PairMeans(Pal(), screen.cfg, pair, fg, bg);
      if !started || pair < 1 || pair >= 256 || fg < firstCol || fg >= colors || bg < firstCol || bg >= colors {
        return false;
      }
      var col := Normalize(Palette(started, colors, firstCol, defaults, orig, pairSet[..]), fg, bg);
      SetPair(pair, col);
      return true;
    }

    /** assume_default_colors. */
    method AssumeDefaultColors(fg: int, bg: int) returns (ok: bool)
      requires Valid() && screen.Parts()
      modifies screen`cfg, screen.curscr.Repr
      ensures Valid() && screen.Parts() && screen.curscr.Repr == old(screen.curscr.Repr)
      ensures var c := DefaultColors(old(Pal()), old(screen.cfg), fg, bg);
              && Pal() == c.pal && screen.cfg == c.cfg && ok == c.ok
              && screen.curscr.m == old(screen.curscr.m).(clear := old(screen.curscr.m).clear || c.repaint)
      ensures ok && started ==> StandsFor(old(Pal()), fg, bg, screen.cfg.pairs[0])
      ensures old(screen.Valid()) && AllUse(old(Pal()), screen.lastscr.m.cells) ==> screen.Valid()
    {
      hide Window.Valid, Adapter.Valid, Screen.Parts, Render, RawWin.Valid, AllUse, LooksSame, Displays, Covers,
           Normalize, StandsFor, OnlyPair;
      screen.Apart();
      DefaultColorsKeeps(Pal(), screen.cfg, fg, bg, screen.lastscr.m.cells);
      DefaultColorsSet(Pal(), screen.cfg, fg, bg);
      if fg < -1 || fg >= colors || bg < -1 || bg >= colors {
        return false;
      }
      if started {
        var col := Normalize(Palette(started, colors, firstCol, defaults, orig, pairSet[..]), fg, bg);
        Redefine(0, col, true);
      }
      return true;
    }

    /** use_default_colors. */
    method UseDefaultColors() returns (ok: bool)
      requires Valid() && screen.Parts()
      modifies `firstCol, `defaults, screen`cfg, screen.curscr.Repr
      ensures Valid() && screen.Parts() && screen.curscr.Repr == old(screen.curscr.Repr)
      ensures var c := Model.UseDefaultColors(old(Pal()), old(screen.cfg));
              && Pal() == c.pal && screen.cfg == c.cfg && ok == c.ok
              && screen.curscr.m == old(screen.curscr.m).(clear := old(screen.curscr.m).clear || c.repaint)
      ensures old(screen.Valid()) && AllUse(old(Pal()), screen.lastscr.m.cells) ==> screen.Valid()
    {
      hide Screen.Parts, DefaultColors, Window.Valid;
      defaults, firstCol := true, -1;
      ok := AssumeDefaultColors(-1, -1);
    }
  }

  lemma SameLooks(before: Config, after: Config, shown: seq<seq<VCell>>, g: Grid)
    requires before.Valid() && after.Valid() && LooksSame(before, after, g)
    ensures Displays(before, shown, g) ==> Displays(after, shown, g)
  {
    hide Render;
    if Displays(before, shown, g) {
      forall r | 0 <= r < |g|
        ensures RenderRow(after, g[r]) == RenderRow(before, g[r])
      {
        assert forall x | 0 <= x < |g[r]| :: Render(after, g[r][x]) == Render(before, g[r][x]);
      }
    }
  }
}
