/** Colour pairs: how a change of the pair table forces a repaint. */
module Colors {
  import opened Cells
  import opened WindowModel
  import opened Adapters

  /** The state of color.c: whether colours have been started, COLORS, first_col,
      default_colors, the terminal's original colours if it had any, and pair_set, which
      tells the pairs that init_pair has set. */
  datatype Palette = Palette(started: bool, colors: int, firstCol: int, defaults: bool, orig: Original,
                             isSet: seq<bool>) {
    predicate Valid() { |isSet| == 256 && 0 <= colors <= 16 && -1 <= firstCol <= 0 }
  }

  datatype Original = NoOriginal | Original(fore: Nibble, back: Nibble)

  const COLOR_BLACK: Nibble := 0
  const COLOR_WHITE: Nibble := 7

  /** _normalize: -1 stands for the colour at startup. */
  function Normalize(pal: Palette, fg: int, bg: int): Color
    requires -1 <= fg < 16 && -1 <= bg < 16
  {
    Color(if fg == -1 then (if pal.orig.Original? then pal.orig.fore else COLOR_WHITE) else fg as bv8,
          if bg == -1 then (if pal.orig.Original? then pal.orig.back else COLOR_BLACK) else bg as bv8)
  }

  /** The result of init_pair or assume_default_colors: the palette, the pair table,
      whether it asks for a repaint, and the return value. */
  datatype Change = Change(pal: Palette, cfg: Config, repaint: bool, ok: bool)

  /** The colours PDC_init_atrtab gives every pair. */
  function BaseColor(pal: Palette): Color {
    if pal.started && !pal.defaults then Color(COLOR_WHITE, COLOR_BLACK) else Normalize(pal, -1, -1)
  }

  function Started(pal: Palette, colors: int, original: bool): Palette {
    pal.(started := true, colors := colors, defaults := pal.defaults || (pal.orig.Original? && original))
  }

  /** start_color on a colour adapter with 8 or 16 colours, where `original` tells
      whether PDC_ORIGINAL_COLORS is set: all pairs start over, none counts as set, and
      no repaint is asked for. */
  function StartColor(pal: Palette, cfg: Config, colors: int, original: bool): (c: Change)
    requires pal.Valid() && cfg.Valid() && (colors == 8 || colors == 16)
    ensures c.pal.Valid() && c.cfg.Valid()
  {
    var p := Started(pal, colors, original);
    Change(p.(isSet := Fill(false, 256)), cfg.(pairs := Fill(BaseColor(p), 256),
                   termattrs := if colors == 16 then cfg.termattrs & !BLINK else cfg.termattrs), false, true)
  }

  predicate Acceptable(pal: Palette, pair: int, fg: int, bg: int) {
    pal.started && 1 <= pair < 256 && pal.firstCol <= fg < pal.colors && pal.firstCol <= bg < pal.colors
  }

  function InitPair(pal: Palette, cfg: Config, pair: int, fg: int, bg: int): (c: Change)
    requires pal.Valid() && cfg.Valid()
    ensures c.pal.Valid() && c.cfg.Valid()
  {
    if !Acceptable(pal, pair, fg, bg) then Change(pal, cfg, false, false)
    else
      var col := Normalize(pal, fg, bg);
      Change(pal.(isSet := pal.isSet[pair := true]), cfg.(pairs := cfg.pairs[pair := col]),
             pal.isSet[pair] && cfg.pairs[pair] != col, true)
  }

  /** assume_default_colors redefines pair 0, which always counts as set. */
  function DefaultColors(pal: Palette, cfg: Config, fg: int, bg: int): (c: Change)
    requires pal.Valid() && cfg.Valid()
    ensures c.pal.Valid() && c.cfg.Valid()
  {
    if fg < -1 || fg >= pal.colors || bg < -1 || bg >= pal.colors then Change(pal, cfg, false, false)
    else if !pal.started then Change(pal, cfg, false, true)
    else
      var col := Normalize(pal, fg, bg);
      Change(pal, cfg.(pairs := cfg.pairs[0 := col]), cfg.pairs[0] != col, true)
  }

  /** use_default_colors. */
  function UseDefaultColors(pal: Palette, cfg: Config): (c: Change)
    requires pal.Valid() && cfg.Valid()
    ensures c.pal.Valid() && c.cfg.Valid()
  {
    DefaultColors(pal.(defaults := true, firstCol := -1), cfg, -1, -1)
  }

  // ---------------------------------------------------------------- what the calls set

  /** col is what a program means by the colour numbers fg and bg: themselves, or for -1 the
      terminal's original colour, and without one white in front and black behind. */
  predicate StandsFor(pal: Palette, fg: int, bg: int, col: Color) {
    && col.fore as int == (if fg >= 0 then fg else if pal.orig.Original? then pal.orig.fore as int else 7)
    && col.back as int == (if bg >= 0 then bg else if pal.orig.Original? then pal.orig.back as int else 0)
  }

  lemma NormalizeStands(pal: Palette, fg: int, bg: int)
    requires -1 <= fg < 16 && -1 <= bg < 16
    ensures StandsFor(pal, fg, bg, Normalize(pal, fg, bg))
  {
  }

  /** Only pair `pair` of the table has other colours. */
  ghost predicate OnlyPair(cfg: Config, after: Config, pair: int) {
    && |after.pairs| == |cfg.pairs| && after == cfg.(pairs := after.pairs)
    && forall p | 0 <= p < |cfg.pairs| && p != pair :: after.pairs[p] == cfg.pairs[p]
  }

  /** init_pair takes colour numbers below COLORS, and -1 once use_default_colors has been
      called; it gives the pair the colours meant, foreground and background, leaves every
      other pair alone, and asks for a repaint exactly when a set pair changes. */
  lemma InitPairSets(pal: Palette, cfg: Config, pair: int, fg: int, bg: int)
    requires pal.Valid() && cfg.Valid()
    ensures var c := InitPair(pal, cfg, pair, fg, bg);
            && (c.ok <==>
                pal.started && 0 < pair < 256 && pal.firstCol <= fg < pal.colors && pal.firstCol <= bg < pal.colors)
            && (!c.ok ==> c.pal == pal && c.cfg == cfg && !c.repaint)
            && (c.ok ==> && StandsFor(pal, fg, bg, c.cfg.pairs[pair]) && OnlyPair(cfg, c.cfg, pair)
                         && c.pal == pal.(isSet := pal.isSet[pair := true])
                         && (c.repaint <==> pal.isSet[pair] && c.cfg.pairs[pair] != cfg.pairs[pair]))
  {
    hide Normalize, StandsFor;
    if Acceptable(pal, pair, fg, bg) {
      NormalizeStands(pal, fg, bg);
    }
  }

  lemma PairMeans(pal: Palette, cfg: Config, pair: int, fg: int, bg: int)
    requires pal.Valid() && cfg.Valid()
    ensures var c := InitPair(pal, cfg, pair, fg, bg);
            c.ok ==> 0 <= pair < 256 && StandsFor(pal, fg, bg, c.cfg.pairs[pair])
  {
    hide InitPair, StandsFor, OnlyPair;
    InitPairSets(pal, cfg, pair, fg, bg);
  }

  /** assume_default_colors gives the colours meant to pair 0, once colours have been started. */
  lemma DefaultColorsSet(pal: Palette, cfg: Config, fg: int, bg: int)
    requires pal.Valid() && cfg.Valid()
    ensures var c := DefaultColors(pal, cfg, fg, bg);
            && (c.ok <==> -1 <= fg < pal.colors && -1 <= bg < pal.colors) && c.pal == pal
            && (!c.ok || !pal.started ==> c.cfg == cfg && !c.repaint)
            && (c.ok && pal.started ==> && StandsFor(pal, fg, bg, c.cfg.pairs[0]) && OnlyPair(cfg, c.cfg, 0)
                                        && (c.repaint <==> c.cfg.pairs[0] != cfg.pairs[0]))
  {
    hide Normalize, StandsFor;
    if -1 <= fg < pal.colors && -1 <= bg < pal.colors {
      NormalizeStands(pal, fg, bg);
    }
  }

  /** use_default_colors gives pair 0 the original colours, or white on black, and from then
      on init_pair takes -1. */
  lemma UseDefaultsSet(pal: Palette, cfg: Config, pair: int, fg: int, bg: int)
    requires pal.Valid() && cfg.Valid() && pal.started
    ensures var c := UseDefaultColors(pal, cfg);
            && c.ok && StandsFor(pal, -1, -1, c.cfg.pairs[0]) && OnlyPair(cfg, c.cfg, 0)
            && (c.repaint <==> c.cfg.pairs[0] != cfg.pairs[0])
            && (InitPair(c.pal, c.cfg, pair, fg, bg).ok <==>
                0 < pair < 256 && -1 <= fg < pal.colors && -1 <= bg < pal.colors)
  {
    hide DefaultColors, InitPair, StandsFor;
    var p := pal.(defaults := true, firstCol := -1);
    DefaultColorsSet(p, cfg, -1, -1);
    InitPairSets(p, UseDefaultColors(pal, cfg).cfg, pair, fg, bg);
    SameOriginal(pal, p, -1, -1, UseDefaultColors(pal, cfg).cfg.pairs[0]);
  }

  lemma SameOriginal(pal: Palette, p: Palette, fg: int, bg: int, col: Color)
    requires p.orig == pal.orig
    ensures StandsFor(p, fg, bg, col) <==> StandsFor(pal, fg, bg, col)
  {
  }

  /** start_color makes every pair white on black, or the original colours once those are
      the default, and no pair counts as set. */
  lemma StartColorSets(pal: Palette, cfg: Config, colors: int, original: bool, pair: int)
    requires pal.Valid() && cfg.Valid() && (colors == 8 || colors == 16) && 0 <= pair < 256
    ensures var c := StartColor(pal, cfg, colors, original);
            && c.pal.started && c.pal.colors == colors && !c.pal.isSet[pair] && !c.repaint && c.ok
            && (if pal.defaults || (pal.orig.Original? && original) then StandsFor(pal, -1, -1, c.cfg.pairs[pair])
                else c.cfg.pairs[pair] == Color(7, 0))
  {
  }

  /** A cell whose pair the program has set, or pair 0. */
  predicate Uses(pal: Palette, ch: Chtype)
    requires pal.Valid()
  {
    ch.pair == 0 || pal.isSet[ch.pair as int]
  }

  ghost predicate AllUse(pal: Palette, g: Grid)
    requires pal.Valid()
  {
    forall r, x | 0 <= r < |g| && 0 <= x < |g[r]| :: Uses(pal, g[r][x])
  }

  /** Nothing painted looks different after the change. */
  ghost predicate LooksSame(before: Config, after: Config, g: Grid)
    requires before.Valid() && after.Valid()
  {
    forall r, x | 0 <= r < |g| && 0 <= x < |g[r]| :: Render(after, g[r][x]) == Render(before, g[r][x])
  }

  /** A cell's looks depend on its own pair only. */
  lemma OwnPairOnly(cfg: Config, pair: int, col: Color, ch: Chtype)
    requires cfg.Valid() && 0 <= pair < 256 && (ch.pair as int != pair || cfg.pairs[pair] == col)
    ensures Render(cfg.(pairs := cfg.pairs[pair := col]), ch) == Render(cfg, ch)
  {
    hide Render;
    PairLooks(cfg, cfg.(pairs := cfg.pairs[pair := col]), ch);
  }

  /** A cell looks the same when its pair has the same colours. */
  lemma PairLooks(cfg: Config, after: Config, ch: Chtype)
    requires cfg.Valid() && after.Valid()
    requires after == cfg.(pairs := after.pairs) && after.pairs[ch.pair as int] == cfg.pairs[ch.pair as int]
    ensures Render(after, ch) == Render(cfg, ch)
  {
    hide Fore, Back, Packed, RenderAttr, RenderText;
    AttrPacks(cfg, ch.pair, ch.mods);
    AttrPacks(after, ch.pair, ch.mods);
    SameOrder(cfg, after, cfg.pairs[ch.pair as int], ch.mods);
  }

  /** Unless init_pair asks for a repaint, no cell of a set pair looks different. */
  lemma InitPairKeeps(pal: Palette, cfg: Config, pair: int, fg: int, bg: int, g: Grid)
    requires pal.Valid() && cfg.Valid()
    ensures var c := InitPair(pal, cfg, pair, fg, bg);
            AllUse(pal, g) ==> AllUse(c.pal, g) && (c.repaint || LooksSame(cfg, c.cfg, g))
  {
    hide Render;
    var c := InitPair(pal, cfg, pair, fg, bg);
    forall r, x | AllUse(pal, g) && 0 <= r < |g| && 0 <= x < |g[r]|
      ensures Uses(c.pal, g[r][x]) && (c.repaint || Render(c.cfg, g[r][x]) == Render(cfg, g[r][x]))
    {
      assert Uses(pal, g[r][x]);
      if c.ok && !c.repaint {
        OwnPairOnly(cfg, pair, Normalize(pal, fg, bg), g[r][x]);
      }
    }
  }

  lemma DefaultColorsKeeps(pal: Palette, cfg: Config, fg: int, bg: int, g: Grid)
    requires pal.Valid() && cfg.Valid()
    ensures var c := DefaultColors(pal, cfg, fg, bg);
            AllUse(pal, g) ==> AllUse(c.pal, g) && (c.repaint || LooksSame(cfg, c.cfg, g))
  {
    hide Render;
    var c := DefaultColors(pal, cfg, fg, bg);
    forall r, x | AllUse(pal, g) && 0 <= r < |g| && 0 <= x < |g[r]|
      ensures Uses(c.pal, g[r][x]) && (c.repaint || Render(c.cfg, g[r][x]) == Render(cfg, g[r][x]))
    {
      assert Uses(pal, g[r][x]);
      if c.ok && !c.repaint && pal.started {
        OwnPairOnly(cfg, 0, Normalize(pal, fg, bg), g[r][x]);
      }
    }
  }

  lemma UseDefaultsKeeps(pal: Palette, cfg: Config, g: Grid)
    requires pal.Valid() && cfg.Valid()
    ensures var c := UseDefaultColors(pal, cfg);
            AllUse(pal, g) ==> AllUse(c.pal, g) && (c.repaint || LooksSame(cfg, c.cfg, g))
  {
    hide LooksSame, DefaultColors;
    DefaultColorsKeeps(pal.(defaults := true, firstCol := -1), cfg, -1, -1, g);
  }

  /** The adapter's colours for a cell: bold brightens the foreground, blinking the background. */
  function Fore(cfg: Config, col: Color, mods: bv8): Nibble
    requires cfg.Valid()
  {
    cfg.curstoreal[(if mods & BOLD != 0 then col.fore | 8 else col.fore) as int]
  }

  function Back(cfg: Config, col: Color, mods: bv8): Nibble
    requires cfg.Valid()
  {
    cfg.curstoreal[(if mods & BLINK != 0 then col.back | 8 else col.back) as int]
  }

  /** The part of the foreground that shows: of an underlined cell the brightness only, of
      a reversed one on an adapter that blinks everything but that. */
  function ForeShown(termattrs: bv8, mods: bv8, fore: Nibble): Nibble {
    if mods & REVERSE != 0 then (if termattrs & BLINK != 0 then Dim(fore) else fore)
    else if mods & UNDERLINE != 0 && termattrs & UNDERLINE != 0 then Bright(fore) else fore
  }

  /** With modifiers mods, the two colours look the same. */
  predicate LookAlike(cfg: Config, mods: bv8, a: Color, b: Color)
    requires cfg.Valid()
  {
    && Back(cfg, a, mods) == Back(cfg, b, mods)
    && ForeShown(cfg.termattrs, mods, Fore(cfg, a, mods)) == ForeShown(cfg.termattrs, mods, Fore(cfg, b, mods))
  }

  // The attribute byte: foreground in the low half, background in the high one; an
  // underlined cell in colour 1 or 9; a reversed one that keeps its blink bit in place.

  function PlainByte(low: Nibble, high: Nibble): bv8 { low | (high << 4) }

  function UnderlinedByte(fore: Nibble, back: Nibble): bv8 { ((fore & 8) | 1) | (back << 4) }

  function BlinkingByte(fore: Nibble, back: Nibble): bv8 { (back & 7) | (((fore & 7) | (back & 8)) << 4) }

  function Bright(c: Nibble): Nibble { c & 8 }

  function Dim(c: Nibble): Nibble { c & 7 }

  /** The attribute byte of the two colours. */
  function Packed(termattrs: bv8, mods: bv8, fore: Nibble, back: Nibble): bv8 {
    if mods & REVERSE != 0 then
      if termattrs & BLINK != 0 then BlinkingByte(fore, back) else PlainByte(back, fore)
    else if mods & UNDERLINE != 0 && termattrs & UNDERLINE != 0 then UnderlinedByte(fore, back)
    else PlainByte(fore, back)
  }

  lemma AttrPacks(cfg: Config, pair: bv8, mods: bv8)
    requires cfg.Valid()
    ensures RenderAttr(cfg, pair, mods) ==
            Packed(cfg.termattrs, mods, Fore(cfg, cfg.pairs[pair as int], mods),
                   Back(cfg, cfg.pairs[pair as int], mods))
  {
  }

  lemma PlainDiffers(f: Nibble, b: Nibble, g: Nibble, c: Nibble)
    ensures PlainByte(f, b) == PlainByte(g, c) <==> f == g && b == c
  {
  }

  lemma UnderlinedDiffers(f: Nibble, b: Nibble, g: Nibble, c: Nibble)
    ensures UnderlinedByte(f, b) == UnderlinedByte(g, c) <==> Bright(f) == Bright(g) && b == c
  {
  }

  lemma BlinkingDiffers(f: Nibble, b: Nibble, g: Nibble, c: Nibble)
    ensures BlinkingByte(f, b) == BlinkingByte(g, c) <==> Dim(f) == Dim(g) && b == c
  {
  }

  lemma PackedDiffers(t: bv8, m: bv8, f: Nibble, b: Nibble, g: Nibble, c: Nibble)
    ensures Packed(t, m, f, b) == Packed(t, m, g, c) <==> ForeShown(t, m, f) == ForeShown(t, m, g) && b == c
  {
    hide PlainByte, UnderlinedByte, BlinkingByte, Bright, Dim;
    PlainDiffers(f, b, g, c);
    PlainDiffers(b, f, c, g);
    UnderlinedDiffers(f, b, g, c);
    BlinkingDiffers(f, b, g, c);
  }

  /** A cell looks the same in new colours exactly when they look alike with its modifiers. */
  lemma RecolorLooks(cfg: Config, ch: Chtype, col: Color)
    requires cfg.Valid()
    ensures Render(cfg.(pairs := cfg.pairs[ch.pair as int := col]), ch) == Render(cfg, ch) <==>
            LookAlike(cfg, ch.mods, col, cfg.pairs[ch.pair as int])
  {
    hide RenderText, RenderAttr, Packed, ForeShown, Fore, Back;
    var (m, was) := (ch.mods, cfg.pairs[ch.pair as int]);
    var after := cfg.(pairs := cfg.pairs[ch.pair as int := col]);
    AttrPacks(cfg, ch.pair, m);
    AttrPacks(after, ch.pair, m);
    SameOrder(cfg, after, col, m);
    PackedDiffers(cfg.termattrs, m, Fore(cfg, col, m), Back(cfg, col, m), Fore(cfg, was, m), Back(cfg, was, m));
  }

  lemma SameOrder(cfg: Config, after: Config, col: Color, m: bv8)
    requires cfg.Valid() && after == cfg.(pairs := after.pairs) && after.Valid()
    ensures Fore(after, col, m) == Fore(cfg, col, m) && Back(after, col, m) == Back(cfg, col, m)
  {
  }

  /** A cell without attributes that change its colours. */
  predicate Unstyled(ch: Chtype) { ch.mods & (BOLD | BLINK | REVERSE | UNDERLINE) == 0 }

  /** The adapter's colour order assigns every colour a place of its own. */
  predicate OneToOne(cfg: Config)
    requires cfg.Valid()
  {
    forall i, j | 0 <= i < j < 16 :: cfg.curstoreal[i] != cfg.curstoreal[j]
  }

  lemma NoStyle(m: bv8)
    requires m & (BOLD | BLINK | REVERSE | UNDERLINE) == 0
    ensures m & BOLD == 0 && m & BLINK == 0 && m & REVERSE == 0 && m & UNDERLINE == 0
  {
  }

  /** The two halves of a byte. */
  lemma PlainHalves(low: Nibble, high: Nibble)
    ensures PlainByte(low, high) & 0x0f == low && PlainByte(low, high) >> 4 == high
  {
  }

  /** What a cell shows is its pair's foreground in the low half of the attribute byte and
      its background in the high half, in the adapter's order. */
  lemma UnstyledShows(cfg: Config, ch: Chtype)
    requires cfg.Valid() && Unstyled(ch)
    ensures var (a, col) := (Render(cfg, ch).attr, cfg.pairs[ch.pair as int]);
            a & 0x0f == cfg.curstoreal[col.fore as int] && a >> 4 == cfg.curstoreal[col.back as int]
  {
    NoStyle(ch.mods);
    AttrPacks(cfg, ch.pair, ch.mods);
    var col := cfg.pairs[ch.pair as int];
    PlainHalves(cfg.curstoreal[col.fore as int], cfg.curstoreal[col.back as int]);
    hide RenderText, RenderAttr, PlainByte, BlinkingByte, UnderlinedByte;
  }

  /** After init_pair the letters of the pair are shown in the colours it was given. */
  lemma InitPairShows(pal: Palette, cfg: Config, pair: int, fg: int, bg: int, ch: Chtype)
    requires pal.Valid() && cfg.Valid() && 0 <= fg && 0 <= bg && ch.pair as int == pair && Unstyled(ch)
    ensures var c := InitPair(pal, cfg, pair, fg, bg);
            var a := Render(c.cfg, ch).attr;
            c.ok ==> fg < 16 && bg < 16 && a & 0x0f == cfg.curstoreal[fg] && a >> 4 == cfg.curstoreal[bg]
  {
    hide Render, InitPair, Unstyled;
    InitPairSets(pal, cfg, pair, fg, bg);
    UnstyledShows(InitPair(pal, cfg, pair, fg, bg).cfg, ch);
  }

  lemma OnlyStyle(m: bv8)
    ensures m == BOLD ==> m & BOLD != 0 && m & BLINK == 0 && m & REVERSE == 0 && m & UNDERLINE == 0
    ensures m == BLINK ==> m & BLINK != 0 && m & BOLD == 0 && m & REVERSE == 0 && m & UNDERLINE == 0
    ensures m == REVERSE ==> m & REVERSE != 0 && m & BOLD == 0 && m & BLINK == 0
    ensures m == UNDERLINE ==> m & UNDERLINE != 0 && m & BOLD == 0 && m & BLINK == 0 && m & REVERSE == 0
  {
  }

  /** Bold brightens the foreground, and blinking the background, which is the bit that
      makes it blink. */
  lemma BrightStyles(cfg: Config, ch: Chtype)
    requires cfg.Valid()
    ensures var (a, col, order) := (Render(cfg, ch).attr, cfg.pairs[ch.pair as int], cfg.curstoreal);
            && (ch.mods == BOLD ==> a & 0x0f == order[(col.fore | 8) as int] && a >> 4 == order[col.back as int])
            && (ch.mods == BLINK ==> a & 0x0f == order[col.fore as int] && a >> 4 == order[(col.back | 8) as int])
  {
    hide RenderText, RenderAttr, Packed, Fore, Back;
    var (m, col) := (ch.mods, cfg.pairs[ch.pair as int]);
    OnlyStyle(m);
    AttrPacks(cfg, ch.pair, m);
    ForeBack(cfg, col, m);
    PackedHalves(cfg.termattrs, m, Fore(cfg, col, m), Back(cfg, col, m));
  }

  /** Reverse exchanges the colours, though the bit that blinks stays where it is on an
      adapter that blinks; underlined cells are in colour 1 where the adapter can. */
  lemma ExchangedStyles(cfg: Config, ch: Chtype)
    requires cfg.Valid()
    ensures var (a, col, order) := (Render(cfg, ch).attr, cfg.pairs[ch.pair as int], cfg.curstoreal);
            var (f, b) := (order[col.fore as int], order[col.back as int]);
            && (ch.mods == REVERSE && cfg.termattrs & BLINK == 0 ==> a & 0x0f == b && a >> 4 == f)
            && (ch.mods == REVERSE && cfg.termattrs & BLINK != 0 ==> a & 0x0f == b & 7 && a >> 4 == (f & 7) | (b & 8))
            && (ch.mods == UNDERLINE && cfg.termattrs & UNDERLINE != 0 ==> a & 0x0f == (f & 8) | 1 && a >> 4 == b)
  {
    hide RenderText, RenderAttr, Packed, Fore, Back;
    var (m, col) := (ch.mods, cfg.pairs[ch.pair as int]);
    OnlyStyle(m);
    AttrPacks(cfg, ch.pair, m);
    ForeBack(cfg, col, m);
    PackedHalves(cfg.termattrs, m, Fore(cfg, col, m), Back(cfg, col, m));
  }

  lemma ForeBack(cfg: Config, col: Color, m: bv8)
    requires cfg.Valid()
    ensures Fore(cfg, col, m) == cfg.curstoreal[(if m & BOLD != 0 then col.fore | 8 else col.fore) as int]
    ensures Back(cfg, col, m) == cfg.curstoreal[(if m & BLINK != 0 then col.back | 8 else col.back) as int]
  {
  }

  lemma PackedHalves(t: bv8, m: bv8, f: Nibble, b: Nibble)
    ensures var a := Packed(t, m, f, b);
            if m & REVERSE != 0 then
              (if t & BLINK != 0 then a & 0x0f == b & 7 && a >> 4 == (f & 7) | (b & 8)
               else a & 0x0f == b && a >> 4 == f)
            else if m & UNDERLINE != 0 && t & UNDERLINE != 0 then a & 0x0f == (f & 8) | 1 && a >> 4 == b
            else a & 0x0f == f && a >> 4 == b
  {
    PlainHalves(f, b);
    PlainHalves(b, f);
    OtherHalves(f, b);
    hide PlainByte, BlinkingByte, UnderlinedByte;
  }

  lemma OtherHalves(f: Nibble, b: Nibble)
    ensures BlinkingByte(f, b) & 0x0f == b & 7 && BlinkingByte(f, b) >> 4 == (f & 7) | (b & 8)
    ensures UnderlinedByte(f, b) & 0x0f == (f & 8) | 1 && UnderlinedByte(f, b) >> 4 == b
  {
  }

  /** Without modifiers only equal colours look alike. */
  lemma UnstyledAlike(cfg: Config, ch: Chtype, a: Color, b: Color)
    requires cfg.Valid() && OneToOne(cfg) && Unstyled(ch)
    ensures LookAlike(cfg, ch.mods, a, b) <==> a == b
  {
    NoStyle(ch.mods);
  }

  /** Unless a repaint is asked for, init_pair leaves everything painted right exactly
      when the pair had been set before, or its new colours look like the old ones with
      the modifiers of every cell painted in it. */
  lemma UnsetPairLooks(pal: Palette, cfg: Config, pair: int, fg: int, bg: int, g: Grid)
    requires pal.Valid() && cfg.Valid() && Acceptable(pal, pair, fg, bg)
    ensures var c := InitPair(pal, cfg, pair, fg, bg);
            c.repaint || LooksSame(cfg, c.cfg, g) <==>
            pal.isSet[pair] ||
            forall r, x | 0 <= r < |g| && 0 <= x < |g[r]| :: Unaffected(pal, cfg, pair, fg, bg, g[r][x])
  {
    hide Render, LookAlike;
    var c := InitPair(pal, cfg, pair, fg, bg);
    forall r, x | 0 <= r < |g| && 0 <= x < |g[r]|
      ensures (Render(c.cfg, g[r][x]) == Render(cfg, g[r][x]) <==> Unaffected(pal, cfg, pair, fg, bg, g[r][x]))
      ensures cfg.pairs[pair] == Normalize(pal, fg, bg) ==> Render(c.cfg, g[r][x]) == Render(cfg, g[r][x])
    {
      UnsetPairCell(pal, cfg, pair, fg, bg, g[r][x]);
    }
  }

  /** The cell is painted in another pair, or the new colours look like the old on it. */
  predicate Unaffected(pal: Palette, cfg: Config, pair: int, fg: int, bg: int, ch: Chtype)
    requires pal.Valid() && cfg.Valid() && Acceptable(pal, pair, fg, bg)
  {
    ch.pair as int != pair || LookAlike(cfg, ch.mods, Normalize(pal, fg, bg), cfg.pairs[pair])
  }

  lemma UnsetPairCell(pal: Palette, cfg: Config, pair: int, fg: int, bg: int, ch: Chtype)
    requires pal.Valid() && cfg.Valid() && Acceptable(pal, pair, fg, bg)
    ensures var c := InitPair(pal, cfg, pair, fg, bg);
            && (Render(c.cfg, ch) == Render(cfg, ch) <==> Unaffected(pal, cfg, pair, fg, bg, ch))
            && (cfg.pairs[pair] == Normalize(pal, fg, bg) ==> Render(c.cfg, ch) == Render(cfg, ch))
  {
    hide Render, LookAlike;
    var col := Normalize(pal, fg, bg);
    if ch.pair as int == pair {
      RecolorLooks(cfg, ch, col);
    } else {
      OwnPairOnly(cfg, pair, col, ch);
    }
    if cfg.pairs[pair] == col {
      OwnPairOnly(cfg, pair, col, ch);
    }
  }

  /** It does go wrong: a letter painted in pair 1 after start_color, and then
      init_pair(1, COLOR_RED, COLOR_BLACK), which asks for no repaint. */
  lemma UnsetPairBreaks(pal: Palette, cfg: Config)
    requires pal.Valid() && cfg.Valid() && OneToOne(cfg) && !pal.orig.Original?
    ensures var s := StartColor(pal, cfg, 16, false);
            var c := InitPair(s.pal, s.cfg, 1, 4, COLOR_BLACK as int);
            c.ok && !c.repaint && Render(c.cfg, Ch(1, 0, 0x41)) != Render(s.cfg, Ch(1, 0, 0x41))
  {
    hide Render;
    var s := StartColor(pal, cfg, 16, false);
    var ch := Ch(1, 0, 0x41);
    UnsetPairCell(s.pal, s.cfg, 1, 4, COLOR_BLACK as int, ch);
    UnstyledAlike(s.cfg, ch, Normalize(s.pal, 4, COLOR_BLACK as int), s.cfg.pairs[1]);
  }

  /** start_color asks for no repaint either. What is painted is in pairs that count as
      set exactly while only pair 0 is on the screen, and stays right exactly when every
      cell outlasts the change of its pair's colours and of blinking. */
  lemma StartColorKeeps(pal: Palette, cfg: Config, colors: int, original: bool, g: Grid)
    requires pal.Valid() && cfg.Valid() && (colors == 8 || colors == 16)
    ensures var c := StartColor(pal, cfg, colors, original);
            && !c.repaint
            && (AllUse(c.pal, g) <==> forall r, x | 0 <= r < |g| && 0 <= x < |g[r]| :: PlainCell(g[r][x]))
            && (LooksSame(cfg, c.cfg, g) <==>
                forall r, x | 0 <= r < |g| && 0 <= x < |g[r]| ::
                  Outlasts(cfg, colors, BaseColor(Started(pal, colors, original)), g[r][x]))
  {
    var c := StartColor(pal, cfg, colors, original);
    forall ch: Chtype
      ensures Uses(c.pal, ch) <==> PlainCell(ch)
    {
    }
    hide Render, StartColor, Outlasts, Uses, PlainCell, BaseColor, Started;
    forall r, x | 0 <= r < |g| && 0 <= x < |g[r]|
      ensures Render(c.cfg, g[r][x]) == Render(cfg, g[r][x]) <==>
              Outlasts(cfg, colors, BaseColor(Started(pal, colors, original)), g[r][x])
    {
      StartColorCell(pal, cfg, colors, original, g[r][x]);
    }
  }

  predicate PlainCell(ch: Chtype) { ch.pair == 0 }

  /** start_color with 16 colours takes blinking away from an adapter that has it. */
  predicate BlinkLost(cfg: Config, colors: int) { colors == 16 && cfg.termattrs & BLINK != 0 }

  /** The colours `now` that every pair gets look like the cell's own; but a reversed cell of an
      adapter that loses its blinking needs the two halves that it used to show: the dimmed
      background in front, and behind it the dimmed foreground, as bright as the background. */
  predicate Outlasts(cfg: Config, colors: int, now: Color, ch: Chtype)
    requires cfg.Valid()
  {
    var was := cfg.pairs[ch.pair as int];
    if ch.mods & REVERSE != 0 && BlinkLost(cfg, colors)
    then SwapsBack(Fore(cfg, now, ch.mods), Back(cfg, now, ch.mods), Fore(cfg, was, ch.mods), Back(cfg, was, ch.mods))
    else LookAlike(cfg, ch.mods, now, was)
  }

  predicate SwapsBack(fore: Nibble, back: Nibble, oldFore: Nibble, oldBack: Nibble) {
    back == Dim(oldBack) && Dim(fore) == Dim(oldFore) && Bright(fore) == Bright(oldBack)
  }

  lemma BlinkingIsPlain(fore: Nibble, back: Nibble, oldFore: Nibble, oldBack: Nibble)
    ensures PlainByte(back, fore) == BlinkingByte(oldFore, oldBack) <==> SwapsBack(fore, back, oldFore, oldBack)
  {
  }

  lemma BlinkOff(t: bv8)
    ensures (t & !BLINK) & BLINK == 0 && (t & !BLINK) & UNDERLINE == t & UNDERLINE
    ensures t & BLINK == 0 ==> t & !BLINK == t
  {
  }

  /** Taking blinking away changes the byte of reversed cells only. */
  lemma PackedBlinkOff(t: bv8, m: bv8, f: Nibble, b: Nibble)
    ensures Packed(t & !BLINK, m, f, b) == if m & REVERSE != 0 then PlainByte(b, f) else Packed(t, m, f, b)
  {
    hide PlainByte, UnderlinedByte, BlinkingByte;
    BlinkOff(t);
  }

  lemma StartColorCell(pal: Palette, cfg: Config, colors: int, original: bool, ch: Chtype)
    requires pal.Valid() && cfg.Valid() && (colors == 8 || colors == 16)
    ensures var c := StartColor(pal, cfg, colors, original);
            Render(c.cfg, ch) == Render(cfg, ch) <==>
            Outlasts(cfg, colors, BaseColor(Started(pal, colors, original)), ch)
  {
    hide Render, Outlasts, BaseColor, Started;
    RestartedCell(cfg, StartColor(pal, cfg, colors, original).cfg, colors, ch);
  }

  lemma RestartedCell(cfg: Config, after: Config, colors: int, ch: Chtype)
    requires cfg.Valid() && after.Valid() && after.curstoreal == cfg.curstoreal
    requires after.termattrs == if colors == 16 then cfg.termattrs & !BLINK else cfg.termattrs
    ensures Render(after, ch) == Render(cfg, ch) <==> Outlasts(cfg, colors, after.pairs[ch.pair as int], ch)
  {
    hide Render, Packed, ForeShown, Fore, Back, SwapsBack;
    var (m, was, now) := (ch.mods, cfg.pairs[ch.pair as int], after.pairs[ch.pair as int]);
    SameByte(cfg, after, ch);
    KeepsOrder(cfg, after, now, m);
    StartColorByte(cfg.termattrs, colors, m, Fore(cfg, now, m), Back(cfg, now, m), Fore(cfg, was, m),
                   Back(cfg, was, m));
  }

  /** The texts being the same, two tables render a cell alike exactly when the bytes agree. */
  lemma SameByte(cfg: Config, after: Config, ch: Chtype)
    requires cfg.Valid() && after.Valid()
    ensures var (m, was, now) := (ch.mods, cfg.pairs[ch.pair as int], after.pairs[ch.pair as int]);
            Render(after, ch) == Render(cfg, ch) <==>
            Packed(after.termattrs, m, Fore(after, now, m), Back(after, now, m)) ==
            Packed(cfg.termattrs, m, Fore(cfg, was, m), Back(cfg, was, m))
  {
    hide RenderText, RenderAttr, Packed, Fore, Back;
    AttrPacks(cfg, ch.pair, ch.mods);
    AttrPacks(after, ch.pair, ch.mods);
  }

  lemma KeepsOrder(cfg: Config, after: Config, col: Color, m: bv8)
    requires cfg.Valid() && after.Valid() && after.curstoreal == cfg.curstoreal
    ensures Fore(after, col, m) == Fore(cfg, col, m) && Back(after, col, m) == Back(cfg, col, m)
  {
  }

  lemma StartColorByte(t: bv8, colors: int, m: bv8, f: Nibble, b: Nibble, f0: Nibble, b0: Nibble)
    ensures Packed(if colors == 16 then t & !BLINK else t, m, f, b) == Packed(t, m, f0, b0) <==>
            if m & REVERSE != 0 && colors == 16 && t & BLINK != 0 then SwapsBack(f, b, f0, b0)
            else ForeShown(t, m, f) == ForeShown(t, m, f0) && b == b0
  {
    hide PlainByte, UnderlinedByte, BlinkingByte, SwapsBack, ForeShown;
    PackedDiffers(t, m, f, b, f0, b0);
    PackedBlinkOff(t, m, f, b);
    BlinkOff(t);
    BlinkingIsPlain(f, b, f0, b0);
  }
}
