/** The screen cell (chtype) of curses.h and the attribute rules that every
    drawing routine applies before it stores one.

    A chtype is a 32-bit word: bits 31-24 hold the colour pair (A_COLOR), bits
    23-16 the modifiers, bits 15-0 the text (A_CHARTEXT). The masks of the
    source select exactly these three fields, so the word is modelled by them and
    two words are equal when the three fields are. */
module Cells {
  type Half = n: int | 0 <= n < 0x1_0000

  datatype Chtype = Ch(pair: bv8, mods: bv8, text: Half) {
    /** This cell's attributes with another text: `(ch & A_ATTRIBUTES) | t`. */
    function WithText(t: Half): Chtype { Ch(pair, mods, t) }
  }

  type Row = seq<Chtype>
  type Grid = seq<Row>

  // The modifier bits, shifted down by 16.
  const ALTCHARSET: bv8 := 0x01
  const UNDERLINE: bv8 := 0x10
  const REVERSE: bv8 := 0x20
  const BLINK: bv8 := 0x40
  const BOLD: bv8 := 0x80

  const SPACE: Half := 0x20
  const CARET: Half := 0x5e
  const QUESTION: Half := 0x3f
  const AT_SIGN: Half := 0x40
  const DEL: Half := 0x7f
  const TAB: Half := 0x09
  const NEWLINE: Half := 0x0a
  const BACKSPACE: Half := 0x08
  const RETURN: Half := 0x0d

  /** The background of a fresh window. */
  const BLANK: Chtype := Ch(0, 0, SPACE)

  // Line-drawing characters: letters of the alternate character set.
  const ACS_ULCORNER := Ch(0, ALTCHARSET, 0x6c)
  const ACS_LLCORNER := Ch(0, ALTCHARSET, 0x6d)
  const ACS_URCORNER := Ch(0, ALTCHARSET, 0x6b)
  const ACS_LRCORNER := Ch(0, ALTCHARSET, 0x6a)
  const ACS_HLINE := Ch(0, ALTCHARSET, 0x71)
  const ACS_VLINE := Ch(0, ALTCHARSET, 0x78)

  /** Distance between tab stops. */
  const TABSIZE := 8

  /** A row whose first-changed bound is NO_CHANGE is clean. */
  const NO_CHANGE := -1

  /** v with s from index c on. */
  function Splice<T>(v: seq<T>, c: int, s: seq<T>): (t: seq<T>)
    requires 0 <= c && c + |s| <= |v|
    ensures |t| == |v|
  {
    v[..c] + s + v[c + |s|..]
  }

  lemma EmptySplice<T>(v: seq<T>, c: int, s: seq<T>)
    requires 0 <= c <= |v| && s == []
    ensures Splice(v, c, s) == v
  {
  }

  /** Splicing two pieces one after the other. */
  lemma SpliceMore<T>(v: seq<T>, c: int, s: seq<T>, t: seq<T>)
    requires 0 <= c && c + |s| + |t| <= |v|
    ensures Splice(Splice(v, c, s), c + |s|, t) == Splice(v, c, s + t)
  {
  }

  /** The attributes a character gets from itself, the window's current
      attributes and the window's background, and its text with them. */
  function PassThrough(attrs: Chtype, bkgd: Chtype, ch: Chtype): Chtype {
    var pair := if ch.pair == 0 then ch.pair | attrs.pair else ch.pair;
    var mods := if ch.pair == 0 then ch.mods | attrs.mods else ch.mods;
    Ch(if pair == 0 then pair | bkgd.pair else pair, mods | bkgd.mods, ch.text)
  }

  /** The cell that waddch and winsch store for ch: a blank shows the background's text. */
  function Blend(attrs: Chtype, bkgd: Chtype, ch: Chtype): Chtype {
    PassThrough(attrs, bkgd, ch).WithText(if ch.text == SPACE then bkgd.text else ch.text)
  }

  /** Whether waddch and winsch expand ch instead of storing it. */
  predicate Expands(raw: bool, ch: Chtype) {
    !raw && ch.mods & ALTCHARSET == 0 && (ch.text < SPACE || ch.text == DEL)
  }

  /** wattron: a second colour replaces the first, modifiers add up. */
  function AttrOn(attrs: Chtype, a: Chtype): Chtype {
    Ch(if attrs.pair != 0 && a.pair != 0 then a.pair else attrs.pair | a.pair, attrs.mods | a.mods, attrs.text)
  }

  /** wattroff, which takes the bits of a colour out one by one. */
  function AttrOff(attrs: Chtype, a: Chtype): Chtype { Ch(attrs.pair & !a.pair, attrs.mods & !a.mods, 0) }

  /** After wattron the window has the colour asked for, or the one it had if none is, and
      exactly the modifiers of both. */
  lemma AttrOnAdds(attrs: Chtype, a: Chtype)
    ensures var r := AttrOn(attrs, a);
            && r.pair == (if a.pair != 0 then a.pair else attrs.pair) && r.text == attrs.text
            && AddUp(r.mods, attrs.mods, a.mods, 0)
  {
    hide AddUp;
    TwoColours(attrs.pair, a.pair);
    WithNone(attrs.pair);
    WithNone(attrs.mods);
    OredAddUp(attrs.mods, a.mods, 0);
  }

  /** After wattroff none of the modifiers is on, the others are as they were, and a colour
      taken off by its own number is gone. */
  lemma AttrOffRemoves(attrs: Chtype, a: Chtype)
    ensures var r := AttrOff(attrs, a);
            && r.mods & a.mods == 0 && r.mods | (attrs.mods & a.mods) == attrs.mods
            && (a.pair == 0 ==> r.pair == attrs.pair) && (a.pair == attrs.pair ==> r.pair == 0)
  {
  }

  /** wattroff undoes wattron exactly when none of the modifiers was on before and no
      colour was replaced. (Current attributes carry no text.) */
  lemma AttrOnOff(attrs: Chtype, a: Chtype)
    requires attrs.text == 0
    ensures AttrOff(AttrOn(attrs, a), a) == attrs <==> attrs.mods & a.mods == 0 && (attrs.pair == 0 || a.pair == 0)
  {
  }

  /** wbkgdset: a background without text is a blank. */
  function Background(ch: Chtype): Chtype { if ch.text == 0 then ch.WithText(SPACE) else ch }

  /** The modifiers that wbkgd takes for those of a background: none without a colour. */
  function OwnMods(bkgd: Chtype): bv8 { if bkgd.pair == 0 then 0 else bkgd.mods }

  /** What wbkgd makes of a cell when the background changes from `was` to `now`: the old
      background's modifiers are inverted, the new one's added. */
  function Rebacked(c: Chtype, was: Chtype, now: Chtype): Chtype {
    Ch(if c.pair == was.pair then now.pair else c.pair, (c.mods ^ OwnMods(was)) | OwnMods(now),
       if c.text == was.text then now.text else c.text)
  }

  function RebackedRow(row: Row, was: Chtype, now: Chtype): (t: Row)
    ensures |t| == |row|
  {
    seq(|row|, x requires 0 <= x < |row| => Rebacked(row[x], was, now))
  }

  /** wbkgd on any cell: text and colour that were the old background's become the new one's
      and others stay; old modifiers that the cell shows come off, and the new ones come on. */
  lemma RebackedCell(c: Chtype, was: Chtype, now: Chtype)
    ensures var r := Rebacked(c, was, now);
            && (c.text == was.text ==> r.text == now.text) && (c.text != was.text ==> r.text == c.text)
            && (c.pair == was.pair ==> r.pair == now.pair) && (c.pair != was.pair ==> r.pair == c.pair)
            && (c.mods & OwnMods(was) == OwnMods(was) ==> r.mods == (c.mods & !OwnMods(was)) | OwnMods(now))
    ensures OwnMods(was) == if was.pair == 0 then 0 else was.mods
  {
    hide OwnMods;
    ToggledOff(c.mods, OwnMods(was));
    OwnModsIs(was);
  }

  lemma OwnModsIs(bkgd: Chtype)
    ensures OwnMods(bkgd) == if bkgd.pair == 0 then 0 else bkgd.mods
  {
  }

  lemma ToggledOff(m: bv8, o: bv8)
    ensures m & o == o ==> m ^ o == m & !o
  {
  }

  /** The modifiers of a background without colour, which wbkgd overlooks, make no difference. */
  predicate Follows(was: Chtype, now: Chtype) {
    if now.pair == 0 then now.mods == (if was.pair == 0 then was.mods else 0)
    else was.pair != 0 || was.mods & now.mods == was.mods
  }

  /** Exactly then a cell that showed the old background shows the new one. */
  lemma BackgroundFollows(was: Chtype, now: Chtype)
    ensures Rebacked(was, was, now) == now <==> Follows(was, now)
  {
  }

  /** c has ch's attributes over the window's and the background's: the colour is the first
      one set among the three; no modifier of the character or the background is lost, nor
      one of the window if the character has no colour; and no other modifier is added. */
  predicate Overlaid(attrs: Chtype, bkgd: Chtype, ch: Chtype, c: Chtype) {
    && c.pair == (if ch.pair != 0 then ch.pair else if attrs.pair != 0 then attrs.pair else bkgd.pair)
    && AddUp(c.mods, ch.mods, bkgd.mods, if ch.pair == 0 then attrs.mods else 0)
  }

  /** The bits of m are those of the three others, none lost and none added. */
  predicate AddUp(m: bv8, a: bv8, b: bv8, c: bv8) {
    m & a == a && m & b == b && m & c == c && m & !(a | c | b) == 0
  }

  /** A blended cell is overlaid so; a blank shows the background's text and any other
      character its own; on a plain background with no attributes set, blending changes
      nothing. */
  lemma BlendPrecedence(attrs: Chtype, bkgd: Chtype, ch: Chtype)
    ensures var r := Blend(attrs, bkgd, ch);
            && Overlaid(attrs, bkgd, ch, r)
            && (ch.text == SPACE ==> r.text == bkgd.text) && (ch.text != SPACE ==> r.text == ch.text)
    ensures attrs.pair == 0 && attrs.mods == 0 && bkgd == BLANK ==> Blend(attrs, bkgd, ch) == ch
  {
    hide AddUp, PassThrough;
    PassThroughPrecedence(attrs, bkgd, ch);
    if attrs.pair == 0 && attrs.mods == 0 && bkgd == BLANK {
      PlainPassThrough(attrs, bkgd, ch);
    }
  }

  lemma PlainPassThrough(attrs: Chtype, bkgd: Chtype, ch: Chtype)
    requires attrs.pair == 0 && attrs.mods == 0 && bkgd == BLANK
    ensures PassThrough(attrs, bkgd, ch) == ch
  {
  }

  lemma TwoColours(a: bv8, b: bv8)
    ensures a == 0 ==> a | b == b
  {
  }

  lemma PassThroughMods(attrs: Chtype, bkgd: Chtype, ch: Chtype)
    ensures PassThrough(attrs, bkgd, ch).mods == ch.mods | (if ch.pair == 0 then attrs.mods else 0) | bkgd.mods
  {
    WithNone(ch.mods);
  }

  lemma OredAddUp(a: bv8, b: bv8, c: bv8)
    ensures AddUp(a | c | b, a, b, c)
  {
    OrHas(a | c, b);
    OrHasWithin(a, c, b);
    NoneLeft(a | c | b);
  }

  lemma OrHas(a: bv8, b: bv8)
    ensures (a | b) & b == b
  {
  }

  lemma OrHasWithin(a: bv8, c: bv8, b: bv8)
    ensures (a | c | b) & a == a && (a | c | b) & c == c
  {
  }

  lemma NoneLeft(m: bv8)
    ensures m & !m == 0
  {
  }

  lemma WithNone(a: bv8)
    ensures a | 0 == a
  {
  }

  /** The lines and borders of border.c are overlaid too, but keep their text. */
  lemma PassThroughPrecedence(attrs: Chtype, bkgd: Chtype, ch: Chtype)
    ensures Overlaid(attrs, bkgd, ch, PassThrough(attrs, bkgd, ch)) && PassThrough(attrs, bkgd, ch).text == ch.text
  {
    hide AddUp;
    TwoColours(ch.pair, attrs.pair);
    TwoColours(attrs.pair, bkgd.pair);
    var mods := if ch.pair == 0 then attrs.mods else 0;
    WithNone(ch.mods);
    OredAddUp(ch.mods, bkgd.mods, mods);
    PassThroughMods(attrs, bkgd, ch);
  }
}
