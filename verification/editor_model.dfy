/** The line editor of wgetnstr as a function on the edited buffer and the window that
    echoes it, one key at a time. */
module EditorModel {
  import opened Cells
  import opened WindowModel
  import opened RefreshModel

  type Byte = n: int | 0 <= n < 0x100

  /** What wgetch returns, and SP->key_code. */
  datatype Key = Key(ch: int, keyCode: bool)

  const ERASE_CHAR := 0x08
  const ERASE_LINE := 0x15
  const ERASE_WORD := 0x17

  /** The window and the buffer. */
  datatype Edit = Edit(w: Win, buf: seq<Byte>)

  predicate Stops(k: Key) { k.ch == NEWLINE || k.ch == RETURN }

  // ---------------------------------------------------------------- what the keys do

  function Echo(raw: bool, echo: bool, w: Win, c: Byte): (v: Win)
    ensures SameFrame(w, v)
  {
    if echo then AddCh(raw, w, Ch(0, 0, c)).win else w
  }

  const RUB: seq<Half> := [BACKSPACE, SPACE, BACKSPACE]

  /** `waddstr(win, "\b \b")`. */
  function RubOut(raw: bool, echo: bool, w: Win): (v: Win)
    ensures SameFrame(w, v)
  {
    if echo then AddStr(raw, w, Plain(RUB)).win else w
  }

  /** One character into the buffer, if there is room. */
  function Type(raw: bool, echo: bool, n: int, e: Edit, c: Byte): Edit {
    if |e.buf| < n then Edit(Echo(raw, echo, e.w, c), e.buf + [c]) else e
  }

  function TypeBlanks(raw: bool, echo: bool, n: int, e: Edit, k: nat): Edit
    decreases k
  {
    if k == 0 then e else TypeBlanks(raw, echo, n, Type(raw, echo, n, e, SPACE), k - 1)
  }

  /** The remainder of C: it has the sign of a. */
  function Rem(a: int, b: int): int
    requires b > 0
  {
    if a >= 0 then a % b else -((-a) % b)
  }

  /** One character out of the buffer: a control character takes two columns. */
  function Erase1(raw: bool, echo: bool, e: Edit): (f: Edit)
    requires e.buf != []
    ensures f.buf == e.buf[..|e.buf| - 1] && SameFrame(e.w, f.w)
  {
    var w := RubOut(raw, echo, e.w);
    Edit(if e.buf[|e.buf| - 1] < SPACE then RubOut(raw, echo, w) else w, e.buf[..|e.buf| - 1])
  }

  function EraseAll(raw: bool, echo: bool, e: Edit): (f: Edit)
    decreases |e.buf|
  {
    if e.buf == [] then e else EraseAll(raw, echo, Erase1(raw, echo, e))
  }

  function EraseBlanks(raw: bool, echo: bool, e: Edit): (f: Edit)
    decreases |e.buf|
  {
    if e.buf == [] || e.buf[|e.buf| - 1] != SPACE then e else EraseBlanks(raw, echo, Erase1(raw, echo, e))
  }

  function EraseNonblanks(raw: bool, echo: bool, e: Edit): (f: Edit)
    decreases |e.buf|
  {
    if e.buf == [] || e.buf[|e.buf| - 1] == SPACE then e else EraseNonblanks(raw, echo, Erase1(raw, echo, e))
  }

  /** The effect of a key that does not end the line; x is the column the line starts at. */
  function OnKey(raw: bool, echo: bool, n: int, x: int, e: Edit, k: Key): Edit {
    if k.ch == TAB then TypeBlanks(raw, echo, n, e, TABSIZE - Rem(e.w.curx - x, TABSIZE))
    else if k.ch == ERASE_CHAR then (if e.buf != [] then Erase1(raw, echo, e) else e)
    else if k.ch == ERASE_LINE then EraseAll(raw, echo, e)
    else if k.ch == ERASE_WORD then EraseNonblanks(raw, echo, EraseBlanks(raw, echo, e))
    else if !k.keyCode && 0 <= k.ch < 0x100 then Type(raw, echo, n, e, k.ch)
    else e
  }

  /** The window is refreshed before the first key and after each. */
  function After(raw: bool, echo: bool, n: int, w: Win, keys: seq<Key>): Edit {
    if keys == [] then Edit(NoutWin(w), [])
    else
      var e := OnKey(raw, echo, n, w.curx, After(raw, echo, n, w, keys[..|keys| - 1]), keys[|keys| - 1]);
      e.(w := NoutWin(e.w))
  }

  // ---------------------------------------------------------------- the buffer alone

  /** How a character is displayed: control characters and DEL in caret notation, unless
      output is raw. */
  function Caret(raw: bool, c: Byte): seq<Half> {
    if raw then [c]
    else if c < SPACE then [CARET, c + AT_SIGN]
    else if c == DEL then [CARET, QUESTION]
    else [c]
  }

  function Shown(raw: bool, buf: seq<Byte>): (s: seq<Half>)
    ensures |buf| <= |s| <= 2 * |buf|
  {
    if buf == [] then [] else Shown(raw, buf[..|buf| - 1]) + Caret(raw, buf[|buf| - 1])
  }

  /** A part of the line takes no more room than the line. */
  lemma {:induction false} ShownPrefix(raw: bool, buf: seq<Byte>, m: nat)
    requires m <= |buf|
    ensures |Shown(raw, buf[..m])| <= |Shown(raw, buf)|
    decreases |buf|
  {
    if m == |buf| {
      assert buf[..m] == buf;
    } else {
      assert buf[..|buf| - 1][..m] == buf[..m];
      ShownPrefix(raw, buf[..|buf| - 1], m);
    }
  }

  function Blanks(k: nat): (s: seq<Byte>)
    ensures |s| == k && forall i | 0 <= i < k :: s[i] == SPACE
  {
    seq(k, _ => SPACE)
  }

  /** buf with as much of s as fits into n characters. */
  function Fit(n: int, buf: seq<Byte>, s: seq<Byte>): seq<Byte> {
    buf + s[..Min(|s|, Max(n - |buf|, 0))]
  }

  function TrimBlanks(buf: seq<Byte>): (t: seq<Byte>)
    ensures |t| <= |buf| && t == buf[..|t|]
  {
    if buf == [] || buf[|buf| - 1] != SPACE then buf else TrimBlanks(buf[..|buf| - 1])
  }

  function TrimNonblanks(buf: seq<Byte>): (t: seq<Byte>)
    ensures |t| <= |buf| && t == buf[..|t|]
  {
    if buf == [] || buf[|buf| - 1] == SPACE then buf else TrimNonblanks(buf[..|buf| - 1])
  }

  /** Columns from the start of the line to the cursor: what is displayed, and without
      echo nothing is. */
  function Columns(raw: bool, echo: bool, buf: seq<Byte>): nat { if echo then |Shown(raw, buf)| else 0 }

  /** The edit a key makes. A tab reaches the next stop as displayed; without echo every
      tab is TABSIZE wide. */
  function EditBy(raw: bool, echo: bool, n: int, buf: seq<Byte>, k: Key): seq<Byte> {
    if k.ch == TAB then Fit(n, buf, Blanks(TABSIZE - Columns(raw, echo, buf) % TABSIZE))
    else if k.ch == ERASE_CHAR then (if buf != [] then buf[..|buf| - 1] else buf)
    else if k.ch == ERASE_LINE then []
    else if k.ch == ERASE_WORD then TrimNonblanks(TrimBlanks(buf))
    else if !k.keyCode && 0 <= k.ch < 0x100 then Fit(n, buf, [k.ch])
    else buf
  }

  /** The buffer as a fold of edits over the keys. */
  function Edited(raw: bool, echo: bool, n: int, keys: seq<Key>): seq<Byte> {
    if keys == [] then []
    else EditBy(raw, echo, n, Edited(raw, echo, n, keys[..|keys| - 1]), keys[|keys| - 1])
  }

  /** The buffer cut before its last word: what goes is the blanks at the end and the
      characters other than blanks before them, and all of those. */
  ghost predicate WordCut(buf: seq<Byte>, t: seq<Byte>) {
    exists k: nat :: WordEnds(buf, t, k)
  }

  /** The word ends before k, and t is what stands before it. */
  predicate WordEnds(buf: seq<Byte>, t: seq<Byte>, k: nat) {
    && |t| <= k <= |buf| && t == buf[..|t|]
    && (forall i | |t| <= i < k :: buf[i] != 0x20) && (forall i | k <= i < |buf| :: buf[i] == 0x20)
    && (t == [] || (t[|t| - 1] == 0x20 && |t| < k))
  }

  /** ^H takes the last character off, ^U all of them, ^W the last word; a tab adds blanks up to
      the next multiple of eight on the screen, any other character itself, as far as n goes;
      function keys add nothing. */
  lemma KeysEdit(raw: bool, echo: bool, n: int, buf: seq<Byte>, k: Key)
    ensures var t := EditBy(raw, echo, n, buf, k);
            var columns := if echo then |Shown(raw, buf)| else 0;
            && (k.ch == 0x08 ==> t == if buf == [] then [] else buf[..|buf| - 1])
            && (k.ch == 0x15 ==> t == [])
            && (k.ch == 0x17 ==> WordCut(buf, t))
            && (k.ch == 0x09 ==> && |t| == Max(|buf|, Min(n, |buf| + (columns / 8 + 1) * 8 - columns))
                                 && t[..|buf|] == buf && forall i | |buf| <= i < |t| :: t[i] == 0x20)
            && (k.ch !in {0x08, 0x09, 0x15, 0x17} ==>
                  t == if !k.keyCode && 0 <= k.ch < 256 && |buf| < n then buf + [k.ch] else buf)
  {
    hide TrimBlanks, TrimNonblanks, Shown, Fit, WordCut, Blanks;
    TrimmedWord(buf);
    if k.ch == TAB {
      FitBlanks(n, buf, TABSIZE - Columns(raw, echo, buf) % TABSIZE);
    } else if !k.keyCode && 0 <= k.ch < 0x100 {
      FitOne(n, buf, k.ch);
    }
  }

  lemma FitBlanks(n: int, buf: seq<Byte>, k: nat)
    ensures var t := Fit(n, buf, Blanks(k));
            |t| == Max(|buf|, Min(n, |buf| + k)) && t[..|buf|] == buf && forall i | |buf| <= i < |t| :: t[i] == 0x20
  {
  }

  lemma FitOne(n: int, buf: seq<Byte>, c: Byte)
    ensures Fit(n, buf, [c]) == if |buf| < n then buf + [c] else buf
  {
    assert [c][..1] == [c] && buf + [c][..0] == buf;
  }

  lemma TrimmedWord(buf: seq<Byte>)
    ensures WordCut(buf, TrimNonblanks(TrimBlanks(buf)))
  {
    hide TrimBlanks, TrimNonblanks;
    var u := TrimBlanks(buf);
    var t := TrimNonblanks(u);
    BlanksTrimmed(buf);
    NonblanksTrimmed(u);
    assert WordEnds(buf, t, |u|);
  }

  lemma {:induction false} BlanksTrimmed(buf: seq<Byte>)
    ensures var t := TrimBlanks(buf);
            (forall i | |t| <= i < |buf| :: buf[i] == 0x20) && (t != [] ==> t[|t| - 1] != 0x20)
    decreases |buf|
  {
    if buf != [] {
      BlanksTrimmed(buf[..|buf| - 1]);
    }
  }

  lemma {:induction false} NonblanksTrimmed(buf: seq<Byte>)
    ensures var t := TrimNonblanks(buf);
            (forall i | |t| <= i < |buf| :: buf[i] != 0x20) && (t != [] ==> t[|t| - 1] == 0x20)
    decreases |buf|
  {
    if buf != [] {
      NonblanksTrimmed(buf[..|buf| - 1]);
    }
  }

  // ---------------------------------------------------------------- what a key does to the buffer

  lemma TypeBuffer(raw: bool, echo: bool, n: int, e: Edit, c: Byte)
    requires |e.buf| <= Max(n, 0)
    ensures var f := Type(raw, echo, n, e, c);
            f.buf == Fit(n, e.buf, [c]) && |f.buf| <= Max(n, 0) && (echo || f.w == e.w)
  {
    assert [c][..1] == [c] && e.buf + [c][..0] == e.buf;
  }

  lemma {:induction false} BlanksBuffer(raw: bool, echo: bool, n: int, e: Edit, k: nat)
    requires |e.buf| <= Max(n, 0)
    ensures var f := TypeBlanks(raw, echo, n, e, k);
            f.buf == Fit(n, e.buf, Blanks(k)) && |f.buf| <= Max(n, 0) && (echo || f.w == e.w)
    decreases k
  {
    if k == 0 {
      assert e.buf + Blanks(0)[..0] == e.buf;
    } else {
      hide Type;
      TypeBuffer(raw, echo, n, e, SPACE);
      BlanksBuffer(raw, echo, n, Type(raw, echo, n, e, SPACE), k - 1);
      FitMore(n, e.buf, k - 1);
    }
  }

  lemma FitMore(n: int, buf: seq<Byte>, k: nat)
    requires |buf| <= Max(n, 0)
    ensures Fit(n, Fit(n, buf, [SPACE]), Blanks(k)) == Fit(n, buf, Blanks(k + 1))
  {
  }

  lemma {:induction false} EraseBuffer(raw: bool, echo: bool, e: Edit)
    ensures var f := EraseAll(raw, echo, e); f.buf == [] && (echo || f.w == e.w)
    ensures var f := EraseBlanks(raw, echo, e); f.buf == TrimBlanks(e.buf) && (echo || f.w == e.w)
    ensures var f := EraseNonblanks(raw, echo, e); f.buf == TrimNonblanks(e.buf) && (echo || f.w == e.w)
    ensures e.buf != [] ==> echo || Erase1(raw, echo, e).w == e.w
    decreases |e.buf|
  {
    if e.buf != [] {
      EraseBuffer(raw, echo, Erase1(raw, echo, e));
      hide RubOut;
    }
  }

  /** As long as the cursor stands where the line ends on the screen, a key does to the
      buffer what it should, whether or not the echo comes out right; without echo it
      does nothing to the window. */
  lemma KeyBuffer(raw: bool, echo: bool, n: int, x: int, e: Edit, k: Key)
    requires e.w.curx == x + Columns(raw, echo, e.buf) && |e.buf| <= Max(n, 0)
    ensures var f := OnKey(raw, echo, n, x, e, k);
            f.buf == EditBy(raw, echo, n, e.buf, k) && |f.buf| <= Max(n, 0) && (echo || f.w == e.w)
  {
    hide Type, TypeBlanks, EraseAll, EraseBlanks, EraseNonblanks, Fit, RawWin.Valid, RubOut, Columns, TrimBlanks,
         TrimNonblanks;
    if k.ch == TAB {
      BlanksBuffer(raw, echo, n, e, TABSIZE - Columns(raw, echo, e.buf) % TABSIZE);
    } else if k.ch == ERASE_CHAR || k.ch == ERASE_LINE {
      EraseBuffer(raw, echo, e);
    } else if k.ch == ERASE_WORD {
      EraseBuffer(raw, echo, e);
      EraseBuffer(raw, echo, EraseBlanks(raw, echo, e));
    } else if !k.keyCode && 0 <= k.ch < 0x100 {
      TypeBuffer(raw, echo, n, e, k.ch);
    }
  }

  // ---------------------------------------------------------------- the echo

  /** The text s stands in row y from column x to the cursor. */
  ghost predicate Stands(w: Win, y: int, x: int, s: seq<Half>) {
    && w.cury == y && w.curx == x + |s| && 0 <= x
    && forall k | 0 <= k < |s| :: StandsAt(w, x, s, k)
  }

  predicate StandsAt(w: Win, x: int, s: seq<Half>, k: int)
    requires 0 <= k < |s| && 0 <= x && x + |s| == w.curx
  {
    w.cells[w.cury][x + k] == Blend(w.attrs, w.bkgd, Ch(0, 0, s[k]))
  }

  /** v keeps w's attributes, its size and the way it scrolls. */
  predicate Alike(w: Win, v: Win) {
    SameFrame(w, v) && v.attrs == w.attrs && v.bkgd == w.bkgd && v.scroll == w.scroll && v.bmarg == w.bmarg
  }

  /** One stored character, away from the right edge. */
  lemma PlainStands(w: Win, y: int, x: int, s: seq<Half>, c: Half)
    requires Stands(w, y, x, s) && w.curx + 1 < w.maxx
    ensures var o := AddPlain(w, Ch(0, 0, c)); o.ok && Alike(w, o.win) && Stands(o.win, y, x, s + [c])
  {
    var v := AddPlain(w, Ch(0, 0, c)).win;
    StoredPlain(w, Ch(0, 0, c));
    hide AddPlain, Blend;
    forall k | 0 <= k < |s + [c]|
      ensures StandsAt(v, x, s + [c], k)
    {
      if k < |s| {
        assert StandsAt(w, x, s, k);
      }
    }
  }

  lemma StoredPlain(w: Win, c: Chtype)
    requires w.curx + 1 < w.maxx
    ensures var o := AddPlain(w, c);
            && o.ok && Alike(w, o.win) && o.win.cury == w.cury && o.win.curx == w.curx + 1
            && o.win.cells[w.cury] == w.cells[w.cury][w.curx := Blend(w.attrs, w.bkgd, c)]
  {
    hide Blend;
  }

  /** The echo of a typed character. */
  lemma EchoStands(raw: bool, w: Win, y: int, x: int, s: seq<Half>, c: Byte)
    requires Stands(w, y, x, s) && w.curx + |Caret(raw, c)| < w.maxx
    requires raw || c !in {BACKSPACE, TAB, NEWLINE, RETURN}
    ensures var v := Echo(raw, true, w, c); Alike(w, v) && Stands(v, y, x, s + Caret(raw, c))
  {
    hide Stands, AddPlain, Blend;
    StandsCursor(w, y, x, s);
    if !raw && (c < SPACE || c == DEL) {
      var d: Half := if c == DEL then QUESTION else c + AT_SIGN;
      PlainStands(w, y, x, s, CARET);
      StandsCursor(AddPlain(w, Ch(0, 0, CARET)).win, y, x, s + [CARET]);
      PlainStands(AddPlain(w, Ch(0, 0, CARET)).win, y, x, s + [CARET], d);
      assert s + [CARET] + [d] == s + Caret(raw, c);
    } else {
      PlainStands(w, y, x, s, c);
    }
  }

  lemma StandsCursor(w: Win, y: int, x: int, s: seq<Half>)
    requires Stands(w, y, x, s)
    ensures w.curx == x + |s| && w.cury == y && 0 <= x
  {
  }

  /** Rubbing out: the cursor moves back by one and the text before it stays. */
  lemma RubStands(w: Win, y: int, x: int, s: seq<Half>)
    requires Stands(w, y, x, s) && s != [] && w.curx < w.maxx
    ensures var v := RubOut(false, true, w); Alike(w, v) && Stands(v, y, x, s[..|s| - 1])
  {
    var v := RubOut(false, true, w);
    RubIs(w);
    hide RubOut, Blend;
    var t := s[..|s| - 1];
    forall k | 0 <= k < |t|
      ensures StandsAt(v, x, t, k)
    {
      assert StandsAt(w, x, s, k);
    }
  }

  lemma RubIs(w: Win)
    requires 0 < w.curx
    ensures var v := RubOut(false, true, w);
            && Alike(w, v) && v.cury == w.cury && v.curx == w.curx - 1
            && v.cells[w.cury] == w.cells[w.cury][w.curx - 1 := Blend(w.attrs, w.bkgd, Ch(0, 0, SPACE))]
  {
    var p := Plain(RUB);
    assert p == [Ch(0, 0, BACKSPACE), Ch(0, 0, SPACE), Ch(0, 0, BACKSPACE)];
    assert p[..2] == [Ch(0, 0, BACKSPACE), Ch(0, 0, SPACE)] && p[..1] == [Ch(0, 0, BACKSPACE)] && p[..2][..1] == p[..1];
    var back := w.(curx := w.curx - 1);
    StoredPlain(back, Ch(0, 0, SPACE));
    hide AddPlain, Blend;
    assert AddStr(false, w, p[..1]) == Outcome(back, true) by {
      assert p[..1][..0] == [];
    }
    assert AddStr(false, w, p[..2]) == AddPlain(back, Ch(0, 0, SPACE));
  }

  // ---------------------------------------------------------------- one key

  /** Number of DEL characters in s. */
  function Dels(s: seq<Byte>): nat {
    if s == [] then 0 else Dels(s[..|s| - 1]) + if s[|s| - 1] == DEL then 1 else 0
  }

  /** The cursor stands d columns past the end of the displayed buffer; with d == 0 the
      buffer stands there. */
  ghost predicate Track(raw: bool, e: Edit, y: int, x: int, d: nat) {
    && 0 <= x && e.w.cury == y && e.w.curx == x + |Shown(raw, e.buf)| + d
    && (d == 0 ==> Stands(e.w, y, x, Shown(raw, e.buf)))
  }

  /** The echo is right exactly when no column is left over. */
  lemma TrackExact(raw: bool, e: Edit, y: int, x: int, d: nat)
    requires Track(raw, e, y, x, d)
    ensures Stands(e.w, y, x, Shown(raw, e.buf)) <==> d == 0
  {
  }

  lemma RubTrack(w: Win, y: int, x: int, s: seq<Half>)
    requires 0 <= x && w.cury == y && 0 < w.curx
    ensures var v := RubOut(false, true, w);
            && v.cury == y && v.curx == w.curx - 1 && Alike(w, v)
            && (s != [] && Stands(w, y, x, s) ==> Stands(v, y, x, s[..|s| - 1]))
  {
    RubIs(w);
    hide RubOut;
    if s != [] && Stands(w, y, x, s) {
      RubStands(w, y, x, s);
    }
  }

  /** Erasing a character leaves a column behind if it is a DEL: both of its columns were
      written, one is rubbed out. */
  lemma EraseTrack(e: Edit, y: int, x: int, d: nat)
    requires Track(false, e, y, x, d) && e.buf != []
    ensures Track(false, Erase1(false, true, e), y, x, d + if e.buf[|e.buf| - 1] == DEL then 1 else 0)
    ensures Alike(e.w, Erase1(false, true, e).w)
  {
    hide RubOut, Stands, Shown, RawWin.Valid;
    var c := e.buf[|e.buf| - 1];
    var s := Shown(false, e.buf);
    var w := RubOut(false, true, e.w);
    ShownLast(e.buf);
    RubTrack(e.w, y, x, s);
    if c < SPACE {
      RubTrack(w, y, x, s[..|s| - 1]);
    }
  }

  /** What is displayed without the last character. */
  lemma ShownLast(buf: seq<Byte>)
    requires buf != []
    ensures var (s, t, c) := (Shown(false, buf), Shown(false, buf[..|buf| - 1]), buf[|buf| - 1]);
            if c < SPACE then |s| == |t| + 2 && s[..|s| - 1][..|s| - 2] == t
            else |s| == |t| + (if c == DEL then 2 else 1) && (c != DEL ==> s[..|s| - 1] == t)
  {
    hide *;
    ShownSplit(buf);
    CaretSize(buf[|buf| - 1]);
    FrontOf(Shown(false, buf[..|buf| - 1]), Caret(false, buf[|buf| - 1]));
  }

  lemma ShownSplit(buf: seq<Byte>)
    requires buf != []
    ensures Shown(false, buf) == Shown(false, buf[..|buf| - 1]) + Caret(false, buf[|buf| - 1])
  {
  }

  lemma CaretSize(c: Byte)
    ensures |Caret(false, c)| == if c < SPACE || c == DEL then 2 else 1
  {
  }

  lemma FrontOf(t: seq<Half>, a: seq<Half>)
    ensures |a| == 1 ==> (t + a)[..|t|] == t
    ensures |a| == 2 ==> (t + a)[..|t| + 1][..|t|] == t
  {
  }

  lemma {:induction false} EraseAllTrack(e: Edit, y: int, x: int, d: nat)
    requires Track(false, e, y, x, d)
    ensures var f := EraseAll(false, true, e); f.buf == [] && Track(false, f, y, x, d + Dels(e.buf)) && Alike(e.w, f.w)
    decreases |e.buf|
  {
    hide Track;
    if e.buf != [] {
      EraseTrack(e, y, x, d);
      EraseAllTrack(Erase1(false, true, e), y, x, d + if e.buf[|e.buf| - 1] == DEL then 1 else 0);
    }
  }

  lemma {:induction false} EraseBlanksTrack(e: Edit, y: int, x: int, d: nat)
    requires Track(false, e, y, x, d)
    ensures var f := EraseBlanks(false, true, e);
            f.buf == TrimBlanks(e.buf) && Track(false, f, y, x, d) && Alike(e.w, f.w)
    ensures Dels(e.buf[|TrimBlanks(e.buf)|..]) == 0
    decreases |e.buf|
  {
    hide Track;
    if e.buf != [] && e.buf[|e.buf| - 1] == SPACE {
      EraseTrack(e, y, x, d);
      EraseBlanksTrack(Erase1(false, true, e), y, x, d);
      LostMore(e.buf, |TrimBlanks(e.buf)|);
    }
  }

  lemma NothingGone(e: Edit)
    ensures Dels(e.buf[|e.buf|..]) == 0 && Alike(e.w, e.w)
  {
  }

  lemma LostMore(buf: seq<Byte>, m: nat)
    requires m < |buf|
    ensures Dels(buf[m..]) == Dels(buf[..|buf| - 1][m..]) + if buf[|buf| - 1] == DEL then 1 else 0
  {
    assert buf[m..][..|buf[m..]| - 1] == buf[..|buf| - 1][m..];
  }

  lemma {:induction false} EraseNonblanksTrack(e: Edit, y: int, x: int, d: nat)
    requires Track(false, e, y, x, d)
    ensures var f := EraseNonblanks(false, true, e);
            && f.buf == TrimNonblanks(e.buf) && Alike(e.w, f.w) && Track(false, f, y, x, d + Dels(e.buf[|f.buf|..]))
    decreases |e.buf|
  {
    hide Track, Erase1, Shown, RawWin.Valid, Dels, Alike;
    if e.buf != [] && e.buf[|e.buf| - 1] != SPACE {
      var g := Erase1(false, true, e);
      EraseTrack(e, y, x, d);
      EraseNonblanksTrack(g, y, x, d + if e.buf[|e.buf| - 1] == DEL then 1 else 0);
      AlikeTransitive(e.w, g.w, EraseNonblanks(false, true, g).w);
      LostMore(e.buf, |TrimNonblanks(e.buf)|);
    } else {
      NothingGone(e);
    }
  }

  /** The displayed line ends before the edge. */
  predicate Fits(raw: bool, maxx: int, x: int, buf: seq<Byte>) { x + |Shown(raw, buf)| < maxx }

  lemma TypeTrack(raw: bool, n: int, e: Edit, y: int, x: int, c: Byte)
    requires Track(raw, e, y, x, 0) && |e.buf| <= Max(n, 0) && Fits(raw, e.w.maxx, x, Fit(n, e.buf, [c]))
    requires raw || c !in {BACKSPACE, TAB, NEWLINE, RETURN}
    ensures var f := Type(raw, true, n, e, c); Track(raw, f, y, x, 0) && Alike(e.w, f.w)
  {
    if |e.buf| < n {
      assert [c][..1] == [c] && (e.buf + [c])[..|e.buf|] == e.buf;
      assert Shown(raw, e.buf + [c]) == Shown(raw, e.buf) + Caret(raw, c);
      EchoStands(raw, e.w, y, x, Shown(raw, e.buf), c);
      hide Echo;
    }
  }

  lemma {:induction false} TypeBlanksTrack(raw: bool, n: int, e: Edit, y: int, x: int, k: nat)
    requires Track(raw, e, y, x, 0) && |e.buf| <= Max(n, 0) && Fits(raw, e.w.maxx, x, Fit(n, e.buf, Blanks(k)))
    ensures var f := TypeBlanks(raw, true, n, e, k); Track(raw, f, y, x, 0) && Alike(e.w, f.w)
    decreases k
  {
    hide Track, Type, RawWin.Valid, Fit, Fits, Alike;
    AlikeItself(e.w);
    if k > 0 {
      var f := Type(raw, true, n, e, SPACE);
      FitMore(n, e.buf, k - 1);
      FirstFits(raw, e.w.maxx, x, n, e.buf, k);
      TypeBuffer(raw, true, n, e, SPACE);
      TypeTrack(raw, n, e, y, x, SPACE);
      AlikeSize(e.w, f.w);
      TypeBlanksTrack(raw, n, f, y, x, k - 1);
      AlikeTransitive(e.w, f.w, TypeBlanks(raw, true, n, f, k - 1).w);
    }
  }

  /** The first of several blanks takes no more room than all. */
  lemma FirstFits(raw: bool, maxx: int, x: int, n: int, buf: seq<Byte>, k: nat)
    requires 0 < k && Fits(raw, maxx, x, Fit(n, buf, Blanks(k)))
    ensures Fits(raw, maxx, x, Fit(n, buf, [SPACE]))
  {
    var (s, t) := (Fit(n, buf, [SPACE]), Fit(n, buf, Blanks(k)));
    assert s == t[..|s|];
    ShownPrefix(raw, t, |s|);
  }

  /** The characters a key has taken off the end. */
  function Lost(before: seq<Byte>, after: seq<Byte>): seq<Byte> {
    if |after| < |before| then before[|after|..] else []
  }

  /** One key with echo on that leaves a line with room on the screen: the cursor ends one
      column too far for every DEL that was erased. Raw output knows no erasing. */
  lemma KeyTrack(raw: bool, n: int, x: int, e: Edit, y: int, k: Key)
    requires Track(raw, e, y, x, 0) && |e.buf| <= Max(n, 0) && !Stops(k)
    requires Fits(raw, e.w.maxx, x, EditBy(raw, true, n, e.buf, k))
    requires raw ==> Lost(e.buf, EditBy(raw, true, n, e.buf, k)) == []
    ensures var f := OnKey(raw, true, n, x, e, k);
            && f.buf == EditBy(raw, true, n, e.buf, k) && |f.buf| <= Max(n, 0) && Alike(e.w, f.w)
            && Track(raw, f, y, x, Dels(Lost(e.buf, f.buf)))
  {
    hide Track, Type, TypeBlanks, Erase1, EraseAll, EraseBlanks, EraseNonblanks, Fit, Fits, RawWin.Valid, Dels,
         TrimBlanks, TrimNonblanks, Alike, Lost, Shown, Max;
    AlikeItself(e.w);
    TrackCursor(raw, e, y, x, 0);
    KeyBuffer(raw, true, n, x, e, k);
    if k.ch == TAB {
      TypeBlanksTrack(raw, n, e, y, x, TABSIZE - Rem(e.w.curx - x, TABSIZE));
      NothingLost(n, e.buf, Blanks(TABSIZE - Rem(e.w.curx - x, TABSIZE)));
    } else if k.ch == ERASE_CHAR || k.ch == ERASE_LINE || k.ch == ERASE_WORD {
      EraseKeyTrack(raw, n, x, e, y, k);
    } else if !k.keyCode && 0 <= k.ch < 0x100 {
      TypeTrack(raw, n, e, y, x, k.ch);
      NothingLost(n, e.buf, [k.ch]);
    } else {
      NothingLost(n, e.buf, []);
    }
  }

  lemma EraseKeyTrack(raw: bool, n: int, x: int, e: Edit, y: int, k: Key)
    requires Track(raw, e, y, x, 0) && (k.ch == ERASE_CHAR || k.ch == ERASE_LINE || k.ch == ERASE_WORD)
    requires raw ==> Lost(e.buf, EditBy(raw, true, n, e.buf, k)) == []
    ensures var f := OnKey(raw, true, n, x, e, k); Alike(e.w, f.w) && Track(raw, f, y, x, Dels(Lost(e.buf, f.buf)))
  {
    hide Track, Erase1, EraseAll, EraseBlanks, EraseNonblanks, RawWin.Valid, Alike, Dels, Shown;
    AlikeItself(e.w);
    NothingLost(n, e.buf, []);
    if raw {
      ErasesSomething(e.buf);
      assert e.buf == [];
      NothingToErase(raw, n, x, e, k);
    } else if k.ch == ERASE_CHAR {
      CharTrack(e, y, x);
    } else if k.ch == ERASE_LINE {
      LineTrack(e, y, x);
    } else {
      WordTrack(e, y, x);
    }
  }

  lemma NothingToErase(raw: bool, n: int, x: int, e: Edit, k: Key)
    requires e.buf == [] && (k.ch == ERASE_CHAR || k.ch == ERASE_LINE || k.ch == ERASE_WORD)
    ensures OnKey(raw, true, n, x, e, k) == e
  {
  }

  /** Every erasing key takes something off a line that is not empty. */
  lemma ErasesSomething(buf: seq<Byte>)
    ensures buf != [] ==> |TrimNonblanks(TrimBlanks(buf))| < |buf|
  {
  }

  lemma AlikeFrame(w: Win, v: Win)
    requires Alike(w, v)
    ensures SameFrame(w, v)
  {
  }

  lemma AlikeSize(w: Win, v: Win)
    requires Alike(w, v)
    ensures v.maxx == w.maxx
  {
  }

  lemma AlikeItself(w: Win)
    ensures Alike(w, w)
  {
  }

  lemma TrackCursor(raw: bool, e: Edit, y: int, x: int, d: nat)
    requires Track(raw, e, y, x, d)
    ensures 0 <= x && e.w.curx == x + |Shown(raw, e.buf)| + d && e.w.cury == y
  {
  }

  lemma NothingLost(n: int, buf: seq<Byte>, s: seq<Byte>)
    ensures Dels(Lost(buf, Fit(n, buf, s))) == 0 && Dels(Lost(buf, buf)) == 0
  {
  }

  lemma CharTrack(e: Edit, y: int, x: int)
    requires Track(false, e, y, x, 0)
    ensures e.buf != [] ==>
              (var f := Erase1(false, true, e);
               Alike(e.w, f.w) && Track(false, f, y, x, Dels(Lost(e.buf, f.buf))))
    ensures e.buf == [] ==> Track(false, e, y, x, Dels(Lost(e.buf, e.buf)))
  {
    hide Track, Erase1;
    if e.buf != [] {
      EraseTrack(e, y, x, 0);
      assert e.buf[|e.buf| - 1..] == [e.buf[|e.buf| - 1]];
      assert [e.buf[|e.buf| - 1]][..0] == [];
    }
  }

  lemma LineTrack(e: Edit, y: int, x: int)
    requires Track(false, e, y, x, 0)
    ensures var f := EraseAll(false, true, e);
            f.buf == [] && Alike(e.w, f.w) && Track(false, f, y, x, Dels(Lost(e.buf, f.buf)))
  {
    hide Track, EraseAll;
    EraseAllTrack(e, y, x, 0);
    assert e.buf[0..] == e.buf;
  }

  lemma WordTrack(e: Edit, y: int, x: int)
    requires Track(false, e, y, x, 0)
    ensures var f := EraseNonblanks(false, true, EraseBlanks(false, true, e));
            && f.buf == TrimNonblanks(TrimBlanks(e.buf)) && Alike(e.w, f.w)
            && Track(false, f, y, x, Dels(Lost(e.buf, f.buf)))
  {
    hide *;
    var g := EraseBlanks(false, true, e);
    EraseBlanksTrack(e, y, x, 0);
    EraseNonblanksTrack(g, y, x, 0);
    LostTwice(e.buf, g.buf, TrimNonblanks(g.buf));
    AlikeTransitive(e.w, g.w, EraseNonblanks(false, true, g).w);
  }

  /** What two cuts off the end take away. */
  lemma LostTwice(a: seq<Byte>, b: seq<Byte>, c: seq<Byte>)
    requires |c| <= |b| <= |a| && b == a[..|b|]
    ensures Dels(Lost(a, c)) == Dels(b[|c|..]) + Dels(a[|b|..])
  {
    assert a[|c|..] == b[|c|..] + a[|b|..];
    DelsAppend(b[|c|..], a[|b|..]);
  }

  lemma AlikeTransitive(u: Win, v: Win, w: Win)
    requires Alike(u, v) && Alike(v, w)
    ensures Alike(u, w)
  {
  }

  lemma {:induction false} DelsAppend(s: seq<Byte>, t: seq<Byte>)
    ensures Dels(s + t) == Dels(s) + Dels(t)
    decreases |t|
  {
    if t == [] {
      assert s + t == s;
    } else {
      assert (s + t)[..|s + t| - 1] == s + t[..|t| - 1];
      DelsAppend(s, t[..|t| - 1]);
    }
  }

  lemma {:induction false} DelsIn(s: seq<Byte>)
    ensures Dels(s) == 0 <==> DEL !in s
  {
    if s != [] {
      DelsIn(s[..|s| - 1]);
      assert s == s[..|s| - 1] + [s[|s| - 1]];
    }
  }

  // ---------------------------------------------------------------- raw output only moves on

  /** The cursor is at or behind column c of row y. */
  predicate Past(w: Win, y: int, c: int) { w.cury > y || (w.cury == y && w.curx >= c) }

  /** A wrap on row y does not come back to row y. */
  predicate WrapsAway(w: Win, y: int) { !w.scroll || y < w.bmarg }

  lemma PlainPast(w: Win, y: int, c: int, ch: Chtype)
    requires Past(w, y, c) && WrapsAway(w, y)
    ensures var v := AddPlain(w, ch).win; Past(v, y, c) && WrapsAway(v, y)
  {
    hide Blend;
  }

  lemma {:induction false} TextPast(w: Win, y: int, c: int, s: seq<Chtype>)
    requires Past(w, y, c) && WrapsAway(w, y)
    ensures var v := AddStr(true, w, s).win; Past(v, y, c) && WrapsAway(v, y)
  {
    if s != [] {
      hide AddPlain, Past, WrapsAway, RawWin.Valid;
      var t := s[..|s| - 1];
      TextPast(w, y, c, t);
      PlainPast(AddStr(true, w, t).win, y, c, s[|s| - 1]);
    }
  }

  lemma ErasePast(e: Edit, y: int, c: int)
    requires e.buf != [] && Past(e.w, y, c) && WrapsAway(e.w, y)
    ensures var v := Erase1(true, true, e).w; Past(v, y, c) && WrapsAway(v, y)
  {
    hide AddStr, Plain, Past, WrapsAway, RawWin.Valid;
    TextPast(e.w, y, c, Plain(RUB));
    TextPast(RubOut(true, true, e.w), y, c, Plain(RUB));
  }

  lemma {:induction false} EraseMorePast(e: Edit, y: int, c: int)
    requires Past(e.w, y, c) && WrapsAway(e.w, y)
    ensures var v := EraseAll(true, true, e).w; Past(v, y, c) && WrapsAway(v, y)
    ensures var v := EraseBlanks(true, true, e).w; Past(v, y, c) && WrapsAway(v, y)
    ensures var v := EraseNonblanks(true, true, e).w; Past(v, y, c) && WrapsAway(v, y)
    decreases |e.buf|
  {
    hide Erase1, Past, WrapsAway, RawWin.Valid;
    if e.buf != [] {
      ErasePast(e, y, c);
      EraseMorePast(Erase1(true, true, e), y, c);
    }
  }

  /** With raw output erasing writes three more characters, six for a control character,
      and never takes the cursor back. */
  lemma KeyPast(n: int, x: int, e: Edit, y: int, k: Key)
    requires Past(e.w, y, e.w.curx) && WrapsAway(e.w, y)
    requires k.ch == ERASE_CHAR || k.ch == ERASE_LINE || k.ch == ERASE_WORD
    ensures Past(OnKey(true, true, n, x, e, k).w, y, e.w.curx)
  {
    hide Erase1, EraseAll, EraseBlanks, EraseNonblanks, Past, WrapsAway, RawWin.Valid;
    if e.buf != [] {
      ErasePast(e, y, e.w.curx);
    }
    EraseMorePast(e, y, e.w.curx);
    EraseMorePast(EraseBlanks(true, true, e), y, e.w.curx);
  }

  // ---------------------------------------------------------------- one key, exactly

  /** These characters can be erased from the screen: none that has left two columns and
      gives back one, and none at all with raw output. */
  predicate Spared(raw: bool, lost: seq<Byte>) { if raw then lost == [] else DEL !in lost }

  /** The echo stays right exactly when the line still ends before the edge and the key
      erases nothing that it cannot take off the screen; only with raw output on a row that
      scrolls can it come out right otherwise. */
  lemma KeyEchoExact(raw: bool, n: int, x: int, e: Edit, y: int, k: Key)
    requires Stands(e.w, y, x, Shown(raw, e.buf)) && |e.buf| <= Max(n, 0) && !Stops(k)
    ensures var f := OnKey(raw, true, n, x, e, k);
            var (right, harmless) := (Stands(f.w, y, x, Shown(raw, f.buf)),
                                      Fits(raw, e.w.maxx, x, f.buf) && Spared(raw, Lost(e.buf, f.buf)));
            && f.buf == EditBy(raw, true, n, e.buf, k) && |f.buf| <= Max(n, 0) && Alike(e.w, f.w)
            && (harmless ==> right) && (right ==> harmless || (raw && !WrapsAway(e.w, y)))
  {
    hide OnKey, EditBy, Stands, Shown, Lost, Dels, Alike, Max, WrapsAway, RawWin.Valid;
    var f := OnKey(raw, true, n, x, e, k);
    StandsTracks(raw, e, y, x);
    TrackCursor(raw, e, y, x, 0);
    KeyBuffer(raw, true, n, x, e, k);
    KeyAlike(raw, n, x, e, k);
    AlikeSize(e.w, f.w);
    if !Fits(raw, e.w.maxx, x, f.buf) {
      StandsFits(raw, f, y, x);
    } else if raw && Lost(e.buf, f.buf) != [] {
      if WrapsAway(e.w, y) {
        RawErased(n, x, e, y, k);
      }
    } else {
      KeyTrack(raw, n, x, e, y, k);
      DelsIn(Lost(e.buf, f.buf));
      TrackExact(raw, f, y, x, Dels(Lost(e.buf, f.buf)));
    }
  }

  /** What stands in a row ends before its edge. */
  lemma StandsFits(raw: bool, e: Edit, y: int, x: int)
    ensures Stands(e.w, y, x, Shown(raw, e.buf)) ==> Fits(raw, e.w.maxx, x, e.buf)
  {
    hide Shown;
  }

  lemma RawErased(n: int, x: int, e: Edit, y: int, k: Key)
    requires e.w.cury == y && e.w.curx == x + |Shown(true, e.buf)| && |e.buf| <= Max(n, 0) && WrapsAway(e.w, y)
    requires Lost(e.buf, EditBy(true, true, n, e.buf, k)) != []
    ensures var f := OnKey(true, true, n, x, e, k); !Stands(f.w, y, x, Shown(true, f.buf))
  {
    hide Stands, TypeBlanks, EraseAll, EraseBlanks, EraseNonblanks, Erase1, Fit, WrapsAway, TrimBlanks, TrimNonblanks;
    var f := OnKey(true, true, n, x, e, k);
    KeyBuffer(true, true, n, x, e, k);
    OnlyErasing(n, e.buf, k);
    KeyPast(n, x, e, y, k);
    hide OnKey, EditBy;
    RawShown(e.buf);
    RawShown(f.buf);
    if Stands(f.w, y, x, Shown(true, f.buf)) {
      StandsCursor(f.w, y, x, Shown(true, f.buf));
      assert false;
    }
  }

  /** Only the erasing keys shorten the line. */
  lemma OnlyErasing(n: int, buf: seq<Byte>, k: Key)
    requires Lost(buf, EditBy(true, true, n, buf, k)) != []
    ensures k.ch == ERASE_CHAR || k.ch == ERASE_LINE || k.ch == ERASE_WORD
  {
  }

  lemma {:induction false} RawShown(buf: seq<Byte>)
    ensures Shown(true, buf) == buf
  {
    if buf != [] {
      RawShown(buf[..|buf| - 1]);
    }
  }

  /** No key changes the window's size, attributes or scrolling. */
  lemma KeyAlike(raw: bool, n: int, x: int, e: Edit, k: Key)
    ensures Alike(e.w, OnKey(raw, true, n, x, e, k).w)
  {
    hide Alike, TypeBlanks, EraseAll, EraseBlanks, EraseNonblanks, Erase1, Type, RawWin.Valid;
    AlikeItself(e.w);
    if k.ch == TAB {
      BlanksAlike(raw, n, e, TABSIZE - Rem(e.w.curx - x, TABSIZE));
    } else if k.ch == ERASE_WORD {
      EraseAlike(raw, e);
      EraseAlike(raw, EraseBlanks(raw, true, e));
      AlikeTransitive(e.w, EraseBlanks(raw, true, e).w, EraseNonblanks(raw, true, EraseBlanks(raw, true, e)).w);
    } else if 0 <= k.ch < 0x100 {
      TypeAlike(raw, n, e, k.ch);
      EraseAlike(raw, e);
    }
  }

  lemma PlainAlike(w: Win, ch: Chtype)
    ensures Alike(w, AddPlain(w, ch).win)
  {
    hide Blend;
  }

  lemma {:induction false} TabAlike(w: Win, ch: Chtype, k: nat)
    ensures Alike(w, AddBlanks(w, ch, k).win)
    decreases k
  {
    hide Alike, AddPlain, RawWin.Valid;
    AlikeItself(w);
    if k > 0 {
      var u := AddPlain(w, ch.WithText(SPACE)).win;
      PlainAlike(w, ch.WithText(SPACE));
      TabAlike(u, ch, k - 1);
      AlikeTransitive(w, u, AddBlanks(u, ch, k - 1).win);
    }
  }

  lemma PairAlike(w: Win, a: Chtype, b: Chtype)
    ensures Alike(w, AddPair(w, a, b).win)
  {
    hide Alike, AddPlain, RawWin.Valid;
    var u := AddPlain(w, a).win;
    PlainAlike(w, a);
    PlainAlike(u, b);
    AlikeTransitive(w, u, AddPlain(u, b).win);
  }

  lemma CharAlike(raw: bool, w: Win, ch: Chtype)
    ensures Alike(w, AddCh(raw, w, ch).win)
  {
    hide AddPlain, AddBlanks, AddPair;
    if !Expands(raw, ch) {
      PlainAlike(w, ch);
    } else if ch.text == TAB {
      TabAlike(w, ch, TABSIZE - w.curx % TABSIZE);
    } else if ch.text == DEL {
      PairAlike(w, ch.WithText(CARET), ch.WithText(QUESTION));
    } else if ch.text != NEWLINE && ch.text != BACKSPACE && ch.text != RETURN {
      PairAlike(w, ch.WithText(CARET), ch.WithText(ch.text + AT_SIGN));
    }
  }

  lemma {:induction false} TextAlike(raw: bool, w: Win, s: seq<Chtype>)
    ensures Alike(w, AddStr(raw, w, s).win)
  {
    hide Alike, AddCh, RawWin.Valid;
    AlikeItself(w);
    if s != [] {
      var (t, c) := (s[..|s| - 1], s[|s| - 1]);
      var u := AddStr(raw, w, t).win;
      TextAlike(raw, w, t);
      CharAlike(raw, u, c);
      AlikeTransitive(w, u, AddCh(raw, u, c).win);
    }
  }

  lemma RubAlike(raw: bool, e: Edit)
    requires e.buf != []
    ensures Alike(e.w, Erase1(raw, true, e).w)
  {
    hide Alike, AddStr, Plain, RawWin.Valid;
    var u := RubOut(raw, true, e.w);
    TextAlike(raw, e.w, Plain(RUB));
    TextAlike(raw, u, Plain(RUB));
    AlikeTransitive(e.w, u, RubOut(raw, true, u));
  }

  lemma TypeAlike(raw: bool, n: int, e: Edit, c: Byte)
    ensures Alike(e.w, Type(raw, true, n, e, c).w)
  {
    hide Alike, AddCh;
    AlikeItself(e.w);
    CharAlike(raw, e.w, Ch(0, 0, c));
  }

  lemma {:induction false} BlanksAlike(raw: bool, n: int, e: Edit, k: nat)
    ensures Alike(e.w, TypeBlanks(raw, true, n, e, k).w)
    decreases k
  {
    hide Alike, Type, RawWin.Valid;
    AlikeItself(e.w);
    if k > 0 {
      var f := Type(raw, true, n, e, SPACE);
      TypeAlike(raw, n, e, SPACE);
      BlanksAlike(raw, n, f, k - 1);
      AlikeTransitive(e.w, f.w, TypeBlanks(raw, true, n, f, k - 1).w);
    }
  }

  lemma {:induction false} EraseAlike(raw: bool, e: Edit)
    ensures Alike(e.w, EraseAll(raw, true, e).w) && Alike(e.w, EraseBlanks(raw, true, e).w)
    ensures Alike(e.w, EraseNonblanks(raw, true, e).w) && (e.buf != [] ==> Alike(e.w, Erase1(raw, true, e).w))
    decreases |e.buf|
  {
    hide Alike, Erase1, RawWin.Valid;
    AlikeItself(e.w);
    if e.buf != [] {
      var f := Erase1(raw, true, e);
      RubAlike(raw, e);
      EraseAlike(raw, f);
      AlikeTransitive(e.w, f.w, EraseAll(raw, true, f).w);
      AlikeTransitive(e.w, f.w, EraseBlanks(raw, true, f).w);
      AlikeTransitive(e.w, f.w, EraseNonblanks(raw, true, f).w);
    }
  }

  // ---------------------------------------------------------------- whole lines

  /** Keys typed before the end of the line. */
  predicate Typing(keys: seq<Key>) { forall i | 0 <= i < |keys| :: !Stops(keys[i]) }

  /** The window shows the buffer after these keys. */
  ghost predicate EchoRight(raw: bool, n: int, w: Win, keys: seq<Key>) {
    var e := After(raw, true, n, w, keys);
    Stands(e.w, w.cury, w.curx, Shown(raw, e.buf))
  }

  /** It has done so after each of the keys. */
  ghost predicate AlwaysRight(raw: bool, n: int, w: Win, keys: seq<Key>) {
    forall i | 0 <= i <= |keys| :: EchoRight(raw, n, w, keys[..i])
  }

  /** The key at i leaves a line that ends before the edge, and erases nothing that it
      cannot take off the screen. */
  predicate KeyHarmless(raw: bool, n: int, w: Win, keys: seq<Key>, i: int)
    requires 0 <= i < |keys|
  {
    var (before, after) := (Edited(raw, true, n, keys[..i]), Edited(raw, true, n, keys[..i + 1]));
    Fits(raw, w.maxx, w.curx, after) && Spared(raw, Lost(before, after))
  }

  predicate Harmless(raw: bool, n: int, w: Win, keys: seq<Key>) {
    forall i | 0 <= i < |keys| :: KeyHarmless(raw, n, w, keys, i)
  }

  /** With echo on, the window shows the buffer from the start of the line to the cursor
      after every key if and only if the displayed line always ends before the edge and no
      key erases a DEL, or anything at all with raw output; and then the buffer is the
      fold of the edits and never longer than n. (With raw output on a row that scrolls a
      line can come out right by chance: RawLuck.) */
  lemma {:induction false} EchoExact(raw: bool, n: int, w: Win, keys: seq<Key>)
    requires Typing(keys)
    ensures Harmless(raw, n, w, keys) ==> AlwaysRight(raw, n, w, keys)
    ensures AlwaysRight(raw, n, w, keys) ==> Harmless(raw, n, w, keys) || (raw && !WrapsAway(w, w.cury))
    ensures var e := After(raw, true, n, w, keys);
            AlwaysRight(raw, n, w, keys) ==>
            e.buf == Edited(raw, true, n, keys) && |e.buf| <= Max(n, 0) && Alike(w, e.w)
  {
    hide Stands, OnKey, EditBy, KeyHarmless, WrapsAway;
    if keys == [] {
      NothingStands(w);
      RefreshStands(w, w.cury, w.curx, []);
    } else {
      var prefix := keys[..|keys| - 1];
      EchoExact(raw, n, w, prefix);
      RightPrefix(raw, n, w, keys);
      HarmlessPrefix(raw, n, w, keys);
      if AlwaysRight(raw, n, w, prefix) {
        assert EchoRight(raw, n, w, prefix[..|prefix|]) && prefix[..|prefix|] == prefix;
        EchoNext(raw, n, w, keys);
      }
    }
  }

  lemma NothingStands(w: Win)
    ensures Stands(w, w.cury, w.curx, [])
  {
  }

  lemma RightPrefix(raw: bool, n: int, w: Win, keys: seq<Key>)
    requires keys != []
    ensures AlwaysRight(raw, n, w, keys) <==> AlwaysRight(raw, n, w, keys[..|keys| - 1]) && EchoRight(raw, n, w, keys)
  {
    hide EchoRight;
    var prefix := keys[..|keys| - 1];
    assert keys[..|keys|] == keys;
    assert forall i | 0 <= i <= |prefix| :: keys[..i] == prefix[..i];
    if AlwaysRight(raw, n, w, keys) {
      assert EchoRight(raw, n, w, keys[..|keys|]);
      assert forall i | 0 <= i <= |prefix| :: EchoRight(raw, n, w, keys[..i]);
    }
  }

  lemma HarmlessPrefix(raw: bool, n: int, w: Win, keys: seq<Key>)
    requires keys != []
    ensures var last := |keys| - 1;
            Harmless(raw, n, w, keys) <==> Harmless(raw, n, w, keys[..last]) && KeyHarmless(raw, n, w, keys, last)
  {
    hide KeyHarmless;
    var prefix := keys[..|keys| - 1];
    forall i | 0 <= i < |prefix|
      ensures KeyHarmless(raw, n, w, keys, i) <==> KeyHarmless(raw, n, w, prefix, i)
    {
      HarmlessSame(raw, n, w, keys, prefix, i);
    }
  }

  lemma HarmlessSame(raw: bool, n: int, w: Win, keys: seq<Key>, prefix: seq<Key>, i: nat)
    requires i < |prefix| <= |keys| && prefix == keys[..|prefix|]
    ensures KeyHarmless(raw, n, w, keys, i) <==> KeyHarmless(raw, n, w, prefix, i)
  {
    hide Edited, Lost, Fits, Spared;
    assert keys[..i] == prefix[..i] && keys[..i + 1] == prefix[..i + 1];
  }

  /** One key more. */
  lemma EchoNext(raw: bool, n: int, w: Win, keys: seq<Key>)
    requires keys != [] && Typing(keys) && EchoRight(raw, n, w, keys[..|keys| - 1])
    requires var e := After(raw, true, n, w, keys[..|keys| - 1]);
             e.buf == Edited(raw, true, n, keys[..|keys| - 1]) && |e.buf| <= Max(n, 0) && Alike(w, e.w)
    ensures KeyHarmless(raw, n, w, keys, |keys| - 1) ==> EchoRight(raw, n, w, keys)
    ensures EchoRight(raw, n, w, keys) ==> KeyHarmless(raw, n, w, keys, |keys| - 1) || (raw && !WrapsAway(w, w.cury))
    ensures var f := After(raw, true, n, w, keys);
            f.buf == Edited(raw, true, n, keys) && |f.buf| <= Max(n, 0) && Alike(w, f.w)
  {
    hide Stands, OnKey, EditBy, Lost, Fits, Spared, Shown, Max, RawWin.Valid;
    var k := keys[|keys| - 1];
    var e := After(raw, true, n, w, keys[..|keys| - 1]);
    var f := OnKey(raw, true, n, w.curx, e, k);
    assert keys[..|keys|] == keys;
    KeyEchoExact(raw, n, w.curx, e, w.cury, k);
    RefreshStands(f.w, w.cury, w.curx, Shown(raw, f.buf));
  }

  /** Without DEL keys the echo is right as long as the line fits. */
  lemma EchoAgrees(n: int, w: Win, keys: seq<Key>)
    requires Typing(keys) && forall i | 0 <= i < |keys| :: keys[i].keyCode || keys[i].ch != DEL
    ensures AlwaysRight(false, n, w, keys) <==>
            forall i | 0 <= i <= |keys| :: Fits(false, w.maxx, w.curx, Edited(false, true, n, keys[..i]))
  {
    hide AlwaysRight, Edited, Fits;
    EmptyFits(w);
    assert keys[..0] == [];
    forall i | 0 <= i < |keys|
      ensures KeyHarmless(false, n, w, keys, i) <==> Fits(false, w.maxx, w.curx, Edited(false, true, n, keys[..i + 1]))
    {
      EditedProper(n, keys[..i]);
    }
    if forall i | 0 <= i <= |keys| :: Fits(false, w.maxx, w.curx, Edited(false, true, n, keys[..i])) {
      forall i | 0 <= i < |keys|
        ensures KeyHarmless(false, n, w, keys, i)
      {
        var next := i + 1;
        assert Fits(false, w.maxx, w.curx, Edited(false, true, n, keys[..next]));
      }
    } else if Harmless(false, n, w, keys) {
      forall i | 0 <= i <= |keys|
        ensures Fits(false, w.maxx, w.curx, Edited(false, true, n, keys[..i]))
      {
        assert i > 0 ==> KeyHarmless(false, n, w, keys, i - 1);
      }
    }
    EchoExact(false, n, w, keys);
  }

  lemma EmptyFits(w: Win)
    ensures Edited(false, true, 0, []) == [] && Fits(false, w.maxx, w.curx, [])
    ensures forall n :: Edited(false, true, n, []) == []
  {
  }

  lemma {:induction false} EditedProper(n: int, keys: seq<Key>)
    requires forall i | 0 <= i < |keys| :: keys[i].keyCode || keys[i].ch != DEL
    ensures DEL !in Edited(false, true, n, keys)
  {
    if keys != [] {
      EditedProper(n, keys[..|keys| - 1]);
      EditProper(n, Edited(false, true, n, keys[..|keys| - 1]), keys[|keys| - 1]);
    }
  }

  lemma EditProper(n: int, buf: seq<Byte>, k: Key)
    requires DEL !in buf && (k.keyCode || k.ch != DEL)
    ensures DEL !in EditBy(false, true, n, buf, k)
  {
  }

  lemma StandsTracks(raw: bool, e: Edit, y: int, x: int)
    requires Stands(e.w, y, x, Shown(raw, e.buf))
    ensures Track(raw, e, y, x, 0)
  {
  }

  lemma RefreshStands(w: Win, y: int, x: int, s: seq<Half>)
    ensures Stands(NoutWin(w), y, x, s) <==> Stands(w, y, x, s)
  {
    hide Blend;
    assert forall k | 0 <= k < |s| && 0 <= x && w.curx == x + |s| ::
           (StandsAt(NoutWin(w), x, s, k) <==> StandsAt(w, x, s, k));
  }

  // ---------------------------------------------------------------- where it goes wrong

  lemma AfterTwo(raw: bool, n: int, w: Win, k: Key, l: Key)
    ensures After(raw, true, n, w, [k]) ==
            var e := OnKey(raw, true, n, w.curx, Edit(NoutWin(w), []), k); e.(w := NoutWin(e.w))
    ensures After(raw, true, n, w, [k, l]) ==
            var e := OnKey(raw, true, n, w.curx, After(raw, true, n, w, [k]), l); e.(w := NoutWin(e.w))
  {
    hide OnKey;
    assert [k, l][..1] == [k] && [k][..0] == [];
  }

  lemma RefreshMoves(w: Win)
    ensures NoutWin(w).curx == w.curx && NoutWin(w).cury == w.cury && NoutWin(w).maxx == w.maxx
  {
  }

  /** It does go wrong: a DEL typed and erased leaves the cursor a column off the empty
      buffer, in any window with room for the DEL. */
  lemma DelEchoBreaks(w: Win)
    requires w.curx + 2 < w.maxx
    ensures var e := After(false, true, 1, w, [Key(DEL, false), Key(ERASE_CHAR, false)]);
            e.buf == [] && e.w.curx == w.curx + 1
  {
    hide *;
    var (k, l) := (Key(DEL, false), Key(ERASE_CHAR, false));
    var e := After(false, true, 1, w, [k]);
    DelKeys();
    DelTyped(w);
    KeyTrack(false, 1, w.curx, e, w.cury, l);
    TrackCursor(false, OnKey(false, true, 1, w.curx, e, l), w.cury, w.curx, 1);
    AfterTwo(false, 1, w, k, l);
    RefreshMoves(OnKey(false, true, 1, w.curx, e, l).w);
  }

  /** A DEL typed on an empty line. */
  lemma DelTyped(w: Win)
    requires w.curx + 2 < w.maxx
    ensures var e := After(false, true, 1, w, [Key(DEL, false)]);
            e.buf == [DEL] && Track(false, e, w.cury, w.curx, 0) && Fits(false, e.w.maxx, w.curx, [])
  {
    hide *;
    var k := Key(DEL, false);
    var e := Edit(NoutWin(w), []);
    DelKeys();
    NothingStands(NoutWin(w));
    RefreshMoves(w);
    StandsTracks(false, e, w.cury, w.curx);
    DelFits(w);
    KeyTrack(false, 1, w.curx, e, w.cury, k);
    var f := OnKey(false, true, 1, w.curx, e, k);
    KeyAlike(false, 1, w.curx, e, k);
    AlikeFrame(NoutWin(w), f.w);
    AfterTwo(false, 1, w, k, k);
    TrackRefreshed(false, f, w.cury, w.curx);
    FrameFits(w, f.w);
  }

  lemma FrameFits(w: Win, v: Win)
    requires SameFrame(NoutWin(w), v)
    ensures NoutWin(v).maxx == w.maxx && Fits(false, w.maxx, w.curx, [])
  {
  }

  lemma DelFits(w: Win)
    ensures w.curx + 2 < w.maxx ==> Fits(false, NoutWin(w).maxx, w.curx, [DEL])
  {
    assert [DEL][..0] == [];
  }

  lemma TrackRefreshed(raw: bool, e: Edit, y: int, x: int)
    requires Track(raw, e, y, x, 0)
    ensures Track(raw, e.(w := NoutWin(e.w)), y, x, 0)
  {
    hide Shown;
    RefreshStands(e.w, y, x, Shown(raw, e.buf));
  }

  lemma DelKeys()
    ensures EditBy(false, true, 1, [], Key(DEL, false)) == [DEL] && Dels(Lost([], [DEL])) == 0 && Shown(false, []) == []
    ensures EditBy(false, true, 1, [DEL], Key(ERASE_CHAR, false)) == [] && Dels(Lost([DEL], [])) == 1
    ensures !Stops(Key(DEL, false)) && !Stops(Key(ERASE_CHAR, false)) && Max(1, 0) == 1
  {
    assert [DEL][..0] == [] && [DEL][0..] == [DEL] && [DEL][..1] == [DEL];
  }

  /** With raw output a letter typed and erased leaves four. */
  lemma RawEchoBreaks(w: Win, c: Byte)
    requires w.curx + 4 < w.maxx && SPACE <= c
    ensures var e := After(true, true, 1, w, [Key(c, false), Key(ERASE_CHAR, false)]);
            e.buf == [] && e.w.curx == w.curx + 4
  {
    hide AddPlain, After;
    var (k, l) := (Key(c, false), Key(ERASE_CHAR, false));
    var e := OnKey(true, true, 1, w.curx, Edit(NoutWin(w), []), k);
    AfterTwo(true, 1, w, k, l);
    assert e.buf == [c];
    StoredPlain(NoutWin(w), Ch(0, 0, c));
    RawRub(NoutWin(e.w));
  }

  lemma RawRub(w: Win)
    requires w.curx + 3 < w.maxx
    ensures RubOut(true, true, w).curx == w.curx + 3
  {
    var p := Plain(RUB);
    assert p == [Ch(0, 0, BACKSPACE), Ch(0, 0, SPACE), Ch(0, 0, BACKSPACE)];
    RawThree(w, p[0], p[1], p[2]);
    hide AddStr;
  }

  lemma RawThree(w: Win, a: Chtype, b: Chtype, c: Chtype)
    requires w.curx + 3 < w.maxx
    ensures AddStr(true, w, [a, b, c]).win.curx == w.curx + 3
  {
    hide AddPlain;
    var u := AddPlain(w, a).win;
    var v := AddPlain(u, b).win;
    StoredPlain(w, a);
    StoredPlain(u, b);
    StoredPlain(v, c);
    assert [a, b, c][..2] == [a, b] && [a, b][..1] == [a] && [a][..0] == [];
    assert AddStr(true, w, [a]) == AddPlain(w, a);
    assert AddStr(true, w, [a, b]) == AddPlain(u, b);
  }

  /** By chance it can come out right with raw output: in the one row of a scrolling window
      of four columns the three characters bring the cursor back to the first. */
  lemma RawLuck(c: Byte)
    requires SPACE <= c
    ensures var w := NewWin(1, 4, 0, 0, false).(scroll := true);
            var keys := [Key(c, false), Key(ERASE_CHAR, false)];
            EchoRight(true, 1, w, keys) && !KeyHarmless(true, 1, w, keys, 1)
  {
    hide AddPlain, After, NewWin, RawWin.Valid;
    var w := LuckyWin();
    var (k, l) := (Key(c, false), Key(ERASE_CHAR, false));
    LuckyBuffer(c);
    AfterTwo(true, 1, w, k, l);
    StoredPlain(NoutWin(w), Ch(0, 0, c));
    LuckyRub(After(true, true, 1, w, [k]).w);
  }

  function LuckyWin(): (w: Win)
    ensures w == NewWin(1, 4, 0, 0, false).(scroll := true) && w.maxx == 4 &&
            w.curx == w.cury == w.bmarg == 0 && w.scroll
  {
    NewWin(1, 4, 0, 0, false).(scroll := true)
  }

  lemma LuckyBuffer(c: Byte)
    requires SPACE <= c
    ensures var keys := [Key(c, false), Key(ERASE_CHAR, false)];
            Edited(true, true, 1, keys[..1]) == [c] && Edited(true, true, 1, keys[..2]) == [] && Lost([c], []) == [c]
  {
    var keys := [Key(c, false), Key(ERASE_CHAR, false)];
    assert keys[..2][..1] == keys[..1] && keys[..1][..0] == [] && [c][..1] == [c] && [c][..0] == [] && [c][0..] == [c];
    assert Edited(true, true, 1, []) == [];
    assert Edited(true, true, 1, keys[..1]) == EditBy(true, true, 1, [], keys[0]);
  }

  lemma LuckyRub(w: Win)
    requires w.maxx == 4 && w.curx == 1 && w.scroll && w.cury == w.bmarg
    ensures RubOut(true, true, w).curx == 0 && RubOut(true, true, w).cury == w.cury
  {
    var p := Plain(RUB);
    var (a, b, c) := (Ch(0, 0, BACKSPACE), Ch(0, 0, SPACE), Ch(0, 0, BACKSPACE));
    assert p == [a, b, c] && [a, b, c][..2] == [a, b] && [a, b][..1] == [a] && [a][..0] == [];
    StoredPlain(w, a);
    var u := AddPlain(w, a).win;
    StoredPlain(u, b);
    var v := AddPlain(u, b).win;
    WrappedPlain(v, c);
    hide AddPlain;
    assert AddStr(true, w, [a]) == AddPlain(w, a);
    assert AddStr(true, w, [a, b]) == AddPlain(u, b);
  }

  lemma WrappedPlain(w: Win, c: Chtype)
    requires w.curx + 1 == w.maxx && w.scroll && w.cury == w.bmarg
    ensures var o := AddPlain(w, c); o.ok && o.win.curx == 0 && o.win.cury == w.cury
  {
    hide Blend;
  }

  // ---------------------------------------------------------------- without echo

  /** With echo off the window keeps its cells and its cursor, and the buffer is the fold
      of the edits with tabs that ignore what has been typed. */
  lemma {:induction false} SilentAgrees(raw: bool, n: int, w: Win, keys: seq<Key>)
    requires Typing(keys)
    ensures var e := After(raw, false, n, w, keys);
            && e.buf == Edited(raw, false, n, keys) && |e.buf| <= Max(n, 0)
            && e.w.cells == w.cells && e.w.curx == w.curx && e.w.cury == w.cury
  {
    if keys != [] {
      SilentAgrees(raw, n, w, keys[..|keys| - 1]);
      var e := After(raw, false, n, w, keys[..|keys| - 1]);
      hide EditBy, OnKey;
      KeyBuffer(raw, false, n, w.curx, e, keys[|keys| - 1]);
    }
  }
}
