/** wgetnstr: keys edit a buffer in place and the window echoes it. Each step is
    proved to be the one of EditorModel. */
module LineEditor {
  import opened Cells
  import opened WindowModel
  import opened RefreshModel
  import opened Windows
  import opened Screens
  import opened EditorModel

  class Editor {
    const win: Window
    const screen: Screen
    /** SP->raw_out, SP->echo, SP->cbreak and the window's _nodelay. */
    var rawOut: bool
    var echo: bool
    var cbreak: bool
    var nodelay: bool

    constructor (win: Window, screen: Screen, rawOut: bool, echo: bool, cbreak: bool, nodelay: bool)
      ensures this.win == win && this.screen == screen
      ensures this.rawOut == rawOut && this.echo == echo && this.cbreak == cbreak && this.nodelay == nodelay
    {
      this.win, this.screen, this.rawOut := win, screen, rawOut;
      this.echo, this.cbreak, this.nodelay := echo, cbreak, nodelay;
    }

    /** A window of the program on a live screen, and a buffer of the caller's own. */
    ghost predicate Valid(str: array<Byte>)
      reads win, win.Repr, screen, screen.curscr, screen.lastscr, screen.Repr()
    {
      && screen.Valid() && win.Valid() && win in win.Repr && win.Repr !! screen.Repr() && Inside(win.m, screen.curscr.m)
      && {this, str} !! win.Repr + screen.Repr() && screen.curscr in screen.Repr() && screen.lastscr in screen.Repr()
    }

    ghost function State(str: array<Byte>, p: nat): Edit
      requires p <= str.Length
      reads win, str
    {
      Edit(win.m, str[..p])
    }

    method PutEcho(str: array<Byte>, oldEcho: bool, c: Byte)
      requires Valid(str)
      modifies win.Repr
      ensures Valid(str) && win.Repr == old(win.Repr) && win.m == Echo(rawOut, oldEcho, old(win.m), c)
    {
      hide Window.Valid, Screen.Valid, AddCh, RawWin.Valid;
      if oldEcho {
        var ok := win.AddCh(rawOut, Ch(0, 0, c));
      }
    }

    /** The window part of a deletion. */
    method PutRub(str: array<Byte>, oldEcho: bool)
      requires Valid(str)
      modifies win.Repr
      ensures Valid(str) && win.Repr == old(win.Repr) && win.m == EditorModel.RubOut(rawOut, oldEcho, old(win.m))
    {
      hide Window.Valid, Screen.Valid, AddStr, RawWin.Valid;
      if oldEcho {
        RubText();
        var ok := win.AddStr(rawOut, RUB, -1);
      }
    }

    lemma RubText()
      ensures CText(RUB, -1) == RUB
    {
      var one: seq<Half> := [BACKSPACE];
      var two: seq<Half> := [SPACE, BACKSPACE];
      assert CText([], -4) == [] && one[1..] == [] && CText(one, -3) == one;
      assert two[1..] == one && CText(two, -2) == two;
      assert RUB[1..] == two;
    }

    method TypeChar(str: array<Byte>, p: nat, n: int, oldEcho: bool, c: Byte) returns (q: nat)
      requires Valid(str) && p < str.Length && Max(n, 0) < str.Length && p <= Max(n, 0)
      modifies win.Repr, str
      ensures Valid(str) && win.Repr == old(win.Repr) && q <= Max(n, 0)
      ensures State(str, q) == Type(rawOut, oldEcho, n, old(State(str, p)), c)
    {
      hide Window.Valid, Screen.Valid, Echo, RawWin.Valid, Inside;
      q := p;
      if p < n {
        str[q] := c;
        PutEcho(str, oldEcho, c);
        q := q + 1;
      }
    }

    method TypeTab(str: array<Byte>, p: nat, n: int, x: int, oldEcho: bool) returns (q: nat)
      requires Valid(str) && p < str.Length && Max(n, 0) < str.Length && p <= Max(n, 0)
      modifies win.Repr, str
      ensures Valid(str) && win.Repr == old(win.Repr) && q <= Max(n, 0)
      ensures State(str, q) ==
              TypeBlanks(rawOut, oldEcho, n, old(State(str, p)), TABSIZE - Rem(old(win.m).curx - x, TABSIZE))
    {
      hide Window.Valid, Screen.Valid, Type, Valid, RawWin.Valid;
      Facts(str);
      var num := TABSIZE - Rem(win.curx - x, TABSIZE);
      var i := 0;
      q := p;
      ghost var e := State(str, p);
      while i < num
        invariant 0 <= i <= num && Valid(str) && win.Repr == old(win.Repr) && q <= Max(n, 0)
        invariant TypeBlanks(rawOut, oldEcho, n, State(str, q), num - i) == TypeBlanks(rawOut, oldEcho, n, e, num)
      {
        Facts(str);
        q := TypeChar(str, q, n, oldEcho, SPACE);
        i := i + 1;
      }
    }

    lemma Facts(str: array<Byte>)
      requires Valid(str)
      ensures win.Valid() && win.curx == win.m.curx && win in win.Repr
      ensures screen in screen.Repr() && screen.curscr in screen.Repr() && screen.lastscr in screen.Repr()
      ensures str !in win.Repr && this !in win.Repr && this !in screen.Repr() && str !in screen.Repr() &&
              win.Repr !! screen.Repr()
    {
    }

    /** The deletion of one character. */
    method EraseChar(str: array<Byte>, p: nat, oldEcho: bool) returns (q: nat)
      requires Valid(str) && 0 < p < str.Length
      modifies win.Repr
      ensures Valid(str) && win.Repr == old(win.Repr) && q == p - 1
      ensures State(str, q) == Erase1(rawOut, oldEcho, old(State(str, p)))
    {
      hide Window.Valid, Screen.Valid, EditorModel.RubOut, RawWin.Valid, Valid;
      Facts(str);
      assert str[..p][..p - 1] == str[..p - 1];
      PutRub(str, oldEcho);
      q := p - 1;
      if str[q] < SPACE {
        Facts(str);
        PutRub(str, oldEcho);
      }
    }

    /** Ctrl-U. */
    method EraseLine(str: array<Byte>, p: nat, oldEcho: bool) returns (q: nat)
      requires Valid(str) && p < str.Length
      modifies win.Repr
      ensures Valid(str) && win.Repr == old(win.Repr) && q == 0
      ensures State(str, q) == EraseAll(rawOut, oldEcho, old(State(str, p)))
    {
      hide Erase1, Valid, RawWin.Valid;
      Facts(str);
      ghost var e := State(str, p);
      q := p;
      while q > 0
        invariant 0 <= q <= p && Valid(str) && win.Repr == old(win.Repr)
        invariant EraseAll(rawOut, oldEcho, State(str, q)) == EraseAll(rawOut, oldEcho, e)
      {
        Facts(str);
        q := EraseChar(str, q, oldEcho);
      }
    }

    /** Ctrl-W: the blanks at the end, then the word before them. */
    method EraseWord(str: array<Byte>, p: nat, oldEcho: bool) returns (q: nat)
      requires Valid(str) && p < str.Length
      modifies win.Repr
      ensures Valid(str) && win.Repr == old(win.Repr) && q <= p
      ensures State(str, q) == EraseNonblanks(rawOut, oldEcho, EraseBlanks(rawOut, oldEcho, old(State(str, p))))
    {
      hide *;
      q := EraseSpaces(str, p, oldEcho);
      Facts(str);
      ghost var f := State(str, q);
      while q > 0 && str[q - 1] != SPACE
        invariant 0 <= q <= p && Valid(str) && win.Repr == old(win.Repr)
        invariant EraseNonblanks(rawOut, oldEcho, State(str, q)) == EraseNonblanks(rawOut, oldEcho, f)
      {
        Facts(str);
        NonblankStep(str, q, oldEcho);
        q := EraseChar(str, q, oldEcho);
      }
      WordEnd(str, q, oldEcho);
    }

    lemma NonblankStep(str: array<Byte>, q: nat, oldEcho: bool)
      requires 0 < q <= str.Length && str[q - 1] != SPACE
      ensures State(str, q).buf != []
      ensures EraseNonblanks(rawOut, oldEcho, State(str, q)) ==
              EraseNonblanks(rawOut, oldEcho, Erase1(rawOut, oldEcho, State(str, q)))
    {
    }

    lemma WordEnd(str: array<Byte>, q: nat, oldEcho: bool)
      requires q <= str.Length
      ensures q == 0 || str[q - 1] == SPACE ==> EraseNonblanks(rawOut, oldEcho, State(str, q)) == State(str, q)
      ensures q == 0 || str[q - 1] != SPACE ==> EraseBlanks(rawOut, oldEcho, State(str, q)) == State(str, q)
    {
    }

    method EraseSpaces(str: array<Byte>, p: nat, oldEcho: bool) returns (q: nat)
      requires Valid(str) && p < str.Length
      modifies win.Repr
      ensures Valid(str) && win.Repr == old(win.Repr) && q <= p
      ensures State(str, q) == EraseBlanks(rawOut, oldEcho, old(State(str, p)))
    {
      hide *;
      Facts(str);
      ghost var e := State(str, p);
      q := p;
      while q > 0 && str[q - 1] == SPACE
        invariant 0 <= q <= p && Valid(str) && win.Repr == old(win.Repr)
        invariant EraseBlanks(rawOut, oldEcho, State(str, q)) == EraseBlanks(rawOut, oldEcho, e)
      {
        Facts(str);
        BlankStep(str, q, oldEcho);
        ghost var w := win.m;
        PutRub(str, oldEcho);
        Facts(str);
        StateIs(str, q - 1);
        q := q - 1;
      }
      WordEnd(str, q, oldEcho);
    }

    lemma StateIs(str: array<Byte>, q: nat)
      requires q <= str.Length
      ensures State(str, q) == Edit(win.m, str[..q])
    {
    }

    lemma BlankStep(str: array<Byte>, q: nat, oldEcho: bool)
      requires 0 < q <= str.Length && str[q - 1] == SPACE
      ensures EraseBlanks(rawOut, oldEcho, State(str, q)) ==
              EraseBlanks(rawOut, oldEcho, Edit(EditorModel.RubOut(rawOut, oldEcho, win.m), str[..q - 1]))
    {
      BlankErase(rawOut, oldEcho, State(str, q));
      assert str[..q][..q - 1] == str[..q - 1];
    }

    /** A blank takes one column. */
    lemma BlankErase(raw: bool, oldEcho: bool, e: Edit)
      requires e.buf != [] && e.buf[|e.buf| - 1] == SPACE
      ensures Erase1(raw, oldEcho, e) == Edit(EditorModel.RubOut(raw, oldEcho, e.w), e.buf[..|e.buf| - 1])
    {
    }

    /** The switch of wgetnstr, for a key that does not end the line. */
    method HandleKey(str: array<Byte>, p: nat, n: int, x: int, oldEcho: bool, k: Key) returns (q: nat)
      requires Valid(str) && Max(n, 0) < str.Length && p <= Max(n, 0) && !Stops(k) && k.ch >= 0
      modifies win.Repr, str
      ensures Valid(str) && win.Repr == old(win.Repr) && q <= Max(n, 0)
      ensures State(str, q) == OnKey(rawOut, oldEcho, n, x, old(State(str, p)), k)
    {
      hide Valid, Type, TypeBlanks, Erase1, EraseAll, EraseBlanks, EraseNonblanks, RawWin.Valid, Window.Valid;
      Facts(str);
      if k.ch == TAB {
        q := TypeTab(str, p, n, x, oldEcho);
      } else if k.ch == ERASE_CHAR {
        q := p;
        if p > 0 {
          q := EraseChar(str, p, oldEcho);
        }
      } else if k.ch == ERASE_LINE {
        q := EraseLine(str, p, oldEcho);
      } else if k.ch == ERASE_WORD {
        q := EraseWord(str, p, oldEcho);
      } else if !k.keyCode && k.ch < 0x100 {
        q := TypeChar(str, p, n, oldEcho, k.ch);
      } else {
        q := p;
      }
    }

    /** wrefresh(win). */
    method Refresh(str: array<Byte>)
      requires Valid(str)
      modifies win.Repr, screen.Repr()
      ensures Valid(str) && win.Repr == old(win.Repr) && screen.Repr() == old(screen.Repr()) &&
              win.m == NoutWin(old(win.m))
    {
      hide Window.Valid, Screen.Valid, RawWin.Valid, NoutWin, Unmarked, Displays, AllSends;
      screen.WRefresh(win);
    }

    /** One key and the refresh after it. */
    method TakeKey(str: array<Byte>, p: nat, n: int, x: int, oldEcho: bool, k: Key) returns (q: nat)
      requires Valid(str) && Max(n, 0) < str.Length && p <= Max(n, 0) && !Stops(k) && k.ch >= 0
      modifies win.Repr, str, screen.Repr()
      ensures Valid(str) && win.Repr == old(win.Repr) && screen.Repr() == old(screen.Repr()) && q <= Max(n, 0)
      ensures var e := OnKey(rawOut, oldEcho, n, x, old(State(str, p)), k);
              win.m == NoutWin(e.w) && str[..q] == e.buf
    {
      hide *;
      Facts(str);
      q := HandleKey(str, p, n, x, oldEcho, k);
      StateIs(str, q);
      Facts(str);
      Refresh(str);
    }

    /** Enter and the refresh after it. */
    method TakeEnter(str: array<Byte>, oldEcho: bool)
      requires Valid(str)
      modifies win.Repr, screen.Repr()
      ensures Valid(str) && win.Repr == old(win.Repr) && screen.Repr() == old(screen.Repr())
      ensures win.m == NoutWin(Echo(rawOut, oldEcho, old(win.m), NEWLINE))
    {
      hide Valid, Echo, AddCh, Window.Valid, Screen.Valid, RawWin.Valid, NoutWin, Screen.Repr;
      Facts(str);
      PutEcho(str, oldEcho, NEWLINE);
      Facts(str);
      Refresh(str);
    }

    /** The loop of wgetnstr. */
    method ReadKeys(str: array<Byte>, n: int, x: int, oldEcho: bool, keys: seq<Key>, ghost w0: Win)
      returns (p: nat, used: nat)
      requires Valid(str) && 0 <= Max(n, 0) < str.Length && x == w0.curx
      requires LineRead(rawOut, oldEcho, n, w0, keys, 0, false, win.m, []) && Ends(keys)
      modifies str, win.Repr, screen.Repr()
      ensures Valid(str) && p <= Max(n, 0) && LineRead(rawOut, oldEcho, n, w0, keys, used, true, win.m, str[..p])
    {
      hide *;
      Facts(str);
      p, used := 0, 0;
      assert str[..0] == [];
      var stop := false;
      while !stop
        invariant Valid(str) && win.Repr == old(win.Repr) && screen.Repr() == old(screen.Repr()) &&
                  p <= Max(n, 0) < str.Length
        invariant LineRead(rawOut, oldEcho, n, w0, keys, used, stop, win.m, str[..p]) && 0 <= used <= |keys|
        decreases |keys| - used
      {
        StateIs(str, p);
        LineMore(rawOut, oldEcho, n, w0, keys, used, win.m, str[..p]);
        var k := keys[used];
        StopsMeans(keys, used);
        Facts(str);
        ghost var buf := str[..p];
        if k.ch == NEWLINE || k.ch == RETURN {
          stop := true;
          TakeEnter(str, oldEcho);
          assert str[..p] == buf;
        } else {
          p := TakeKey(str, p, n, x, oldEcho, k);
        }
        used := used + 1;
      }
    }

    /** The end of the string. */
    method Terminate(str: array<Byte>, p: nat)
      requires Valid(str) && p < str.Length
      modifies str
      ensures Valid(str) && win.m == old(win.m) && str[..p] == old(str[..p]) && str[p] == 0
    {
      hide Window.Valid, Screen.Valid, RawWin.Valid, Inside;
      str[p] := 0;
    }

    /** wgetnstr between saving and restoring the settings. */
    method ReadLine(str: array<Byte>, n: int, oldEcho: bool, keys: seq<Key>) returns (p: nat, used: nat)
      requires Valid(str) && 0 <= Max(n, 0) < str.Length && Ends(keys)
      modifies str, win.Repr, screen.Repr()
      ensures Valid(str) && p <= Max(n, 0) && str[p] == 0
      ensures LineRead(rawOut, oldEcho, n, old(win.m), keys, used, true, win.m, str[..p])
    {
      hide *;
      Facts(str);
      ghost var w0 := win.m;
      var x := win.curx;
      LineStart(rawOut, oldEcho, n, w0, keys);
      Refresh(str);
      Facts(str);
      p, used := ReadKeys(str, n, x, oldEcho, keys, w0);
      Terminate(str, p);
    }

    /** wgetnstr reading the given keys. The buffer holds p characters and a terminator;
        `used` keys have been read, the last of them Enter. */
    method GetNStr(str: array<Byte>, n: int, keys: seq<Key>) returns (p: nat, used: nat)
      requires Valid(str) && 0 <= Max(n, 0) < str.Length && Ends(keys)
      modifies `echo, `cbreak, `nodelay, str, win.Repr, screen.Repr()
      ensures Valid(str) && p <= Max(n, 0) && str[p] == 0
      ensures LineRead(rawOut, old(echo), n, old(win.m), keys, used, true, win.m, str[..p])
      ensures echo == old(echo) && cbreak == old(cbreak) && nodelay == old(nodelay)
    {
      hide *;
      Facts(str);
      var oldCbreak, oldEcho, oldNodelay := cbreak, echo, nodelay;
      echo, cbreak, nodelay := false, true, false;
      p, used := ReadLine(str, n, oldEcho, keys);
      Facts(str);
      echo, cbreak, nodelay := oldEcho, oldCbreak, oldNodelay;
    }
  }

  /** Keys with an Enter among them. */
  ghost predicate Ends(keys: seq<Key>) {
    (exists i :: 0 <= i < |keys| && Stops(keys[i])) && forall i | 0 <= i < |keys| :: keys[i].ch >= 0
  }

  lemma StopsMeans(keys: seq<Key>, i: nat)
    requires Ends(keys) && i < |keys|
    ensures (Stops(keys[i]) <==> keys[i].ch == NEWLINE || keys[i].ch == RETURN) && keys[i].ch >= 0
  {
  }

  /** wgetnstr has read `used` keys, the last of them Enter if it is to stop; the window
      and the buffer are those after the keys before Enter, which ends the line. */
  ghost predicate LineRead(raw: bool, echo: bool, n: int, w0: Win, keys: seq<Key>, used: nat, stop: bool, w: Win,
                           buf: seq<Byte>) {
    if stop then
      && 0 < used <= |keys| && Stops(keys[used - 1]) && (forall i | 0 <= i < used - 1 :: !Stops(keys[i]))
      && (var e := After(raw, echo, n, w0, keys[..used - 1]);
          buf == e.buf && w == NoutWin(Echo(raw, echo, e.w, NEWLINE)))
    else
      && used < |keys| && (forall i | 0 <= i < used :: !Stops(keys[i]))
      && (exists i :: used <= i < |keys| && Stops(keys[i]))
      && Edit(w, buf) == After(raw, echo, n, w0, keys[..used])
  }

  lemma LineStart(raw: bool, echo: bool, n: int, w0: Win, keys: seq<Key>)
    requires Ends(keys)
    ensures LineRead(raw, echo, n, w0, keys, 0, false, NoutWin(w0), [])
  {
  }

  lemma LineMore(raw: bool, echo: bool, n: int, w0: Win, keys: seq<Key>, used: nat, w: Win, buf: seq<Byte>)
    requires LineRead(raw, echo, n, w0, keys, used, false, w, buf)
    ensures used < |keys|
    ensures Stops(keys[used]) ==>
            LineRead(raw, echo, n, w0, keys, used + 1, true, NoutWin(Echo(raw, echo, w, NEWLINE)), buf)
    ensures var e := OnKey(raw, echo, n, w0.curx, Edit(w, buf), keys[used]);
            !Stops(keys[used]) ==> LineRead(raw, echo, n, w0, keys, used + 1, false, NoutWin(e.w), e.buf)
  {
    hide OnKey, NoutWin, Echo;
    assert keys[..used + 1][..used] == keys[..used];
  }
}
