# Screen engine and INI store: a Dafny model

This project models the screen engine that the NVPlay console runs on (the
PDCurses library under `external/pdcurses`, DOS port) and NVPlay's INI store
(`src/util/util_ini.c`), and proves what they promise.

The screen engine is a stack of caches. A window keeps rows of cells and, per
row, the interval of columns that may have changed. Drawing operations write
cells and widen the intervals; `wnoutrefresh` copies the marked cells into
`curscr`; `doupdate` compares `curscr` with `lastscr`, the image last sent, and
sends runs of cells to the adapter, which paints packets of equal attributes
either into video memory or through the BIOS. The panel library stacks windows
on top of this and repaints lazily, by touching rows.

How the files fit together:

| file | contents |
|---|---|
| `cells.dfy` | the screen cell and the attribute rules |
| `window_model.dfy`, `window.dfy` | a window as a value; the `WINDOW` object, whose methods compute those values in place |
| `damage.dfy`, `line_ops.dfy`, `row_ops.dfy`, `terminal.dfy` | properties of the drawing operations |
| `effects.dfy` | the drawing operations said once more, cell by cell, without the functions of the window model |
| `overlap_model.dfy`, `overlap.dfy` | `overlay`, `overwrite`, `copywin`, `touchoverlap`, `resize_window` |
| `adapter.dfy` | rendering, the packet splitter and the two ways of painting |
| `refresh_model.dfy`, `screen.dfy`, `pipeline.dfy` | `wnoutrefresh`, `doupdate`, `wrefresh`, and the whole pipeline over runs |
| `colors.dfy`, `color_table.dfy` | colour pairs |
| `panel_model.dfy`, `panel_steps.dfy`, `painter.dfy`, `panel.dfy` | the panel deck as a value, its loops, the painter's theorem, and the linked structure |
| `deck_shows.dfy` | what is seen at each position after one deck operation |
| `desktop.dfy` | panels down to the display: `update_panels` and `doupdate` over runs |
| `ini_model.dfy`, `ini_runs.dfy`, `ini.dfy` | the INI store as a two-level map with its sort; runs of the store as a finite map; the linked lists |
| `editor_model.dfy`, `line_editor.dfy` | the line editor `wgetnstr` |

Every module with state has a value-level partner. A method states its result
as a function of the old value, and what the source promises is proved about
those functions: that no change goes unmarked, that the display shows what the
windows hold, that panels are painted as by the painter's algorithm. What the
functions themselves stand for is fixed by lemmas that do not mention them:
`effects.dfy` for the drawing operations, `deck_shows.dfy` for the deck,
`Colors.InitPairSets` and its neighbours for the pair table,
`IniModel.LessPrecedes` for the order of the sort, `EditorModel.KeysEdit` for the
keys of the line editor.

Results worth knowing before reading further:

- Drawing keeps the damage complete for every operation except `wdeleteln` below
  the bottom margin, which blanks a row without marking it
  (`Damage.EveryOpDraws` gives the exact condition, `Damage.DeleteLnBreaks` a
  window), and `touchoverlap`, which overwrites intervals
  (`OverlapModel.TouchOverlapDraws`, `OverlapModel.TouchOverlapBreaks`).
- `move_panel` touches windows before `mvwin` may refuse to move. After such a
  refusal the next `update_panels` can paint `stdscr` over a panel that has not
  been touched. `Painter.RefusedMove` says exactly when it does not, and
  `Painter.RefusedMoveBreaks` is a screen on which it does.
- `init_pair` repaints only if the pair had been set before, so a cell painted
  earlier in an unset pair keeps its old colours (`Colors.UnsetPairLooks` says
  when that shows, `Colors.UnsetPairBreaks` is a letter on which it does).
- `wbkgd` overlooks the modifiers of a background without colour: a bold
  background does not reach the blanks that are there, though erasing shows it
  (`WindowModel.BkgdFollows`, `WindowModel.BoldBackgroundMissed`).
- With the old screen preserved, `doupdate` takes `lastscr` for what is on the
  display, which is so only if that was blank (`Pipeline.Startup`).
- In the line editor, erasing a DEL character leaves a column behind on the
  screen, and with raw output erasing any character moves on instead of back
  (`EditorModel.EchoExact`, `EditorModel.DelEchoBreaks`, `EditorModel.RawEchoBreaks`).
- `start_color` asks for no repaint although it changes every pair
  (`Colors.StartColorKeeps` says which screens stay right).
- `winsdelln(n)` followed by `winsdelln(-n)` restores the rows that were not pushed
  off the window exactly when those pushed below the bottom margin were blank;
  with the margin at the last row there are none (`LineOps.RoundTrip`,
  `LineOps.RoundTripBreaks`).
- A value of 512 bytes or more stored in the INI store fills its buffer without
  a terminator (`IniModel.CopyReads`).

## Model

| member | source | states |
|---|---|---|
| Cells.BlendPrecedence | external/pdcurses/pdcurses/addch.c:205-223 | the cell stored for a character takes the first colour set among character, window and background, keeps every modifier of the character and the background, and the window's if the character has no colour, and gets no other; a blank shows the background's text and any other character its own; on a plain background it is the character itself |
| Cells.PassThroughPrecedence | external/pdcurses/pdcurses/border.c:108-135 | the cells of lines and borders take their attributes in the same way and keep their text |
| Cells.AttrOnAdds | external/pdcurses/pdcurses/attr.c:151-173 | after wattron the window has the colour asked for, or its own if none is, and exactly the modifiers of both |
| Cells.AttrOffRemoves | external/pdcurses/pdcurses/attr.c:132-142 | after wattroff none of the modifiers is on, the others are as before, and a colour taken off by its own number is gone |
| Cells.RebackedCell | external/pdcurses/pdcurses/bkgd.c:80-133 | wbkgd on any cell: text and colour of the old background become the new one's and others stay; old modifiers come off and new ones come on |
| Cells.AttrOnOff | external/pdcurses/pdcurses/attr.c:132-173 | wattroff undoes wattron if and only if no modifier was on before and no colour was replaced |
| Windows.Window.constructor | external/pdcurses/pdcurses/window.c:136-193 | a new window is blank, wholly marked, with its cursor at the origin and its scrolling region the whole window, on distinct rows of its own; it asks for a clear exactly when it has the screen's size |
| Windows.Window.Move | external/pdcurses/pdcurses/move.c:66-78 | moves the cursor, or refuses a position outside the window and changes nothing |
| Windows.Window.SetScrReg | external/pdcurses/pdcurses/outopts.c:127-141 | sets ordered margins that contain the cursor row, or refuses |
| Windows.Window.AttrOff | external/pdcurses/pdcurses/attr.c:132-142 | takes the given bits out of the window's attributes and touches nothing else |
| Windows.Window.AttrOn | external/pdcurses/pdcurses/attr.c:151-173 | adds modifiers; a second colour replaces the first |
| Windows.Window.AttrSet | external/pdcurses/pdcurses/attr.c:182-192 | replaces the attributes |
| Windows.Window.ColorSet | external/pdcurses/pdcurses/attr.c:234-244 | replaces the colour and keeps the modifiers |
| Windows.Window.BkgdSet | external/pdcurses/pdcurses/bkgd.c:151-162 | sets the background, a blank if it has no text, and no cell |
| Windows.Window.Bkgd | external/pdcurses/pdcurses/bkgd.c:66-142 | wbkgd, cell by cell: old background colour, modifiers and text give way to the new ones, and the window is touched; nothing happens if the background is the same |
| WindowModel.BkgdFollows | external/pdcurses/pdcurses/bkgd.c:80-133 | a window that shows its background shows the new one after wbkgd if and only if the modifiers of a background without colour make no difference |
| WindowModel.BoldBackgroundMissed | external/pdcurses/pdcurses/bkgd.c:80-133 | on a fresh window they do: a bold background does not reach the cells, and erasing shows it |
| Windows.Window.UntouchWin | external/pdcurses/pdcurses/touch.c:100-116 | drops the marks of every row and nothing else |
| Windows.Window.TouchWin | external/pdcurses/pdcurses/touch.c:63-79 | marks every row from edge to edge and nothing else |
| Windows.Window.TouchLine | external/pdcurses/pdcurses/touch.c:81-98 | marks exactly the named rows, or refuses a range past the last row |
| Windows.Window.IsLineTouched | external/pdcurses/pdcurses/touch.c:145-153 | tells whether a row carries a mark; false outside the window, but for the one line past its last row, which the guard lets through to the end of the array |
| Windows.Window.IsWinTouched | external/pdcurses/pdcurses/touch.c:155-167 | tells whether some row carries a mark, by a search over all of them |
| Windows.Window.ClrToEol | external/pdcurses/pdcurses/clear.c:53-81 | blanks the cursor row from the cursor on and marks what it blanks |
| Windows.Window.ClrToBot | external/pdcurses/pdcurses/clear.c:90-117 | moving the cursor and back, blanks everything from the cursor to the end of the window; the cursor is where it was |
| Windows.Window.Erase | external/pdcurses/pdcurses/clear.c:126-134 | blanks and marks the whole window with the cursor at the origin |
| Windows.Window.Scroll | external/pdcurses/pdcurses/scroll.c:41-87 | wscrl for any n: every row of the scrolling region shows what stood n rows further down, or further up for a negative n, and background where that lies outside; rows outside the margins stay, although the code moves one row at a time; it refuses n = 0 and windows that do not scroll |
| WindowModel.ScrollMoves | external/pdcurses/pdcurses/scroll.c:41-87 | the same of the value, with the region wholly marked and nothing else changed |
| Windows.RotateRows | external/pdcurses/pdcurses/scroll.c:66-81 | one step rotates the row pointers of the region: the table keeps the same distinct rows and only the vacated one is blanked |
| Windows.ScrollRegion | external/pdcurses/pdcurses/scroll.c:51-83 | the loop, one step per line, leaves a permutation of the same rows whose contents are the shifted grid |
| Windows.Window.DeleteLn | external/pdcurses/pdcurses/deleteln.c:56-90 | rows below the cursor move up to the margin; below the margin only the cursor row is blanked, unmarked |
| Windows.Window.InsertLn | external/pdcurses/pdcurses/deleteln.c:152-184 | rows from the cursor to the last row move down, whatever the margins |
| Windows.Window.InsDelLn | external/pdcurses/pdcurses/deleteln.c:119-143 | n single insertions, or -n single deletions |
| Windows.Window.Store | external/pdcurses/pdcurses/addch.c:229-247 | stores a cell; a row is marked only if the cell changes, and the interval then contains the column |
| Windows.Window.LineFeed | external/pdcurses/pdcurses/addch.c:247-261 | moves down a row or scrolls at the bottom margin; fails only when scrolling is off there |
| Windows.Window.AddCh | external/pdcurses/pdcurses/addch.c:113-271 | waddch with its expansion of tabs, newlines, backspaces and control characters, by recursion, equals the value-level operation including its result |
| Windows.Window.AddStr | external/pdcurses/pdcurses/addstr.c:66-93 | waddnstr writes the C string cut at its terminator and at n, stopping at the first character that fails |
| Windows.Window.AddChNStr | external/pdcurses/pdcurses/addchstr.c:70-113 | waddchnstr stores raw cells up to a zero cell, n or the edge, and merges into the interval only what changes |
| Windows.Window.InsCh | external/pdcurses/pdcurses/insch.c:65-168 | winsch with its expansion of tabs, newlines and control characters |
| Windows.Window.DelCh | external/pdcurses/pdcurses/delch.c:40-69 | wdelch shifts the rest of the row left over the cursor |
| Windows.Window.ChgAt | external/pdcurses/pdcurses/attr.c:323-353 | wchgat recolours n cells from the cursor, and with n = 0 leaves an empty interval on a touched row |
| Windows.Window.HLine | external/pdcurses/pdcurses/border.c:202-231 | whline draws at most to the edge and marks the columns drawn |
| Windows.Window.VLine | external/pdcurses/pdcurses/border.c:260-288 | wvline draws at most to the last row and marks its column on each row |
| Windows.Window.Border | external/pdcurses/pdcurses/border.c:137-185 | wborder frames the window, later pieces over earlier ones in thin windows, and touches it |
| Windows.Window.MvWin | external/pdcurses/pdcurses/window.c:288-301 | mvwin moves and touches the window if it stays on the screen, or changes nothing |
| Effects.PlainEffect | external/pdcurses/pdcurses/addch.c:196-263 | waddch of a character that is stored: the cell under the cursor, and the cursor one column on, or on the next line, scrolled if that is below the bottom margin, or failing if the window does not scroll |
| Effects.TabEffect | external/pdcurses/pdcurses/addch.c:141-152 | a tab writes blanks up to the next multiple of eight, where the cursor then stands, or to the end of the row, and goes on to the next line; no other cell changes |
| Effects.NewlineEffect | external/pdcurses/pdcurses/addch.c:154-170 | a newline blanks the rest of the row and goes on to the next line |
| Effects.CursorKeysEffect | external/pdcurses/pdcurses/addch.c:172-179 | a carriage return moves the cursor to the first column, a backspace one column back if there is one, and nothing else changes |
| Effects.ControlEffect | external/pdcurses/pdcurses/addch.c:181-193 | any other control character writes a caret and the letter 64 places on, DEL a caret and a question mark, the second only if the first has not failed |
| Effects.CTextEnds | external/pdcurses/pdcurses/addstr.c:66-93 | what waddnstr writes ends at the terminator, at n characters or where the string does |
| Effects.ClrToEolEffect | external/pdcurses/pdcurses/clear.c:53-81 | exactly the cells from the cursor to the end of its row become background, and are marked |
| Effects.ClrToBotEffect | external/pdcurses/pdcurses/clear.c:90-117 | exactly the cells from the cursor to the end of the window become background, and are marked; the cursor stays |
| Effects.EraseEffect | external/pdcurses/pdcurses/clear.c:126-151 | werase and wclear leave background, wholly marked, with the cursor at the origin; the second asks for a repaint |
| Effects.InsertLinesEffect | external/pdcurses/pdcurses/deleteln.c:119-184 | winsdelln with n > 0: the rows from the cursor on stand n rows further down, with background above them |
| Effects.DeleteLinesEffect | external/pdcurses/pdcurses/deleteln.c:56-143 | winsdelln with a negative count: up to the margin the rows stand further up, with background below them; below the margin the row of the cursor becomes background |
| Effects.InsertTabEffect | external/pdcurses/pdcurses/insch.c:93-99 | winsch of a tab pushes the rest of the row to the next multiple of eight, or off the row |
| Effects.InsertNewlineEffect | external/pdcurses/pdcurses/insch.c:101-103 | winsch of a newline blanks the rest of the row and moves nothing |
| Effects.PutEffect | external/pdcurses/pdcurses/addchstr.c:70-113 | waddchnstr writes the cells before the first zero cell, at most n of them and no further than the row, leaves the cursor, and refuses n = 0 and n < -1 |
| Effects.LinesEffect | external/pdcurses/pdcurses/border.c:202-288 | whline and wvline write n cells to the right and downwards, as far as the window goes, and refuse n < 1 |
| Effects.BorderEffect | external/pdcurses/pdcurses/border.c:137-185 | each corner and each edge of the border is the character given for it, or the default |
| Effects.BkgdEffect | external/pdcurses/pdcurses/bkgd.c:66-142 | wbkgd does to every cell what Cells.RebackedCell says, and marks it |
| Effects.NewWinEffect | external/pdcurses/pdcurses/window.c:136-193 | a new window, field by field and cell by cell |
| Effects.MoveThenAdd | external/pdcurses/pdcurses/move.c:66-78 | moving the cursor to row y, column x and writing puts the character there and nowhere else; positions outside the window are refused |
| Effects.SetScrRegEffect | external/pdcurses/pdcurses/outopts.c:127-141 | wsetscrreg takes ordered margins around the row of the cursor, and no others |
| Effects.TouchEffect | external/pdcurses/pdcurses/touch.c:63-116 | touchline marks exactly the named rows, touchwin all, untouchwin none |
| Effects.MvWinEffect | external/pdcurses/pdcurses/window.c:288-301 | a window mvwin accepts stands at (y, x), wholly marked, with its cells; it accepts those that fit on the screen |
| Damage.DrawsKeepsCoverage | external/pdcurses/pdcurses/refresh.c:75-113 | drawing keeps "every cell that differs from the screen is marked" |
| Damage.EveryOpDraws | external/pdcurses/pdcurses/addch.c:229-263 | each drawing operation, wbkgd and the setting of attributes, background and flags included, changes no cell without marking it and forgets no mark, exactly when lines are not deleted below the bottom margin over contents that would be lost unmarked |
| Damage.DeleteLnDraws | external/pdcurses/pdcurses/deleteln.c:64-87 | wdeleteln respects damage if and only if the cursor is at or above the margin or the row it blanks shows nothing unmarked |
| Damage.DeleteLnBreaks | external/pdcurses/pdcurses/deleteln.c:64-87 | a refreshed window of two rows, with a letter in the row below the margin, on which it does not |
| Damage.DeleteBelowMargin | external/pdcurses/pdcurses/deleteln.c:119-143 | below the margin deleting many lines is deleting one |
| WindowModel.AddStrStops | external/pdcurses/pdcurses/addstr.c:74-90 | once a character has failed the rest of the string changes nothing |
| LineOps.ScrollIsSteps | external/pdcurses/pdcurses/scroll.c:51-83 | wscrl by n is as many scrolls by one line, also past the size of the region |
| LineOps.InsertThenDelete | external/pdcurses/pdcurses/deleteln.c:119-184 | row by row, what inserting n lines and deleting n lines leaves, for every n, every margin and every cursor, below the margin too |
| LineOps.RoundTrip | external/pdcurses/pdcurses/deleteln.c:119-184 | deleting n lines undoes inserting them, but for rows pushed off the window, if and only if every row pushed below the bottom margin was blank, wherever the cursor is; with the margin at the last row always |
| LineOps.RoundTripBreaks | external/pdcurses/pdcurses/deleteln.c:119-184 | a letter in the only row of the scrolling region is not brought back |
| RowOps.InsertThenDeleteChar | external/pdcurses/pdcurses/insch.c:152-162 | winsch then wdelch restores the row but for the last cell |
| RowOps.DeleteThenInsertChar | external/pdcurses/pdcurses/delch.c:49-68 | wdelch then winsch replaces the cell under the cursor and nothing else |
| RowOps.InsertBlanks | external/pdcurses/pdcurses/insch.c:93-99 | a tab pushes the rest of the row right by its width in blanks, or by all the room there is |
| RowOps.InsertControl | external/pdcurses/pdcurses/insch.c:105-118 | winsch of a control character shows the caret and then the letter at the cursor and pushes the rest right by two; in the last column only the caret stays |
| RowOps.ChgAtKeepsText | external/pdcurses/pdcurses/attr.c:335-348 | wchgat changes the attributes of exactly the named cells and no text |
| RowOps.ChgAtNothing | external/pdcurses/pdcurses/attr.c:335-348 | wchgat of no cells changes nothing, yet a clean row then counts as touched, and marked on it are the columns from the cursor to the last bound left there: none exactly when that bound lies left of the cursor |
| RowOps.PutCellsTight | external/pdcurses/pdcurses/addchstr.c:83-110 | on a clean row waddchnstr marks from the first changed column to the last, or to the last bound left there if that lies further right, and nothing if none changes |
| RowOps.PutCellsSplit | external/pdcurses/pdcurses/addchstr.c:83-110 | writing a batch is writing its parts one after the other, marks included |
| RowOps.BorderInside | external/pdcurses/pdcurses/border.c:159-174 | a border leaves the inside of the window alone |
| RowOps.LinesCross | external/pdcurses/pdcurses/border.c:202-288 | a horizontal and a vertical line change no cell in common but the one under the cursor |
| Terminal.LineFeedShows | external/pdcurses/pdcurses/addch.c:154-170 | a line feed at the end of the page starts a new page line, scrolled or not |
| Terminal.NewlineShows | external/pdcurses/pdcurses/addch.c:154-170 | a newline clears to the end of the row and goes to a fresh page line |
| Terminal.AddChShows | external/pdcurses/pdcurses/addch.c:113-271 | one character keeps a scrolling window in step with the endless page |
| Terminal.TextShowsPage | external/pdcurses/pdcurses/addstr.c:66-93 | writing any text into an erased scrolling window shows exactly the last rows of the text laid out on an endless page with wrap at the edge, the cursor at the end of the page |
| Overlaps.CopyWin | external/pdcurses/pdcurses/overlay.c:52-117 | the double loop copies the region cell by cell and merges into each row the columns that change |
| Overlaps.CopyOverlap | external/pdcurses/pdcurses/overlay.c:119-172 | overwrite changes exactly the cells whose screen position lies in both windows; overlay skips blanks; no change goes unmarked |
| Overlaps.CopyWinChecked | external/pdcurses/pdcurses/overlay.c:188-214 | copywin copies cell by cell from (sr + i, sc + j) to (dr + i, dc + j), as far as source and destination rectangle go, transparent blanks excepted, changes no other cell, refuses a rectangle outside the destination, and refuses curscr as the destination |
| OverlapModel.CopyWinCell | external/pdcurses/pdcurses/overlay.c:188-214 | the cell at each position after copying the region copywin computes |
| OverlapModel.CopyDraws | external/pdcurses/pdcurses/overlay.c:75-114 | copying a region keeps the damage complete |
| Overlaps.TouchOverlap | external/pdcurses/pdcurses/touch.c:169-199 | touchoverlap sets the shared rows' intervals to the shared columns |
| OverlapModel.TouchOverlapDraws | external/pdcurses/pdcurses/touch.c:191-196 | touchoverlap forgets no damage if and only if no shared row was marked outside the shared columns |
| OverlapModel.TouchOverlapMarks | external/pdcurses/pdcurses/touch.c:169-199 | after touchoverlap the shared rows are marked exactly on the shared columns, and the others as before |
| OverlapModel.TouchOverlapBreaks | external/pdcurses/pdcurses/touch.c:191-196 | a letter just written beside the shared columns is forgotten |
| Overlaps.ResizeWindow | external/pdcurses/pdcurses/window.c:441-528 | resize_window keeps the common rectangle, blanks the rest, marks everything and brings cursor and margins back inside, on arrays of its own |
| OverlapModel.ResizeEffect | external/pdcurses/pdcurses/window.c:441-528 | resize_window cell by cell, with the cursor as near as possible to where it was, the bottom margin kept at the last row, and everything marked |
| OverlapModel.GrowThenShrink | external/pdcurses/pdcurses/window.c:465-517 | growing a window and shrinking it back restores it, wholly marked |
| OverlapModel.ShrinkThenGrow | external/pdcurses/pdcurses/window.c:465-517 | shrinking and growing back keeps exactly the smaller rectangle |
| Adapters.AttrIgnoresAltCharset | external/pdcurses/dos/pdcdisp.c:31-52 | the alternate character set flag plays no part in the attribute byte, so packets may ignore it |
| Adapters.LettersShow | external/pdcurses/dos/pdcdisp.c:67-77 | characters are shown as themselves, whatever their colours, but for those of the alternate set |
| Adapters.BoxDrawing | external/pdcurses/common/acs437.h:4-35 | the corners and lines of the alternate set on code page 437 |
| Adapters.PacketsCover | external/pdcurses/dos/pdcdisp.c:127-151 | the splitter cuts a line into contiguous packets of equal attributes, each as long as possible, that cover it exactly once |
| Adapters.MaximalIsPackets | external/pdcurses/dos/pdcdisp.c:127-151 | no other cutting has these properties |
| Adapters.NeighboursTogether | external/pdcurses/dos/pdcdisp.c:127-151 | two neighbouring cells are painted by one packet if and only if they differ at most in text and alternate character set |
| Adapters.Adapter.NewPacket | external/pdcurses/dos/pdcdisp.c:54-122 | direct video and the BIOS path paint the same cells, those of the packet, and leave every other position alone |
| Adapters.Adapter.BiosPacket | external/pdcurses/dos/pdcdisp.c:95-122 | the runs of equal cells written by the BIOS add up to the packet |
| Adapters.Adapter.TransformLine | external/pdcurses/dos/pdcdisp.c:127-151 | a line sent is shown rendered in its place, by the packets of the splitter |
| RefreshModel.NoutCell | external/pdcurses/pdcurses/refresh.c:75-113 | wnoutrefresh copies exactly the marked cells |
| RefreshModel.NoutDraws | external/pdcurses/pdcurses/refresh.c:89-108 | every cell of curscr that a refresh changes is marked there, and no mark of curscr is lost |
| RefreshModel.NoutShows | external/pdcurses/pdcurses/refresh.c:60-126 | a window whose damage is complete is wholly on curscr after its refresh |
| RefreshModel.NoutEffect | external/pdcurses/pdcurses/refresh.c:108-125 | the cursor of curscr goes to that of the window unless leaveok is set, and the window keeps no mark and no clear request |
| RefreshModel.RunsSeparated | external/pdcurses/pdcurses/refresh.c:171-203 | runs begin and end on changed cells, pass over single unchanged cells only, lie at least two unchanged cells apart, miss no change, and send at most twice the changed cells less the number of runs |
| RefreshModel.SeparatedUnique | external/pdcurses/pdcurses/refresh.c:171-203 | these properties determine the runs |
| Screens.Screen.constructor | external/pdcurses/pdcurses/initscr.c:170-226 | curscr and lastscr start as fresh windows of the screen's size with a full repaint pending; on a preserved screen curscr is unmarked and no repaint is pending, so that the display is in step if and only if it shows blanks |
| Screens.Screen.Narrow | external/pdcurses/pdcurses/refresh.c:82-86 | the two narrowing loops find the first and last real difference |
| Screens.Screen.NoutRefresh | external/pdcurses/pdcurses/refresh.c:60-126 | wnoutrefresh merges the window's marked cells into curscr, clears its marks, moves the cursor unless leaveok, and keeps curscr's damage complete |
| Screens.Screen.RunAt | external/pdcurses/pdcurses/refresh.c:176-184 | the run loop measures the run at a changed cell while lastscr is being updated under it |
| Screens.Screen.SendChanges | external/pdcurses/pdcurses/refresh.c:171-203 | one line: the runs, and only they, are sent and recorded in lastscr |
| Screens.Screen.DoUpdate | external/pdcurses/pdcurses/refresh.c:128-219 | afterwards the display shows curscr, lastscr equals curscr, the cells sent are the separated runs, or every line when a clear is pending or after endwin, and marks and clear request are gone |
| Screens.Screen.WRefresh | external/pdcurses/pdcurses/refresh.c:221-241 | wrefresh sends every line from edge to edge, in order, if it is given curscr, if a repaint is pending, or if the window has the size of the screen and asked to be cleared; otherwise it sends the changes alone; the display shows curscr |
| Screens.RefreshedSends | external/pdcurses/pdcurses/refresh.c:221-241 | the same of the values: when everything is sent and when the changes alone |
| Screens.ClearSends | external/pdcurses/pdcurses/refresh.c:158-169 | a full repaint sends every line from edge to edge, in order, whatever has changed |
| Pipeline.RunsReach | external/pdcurses/pdcurses/refresh.c:171-203 | every changed column of a touched line is in some run |
| Pipeline.ChangesSent | external/pdcurses/pdcurses/refresh.c:145-203 | unless everything is repainted, what doupdate sends is in screen order, at least two cells apart, begins and ends on marked cells that have changed, passes over no two unchanged ones in a row, and misses no marked cell that has changed |
| Pipeline.UpdateShows | external/pdcurses/pdcurses/refresh.c:145-203 | whatever the invariant allows, sending only the runs leaves the display showing all of curscr |
| Pipeline.StepInv | external/pdcurses/pdcurses/refresh.c:60-241 | opening, closing, moving and resizing windows, drawing, setting attributes, copying from any window, refreshing, updating, colour changes, endwin and clear requests all keep the invariant that joins windows, curscr, lastscr and display |
| Pipeline.Startup | external/pdcurses/pdcurses/initscr.c:170-226 | the state after initscr satisfies it, but on a preserved screen only if that was blank |
| Pipeline.EndToEnd | external/pdcurses/pdcurses/refresh.c:60-241 | after any legal run over windows kept apart, refreshing each and updating once shows every cell of every window, in the present colours, in its place |
| Pipeline.EveryUpdateShows | external/pdcurses/pdcurses/color.c:140-169 | whatever pairs were redefined along the way, each doupdate of a legal run leaves the display showing curscr under the pair table of that moment; here the windows refreshed may also overlap |
| Colors.InitPairKeeps | external/pdcurses/pdcurses/color.c:140-169 | unless init_pair asks for a repaint, no cell of a pair the program has set looks different |
| Colors.InitPairSets | external/pdcurses/pdcurses/color.c:131-169 | init_pair takes colour numbers below COLORS, and -1 once use_default_colors has been called; the pair gets the foreground and the background meant, -1 being the original colour or white in front and black behind; no other pair changes; a repaint is asked for exactly when a set pair changes |
| Colors.InitPairShows | external/pdcurses/dos/pdcdisp.c:31-52 | after init_pair an unstyled cell of the pair shows the foreground in the low half of its attribute byte and the background in the high half, in the order of the adapter |
| Colors.DefaultColorsSet | external/pdcurses/pdcurses/color.c:233-258 | assume_default_colors does the same to pair 0 |
| Colors.UseDefaultsSet | external/pdcurses/pdcurses/color.c:260-268 | use_default_colors gives pair 0 the original colours, or white on black, and lets init_pair take -1 |
| Colors.StartColorSets | external/pdcurses/pdcurses/color.c:110-129 | start_color makes every pair white on black, or the original colours once those are the default, and no pair counts as set |
| Colors.UnstyledShows | external/pdcurses/dos/pdcdisp.c:31-52 | an unstyled cell shows the foreground of its pair in the low half of the attribute byte and the background in the high half |
| Colors.BrightStyles | external/pdcurses/dos/pdcdisp.c:31-52 | bold brightens the foreground, and blinking the background |
| Colors.ExchangedStyles | external/pdcurses/dos/pdcdisp.c:31-52 | reverse exchanges the colours, though the blinking bit stays in place on an adapter that blinks; underlined cells are in colour 1 where the adapter can |
| Colors.DefaultColorsKeeps | external/pdcurses/pdcurses/color.c:233-258 | the same for assume_default_colors and pair 0 |
| Colors.UseDefaultsKeeps | external/pdcurses/pdcurses/color.c:260-268 | and for use_default_colors |
| Colors.StartColorKeeps | external/pdcurses/pdcurses/color.c:110-129 | start_color, which asks for no repaint, leaves only set pairs on a screen if and only if pair 0 alone is on it, and leaves it looking the same if and only if every cell outlasts the new colours: they look like its own with its modifiers, or, for a reversed cell that loses blinking, are what its two halves used to show |
| Colors.RecolorLooks | external/pdcurses/dos/pdcdisp.c:31-52 | a cell looks the same in new colours if and only if they agree on what its modifiers let show |
| Colors.UnsetPairLooks | external/pdcurses/pdcurses/color.c:152-166 | without a repaint a whole screen stays right if and only if the pair had been set or every cell painted in it, whatever its modifiers, looks the same in the new colours |
| Colors.UnsetPairBreaks | external/pdcurses/pdcurses/color.c:152-166 | a letter painted in pair 1 after start_color does not |
| ColorTables.ColorTable.StartColor | external/pdcurses/pdcurses/color.c:110-129 | start_color gives every pair the base colours in a loop and forgets which pairs were set; the screen stays in step if what is painted looks the same |
| ColorTables.ColorTable.InitPair | external/pdcurses/pdcurses/color.c:140-169 | init_pair refuses bad arguments, gives the pair the colours meant, updates pair_set, and asks for a repaint exactly when a set pair changes; the screen stays in step if only set pairs are on it |
| ColorTables.ColorTable.AssumeDefaultColors | external/pdcurses/pdcurses/color.c:233-258 | assume_default_colors gives pair 0 the colours meant and asks for a repaint when it changes |
| ColorTables.ColorTable.UseDefaultColors | external/pdcurses/pdcurses/color.c:260-268 | use_default_colors makes the startup colours the default and admits -1 as a colour from then on; the screen stays in step if only set pairs are on it |
| PanelModel.OverlapIsMeeting | external/pdcurses/pdcurses/panel.c:191-200 | _panels_overlapped holds if and only if some screen position lies in both rectangles |
| PanelModel.MarkSharedStep | external/pdcurses/pdcurses/panel.c:231-242 | one step of the row loop of _override touches the shared row if it is touched on the panel or on stdscr |
| PanelModel.OverrideStep | external/pdcurses/pdcurses/panel.c:231-242 | one overlapping panel more |
| Painter.PropagatedClosed | external/pdcurses/pdcurses/panel.c:613-619 | after the first pass of update_panels every panel over a touched row of a lower overlapping panel is wholly marked on that row |
| Painter.PaintToUpto | external/pdcurses/pdcurses/panel.c:621-632 | in the second pass the positions whose topmost panel has been reached are right, and the others are right or still marked |
| Painter.PainterTheorem | external/pdcurses/pdcurses/panel.c:607-633 | update_panels on a sound deck leaves on curscr, at every position, the topmost panel's cell or stdscr's where there is none |
| Painter.LinkSound | external/pdcurses/pdcurses/panel.c:308-358 | linking a panel at the top or the bottom keeps the deck sound |
| Painter.UnlinkSound | external/pdcurses/pdcurses/panel.c:360-397 | so does unlinking one |
| Painter.ReplaceSound | external/pdcurses/pdcurses/panel.c:555-575 | so does giving it another window |
| Painter.WriteSound | external/pdcurses/pdcurses/panel.c:607-633 | so does any safe drawing operation on a linked panel's window |
| Painter.CopySound | external/pdcurses/pdcurses/overlay.c:52-117 | so does copying any window onto a linked panel's |
| Painter.WriteStdSound | external/pdcurses/pdcurses/panel.c:607-633 | so does drawing on stdscr while no panel is linked |
| Painter.MoveSound | external/pdcurses/pdcurses/panel.c:452-478 | a move keeps the deck sound if and only if the window fits on the screen or touching reached every row of every other panel anyway |
| Painter.RefusedMove | external/pdcurses/pdcurses/panel.c:460-466 | after a refused move the next update_panels paints right if and only if every position survives, which a caller can tell beforehand from geometry, marks and cells |
| Painter.RefusedMoveBreaks | external/pdcurses/pdcurses/panel.c:460-466 | a screen on which a refused move makes another panel disappear |
| Painter.StepSound | external/pdcurses/pdcurses/panel.c:405-633 | every deck operation, a refused move that the touching makes harmless, every write and copy keep the deck sound |
| Painter.RunPaints | external/pdcurses/pdcurses/panel.c:405-633 | after any run of deck operations, writes and copies, update_panels shows the painter's picture |
| Painter.EmptySound | external/pdcurses/pdcurses/panel.c:484-505 | before the first panel the deck is sound if and only if stdscr's damage is complete |
| Painter.PaintToShown | external/pdcurses/pdcurses/panel.c:621-632 | whatever the marks, the second pass leaves the highest marked cell at each position |
| DeckShows.LinkShows | external/pdcurses/pdcurses/panel.c:308-358 | after linking at the top and update_panels the panel is seen at each of its positions, after linking at the bottom where no other panel is; elsewhere what was seen before |
| DeckShows.UnlinkShows | external/pdcurses/pdcurses/panel.c:360-399 | after unlinking the topmost of the other panels is seen |
| DeckShows.ReplaceShows | external/pdcurses/pdcurses/panel.c:555-575 | after replace_panel the new window is seen in the place of the panel |
| DeckShows.MoveShows | external/pdcurses/pdcurses/panel.c:452-478 | after a move that fits, the topmost of the panels as they then lie is seen |
| DeckShows.MovedCell | external/pdcurses/pdcurses/panel.c:452-478 | so a panel moved to (y, x) shows its cell (r, c) at (y + r, x + c), unless a higher panel is there |
| Desktop.DeckStepKeeps | external/pdcurses/pdcurses/panel.c:607-633 | every deck operation, update_panels included, changes no cell of curscr without marking it there, so the display stays as well in step as it was |
| Desktop.ScreenStepKeeps | external/pdcurses/pdcurses/refresh.c:128-219 | doupdate, colour changes, endwin and clear requests keep the deck sound |
| Desktop.DeskStart | external/pdcurses/pdcurses/initscr.c:170-226 | both hold after initscr |
| Desktop.DeskShows | external/pdcurses/pdcurses/panel.c:607-633 | after any run of deck operations, writes, copies, colour changes and updates, update_panels and doupdate show at every position of the display the topmost panel's cell, or stdscr's, in the present colours |
| PanelSteps.PassedIs | external/pdcurses/pdcurses/panel.c:227-229 | starting the walk at the panel itself touches exactly the overlapping panels above it |
| PanelSteps.UnlinkIs | external/pdcurses/pdcurses/panel.c:371-390 | touching, dropping and touching again amounts to dropping and touching the rest |
| PanelSteps.MoveIs | external/pdcurses/pdcurses/panel.c:460-478 | move_panel as the code does it, with its early return |
| PanelSteps.TouchingStep | external/pdcurses/pdcurses/panel.c:246-287 | one round of _calculate_obscure leaves a panel wholly touched, whatever later rounds touch |
| Panels.PanelStack.Override | external/pdcurses/pdcurses/panel.c:216-244 | _override in its three modes, by its loops over the obscure list and the rows |
| Panels.PanelStack.OverlapList | external/pdcurses/pdcurses/panel.c:260-283 | the list built for a panel is the deck filtered by rectangle intersection, bottom to top |
| Panels.PanelStack.CalculateObscure | external/pdcurses/pdcurses/panel.c:246-287 | afterwards every linked panel has its list and is wholly touched |
| Panels.PanelStack.ChainAbove | external/pdcurses/pdcurses/panel.c:314-329 | the pointers of linking at the top represent the sequence with the panel appended, without duplicates |
| Panels.PanelStack.ChainBelow | external/pdcurses/pdcurses/panel.c:341-355 | linking at the bottom prepends |
| Panels.PanelStack.ChainOut | external/pdcurses/pdcurses/panel.c:368-388 | unlinking removes the panel from the sequence |
| Panels.PanelStack.Unlink | external/pdcurses/pdcurses/panel.c:360-397 | _panel_unlink: the panel is out of the deck, its window touched and its own again |
| Panels.PanelStack.IsLinked | external/pdcurses/pdcurses/panel.c:291-304 | true exactly for the panels of the sequence |
| Panels.PanelStack.HidePanel | external/pdcurses/pdcurses/panel.c:435-450 | hide_panel removes a linked panel, and reports the others |
| Panels.PanelStack.ShowPanel | external/pdcurses/pdcurses/panel.c:586-600 | show_panel moves the panel to the end of the sequence, or adds it |
| Panels.PanelStack.BottomPanel | external/pdcurses/pdcurses/panel.c:405-419 | bottom_panel moves it to the beginning |
| Panels.PanelStack.DelPanel | external/pdcurses/pdcurses/panel.c:421-433 | del_panel removes it |
| Panels.PanelStack.MovePanel | external/pdcurses/pdcurses/panel.c:452-478 | move_panel succeeds exactly when the window fits and leaves the sequence alone; a refused move leaves the deck disturbed |
| Panels.PanelStack.ReplacePanel | external/pdcurses/pdcurses/panel.c:555-575 | replace_panel swaps the window of a panel in place |
| Panels.PanelStack.NewPanel | external/pdcurses/pdcurses/panel.c:480-520 | new_panel links a fresh panel on top |
| Panels.PanelStack.UpdatePanels | external/pdcurses/pdcurses/panel.c:607-633 | update_panels computes the value-level update and so, on a sound deck, the painter's picture |
| Panels.PanelStack.CopyOnto | external/pdcurses/pdcurses/overlay.c:52-117 | copies part of another window onto a linked panel's and leaves the rest of the deck alone |
| IniModel.CopyReads | src/util/util_ini.c:884-889 | a value read back is the value written if and only if it is shorter than its buffer; otherwise the buffer has no terminator |
| IniModel.SetThenGet | src/util/util_ini.c:872-889 | setting a key defines it and affects no other key |
| IniModel.DeleteThenGet | src/util/util_ini.c:576-590 | deleting affects no other key, and removes the key if and only if at most one entry bears its name |
| IniModel.StaysUnique | src/util/util_ini.c:743-889 | setting and deleting keep names unique |
| IniModel.AtMostTransitive | src/util/util_ini.c:192-192 | the order of strcmp is transitive |
| IniModel.LessPrecedes | src/util/util_ini.c:192-192 | strcmp answers "less" for exactly the strings that come first in the dictionary by unsigned bytes, prefixes first |
| IniModel.SwapStep | src/util/util_ini.c:192-198 | one exchange keeps the loop invariant of the sort: node i tops what it has been compared with, and the nodes before it are in order |
| IniModel.PassesPassed | src/util/util_ini.c:176-211 | after the pass for a node the named nodes up to it are in order and the last of them is the greatest of all |
| IniModel.SortSorts | src/util/util_ini.c:176-211 | the double loop that compares every node with every node leaves the names in dictionary order, loses or mixes no payload, and moves no node without a name |
| IniModel.SortedLookup | src/util/util_ini.c:176-211 | with unique names, sorting changes no lookup |
| IniModel.CountersTell | src/util/util_ini.c:173-203 | the counters of named nodes tell two named nodes apart |
| IniModel.PutThenGet | src/util/util_ini.h:99-99 | the store is a two-level map: a value put under a section and a key is read back there, every other key and section unaffected |
| IniModel.DropThenGet | src/util/util_ini.h:81-81 | deleting a variable removes that key of that section only |
| IniModel.TidyKeeps | src/util/util_ini.c:168-217 | tidying a section, sorted or dropped, changes no lookup of a named key |
| IniModel.TidyDrops | src/util/util_ini.c:168-217 | tidying takes a section out of the store if and only if none of its entries has a name |
| IniRuns.StepRefines | src/util/util_ini.c:168-889 | setting, deleting and tidying keep section names and the entry names of each section unique, and do to the finite map of sections and keys what they should |
| IniRuns.RunRefines | src/util/util_ini.c:168-889 | so does any sequence of them |
| IniRuns.LastPut | src/util/util_ini.c:168-889 | after any run from an empty store a key reads back what was put there last, and nothing if it was never put or deleted since |
| Ini.Section.FindEntry | src/util/util_ini.c:117-132 | find_entry returns the first entry of the name |
| Ini.Section.Append | src/util/util_ini.c:48-57 | list_add appends to the list, which stays without a cycle |
| Ini.Section.Remove | src/util/util_ini.c:59-70 | list_delete takes exactly one node out |
| Ini.Section.SetString | src/util/util_ini.c:872-889 | ini_section_set_string changes or appends one entry |
| Ini.Section.GetString | src/util/util_ini.c:743-757 | ini_section_get_string returns the entry's buffer, or the default |
| Ini.Section.DeleteVar | src/util/util_ini.c:576-590 | ini_section_delete_var removes the first entry of the name |
| Ini.Section.CountNamed | src/util/util_ini.c:150-166 | entries_num counts the entries with a name |
| Ini.Section.OnePass | src/util/util_ini.c:181-204 | the inner loop, with its counter, exchanges payloads in place |
| Ini.Section.SortEntries | src/util/util_ini.c:173-211 | the outer loop: the list is left in dictionary order in place, no node relinked |
| Ini.Store.FindSection | src/util/util_ini.c:77-95 | find_section returns the first section of the name |
| Ini.Store.FindOrCreateSection | src/util/util_ini.c:236-249 | a missing section is appended |
| Ini.Store.SetString | src/util/util_ini.h:99-99 | ini_set_string on the list of sections |
| Ini.Store.GetString | src/util/util_ini.h:89-89 | ini_get_string |
| Ini.Store.DeleteVar | src/util/util_ini.h:81-81 | ini_delete_var |
| Ini.Store.DeleteSectionIfEmpty | src/util/util_ini.c:168-217 | a section with a named entry is sorted, any other is unlinked |
| EditorModel.KeyTrack | external/pdcurses/pdcurses/getstr.c:123-205 | one key with echo that leaves a line ending before the edge: the buffer becomes the edited one, never longer than n, and the cursor ends one column too far for every DEL erased; with raw output the same for keys that erase nothing |
| EditorModel.KeysEdit | external/pdcurses/pdcurses/getstr.c:117-205 | ^H takes the last character off the buffer, ^U all, ^W the blanks at the end and the word before them; a tab adds blanks up to the next multiple of eight, any other character itself, as far as n goes; function keys add nothing |
| EditorModel.KeyBuffer | external/pdcurses/pdcurses/getstr.c:113-205 | while the cursor stands where the line ends a key does to the buffer what it should, whatever becomes of the echo, and without echo it leaves the window alone |
| EditorModel.KeyEchoExact | external/pdcurses/pdcurses/getstr.c:123-205 | the echo stays right if and only if the displayed line ends before the edge and the key erases no DEL character, or nothing at all with raw output, where only a row that scrolls can come out right otherwise |
| EditorModel.EchoExact | external/pdcurses/pdcurses/getstr.c:93-211 | with echo on, for every n, width and key sequence, the window shows the buffer in caret notation after every key if and only if the line always ends before the edge and no key erases a DEL, or anything with raw output, where only a row that scrolls can come out right otherwise; and then the buffer is the fold of the edits, never longer than n |
| EditorModel.EchoAgrees | external/pdcurses/pdcurses/getstr.c:93-211 | when no DEL key is typed, the echo is right after every key if and only if the line displayed always ends before the edge |
| EditorModel.DelEchoBreaks | external/pdcurses/pdcurses/getstr.c:138-148 | a DEL typed and erased leaves the cursor a column off the empty buffer, in any window with room for the DEL |
| EditorModel.RawEchoBreaks | external/pdcurses/pdcurses/getstr.c:138-148 | with raw output a letter typed and erased leaves the cursor four columns off the empty buffer |
| EditorModel.RawLuck | external/pdcurses/pdcurses/getstr.c:138-148 | with raw output an erasure can come out right by chance, in a scrolling window of one row and four columns |
| EditorModel.SilentAgrees | external/pdcurses/pdcurses/getstr.c:93-211 | with echo off the window keeps its cells and cursor, the buffer is the fold of the edits, never longer than n, and tabs take no account of what was typed |
| LineEditor.Editor.TypeTab | external/pdcurses/pdcurses/getstr.c:123-136 | a tab writes blanks to the next stop, as far as they fit |
| LineEditor.Editor.EraseChar | external/pdcurses/pdcurses/getstr.c:138-148 | ^H erases one character and its columns |
| LineEditor.Editor.EraseLine | external/pdcurses/pdcurses/getstr.c:150-159 | ^U erases the line |
| LineEditor.Editor.EraseWord | external/pdcurses/pdcurses/getstr.c:161-182 | ^W erases the blanks at the end and the word before them |
| LineEditor.Editor.GetNStr | external/pdcurses/pdcurses/getstr.c:71-215 | wgetnstr over any key sequence with an Enter: the string is the edited buffer, terminated, the window has followed it, and echo, cbreak and nodelay are restored |

## Left out

- Subwindows, pads, row aliasing, `_immed`, `_sync` and `wsyncup`: a window is assumed to own its rows.
- `touchoverlap`, `untouchwin` and `wtouchln` are not among the operations of `Damage.EveryOpDraws`: the last two drop marks on purpose, the first is treated on its own.
- `set_tabsize` (tab stops are 8 apart); the hardware cursor that `leaveok` hides.
- Soft labels, ripped-off lines, mouse, keyboard polling, timing and beeps: `wgetch` is a given key sequence; a negative return is not part of it.
- Copying a window onto itself, `overlay` and `overwrite` onto `curscr`, and `copywin` with negative source coordinates: the code relies on its callers there.
- Allocation failure and integer overflow.
- Whether a bright background blinks or is shown bright is a mode of the adapter, not part of what a position shows.
- EditorModel.EchoExact: with raw output on a row that scrolls the condition is sufficient only, because there an erasure can come out right by chance (`EditorModel.RawLuck`).
- EditorModel.KeyEchoExact: the same.
- Monochrome adapters, on which `start_color` is refused, and palette changes (`init_color`).
- Which of several overlapping windows shows without the panel library: for these only `Pipeline.EveryUpdateShows` holds, that the display shows `curscr`.
- A panel is shown again with the same record after `del_panel`: the freed record is not modelled as unusable. User pointers are left out.
- A program's own writes to `stdscr` while panels are linked, and direct refreshes or moves of panel windows: the library does not support them either.
- `ini_read`, `ini_write`, `trim`, `ini_strip_quotes`, renaming sections, and the numeric accessors.
- Names of 128 characters or more, for which the store overruns its records; names and buffers are fields holding values, not arrays of bytes, and exchanging payloads exchanges the values.
- The row table `_y` and the PANELOBS lists are sequences held in fields; rows, intervals and video memory are arrays.
- Screens wider than 256 columns, the size of the direct painter's line buffer.
- The interrupts behind the adapter: function 09h writes `count` equal cells at the cursor, function 02h moves it.
- GPU, PCI, DPMI and video-mode code, the kernel, the REPL, configuration and scripts.
