/** The DOS display adapter: how a cell looks, and the two ways _new_packet paints. */
module Adapters {
  import opened Cells

  type Byte = n: int | 0 <= n < 0x100
  /** A colour number, 0-15. */
  type Nibble = b: bv8 | b < 16

  /** One character position of video memory. */
  datatype VCell = VCell(text: Byte, attr: bv8)

  datatype Color = Color(fore: Nibble, back: Nibble)

  /** What rendering depends on: the pair table atrtab, the adapter's colour order
      pdc_curstoreal, and the attributes it supports. */
  datatype Config = Config(pairs: seq<Color>, curstoreal: seq<Nibble>, termattrs: bv8) {
    predicate Valid() { |pairs| == 256 && |curstoreal| == 16 }
  }

  /** The characters acs_map gives 'f' to '~'. */
  const ACS_LETTERS: seq<Byte> :=
    [0xf8, 0xf1, 0xb0, 0x0f, 0xd9, 0xbf, 0xda, 0xc0, 0xc5, 0x2d, 0x2d, 0xc4, 0x2d,
     0x5f, 0xc3, 0xb4, 0xc1, 0xc2, 0xb3, 0xf3, 0xf2, 0xe3, 0xd8, 0x9c, 0xf9]

  /** acs_map: the code page 437 character of an alternate-set character. */
  function AcsMap(i: Byte): Byte
    requires i < 0x80
  {
    if i == 0x2b then 0x1a else if i == 0x2c then 0x1b else if i == 0x2d then 0x18 else if i == 0x2e then 0x19
    else if i == 0x30 then 0xdb else if i == 0x60 then 0x04 else if i == 0x61 then 0xb1
    else if 102 <= i < 127 then ACS_LETTERS[i - 102]
    else i
  }

  function RenderText(ch: Chtype): Byte {
    if ch.mods & ALTCHARSET != 0 && ch.text < 0x80 then AcsMap(ch.text) else ch.text % 0x100
  }

  /** The adapter's attribute byte for a cell's colour pair and modifiers. */
  function RenderAttr(cfg: Config, pair: bv8, mods: bv8): bv8
    requires cfg.Valid()
  {
    var c := cfg.pairs[pair as int];
    var fore: Nibble := cfg.curstoreal[(if mods & BOLD != 0 then c.fore | 8 else c.fore) as int];
    var back: Nibble := cfg.curstoreal[(if mods & BLINK != 0 then c.back | 8 else c.back) as int];
    if mods & REVERSE != 0 then
      if cfg.termattrs & BLINK != 0 then (back & 7) | (((fore & 7) | (back & 8)) << 4)
      else back | (fore << 4)
    else if mods & UNDERLINE != 0 && cfg.termattrs & UNDERLINE != 0 then ((fore & 8) | 1) | (back << 4)
    else fore | (back << 4)
  }

  /** The attributes that cut packets: all but A_ALTCHARSET. */
  function PacketAttr(ch: Chtype): Chtype { Ch(ch.pair, ch.mods & 0xfe, 0) }

  /** How a cell looks. */
  function Render(cfg: Config, ch: Chtype): VCell
    requires cfg.Valid()
  {
    VCell(RenderText(ch), RenderAttr(cfg, ch.pair, ch.mods))
  }

  function RenderRow(cfg: Config, s: Row): (v: seq<VCell>)
    requires cfg.Valid()
    ensures |v| == |s|
  {
    seq(|s|, k requires 0 <= k < |s| => Render(cfg, s[k]))
  }

  /** The alternate-set flag plays no part in the attribute byte. */
  lemma AttrIgnoresAltCharset(cfg: Config, ch: Chtype)
    requires cfg.Valid()
    ensures RenderAttr(cfg, ch.pair, ch.mods) == RenderAttr(cfg, ch.pair, PacketAttr(ch).mods)
  {
    var m := ch.mods;
    assert (m & 0xfe) & BOLD == m & BOLD && (m & 0xfe) & BLINK == m & BLINK;
    assert (m & 0xfe) & REVERSE == m & REVERSE && (m & 0xfe) & UNDERLINE == m & UNDERLINE;
  }

  /** The corners and lines of the alternate set on code page 437. */
  lemma BoxDrawing()
    ensures AcsMap(0x6c) == 0xda && AcsMap(0x6b) == 0xbf && AcsMap(0x6d) == 0xc0 && AcsMap(0x6a) == 0xd9
    ensures AcsMap(0x71) == 0xc4 && AcsMap(0x78) == 0xb3
  {
  }

  /** Characters are shown as themselves, whatever their colours, but for those of the
      alternate set. */
  lemma LettersShow(ch: Chtype)
    requires ch.text < 0x100
    ensures RenderText(ch) == if ch.mods & ALTCHARSET != 0 && ch.text < 0x80 then AcsMap(ch.text) else ch.text
  {
  }

  /** One call of PDC_transform_line. */
  datatype Send = Send(line: int, x: int, len: int)

  // ---------------------------------------------------------------- packets

  /** A stretch of cells painted with one attribute from column x of a line. */
  datatype Packet = Packet(line: int, x: int, attr: Chtype, cells: Row)

  predicate Uniform(s: Row, attr: Chtype) { forall i | 0 <= i < |s| :: PacketAttr(s[i]) == attr }

  /** Length of the leading stretch of s with attribute attr. */
  function Stretch(s: Row, attr: Chtype): (k: nat)
    ensures k <= |s| && Uniform(s[..k], attr) && (k < |s| ==> PacketAttr(s[k]) != attr)
  {
    if s == [] || PacketAttr(s[0]) != attr then 0
    else
      var k := Stretch(s[1..], attr);
      assert s[..k + 1] == [s[0]] + s[1..][..k];
      1 + k
  }

  /** The packets of PDC_transform_line. */
  function Packets(line: int, x: int, s: Row): seq<Packet>
    decreases |s|
  {
    if s == [] then []
    else
      var attr := PacketAttr(s[0]);
      var k := Stretch(s, attr);
      [Packet(line, x, attr, s[..k])] + Packets(line, x + k, s[k..])
  }

  /** The first packet is the uniform stretch that the next cell's attribute ends. */
  lemma PacketsAt(line: int, x: int, s: Row, k: nat)
    requires 0 < k <= |s| && Uniform(s[..k], PacketAttr(s[0])) && (k < |s| ==> PacketAttr(s[k]) != PacketAttr(s[0]))
    ensures Packets(line, x, s) == [Packet(line, x, PacketAttr(s[0]), s[..k])] + Packets(line, x + k, s[k..])
  {
    StretchIs(s, PacketAttr(s[0]), k);
    hide Stretch, Uniform, PacketAttr;
  }

  lemma StretchIs(s: Row, attr: Chtype, k: nat)
    requires k <= |s| && Uniform(s[..k], attr) && (k < |s| ==> PacketAttr(s[k]) != attr)
    ensures Stretch(s, attr) == k
  {
    hide Stretch, PacketAttr;
    UniformAt(s, attr, k);
    UniformAt(s, attr, Stretch(s, attr));
  }

  lemma UniformAt(s: Row, attr: Chtype, k: nat)
    requires k <= |s| && Uniform(s[..k], attr)
    ensures forall i | 0 <= i < k :: PacketAttr(s[i]) == attr
  {
    hide PacketAttr;
    forall i | 0 <= i < k
      ensures PacketAttr(s[i]) == attr
    {
      assert s[..k][i] == s[i];
    }
  }

  /** The cells of the packets, in order. */
  function Joined(p: seq<Packet>): Row {
    if p == [] then [] else p[0].cells + Joined(p[1..])
  }

  /** Packets lie one after the other from column x, none empty, each of one attribute
      and different from its neighbour's. */
  predicate Maximal(p: seq<Packet>, line: int, x: int) {
    p == [] ||
    (&& p[0].line == line && p[0].x == x && p[0].cells != [] && Uniform(p[0].cells, p[0].attr)
     && (|p| > 1 ==> p[1].attr != p[0].attr)
     && Maximal(p[1..], line, x + |p[0].cells|))
  }

  lemma NoPackets(line: int, x: int)
    ensures Packets(line, x, []) == [] && Joined([]) == [] && Maximal([], line, x)
  {
  }

  lemma PacketsStart(line: int, x: int, s: Row)
    requires s != []
    ensures var (p, k) := (Packets(line, x, s), Stretch(s, PacketAttr(s[0])));
            && 0 < k <= |s| && p != [] && p[0] == Packet(line, x, PacketAttr(s[0]), s[..k])
            && p[1..] == Packets(line, x + k, s[k..])
  {
  }

  lemma FirstDiffers(s: Row)
    requires s != []
    ensures var k := Stretch(s, PacketAttr(s[0]));
            Uniform(s[..k], PacketAttr(s[0])) && (k < |s| ==> PacketAttr(s[k..][0]) != PacketAttr(s[0]))
  {
  }

  /** A maximal cutting stays one with a uniform packet of another attribute in front. */
  lemma MaximalCons(p: seq<Packet>, line: int, x: int)
    requires p != [] && p[0].line == line && p[0].x == x && p[0].cells != [] && Uniform(p[0].cells, p[0].attr)
    requires Maximal(p[1..], line, x + |p[0].cells|)
    requires Joined(p[1..]) != [] ==> PacketAttr(Joined(p[1..])[0]) != p[0].attr
    ensures Maximal(p, line, x) && Joined(p) == p[0].cells + Joined(p[1..])
  {
    if |p| > 1 {
      assert p[1..][0] == p[1] && Joined(p[1..])[0] == p[1].cells[0];
    }
  }

  /** The splitter cuts any line into contiguous, maximal packets of equal attributes
      that cover it exactly once. */
  lemma {:induction false} PacketsCover(line: int, x: int, s: Row)
    ensures Joined(Packets(line, x, s)) == s && Maximal(Packets(line, x, s), line, x)
    decreases |s|
  {
    hide *;
    NoPackets(line, x);
    if s != [] {
      var k := Stretch(s, PacketAttr(s[0]));
      PacketsStart(line, x, s);
      PacketsCover(line, x + k, s[k..]);
      FirstDiffers(s);
      MaximalCons(Packets(line, x, s), line, x);
      assert s[..k] + s[k..] == s;
    }
  }

  /** Cells i and i + 1 of a line from column x lie in one of the packets. */
  ghost predicate Together(p: seq<Packet>, x: int, i: int) {
    exists q :: q in p && q.x <= x + i && x + i + 1 < q.x + |q.cells|
  }

  /** Two cells agree in colour and in all modifiers but A_ALTCHARSET. */
  predicate SameAttributes(a: Chtype, b: Chtype) { a.pair == b.pair && (a.mods ^ b.mods) & !ALTCHARSET == 0 }

  lemma SameAttr(a: Chtype, b: Chtype)
    ensures PacketAttr(a) == PacketAttr(b) <==> SameAttributes(a, b)
  {
  }

  /** Two neighbours are painted by the same packet exactly when they differ at most in
      their text and in being of the alternate character set. */
  lemma {:induction false} NeighboursTogether(line: int, x: int, s: Row, i: nat)
    requires i + 1 < |s|
    ensures Together(Packets(line, x, s), x, i) <==> SameAttributes(s[i], s[i + 1])
    decreases |s|
  {
    hide *;
    var k := Stretch(s, PacketAttr(s[0]));
    var p := Packets(line, x, s);
    PacketsStart(line, x, s);
    StretchCut(s, k, i);
    SameAttr(s[i], s[i + 1]);
    RestBehind(line, x + k, s[k..]);
    if i + 1 < k {
      TogetherFirst(p, x, i, k);
    } else {
      if i + 1 > k {
        NeighboursTogether(line, x + k, s[k..], i - k);
      }
      TogetherRest(p, x, i, k);
    }
  }

  /** Where the first stretch ends. */
  lemma StretchCut(s: Row, k: nat, i: nat)
    requires i + 1 < |s| && k == Stretch(s, PacketAttr(s[0]))
    ensures 0 < k <= |s|
    ensures i + 1 < k ==> PacketAttr(s[i]) == PacketAttr(s[i + 1])
    ensures i + 1 == k ==> PacketAttr(s[i]) != PacketAttr(s[i + 1])
    ensures i + 1 > k ==> s[k..][i - k] == s[i] && s[k..][i - k + 1] == s[i + 1]
  {
    hide PacketAttr;
    UniformAt(s, PacketAttr(s[0]), k);
  }

  /** All packets of a line lie at or behind its first column. */
  lemma {:induction false} RestBehind(line: int, x: int, s: Row)
    ensures forall q | q in Packets(line, x, s) :: q.x >= x
    decreases |s|
  {
    hide *;
    NoPackets(line, x);
    if s != [] {
      var k := Stretch(s, PacketAttr(s[0]));
      PacketsStart(line, x, s);
      RestBehind(line, x + k, s[k..]);
      forall q | q in Packets(line, x, s)
        ensures q.x >= x
      {
        assert Packets(line, x, s) == [Packets(line, x, s)[0]] + Packets(line, x, s)[1..];
      }
    }
  }

  lemma TogetherFirst(p: seq<Packet>, x: int, i: nat, k: nat)
    requires p != [] && p[0].x == x && |p[0].cells| == k && i + 1 < k
    ensures Together(p, x, i)
  {
    assert p[0] in p;
  }

  lemma TogetherRest(p: seq<Packet>, x: int, i: nat, k: nat)
    requires p != [] && p[0].x == x && |p[0].cells| == k && i + 1 >= k
    requires forall q | q in p[1..] :: q.x >= x + k
    ensures Together(p, x, i) <==> i + 1 > k && Together(p[1..], x + k, i - k)
  {
    assert p == [p[0]] + p[1..];
    if Together(p, x, i) {
      var q :| q in p && q.x <= x + i && x + i + 1 < q.x + |q.cells|;
      assert q in p[1..];
    }
    if i + 1 > k && Together(p[1..], x + k, i - k) {
      var q :| q in p[1..] && q.x <= x + k + (i - k) && x + k + (i - k) + 1 < q.x + |q.cells|;
      assert q in p;
    }
  }

  lemma JoinedAt(p: seq<Packet>, line: int, x: int)
    requires p != [] && Maximal(p, line, x)
    ensures var (s, k) := (Joined(p), |p[0].cells|);
            && 0 < k <= |s| && s[..k] == p[0].cells && s[k..] == Joined(p[1..])
            && p[0] == Packet(line, x, PacketAttr(s[0]), s[..k])
            && (k < |s| ==> PacketAttr(s[k]) != PacketAttr(s[0])) && Uniform(s[..k], PacketAttr(s[0]))
            && Maximal(p[1..], line, x + k)
  {
    var s := Joined(p);
    var k := |p[0].cells|;
    assert s[..k] == p[0].cells && s[k..] == Joined(p[1..]) && s[0] == p[0].cells[0];
    if |p| > 1 {
      assert Maximal(p[1..], line, x + k) && p[1..][0] == p[1];
      assert s[k] == Joined(p[1..])[0] == p[1].cells[0];
    }
  }

  /** Only the maximal cutting has these properties: the packets are determined. */
  lemma {:induction false} MaximalIsPackets(p: seq<Packet>, line: int, x: int)
    requires Maximal(p, line, x)
    ensures p == Packets(line, x, Joined(p))
  {
    hide *;
    NoPackets(line, x);
    if p != [] {
      JoinedAt(p, line, x);
      MaximalIsPackets(p[1..], line, x + |p[0].cells|);
      PacketsAt(line, x, Joined(p), |p[0].cells|);
      assert [p[0]] + p[1..] == p;
    }
  }

  // ---------------------------------------------------------------- the adapter

  /** Index of position (row, col) in video memory. */
  function At(cols: int, row: int, col: int): int { row * cols + col }

  lemma RowsApart(cols: int, r: int, y: int)
    requires 0 <= cols && r < y
    ensures At(cols, r, 0) + cols <= At(cols, y, 0)
  {
    assert (y - r - 1) * cols >= 0;
    assert y * cols == r * cols + cols + (y - r - 1) * cols;
  }

  lemma AtInjective(cols: int, r: int, c: int, y: int, x: int)
    requires 0 <= c < cols && 0 <= x < cols
    ensures At(cols, r, c) == At(cols, y, x) <==> r == y && c == x
  {
    if r < y {
      RowsApart(cols, r, y);
    } else if r > y {
      RowsApart(cols, y, r);
    }
    assert At(cols, r, c) == At(cols, r, 0) + c && At(cols, y, x) == At(cols, y, 0) + x;
    hide At;
  }

  lemma AtBounds(lines: int, cols: int, r: int, c: int)
    requires 0 <= r < lines && 0 <= c < cols
    ensures 0 <= At(cols, r, c) == At(cols, r, 0) + c < At(cols, r, 0) + cols <= lines * cols
  {
    RowsApart(cols, r, lines);
    assert r * cols >= 0;
  }

  /** The cells a packet paints. */
  function PacketCells(cfg: Config, attr: Chtype, s: Row): (v: seq<VCell>)
    requires cfg.Valid()
    ensures |v| == |s|
  {
    seq(|s|, k requires 0 <= k < |s| => VCell(RenderText(s[k]), RenderAttr(cfg, attr.pair, attr.mods)))
  }

  lemma PacketCellsRender(cfg: Config, attr: Chtype, s: Row)
    requires cfg.Valid() && Uniform(s, attr)
    ensures PacketCells(cfg, attr, s) == RenderRow(cfg, s)
  {
    forall k | 0 <= k < |s|
      ensures PacketCells(cfg, attr, s)[k] == RenderRow(cfg, s)[k]
    {
      AttrIgnoresAltCharset(cfg, s[k]);
    }
  }

  /** The loop of _new_packet that renders a packet into its line buffer. */
  method LineBuffer(mapped: bv8, src: array<Chtype>, off: int, len: int) returns (temp: array<VCell>)
    requires 0 <= len <= 256 && 0 <= off && off + len <= src.Length
    ensures fresh(temp) && temp.Length == 256 &&
            forall k | 0 <= k < len :: temp[k] == VCell(RenderText(src[off + k]), mapped)
  {
    hide RenderText;
    temp := new VCell[256];
    var j := 0;
    while j < len
      invariant 0 <= j <= len
      invariant forall k | 0 <= k < j :: temp[k] == VCell(RenderText(src[off + k]), mapped)
    {
      temp[j] := VCell(RenderText(src[off + j]), mapped);
      j := j + 1;
    }
  }

  class Adapter {
    const lines: nat
    const cols: nat
    /** pdc_direct_video: write video memory directly, or go through the BIOS. */
    var direct: bool
    const video: array<VCell>
    /** The hardware cursor. */
    var row: int
    var col: int

    /** What is on the screen, the lines sent and the packets painted so far. */
    ghost var shown: seq<seq<VCell>>
    ghost var sent: seq<Send>
    ghost var packets: seq<Packet>

    ghost predicate Valid()
      reads `shown, video
    {
      && cols <= 256 && |shown| == lines && video.Length == lines * cols
      && (forall r | 0 <= r < lines :: |shown[r]| == cols)
      && (forall r, c | 0 <= r < lines && 0 <= c < cols :: Holds(r, c))
    }

    ghost predicate Holds(r: int, c: int)
      requires 0 <= r < lines && 0 <= c < cols && video.Length == lines * cols
      requires |shown| == lines && |shown[r]| == cols
      reads `shown, video
    {
      AtBounds(lines, cols, r, c);
      video[At(cols, r, c)] == shown[r][c]
    }

    /** An adapter whose memory holds c everywhere. */
    constructor (lines: nat, cols: nat, direct: bool, c: VCell)
      requires cols <= 256
      ensures Valid() && fresh(video) && this.lines == lines && this.cols == cols
    {
      this.lines, this.cols, this.direct := lines, cols, direct;
      row, col := 0, 0;
      var size := lines * cols;
      video := new VCell[size](_ => c);
      shown := seq(lines, _ => seq(cols, _ => c));
      sent, packets := [], [];
      new;
      forall r, x | 0 <= r < lines && 0 <= x < cols
        ensures Holds(r, x)
      {
        AtBounds(lines, cols, r, x);
      }
    }

    /** Write s to consecutive positions from (r, c), staying on row r. */
    method Put(r: int, c: int, s: seq<VCell>)
      requires Valid() && 0 <= r < lines && 0 <= c && c + |s| <= cols
      modifies `shown, video
      ensures Valid() && shown == old(shown)[r := Splice(old(shown)[r], c, s)]
    {
      var base := At(cols, r, c);
      if s != [] {
        AtBounds(lines, cols, r, c);
      }
      var k := 0;
      ghost var was := video[..];
      while k < |s|
        modifies video
        invariant 0 <= k <= |s|
        invariant forall i | 0 <= i < video.Length :: video[i] == if base <= i < base + k then s[i - base] else was[i]
      {
        video[base + k] := s[k];
        k := k + 1;
      }
      shown := shown[r := Splice(shown[r], c, s)];
      forall y, x | 0 <= y < lines && 0 <= x < cols
        ensures Holds(y, x)
      {
        AtBounds(lines, cols, y, x);
        assert old(Holds(y, x));
        if base <= At(cols, y, x) < base + |s| {
          AtInjective(cols, r, c + (At(cols, y, x) - base), y, x);
        } else if y == r {
          assert At(cols, y, x) - base == x - c;
        }
      }
    }

    /** PDC_gotoyx: BIOS interrupt 10h, function 02h. */
    method GotoYX(r: int, c: int)
      requires Valid()
      modifies `row, `col
      ensures Valid() && row == r && col == c
    {
      row := r;
      col := c;
    }

    /** BIOS interrupt 10h, function 09h: a character `count` times from the cursor. */
    method BiosWrite(text: Byte, attr: bv8, count: nat)
      requires Valid() && 0 <= row < lines && 0 <= col && col + count <= cols
      modifies `shown, video
      ensures Valid() && shown == old(shown)[row := Splice(old(shown)[row], col, seq(count, _ => VCell(text, attr)))]
    {
      Put(row, col, seq(count, _ => VCell(text, attr)));
    }

    /** _new_packet: the cells src[off..off + len] with one attribute, by either path. */
    method NewPacket(cfg: Config, attr: Chtype, lineno: int, x: int, len: int, src: array<Chtype>, off: int)
      requires Valid() && cfg.Valid() && 0 <= lineno < lines && 0 <= x && x + len <= cols
      requires 0 < len && 0 <= off && off + len <= src.Length
      modifies `shown, `packets, `row, `col, video
      ensures Valid() &&
              shown == old(shown)[lineno := Splice(old(shown)[lineno], x, PacketCells(cfg, attr, src[off..off + len]))]
      ensures packets == old(packets) + [Packet(lineno, x, attr, src[off..off + len])]
    {
      hide Valid, RenderAttr, RenderText;
      Size();
      var mapped := RenderAttr(cfg, attr.pair, attr.mods);
      if direct {
        var temp := LineBuffer(mapped, src, off, len);
        assert temp[..len] == PacketCells(cfg, attr, src[off..off + len]);
        Put(lineno, x, temp[..len]);
      } else {
        BiosPacket(cfg, mapped, attr, lineno, x, len, src, off);
      }
      packets := packets + [Packet(lineno, x, attr, src[off..off + len])];
    }

    lemma Size()
      requires Valid()
      ensures cols <= 256 && |shown| == lines && forall r | 0 <= r < lines :: |shown[r]| == cols
    {
    }

    /** The BIOS path of _new_packet: runs of equal cells, each written at once. */
    method BiosPacket(cfg: Config, mapped: bv8, attr: Chtype, lineno: int, x: int, len: int,
                      src: array<Chtype>, off: int)
      requires Valid() && cfg.Valid() && 0 <= lineno < lines && 0 <= x && x + len <= cols
      requires 0 <= len && 0 <= off && off + len <= src.Length && mapped == RenderAttr(cfg, attr.pair, attr.mods)
      modifies `shown, `row, `col, video
      ensures Valid() &&
              shown == old(shown)[lineno := Splice(old(shown)[lineno], x, PacketCells(cfg, attr, src[off..off + len]))]
    {
      Size();
      ghost var s, was := src[off..off + len], shown;
      PaintedNone(cfg, was, lineno, x, attr, s);
      hide *;
      var j := 0;
      while j < len
        invariant 0 <= j <= len
        invariant Valid() && shown == was[lineno := Splice(was[lineno], x, PacketCells(cfg, attr, s[..j]))]
      {
        j := BiosRun(cfg, mapped, attr, lineno, x, j, len, src, off, s, was);
      }
      assert s[..len] == s;
    }

    /** One run of equal cells, from the packet's cell j on. */
    method BiosRun(cfg: Config, mapped: bv8, attr: Chtype, lineno: int, x: int, j: int, len: int,
                   src: array<Chtype>, off: int, ghost s: Row, ghost was: seq<seq<VCell>>) returns (next: int)
      requires Valid() && cfg.Valid() && 0 <= lineno < lines == |was| && 0 <= x && x + len <= cols == |was[lineno]|
      requires 0 <= j < len && 0 <= off && off + len <= src.Length && mapped == RenderAttr(cfg, attr.pair, attr.mods)
      requires s == src[off..off + len] &&
               shown == was[lineno := Splice(was[lineno], x, PacketCells(cfg, attr, s[..j]))]
      modifies `shown, `row, `col, video
      ensures Valid() && j < next <= len
      ensures shown == was[lineno := Splice(was[lineno], x, PacketCells(cfg, attr, s[..next]))]
    {
      hide *;
      var ch := src[off + j];
      var count := RunLength(src, off + j, off + len);
      GotoYX(lineno, j + x);
      BiosWrite(RenderText(ch), mapped, count);
      next := j + count;
      RunCells(cfg, was, lineno, x, attr, s, j, next, ch);
    }

    /** How many cells from src[from] on are equal, before `end`. */
    method RunLength(src: array<Chtype>, from: int, end: int) returns (count: nat)
      requires 0 <= from < end <= src.Length
      ensures 1 <= count <= end - from && forall k | from <= k < from + count :: src[k] == src[from]
    {
      count := 1;
      while from + count < end && src[from] == src[from + count]
        invariant 1 <= count <= end - from
        invariant forall k | from <= k < from + count :: src[k] == src[from]
      {
        count := count + 1;
      }
    }

    /** PDC_transform_line: split the cells into packets and paint each. */
    method TransformLine(cfg: Config, lineno: int, x: int, len: int, src: array<Chtype>, off: int)
      requires Valid() && cfg.Valid() && 0 <= lineno < lines && 0 <= x && x + len <= cols
      requires 0 < len && 0 <= off && off + len <= src.Length
      modifies `shown, `packets, `sent, `row, `col, video
      ensures Valid() &&
              shown == old(shown)[lineno := Splice(old(shown)[lineno], x, RenderRow(cfg, src[off..off + len]))]
      ensures packets == old(packets) + Packets(lineno, x, src[off..off + len])
      ensures sent == old(sent) + [Send(lineno, x, len)]
    {
      hide *;
      sent := sent + [Send(lineno, x, len)];
      Size();
      ghost var all := src[..];
      ghost var s, was, log := all[off..off + len], shown, packets;
      assert src[off..off + len] == s;
      SplitStart(cfg, was, log, lineno, x, s);
      var oldAttr := PacketAttr(src[off]);
      var srcp, px := off, x;
      var i, j := 1, 1;
      while j < len
        invariant 1 <= i <= j <= len && srcp == off + (j - i) && px == x + (j - i)
        invariant Valid() && Splitting(cfg, was, log, lineno, x, s, j - i, j, oldAttr, shown, packets)
        invariant src[..] == all && sent == old(sent) + [Send(lineno, x, len)]
      {
        var attr := PacketAttr(src[srcp + i]);
        assert src[srcp + i] == s[j];
        if attr != oldAttr {
          SplitCut(cfg, was, log, lineno, x, s, j - i, j, oldAttr, shown, packets);
          SliceIs(src, s, off, j - i, j);
          NewPacket(cfg, oldAttr, lineno, px, i, src, srcp);
          oldAttr := attr;
          srcp := srcp + i;
          px := px + i;
          i := 0;
        }
        SplitMore(cfg, was, log, lineno, x, s, j - i, j, oldAttr, shown, packets);
        i, j := i + 1, j + 1;
      }
      SplitCut(cfg, was, log, lineno, x, s, j - i, j, oldAttr, shown, packets);
      SliceIs(src, s, off, j - i, j);
      NewPacket(cfg, oldAttr, lineno, px, i, src, srcp);
    }
  }

  lemma SliceIs(a: array<Chtype>, s: Row, off: nat, i: nat, j: nat)
    requires i <= j <= |s| && off + |s| <= a.Length && s == a[..][off..off + |s|]
    ensures a[off + i..off + j] == s[i..j]
  {
    forall k | 0 <= k < j - i
      ensures a[off + i..off + j][k] == s[i..j][k]
    {
      assert s[i + k] == a[..][off + (i + k)];
    }
  }

  lemma PaintedNone(cfg: Config, was: seq<seq<VCell>>, r: int, x: int, attr: Chtype, s: Row)
    requires cfg.Valid() && 0 <= r < |was| && 0 <= x && x + |s| <= |was[r]|
    ensures was[r := Splice(was[r], x, PacketCells(cfg, attr, s[..0]))] == was
  {
    assert Splice(was[r], x, PacketCells(cfg, attr, s[..0])) == was[r];
  }

  /** A run of one character, written at once, is the run's cells. */
  lemma RunCells(cfg: Config, was: seq<seq<VCell>>, r: int, x: int, attr: Chtype, s: Row, j: int, k: int, ch: Chtype)
    requires cfg.Valid() && 0 <= r < |was| && 0 <= x && x + |s| <= |was[r]| && 0 <= j <= k <= |s|
    requires forall i | j <= i < k :: s[i] == ch
    ensures var g := was[r := Splice(was[r], x, PacketCells(cfg, attr, s[..j]))];
            var run := seq(k - j, _ => VCell(RenderText(ch), RenderAttr(cfg, attr.pair, attr.mods)));
            |g| == |was| && |g[r]| == |was[r]| &&
            g[r := Splice(g[r], x + j, run)] == was[r := Splice(was[r], x, PacketCells(cfg, attr, s[..k]))]
  {
    var run := seq(k - j, _ => VCell(RenderText(ch), RenderAttr(cfg, attr.pair, attr.mods)));
    assert PacketCells(cfg, attr, s[..k]) == PacketCells(cfg, attr, s[..j]) + run;
    SpliceMore(was[r], x, PacketCells(cfg, attr, s[..j]), run);
  }

  /** The state of the splitting loop on line s: the cells before d are painted and
      their packets logged, those from d to j share the attribute attr. */
  ghost predicate Splitting(cfg: Config, was: seq<seq<VCell>>, log: seq<Packet>, r: int, x: int, s: Row, d: int, j: int,
                            attr: Chtype, now: seq<seq<VCell>>, packets: seq<Packet>)
  {
    && cfg.Valid() && 0 <= r < |was| && 0 <= x && x + |s| <= |was[r]| && 0 <= d <= j <= |s|
    && now == was[r := Splice(was[r], x, RenderRow(cfg, s[..d]))]
    && packets + Packets(r, x + d, s[d..]) == log + Packets(r, x, s)
    && (d < j ==> attr == PacketAttr(s[d])) && Uniform(s[d..j], attr)
  }

  lemma SplitStart(cfg: Config, was: seq<seq<VCell>>, log: seq<Packet>, r: int, x: int, s: Row)
    requires cfg.Valid() && 0 <= r < |was| && 0 <= x && x + |s| <= |was[r]| && s != []
    ensures Splitting(cfg, was, log, r, x, s, 0, 1, PacketAttr(s[0]), was, log)
  {
    EmptySplice(was[r], x, RenderRow(cfg, s[..0]));
    assert s[0..] == s;
  }

  lemma SplitMore(cfg: Config, was: seq<seq<VCell>>, log: seq<Packet>, r: int, x: int, s: Row, d: int, j: int,
                  attr: Chtype, now: seq<seq<VCell>>, packets: seq<Packet>)
    requires Splitting(cfg, was, log, r, x, s, d, j, attr, now, packets) && j < |s| && PacketAttr(s[j]) == attr
    ensures Splitting(cfg, was, log, r, x, s, d, j + 1, attr, now, packets)
  {
    hide RenderRow, Packets, Splice, Uniform;
    UniformMore(s, d, j, attr);
  }

  lemma UniformMore(s: Row, d: int, j: int, attr: Chtype)
    requires 0 <= d <= j < |s| && Uniform(s[d..j], attr) && PacketAttr(s[j]) == attr
    ensures Uniform(s[d..j + 1], attr)
  {
    assert s[d..j + 1] == s[d..j] + [s[j]];
  }

  /** Painting the collected packet moves the loop on to the next one; after the last
      packet the line is done. */
  lemma SplitCut(cfg: Config, was: seq<seq<VCell>>, log: seq<Packet>, r: int, x: int, s: Row, d: int, j: int,
                 attr: Chtype, now: seq<seq<VCell>>, packets: seq<Packet>)
    requires Splitting(cfg, was, log, r, x, s, d, j, attr, now, packets) && d < j
    requires j < |s| ==> PacketAttr(s[j]) != attr
    ensures |now| == |was| && |now[r]| == |was[r]|
    ensures var painted := now[r := Splice(now[r], x + d, PacketCells(cfg, attr, s[d..j]))];
            var more := packets + [Packet(r, x + d, attr, s[d..j])];
            if j < |s| then Splitting(cfg, was, log, r, x, s, j, j, PacketAttr(s[j]), painted, more)
            else painted == was[r := Splice(was[r], x, RenderRow(cfg, s))] && more == log + Packets(r, x, s)
  {
    hide RenderRow, Packets, Splice, PacketCells;
    PaintNext(cfg, was, r, x, s, d, j, attr);
    PacketCut(r, x + d, s, d, j);
    if j == |s| {
      assert s[..j] == s;
    } else {
      assert packets + ([Packet(r, x + d, attr, s[d..j])] + Packets(r, x + j, s[j..]))
          == packets + [Packet(r, x + d, attr, s[d..j])] + Packets(r, x + j, s[j..]);
    }
  }

  lemma PaintNext(cfg: Config, was: seq<seq<VCell>>, r: int, x: int, s: Row, d: int, j: int, attr: Chtype)
    requires cfg.Valid() && 0 <= r < |was| && 0 <= x && x + |s| <= |was[r]| && 0 <= d <= j <= |s| &&
             Uniform(s[d..j], attr)
    ensures var g := was[r := Splice(was[r], x, RenderRow(cfg, s[..d]))];
            |g| == |was| && |g[r]| == |was[r]| &&
            g[r := Splice(g[r], x + d, PacketCells(cfg, attr, s[d..j]))] ==
            was[r := Splice(was[r], x, RenderRow(cfg, s[..j]))]
  {
    PacketCellsRender(cfg, attr, s[d..j]);
    assert RenderRow(cfg, s[..j]) == RenderRow(cfg, s[..d]) + RenderRow(cfg, s[d..j]);
    SpliceMore(was[r], x, RenderRow(cfg, s[..d]), RenderRow(cfg, s[d..j]));
  }

  lemma PacketCut(line: int, px: int, s: Row, d: int, j: int)
    requires 0 <= d < j <= |s| && Uniform(s[d..j], PacketAttr(s[d])) &&
             (j < |s| ==> PacketAttr(s[j]) != PacketAttr(s[d]))
    ensures Packets(line, px, s[d..]) ==
            [Packet(line, px, PacketAttr(s[d]), s[d..j])] + Packets(line, px + (j - d), s[j..])
    ensures j == |s| ==> Packets(line, px, s[d..]) == [Packet(line, px, PacketAttr(s[d]), s[d..j])]
  {
    hide *;
    var (t, k) := (s[d..], j - d);
    assert t[..k] == s[d..j] && t[k..] == s[j..];
    PacketsAt(line, px, t, k);
    NoPackets(line, px + k);
  }
}
