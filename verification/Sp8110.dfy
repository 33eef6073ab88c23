/**
 * The SP8110 front panel: the driver that packs RGB565 lines into 4-bit grey levels, and a model of
 * the controller that receives them (window, auto-incrementing pointer, four pixels to a column).
 */
module Sp8110 {
  import opened Bytes
  import opened DirtyLines

  // ---------------------------------------------------------------- grey levels

  /** Five bits to eight, the top bits repeated at the bottom. */
  function Expand5(x: nat): (y: nat)
    requires x < 32
    ensures y < 256
  {
    x * 8 + x / 4
  }

  /** Six bits to eight. */
  function Expand6(x: nat): (y: nat)
    requires x < 64
    ensures y < 256
  {
    x * 4 + x / 16
  }

  /** Luma with the weights 77, 150 and 29 of 256. */
  function Luma(r: nat, g: nat, b: nat): (y: nat)
    requires r < 32 && g < 64 && b < 32
    ensures y < 256
  {
    (77 * Expand5(r) + 150 * Expand6(g) + 29 * Expand5(b)) / 256
  }

  /** The top four bits of an RGB565 pixel's luma. */
  function Gray4(px: pixel): (g: nat)
    ensures g < 16
  {
    Luma(px / 2048 % 32, px / 32 % 64, px % 32) / 16
  }

  function Rgb565(r: nat, g: nat, b: nat): pixel
    requires r < 32 && g < 64 && b < 32
  {
    2048 * r + 32 * g + b
  }

  lemma By2048(q: nat, rest: nat)
    requires rest < 2048
    ensures (2048 * q + rest) / 2048 == q
  {
  }

  lemma By32(q: nat, rest: nat)
    requires rest < 32
    ensures (32 * q + rest) / 32 == q && (32 * q + rest) % 32 == rest
  {
  }

  lemma By64(q: nat, rest: nat)
    requires rest < 64
    ensures (64 * q + rest) % 64 == rest
  {
  }

  lemma Channels(r: nat, g: nat, b: nat)
    requires r < 32 && g < 64 && b < 32
    ensures Gray4(Rgb565(r, g, b)) == Luma(r, g, b) / 16
  {
    hide Luma;
    By2048(r, 32 * g + b);
    By32(64 * r + g, b);
    By64(r, g);
    assert 2048 * r + 32 * g + b == 32 * (64 * r + g) + b;
  }

  /** The level by number, whatever the pixel: five and six bits expanded to eight, weighted, and cut to four. */
  lemma LevelByNumber(px: pixel, r: nat, g: nat, b: nat)
    requires r < 32 && g < 64 && b < 32 && px == 2048 * r + 32 * g + b
    ensures Gray4(px) == (77 * (33 * r / 4) + 150 * (65 * g / 16) + 29 * (33 * b / 4)) / 4096
  {
    hide Gray4, Expand5, Expand6;
    Channels(r, g, b);
    ExpandedByNumber(r, g);
    ExpandedByNumber(b, g);
    hide Rgb565;
    var sum := 77 * Expand5(r) + 150 * Expand6(g) + 29 * Expand5(b);
    assert sum / 256 / 16 == sum / 4096;
  }

  lemma ExpandedByNumber(x: nat, y: nat)
    requires x < 32 && y < 64
    ensures Expand5(x) == 33 * x / 4 && Expand6(y) == 65 * y / 16
  {
  }

  /** More of any primary colour never makes a pixel darker. */
  lemma GrayIsMonotone(r: nat, g: nat, b: nat, r': nat, g': nat, b': nat)
    requires r <= r' < 32 && g <= g' < 64 && b <= b' < 32
    ensures Gray4(Rgb565(r, g, b)) <= Gray4(Rgb565(r', g', b'))
  {
    hide Gray4, Rgb565;
    Channels(r, g, b);
    Channels(r', g', b');
    assert Expand5(r) <= Expand5(r') && Expand6(g) <= Expand6(g') && Expand5(b) <= Expand5(b');
  }

  /** The green level, of 64, that is as strong as level v of 32. */
  function Green(v: nat): (g: nat)
    requires v < 32
    ensures g < 64
  {
    2 * v + v / 16
  }

  /** At equal strength green is the brightest primary and blue the darkest. */
  lemma GreenRedBlue(v: nat)
    requires v < 32
    ensures Gray4(Rgb565(0, 0, v)) <= Gray4(Rgb565(v, 0, 0)) <= Gray4(Rgb565(0, Green(v), 0))
  {
    hide Gray4, Rgb565, Luma, Green, Expand5, Expand6;
    Channels(0, 0, v);
    Channels(v, 0, 0);
    Channels(0, Green(v), 0);
    GreenIsBright(v);
    NoLight();
    LevelAtMost(0, 0, v, v, 0, 0);
    LevelAtMost(v, 0, 0, 0, Green(v), 0);
  }

  lemma NoLight()
    ensures Expand5(0) == 0 && Expand6(0) == 0
  {
  }

  lemma LevelAtMost(r: nat, g: nat, b: nat, r': nat, g': nat, b': nat)
    requires r < 32 && g < 64 && b < 32 && r' < 32 && g' < 64 && b' < 32
    requires 77 * Expand5(r) + 150 * Expand6(g) + 29 * Expand5(b)
          <= 77 * Expand5(r') + 150 * Expand6(g') + 29 * Expand5(b')
    ensures Luma(r, g, b) / 16 <= Luma(r', g', b') / 16
  {
    hide Expand5, Expand6;
  }

  lemma GreenIsBright(v: nat)
    requires v < 32
    ensures 77 * Expand5(v) <= 150 * Expand6(Green(v))
  {
    assert v / 16 == if v < 16 then 0 else 1;
  }

  lemma NeutralLuma(v: nat)
    requires v < 32
    ensures Luma(v, Green(v), v) / 16 == v / 2
  {
    var sum := 106 * Expand5(v) + 150 * Expand6(Green(v));
    assert 4096 * (v / 2) <= sum < 4096 * (v / 2) + 4096 by {
      assert v / 16 == if v < 16 then 0 else 1;
    }
    hide Expand5, Expand6;
    assert sum / 256 / 16 == v / 2;
  }

  /** A neutral pixel keeps its level: the weights add up to the whole scale, from black to white. */
  lemma NeutralKeepsLevel(v: nat)
    requires v < 32
    ensures Gray4(Rgb565(v, Green(v), v)) == v / 2
  {
    hide Gray4, Rgb565, Luma, Green;
    Channels(v, Green(v), v);
    NeutralLuma(v);
  }

  function Packed(high: nat, low: nat): byte
    requires high < 16 && low < 16
  {
    high * 16 + low
  }

  /** Two pixels a byte, the first in the high half; a last pixel without a partner gets a zero. */
  function Pack(pixels: seq<pixel>): (b: bytes)
    ensures |b| == (|pixels| + 1) / 2
  {
    if pixels == [] then []
    else if |pixels| == 1 then [Packed(Gray4(pixels[0]), 0)]
    else [Packed(Gray4(pixels[0]), Gray4(pixels[1]))] + Pack(pixels[2..])
  }

  lemma {:induction false} PackAppend(a: seq<pixel>, b: seq<pixel>)
    requires |a| % 2 == 0
    ensures Pack(a + b) == Pack(a) + Pack(b)
    decreases |a|
  {
    hide Gray4;
    if a == [] {
      assert a + b == b;
    } else {
      assert (a + b)[2..] == a[2..] + b;
      PackAppend(a[2..], b);
      assert (a + b)[0] == a[0] && (a + b)[1] == a[1];
      Associate([Packed(Gray4(a[0]), Gray4(a[1]))], Pack(a[2..]), Pack(b));
    }
  }

  // ---------------------------------------------------------------- the controller

  /** One transfer on the bus; the data/command pin is low for a command byte. */
  datatype Transfer = Transfer(data: bool, body: bytes)

  /** A pixel cell: row, column address, and one of the four pixels of the column. */
  datatype Spot = Spot(row: nat, col: nat, sub: nat)

  datatype Panel = Panel(
    ram: map<Spot, nat>, command: byte,
    colFirst: nat, colLast: nat, rowFirst: nat, rowLast: nat,
    row: nat, col: nat, half: nat, startLine: nat)

  /** One byte into memory: two pixels, then the pointer moves within the window. */
  function WriteByte(p: Panel, b: byte): Panel
  {
    var ram := p.ram[Spot(p.row, p.col, 2 * p.half) := b / 16][Spot(p.row, p.col, 2 * p.half + 1) := b % 16];
    if p.half == 0 then p.(ram := ram, half := 1)
    else if p.col != p.colLast then p.(ram := ram, half := 0, col := p.col + 1)
    else p.(ram := ram, half := 0, col := p.colFirst, row := if p.row == p.rowLast then p.rowFirst else p.row + 1)
  }

  function WriteBytes(p: Panel, data: bytes): Panel
    decreases |data|
  {
    if data == [] then p else WriteBytes(WriteByte(p, data[0]), data[1..])
  }

  lemma {:induction false} WriteBytesAppend(p: Panel, a: bytes, b: bytes)
    ensures WriteBytes(p, a + b) == WriteBytes(WriteBytes(p, a), b)
    decreases |a|
  {
    if a == [] {
      assert a + b == b;
    } else {
      assert (a + b)[1..] == a[1..] + b;
      hide WriteByte;
      WriteBytesAppend(WriteByte(p, a[0]), a[1..], b);
    }
  }

  /**
   * The controller's commands: 0x15 and 0x75 set the columns and rows of the window and move the pointer to its
   * start, 0xA1 sets the memory row that is displayed on the first line, 0x5C takes data into memory.
   */
  function Receive(p: Panel, t: Transfer): Panel
  {
    if !t.data then (if t.body == [] then p else p.(command := t.body[0]))
    else if p.command == 0x15 && |t.body| == 2 then
      p.(colFirst := t.body[0], colLast := t.body[1], col := t.body[0], half := 0)
    else if p.command == 0x75 && |t.body| == 2 then
      p.(rowFirst := t.body[0], rowLast := t.body[1], row := t.body[0])
    else if p.command == 0xA1 && |t.body| == 1 then p.(startLine := t.body[0])
    else if p.command == 0x5C then WriteBytes(p, t.body)
    else p
  }

  function ReceiveAll(p: Panel, ts: seq<Transfer>): Panel
    decreases |ts|
  {
    if ts == [] then p else ReceiveAll(Receive(p, ts[0]), ts[1..])
  }

  // ---------------------------------------------------------------- painting

  function ColumnPixel(pixels: seq<pixel>, col: nat, sub: nat): nat
    requires sub < 4 && 4 * col + sub < |pixels|
  {
    Gray4(pixels[4 * col + sub])
  }

  /** after differs from before exactly by the pixels, painted from column col of one row. */
  ghost predicate PaintedRow(before: map<Spot, nat>, after: map<Spot, nat>, row: nat, col: nat, pixels: seq<pixel>)
    requires |pixels| % 4 == 0
  {
    forall s: Spot ::
      if s.row == row && col <= s.col < col + |pixels| / 4 && s.sub < 4
      then s in after && after[s] == ColumnPixel(pixels, s.col - col, s.sub)
      else (s in after <==> s in before) && (s in before && s in after ==> after[s] == before[s])
  }

  lemma PackFour(px: seq<pixel>)
    requires |px| == 4
    ensures Pack(px) == [Packed(Gray4(px[0]), Gray4(px[1])), Packed(Gray4(px[2]), Gray4(px[3]))]
  {
  }

  lemma Unpacked(high: nat, low: nat)
    requires high < 16 && low < 16
    ensures Packed(high, low) / 16 == high && Packed(high, low) % 16 == low
  {
  }

  /** Where the pointer goes after a full column. */
  function NextColumn(p: Panel): Panel
  {
    p.(col := if p.col == p.colLast then p.colFirst else p.col + 1,
       row := if p.col != p.colLast then p.row else if p.row == p.rowLast then p.rowFirst else p.row + 1,
       half := 0)
  }

  lemma WriteTwo(p: Panel, b0: byte, b1: byte)
    requires p.half == 0
    ensures WriteBytes(p, [b0, b1]) ==
            NextColumn(p).(ram := p.ram[Spot(p.row, p.col, 0) := b0 / 16][Spot(p.row, p.col, 1) := b0 % 16]
                                       [Spot(p.row, p.col, 2) := b1 / 16][Spot(p.row, p.col, 3) := b1 % 16])
  {
    assert [b0, b1][1..] == [b1] && [b1][1..] == [];
    assert WriteBytes(p, [b0, b1]) == WriteBytes(WriteByte(p, b0), [b1]);
    assert WriteBytes(WriteByte(p, b0), [b1]) == WriteBytes(WriteByte(WriteByte(p, b0), b1), []);
  }

  lemma FourSpots(ram: map<Spot, nat>, row: nat, col: nat, px: seq<pixel>)
    requires |px| == 4
    ensures PaintedRow(ram, ram[Spot(row, col, 0) := Gray4(px[0])][Spot(row, col, 1) := Gray4(px[1])]
                               [Spot(row, col, 2) := Gray4(px[2])][Spot(row, col, 3) := Gray4(px[3])], row, col, px)
  {
    hide Gray4;
  }

  lemma PaintColumn(p: Panel, px: seq<pixel>)
    requires |px| == 4 && p.half == 0
    ensures var q := WriteBytes(p, Pack(px));
            PaintedRow(p.ram, q.ram, p.row, p.col, px) && q == NextColumn(p).(ram := q.ram)
  {
    hide Gray4, Packed, WriteBytes, NextColumn, PaintedRow;
    PackFour(px);
    WriteTwo(p, Packed(Gray4(px[0]), Gray4(px[1])), Packed(Gray4(px[2]), Gray4(px[3])));
    Unpacked(Gray4(px[0]), Gray4(px[1]));
    Unpacked(Gray4(px[2]), Gray4(px[3]));
    FourSpots(p.ram, p.row, p.col, px);
  }

  /** The pointer stands at the beginning of row in a window of n columns. */
  predicate AtRow(p: Panel, row: nat, n: nat)
  {
    p.half == 0 && p.row == row && p.col == p.colFirst && 1 <= n && p.colLast == p.colFirst + n - 1
  }

  lemma {:induction false} PaintRestOfRow(p: Panel, px: seq<pixel>)
    requires px != [] && |px| % 4 == 0 && p.half == 0
    requires p.colFirst <= p.col && p.col + |px| / 4 == p.colLast + 1
    ensures var q := WriteBytes(p, Pack(px));
            && PaintedRow(p.ram, q.ram, p.row, p.col, px)
            && q == p.(ram := q.ram, col := p.colFirst, row := if p.row == p.rowLast then p.rowFirst else p.row + 1)
    decreases |px|
  {
    hide Gray4, Pack, WriteBytes;
    var (first, rest) := (px[..4], px[4..]);
    assert px == first + rest;
    PackAppend(first, rest);
    WriteBytesAppend(p, Pack(first), Pack(rest));
    PaintColumn(p, first);
    var q := WriteBytes(p, Pack(first));
    if rest == [] {
      assert px == first;
      assert Pack(first) + Pack(rest) == Pack(px);
    } else {
      PaintRestOfRow(q, rest);
      var r := WriteBytes(q, Pack(rest));
      JoinColumns(p.ram, q.ram, r.ram, p.row, p.col, first, rest);
    }
  }

  lemma JoinColumns(a: map<Spot, nat>, b: map<Spot, nat>, c: map<Spot, nat>, row: nat, col: nat,
                    first: seq<pixel>, rest: seq<pixel>)
    requires |first| == 4 && |rest| % 4 == 0
    requires PaintedRow(a, b, row, col, first) && PaintedRow(b, c, row, col + 1, rest)
    ensures PaintedRow(a, c, row, col, first + rest)
  {
    hide Gray4;
    var all := first + rest;
    forall s: Spot
      ensures if s.row == row && col <= s.col < col + |all| / 4 && s.sub < 4
              then s in c && c[s] == ColumnPixel(all, s.col - col, s.sub)
              else (s in c <==> s in a) && (s in a && s in c ==> c[s] == a[s])
    {
      if s.row == row && s.sub < 4 {
        if s.col == col {
          assert ColumnPixel(all, 0, s.sub) == ColumnPixel(first, 0, s.sub);
        } else if col < s.col < col + |all| / 4 {
          assert all[4 * (s.col - col) + s.sub] == rest[4 * (s.col - col - 1) + s.sub];
          assert ColumnPixel(all, s.col - col, s.sub) == ColumnPixel(rest, s.col - (col + 1), s.sub);
        }
      }
    }
  }

  // ---------------------------------------------------------------- lines of video memory

  ghost predicate Screen(vmem: seq<pixel>, xres: nat, yres: nat)
  {
    1 <= yres && 1 <= xres && |vmem| == xres * yres
  }

  lemma LineBounds(xres: nat, a: nat, b: nat)
    requires a <= b
    ensures a * xres <= b * xres
  {
  }

  /** The cell shows a pixel of lines lo to hi - 1, four pixels to a column. */
  predicate OnLines(s: Spot, lo: nat, hi: nat, col: nat, xres: nat)
  {
    lo <= s.row < hi && col <= s.col && s.sub < 4 && 4 * (s.col - col) + s.sub < xres
  }

  /** In full columns a cell is within the width exactly if its column is. */
  lemma FullColumns(xres: nat, column: nat, sub: nat)
    requires xres % 4 == 0 && sub < 4
    ensures 4 * column + sub < xres <==> column < xres / 4
  {
  }

  /** after differs from before exactly by lines lo to hi - 1 of video memory. */
  ghost predicate PaintedLines(before: map<Spot, nat>, after: map<Spot, nat>, lo: nat, hi: nat, col: nat,
                               vmem: seq<pixel>, xres: nat)
  {
    forall s: Spot ::
      if OnLines(s, lo, hi, col, xres)
      then s in after && after[s] == LinePixel(vmem, xres, s.row, 4 * (s.col - col) + s.sub)
      else (s in after <==> s in before) && (s in before && s in after ==> after[s] == before[s])
  }

  /** The grey level of pixel x of line y. */
  function LinePixel(vmem: seq<pixel>, xres: nat, y: nat, x: nat): nat
  {
    if y * xres + x < |vmem| then Gray4(vmem[y * xres + x]) else 0
  }

  lemma PixelOfLine(vmem: seq<pixel>, xres: nat, y: nat, col: nat, sub: nat)
    requires y * xres <= (y + 1) * xres <= |vmem| && sub < 4 && 4 * col + sub < xres
    ensures var line := vmem[y * xres..(y + 1) * xres];
            |line| == xres && ColumnPixel(line, col, sub) == LinePixel(vmem, xres, y, 4 * col + sub)
  {
    hide Gray4;
    var line := vmem[y * xres..(y + 1) * xres];
    assert |line| == xres;
    assert line[4 * col + sub] == vmem[y * xres + (4 * col + sub)];
  }

  lemma PaintOneLine(a: map<Spot, nat>, b: map<Spot, nat>, c: map<Spot, nat>, lo: nat, hi: nat, col: nat,
                     vmem: seq<pixel>, xres: nat)
    requires xres % 4 == 0 && lo < hi && lo * xres <= (lo + 1) * xres <= hi * xres <= |vmem|
    requires PaintedRow(a, b, lo, col, vmem[lo * xres..(lo + 1) * xres])
    requires PaintedLines(b, c, lo + 1, hi, col, vmem, xres)
    ensures PaintedLines(a, c, lo, hi, col, vmem, xres)
  {
    hide Gray4, ColumnPixel, LinePixel;
    var line := vmem[lo * xres..(lo + 1) * xres];
    assert |line| == xres;
    forall s: Spot
      ensures if OnLines(s, lo, hi, col, xres)
              then s in c && c[s] == LinePixel(vmem, xres, s.row, 4 * (s.col - col) + s.sub)
              else (s in c <==> s in a) && (s in a && s in c ==> c[s] == a[s])
    {
      if s.row == lo && col <= s.col && s.sub < 4 {
        FullColumns(xres, s.col - col, s.sub);
        if s.col < col + xres / 4 {
          PixelOfLine(vmem, xres, lo, s.col - col, s.sub);
        }
      }
    }
  }

  lemma {:induction false} PaintLines(p: Panel, vmem: seq<pixel>, xres: nat, lo: nat, hi: nat)
    requires 4 <= xres && xres % 4 == 0 && lo < hi && hi * xres <= |vmem|
    requires AtRow(p, lo, xres / 4) && p.rowLast == hi - 1
    requires lo * xres <= hi * xres
    ensures var q := WriteBytes(p, Pack(vmem[lo * xres..hi * xres]));
            && PaintedLines(p.ram, q.ram, lo, hi, p.colFirst, vmem, xres)
            && q == p.(ram := q.ram, row := p.rowFirst)
    decreases hi - lo
  {
    hide Gray4, Pack, WriteBytes, PaintedLines, PaintedRow;
    LineBounds(xres, lo, lo + 1);
    LineBounds(xres, lo + 1, hi);
    var line := vmem[lo * xres..(lo + 1) * xres];
    var rest := vmem[(lo + 1) * xres..hi * xres];
    assert |line| == xres;
    assert vmem[lo * xres..hi * xres] == line + rest;
    PackAppend(line, rest);
    WriteBytesAppend(p, Pack(line), Pack(rest));
    PaintRestOfRow(p, line);
    var q := WriteBytes(p, Pack(line));
    if hi == lo + 1 {
      assert rest == [];
      NothingMore(q);
      NothingPainted(q.ram, lo + 1, p.colFirst, vmem, xres);
      PaintOneLine(p.ram, q.ram, q.ram, lo, hi, p.colFirst, vmem, xres);
    } else {
      PaintLines(q, vmem, xres, lo + 1, hi);
      var r := WriteBytes(q, Pack(rest));
      PaintOneLine(p.ram, q.ram, r.ram, lo, hi, p.colFirst, vmem, xres);
    }
  }

  lemma NothingPainted(ram: map<Spot, nat>, lo: nat, col: nat, vmem: seq<pixel>, xres: nat)
    requires xres % 4 == 0 && lo * xres <= |vmem|
    ensures PaintedLines(ram, ram, lo, lo, col, vmem, xres)
  {
  }

  lemma NothingMore(p: Panel)
    ensures WriteBytes(p, Pack([])) == p
  {
  }

  // ---------------------------------------------------------------- the driver

  function U8(x: int): byte
  {
    x % 256
  }

  /** A command byte, then its arguments with the data/command pin high. */
  function CommandTrace(cmd: byte, data: bytes): seq<Transfer>
  {
    if data == [] then [Transfer(false, [cmd])] else [Transfer(false, [cmd]), Transfer(true, data)]
  }

  /** Columns are four pixels wide and start at 0x28; rows are lines. */
  function WindowTrace(xs: nat, ys: nat, xe: nat, ye: nat): seq<Transfer>
  {
    CommandTrace(0x15, [U8((xs + 3) / 4 + 0x28), U8((xe + 3) / 4 + 0x27)])
    + CommandTrace(0x75, [U8(ys), U8(ye)])
    + CommandTrace(0xA1, [0])
  }

  function MemoryTrace(pixels: seq<pixel>): seq<Transfer>
  {
    [Transfer(false, [0x5C]), Transfer(true, Pack(pixels))]
  }

  class Driver {
    const xres: nat
    const yres: nat
    const vmem: seq<pixel>
    const txbuf: array<byte>
    var dc: bool
    var trace: seq<Transfer>

    constructor (xres: nat, yres: nat, vmem: seq<pixel>, txbuf: array<byte>)
      ensures this.xres == xres && this.yres == yres && this.vmem == vmem && this.txbuf == txbuf && trace == []
    {
      this.xres := xres;
      this.yres := yres;
      this.vmem := vmem;
      this.txbuf := txbuf;
      dc := false;
      trace := [];
    }

    /** Sends a buffer with the pin at the given level. */
    method LocalWriteBufDc(body: bytes, level: bool)
      modifies this
      ensures dc == level && trace == old(trace) + [Transfer(level, body)]
    {
      dc := level;
      trace := trace + [Transfer(dc, body)];
    }

    method WriteCmd(cmd: byte, data: bytes)
      modifies this
      ensures trace == old(trace) + CommandTrace(cmd, data)
    {
      LocalWriteBufDc([cmd], false);
      if data != [] {
        LocalWriteBufDc(data, true);
      }
    }

    method SetAddrWin(xs: nat, ys: nat, xe: nat, ye: nat)
      modifies this
      ensures trace == old(trace) + WindowTrace(xs, ys, xe, ye)
    {
      var first, last := (xs + 3) / 4, (xe + 3) / 4;
      WriteCmd(0x15, [U8(first + 0x28), U8(last + 0x27)]);
      WriteCmd(0x75, [U8(ys), U8(ye)]);
      WriteCmd(0xA1, [0]);
    }

    /** Packs len / 2 pixels from byte offset into the transmit buffer and sends them. */
    method WriteVmem(offset: nat, len: nat)
      requires offset % 2 == 0 && offset + len <= 2 * |vmem|
      requires (len / 2 + 1) / 2 <= txbuf.Length
      modifies this, txbuf
      ensures trace == old(trace) + MemoryTrace(vmem[offset / 2..offset / 2 + len / 2])
      ensures !dc
    {
      hide Pack;
      var base, pixels := offset / 2, len / 2;
      FillTxbuf(txbuf, vmem[base..base + pixels]);
      LocalWriteBufDc([0x5C], false);
      LocalWriteBufDc(txbuf[..(pixels + 1) / 2], true);
      dc := false;
    }

    /** The lines of a deferred update: the range is checked, the window set, the memory written. */
    method UpdateDisplay(startLine: nat, endLine: nat)
      requires Screen(vmem, xres, yres) && |vmem| <= 2 * txbuf.Length
      modifies this, txbuf
      ensures trace == old(trace) + UpdateTrace(vmem, xres, Flushed(Range(startLine, endLine), yres))
    {
      hide Pack, WindowTrace, MemoryTrace, Flushed;
      var r := UpdateRange(startLine, endLine, yres);
      var lineLength := 2 * xres;
      var offset, len := r.first * lineLength, (r.last - r.first + 1) * lineLength;
      LineBytes(xres, r.first, r.last, yres);
      assert offset == 2 * (r.first * xres) && len == 2 * ((r.last + 1) * xres - r.first * xres);
      assert |vmem| == yres * xres;
      SetAddrWin(0, r.first, xres - 1, r.last);
      assert vmem[offset / 2..offset / 2 + len / 2] == Lines(vmem, xres, r.first, r.last + 1);
      WriteVmem(offset, len);
      Associate(old(trace), WindowTrace(0, r.first, xres - 1, r.last),
                MemoryTrace(Lines(vmem, xres, r.first, r.last + 1)));
    }
  }

  method FillTxbuf(txbuf: array<byte>, area: seq<pixel>)
    requires (|area| + 1) / 2 <= txbuf.Length
    modifies txbuf
    ensures txbuf[..(|area| + 1) / 2] == Pack(area)
  {
    hide Gray4, Packed;
    var i, k := 0, 0;
    EmptyPack(area, txbuf[..0]);
    while i + 1 < |area|
      invariant 0 <= i <= |area| && i == 2 * k
      invariant txbuf[..k] == Pack(area[..i])
    {
      PackNext(area, i);
      txbuf[k] := Packed(Gray4(area[i]), Gray4(area[i + 1]));
      assert txbuf[..k + 1] == txbuf[..k] + [Packed(Gray4(area[i]), Gray4(area[i + 1]))];
      i := i + 2;
      k := k + 1;
    }
    if |area| % 2 == 1 {
      PackNext(area, i);
      txbuf[k] := Packed(Gray4(area[i]), 0);
      assert txbuf[..k + 1] == txbuf[..k] + [Packed(Gray4(area[i]), 0)];
      assert area[..i + 1] == area;
    } else {
      assert area[..i] == area;
    }
  }

  lemma EmptyPack(area: seq<pixel>, none: bytes)
    requires none == []
    ensures none == Pack(area[..0])
  {
  }

  /** The byte that the one or two pixels at position i add to the packed ones before them. */
  lemma PackNext(area: seq<pixel>, i: nat)
    requires i % 2 == 0 && i < |area|
    ensures i + 1 < |area| ==> Pack(area[..i + 2]) == Pack(area[..i]) + [Packed(Gray4(area[i]), Gray4(area[i + 1]))]
    ensures i + 1 == |area| ==> Pack(area[..i + 1]) == Pack(area[..i]) + [Packed(Gray4(area[i]), 0)]
  {
    hide Gray4, Packed;
    var n := if i + 1 < |area| then i + 2 else i + 1;
    assert area[..n] == area[..i] + area[i..n];
    PackAppend(area[..i], area[i..n]);
    PackTwo(area[i..n]);
  }

  lemma PackTwo(px: seq<pixel>)
    requires |px| == 1 || |px| == 2
    ensures Pack(px) == [Packed(Gray4(px[0]), if |px| == 2 then Gray4(px[1]) else 0)]
  {
  }

  /** Lines of memory as byte offsets: what update_display computes stays inside video memory. */
  lemma LineBytes(xres: nat, first: nat, last: nat, yres: nat)
    requires first <= last < yres
    ensures first * (2 * xres) == 2 * (first * xres)
    ensures (last - first + 1) * (2 * xres) == 2 * ((last + 1) * xres - first * xres)
    ensures first * xres <= (last + 1) * xres <= yres * xres
  {
  }

  /** The pixels of lines lo to hi - 1. */
  function Lines(vmem: seq<pixel>, xres: nat, lo: nat, hi: nat): seq<pixel>
  {
    if lo * xres <= hi * xres <= |vmem| then vmem[lo * xres..hi * xres] else []
  }

  function UpdateTrace(vmem: seq<pixel>, xres: nat, r: Range): seq<Transfer>
    requires 1 <= xres
  {
    WindowTrace(0, r.first, xres - 1, r.last) + MemoryTrace(Lines(vmem, xres, r.first, r.last + 1))
  }

  // ---------------------------------------------------------------- refinement

  lemma {:induction false} ReceiveAppend(p: Panel, a: seq<Transfer>, b: seq<Transfer>)
    ensures ReceiveAll(p, a + b) == ReceiveAll(ReceiveAll(p, a), b)
    decreases |a|
  {
    hide Receive;
    if a == [] {
      assert a + b == b;
    } else {
      assert (a + b)[1..] == a[1..] + b;
      ReceiveAppend(Receive(p, a[0]), a[1..], b);
    }
  }

  lemma ReceiveCommand(p: Panel, cmd: byte, data: bytes)
    requires data != []
    ensures ReceiveAll(p, CommandTrace(cmd, data)) == Receive(p.(command := cmd), Transfer(true, data))
  {
    var ts := CommandTrace(cmd, data);
    assert ts[1..] == [Transfer(true, data)] && ts[1..][1..] == [];
    assert ReceiveAll(p, ts) == ReceiveAll(Receive(p, ts[0]), ts[1..]);
    assert ReceiveAll(Receive(p, ts[0]), ts[1..]) == ReceiveAll(Receive(Receive(p, ts[0]), ts[1]), []);
  }

  /** Columns of the window for a width, as the driver computes them. */
  function Columns(xres: nat): nat
  {
    (xres + 2) / 4
  }

  /** What the controller makes of a window, whose bounds are cut to bytes on the way. */
  lemma WindowReceived(p: Panel, xres: nat, first: nat, last: nat)
    requires 1 <= xres
    ensures var q := ReceiveAll(p, WindowTrace(0, first, xres - 1, last));
            && q.ram == p.ram && q.half == 0
            && q.colFirst == 0x28 && q.col == 0x28 && q.colLast == U8(0x27 + Columns(xres))
            && q.rowFirst == U8(first) && q.row == U8(first) && q.rowLast == U8(last)
            && q.startLine == 0
  {
    hide Receive, U8;
    var column := CommandTrace(0x15, [U8(3 / 4 + 0x28), U8(Columns(xres) + 0x27)]);
    var row := CommandTrace(0x75, [U8(first), U8(last)]);
    var start := CommandTrace(0xA1, [0]);
    assert WindowTrace(0, first, xres - 1, last) == column + row + start;
    ReceiveAppend(p, column + row, start);
    ReceiveAppend(p, column, row);
    var q1 := ReceiveAll(p, column);
    ReceiveCommand(p, 0x15, [U8(3 / 4 + 0x28), U8(Columns(xres) + 0x27)]);
    ColumnWindow(p, xres);
    ReceiveCommand(q1, 0x75, [U8(first), U8(last)]);
    RowWindow(q1, first, last);
    ReceiveCommand(ReceiveAll(q1, row), 0xA1, [0]);
    StartLine(ReceiveAll(q1, row), 0);
  }

  lemma ColumnWindow(p: Panel, xres: nat)
    ensures Receive(p.(command := 0x15), Transfer(true, [U8(3 / 4 + 0x28), U8(Columns(xres) + 0x27)]))
         == p.(command := 0x15, colFirst := 0x28, colLast := U8(0x27 + Columns(xres)), col := 0x28, half := 0)
  {
    hide Columns;
  }

  lemma RowWindow(p: Panel, first: nat, last: nat)
    ensures Receive(p.(command := 0x75), Transfer(true, [U8(first), U8(last)]))
         == p.(command := 0x75, rowFirst := U8(first), rowLast := U8(last), row := U8(first))
  {
  }

  /** The window holds exactly the pixels of the given lines, and the pointer is at its start. */
  predicate WindowIs(p: Panel, xres: nat, first: nat, last: nat)
  {
    && p.half == 0 && p.row == first && p.col == p.colFirst == 0x28
    && 4 * (p.colLast - p.colFirst + 1) == xres
    && p.rowFirst == first && p.rowLast == last
  }

  /**
   * The window comes out as intended exactly on screens of full columns, up to 864 pixels wide, and for lines
   * below 256.
   */
  lemma WindowFits(p: Panel, xres: nat, first: nat, last: nat)
    requires 1 <= xres && first <= last
    ensures WindowIs(ReceiveAll(p, WindowTrace(0, first, xres - 1, last)), xres, first, last)
            <==> xres % 4 == 0 && xres <= 864 && last < 256
  {
    hide ReceiveAll, WindowTrace;
    WindowReceived(p, xres, first, last);
  }

  lemma StartLine(p: Panel, line: byte)
    ensures Receive(p.(command := 0xA1), Transfer(true, [line])) == p.(command := 0xA1, startLine := line)
  {
  }

  lemma WriteIsReceived(p: Panel, pixels: seq<pixel>)
    ensures ReceiveAll(p, MemoryTrace(pixels)) == WriteBytes(p.(command := 0x5C), Pack(pixels))
  {
    hide WriteBytes, Pack;
    var ts := MemoryTrace(pixels);
    assert ts[1..] == [Transfer(true, Pack(pixels))] && ts[1..][1..] == [];
    assert ReceiveAll(p, ts) == ReceiveAll(Receive(p, ts[0]), ts[1..]);
    assert ReceiveAll(Receive(p, ts[0]), ts[1..]) == ReceiveAll(Receive(Receive(p, ts[0]), ts[1]), []);
  }

  /**
   * The controller shows the grey level of every pixel of the lines, no other cell has changed, the bytes have
   * filled the window exactly: the pointer is back at its start, and memory row y is displayed on line y.
   */
  ghost predicate Shows(before: Panel, after: Panel, vmem: seq<pixel>, xres: nat, r: Range)
  {
    && PaintedLines(before.ram, after.ram, r.first, r.last + 1, 0x28, vmem, xres)
    && after.half == 0 && after.col == after.colFirst && after.row == after.rowFirst
    && after.startLine == 0
  }

  /** Whatever range an update is asked for, on screens of full columns the panel afterwards shows the flushed lines. */
  lemma UpdateShowsLines(p: Panel, vmem: seq<pixel>, xres: nat, yres: nat, startLine: nat, endLine: nat)
    requires Screen(vmem, xres, yres) && xres % 4 == 0 && xres <= 864 && yres <= 256
    ensures var r := Flushed(Range(startLine, endLine), yres);
            Shows(p, ReceiveAll(p, UpdateTrace(vmem, xres, r)), vmem, xres, r)
  {
    hide WindowTrace, MemoryTrace, Gray4, ReceiveAll, WriteBytes, Pack, PaintedLines;
    var r := Flushed(Range(startLine, endLine), yres);
    LineBytes(xres, r.first, r.last, yres);
    var window := WindowTrace(0, r.first, xres - 1, r.last);
    var pixels := Lines(vmem, xres, r.first, r.last + 1);
    ReceiveAppend(p, window, MemoryTrace(pixels));
    WindowReceived(p, xres, r.first, r.last);
    WindowFits(p, xres, r.first, r.last);
    var q := ReceiveAll(p, window);
    WriteIsReceived(q, pixels);
    PaintLines(q.(command := 0x5C), vmem, xres, r.first, r.last + 1);
  }
}
