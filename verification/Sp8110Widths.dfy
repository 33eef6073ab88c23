/** Screen widths that are not full columns: what the SP8110 window and the packed bytes make of them. */
module Sp8110Widths {
  import opened Bytes
  import opened DirtyLines
  import opened Sp8110

  // ---------------------------------------------------------------- the pointer

  lemma {:induction false} KeysGrow(p: Panel, data: bytes)
    ensures p.ram.Keys <= WriteBytes(p, data).ram.Keys
    decreases |data|
  {
    if data != [] {
      KeysGrow(WriteByte(p, data[0]), data[1..]);
    }
  }

  lemma {:induction false} HalfAlternates(p: Panel, data: bytes)
    requires p.half < 2
    ensures WriteBytes(p, data).half == (p.half + |data|) % 2
    decreases |data|
  {
    if data != [] {
      HalfAlternates(WriteByte(p, data[0]), data[1..]);
    }
  }

  predicate ColumnInWindow(p: Panel)
  {
    p.colFirst <= p.col <= p.colLast
  }

  lemma {:induction false} StaysInColumns(p: Panel, data: bytes, s: Spot)
    requires ColumnInWindow(p) && s.col > p.colLast
    ensures s in WriteBytes(p, data).ram ==> s in p.ram
    decreases |data|
  {
    if data != [] {
      StaysInColumns(WriteByte(p, data[0]), data[1..], s);
    }
  }

  /** Within the first row the pointer moves half a column a byte. */
  lemma {:induction false} AlongFirstRow(p: Panel, data: bytes, j: nat)
    requires p.half == 0 && j <= |data| && (j > 0 ==> p.col + (j - 1) / 2 <= p.colLast)
    requires j % 2 == 0 ==> p.col + j / 2 <= p.colLast
    ensures var q := WriteBytes(p, data[..j]);
            q.row == p.row && q.col == p.col + j / 2 && q.half == j % 2 && q.colLast == p.colLast
    decreases j
  {
    if j == 0 {
      assert data[..0] == [];
    } else {
      AlongFirstRow(p, data, j - 1);
      assert data[..j] == data[..j - 1] + [data[j - 1]];
      WriteBytesAppend(p, data[..j - 1], [data[j - 1]]);
      OneByte(WriteBytes(p, data[..j - 1]), data[j - 1]);
    }
  }

  lemma OneByte(p: Panel, b: byte)
    ensures WriteBytes(p, [b]) == WriteByte(p, b)
  {
    assert [b][1..] == [];
    assert WriteBytes(p, [b]) == WriteBytes(WriteByte(p, b), []);
  }

  /** Byte j of a transfer that reaches it within the first row writes two pixels of its column. */
  lemma ByteWrites(p: Panel, data: bytes, j: nat, sub: nat)
    requires p.half == 0 && j < |data| && j % 2 == 1 && p.col + j / 2 <= p.colLast
    requires sub == 2 || sub == 3
    ensures Spot(p.row, p.col + j / 2, sub) in WriteBytes(p, data).ram
  {
    AlongFirstRow(p, data, j);
    var q := WriteBytes(p, data[..j]);
    assert data == data[..j] + data[j..];
    WriteBytesAppend(p, data[..j], data[j..]);
    KeysGrow(WriteByte(q, data[j]), data[j..][1..]);
  }

  // ---------------------------------------------------------------- every other width fails

  /** A byte that holds the last pixel of the row and one more paints a cell that is none of its pixels. */
  lemma PaintsTooMuch(p: Panel, data: bytes, k: nat, sub: nat, lo: nat, hi: nat, vmem: seq<pixel>, xres: nat)
    requires p.half == 0 && p.col == 0x28 && p.colLast == 0x28 + k && |data| >= 2 * k + 2
    requires (sub == 2 || sub == 3) && xres <= 4 * k + sub && p.ram == map[]
    ensures !PaintedLines(p.ram, WriteBytes(p, data).ram, lo, hi, 0x28, vmem, xres)
  {
    hide WriteBytes;
    ByteWrites(p, data, 2 * k + 1, sub);
    var s := Spot(p.row, 0x28 + k, sub);
    assert !OnLines(s, lo, hi, 0x28, xres);
    assert s in WriteBytes(p, data).ram && s !in p.ram;
  }

  /** A window that is a column short leaves the last pixel of the row out. */
  lemma PaintsTooLittle(p: Panel, data: bytes, k: nat, lo: nat, hi: nat, vmem: seq<pixel>)
    requires 1 <= k && p.colFirst == p.col == 0x28 && p.colLast == 0x27 + k && lo < hi && p.ram == map[]
    ensures !PaintedLines(p.ram, WriteBytes(p, data).ram, lo, hi, 0x28, vmem, 4 * k + 1)
  {
    hide WriteBytes;
    var s := Spot(lo, 0x28 + k, 0);
    StaysInColumns(p, data, s);
    assert OnLines(s, lo, hi, 0x28, 4 * k + 1);
  }

  /** A one-pixel screen gets a window of no columns, and its byte paints two pixels. */
  lemma PaintsTwo(p: Panel, data: bytes, lo: nat, hi: nat, vmem: seq<pixel>)
    requires p.half == 0 && p.col == 0x28 && data != [] && p.ram == map[]
    ensures !PaintedLines(p.ram, WriteBytes(p, data).ram, lo, hi, 0x28, vmem, 1)
  {
    var s := Spot(p.row, 0x28, 1);
    KeysGrow(WriteByte(p, data[0]), data[1..]);
    assert s in WriteBytes(p, data).ram;
    assert !OnLines(s, lo, hi, 0x28, 1);
  }

  lemma LinesLength(vmem: seq<pixel>, xres: nat, yres: nat, r: Range)
    requires Screen(vmem, xres, yres) && r.first <= r.last < yres
    ensures |Lines(vmem, xres, r.first, r.last + 1)| == (r.last - r.first + 1) * xres
    ensures r.first < r.last ==> |Lines(vmem, xres, r.first, r.last + 1)| >= 2 * xres
    ensures r.first == r.last ==> |Lines(vmem, xres, r.first, r.last + 1)| == xres
  {
    LineBytes(xres, r.first, r.last, yres);
    LineBounds(xres, if r.first < r.last then 2 else 1, r.last - r.first + 1);
    Difference(xres, r.first, r.last);
  }

  lemma Difference(xres: nat, first: nat, last: nat)
    requires first <= last
    ensures (last + 1) * xres - first * xres == (last - first + 1) * xres
  {
  }

  /** What the controller receives for an update of a blank panel, after the window. */
  lemma WrongWidth(p: Panel, vmem: seq<pixel>, xres: nat, yres: nat, r: Range)
    requires Screen(vmem, xres, yres) && xres % 4 != 0 && r.first <= r.last < yres <= 256
    requires 0x27 + Columns(xres) < 256 && p.ram == map[]
    ensures !Shows(p, ReceiveAll(p, UpdateTrace(vmem, xres, r)), vmem, xres, r)
  {
    hide UpdateTrace, ReceiveAll, WriteBytes, Pack, PaintedLines, Screen, Lines;
    var pixels := Lines(vmem, xres, r.first, r.last + 1);
    var q := AfterWindow(p, vmem, xres, r);
    LinesLength(vmem, xres, yres, r);
    WrongBytes(q, pixels, xres, r, vmem);
    assert PaintedLines(p.ram, WriteBytes(q, Pack(pixels)).ram, r.first, r.last + 1, 0x28, vmem, xres)
       <==> PaintedLines(q.ram, WriteBytes(q, Pack(pixels)).ram, r.first, r.last + 1, 0x28, vmem, xres);
  }

  lemma AfterWindow(p: Panel, vmem: seq<pixel>, xres: nat, r: Range) returns (q: Panel)
    requires 1 <= xres && r.first <= r.last < 256 && 0x27 + Columns(xres) < 256
    ensures q.ram == p.ram && q.half == 0 && q.colFirst == q.col == 0x28 && q.colLast == 0x27 + Columns(xres)
    ensures ReceiveAll(p, UpdateTrace(vmem, xres, r)) ==
            WriteBytes(q, Pack(Lines(vmem, xres, r.first, r.last + 1)))
  {
    hide WindowTrace, MemoryTrace, ReceiveAll, WriteBytes, Pack, Lines, Columns;
    var window := WindowTrace(0, r.first, xres - 1, r.last);
    var pixels := Lines(vmem, xres, r.first, r.last + 1);
    ReceiveAppend(p, window, MemoryTrace(pixels));
    WindowReceived(p, xres, r.first, r.last);
    q := ReceiveAll(p, window).(command := 0x5C);
    WriteIsReceived(ReceiveAll(p, window), pixels);
  }

  lemma WrongBytes(q: Panel, pixels: seq<pixel>, xres: nat, r: Range, vmem: seq<pixel>)
    requires q.half == 0 && q.colFirst == q.col == 0x28 && q.colLast == 0x27 + Columns(xres) && q.ram == map[]
    requires xres % 4 != 0 && r.first <= r.last
    requires |pixels| >= xres && (r.first < r.last ==> |pixels| >= 2 * xres) && (r.first == r.last ==> |pixels| == xres)
    ensures var after := WriteBytes(q, Pack(pixels));
            PaintedLines(q.ram, after.ram, r.first, r.last + 1, 0x28, vmem, xres) ==> after.half != 0
  {
    hide WriteBytes, Pack, PaintedLines;
    var k, data := xres / 4, Pack(pixels);
    Remainder(xres);
    if xres == 1 {
      PaintsTwo(q, data, r.first, r.last + 1, vmem);
    } else if xres % 4 == 1 {
      PaintsTooLittle(q, data, k, r.first, r.last + 1, vmem);
    } else if xres % 4 == 3 {
      PaintsTooMuch(q, data, k, 3, r.first, r.last + 1, vmem, xres);
    } else if r.first < r.last {
      PaintsTooMuch(q, data, k, 2, r.first, r.last + 1, vmem, xres);
    } else {
      HalfAlternates(q, data);
      assert |data| == 2 * k + 1;
    }
  }

  lemma Remainder(xres: nat)
    ensures xres == 4 * (xres / 4) + xres % 4
    ensures Columns(xres) == if xres % 4 >= 2 then xres / 4 + 1 else xres / 4
  {
  }

  /** Every content of the screen and every earlier state of the panel comes out right. */
  ghost predicate AlwaysShows(xres: nat, yres: nat, startLine: nat, endLine: nat)
    requires 1 <= xres && 1 <= yres
  {
    forall p: Panel, vmem: seq<pixel> | Screen(vmem, xres, yres) ::
      var r := Flushed(Range(startLine, endLine), yres);
      Shows(p, ReceiveAll(p, UpdateTrace(vmem, xres, r)), vmem, xres, r)
  }

  /** Where the window bounds fit their bytes, updates show their lines exactly on screens of full columns. */
  lemma ShowsExactlyFullColumns(xres: nat, yres: nat, startLine: nat, endLine: nat)
    requires 1 <= xres && 1 <= yres <= 256 && 0x27 + Columns(xres) < 256
    ensures AlwaysShows(xres, yres, startLine, endLine) <==> xres % 4 == 0
  {
    hide Shows, ReceiveAll, UpdateTrace, Flushed;
    var r := Flushed(Range(startLine, endLine), yres);
    if xres % 4 == 0 {
      forall p: Panel, vmem: seq<pixel> | Screen(vmem, xres, yres)
        ensures Shows(p, ReceiveAll(p, UpdateTrace(vmem, xres, r)), vmem, xres, r)
      {
        UpdateShowsLines(p, vmem, xres, yres, startLine, endLine);
      }
    } else {
      var p := Panel(map[], 0, 0, 0, 0, 0, 0, 0, 0, 0);
      var vmem: seq<pixel> := seq(xres * yres, _ => 0);
      WrongWidth(p, vmem, xres, yres, r);
    }
  }
}
