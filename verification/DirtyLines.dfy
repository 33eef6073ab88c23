/** The dirty-line range of a deferred-update framebuffer: marking, snapshot and the range actually flushed. */
module DirtyLines {
  import opened Bytes

  /** Sixteen bits of video memory. */
  type pixel = x: int | 0 <= x < 0x1_0000

  /** Conversion of a C int to unsigned: the range fields are unsigned 32-bit numbers. */
  function U32(x: int): (u: nat)
    ensures u < 0x1_0000_0000
    ensures 0 <= x < 0x1_0000_0000 ==> u == x
  {
    x % 0x1_0000_0000
  }

  /** Screens a C int can measure. */
  predicate ValidHeight(yres: nat)
  {
    1 <= yres < 0x8000_0000
  }

  const PAGE_SIZE: nat := 4096

  datatype Range = Range(first: nat, last: nat)
  {
    predicate Has(line: nat)
    {
      first <= line <= last
    }
  }

  function Clean(yres: nat): Range
    requires 1 <= yres
  {
    Range(yres - 1, 0)
  }

  function Min(a: nat, b: nat): nat { if a < b then a else b }

  function Max(a: nat, b: nat): nat { if a > b then a else b }

  /** The range after marking height lines from line y; y == -1 asks for the whole screen. */
  function Marked(r: Range, y: int, height: int, yres: nat): Range
  {
    var y' := if y == -1 then 0 else y;
    var height' := if y == -1 then yres - 1 else height;
    Range(Min(r.first, U32(y')), Max(r.last, U32(y' + height' - 1)))
  }

  /** Lines a drawing call may change: all of them for a write through the character device (y == -1). */
  predicate Touches(y: int, height: int, line: nat)
  {
    y == -1 || y <= line < y + height
  }

  /** The whole-screen request stops one line short of the end, except on one-line screens. */
  predicate Missed(y: int, yres: nat, line: nat)
  {
    y == -1 && yres >= 2 && line == yres - 1
  }

  predicate ValidCall(y: int, height: int, yres: nat)
  {
    y == -1 || (0 <= y && 0 <= height && y + height <= yres)
  }

  /** Marking keeps every line already in the range, whatever the arguments. */
  lemma MarkKeeps(r: Range, y: int, height: int, yres: nat, line: nat)
    requires r.Has(line)
    ensures Marked(r, y, height, yres).Has(line)
  {
  }

  /** Marking covers exactly the lines the call may have changed that it does not miss. */
  lemma MarkCovers(r: Range, y: int, height: int, yres: nat, line: nat)
    requires ValidHeight(yres) && ValidCall(y, height, yres)
    requires line < yres && Touches(y, height, line)
    ensures Marked(r, y, height, yres).Has(line) || Missed(y, yres, line)
    ensures r == Clean(yres) && Missed(y, yres, line) ==> !Marked(r, y, height, yres).Has(line)
  {
  }

  /** Marking lines y to y + height - 1 extends the range to those lines and no further. */
  lemma MarkedExactly(r: Range, y: int, height: int, yres: nat)
    requires ValidHeight(yres) && 0 <= y && 0 < height && y + height <= yres
    ensures var m := Marked(r, y, height, yres);
            && m.first <= r.first && m.first <= y && (m.first == r.first || m.first == y)
            && m.last >= r.last && m.last >= y + height - 1 && (m.last == r.last || m.last == y + height - 1)
  {
  }

  /** A whole-screen mark starts at line 0 and ends one line short, or at 2^32 - 1 on a one-line screen. */
  lemma WholeScreenMark(r: Range, height: int, yres: nat)
    requires ValidHeight(yres)
    ensures var m, end := Marked(r, -1, height, yres), if yres == 1 then 4294967295 else yres - 2;
            m.first == 0 && m.last >= r.last && m.last >= end && (m.last == r.last || m.last == end)
  {
  }

  /** The sanity checks before a display update: an inverted or oversized range means the full screen. */
  function Flushed(r: Range, yres: nat): (f: Range)
    requires 1 <= yres
    ensures f.first <= f.last < yres
    ensures forall line: nat :: line < yres && r.Has(line) ==> f.Has(line)
  {
    if r.first > r.last || r.first > yres - 1 || r.last > yres - 1 then Range(0, yres - 1) else r
  }

  /** A range in order and on the screen is flushed as it is, any other one as the full screen. */
  lemma FlushedExactly(r: Range, yres: nat)
    requires 1 <= yres
    ensures r.first <= r.last < yres ==> Flushed(r, yres) == r
    ensures !(r.first <= r.last < yres) ==> Flushed(r, yres) == Range(0, yres - 1)
  {
  }

  /**
   * The lines flushed for a single call on a clean range: exactly its own, but one short of the screen for a
   * write call on two or more lines, and usually the whole screen for a call on no lines at all.
   */
  lemma FlushOfOneCall(y: int, height: int, yres: nat)
    requires ValidHeight(yres) && ValidCall(y, height, yres)
    ensures Flushed(Marked(Clean(yres), y, height, yres), yres) ==
            if y == -1 then Range(0, if yres == 1 then 0 else yres - 2)
            else if height > 0 then Range(y, y + height - 1)
            else if y == yres then Range(yres - 1, yres - 1)
            else Range(0, yres - 1)
  {
  }

  /** The bytes of line y and those of page p overlap. */
  predicate OnPage(p: nat, lineLength: nat, y: nat)
  {
    p * PAGE_SIZE < (y + 1) * lineLength && y * lineLength < (p + 1) * PAGE_SIZE
  }

  function PageLines(p: nat, lineLength: nat, yres: nat): Range
    requires 1 <= lineLength && 1 <= yres
  {
    Range(p * PAGE_SIZE / lineLength, Min((p * PAGE_SIZE + PAGE_SIZE - 1) / lineLength, yres - 1))
  }

  function Hull(a: Range, b: Range): Range
  {
    Range(Min(a.first, b.first), Max(a.last, b.last))
  }

  function WithPages(r: Range, pages: seq<nat>, lineLength: nat, yres: nat): Range
    requires 1 <= lineLength && 1 <= yres
    decreases |pages|
  {
    if pages == [] then r
    else WithPages(Hull(r, PageLines(pages[0], lineLength, yres)), pages[1..], lineLength, yres)
  }

  /** Byte b of video memory lies in page p and in line y. */
  predicate ByteOf(b: nat, p: nat, lineLength: nat, y: nat)
    requires 1 <= lineLength
  {
    b / 4096 == p && b / lineLength == y
  }

  /** A page and a line overlap exactly if they have a byte in common. */
  lemma OnPageExactly(p: nat, lineLength: nat, y: nat)
    requires 1 <= lineLength
    ensures OnPage(p, lineLength, y) <==> exists b: nat :: ByteOf(b, p, lineLength, y)
  {
    if OnPage(p, lineLength, y) {
      var b := Max(p * 4096, y * lineLength);
      QuotientBetween(b, p, 4096);
      QuotientBetween(b, y, lineLength);
      assert ByteOf(b, p, lineLength, y);
    }
    forall b: nat | ByteOf(b, p, lineLength, y) ensures OnPage(p, lineLength, y) {
      QuotientBetween(b, p, 4096);
      QuotientBetween(b, y, lineLength);
    }
  }

  /** The lines computed for a page are those that have a byte on it. */
  lemma PageExactly(p: nat, lineLength: nat, yres: nat, y: nat)
    requires 1 <= lineLength && y < yres
    ensures PageLines(p, lineLength, yres).Has(y) <==> exists b: nat :: ByteOf(b, p, lineLength, y)
  {
    OnPageExactly(p, lineLength, y);
    if OnPage(p, lineLength, y) {
      PageCovers(p, lineLength, yres, y);
    } else if PageLines(p, lineLength, yres).Has(y) {
      QuotientBounds(p * PAGE_SIZE, lineLength);
      QuotientBounds(p * PAGE_SIZE + PAGE_SIZE - 1, lineLength);
      TimesMonotone(p * PAGE_SIZE / lineLength + 1, y + 1, lineLength);
      TimesMonotone(y, (p * PAGE_SIZE + PAGE_SIZE - 1) / lineLength, lineLength);
    }
  }

  lemma QuotientBounds(a: nat, n: nat)
    requires 1 <= n
    ensures a / n * n <= a < (a / n + 1) * n
  {
  }

  lemma TimesMonotone(a: nat, b: nat, n: nat)
    requires a <= b
    ensures a * n <= b * n
  {
  }

  /** The page loop ends at the least first line and the greatest last line it has seen. */
  lemma {:induction false} PagesExactly(r: Range, pages: seq<nat>, lineLength: nat, yres: nat)
    requires 1 <= lineLength && 1 <= yres
    ensures var w := WithPages(r, pages, lineLength, yres);
            && w.first <= r.first && w.last >= r.last
            && (forall p :: p in pages ==> PageLines(p, lineLength, yres).first >= w.first)
            && (forall p :: p in pages ==> PageLines(p, lineLength, yres).last <= w.last)
            && (w.first == r.first || exists p :: p in pages && PageLines(p, lineLength, yres).first == w.first)
            && (w.last == r.last || exists p :: p in pages && PageLines(p, lineLength, yres).last == w.last)
    decreases |pages|
  {
    hide PageLines;
    if pages != [] {
      PagesExactly(Hull(r, PageLines(pages[0], lineLength, yres)), pages[1..], lineLength, yres);
      assert forall p :: p in pages <==> p == pages[0] || p in pages[1..];
    }
  }

  lemma PageCovers(p: nat, lineLength: nat, yres: nat, y: nat)
    requires 1 <= lineLength && y < yres && OnPage(p, lineLength, y)
    ensures PageLines(p, lineLength, yres).Has(y)
  {
    QuotientBetween(p * PAGE_SIZE, y, lineLength);
    QuotientBetween(p * PAGE_SIZE + PAGE_SIZE - 1, y, lineLength);
  }

  lemma {:induction false} PagesCover(r: Range, pages: seq<nat>, lineLength: nat, yres: nat, y: nat)
    requires 1 <= lineLength && y < yres
    requires r.Has(y) || exists p :: p in pages && OnPage(p, lineLength, y)
    ensures WithPages(r, pages, lineLength, yres).Has(y)
    decreases |pages|
  {
    if pages != [] {
      var h := Hull(r, PageLines(pages[0], lineLength, yres));
      if !r.Has(y) {
        var p :| p in pages && OnPage(p, lineLength, y);
        if p == pages[0] {
          PageCovers(p, lineLength, yres, y);
        } else {
          assert p in pages[1..];
        }
      }
      PagesCover(h, pages[1..], lineLength, yres, y);
    }
  }

  /** The range fields of the driver state and the two critical sections that update them. */
  class DirtyState {
    const yres: nat
    const lineLength: nat
    var dirtyLinesStart: nat
    var dirtyLinesEnd: nat

    constructor (yres: nat, lineLength: nat)
      requires 1 <= yres && 1 <= lineLength
      ensures this.yres == yres && this.lineLength == lineLength && Current() == Clean(yres)
    {
      this.yres := yres;
      this.lineLength := lineLength;
      dirtyLinesStart, dirtyLinesEnd := yres - 1, 0;
    }

    function Current(): Range
      reads this
    {
      Range(dirtyLinesStart, dirtyLinesEnd)
    }

    method MkDirty(y: int, height: int)
      modifies this
      ensures Current() == Marked(old(Current()), y, height, yres)
    {
      var top, lines := y, height;
      if top == -1 {
        top := 0;
        lines := yres - 1;
      }
      if U32(top) < dirtyLinesStart {
        dirtyLinesStart := U32(top);
      }
      if U32(top + lines - 1) > dirtyLinesEnd {
        dirtyLinesEnd := U32(top + lines - 1);
      }
    }

    /** Snapshot and reset the range, then take in the pages written through a memory mapping. */
    method DeferredIO(pagelist: seq<nat>) returns (flushed: Range)
      requires 1 <= yres && 1 <= lineLength
      modifies this
      ensures Current() == Clean(yres)
      ensures flushed == Flushed(WithPages(old(Current()), pagelist, lineLength, yres), yres)
    {
      var start: nat, end: nat := dirtyLinesStart, dirtyLinesEnd;
      dirtyLinesStart, dirtyLinesEnd := yres - 1, 0;
      var i := 0;
      while i < |pagelist|
        invariant 0 <= i <= |pagelist|
        invariant WithPages(Range(start, end), pagelist[i..], lineLength, yres)
               == WithPages(old(Current()), pagelist, lineLength, yres)
      {
        var index := pagelist[i] * PAGE_SIZE;
        var yLow, yHigh := index / lineLength, (index + PAGE_SIZE - 1) / lineLength;
        if yHigh > yres - 1 {
          yHigh := yres - 1;
        }
        if yLow < start {
          start := yLow;
        }
        if yHigh > end {
          end := yHigh;
        }
        i := i + 1;
      }
      flushed := UpdateRange(start, end, yres);
    }
  }

  method UpdateRange(startLine: nat, endLine: nat, yres: nat) returns (r: Range)
    requires 1 <= yres
    ensures r == Flushed(Range(startLine, endLine), yres)
  {
    var start, end := startLine, endLine;
    if start > end {
      start, end := 0, yres - 1;
    }
    if start > yres - 1 || end > yres - 1 {
      start, end := 0, yres - 1;
    }
    r := Range(start, end);
  }
}
