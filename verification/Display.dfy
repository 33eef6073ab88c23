/**
 * The write-back cache on the SP8110 panel: whenever the worker finishes a copy, the transfers built from what it
 * read reach the controller. What the controller shows is related to video memory over whole runs.
 */
module Display {
  import opened Bytes
  import opened DirtyLines
  import W = WriteBack
  import S = Sp8110

  /** The threads, the controller, the lines of the current copy and what the worker has read of them. */
  datatype State = State(s: W.State, panel: S.Panel, lines: Range, read: W.Memory)

  predicate Fits(geo: W.Geometry)
  {
    geo.Valid() && geo.width % 4 == 0 && geo.width <= 864 && geo.yres <= 256
  }

  /** The pixels of a whole screen; only those that were read are ever looked at. */
  function Frame(read: W.Memory, geo: W.Geometry): (f: seq<pixel>)
    requires geo.Valid()
    ensures |f| == geo.width * geo.yres
  {
    seq(geo.width * geo.yres, i requires 0 <= i < geo.width * geo.yres =>
      var c := W.Cell(i / geo.width, i % geo.width);
      if c in read then read[c] else 0)
  }

  function Step(d: State, a: W.Action): State
    requires W.Enabled(d.s, a) && Fits(d.s.geo)
  {
    var s' := W.Apply(d.s, a);
    match a
    case Snapshot =>
      var geo := d.s.geo;
      var all := WithPages(d.s.dirty, d.s.worker.pages, geo.LineLength(), geo.yres);
      State(s', d.panel, Flushed(all, geo.yres), map[])
    case Read(c) => State(s', d.panel, d.lines, d.read[c := d.s.vmem[c]])
    case Finish =>
      var trace := S.UpdateTrace(Frame(d.read, d.s.geo), d.s.geo.width, d.lines);
      State(s', S.ReceiveAll(d.panel, trace), d.lines, d.read)
    case _ => State(s', d.panel, d.lines, d.read)
  }

  ghost predicate Runs(d: State, actions: seq<W.Action>, d': State)
    decreases |actions|
  {
    if actions == [] then d == d'
    else W.Enabled(d.s, actions[0]) && Fits(d.s.geo) && Runs(Step(d, actions[0]), actions[1..], d')
  }

  /** The threads alone make the same run. */
  lemma {:induction false} RunsBelow(d: State, actions: seq<W.Action>, d': State)
    requires Runs(d, actions, d')
    ensures W.Runs(d.s, actions, d'.s)
    decreases |actions|
  {
    hide W.Enabled, W.Apply;
    if actions != [] {
      RunsBelow(Step(d, actions[0]), actions[1..], d');
    }
  }

  // ---------------------------------------------------------------- the invariant

  function SpotOf(c: W.Cell): S.Spot
  {
    S.Spot(c.line, 0x28 + c.col / 4, c.col % 4)
  }

  /** The controller's memory holds the level of the pixel value at the cell. */
  predicate ShownAt(panel: S.Panel, c: W.Cell, v: pixel)
  {
    SpotOf(c) in panel.ram && panel.ram[SpotOf(c)] == S.Gray4(v)
  }

  predicate ShowsCell(d: State, c: W.Cell)
    requires c in d.s.panel
  {
    ShownAt(d.panel, c, d.s.panel[c])
  }

  /** What was read of the cell is in the transmit buffer or has been sent. */
  predicate Taken(d: State, c: W.Cell)
    requires d.s.worker.Copying? && c in d.s.panel
  {
    c in d.read && if c in d.s.worker.txbuf then d.s.worker.txbuf[c] == d.read[c] else d.s.panel[c] == d.read[c]
  }

  predicate CellOk(d: State, c: W.Cell)
    requires c in d.s.panel
  {
    if d.s.worker.Copying? && d.lines.Has(c.line) then c in d.s.worker.toRead || Taken(d, c)
    else
      && ShowsCell(d, c)
      && (d.s.worker.Copying? ==> c !in d.s.worker.toRead && c !in d.s.worker.txbuf)
  }

  ghost predicate Shaped(d: State)
  {
    && Fits(d.s.geo)
    && d.s.vmem.Keys == d.s.panel.Keys == d.s.geo.Cells()
    && (d.s.worker.Copying? ==>
          && d.lines.first <= d.lines.last < d.s.geo.yres
          && d.s.worker.toRead <= d.s.vmem.Keys && d.s.worker.txbuf.Keys <= d.s.vmem.Keys)
  }

  ghost predicate Inv(d: State)
  {
    Shaped(d) && d.panel.startLine == 0 && forall c :: c in d.s.panel ==> CellOk(d, c)
  }

  /** A step that leaves the panel and the worker's copy alone. */
  lemma AsideStep(d: State, d': State)
    requires Inv(d)
    requires d'.panel == d.panel && d'.lines == d.lines && d'.read == d.read
    requires d'.s.geo == d.s.geo && d'.s.panel == d.s.panel && d'.s.vmem.Keys == d.s.vmem.Keys
    requires d'.s.worker == d.s.worker || (!d'.s.worker.Copying? && !d.s.worker.Copying?)
    ensures Inv(d')
  {
    hide S.Gray4;
    forall c | c in d'.s.panel ensures CellOk(d', c) {
      assert CellOk(d, c);
    }
  }

  lemma SnapshotStep(d: State)
    requires Inv(d) && W.Enabled(d.s, W.Snapshot)
    ensures Inv(Step(d, W.Snapshot))
  {
    hide S.Gray4, WithPages, Flushed;
    var d' := Step(d, W.Snapshot);
    forall c | c in d'.s.panel ensures CellOk(d', c) {
      assert CellOk(d, c);
    }
  }

  lemma ReadStep(d: State, c: W.Cell)
    requires Inv(d) && W.Enabled(d.s, W.Read(c))
    ensures Inv(Step(d, W.Read(c)))
  {
    hide S.Gray4;
    var d' := Step(d, W.Read(c));
    assert CellOk(d, c);
    forall e | e in d'.s.panel ensures CellOk(d', e) {
      assert CellOk(d, e);
    }
  }

  lemma SendStep(d: State, c: W.Cell)
    requires Inv(d) && W.Enabled(d.s, W.Send(c))
    ensures Inv(Step(d, W.Send(c)))
  {
    hide S.Gray4;
    var d' := Step(d, W.Send(c));
    assert CellOk(d, c);
    forall e | e in d'.s.panel ensures CellOk(d', e) {
      assert CellOk(d, e);
    }
  }

  // ---------------------------------------------------------------- the transfer

  lemma Index(y: nat, x: nat, width: nat, yres: nat)
    requires x < width && y < yres
    ensures (y * width + x) / width == y && (y * width + x) % width == x
    ensures y * width + x < width * yres
  {
    var i := y * width + x;
    assert i < (y + 1) * width;
    QuotientBetween(i, y, width);
    assert i == width * (i / width) + i % width;
    S.LineBounds(width, y + 1, yres);
  }

  lemma FramePixel(read: W.Memory, geo: W.Geometry, c: W.Cell)
    requires geo.Valid() && c in read && c.line < geo.yres && c.col < geo.width
    ensures S.LinePixel(Frame(read, geo), geo.width, c.line, c.col) == S.Gray4(read[c])
  {
    hide S.Gray4;
    Index(c.line, c.col, geo.width, geo.yres);
  }

  lemma SpotIsOnLines(c: W.Cell, lines: Range, width: nat)
    requires c.col < width
    ensures S.OnLines(SpotOf(c), lines.first, lines.last + 1, 0x28, width) <==> lines.Has(c.line)
    ensures 4 * (SpotOf(c).col - 0x28) + SpotOf(c).sub == c.col
  {
  }

  /** The transfer shows what was read on its lines and leaves every other cell as it is. */
  lemma Transferred(d: State, c: W.Cell)
    requires Fits(d.s.geo) && d.lines.first <= d.lines.last < d.s.geo.yres
    requires c.line < d.s.geo.yres && c.col < d.s.geo.width
    ensures var after := S.ReceiveAll(d.panel, S.UpdateTrace(Frame(d.read, d.s.geo), d.s.geo.width, d.lines));
            && after.startLine == 0
            && (d.lines.Has(c.line) && c in d.read ==> ShownAt(after, c, d.read[c]))
            && forall v: pixel :: !d.lines.Has(c.line) && ShownAt(d.panel, c, v) ==> ShownAt(after, c, v)
  {
    hide S.ReceiveAll, S.UpdateTrace, S.Gray4, Frame, SpotOf, S.OnLines;
    var geo := d.s.geo;
    var frame := Frame(d.read, geo);
    var after := S.ReceiveAll(d.panel, S.UpdateTrace(frame, geo.width, d.lines));
    InOrder(d.lines, geo.yres);
    S.UpdateShowsLines(d.panel, frame, geo.width, geo.yres, d.lines.first, d.lines.last);
    assert S.PaintedLines(d.panel.ram, after.ram, d.lines.first, d.lines.last + 1, 0x28, frame, geo.width);
    SpotIsOnLines(c, d.lines, geo.width);
    if c in d.read {
      FramePixel(d.read, geo, c);
    }
    SpotRow(c);
  }

  lemma SpotRow(c: W.Cell)
    ensures SpotOf(c).row == c.line && SpotOf(c).col >= 0x28
  {
  }

  lemma InOrder(lines: Range, yres: nat)
    requires lines.first <= lines.last < yres
    ensures Flushed(Range(lines.first, lines.last), yres) == lines
  {
  }

  lemma FirstLineStays(d: State)
    requires Fits(d.s.geo) && d.lines.first <= d.lines.last < d.s.geo.yres
    ensures S.ReceiveAll(d.panel, S.UpdateTrace(Frame(d.read, d.s.geo), d.s.geo.width, d.lines)).startLine == 0
  {
    hide S.ReceiveAll, S.UpdateTrace, S.Gray4, Frame, ShownAt;
    Transferred(d, W.Cell(0, 0));
  }

  lemma FinishStep(d: State)
    requires Inv(d) && W.Enabled(d.s, W.Finish)
    ensures Inv(Step(d, W.Finish))
  {
    hide S.Gray4, S.ReceiveAll, S.UpdateTrace, Frame, ShownAt;
    var d' := Step(d, W.Finish);
    FirstLineStays(d);
    forall c | c in d'.s.panel ensures CellOk(d', c) {
      assert CellOk(d, c);
      assert c in d.s.geo.Cells();
      Transferred(d, c);
    }
  }

  lemma StepKeepsInv(d: State, a: W.Action)
    requires Inv(d) && W.Enabled(d.s, a)
    ensures Inv(Step(d, a))
  {
    hide Inv, Marked, Flushed, WithPages, Touches, Missed;
    assert Fits(d.s.geo) by { FitsInInv(d); }
    match a
    case Snapshot => SnapshotStep(d);
    case Read(c) => ReadStep(d, c);
    case Send(c) => SendStep(d, c);
    case Finish => FinishStep(d);
    case _ => AsideStep(d, Step(d, a));
  }

  lemma FitsInInv(d: State)
    requires Inv(d)
    ensures Fits(d.s.geo)
  {
  }

  lemma {:induction false} RunKeepsInv(d: State, actions: seq<W.Action>, d': State)
    requires Inv(d) && Runs(d, actions, d')
    ensures Inv(d')
    decreases |actions|
  {
    hide Inv, W.Enabled, Step;
    if actions != [] {
      StepKeepsInv(d, actions[0]);
      RunKeepsInv(Step(d, actions[0]), actions[1..], d');
    }
  }

  // ---------------------------------------------------------------- what a viewer sees

  /** A controller that shows the blank screen the driver starts from. */
  predicate ShowsBlank(panel: S.Panel, geo: W.Geometry)
  {
    panel.startLine == 0 && forall c :: c in geo.Cells() ==> ShownAt(panel, c, 0)
  }

  function Start(geo: W.Geometry, panel: S.Panel): State
    requires Fits(geo)
  {
    State(W.Init(geo), panel, Clean(geo.yres), map[])
  }

  lemma StartInv(geo: W.Geometry, panel: S.Panel)
    requires Fits(geo) && ShowsBlank(panel, geo)
    ensures Inv(Start(geo, panel))
  {
    hide ShownAt;
  }

  /**
   * Under every interleaving of drawing calls, mapped stores and the worker: memory row y of the controller stays
   * displayed on line y, and once everything has settled every cell holds the grey level of its pixel in video
   * memory, except on a last line that a write call changed.
   */
  lemma SettledScreenShowsMemory(geo: W.Geometry, panel: S.Panel, actions: seq<W.Action>, d: State)
    requires Fits(geo) && ShowsBlank(panel, geo)
    requires Runs(Start(geo, panel), actions, d) && W.Quiescent(d.s)
    ensures d.s.vmem.Keys == geo.Cells() && d.panel.startLine == 0
    ensures forall c :: c in d.s.vmem ==>
                          ShownAt(d.panel, c, d.s.vmem[c]) || (d.s.lastLineWritten && c.line == geo.yres - 1)
  {
    hide Step, ShownAt, ShowsBlank;
    StartInv(geo, panel);
    RunKeepsInv(Start(geo, panel), actions, d);
    RunsBelow(Start(geo, panel), actions, d);
    W.SettledIsCoherent(geo, actions, d.s);
    W.GeometryIsFixed(W.Init(geo), actions, d.s);
    forall c | c in d.s.vmem
      ensures ShownAt(d.panel, c, d.s.vmem[c]) || (d.s.lastLineWritten && c.line == geo.yres - 1)
    {
      assert CellOk(d, c);
    }
  }

  /** Without write calls the whole screen shows memory. */
  lemma ScreenShowsMemory(geo: W.Geometry, panel: S.Panel, actions: seq<W.Action>, d: State)
    requires Fits(geo) && ShowsBlank(panel, geo)
    requires Runs(Start(geo, panel), actions, d) && W.Quiescent(d.s)
    requires forall a :: a in actions && a.Begin? ==> a.y != -1
    ensures d.panel.startLine == 0 && forall c :: c in d.s.vmem ==> ShownAt(d.panel, c, d.s.vmem[c])
  {
    hide Step, ShownAt, ShowsBlank, Inv;
    SettledScreenShowsMemory(geo, panel, actions, d);
    RunsBelow(Start(geo, panel), actions, d);
    W.NoWriteCall(W.Init(geo), actions, d.s);
  }
}
