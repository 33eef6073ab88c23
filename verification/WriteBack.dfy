/**
 * The deferred-update framebuffer as a concurrent write-back cache: drawing calls and mapped stores
 * change video memory while one worker snapshots the dirty range and copies lines to the panel
 * without holding the lock. Every step of every thread is an action; a run is any interleaving.
 */
module WriteBack {
  import opened DirtyLines

  datatype Cell = Cell(line: nat, col: nat)

  type Memory = map<Cell, pixel>

  datatype Geometry = Geometry(yres: nat, width: nat)
  {
    predicate Valid()
    {
      ValidHeight(yres) && 1 <= width
    }

    /** 16 bits per pixel. */
    function LineLength(): nat
    {
      2 * width
    }

    function Cells(): set<Cell>
    {
      set y, x | 0 <= y < yres && 0 <= x < width :: Cell(y, x)
    }
  }

  /** A drawing call first changes memory, then marks under the lock, then schedules the worker. */
  datatype Writer = Drawing(y: int, height: int) | Scheduling

  /** The worker is idle, has taken over the page list, or is copying through the transmit buffer. */
  datatype Worker = Idle | Woken(pages: seq<nat>) | Copying(toRead: set<Cell>, txbuf: Memory)

  /** `marked` records whether a mark has happened since the last snapshot. */
  datatype State = State(
    geo: Geometry, vmem: Memory, panel: Memory, dirty: Range, marked: bool,
    writers: map<nat, Writer>, tracked: seq<nat>, pending: bool, worker: Worker,
    lastLineWritten: bool)

  datatype Action =
    | Begin(t: nat, y: int, height: int)      // a fillrect, copyarea, imageblit or write call starts
    | Draw(t: nat, c: Cell, v: pixel)         // it changes one pixel
    | Mark(t: nat)                            // critical section of mkdirty
    | Schedule(t: nat)                        // schedule_delayed_work
    | Touch(page: nat)                        // first store to a mapped page: tracked, work scheduled
    | Store(page: nat, c: Cell, v: pixel)     // store through a tracked page
    | Wake                                    // the worker starts and takes over the page list
    | Snapshot                                // critical section of deferred_io
    | Read(c: Cell)                           // one pixel into the transmit buffer
    | Send(c: Cell)                           // one pixel to the panel
    | Finish

  predicate Enabled(s: State, a: Action)
  {
    match a
    case Begin(t, y, height) => t !in s.writers && ValidCall(y, height, s.geo.yres)
    case Draw(t, c, _) =>
      t in s.writers && s.writers[t].Drawing? && c in s.vmem && Touches(s.writers[t].y, s.writers[t].height, c.line)
    case Mark(t) => t in s.writers && s.writers[t].Drawing?
    case Schedule(t) => t in s.writers && s.writers[t].Scheduling?
    case Touch(_) => true
    case Store(p, c, _) => p in s.tracked && c in s.vmem && OnPage(p, s.geo.LineLength(), c.line)
    case Wake => s.pending && s.worker.Idle?
    case Snapshot => s.worker.Woken? && s.geo.Valid()
    case Read(c) => s.worker.Copying? && c in s.worker.toRead && c in s.vmem
    case Send(c) => s.worker.Copying? && c in s.worker.txbuf
    case Finish => s.worker.Copying? && s.worker.toRead == {} && s.worker.txbuf == map[]
  }

  function Apply(s: State, a: Action): State
    requires Enabled(s, a)
  {
    match a
    case Begin(t, y, height) => s.(writers := s.writers[t := Drawing(y, height)])
    case Draw(t, c, v) =>
      s.(vmem := s.vmem[c := v],
         lastLineWritten := s.lastLineWritten || Missed(s.writers[t].y, s.geo.yres, c.line))
    case Mark(t) =>
      var w := s.writers[t];
      s.(dirty := Marked(s.dirty, w.y, w.height, s.geo.yres), marked := true, writers := s.writers[t := Scheduling])
    case Schedule(t) => s.(pending := true, writers := s.writers - {t})
    case Touch(p) => s.(tracked := s.tracked + [p], pending := true)
    case Store(_, c, v) => s.(vmem := s.vmem[c := v])
    case Wake => s.(pending := false, tracked := [], worker := Woken(s.tracked))
    case Snapshot =>
      var f := Flushed(WithPages(s.dirty, s.worker.pages, s.geo.LineLength(), s.geo.yres), s.geo.yres);
      s.(dirty := Clean(s.geo.yres), marked := false, worker := Copying(set c | c in s.vmem && f.Has(c.line), map[]))
    case Read(c) =>
      s.(worker := Copying(s.worker.toRead - {c}, s.worker.txbuf[c := s.vmem[c]]))
    case Send(c) =>
      s.(panel := s.panel[c := s.worker.txbuf[c]], worker := s.worker.(txbuf := s.worker.txbuf - {c}))
    case Finish => s.(worker := Idle)
  }

  function Init(geo: Geometry): State
    requires geo.Valid()
  {
    var blank: Memory := map c | c in geo.Cells() :: 0;
    State(geo, blank, blank, Clean(geo.yres), false, map[], [], false, Idle, false)
  }

  ghost predicate Runs(s: State, actions: seq<Action>, s': State)
    decreases |actions|
  {
    if actions == [] then s == s'
    else Enabled(s, actions[0]) && Runs(Apply(s, actions[0]), actions[1..], s')
  }

  // ---------------------------------------------------------------- the invariant

  /** An unfinished drawing call is going to mark the line. */
  ghost predicate ToBeMarked(s: State, line: nat)
  {
    exists t :: t in s.writers && s.writers[t].Drawing? && Touches(s.writers[t].y, s.writers[t].height, line)
             && !Missed(s.writers[t].y, s.geo.yres, line)
  }

  ghost predicate InPages(s: State, pages: seq<nat>, line: nat)
  {
    exists p :: p in pages && OnPage(p, s.geo.LineLength(), line)
  }

  /** A later snapshot is going to take in the line, or it is the last line and a write call missed it. */
  ghost predicate Ahead(s: State, line: nat)
  {
    || (s.marked && s.dirty.Has(line))
    || ToBeMarked(s, line)
    || InPages(s, s.tracked, line)
    || (s.worker.Woken? && InPages(s, s.worker.pages, line))
    || (s.lastLineWritten && line == s.geo.yres - 1)
  }

  /** The panel shows what memory holds, or the cell is going to be copied. */
  ghost predicate Agree(s: State, c: Cell)
    requires c in s.vmem && c in s.panel
  {
    s.panel[c] == s.vmem[c] || Ahead(s, c.line) || (s.worker.Copying? && (c in s.worker.toRead || c in s.worker.txbuf))
  }

  /** The transmit buffer holds what memory holds, or the cell is going to be copied again. */
  ghost predicate Buffered(s: State, c: Cell)
    requires s.worker.Copying? && c in s.vmem && c in s.worker.txbuf
  {
    s.worker.txbuf[c] == s.vmem[c] || Ahead(s, c.line)
  }

  ghost predicate SomeScheduling(s: State)
  {
    exists t :: t in s.writers && s.writers[t].Scheduling?
  }

  ghost predicate Shaped(s: State)
  {
    && s.geo.Valid()
    && s.vmem.Keys == s.panel.Keys
    && (forall c :: c in s.vmem ==> c.line < s.geo.yres)
    && (s.worker.Copying? ==> s.worker.toRead <= s.vmem.Keys && s.worker.txbuf.Keys <= s.vmem.Keys)
    && (forall t :: t in s.writers && s.writers[t].Drawing? ==>
                      ValidCall(s.writers[t].y, s.writers[t].height, s.geo.yres))
    && (s.lastLineWritten ==> s.geo.yres >= 2)
  }

  ghost predicate Inv(s: State)
  {
    && Shaped(s)
    && (forall c :: c in s.vmem ==> Agree(s, c))
    && (s.worker.Copying? ==> forall c :: c in s.worker.txbuf ==> Buffered(s, c))
    // work is queued, or about to be, while a mark or a touched page waits for it
    && (s.marked ==> s.pending || s.worker.Woken? || SomeScheduling(s))
    && (s.tracked != [] ==> s.pending)
  }

  lemma InitInv(geo: Geometry)
    requires geo.Valid()
    ensures Inv(Init(geo))
  {
  }

  /** A step that drops no mark, no page and no drawing call leaves every line ahead that was ahead. */
  ghost predicate Keeps(s: State, s': State)
  {
    && s'.geo == s.geo
    && (s.lastLineWritten ==> s'.lastLineWritten)
    && (s.marked ==> s'.marked && s'.dirty == s.dirty)
    && (s.worker.Woken? ==> s'.worker == s.worker)
    && (forall p :: p in s.tracked ==> p in s'.tracked)
    && (forall t :: t in s.writers && s.writers[t].Drawing? ==> t in s'.writers && s'.writers[t] == s.writers[t])
  }

  lemma AllAheadKept(s: State, s': State)
    requires Keeps(s, s')
    ensures forall line: nat :: Ahead(s, line) ==> Ahead(s', line)
  {
  }

  lemma SchedulingKept(s: State, s': State)
    requires SomeScheduling(s)
    requires forall t :: t in s.writers && s.writers[t].Scheduling? ==> t in s'.writers && s'.writers[t] == s.writers[t]
    ensures SomeScheduling(s')
  {
  }

  lemma BeginStep(s: State, t: nat, y: int, height: int)
    requires Inv(s) && Enabled(s, Begin(t, y, height))
    ensures Inv(Apply(s, Begin(t, y, height)))
  {
    hide Ahead, Touches, Missed;
    var s' := Apply(s, Begin(t, y, height));
    AllAheadKept(s, s');
    if SomeScheduling(s) {
      SchedulingKept(s, s');
    }
    forall c | c in s'.vmem ensures Agree(s', c) { assert Agree(s, c); }
    if s'.worker.Copying? {
      forall c | c in s'.worker.txbuf ensures Buffered(s', c) { assert Buffered(s, c); }
    }
  }

  /** A store to memory only makes stale a cell whose line is ahead. */
  lemma MemoryStep(s: State, s': State, c: Cell, v: pixel)
    requires Inv(s) && c in s.vmem
    requires s' == s.(vmem := s.vmem[c := v], lastLineWritten := s'.lastLineWritten)
    requires (s.lastLineWritten ==> s'.lastLineWritten) && (s'.lastLineWritten ==> s.geo.yres >= 2)
    requires Ahead(s', c.line)
    ensures Inv(s')
  {
    AllAheadKept(s, s');
    hide Ahead, Touches, Missed;
    if SomeScheduling(s) {
      SchedulingKept(s, s');
    }
    forall d | d in s'.vmem ensures Agree(s', d) { assert Agree(s, d); }
    if s'.worker.Copying? {
      forall d | d in s'.worker.txbuf ensures Buffered(s', d) { assert Buffered(s, d); }
    }
  }

  lemma DrawStep(s: State, t: nat, c: Cell, v: pixel)
    requires Inv(s) && Enabled(s, Draw(t, c, v))
    ensures Inv(Apply(s, Draw(t, c, v)))
  {
    var s' := Apply(s, Draw(t, c, v));
    if !Missed(s.writers[t].y, s.geo.yres, c.line) {
      assert ToBeMarked(s', c.line);
    }
    MemoryStep(s, s', c, v);
  }

  lemma StoreStep(s: State, p: nat, c: Cell, v: pixel)
    requires Inv(s) && Enabled(s, Store(p, c, v))
    ensures Inv(Apply(s, Store(p, c, v)))
  {
    var s' := Apply(s, Store(p, c, v));
    assert InPages(s', s'.tracked, c.line);
    MemoryStep(s, s', c, v);
  }

  /** Marking turns lines that were to be marked into dirty lines. */
  lemma MarkAhead(s: State, t: nat, line: nat)
    requires Shaped(s) && Enabled(s, Mark(t)) && Ahead(s, line) && line < s.geo.yres
    ensures Ahead(Apply(s, Mark(t)), line)
  {
    var s' := Apply(s, Mark(t));
    var w := s.writers[t];
    if s.dirty.Has(line) {
      MarkKeeps(s.dirty, w.y, w.height, s.geo.yres, line);
    }
    if ToBeMarked(s, line) {
      var u :| u in s.writers && s.writers[u].Drawing? && Touches(s.writers[u].y, s.writers[u].height, line)
               && !Missed(s.writers[u].y, s.geo.yres, line);
      if u == t {
        MarkCovers(s.dirty, w.y, w.height, s.geo.yres, line);
      } else {
        assert s'.writers[u] == s.writers[u];
        assert ToBeMarked(s', line);
      }
    }
    if InPages(s, s.tracked, line) {
      assert InPages(s', s'.tracked, line);
    }
    if s.worker.Woken? && InPages(s, s.worker.pages, line) {
      assert InPages(s', s'.worker.pages, line);
    }
  }

  lemma MarkStep(s: State, t: nat)
    requires Inv(s) && Enabled(s, Mark(t))
    ensures Inv(Apply(s, Mark(t)))
  {
    var s' := Apply(s, Mark(t));
    forall line: nat | Ahead(s, line) && line < s.geo.yres ensures Ahead(s', line) {
      MarkAhead(s, t, line);
    }
    hide Ahead, Marked, Touches, Missed;
    assert s'.writers[t].Scheduling?;
    assert SomeScheduling(s');
    forall c | c in s'.vmem ensures Agree(s', c) { assert Agree(s, c); }
    if s'.worker.Copying? {
      forall c | c in s'.worker.txbuf ensures Buffered(s', c) { assert Buffered(s, c); }
    }
  }

  lemma ScheduleStep(s: State, t: nat)
    requires Inv(s) && Enabled(s, Schedule(t))
    ensures Inv(Apply(s, Schedule(t)))
  {
    hide Ahead, Touches, Missed;
    var s' := Apply(s, Schedule(t));
    AllAheadKept(s, s');
    forall c | c in s'.vmem ensures Agree(s', c) { assert Agree(s, c); }
    if s'.worker.Copying? {
      forall c | c in s'.worker.txbuf ensures Buffered(s', c) { assert Buffered(s, c); }
    }
  }

  lemma TouchStep(s: State, p: nat)
    requires Inv(s) && Enabled(s, Touch(p))
    ensures Inv(Apply(s, Touch(p)))
  {
    hide Ahead, Touches, Missed;
    var s' := Apply(s, Touch(p));
    AllAheadKept(s, s');
    forall c | c in s'.vmem ensures Agree(s', c) { assert Agree(s, c); }
    if s'.worker.Copying? {
      forall c | c in s'.worker.txbuf ensures Buffered(s', c) { assert Buffered(s, c); }
    }
  }

  lemma WakeStep(s: State)
    requires Inv(s) && Enabled(s, Wake)
    ensures Inv(Apply(s, Wake))
  {
  }

  /** A snapshot takes in every dirty line and every line of a page it was handed. */
  lemma SnapshotAhead(s: State, c: Cell)
    requires Shaped(s) && Enabled(s, Snapshot) && c in s.vmem && Ahead(s, c.line)
    ensures Ahead(Apply(s, Snapshot), c.line) || c in Apply(s, Snapshot).worker.toRead
  {
    var s' := Apply(s, Snapshot);
    if s.dirty.Has(c.line) || InPages(s, s.worker.pages, c.line) {
      PagesCover(s.dirty, s.worker.pages, s.geo.LineLength(), s.geo.yres, c.line);
    } else if ToBeMarked(s, c.line) {
      assert ToBeMarked(s', c.line);
    } else if InPages(s, s.tracked, c.line) {
      assert InPages(s', s'.tracked, c.line);
    }
  }

  lemma SnapshotStep(s: State)
    requires Inv(s) && Enabled(s, Snapshot)
    ensures Inv(Apply(s, Snapshot))
  {
    var s' := Apply(s, Snapshot);
    forall c | c in s'.vmem ensures Agree(s', c) {
      assert Agree(s, c);
      if Ahead(s, c.line) {
        SnapshotAhead(s, c);
      }
    }
  }

  lemma ReadStep(s: State, c: Cell)
    requires Inv(s) && Enabled(s, Read(c))
    ensures Inv(Apply(s, Read(c)))
  {
    hide Ahead, Touches, Missed;
    var s' := Apply(s, Read(c));
    AllAheadKept(s, s');
    if SomeScheduling(s) {
      SchedulingKept(s, s');
    }
    forall d | d in s'.vmem ensures Agree(s', d) { assert Agree(s, d); }
    forall d | d in s'.worker.txbuf ensures Buffered(s', d) { assert d != c ==> Buffered(s, d); }
  }

  lemma SendStep(s: State, c: Cell)
    requires Inv(s) && Enabled(s, Send(c))
    ensures Inv(Apply(s, Send(c)))
  {
    hide Ahead, Touches, Missed;
    var s' := Apply(s, Send(c));
    AllAheadKept(s, s');
    if SomeScheduling(s) {
      SchedulingKept(s, s');
    }
    assert Buffered(s, c);
    forall d | d in s'.vmem ensures Agree(s', d) { assert Agree(s, d); }
    forall d | d in s'.worker.txbuf ensures Buffered(s', d) { assert Buffered(s, d); }
  }

  lemma FinishStep(s: State)
    requires Inv(s) && Enabled(s, Finish)
    ensures Inv(Apply(s, Finish))
  {
    hide Ahead, Touches, Missed;
    var s' := Apply(s, Finish);
    AllAheadKept(s, s');
    if SomeScheduling(s) {
      SchedulingKept(s, s');
    }
    forall c | c in s'.vmem ensures Agree(s', c) { assert Agree(s, c); }
  }

  /** Every step of every thread keeps the invariant. */
  lemma StepKeepsInv(s: State, a: Action)
    requires Inv(s) && Enabled(s, a)
    ensures Inv(Apply(s, a))
  {
    hide Inv, Enabled, Apply;
    match a
    case Begin(t, y, height) => BeginStep(s, t, y, height);
    case Draw(t, c, v) => DrawStep(s, t, c, v);
    case Mark(t) => MarkStep(s, t);
    case Schedule(t) => ScheduleStep(s, t);
    case Touch(p) => TouchStep(s, p);
    case Store(p, c, v) => StoreStep(s, p, c, v);
    case Wake => WakeStep(s);
    case Snapshot => SnapshotStep(s);
    case Read(c) => ReadStep(s, c);
    case Send(c) => SendStep(s, c);
    case Finish => FinishStep(s);
  }

  lemma {:induction false} RunKeepsInv(s: State, actions: seq<Action>, s': State)
    requires Inv(s) && Runs(s, actions, s')
    ensures Inv(s')
    decreases |actions|
  {
    hide Inv, Enabled, Apply;
    if actions != [] {
      StepKeepsInv(s, actions[0]);
      RunKeepsInv(Apply(s, actions[0]), actions[1..], s');
    }
  }

  // ---------------------------------------------------------------- coherence

  /** No call is running, no work is queued and the worker sleeps. */
  predicate Quiescent(s: State)
  {
    s.writers == map[] && !s.pending && s.worker.Idle?
  }

  /** When everything has settled the panel shows memory, except a last line that a write call changed. */
  lemma SettledIsCoherent(geo: Geometry, actions: seq<Action>, s: State)
    requires geo.Valid() && Runs(Init(geo), actions, s) && Quiescent(s)
    ensures s.panel.Keys == s.vmem.Keys
    ensures forall c :: c in s.vmem && s.panel[c] != s.vmem[c] ==> s.lastLineWritten && c.line == geo.yres - 1
  {
    InitInv(geo);
    RunKeepsInv(Init(geo), actions, s);
    GeometryIsFixed(Init(geo), actions, s);
    forall c | c in s.vmem && s.panel[c] != s.vmem[c] ensures s.lastLineWritten && c.line == geo.yres - 1 {
      assert Agree(s, c);
    }
  }

  lemma {:induction false} GeometryIsFixed(s: State, actions: seq<Action>, s': State)
    requires Runs(s, actions, s')
    ensures s'.geo == s.geo && s'.vmem.Keys == s.vmem.Keys
    decreases |actions|
  {
    if actions != [] {
      StepKeepsGeometry(s, actions[0]);
      hide Apply, Enabled;
      GeometryIsFixed(Apply(s, actions[0]), actions[1..], s');
    }
  }

  lemma StepKeepsGeometry(s: State, a: Action)
    requires Enabled(s, a)
    ensures Apply(s, a).geo == s.geo && Apply(s, a).vmem.Keys == s.vmem.Keys
  {
    hide Marked, Flushed, WithPages;
  }

  /** Without write calls there is no exception: the whole panel shows memory. */
  lemma CoherentWithoutWriteCalls(geo: Geometry, actions: seq<Action>, s: State)
    requires geo.Valid() && Runs(Init(geo), actions, s) && Quiescent(s)
    requires forall a :: a in actions && a.Begin? ==> a.y != -1
    ensures s.panel == s.vmem
  {
    SettledIsCoherent(geo, actions, s);
    NoWriteCall(Init(geo), actions, s);
  }

  lemma {:induction false} NoWriteCall(s: State, actions: seq<Action>, s': State)
    requires Runs(s, actions, s')
    requires forall a :: a in actions && a.Begin? ==> a.y != -1
    requires !s.lastLineWritten && forall t :: t in s.writers && s.writers[t].Drawing? ==> s.writers[t].y != -1
    ensures !s'.lastLineWritten
    decreases |actions|
  {
    if actions != [] {
      assert actions[0] in actions;
      NoWriteCall(Apply(s, actions[0]), actions[1..], s');
    }
  }

  // ---------------------------------------------------------------- settling, and the line that is missed

  lemma {:induction false} RunsAppend(s: State, a: seq<Action>, m: State, b: seq<Action>, s': State)
    requires Runs(s, a, m) && Runs(m, b, s')
    ensures Runs(s, a + b, s')
    decreases |a|
  {
    hide Enabled, Apply;
    if a == [] {
      assert a + b == b;
    } else {
      assert (a + b)[1..] == a[1..] + b;
      RunsAppend(Apply(s, a[0]), a[1..], m, b, s');
    }
  }

  lemma RunsOne(s: State, a: Action)
    requires Enabled(s, a)
    ensures Runs(s, [a], Apply(s, a))
  {
  }

  /** A finished copy: its cells show memory, or what was already read of them, and the others keep their value. */
  ghost predicate Copied(s: State, s': State)
    requires s.worker.Copying? && s.worker.toRead <= s.vmem.Keys
  {
    && s' == s.(worker := Idle, panel := s'.panel)
    && (forall c :: c in s.worker.toRead ==> c in s'.panel && s'.panel[c] == s.vmem[c])
    && (forall c :: c in s.worker.txbuf && c !in s.worker.toRead ==> c in s'.panel && s'.panel[c] == s.worker.txbuf[c])
    && (forall c :: c in s.panel && c !in s.worker.toRead && c !in s.worker.txbuf ==>
                      c in s'.panel && s'.panel[c] == s.panel[c])
  }

  /** The worker can always finish its copy. */
  lemma {:induction false} FinishCopy(s: State) returns (actions: seq<Action>, s': State)
    requires s.worker.Copying? && s.worker.toRead <= s.vmem.Keys
    ensures Runs(s, actions, s') && Copied(s, s')
    decreases 2 * |s.worker.toRead| + |s.worker.txbuf|
  {
    hide Apply, Enabled, Copied;
    if s.worker.toRead == {} && s.worker.txbuf == map[] {
      CopyDone(s);
      RunsOne(s, Finish);
      return [Finish], Apply(s, Finish);
    }
    var step := CopyStep(s);
    var s1 := Apply(s, step);
    var rest;
    rest, s' := FinishCopy(s1);
    CopyComposes(s, s1, s');
    actions := [step] + rest;
    assert actions[1..] == rest;
  }

  lemma CopyDone(s: State)
    requires s.worker.Copying? && s.worker.toRead == {} && s.worker.txbuf == map[]
    ensures Enabled(s, Finish) && Copied(s, Apply(s, Finish))
  {
  }

  /** One more pixel read or sent: the copy shrinks and touches only cells it is responsible for. */
  ghost predicate CopyAdvances(s: State, s1: State)
    requires s.worker.Copying?
  {
    && s1.worker.Copying?
    && s1 == s.(worker := s1.worker, panel := s1.panel)
    && s1.worker.toRead <= s.worker.toRead
    && s1.worker.txbuf.Keys <= s.worker.txbuf.Keys + s.worker.toRead
    && 2 * |s1.worker.toRead| + |s1.worker.txbuf| < 2 * |s.worker.toRead| + |s.worker.txbuf|
    && (forall c :: c in s.panel && c !in s.worker.txbuf ==> c in s1.panel && s1.panel[c] == s.panel[c])
    && (forall c :: c in s.worker.toRead && c !in s1.worker.toRead ==>
                      c in s.vmem && c in s1.worker.txbuf && s1.worker.txbuf[c] == s.vmem[c])
    && (forall c :: c in s.worker.txbuf && c !in s.worker.toRead && c in s1.worker.txbuf ==>
                      s1.worker.txbuf[c] == s.worker.txbuf[c])
    && (forall c :: c in s.worker.txbuf && c !in s.worker.toRead && c !in s1.worker.txbuf ==>
                      c in s1.panel && s1.panel[c] == s.worker.txbuf[c])
  }

  lemma CopyComposes(s: State, s1: State, s': State)
    requires s.worker.Copying? && s.worker.toRead <= s.vmem.Keys
    requires CopyAdvances(s, s1) && s1.worker.toRead <= s1.vmem.Keys && Copied(s1, s')
    ensures Copied(s, s')
  {
  }

  lemma CopyRead(s: State, c: Cell)
    requires Enabled(s, Read(c))
    ensures CopyAdvances(s, Apply(s, Read(c)))
  {
  }

  lemma CopySend(s: State, c: Cell)
    requires Enabled(s, Send(c))
    ensures CopyAdvances(s, Apply(s, Send(c)))
  {
  }

  lemma CopyStep(s: State) returns (step: Action)
    requires s.worker.Copying? && s.worker.toRead <= s.vmem.Keys
    requires s.worker.toRead != {} || s.worker.txbuf != map[]
    ensures Enabled(s, step) && CopyAdvances(s, Apply(s, step))
  {
    hide CopyAdvances, Apply;
    if s.worker.toRead != {} {
      var c :| c in s.worker.toRead;
      CopyRead(s, c);
      step := Read(c);
    } else {
      var c :| c in s.worker.txbuf;
      CopySend(s, c);
      step := Send(c);
    }
  }

  /** A queued worker can run to its end: the flushed lines show memory, the others are kept, and none is dirty. */
  lemma FlushOnce(s: State) returns (actions: seq<Action>, s': State)
    requires s.geo.Valid() && s.worker.Idle? && s.pending
    ensures Runs(s, actions, s')
    ensures s'.worker.Idle? && !s'.pending && s'.writers == s.writers && s'.vmem == s.vmem && s'.geo == s.geo
    ensures s'.lastLineWritten == s.lastLineWritten
    ensures s'.dirty == Range(s.geo.yres - 1, 0) && !s'.marked && s'.tracked == []
    ensures var f := Flushed(WithPages(s.dirty, s.tracked, 2 * s.geo.width, s.geo.yres), s.geo.yres);
            && (forall c :: c in s.vmem && f.Has(c.line) ==> c in s'.panel && s'.panel[c] == s.vmem[c])
            && (forall c :: c in s.panel && !f.Has(c.line) ==> c in s'.panel && s'.panel[c] == s.panel[c])
  {
    var s1 := Apply(s, Wake);
    var s2 := Apply(s1, Snapshot);
    RunsOne(s, Wake);
    RunsOne(s1, Snapshot);
    RunsAppend(s, [Wake], s1, [Snapshot], s2);
    var rest;
    rest, s' := FinishCopy(s2);
    actions := [Wake] + [Snapshot] + rest;
    RunsAppend(s, [Wake] + [Snapshot], s2, rest, s');
  }

  lemma {:induction false} FinishCalls(s: State) returns (actions: seq<Action>, s': State)
    ensures Runs(s, actions, s')
    ensures s'.writers == map[] && s'.geo == s.geo && s'.vmem == s.vmem && s'.worker == s.worker
    ensures s'.lastLineWritten == s.lastLineWritten
    decreases |s.writers|
  {
    if s.writers == map[] {
      return [], s;
    }
    var t :| t in s.writers;
    var s1, first := s, [];
    if s.writers[t].Drawing? {
      s1, first := Apply(s, Mark(t)), [Mark(t)];
      RunsOne(s, Mark(t));
    }
    var s2 := Apply(s1, Schedule(t));
    RunsOne(s1, Schedule(t));
    RunsAppend(s, first, s1, [Schedule(t)], s2);
    assert s2.writers.Keys == s.writers.Keys - {t};
    assert |s2.writers| == |s2.writers.Keys| < |s.writers.Keys| == |s.writers|;
    var rest;
    rest, s' := FinishCalls(s2);
    actions := first + [Schedule(t)] + rest;
    RunsAppend(s, first + [Schedule(t)], s2, rest, s');
  }

  lemma FinishWork(s: State) returns (actions: seq<Action>, s': State)
    requires Inv(s) && !s.worker.Idle?
    ensures Runs(s, actions, s') && s'.worker.Idle?
    ensures s'.writers == s.writers && s'.geo == s.geo && s'.vmem == s.vmem
    ensures s'.lastLineWritten == s.lastLineWritten
  {
    if s.worker.Woken? {
      var s1 := Apply(s, Snapshot);
      RunsOne(s, Snapshot);
      var rest;
      rest, s' := FinishCopy(s1);
      actions := [Snapshot] + rest;
      RunsAppend(s, [Snapshot], s1, rest, s');
    } else {
      actions, s' := FinishCopy(s);
    }
  }

  /** Nothing blocks: from every reachable state the calls and the worker can all come to rest. */
  lemma CanSettle(geo: Geometry, before: seq<Action>, s: State) returns (actions: seq<Action>, s': State)
    requires geo.Valid() && Runs(Init(geo), before, s)
    ensures Runs(s, actions, s') && Quiescent(s')
    ensures s'.vmem == s.vmem && s'.lastLineWritten == s.lastLineWritten
  {
    InitInv(geo);
    RunKeepsInv(Init(geo), before, s);
    actions, s' := FinishCalls(s);
    RunKeepsInv(s, actions, s');
    if !s'.worker.Idle? {
      var more, s2 := FinishWork(s');
      RunsAppend(s, actions, s', more, s2);
      actions, s' := actions + more, s2;
    }
    if s'.pending {
      var more, s2 := FlushOnce(s');
      RunsAppend(s, actions, s', more, s2);
      actions, s' := actions + more, s2;
    }
  }

  /**
   * On screens of two lines or more there is a run, a single write call followed by the flush it
   * schedules, after which nothing is left to do and the last line still shows the old pixel.
   */
  lemma LastLineStaysStale(geo: Geometry) returns (actions: seq<Action>, s: State)
    requires geo.Valid() && geo.yres >= 2
    ensures Runs(Init(geo), actions, s) && Quiescent(s)
    ensures var c := Cell(geo.yres - 1, 0); c in s.vmem && c in s.panel && s.panel[c] != s.vmem[c]
  {
    var c := Cell(geo.yres - 1, 0);
    var s0 := Init(geo);
    var s1 := Apply(s0, Begin(0, -1, 0));
    assert c in geo.Cells();
    var s2 := Apply(s1, Draw(0, c, 1));
    var s3 := Apply(s2, Mark(0));
    var s4 := Apply(s3, Schedule(0));
    RunsOne(s3, Schedule(0));
    RunsOne(s2, Mark(0));
    RunsAppend(s2, [Mark(0)], s3, [Schedule(0)], s4);
    RunsOne(s1, Draw(0, c, 1));
    RunsAppend(s1, [Draw(0, c, 1)], s2, [Mark(0)] + [Schedule(0)], s4);
    RunsOne(s0, Begin(0, -1, 0));
    RunsAppend(s0, [Begin(0, -1, 0)], s1, [Draw(0, c, 1)] + ([Mark(0)] + [Schedule(0)]), s4);
    var first := [Begin(0, -1, 0)] + ([Draw(0, c, 1)] + ([Mark(0)] + [Schedule(0)]));
    var rest;
    rest, s := FlushOnce(s4);
    RunsAppend(s0, first, s4, rest, s);
    actions := first + rest;
  }

  // ---------------------------------------------------------------- what is drawn is what is shown

  /** The value of a cell after drawing calls and mapped stores have written to it in this order. */
  function Written(v: pixel, actions: seq<Action>, c: Cell): pixel
    decreases |actions|
  {
    if actions == [] then v
    else
      var u :=
        match actions[0]
        case Draw(_, d, w) => if d == c then w else v
        case Store(_, d, w) => if d == c then w else v
        case _ => v;
      Written(u, actions[1..], c)
  }

  /** Memory holds what was last written to it. */
  lemma {:induction false} MemoryIsWritten(s: State, actions: seq<Action>, s': State, c: Cell)
    requires Runs(s, actions, s') && c in s.vmem
    ensures c in s'.vmem && s'.vmem[c] == Written(s.vmem[c], actions, c)
    decreases |actions|
  {
    hide Apply, Enabled;
    if actions != [] {
      StepWrites(s, actions[0], c);
      MemoryIsWritten(Apply(s, actions[0]), actions[1..], s', c);
    }
  }

  lemma StepWrites(s: State, a: Action, c: Cell)
    requires Enabled(s, a) && c in s.vmem
    ensures c in Apply(s, a).vmem
    ensures Apply(s, a).vmem[c] == if (a.Draw? || a.Store?) && a.c == c then a.v else s.vmem[c]
  {
    hide Marked, Flushed, WithPages;
  }

  /** Once everything has settled each cell shows the value last written to it, from zero at the start. */
  lemma PanelShowsWritten(geo: Geometry, actions: seq<Action>, s: State, c: Cell)
    requires geo.Valid() && Runs(Init(geo), actions, s) && Quiescent(s)
    requires 0 <= c.line < geo.yres && 0 <= c.col < geo.width
    requires c.line == geo.yres - 1 && geo.yres >= 2 ==> forall a :: a in actions && a.Begin? ==> a.y != -1
    ensures c in s.panel && s.panel[c] == Written(0, actions, c)
  {
    assert c in geo.Cells();
    SettledIsCoherent(geo, actions, s);
    MemoryIsWritten(Init(geo), actions, s, c);
    InitInv(geo);
    RunKeepsInv(Init(geo), actions, s);
    GeometryIsFixed(Init(geo), actions, s);
    if c.line == geo.yres - 1 && geo.yres >= 2 {
      NoWriteCall(Init(geo), actions, s);
    }
  }

  /** At any time a new call on some lines may draw a pixel on one of them, and the pixel can reach the panel. */
  lemma CallReachesPanel(geo: Geometry, before: seq<Action>, s: State, t: nat, y: nat, height: nat, c: Cell, v: pixel)
    returns (actions: seq<Action>, s': State)
    requires geo.Valid() && Runs(Init(geo), before, s) && t !in s.writers
    requires y <= c.line < y + height && y + height <= geo.yres && 0 <= c.col < geo.width
    requires c.line == geo.yres - 1 ==> !s.lastLineWritten
    ensures Runs(s, [Begin(t, y, height), Draw(t, c, v)] + actions, s') && Quiescent(s')
    ensures c in s'.panel && s'.panel[c] == v
  {
    hide Inv, Marked, Flushed, WithPages;
    var start := [Begin(t, y, height), Draw(t, c, v)];
    GeometryIsFixed(Init(geo), before, s);
    assert c in geo.Cells();
    var s1 := Apply(s, Begin(t, y, height));
    var s2 := Apply(s1, Draw(t, c, v));
    RunsTwo(s, start[0], start[1]);
    actions, s' := ReachesPanel(geo, before, s, start, s2, c);
  }

  /** And so may a store through a page that holds part of the line. */
  lemma StoreReachesPanel(geo: Geometry, before: seq<Action>, s: State, p: nat, c: Cell, v: pixel)
    returns (actions: seq<Action>, s': State)
    requires geo.Valid() && Runs(Init(geo), before, s)
    requires 0 <= c.line < geo.yres && 0 <= c.col < geo.width
    requires exists b: nat :: ByteOf(b, p, 2 * geo.width, c.line)
    requires c.line == geo.yres - 1 ==> !s.lastLineWritten
    ensures Runs(s, [Touch(p), Store(p, c, v)] + actions, s') && Quiescent(s')
    ensures c in s'.panel && s'.panel[c] == v
  {
    hide Inv, Marked, Flushed, WithPages;
    var start := [Touch(p), Store(p, c, v)];
    GeometryIsFixed(Init(geo), before, s);
    OnPageExactly(p, 2 * geo.width, c.line);
    assert c in geo.Cells();
    var s1 := Apply(s, Touch(p));
    var s2 := Apply(s1, Store(p, c, v));
    RunsTwo(s, start[0], start[1]);
    actions, s' := ReachesPanel(geo, before, s, start, s2, c);
  }

  lemma RunsTwo(s: State, a: Action, b: Action)
    requires Enabled(s, a) && Enabled(Apply(s, a), b)
    ensures Runs(s, [a, b], Apply(Apply(s, a), b))
  {
    RunsOne(s, a);
    RunsOne(Apply(s, a), b);
    RunsAppend(s, [a], Apply(s, a), [b], Apply(Apply(s, a), b));
    assert [a] + [b] == [a, b];
  }

  lemma ReachesPanel(geo: Geometry, before: seq<Action>, s: State, start: seq<Action>, m: State, c: Cell)
    returns (actions: seq<Action>, s': State)
    requires geo.Valid() && Runs(Init(geo), before, s) && Runs(s, start, m) && c in m.vmem
    requires m.lastLineWritten == s.lastLineWritten
    requires c.line == geo.yres - 1 ==> !s.lastLineWritten
    ensures Runs(s, start + actions, s') && Quiescent(s')
    ensures c in s'.panel && s'.panel[c] == m.vmem[c]
  {
    hide Apply, Enabled, Runs;
    RunsAppend(Init(geo), before, s, start, m);
    actions, s' := CanSettle(geo, before + start, m);
    RunsAppend(s, start, m, actions, s');
    RunsAppend(Init(geo), before, s, start + actions, s');
    SettledIsCoherent(geo, before + (start + actions), s');
  }

  /** Whatever happened before, the line shows memory once everything has settled. */
  ghost predicate AlwaysShown(geo: Geometry, line: nat)
    requires geo.Valid()
  {
    forall actions, s | Runs(Init(geo), actions, s) && Quiescent(s) ::
      forall c | c in s.vmem && c.line == line :: c in s.panel && s.panel[c] == s.vmem[c]
  }

  /** Write-back coherence holds line by line exactly for every line but the last of a longer screen. */
  lemma CoherentLines(geo: Geometry, line: nat)
    requires geo.Valid() && line < geo.yres
    ensures AlwaysShown(geo, line) <==> line != geo.yres - 1 || geo.yres == 1
  {
    if line != geo.yres - 1 || geo.yres == 1 {
      forall actions, s | Runs(Init(geo), actions, s) && Quiescent(s)
        ensures forall c | c in s.vmem && c.line == line :: c in s.panel && s.panel[c] == s.vmem[c]
      {
        SettledIsCoherent(geo, actions, s);
        InitInv(geo);
        RunKeepsInv(Init(geo), actions, s);
        GeometryIsFixed(Init(geo), actions, s);
      }
    } else {
      var actions, s := LastLineStaysStale(geo);
      var c := Cell(line, 0);
      assert c in s.vmem && c.line == line && s.panel[c] != s.vmem[c];
    }
  }
}
