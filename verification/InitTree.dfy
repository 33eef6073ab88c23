/** The interpreter of display initialisation programs in a device-tree property. */
module InitTree {
  import opened Bytes
  import opened InitProgram
  import InitSequence

  const CMD: nat := 0x100_0000
  const DELAY: nat := 0x200_0000

  type cell = x: int | 0 <= x < 0x1_0000_0000

  predicate IsCommand(c: cell)
  {
    c / CMD % 2 == 1
  }

  predicate IsDelay(c: cell)
  {
    c / DELAY % 2 == 1
  }

  /** Number of leading cells without any of the upper sixteen bits. */
  function Plain(cells: seq<cell>): (n: nat)
    ensures n <= |cells|
    ensures forall i :: 0 <= i < n ==> cells[i] < 0x1_0000
    ensures n < |cells| ==> cells[n] >= 0x1_0000
  {
    if cells == [] || cells[0] >= 0x1_0000 then 0 else 1 + Plain(cells[1..])
  }

  function Head(cells: seq<cell>): (next: Next<cell>)
    ensures next.Act? ==> |next.rest| < |cells|
  {
    if cells == [] then Stop
    else if IsCommand(cells[0]) then
      var n := Plain(cells[1..]);
      var values := [cells[0] % 0x1_0000] + cells[1..1 + n];
      if |values| > MAX_VALUES then Fail(TooManyValues)
      else if TextLength(DeviceTree, values) >= TEXT_SIZE then Fail(Overrun)
      else Act(Write(values), cells[1 + n..])
    else if IsDelay(cells[0]) then Act(Delay(cells[0] % 0x1_0000), cells[1..])
    else Fail(IllegalValue)
  }

  function Interpret(cells: seq<cell>): Outcome
    decreases |cells|
  {
    match Head(cells)
    case Stop => Outcome([], None)
    case Fail(error) => Outcome([], Some(error))
    case Act(op, rest) => Also(op, Interpret(rest))
  }

  /** Sixteen bits a value, and the number of values the interpreter means to allow. */
  predicate TreeOp(op: Op)
  {
    && ValidOp(op)
    && match op
       case Write(values) => |values| <= 64 && forall i :: 0 <= i < |values| ==> values[i] < 0x1_0000
       case Delay(ms) => ms < 0x1_0000
  }

  predicate TreeProgram(ops: seq<Op>)
  {
    forall i :: 0 <= i < |ops| ==> TreeOp(ops[i])
  }

  // ---------------------------------------------------------------- spelling

  function CellCount(op: Op): nat
  {
    match op
    case Write(values) => |values|
    case Delay(_) => 1
  }

  /** The cells start with the operation; of a tagged cell only the tag and the low sixteen bits matter. */
  predicate SpellsOp(cells: seq<cell>, op: Op)
  {
    && 1 <= CellCount(op) <= |cells|
    && match op
       case Write(values) =>
         IsCommand(cells[0]) && cells[0] % 0x1_0000 == values[0] && cells[1..|values|] == values[1..]
       case Delay(ms) =>
         !IsCommand(cells[0]) && IsDelay(cells[0]) && cells[0] % 0x1_0000 == ms
  }

  predicate Spells(cells: seq<cell>, ops: seq<Op>)
    decreases |ops|
  {
    if ops == [] then cells == []
    else SpellsOp(cells, ops[0]) && Spells(cells[CellCount(ops[0])..], ops[1..])
  }

  lemma TagIsNotPlain(c: cell)
    requires IsCommand(c) || IsDelay(c)
    ensures c >= 0x1_0000
  {
  }

  lemma SpelledStart(cells: seq<cell>, ops: seq<Op>)
    requires Spells(cells, ops) && cells != []
    ensures cells[0] >= 0x1_0000
  {
    hide IsCommand, IsDelay;
    TagIsNotPlain(cells[0]);
  }

  lemma PlainAre(cells: seq<cell>, n: nat)
    requires n <= |cells| && forall i :: 0 <= i < n ==> cells[i] < 0x1_0000
    requires n < |cells| ==> cells[n] >= 0x1_0000
    ensures Plain(cells) == n
  {
  }

  lemma HeadOfSpelledWrite(cells: seq<cell>, values: seq<int>)
    requires TreeOp(Write(values)) && SpellsOp(cells, Write(values))
    requires |values| < |cells| ==> cells[|values|] >= 0x1_0000
    ensures Head(cells) ==
            if Printable(DeviceTree, Write(values)) then Act(Write(values), cells[|values|..]) else Fail(Overrun)
  {
    hide IsCommand, IsDelay, Plain, TextLength;
    var n := |values| - 1;
    assert forall i :: 0 <= i < n ==> cells[1..][i] == cells[1..|values|][i];
    PlainAre(cells[1..], n);
    assert [cells[0] % 0x1_0000] + cells[1..1 + n] == values;
  }

  lemma HeadOfSpelled(cells: seq<cell>, op: Op)
    requires TreeOp(op) && SpellsOp(cells, op)
    requires CellCount(op) < |cells| ==> cells[CellCount(op)] >= 0x1_0000
    ensures Head(cells) == if Printable(DeviceTree, op) then Act(op, cells[CellCount(op)..]) else Fail(Overrun)
  {
    hide IsCommand, IsDelay, Plain, TextLength;
    match op
    case Write(values) =>
      hide Head;
      HeadOfSpelledWrite(cells, values);
    case Delay(ms) =>
  }

  /** A spelled program does what it says, up to the first write whose text overruns. */
  lemma {:induction false} InterpretSpelled(cells: seq<cell>, ops: seq<Op>)
    requires TreeProgram(ops) && Spells(cells, ops)
    ensures Interpret(cells) == Performed(DeviceTree, ops)
    decreases |ops|
  {
    hide TreeOp, SpellsOp, Head, Printable, CellCount;
    if ops == [] {
      Nothing();
    } else {
      var op := ops[0];
      CountIsWithin(cells, op);
      var tail := cells[CellCount(op)..];
      InterpretSpelled(tail, ops[1..]);
      if tail != [] {
        SpelledStart(tail, ops[1..]);
        assert tail[0] == cells[CellCount(op)];
      }
      HeadOfSpelled(cells, op);
    }
  }

  lemma CountIsWithin(cells: seq<cell>, op: Op)
    requires SpellsOp(cells, op)
    ensures 1 <= CellCount(op) <= |cells|
  {
  }

  lemma Nothing()
    ensures Head([]) == Stop
  {
  }

  /** Whatever is performed is a valid operation whose text fits, and the cells spell it. */
  lemma HeadIsSpelled(cells: seq<cell>)
    requires Head(cells).Act?
    ensures var next := Head(cells);
            && TreeOp(next.op) && Printable(DeviceTree, next.op)
            && SpellsOp(cells, next.op) && next.rest == cells[CellCount(next.op)..]
  {
    hide IsCommand, IsDelay, Plain, TextLength;
    if IsCommand(cells[0]) {
      var n := Plain(cells[1..]);
      var values := [cells[0] % 0x1_0000] + cells[1..1 + n];
      assert values[1..] == cells[1..1 + n];
      assert forall i :: 0 < i < |values| ==> values[i] == cells[1..][i - 1];
    }
  }

  lemma {:induction false} PerformsValid(cells: seq<cell>)
    ensures TreeProgram(Interpret(cells).ops) && AllPrintable(DeviceTree, Interpret(cells).ops)
    decreases |cells|
  {
    hide TreeOp, SpellsOp, Head, Printable;
    if Head(cells).Act? {
      HeadIsSpelled(cells);
      PerformsValid(Head(cells).rest);
    }
  }

  lemma {:induction false} AcceptedIsSpelled(cells: seq<cell>)
    requires Interpret(cells).error.None?
    ensures Spells(cells, Interpret(cells).ops)
    decreases |cells|
  {
    hide TreeOp, SpellsOp, Head, Printable;
    if Head(cells).Act? {
      var op, rest := Head(cells).op, Head(cells).rest;
      HeadIsSpelled(cells);
      AcceptedIsSpelled(rest);
      var ops := Interpret(cells).ops;
      assert ops[0] == op && ops[1..] == Interpret(rest).ops;
    } else {
      StopIsEnd(cells);
    }
  }

  lemma StopIsEnd(cells: seq<cell>)
    requires Head(cells).Stop?
    ensures cells == []
  {
    hide Plain, TextLength;
  }

  /** A property performs a program, all of it and nothing else, exactly if it spells it and every text fits. */
  lemma AcceptedExactly(cells: seq<cell>, ops: seq<Op>)
    ensures Interpret(cells) == Outcome(ops, None) <==>
            TreeProgram(ops) && AllPrintable(DeviceTree, ops) && Spells(cells, ops)
  {
    hide TreeProgram, AllPrintable, Spells, Interpret;
    if Interpret(cells) == Outcome(ops, None) {
      PerformsValid(cells);
      AcceptedIsSpelled(cells);
    }
    if TreeProgram(ops) && AllPrintable(DeviceTree, ops) && Spells(cells, ops) {
      InterpretSpelled(cells, ops);
      PerformedInFull(DeviceTree, ops);
    }
  }

  // ---------------------------------------------------------------- tags by number

  /**
   * A cell with bit 24 set, followed by plain cells up to the next tagged one or the end, is one write: of its low
   * sixteen bits and the plain cells, unless there are more than 64 values or their text does not fit 127 characters.
   */
  lemma CommandByNumber(c: cell, plain: seq<cell>, rest: seq<cell>)
    requires c / 0x100_0000 % 2 == 1
    requires forall i :: 0 <= i < |plain| ==> plain[i] < 0x1_0000
    requires rest != [] ==> rest[0] >= 0x1_0000
    ensures var values := [c % 0x1_0000] + plain;
            PropertyOutcome([c] + plain + rest) ==
            if |values| > 64 then Outcome([], Some(TooManyValues))
            else if TextLength(DeviceTree, values) > 127 then Outcome([], Some(Overrun))
            else Also(Write(values), Interpret(rest))
  {
    hide TextLength, Head;
    CommandHead(c, plain, rest);
  }

  lemma CommandHead(c: cell, plain: seq<cell>, rest: seq<cell>)
    requires c / 0x100_0000 % 2 == 1
    requires forall i :: 0 <= i < |plain| ==> plain[i] < 0x1_0000
    requires rest != [] ==> rest[0] >= 0x1_0000
    ensures var values := [c % 0x1_0000] + plain;
            Head([c] + plain + rest) ==
            if |values| > 64 then Fail(TooManyValues)
            else if TextLength(DeviceTree, values) > 127 then Fail(Overrun)
            else Act(Write(values), rest)
  {
    hide TextLength, Plain;
    var cells := [c] + plain + rest;
    assert cells[1..] == plain + rest;
    PlainAre(plain + rest, |plain|);
    assert cells[1..1 + |plain|] == plain && cells[1 + |plain|..] == rest;
  }

  /** A cell with bit 25 set and bit 24 clear is a delay of its low sixteen bits. */
  lemma DelayByNumber(c: cell, rest: seq<cell>)
    requires c / 0x100_0000 % 2 == 0 && c / 0x200_0000 % 2 == 1
    ensures PropertyOutcome([c] + rest) == Also(Delay(c % 0x1_0000), Interpret(rest))
  {
    hide TextLength, Plain;
    assert ([c] + rest)[1..] == rest;
  }

  /** A cell with neither bit set is an error where an operation should start. */
  lemma IllegalByNumber(c: cell, rest: seq<cell>)
    requires c / 0x100_0000 % 2 == 0 && c / 0x200_0000 % 2 == 0
    ensures PropertyOutcome([c] + rest) == Outcome([], Some(IllegalValue))
  {
    hide TextLength, Plain;
  }

  /** The end of the property ends the program, and a property of no cells at all is an error. */
  lemma EndByNumber()
    ensures Interpret([]) == Outcome([], None) && PropertyOutcome([]) == Outcome([], Some(NoProperty))
  {
  }

  /** The property of the single cell 0x010000AE writes register 0xAE. */
  lemma OneCommand()
    ensures PropertyOutcome([0x010000AE]) == Outcome([Write([0xAE])], None)
  {
    hide Interpret, TextLength, PropertyOutcome;
    var c: cell := 0x010000AE;
    assert [c] + [] + [] == [c] && [c % 0x1_0000] + [] == [0xAE];
    BytewideLimits([0xAE]);
    CommandByNumber(c, [], []);
    EndByNumber();
  }

  // ---------------------------------------------------------------- one encoding, and both forms compared

  function EncodeOp(op: Op): (e: seq<cell>)
    requires TreeOp(op)
    ensures |e| == CellCount(op)
  {
    match op
    case Write(values) => [CMD + values[0]] + values[1..]
    case Delay(ms) => [DELAY + ms]
  }

  function Encode(ops: seq<Op>): seq<cell>
    requires TreeProgram(ops)
  {
    if ops == [] then [] else EncodeOp(ops[0]) + Encode(ops[1..])
  }

  lemma Tagged(v: nat)
    requires v < 0x1_0000
    ensures IsCommand(CMD + v) && (CMD + v) % 0x1_0000 == v
    ensures !IsCommand(DELAY + v) && IsDelay(DELAY + v) && (DELAY + v) % 0x1_0000 == v
  {
  }

  lemma EncodedOp(op: Op, tail: seq<cell>)
    requires TreeOp(op)
    ensures SpellsOp(EncodeOp(op) + tail, op)
    ensures (EncodeOp(op) + tail)[CellCount(op)..] == tail
  {
    hide IsCommand, IsDelay;
    var cells := EncodeOp(op) + tail;
    match op
    case Write(values) =>
      Tagged(values[0]);
      assert cells[1..|values|] == values[1..];
    case Delay(ms) =>
      Tagged(ms);
  }

  lemma {:induction false} EncodedIsSpelled(ops: seq<Op>)
    requires TreeProgram(ops)
    ensures Spells(Encode(ops), ops)
    decreases |ops|
  {
    hide TreeOp, SpellsOp, EncodeOp, CellCount;
    if ops != [] {
      EncodedIsSpelled(ops[1..]);
      EncodedOp(ops[0], Encode(ops[1..]));
    }
  }

  /** What the driver does with the `init` property; a missing or empty one is an error. */
  function PropertyOutcome(cells: seq<cell>): Outcome
  {
    if cells == [] then Outcome([], Some(NoProperty)) else Interpret(cells)
  }

  lemma EncodedIsProperty(ops: seq<Op>)
    requires ops != [] && TreeProgram(ops)
    ensures Encode(ops) != [] && PropertyOutcome(Encode(ops)) == Performed(DeviceTree, ops)
  {
    hide Interpret, Performed, TreeOp, EncodeOp;
    EncodedIsSpelled(ops);
    InterpretSpelled(Encode(ops), ops);
    FirstCells(ops);
  }

  lemma FirstCells(ops: seq<Op>)
    requires ops != [] && TreeProgram(ops)
    ensures Encode(ops) != []
  {
    assert TreeOp(ops[0]);
  }

  lemma TighterProgram(ops: seq<Op>)
    requires TreeProgram(ops) && AllPrintable(Array, ops)
    ensures AllPrintable(DeviceTree, ops)
  {
    hide TextLength;
    forall i | 0 <= i < |ops| ensures Printable(DeviceTree, ops[i]) {
      assert TreeOp(ops[i]) && Printable(Array, ops[i]);
      if ops[i].Write? {
        ArrayIsTighter(ops[i].values);
      }
    }
  }

  /**
   * A program of writes of 1 to 64 values below 2^16 and delays, in either form: it is performed up to the first
   * write whose text overruns, so in full exactly if every text fits; and where the array form works, the
   * device-tree form does too.
   */
  lemma FormsAgree(ops: seq<Op>, beyond: seq<int>)
    requires ops != [] && TreeProgram(ops)
    requires |InitSequence.Encode(ops)| <= 512
    ensures var inArray := InitSequence.ArrayOutcome(InitSequence.Encode(ops) + beyond);
            var inTree := PropertyOutcome(Encode(ops));
            && inArray == Performed(Array, ops) && inTree == Performed(DeviceTree, ops)
            && (inArray == Outcome(ops, None) <==> AllPrintable(Array, ops))
            && (inTree == Outcome(ops, None) <==> AllPrintable(DeviceTree, ops))
            && (inArray == Outcome(ops, None) ==> inTree == Outcome(ops, None))
  {
    hide Interpret, InitSequence.Interpret, Performed, PropertyOutcome;
    assert ValidProgram(ops) by {
      forall i | 0 <= i < |ops| ensures ValidOp(ops[i]) {
        assert TreeOp(ops[i]);
      }
    }
    ArrayIsPerformed(ops, beyond);
    EncodedIsProperty(ops);
    PerformedInFull(Array, ops);
    PerformedInFull(DeviceTree, ops);
    if AllPrintable(Array, ops) {
      TighterProgram(ops);
    }
  }

  lemma ArrayIsPerformed(ops: seq<Op>, beyond: seq<int>)
    requires ValidProgram(ops) && |InitSequence.Encode(ops)| <= 512
    ensures InitSequence.ArrayOutcome(InitSequence.Encode(ops) + beyond) == Performed(Array, ops)
  {
    hide InitSequence.Interpret, Performed;
    InitSequence.InterpretEncode(ops, beyond);
    InitSequence.StopIsLast(ops);
    var e := InitSequence.Encode(ops);
    assert (e + beyond)[|e| - 1] == InitSequence.STOP;
  }

  /** One write of 27 zeros in an array, and one of 43 in a property, overrun the text buffer. */
  lemma OverrunsExist(few: seq<int>, many: seq<int>, beyond: seq<int>)
    requires |few| == 27 && |many| == 43
    requires (forall i :: 0 <= i < 27 ==> few[i] == 0) && forall i :: 0 <= i < 43 ==> many[i] == 0
    ensures InitSequence.ArrayOutcome(InitSequence.Encode([Write(few)]) + beyond) == Outcome([], Some(Overrun))
    ensures PropertyOutcome(Encode([Write(many)])) == Outcome([], Some(Overrun))
  {
    hide Interpret, InitSequence.Interpret, PropertyOutcome, TextLength;
    BytewideLimits(few);
    BytewideLimits(many);
    assert InitSequence.Encode([Write(few)]) == InitSequence.EncodeOp(Write(few)) + InitSequence.Encode([]);
    ArrayIsPerformed([Write(few)], beyond);
    EncodedIsProperty([Write(many)]);
  }

  // ---------------------------------------------------------------- the driver

  method InitDisplayDt(cells: seq<cell>) returns (r: Outcome)
    ensures r == PropertyOutcome(cells)
  {
    hide Interpret, Head, Plain, IsCommand, IsDelay, TextLength;
    if cells == [] {
      return Outcome([], Some(NoProperty));
    }
    var ops: seq<Op> := [];
    var p := 0;
    Begin(cells);
    while p < |cells|
      invariant 0 <= p <= |cells| && RanTo(cells, p, ops)
    {
      HeadFrom(cells, p);
      if IsCommand(cells[p]) {
        var buf, next := ReadCells(cells, p);
        if buf.None? {
          Finish(cells, p, ops);
          return Outcome(ops, Some(TooManyValues));
        }
        var len := BuildText(buf.value);
        if len >= TEXT_SIZE {
          Finish(cells, p, ops);
          return Outcome(ops, Some(Overrun));
        }
        Advance(cells, p, ops, Write(buf.value), next);
        ops := ops + [Write(buf.value)];
        p := next;
      } else if IsDelay(cells[p]) {
        Advance(cells, p, ops, Delay(cells[p] % 0x1_0000), p + 1);
        ops := ops + [Delay(cells[p] % 0x1_0000)];
        p := p + 1;
      } else {
        Finish(cells, p, ops);
        return Outcome(ops, Some(IllegalValue));
      }
    }
    HeadAtEnd(cells);
    Finish(cells, p, ops);
    r := Outcome(ops, None);
  }

  /** The loop that builds the text of a write, however long the buffer is. */
  method BuildText(values: seq<int>) returns (len: nat)
    ensures len == TextLength(DeviceTree, values)
  {
    hide Width;
    len := 0;
    for j := 0 to |values|
      invariant len == TextOf(values[..j], 1)
    {
      TextSnoc(values[..j], values[j], 1);
      assert values[..j + 1] == values[..j] + [values[j]];
      len := len + 1 + Width(values[j]);
    }
    assert values[..|values|] == values;
  }

  /** The inner loop of a command at position p: the command, with its tag removed, and the plain cells behind it. */
  method ReadCells(cells: seq<cell>, p: nat) returns (buf: Option<seq<int>>, next: nat)
    requires p < |cells|
    ensures p < next <= |cells|
    ensures buf.Some? ==> Plain(cells[p + 1..]) == next - p - 1 < MAX_VALUES
    ensures buf.Some? ==> buf.value == [cells[p] % 0x1_0000] + cells[p + 1..next]
    ensures buf.None? ==> Plain(cells[p + 1..]) >= MAX_VALUES
  {
    var values: seq<int> := [];
    var val := cells[p] % 0x1_0000;
    next := p;
    while next < |cells| && val < 0x1_0000
      invariant p <= next <= |cells| && next - p == |values| <= MAX_VALUES
      invariant next == p ==> val == cells[p] % 0x1_0000
      invariant p < next < |cells| ==> val == cells[next]
      invariant p < next ==> values == [cells[p] % 0x1_0000] + cells[p + 1..next]
      invariant forall k :: p < k < next ==> cells[k] < 0x1_0000
      decreases |cells| - next
    {
      if |values| > 63 {
        MorePlain(cells[p + 1..], MAX_VALUES);
        return None, next;
      }
      values := values + [val];
      next := next + 1;
      if next < |cells| {
        val := cells[next];
      }
    }
    PlainAre(cells[p + 1..], next - p - 1);
    buf := Some(values);
  }

  lemma MorePlain(cells: seq<cell>, n: nat)
    requires n <= |cells| && forall i :: 0 <= i < n ==> cells[i] < 0x1_0000
    ensures Plain(cells) >= n
  {
  }

  ghost predicate RanTo(cells: seq<cell>, p: nat, ops: seq<Op>)
    requires p <= |cells|
  {
    Interpret(cells) == Outcome(ops + Interpret(cells[p..]).ops, Interpret(cells[p..]).error)
  }

  lemma Begin(cells: seq<cell>)
    ensures RanTo(cells, 0, [])
  {
  }

  lemma HeadAtEnd(cells: seq<cell>)
    ensures Head(cells[|cells|..]) == Stop
  {
  }

  lemma HeadFrom(cells: seq<cell>, p: nat)
    requires p < |cells|
    ensures var n := Plain(cells[p + 1..]);
            var values := [cells[p] % 0x1_0000] + cells[p + 1..p + 1 + n];
            Head(cells[p..]) ==
            if IsCommand(cells[p]) then
              if |values| > MAX_VALUES then Fail(TooManyValues)
              else if TextLength(DeviceTree, values) >= TEXT_SIZE then Fail(Overrun)
              else Act(Write(values), cells[p + 1 + n..])
            else if IsDelay(cells[p]) then Act(Delay(cells[p] % 0x1_0000), cells[p + 1..])
            else Fail(IllegalValue)
  {
    hide IsCommand, IsDelay, TextLength;
    var s, n := cells[p..], Plain(cells[p + 1..]);
    assert s[1..] == cells[p + 1..];
    assert s[1..1 + n] == cells[p + 1..p + 1 + n];
    assert s[1 + n..] == cells[p + 1 + n..];
  }

  lemma Finish(cells: seq<cell>, p: nat, ops: seq<Op>)
    requires p <= |cells| && RanTo(cells, p, ops)
    requires !Head(cells[p..]).Act?
    ensures Interpret(cells) == Outcome(ops, if Head(cells[p..]).Stop? then None else Some(Head(cells[p..]).error))
  {
  }

  lemma Advance(cells: seq<cell>, p: nat, ops: seq<Op>, op: Op, next: nat)
    requires p <= next <= |cells| && RanTo(cells, p, ops)
    requires Head(cells[p..]) == Act(op, cells[next..])
    ensures RanTo(cells, next, ops + [op])
  {
  }
}
