/** The interpreter of display initialisation programs in a delimited integer array. */
module InitSequence {
  import opened Bytes
  import opened InitProgram

  const MAX_INIT_SEQUENCE: nat := 512
  const STOP: int := -3

  function EncodeOp(op: Op): (e: seq<int>)
    ensures e != [] && e[0] < 0
  {
    match op
    case Write(values) => [-1] + values
    case Delay(ms) => [-2, ms]
  }

  function Encode(ops: seq<Op>): (e: seq<int>)
    ensures e != [] && e[0] < 0
  {
    if ops == [] then [-3] else EncodeOp(ops[0]) + Encode(ops[1..])
  }

  /** Number of leading entries that are values. */
  function Values(s: seq<int>): (n: nat)
    ensures n <= |s|
    ensures forall i :: 0 <= i < n ==> 0 <= s[i]
    ensures n < |s| ==> s[n] < 0
  {
    if s == [] || s[0] < 0 then 0 else 1 + Values(s[1..])
  }

  lemma ValuesAre(s: seq<int>, n: nat)
    requires n <= |s| && forall i :: 0 <= i < n ==> 0 <= s[i]
    requires n < |s| ==> s[n] < 0
    ensures Values(s) == n
  {
  }

  /** Values are not the stop marker, so it lies behind them. */
  lemma StopBehind(s: seq<int>, n: nat)
    requires STOP in s && n <= |s| && forall i :: 0 <= i < n ==> s[i] != STOP
    ensures STOP in s[n..]
  {
  }

  /** What a write mark does with the entries behind it: the text comes first, then the values. */
  function AfterMark(behind: seq<int>): Next<int>
  {
    var n := Values(behind);
    if TextLength(Array, behind[..n]) >= TEXT_SIZE then Fail(Overrun)
    else if n > MAX_VALUES then Fail(TooManyValues)
    else Act(Write(behind[..n]), behind[n..])
  }

  function Head(s: seq<int>): (next: Next<int>)
    requires STOP in s
    ensures next.Act? ==> |next.rest| < |s| && STOP in next.rest
  {
    if s[0] == STOP then Stop
    else if s[0] >= 0 then Fail(MissingDelimiter)
    else
      StopBehind(s, 1);
      if s[1] < 0 then Fail(MissingValue)
      else if s[0] == -1 then
        StopBehind(s[1..], Values(s[1..]));
        AfterMark(s[1..])
      else if s[0] == -2 then
        StopBehind(s[1..], 1);
        Act(Delay(s[1]), s[1..][1..])
      else Fail(UnknownDelimiter)
  }

  /** The meaning of an array that contains a stop marker. */
  function Interpret(s: seq<int>): Outcome
    requires STOP in s
    decreases |s|
  {
    match Head(s)
    case Stop => Outcome([], None)
    case Fail(error) => Outcome([], Some(error))
    case Act(op, rest) => Also(op, Interpret(rest))
  }

  lemma StopInTail(front: seq<int>, tail: seq<int>)
    requires STOP in tail
    ensures STOP in front + tail
  {
  }

  lemma HeadOfWrite(s: seq<int>)
    requires STOP in s && s[0] == -1 && |s| > 1 && s[1] >= 0
    ensures Head(s) == AfterMark(s[1..])
  {
    hide Values, AfterMark;
  }

  lemma HeadOfDelay(s: seq<int>)
    requires STOP in s && s[0] == -2 && |s| > 1 && s[1] >= 0
    ensures Head(s) == Act(Delay(s[1]), s[1..][1..])
  {
    hide Values, AfterMark;
  }

  /** A write performs its values, unless its text overruns; there is no third possibility. */
  lemma AfterMarkOf(values: seq<int>, tail: seq<int>)
    requires 1 <= |values| && forall i :: 0 <= i < |values| ==> 0 <= values[i]
    requires tail == [] || tail[0] < 0
    ensures AfterMark(values + tail) ==
            if Printable(Array, Write(values)) then Act(Write(values), tail) else Fail(Overrun)
  {
    hide Values, TextLength;
    ValuesAre(values + tail, |values|);
    assert (values + tail)[..|values|] == values && (values + tail)[|values|..] == tail;
    if Printable(Array, Write(values)) {
      PrintableIsShort(values);
    }
  }

  lemma HeadOfEncoded(op: Op, tail: seq<int>)
    requires ValidOp(op) && STOP in tail && tail[0] < 0
    ensures STOP in EncodeOp(op) + tail
    ensures Head(EncodeOp(op) + tail) == if Printable(Array, op) then Act(op, tail) else Fail(Overrun)
  {
    hide Head, AfterMark, TextLength;
    StopInTail(EncodeOp(op), tail);
    var s := EncodeOp(op) + tail;
    match op
    case Write(values) =>
      assert s[1..] == values + tail;
      HeadOfWrite(s);
      AfterMarkOf(values, tail);
    case Delay(ms) =>
      assert s[1..][1..] == tail;
      HeadOfDelay(s);
  }

  lemma ActIsWriteOrDelay(s: seq<int>)
    requires STOP in s && Head(s).Act?
    ensures |s| > 1 && s[0] in {-1, -2} && s[1] >= 0
  {
    hide Values, AfterMark;
  }

  /** An operation is performed only if its text fits. */
  lemma AfterMarkActs(behind: seq<int>)
    requires AfterMark(behind).Act? && behind != [] && behind[0] >= 0
    ensures var next := AfterMark(behind);
            && next.op.Write? && ValidOp(next.op) && Printable(Array, next.op)
            && behind == next.op.values + next.rest
  {
    hide Values, TextLength;
    assert Values(behind) > 0;
  }

  lemma HeadIsEncoded(s: seq<int>)
    requires STOP in s && Head(s).Act?
    ensures ValidOp(Head(s).op) && Printable(Array, Head(s).op)
    ensures s == EncodeOp(Head(s).op) + Head(s).rest
  {
    hide AfterMark, Head, TextLength;
    ActIsWriteOrDelay(s);
    if s[0] == -1 {
      HeadOfWrite(s);
      AfterMarkActs(s[1..]);
      SplitWrite(s, Head(s).op.values, Head(s).rest);
    } else {
      HeadOfDelay(s);
      SplitDelay(s);
    }
  }

  lemma SplitWrite(s: seq<int>, values: seq<int>, rest: seq<int>)
    requires |s| > 1 && s[0] == -1 && s[1..] == values + rest
    ensures s == ([-1] + values) + rest
  {
    assert s == [-1] + s[1..];
  }

  lemma SplitDelay(s: seq<int>)
    requires |s| > 1 && s[0] == -2
    ensures s == [-2, s[1]] + s[1..][1..]
  {
  }

  /** A program in array form does what it says, up to the first write whose text overruns. */
  lemma {:induction false} InterpretEncode(ops: seq<Op>, beyond: seq<int>)
    requires ValidProgram(ops)
    ensures STOP in Encode(ops) + beyond
    ensures Interpret(Encode(ops) + beyond) == Performed(Array, ops)
    decreases |ops|
  {
    hide ValidOp, EncodeOp, Head, Printable;
    if ops == [] {
      assert (Encode(ops) + beyond)[0] == STOP;
      StopIsStop(Encode(ops) + beyond);
    } else {
      var op, tail := ops[0], Encode(ops[1..]) + beyond;
      InterpretEncode(ops[1..], beyond);
      HeadOfEncoded(op, tail);
      Associate(EncodeOp(op), Encode(ops[1..]), beyond);
      assert Encode(ops) + beyond == EncodeOp(op) + tail;
    }
  }

  lemma StopIsStop(s: seq<int>)
    requires s != [] && s[0] == STOP
    ensures STOP in s && Head(s) == Stop
  {
  }

  lemma StopOnly(s: seq<int>)
    requires STOP in s && Head(s) == Stop
    ensures s[0] == STOP
  {
  }

  /** Conversely, an accepted array starts with the array form of the program it performed. */
  lemma {:induction false} AcceptedIsEncoded(s: seq<int>)
    requires STOP in s && Interpret(s).error.None?
    ensures ValidProgram(Interpret(s).ops) && AllPrintable(Array, Interpret(s).ops)
    ensures Encode(Interpret(s).ops) <= s
    decreases |s|
  {
    hide ValidOp, EncodeOp, Head, Printable;
    if Head(s).Stop? {
      StopOnly(s);
    } else {
      var op, rest := Head(s).op, Head(s).rest;
      HeadIsEncoded(s);
      AcceptedIsEncoded(rest);
      var ops := Interpret(s).ops;
      assert ops[0] == op && ops[1..] == Interpret(rest).ops;
      PrefixBehind(EncodeOp(op), Encode(ops[1..]), rest);
    }
  }

  /** The entries of some operations, without a stop marker. */
  function Entries(ops: seq<Op>): seq<int>
  {
    if ops == [] then [] else EncodeOp(ops[0]) + Entries(ops[1..])
  }

  /** Even a faulty array only performs valid operations whose text fits, and exactly those its first entries say. */
  lemma {:induction false} PerformedIsPrefix(s: seq<int>)
    requires STOP in s
    ensures ValidProgram(Interpret(s).ops) && AllPrintable(Array, Interpret(s).ops)
    ensures Entries(Interpret(s).ops) <= s
    decreases |s|
  {
    hide ValidOp, EncodeOp, Head, Printable;
    if Head(s).Act? {
      var op, rest := Head(s).op, Head(s).rest;
      HeadIsEncoded(s);
      PerformedIsPrefix(rest);
      var ops := Interpret(s).ops;
      assert ops[0] == op && ops[1..] == Interpret(rest).ops;
      PrefixBehind(EncodeOp(op), Entries(ops[1..]), rest);
    }
  }

  lemma PrefixBehind(a: seq<int>, b: seq<int>, c: seq<int>)
    requires b <= c
    ensures a + b <= a + c
  {
  }

  /** An array is accepted exactly if it starts with a program in array form all of whose texts fit. */
  lemma AcceptedExactly(s: seq<int>)
    requires STOP in s
    ensures Interpret(s).error.None? <==>
            exists ops :: ValidProgram(ops) && AllPrintable(Array, ops) && Encode(ops) <= s
  {
    hide ValidProgram, AllPrintable, Interpret, Encode;
    if Interpret(s).error.None? {
      AcceptedIsEncoded(s);
    }
    forall ops | ValidProgram(ops) && AllPrintable(Array, ops) && Encode(ops) <= s ensures Interpret(s).error.None? {
      var beyond := s[|Encode(ops)|..];
      assert s == Encode(ops) + beyond;
      InterpretEncode(ops, beyond);
      PerformedInFull(Array, ops);
    }
  }

  lemma HeadNeverCounts(s: seq<int>)
    requires STOP in s
    ensures Head(s) != Fail(TooManyValues)
  {
    hide Values, TextLength;
    if s[0] == -1 && |s| > 1 && s[1] >= 0 {
      var behind := s[1..];
      if Printable(Array, Write(behind[..Values(behind)])) {
        PrintableIsShort(behind[..Values(behind)]);
      }
    }
  }

  /** The check for more than 64 values never gets to report anything: the text overruns before it. */
  lemma {:induction false} CountIsNeverReported(s: seq<int>)
    requires STOP in s
    ensures Interpret(s).error != Some(TooManyValues)
    decreases |s|
  {
    hide Head;
    HeadNeverCounts(s);
    if Head(s).Act? {
      CountIsNeverReported(Head(s).rest);
    }
  }

  lemma ValuesThen(s: seq<int>, t: seq<int>)
    requires STOP in s
    ensures Values(s) < |s| && Values(s + t) == Values(s)
  {
    StopBehind(s, Values(s));
    ValuesAre(s + t, Values(s));
  }

  function Followed(next: Next<int>, t: seq<int>): Next<int>
  {
    if next.Act? then next.(rest := next.rest + t) else next
  }

  lemma AfterMarkThen(behind: seq<int>, t: seq<int>)
    requires STOP in behind
    ensures AfterMark(behind + t) == Followed(AfterMark(behind), t)
  {
    hide Values, TextLength;
    ValuesThen(behind, t);
    var n := Values(behind);
    assert (behind + t)[..n] == behind[..n] && (behind + t)[n..] == behind[n..] + t;
  }

  lemma HeadThen(s: seq<int>, t: seq<int>)
    requires STOP in s
    ensures STOP in s + t && Head(s + t) == Followed(Head(s), t)
  {
    hide Values, AfterMark;
    if s[0] < 0 && s[0] != STOP {
      StopBehind(s, 1);
      assert (s + t)[1..] == s[1..] + t;
      if s[1] >= 0 && s[0] in {-1, -2} {
        WriteOrDelayThen(s, t);
      }
    }
  }

  lemma WriteOrDelayThen(s: seq<int>, t: seq<int>)
    requires STOP in s && STOP in s + t && |s| > 1 && s[0] in {-1, -2} && s[1] >= 0
    requires STOP in s[1..] && (s + t)[1..] == s[1..] + t
    ensures Head(s + t) == Followed(Head(s), t)
  {
    hide AfterMark, Head;
    if s[0] == -1 {
      HeadOfWrite(s);
      HeadOfWrite(s + t);
      AfterMarkThen(s[1..], t);
    } else {
      HeadOfDelay(s);
      HeadOfDelay(s + t);
      assert (s[1..] + t)[1..] == s[1..][1..] + t;
    }
  }

  /** Nothing behind a stop marker has any effect, whether the program before it is in order or not. */
  lemma {:induction false} NothingBehindStop(s: seq<int>, t: seq<int>)
    requires STOP in s
    ensures STOP in s + t && Interpret(s + t) == Interpret(s)
    decreases |s|
  {
    hide Head;
    HeadThen(s, t);
    if Head(s).Act? {
      NothingBehindStop(Head(s).rest, t);
    }
  }

  ghost predicate StopsWithin(mem: seq<int>)
  {
    exists k :: 0 <= k < MAX_INIT_SEQUENCE && k < |mem| && mem[k] == STOP
  }

  /** What the driver does with an array in memory. */
  ghost function ArrayOutcome(mem: seq<int>): Outcome
  {
    if StopsWithin(mem) then Interpret(mem) else Outcome([], Some(MissingStop))
  }

  /**
   * The array driver reads `mem` no further than its first stop marker, or MAX_INIT_SEQUENCE entries,
   * and its last statement, an error after the loop, is never reached.
   */
  method InitDisplay(mem: seq<int>) returns (r: Outcome)
    requires |mem| < MAX_INIT_SEQUENCE ==> STOP in mem
    ensures r == ArrayOutcome(mem)
  {
    hide Interpret, Head, Values, RanTo, NextIs;
    var i := 0;
    while i < MAX_INIT_SEQUENCE && mem[i] != STOP
      invariant 0 <= i <= MAX_INIT_SEQUENCE && i <= |mem|
      invariant forall k :: 0 <= k < i ==> mem[k] != STOP
    {
      i := i + 1;
    }
    if i == MAX_INIT_SEQUENCE {
      return Outcome([], Some(MissingStop));
    }
    r := Perform(mem, i);
  }

  /** The second half of the driver, once the first stop marker has been found. */
  method Perform(mem: seq<int>, ghost stop: nat) returns (r: Outcome)
    requires stop < MAX_INIT_SEQUENCE && stop < |mem|
    requires mem[stop] == STOP && forall k :: 0 <= k < stop ==> mem[k] != STOP
    ensures STOP in mem && r == Interpret(mem)
  {
    hide Interpret, Head, Values, RanTo, NextIs, TextLength;
    Begin(mem, stop);
    var ops: seq<Op> := [];
    var i := 0;
    while i < MAX_INIT_SEQUENCE
      invariant 0 <= i <= stop
      invariant RanTo(mem, i, ops)
      decreases stop - i
    {
      HeadAt(mem, i, stop);
      if mem[i] == STOP {
        Finish(mem, i, ops, None);
        return Outcome(ops, None);
      }
      if mem[i] >= 0 {
        Finish(mem, i, ops, Some(MissingDelimiter));
        return Outcome(ops, Some(MissingDelimiter));
      }
      if mem[i + 1] < 0 {
        Finish(mem, i, ops, Some(MissingValue));
        return Outcome(ops, Some(MissingValue));
      }
      if mem[i] == -1 {
        WriteAt(mem, i, stop);
        var len := BuildText(mem, i + 1, stop);
        if len >= TEXT_SIZE {
          Finish(mem, i, ops, Some(Overrun));
          return Outcome(ops, Some(Overrun));
        }
        var buf, next := ReadValues(mem, i + 1, stop);
        if buf.None? {
          Finish(mem, i, ops, Some(TooManyValues));
          return Outcome(ops, Some(TooManyValues));
        }
        Advance(mem, i, ops, Write(buf.value), next);
        ops := ops + [Write(buf.value)];
        i := next;
      } else if mem[i] == -2 {
        DelayAt(mem, i, stop);
        Advance(mem, i, ops, Delay(mem[i + 1]), i + 2);
        ops := ops + [Delay(mem[i + 1])];
        i := i + 2;
      } else {
        Finish(mem, i, ops, Some(UnknownDelimiter));
        return Outcome(ops, Some(UnknownDelimiter));
      }
    }
    assert false;
  }

  /** The loop that builds the text of a write: the length the text comes to, however long the buffer is. */
  method BuildText(mem: seq<int>, from: nat, ghost stop: nat) returns (len: nat)
    requires from < stop < |mem| && mem[stop] == STOP
    requires mem[from] >= 0
    ensures len == TextLength(Array, mem[from..from + Values(mem[from..])])
  {
    hide Width, Values;
    len := 0;
    var j := from + 1;
    while mem[j] >= 0
      invariant from < j <= stop
      invariant forall k :: from <= k < j ==> 0 <= mem[k]
      invariant len == TextOf(mem[from + 1..j], 3)
      decreases stop - j
    {
      TextSnoc(mem[from + 1..j], mem[j], 3);
      assert mem[from + 1..j + 1] == mem[from + 1..j] + [mem[j]];
      len := len + 3 + Width(mem[j]);
      j := j + 1;
    }
    ValuesAre(mem[from..], j - from);
    assert mem[from..j][1..] == mem[from + 1..j];
  }

  /** The inner loop of a write: its values and the index behind them, or nothing if they overrun the buffer. */
  method ReadValues(mem: seq<int>, from: nat, ghost stop: nat) returns (buf: Option<seq<int>>, next: nat)
    requires from <= stop < |mem| && mem[stop] == STOP
    requires mem[from] >= 0
    ensures from < next <= stop
    ensures buf.Some? ==> Values(mem[from..]) == next - from <= MAX_VALUES && buf.value == mem[from..next]
    ensures buf.None? ==> Values(mem[from..]) > MAX_VALUES
  {
    var values: seq<int> := [];
    next := from;
    while mem[next] >= 0
      invariant from <= next <= stop && next - from == |values| <= MAX_VALUES
      invariant values == mem[from..next]
      invariant forall k :: from <= k < next ==> 0 <= mem[k]
      decreases stop - next
    {
      if |values| > 63 {
        MoreValues(mem[from..], MAX_VALUES + 1);
        return None, next;
      }
      values := values + [mem[next]];
      next := next + 1;
    }
    ValuesAre(mem[from..], next - from);
    buf := Some(values);
  }

  lemma MoreValues(s: seq<int>, n: nat)
    requires n <= |s| && forall i :: 0 <= i < n ==> 0 <= s[i]
    ensures Values(s) >= n
  {
  }

  /** The operations so far, and then what the rest of the array does, are what the whole array does. */
  ghost predicate RanTo(mem: seq<int>, i: nat, ops: seq<Op>)
  {
    && i <= |mem| && STOP in mem && STOP in mem[i..]
    && Interpret(mem) == Outcome(ops + Interpret(mem[i..]).ops, Interpret(mem[i..]).error)
  }

  /** What the unread part of the array starts with. */
  ghost predicate NextIs(mem: seq<int>, i: nat, next: Next<int>)
  {
    i <= |mem| && STOP in mem[i..] && Head(mem[i..]) == next
  }

  lemma StopAhead(mem: seq<int>, i: nat, stop: nat)
    requires i <= stop < |mem| && mem[stop] == STOP
    ensures STOP in mem[i..]
  {
  }

  lemma HeadAt(mem: seq<int>, i: nat, stop: nat)
    requires i <= stop < |mem| && mem[stop] == STOP
    ensures mem[i] == STOP ==> NextIs(mem, i, Stop)
    ensures mem[i] >= 0 ==> NextIs(mem, i, Fail(MissingDelimiter))
    ensures mem[i] < 0 && mem[i] != STOP ==> i < stop
    ensures mem[i] < 0 && mem[i] != STOP && mem[i + 1] < 0 ==> NextIs(mem, i, Fail(MissingValue))
    ensures mem[i] < 0 && mem[i] != STOP && mem[i + 1] >= 0 ==> i + 1 < stop
    ensures mem[i] < 0 && mem[i] !in {STOP, -1, -2} && mem[i + 1] >= 0 ==> NextIs(mem, i, Fail(UnknownDelimiter))
  {
    hide Values, AfterMark;
    StopAhead(mem, i, stop);
  }

  lemma DelayAt(mem: seq<int>, i: nat, stop: nat)
    requires i < stop < |mem| && mem[stop] == STOP
    requires mem[i] == -2 && mem[i + 1] >= 0
    ensures i + 2 <= stop && NextIs(mem, i, Act(Delay(mem[i + 1]), mem[i + 2..]))
  {
    hide Head;
    StopAhead(mem, i, stop);
    HeadOfDelay(mem[i..]);
    assert mem[i..][1..][1..] == mem[i + 2..];
  }

  lemma Slices(mem: seq<int>, from: nat, n: nat)
    requires from + n <= |mem|
    ensures mem[from..][..n] == mem[from..from + n]
    ensures mem[from..][n..] == mem[from + n..]
  {
  }

  lemma MarkAt(mem: seq<int>, i: nat, stop: nat)
    requires i < stop < |mem| && mem[stop] == STOP
    requires mem[i] == -1 && mem[i + 1] >= 0
    ensures NextIs(mem, i, AfterMark(mem[i + 1..]))
  {
    hide Head, AfterMark;
    StopAhead(mem, i, stop);
    HeadOfWrite(mem[i..]);
    assert mem[i..][1..] == mem[i + 1..];
  }

  lemma WriteAt(mem: seq<int>, i: nat, stop: nat)
    requires i < stop < |mem| && mem[stop] == STOP
    requires mem[i] == -1 && mem[i + 1] >= 0
    ensures var n := Values(mem[i + 1..]);
            var values := mem[i + 1..i + 1 + n];
            NextIs(mem, i, if TextLength(Array, values) >= TEXT_SIZE then Fail(Overrun)
                           else if n > MAX_VALUES then Fail(TooManyValues)
                           else Act(Write(values), mem[i + 1 + n..]))
  {
    hide Head, Values, NextIs, TextLength;
    MarkAt(mem, i, stop);
    Slices(mem, i + 1, Values(mem[i + 1..]));
  }

  lemma Begin(mem: seq<int>, stop: nat)
    requires stop < |mem| && mem[stop] == STOP
    ensures STOP in mem && RanTo(mem, 0, [])
  {
  }

  lemma Finish(mem: seq<int>, i: nat, ops: seq<Op>, error: Option<Error>)
    requires RanTo(mem, i, ops)
    requires NextIs(mem, i, if error.None? then Stop else Fail(error.value))
    ensures STOP in mem && Interpret(mem) == Outcome(ops, error)
  {
  }

  lemma Advance(mem: seq<int>, i: nat, ops: seq<Op>, op: Op, next: nat)
    requires RanTo(mem, i, ops) && next <= |mem|
    requires NextIs(mem, i, Act(op, mem[next..]))
    ensures RanTo(mem, next, ops + [op])
  {
    hide Head;
    assert Interpret(mem[i..]) == Also(op, Interpret(mem[next..]));
    Associate(ops, [op], Interpret(mem[next..]).ops);
  }

  lemma {:induction false} StopIsLast(ops: seq<Op>)
    ensures Encode(ops)[|Encode(ops)| - 1] == STOP
    decreases |ops|
  {
    hide EncodeOp;
    if ops != [] {
      StopIsLast(ops[1..]);
      var e := Encode(ops);
      assert e == EncodeOp(ops[0]) + Encode(ops[1..]);
      assert e[|e| - 1] == Encode(ops[1..])[|Encode(ops[1..])| - 1];
    }
  }

  lemma {:induction false} InterpretFindsStop(s: seq<int>)
    requires STOP in s
    ensures Interpret(s).error != Some(MissingStop)
    decreases |s|
  {
    hide Head;
    HeadFindsStop(s);
    if Head(s).Act? {
      InterpretFindsStop(Head(s).rest);
    }
  }

  lemma HeadFindsStop(s: seq<int>)
    requires STOP in s
    ensures Head(s) != Fail(MissingStop)
  {
    hide Values, TextLength;
  }

  /** An array is rejected for want of a stop marker exactly if none of its first 512 entries is -3. */
  lemma MissingStopByNumber(mem: seq<int>)
    ensures ArrayOutcome(mem) == Outcome([], Some(MissingStop)) <==>
            forall k :: 0 <= k < 512 && k < |mem| ==> mem[k] != -3
  {
    hide Interpret;
    if StopsWithin(mem) {
      InterpretFindsStop(mem);
    }
  }

  /** Marks by number: -1 writes the values behind it, -2 delays by the next entry, -3 stops. */
  lemma MarksByNumber(values: seq<int>, ms: int, beyond: seq<int>)
    requires values != [] && |values| <= 26 && (forall i :: 0 <= i < |values| ==> 0 <= values[i] < 256) && 0 <= ms
    ensures ArrayOutcome([-1] + values + [-2, ms, -3] + beyond) == Outcome([Write(values), Delay(ms)], None)
  {
    hide Interpret, Head, TextLength, StopsWithin;
    var ops := [Write(values), Delay(ms)];
    BytewideLimits(values);
    TwoOps(values, ms);
    InterpretEncode(ops, beyond);
    PerformedInFull(Array, ops);
    var mem := [-1] + values + [-2, ms, -3] + beyond;
    assert mem == Encode(ops) + beyond;
    StopAt(mem, |values| + 3);
  }

  lemma TwoOps(values: seq<int>, ms: int)
    ensures Encode([Write(values), Delay(ms)]) == [-1] + values + [-2, ms, -3]
  {
    var ops := [Write(values), Delay(ms)];
    assert ops[1..] == [Delay(ms)] && ops[1..][1..] == [];
    assert Encode(ops[1..]) == [-2, ms] + Encode([]) == [-2, ms, -3];
    assert Encode(ops) == ([-1] + values) + Encode(ops[1..]);
  }

  lemma StopAt(mem: seq<int>, k: nat)
    requires k < MAX_INIT_SEQUENCE && k < |mem| && mem[k] == STOP
    ensures StopsWithin(mem)
  {
  }
}
