/**
 * Display initialisation programs: what they do, and the text that both interpreters of such programs put
 * together for every write, whether or not it is ever printed.
 */
module InitProgram {
  import opened Bytes
  import opened Hexadecimal

  /** What a program does to the display. */
  datatype Op = Write(values: seq<int>) | Delay(ms: int)

  /**
   * Why a program stops early. All but the last are reported as EINVAL. After an overrun, the text of a write
   * has been stored past the end of its buffer and nothing more is known.
   */
  datatype Error =
    | MissingStop
    | MissingDelimiter
    | MissingValue
    | TooManyValues
    | UnknownDelimiter
    | NoProperty
    | IllegalValue
    | Overrun

  /** The operations performed, and what cut the program short, if anything. */
  datatype Outcome = Outcome(ops: seq<Op>, error: Option<Error>)

  /** What stands at the head of the unread part of a program. */
  datatype Next<T> = Stop | Fail(error: Error) | Act(op: Op, rest: seq<T>)

  const MAX_VALUES: nat := 64

  function Also(op: Op, rest: Outcome): Outcome
  {
    Outcome([op] + rest.ops, rest.error)
  }

  predicate ValidOp(op: Op)
  {
    match op
    case Write(values) => 1 <= |values| && forall i :: 0 <= i < |values| ==> 0 <= values[i]
    case Delay(ms) => 0 <= ms
  }

  predicate ValidProgram(ops: seq<Op>)
  {
    forall i :: 0 <= i < |ops| ==> ValidOp(ops[i])
  }

  // ---------------------------------------------------------------- the text of a write

  /** The array interpreter prints "0x%02X " for every value but the first, the other one " %02X" for every value. */
  datatype Form = Array | DeviceTree

  /** Size of the text buffer, which holds a terminator as well. */
  const TEXT_SIZE: nat := 128

  /** Digits of one value. */
  function Width(v: int): (n: nat)
    ensures n >= 2
  {
    if v < 0 then 8 else |Hex(v, 2)|
  }

  /** Length of the text of some values, with `around` characters around the digits of each. */
  function TextOf(values: seq<int>, around: nat): nat
  {
    if values == [] then 0 else around + Width(values[0]) + TextOf(values[1..], around)
  }

  function TextLength(form: Form, values: seq<int>): nat
  {
    match form
    case Array => if values == [] then 0 else TextOf(values[1..], 3)
    case DeviceTree => TextOf(values, 1)
  }

  /** The text of a write fits its buffer. */
  predicate Printable(form: Form, op: Op)
  {
    op.Write? ==> TextLength(form, op.values) < TEXT_SIZE
  }

  predicate AllPrintable(form: Form, ops: seq<Op>)
  {
    forall i :: 0 <= i < |ops| ==> Printable(form, ops[i])
  }

  lemma {:induction false} TextSnoc(values: seq<int>, v: int, around: nat)
    ensures TextOf(values + [v], around) == TextOf(values, around) + around + Width(v)
  {
    hide Width;
    if values == [] {
      assert TextOf([v][1..], around) == 0;
      assert values + [v] == [v];
    } else {
      TextSnoc(values[1..], v, around);
      assert (values + [v])[1..] == values[1..] + [v];
    }
  }

  lemma {:induction false} TextAtLeast(values: seq<int>)
    ensures TextOf(values, 1) >= 3 * |values|
    ensures TextOf(values, 3) == TextOf(values, 1) + 2 * |values|
  {
    hide Width;
    if values != [] {
      TextAtLeast(values[1..]);
    }
  }

  /** A write whose text fits in the array form has at most 26 values. */
  lemma PrintableIsShort(values: seq<int>)
    requires Printable(Array, Write(values))
    ensures |values| <= 26
  {
    if values != [] {
      TextAtLeast(values[1..]);
    }
  }

  predicate Bytewide(values: seq<int>)
  {
    forall i :: 0 <= i < |values| ==> 0 <= values[i] < 256
  }

  lemma TwoDigits(v: int)
    requires 0 <= v < 256
    ensures Width(v) == 2
  {
    assert Pow16(2) == 16 * Pow16(1) == 256;
    HexLength(v, 2, 2);
  }

  /** A value takes two digits, or as many as it needs. */
  lemma WidthByNumber(v: int)
    requires 0 <= v < 0x1_0000
    ensures Width(v) == if v < 0x100 then 2 else if v < 0x1000 then 3 else 4
  {
    assert |Hex(v, 2)| == |Hex(v / 16, 1)| + 1;
    if v >= 0x100 {
      assert |Hex(v / 16, 1)| == |Hex(v / 16 / 16, 0)| + 1;
      if v >= 0x1000 {
        assert |Hex(v / 16 / 16, 0)| == |Hex(v / 16 / 16 / 16, 0)| + 1;
      }
    }
  }

  lemma {:induction false} BytewideText(values: seq<int>)
    requires Bytewide(values)
    ensures TextOf(values, 1) == 3 * |values|
  {
    hide Width;
    if values != [] {
      TwoDigits(values[0]);
      BytewideText(values[1..]);
    }
  }

  /** For one-byte values the limits are 26 and 42, both below the 64 the interpreters mean to allow. */
  lemma BytewideLimits(values: seq<int>)
    requires values != [] && Bytewide(values)
    ensures Printable(Array, Write(values)) <==> |values| <= 26
    ensures Printable(DeviceTree, Write(values)) <==> |values| <= 42
  {
    BytewideText(values);
    BytewideText(values[1..]);
    TextAtLeast(values[1..]);
  }

  lemma FourDigits(v: int)
    requires 0 <= v < 0x1_0000
    ensures Width(v) <= 4
  {
    assert Pow16(4) == 16 * (16 * Pow16(2)) && Pow16(2) == 256;
    HexLength(v, 2, 4);
  }

  lemma {:induction false} TextAtMost(values: seq<int>)
    requires forall i :: 0 <= i < |values| ==> 0 <= values[i] < 0x1_0000
    ensures TextOf(values, 1) <= 5 * |values|
  {
    hide Width;
    if values != [] {
      FourDigits(values[0]);
      TextAtMost(values[1..]);
    }
  }

  /** The array form is the tighter one. */
  lemma ArrayIsTighter(values: seq<int>)
    requires forall i :: 0 <= i < |values| ==> 0 <= values[i] < 0x1_0000
    requires Printable(Array, Write(values))
    ensures Printable(DeviceTree, Write(values))
  {
    hide Width;
    if values != [] {
      FourDigits(values[0]);
      TextAtLeast(values[1..]);
      TextAtMost(values[1..]);
    }
  }

  // ---------------------------------------------------------------- what comes of a program

  /** Operations are performed one after the other, up to the first write whose text overruns. */
  function Performed(form: Form, ops: seq<Op>): Outcome
  {
    if ops == [] then Outcome([], None)
    else if !Printable(form, ops[0]) then Outcome([], Some(Overrun))
    else Also(ops[0], Performed(form, ops[1..]))
  }

  lemma {:induction false} PerformedInFull(form: Form, ops: seq<Op>)
    ensures Performed(form, ops) == Outcome(ops, None) <==> AllPrintable(form, ops)
    ensures Performed(form, ops).error in {None, Some(Overrun)}
    ensures Performed(form, ops).error == Some(Overrun) <==> !AllPrintable(form, ops)
    decreases |ops|
  {
    hide Printable;
    if ops != [] {
      PerformedInFull(form, ops[1..]);
      assert ops == [ops[0]] + ops[1..];
      PrintableTail(form, ops);
    }
  }

  lemma PrintableTail(form: Form, ops: seq<Op>)
    requires ops != []
    ensures AllPrintable(form, ops) <==> Printable(form, ops[0]) && AllPrintable(form, ops[1..])
  {
    hide Printable;
    assert forall i :: 0 < i < |ops| ==> ops[i] == ops[1..][i - 1];
  }
}
