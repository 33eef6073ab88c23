/** Parallel bus over single GPIO pins: the writer that only sets changed pins against the plain one. */
module GpioBus {
  import opened Bits
  import opened Bytes

  /** The width low bits of n, least significant first: the level of data pin i is bit i. */
  function Levels(n: nat, width: nat): (l: seq<bool>)
    ensures |l| == width
    decreases width
  {
    if width == 0 then [] else [n % 2 == 1] + Levels(n / 2, width - 1)
  }

  function AllLevels(words: seq<nat>, width: nat): (r: seq<seq<bool>>)
    ensures |r| == |words|
    ensures forall i :: 0 <= i < |r| ==> r[i] == Levels(words[i], width)
  {
    seq(|words|, i requires 0 <= i < |words| => Levels(words[i], width))
  }

  /** Equal levels mean equal words, so a panel that latches the levels has the data. */
  lemma {:induction false} LevelsDetermine(a: nat, b: nat, width: nat)
    requires Levels(a, width) == Levels(b, width)
    requires a < Pow2(width) && b < Pow2(width)
    ensures a == b
    decreases width
  {
    if width != 0 {
      assert Levels(a, width)[1..] == Levels(a / 2, width - 1);
      assert Levels(b, width)[1..] == Levels(b / 2, width - 1);
      assert Levels(a, width)[0] == Levels(b, width)[0];
      LevelsDetermine(a / 2, b / 2, width - 1);
    }
  }

  function PinLevels(pins: map<int, bool>, db: seq<int>): (l: seq<bool>)
    requires forall i :: 0 <= i < |db| ==> db[i] in pins
    ensures |l| == |db|
    ensures forall i :: 0 <= i < |db| ==> l[i] == pins[db[i]]
  {
    seq(|db|, i requires 0 <= i < |db| => pins[db[i]])
  }

  class Bus {
    const db: seq<int>
    const wr: int
    var pins: map<int, bool>
    var prevData: nat
    /** Levels of the data pins at every rising edge of /WR: what the panel latches. */
    ghost var latched: seq<seq<bool>>

    constructor (db: seq<int>, wr: int)
      requires forall i, j :: 0 <= i < j < |db| ==> db[i] != db[j]
      requires wr !in db
      ensures this.db == db && this.wr == wr && Wired() && InSync() && latched == []
      ensures prevData == 0
    {
      this.db := db;
      this.wr := wr;
      var all := (set i | 0 <= i < |db| :: db[i]) + {wr};
      pins := map p | p in all :: p == wr;
      prevData := 0;
      latched := [];
      new;
      ZeroLevels(|db|);
    }

    /** Distinct data pins, none of them the strobe. */
    predicate Wired()
      reads this
    {
      && (forall i, j :: 0 <= i < j < |db| ==> db[i] != db[j])
      && wr !in db && wr in pins
      && forall i :: 0 <= i < |db| ==> db[i] in pins
    }

    /** The pins carry the word the driver remembers. */
    predicate InSync()
      requires Wired()
      reads this
    {
      forall i :: 0 <= i < |db| ==> pins[db[i]] == Levels(prevData, |db|)[i]
    }

    ghost function Now(): seq<bool>
      requires Wired()
      reads this
    {
      PinLevels(pins, db)
    }

    method SetValue(pin: int, level: bool)
      requires Wired() && pin in pins
      modifies this`pins, this`latched
      ensures pins == old(pins)[pin := level]
      ensures latched == if pin == wr && level && !old(pins[wr]) then old(latched) + [old(Now())] else old(latched)
      ensures Wired()
    {
      if pin == wr && level && !pins[wr] {
        latched := latched + [Now()];
      }
      pins := pins[pin := level];
    }

    /** One word of the optimised writer: pins whose bit did not change are left alone. */
    method WriteWord(word: nat)
      requires Wired() && InSync()
      modifies this
      ensures Wired() && InSync() && prevData == word
      ensures latched == old(latched) + [Levels(word, |db|)]
    {
      var data, prev := word, prevData;
      SetValue(wr, false);
      if data == prev {
        SetValue(wr, false);
      } else {
        ghost var want, have := Levels(word, |db|), Levels(prev, |db|);
        var i := 0;
        while i < |db|
          invariant 0 <= i <= |db| && Wired() && !pins[wr] && latched == old(latched) && prevData == old(prevData)
          invariant Levels(data, |db| - i) == want[i..] && Levels(prev, |db| - i) == have[i..]
          invariant forall k :: 0 <= k < i ==> pins[db[k]] == want[k]
          invariant forall k :: i <= k < |db| ==> pins[db[k]] == have[k]
        {
          assert want[i..][0] == want[i] && have[i..][0] == have[i];
          assert want[i..][1..] == want[i + 1..] && have[i..][1..] == have[i + 1..];
          if (data % 2 == 1) != (prev % 2 == 1) {
            SetValue(db[i], data % 2 == 1);
          }
          data := data / 2;
          prev := prev / 2;
          i := i + 1;
        }
      }
      assert Now() == Levels(word, |db|);
      SetValue(wr, true);
      prevData := word;
    }

    /** One word of the plain writer: every data pin is set. */
    method WriteWordPlain(word: nat)
      requires Wired()
      modifies this`pins, this`latched
      ensures Wired()
      ensures latched == old(latched) + [Levels(word, |db|)]
      ensures forall k :: 0 <= k < |db| ==> pins[db[k]] == Levels(word, |db|)[k]
    {
      var data := word;
      SetValue(wr, false);
      ghost var want := Levels(word, |db|);
      for i := 0 to |db|
        invariant Wired() && !pins[wr] && latched == old(latched)
        invariant Levels(data, |db| - i) == want[i..]
        invariant forall k :: 0 <= k < i ==> pins[db[k]] == want[k]
      {
        assert want[i..][0] == want[i] && want[i..][1..] == want[i + 1..];
        SetValue(db[i], data % 2 == 1);
        data := data / 2;
      }
      assert Now() == Levels(word, |db|);
      SetValue(wr, true);
    }

    /** Eight data pins: one strobe a byte, each latching the next byte of the buffer. */
    method WriteGpio8(buf: bytes)
      requires |db| == 8 && Wired() && InSync()
      modifies this
      ensures Wired() && InSync()
      ensures latched == old(latched) + AllLevels(Bytewise(buf), 8)
      ensures buf != [] ==> prevData == buf[|buf| - 1]
      ensures buf == [] ==> prevData == old(prevData)
    {
      hide Levels;
      var at := 0;
      ghost var all := AllLevels(Bytewise(buf), 8);
      while at < |buf|
        invariant 0 <= at <= |buf| && Wired() && InSync()
        invariant latched == old(latched) + all[..at]
        invariant prevData == if at == 0 then old(prevData) else buf[at - 1]
      {
        WriteWord(buf[at]);
        assert all[..at + 1] == all[..at] + [all[at]];
        at := at + 1;
      }
      assert all[..at] == all;
    }

    method WriteGpio8Plain(buf: bytes)
      requires |db| == 8 && Wired()
      modifies this`pins, this`latched
      ensures Wired()
      ensures latched == old(latched) + AllLevels(Bytewise(buf), 8)
    {
      hide Levels;
      var at := 0;
      ghost var all := AllLevels(Bytewise(buf), 8);
      while at < |buf|
        invariant 0 <= at <= |buf| && Wired()
        invariant latched == old(latched) + all[..at]
      {
        WriteWordPlain(buf[at]);
        assert all[..at + 1] == all[..at] + [all[at]];
        at := at + 1;
      }
      assert all[..at] == all;
    }

    /** Sixteen data pins: one strobe for every two bytes, read as a little-endian word. */
    method WriteGpio16(buf: bytes)
      requires |db| == 16 && |buf| % 2 == 0 && Wired() && InSync()
      modifies this
      ensures Wired() && InSync()
      ensures latched == old(latched) + AllLevels(Wordwise(buf), 16)
      ensures prevData == if buf == [] then old(prevData) else Wordwise(buf)[|buf| / 2 - 1]
    {
      hide Levels;
      var i, len := 0, |buf|;
      ghost var all := AllLevels(Wordwise(buf), 16);
      while len > 0
        invariant 0 <= i && 0 <= len && 2 * i + len == |buf| && Wired() && InSync()
        invariant latched == old(latched) + all[..i]
        invariant prevData == if i == 0 then old(prevData) else Wordwise(buf)[i - 1]
      {
        WriteWord(Word(buf[2 * i], buf[2 * i + 1]));
        assert all[..i + 1] == all[..i] + [all[i]];
        i := i + 1;
        len := len - 2;
      }
      assert all[..i] == all;
    }

    method WriteGpio16Plain(buf: bytes)
      requires |db| == 16 && |buf| % 2 == 0 && Wired()
      modifies this`pins, this`latched
      ensures Wired()
      ensures latched == old(latched) + AllLevels(Wordwise(buf), 16)
    {
      hide Levels;
      var i, len := 0, |buf|;
      ghost var all := AllLevels(Wordwise(buf), 16);
      while len > 0
        invariant 0 <= i && 0 <= len && 2 * i + len == |buf| && Wired()
        invariant latched == old(latched) + all[..i]
      {
        WriteWordPlain(Word(buf[2 * i], buf[2 * i + 1]));
        assert all[..i + 1] == all[..i] + [all[i]];
        i := i + 1;
        len := len - 2;
      }
      assert all[..i] == all;
    }
  }

  lemma {:induction false} ZeroLevels(width: nat)
    ensures forall i :: 0 <= i < width ==> !Levels(0, width)[i]
    decreases width
  {
    if width != 0 {
      ZeroLevels(width - 1);
    }
  }

  function Bytewise(buf: bytes): (w: seq<nat>)
    ensures |w| == |buf|
    ensures forall i :: 0 <= i < |w| ==> w[i] == buf[i]
  {
    seq(|buf|, i requires 0 <= i < |buf| => buf[i])
  }

  /** A little-endian 16-bit word. */
  function Word(low: byte, high: byte): nat
  {
    var l: nat, h: nat := low, high;
    l + 256 * h
  }

  function Wordwise(buf: bytes): (w: seq<nat>)
    requires |buf| % 2 == 0
    ensures |w| == |buf| / 2
    ensures forall i :: 0 <= i < |w| ==> w[i] == Word(buf[2 * i], buf[2 * i + 1])
  {
    seq(|buf| / 2, i requires 0 <= i < |buf| / 2 => Word(buf[2 * i], buf[2 * i + 1]))
  }

  /** Pin k of eight has bit k of the byte. */
  lemma ByteOnPins(buf: bytes, i: nat, k: nat)
    requires i < |buf| && k < 8
    ensures AllLevels(Bytewise(buf), 8)[i][k] <==> buf[i] / Pow2(k) % 2 == 1
  {
    hide Levels;
    LevelIsBit(buf[i], 8, k);
  }

  /** Pin k of sixteen has bit k of the even byte below eight, and bit k - 8 of the odd byte behind it from there on. */
  lemma WordOnPins(buf: bytes, i: nat, k: nat)
    requires |buf| % 2 == 0 && 2 * i + 1 < |buf| && k < 16
    ensures AllLevels(Wordwise(buf), 16)[i][k] <==>
            if k < 8 then buf[2 * i] / Pow2(k) % 2 == 1 else buf[2 * i + 1] / Pow2(k - 8) % 2 == 1
  {
    hide Levels;
    LevelIsBit(Word(buf[2 * i], buf[2 * i + 1]), 16, k);
    WordBits(buf[2 * i], buf[2 * i + 1], k);
  }

  lemma {:induction false} LevelIsBit(n: nat, width: nat, k: nat)
    requires k < width
    ensures Levels(n, width)[k] <==> n / Pow2(k) % 2 == 1
    decreases width
  {
    if k > 0 {
      LevelIsBit(n / 2, width - 1, k - 1);
      HalfQuotient(n, Pow2(k - 1));
    }
  }

  lemma WordBits(low: byte, high: byte, k: nat)
    requires k < 16
    ensures Word(low, high) / Pow2(k) % 2 == if k < 8 then low / Pow2(k) % 2 else high / Pow2(k - 8) % 2
  {
    hide Pow2;
    Pow2Of8();
    if k < 8 {
      LowBits(low, high, 8, k);
    } else {
      Pow2Add(8, k - 8);
      LowPart(low, high, Pow2(k - 8));
    }
  }

  /** A multiple of a higher power changes no lower bit. */
  lemma {:induction false} LowBits(low: nat, high: nat, n: nat, k: nat)
    requires k < n
    ensures (low + Pow2(n) * high) / Pow2(k) % 2 == low / Pow2(k) % 2
    decreases n
  {
    var half := Pow2(n - 1) * high;
    assert Pow2(n) * high == 2 * half;
    if k == 0 {
      EvenPart(low, half);
    } else {
      LowBits(low / 2, high, n - 1, k - 1);
      HalfSum(low, half);
      HalfQuotient(low + 2 * half, Pow2(k - 1));
      HalfQuotient(low, Pow2(k - 1));
    }
  }

  lemma HalfSum(a: nat, b: nat)
    ensures (a + 2 * b) / 2 == a / 2 + b
  {
  }

  lemma EvenPart(a: nat, b: nat)
    ensures (a + 2 * b) % 2 == a % 2
  {
  }

  lemma LowPart(low: byte, high: nat, p: nat)
    requires p >= 1
    ensures (low + 256 * high) / (256 * p) == high / p
  {
    var l: nat := low;
    var q, m := high / p, high % p;
    assert high == q * p + m;
    assert 256 * m + l < 256 * p;
    assert l + 256 * high == q * (256 * p) + (256 * m + l);
    QuotientIs(q, 256 * p, 256 * m + l);
  }

  lemma LatchAppend(a: bytes, b: bytes)
    ensures AllLevels(Bytewise(a + b), 8) == AllLevels(Bytewise(a), 8) + AllLevels(Bytewise(b), 8)
  {
  }

  /** Any sequence of calls, each an optimised write of one buffer, latches all buffers in order. */
  method WriteAll8(bus: Bus, bufs: seq<bytes>)
    requires |bus.db| == 8 && bus.Wired() && bus.InSync()
    modifies bus
    ensures bus.Wired() && bus.InSync()
    ensures bus.latched == old(bus.latched) + AllLevels(Bytewise(Concat(bufs)), 8)
  {
    hide AllLevels, Bytewise, Concat;
    var i := 0;
    NothingLatched(bufs);
    while i < |bufs|
      invariant 0 <= i <= |bufs| && bus.Wired() && bus.InSync()
      invariant bus.latched == old(bus.latched) + AllLevels(Bytewise(Concat(bufs[..i])), 8)
    {
      bus.WriteGpio8(bufs[i]);
      assert bufs[..i + 1] == bufs[..i] + [bufs[i]];
      ConcatSnoc(bufs[..i], bufs[i]);
      LatchAppend(Concat(bufs[..i]), bufs[i]);
      Associate(old(bus.latched), AllLevels(Bytewise(Concat(bufs[..i])), 8), AllLevels(Bytewise(bufs[i]), 8));
      i := i + 1;
    }
    assert bufs[..i] == bufs;
  }

  /** The same on sixteen pins, for buffers of whole words. */
  method WriteAll16(bus: Bus, bufs: seq<bytes>)
    requires |bus.db| == 16 && bus.Wired() && bus.InSync()
    requires forall i :: 0 <= i < |bufs| ==> |bufs[i]| % 2 == 0
    modifies bus
    ensures bus.Wired() && bus.InSync()
    ensures |Concat(bufs)| % 2 == 0
    ensures bus.latched == old(bus.latched) + AllLevels(Wordwise(Concat(bufs)), 16)
  {
    hide AllLevels, Wordwise, Concat;
    var i := 0;
    NoWordsLatched(bufs);
    while i < |bufs|
      invariant 0 <= i <= |bufs| && bus.Wired() && bus.InSync()
      invariant |Concat(bufs[..i])| % 2 == 0
      invariant bus.latched == old(bus.latched) + AllLevels(Wordwise(Concat(bufs[..i])), 16)
    {
      bus.WriteGpio16(bufs[i]);
      assert bufs[..i + 1] == bufs[..i] + [bufs[i]];
      ConcatSnoc(bufs[..i], bufs[i]);
      WordLatchAppend(Concat(bufs[..i]), bufs[i]);
      Associate(old(bus.latched), AllLevels(Wordwise(Concat(bufs[..i])), 16), AllLevels(Wordwise(bufs[i]), 16));
      i := i + 1;
    }
    assert bufs[..i] == bufs;
  }

  lemma WordLatchAppend(a: bytes, b: bytes)
    requires |a| % 2 == 0 && |b| % 2 == 0
    ensures |a + b| % 2 == 0
    ensures AllLevels(Wordwise(a + b), 16) == AllLevels(Wordwise(a), 16) + AllLevels(Wordwise(b), 16)
  {
    hide Levels, Word;
    assert |a + b| == |a| + |b|;
    assert |a + b| % 2 == 0;
    assert Wordwise(a + b) == Wordwise(a) + Wordwise(b);
  }

  lemma NoWordsLatched(bufs: seq<bytes>)
    ensures |Concat(bufs[..0])| % 2 == 0 && AllLevels(Wordwise(Concat(bufs[..0])), 16) == []
  {
  }

  lemma NothingLatched(bufs: seq<bytes>)
    ensures AllLevels(Bytewise(Concat(bufs[..0])), 8) == []
  {
  }
}
