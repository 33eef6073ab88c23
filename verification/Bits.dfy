/** Bit strings, most significant bit first, and the numbers and bytes they stand for. */
module Bits {
  import opened Bytes

  type bit = x: int | 0 <= x < 2

  function Pow2(n: nat): (p: nat)
    ensures 1 <= p
  {
    if n == 0 then 1 else 2 * Pow2(n - 1)
  }

  lemma {:induction false} Pow2Add(a: nat, b: nat)
    ensures Pow2(a + b) == Pow2(a) * Pow2(b)
    decreases b
  {
    if b != 0 {
      Pow2Add(a, b - 1);
      assert Pow2(a + b) == 2 * (Pow2(a) * Pow2(b - 1)) == Pow2(a) * (2 * Pow2(b - 1));
    }
  }

  lemma Pow2Of8()
    ensures Pow2(8) == 256 && Pow2(9) == 512
  {
    assert Pow2(3) == 8;
    assert Pow2(6) == 8 * Pow2(3);
    assert Pow2(8) == 4 * Pow2(6);
  }

  function Value(b: seq<bit>): (v: nat)
    ensures v < Pow2(|b|)
  {
    if b == [] then 0 else 2 * Value(b[..|b| - 1]) + b[|b| - 1]
  }

  function BitsOf(n: nat, width: nat): (b: seq<bit>)
    ensures |b| == width
  {
    if width == 0 then [] else BitsOf(n / 2, width - 1) + [n % 2]
  }

  lemma {:induction false} ValueOfBits(n: nat, width: nat)
    requires n < Pow2(width)
    ensures Value(BitsOf(n, width)) == n
  {
    if width != 0 {
      assert n == 2 * (n / 2) + n % 2 && n / 2 < Pow2(width - 1);
      ValueOfBits(n / 2, width - 1);
      assert BitsOf(n, width)[..width - 1] == BitsOf(n / 2, width - 1);
    }
  }

  lemma {:induction false} BitsOfValue(b: seq<bit>)
    ensures BitsOf(Value(b), |b|) == b
  {
    if b != [] {
      BitsOfValue(b[..|b| - 1]);
    }
  }

  lemma {:induction false} ValueAppend(a: seq<bit>, b: seq<bit>)
    ensures Value(a + b) == Value(a) * Pow2(|b|) + Value(b)
    decreases |b|
  {
    if b == [] {
      assert a + b == a;
    } else {
      var c := b[..|b| - 1];
      ValueAppend(a, c);
      assert (a + b)[..|a + b| - 1] == a + c;
      DoubleSum(Value(a), Pow2(|c|), Value(c), b[|b| - 1]);
    }
  }

  lemma DoubleSum(x: nat, p: nat, v: nat, low: nat)
    ensures 2 * (x * p + v) + low == x * (2 * p) + (2 * v + low)
  {
  }

  /** Bit k from the front is the one of weight 2^(width - 1 - k). */
  lemma {:induction false} BitAt(n: nat, width: nat, k: nat)
    requires k < width
    ensures BitsOf(n, width)[k] == n / Pow2(width - 1 - k) % 2
    decreases width
  {
    if k < width - 1 {
      BitAt(n / 2, width - 1, k);
      HalfQuotient(n, Pow2(width - 2 - k));
    }
  }

  lemma HalfQuotient(n: nat, p: nat)
    requires 1 <= p
    ensures n / 2 / p == n / (2 * p)
  {
    var q := n / (2 * p);
    var r := n % (2 * p);
    assert n == q * (2 * p) + r;
    assert n / 2 == q * p + r / 2 by {
      assert n == 2 * (q * p) + r;
    }
    assert r / 2 < p;
    QuotientIs(q, p, r / 2);
  }

  lemma QuotientIs(q: nat, p: nat, r: nat)
    requires r < p
    ensures (q * p + r) / p == q
  {
    assert q * p <= q * p + r < (q + 1) * p;
    QuotientBetween(q * p + r, q, p);
  }

  /** The bits of a value written in two parts are the bits of its parts. */
  lemma BitsOfSum(high: nat, low: nat, a: nat, b: nat)
    requires high < Pow2(a) && low < Pow2(b)
    ensures BitsOf(high * Pow2(b) + low, a + b) == BitsOf(high, a) + BitsOf(low, b)
  {
    var both := BitsOf(high, a) + BitsOf(low, b);
    ValueAppend(BitsOf(high, a), BitsOf(low, b));
    ValueOfBits(high, a);
    ValueOfBits(low, b);
    BitsOfValue(both);
  }

  /** The bits of bytes, in the order a serial bus sends them. */
  function ByteBits(data: bytes): (b: seq<bit>)
    ensures |b| == 8 * |data|
  {
    if data == [] then [] else BitsOf(data[0], 8) + ByteBits(data[1..])
  }

  lemma {:induction false} ByteBitsAppend(a: bytes, b: bytes)
    ensures ByteBits(a + b) == ByteBits(a) + ByteBits(b)
  {
    if a == [] {
      assert a + b == b;
    } else {
      ByteBitsAppend(a[1..], b);
      assert (a + b)[1..] == a[1..] + b;
    }
  }

  lemma {:induction false} Pow256IsPow2(n: nat)
    ensures Pow256(n) == Pow2(8 * n)
  {
    if n != 0 {
      Pow256IsPow2(n - 1);
      Pow2Of8();
      Pow2Add(8 * (n - 1), 8);
    }
  }

  lemma {:induction false} ByteBitsBigEndian(n: nat, width: nat)
    requires n < Pow256(width)
    ensures ByteBits(BigEndian(n, width)) == BitsOf(n, 8 * width)
    decreases width
  {
    if width != 0 {
      ByteBitsBigEndian(n / 256, width - 1);
      Pow2Of8();
      Pow256IsPow2(width - 1);
      BitsOfSum(n / 256, n % 256, 8 * (width - 1), 8);
      ByteBitsAppend(BigEndian(n / 256, width - 1), [n % 256]);
      assert ByteBits([n % 256]) == BitsOf(n % 256, 8) + ByteBits([]);
    }
  }

  /** Bitwise or. */
  function Or(a: nat, b: nat): nat
  {
    if a == 0 then b else if b == 0 then a
    else (if a % 2 == 1 || b % 2 == 1 then 1 else 0) + 2 * Or(a / 2, b / 2)
  }

  /** Where no bit is set in both operands, or is addition. */
  lemma {:induction false} OrDisjoint(a: nat, b: nat, k: nat)
    requires b < Pow2(k)
    ensures Or(a * Pow2(k), b) == a * Pow2(k) + b
    decreases k
  {
    if k != 0 && a != 0 && b != 0 {
      var x := a * Pow2(k);
      assert x == 2 * (a * Pow2(k - 1));
      OrDisjoint(a, b / 2, k - 1);
    }
  }
}
