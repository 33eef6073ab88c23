/** Bytes, byte strings and the fixed-width big-endian numbers the relay and the display buses exchange. */
module Bytes {

  datatype Option<+T> = None | Some(value: T)
  {
    function GetOr(default: T): T
    {
      if Some? then value else default
    }
  }

  type byte = x: int | 0 <= x < 256

  type bytes = seq<byte>

  function Pow256(n: nat): (p: nat)
    ensures 1 <= p
  {
    if n == 0 then 1 else 256 * Pow256(n - 1)
  }

  /** The length fields used on the wire: two, six and eight bytes. */
  lemma FieldLimits()
    ensures Pow256(2) == 0x1_0000
    ensures Pow256(6) == 0x1_0000_0000_0000
    ensures Pow256(8) == 0x1_0000_0000_0000_0000
  {
    assert Pow256(3) == 256 * Pow256(2);
    assert Pow256(4) == 256 * Pow256(3);
    assert Pow256(5) == 256 * Pow256(4);
    assert Pow256(6) == 256 * Pow256(5);
    assert Pow256(7) == 256 * Pow256(6);
  }

  /** The `width` bytes of n, most significant first. */
  function BigEndian(n: nat, width: nat): (b: bytes)
    requires n < Pow256(width)
    ensures |b| == width
  {
    if width == 0 then [] else BigEndian(n / 256, width - 1) + [n % 256]
  }

  function FromBigEndian(b: bytes): (n: nat)
    ensures n < Pow256(|b|)
  {
    if b == [] then 0 else 256 * FromBigEndian(b[..|b| - 1]) + b[|b| - 1]
  }

  lemma {:induction false} DecodeEncode(n: nat, width: nat)
    requires n < Pow256(width)
    ensures FromBigEndian(BigEndian(n, width)) == n
  {
    if width != 0 {
      DecodeEncode(n / 256, width - 1);
      assert BigEndian(n, width)[..width - 1] == BigEndian(n / 256, width - 1);
    }
  }

  lemma {:induction false} EncodeDecode(b: bytes)
    ensures BigEndian(FromBigEndian(b), |b|) == b
  {
    if b != [] {
      var high, low := FromBigEndian(b[..|b| - 1]), b[|b| - 1];
      EncodeDecode(b[..|b| - 1]);
      assert (256 * high + low) / 256 == high && (256 * high + low) % 256 == low;
      assert BigEndian(256 * high + low, |b|) == BigEndian(high, |b| - 1) + [low];
    }
  }

  /** The first byte is the most significant one. */
  lemma {:induction false} FirstIsHighest(first: byte, rest: bytes)
    ensures FromBigEndian([first] + rest) == first * Pow256(|rest|) + FromBigEndian(rest)
    decreases |rest|
  {
    var b := [first] + rest;
    if rest == [] {
      assert b[..0] == [];
    } else {
      var n := |rest| - 1;
      assert b[..|b| - 1] == [first] + rest[..n];
      FirstIsHighest(first, rest[..n]);
      assert 256 * (first * Pow256(n)) == first * (256 * Pow256(n));
    }
  }

  /** Two bytes of a 16-bit number. */
  lemma TwoBytes(n: nat)
    requires n < 0x1_0000
    ensures n < Pow256(2) && BigEndian(n, 2) == [n / 256, n % 256]
  {
    FieldLimits();
    var high := n / 256;
    assert high < Pow256(1) == 256;
    assert high / 256 == 0;
    assert BigEndian(0, 0) == [];
    assert BigEndian(high, 1) == BigEndian(0, 0) + [high];
  }

  lemma QuotientBetween(b: nat, y: nat, n: nat)
    requires 1 <= n
    ensures y * n <= b ==> y <= b / n
    ensures b < (y + 1) * n ==> b / n <= y
  {
    var q := b / n;
    assert q * n <= b < (q + 1) * n;
    if y > q {
      assert y * n >= (q + 1) * n;
    }
    if q > y {
      assert q * n >= (y + 1) * n;
    }
  }

  lemma Associate<T>(a: seq<T>, b: seq<T>, c: seq<T>)
    ensures (a + b) + c == a + (b + c)
  {
  }

  /** Bytes of all chunks, in order. */
  function Concat(chunks: seq<bytes>): bytes
  {
    if chunks == [] then [] else chunks[0] + Concat(chunks[1..])
  }

  lemma {:induction false} ConcatAppend(a: seq<bytes>, b: seq<bytes>)
    ensures Concat(a + b) == Concat(a) + Concat(b)
  {
    if a == [] {
      assert a + b == b;
    } else {
      ConcatAppend(a[1..], b);
      assert (a + b)[1..] == a[1..] + b;
      Associate(a[0], Concat(a[1..]), Concat(b));
    }
  }

  lemma ConcatSnoc(a: seq<bytes>, c: bytes)
    ensures Concat(a + [c]) == Concat(a) + c
  {
    ConcatAppend(a, [c]);
    assert Concat([c]) == c + Concat([]);
  }

  /** The other byte of the 16-bit pixel that byte k belongs to. */
  function Partner(k: nat): nat
  {
    if k % 2 == 0 then k + 1 else k - 1
  }

  lemma PartnerWithin(k: nat, n: nat)
    requires k < n && n % 2 == 0
    ensures Partner(k) < n
  {
  }

  lemma PartnerAfter(k: nat, n: nat)
    requires n % 2 == 0
    ensures Partner(n + k) == n + Partner(k)
  {
    assert (n + k) % 2 == k % 2;
  }

  /** 16-bit pixels as memory holds them: the low byte first. */
  function LowFirst(pixels: seq<nat>): (b: bytes)
    requires forall i :: 0 <= i < |pixels| ==> pixels[i] < 0x1_0000
    ensures |b| == 2 * |pixels|
  {
    if pixels == [] then [] else [pixels[0] % 256, pixels[0] / 256] + LowFirst(pixels[1..])
  }

  lemma {:induction false} LowFirstAt(pixels: seq<nat>, i: nat)
    requires forall k :: 0 <= k < |pixels| ==> pixels[k] < 0x1_0000
    requires i < |pixels|
    ensures LowFirst(pixels)[2 * i] == pixels[i] % 256 && LowFirst(pixels)[2 * i + 1] == pixels[i] / 256
    decreases i
  {
    if i > 0 {
      LowFirstAt(pixels[1..], i - 1);
    }
  }

  /** Codes of an ASCII text; anything else becomes a question mark. */
  function Ascii(s: string): (b: bytes)
    ensures |b| == |s|
    ensures forall i :: 0 <= i < |s| && s[i] as int < 128 ==> b[i] == s[i] as int
  {
    seq(|s|, i requires 0 <= i < |s| => if s[i] as int < 128 then s[i] as int else 63)
  }
}
