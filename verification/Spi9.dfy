/** Nine-bit serial words over an eight-bit bus: the packer, the pixel writer and the register writer that use it. */
module Spi9 {
  import opened Bytes
  import opened Bits

  /** A 16-bit buffer entry; bit 8 is the data/command bit, the low byte the data. */
  type word = x: int | 0 <= x < 0x1_0000

  const EINVAL: int := -22

  function Dc(w: word): bit { w / 256 % 2 }

  function Low(w: word): byte { w % 256 }

  /** A data word: the byte with bit 8 set. */
  function Data(b: byte): (w: word)
    ensures Dc(w) == 1 && Low(w) == b
  {
    var n: int := b;
    0x100 + n
  }

  /** Bit 8 and the low byte, by number. */
  lemma WordByNumber(w: word, dc: nat, low: nat)
    requires dc < 2 && low < 256 && w == 0x100 * dc + low
    ensures Dc(w) == dc && Low(w) == low
  {
  }

  /** The nine bits of a word on the wire: the data/command bit, then the byte from its highest bit down. */
  lemma WireOrder(w: word, k: nat)
    requires k < 9
    ensures WordBits(w)[k] == if k == 0 then w / 0x100 % 2 else w % 0x100 / Pow2(8 - k) % 2
  {
    hide BitsOf, Pow2;
    if k > 0 {
      BitAt(Low(w), 8, k - 1);
    }
  }

  /** The nine bits the panel should receive for one word. */
  function WordBits(w: word): (b: seq<bit>)
    ensures |b| == 9
  {
    [Dc(w)] + BitsOf(Low(w), 8)
  }

  function WordsBits(ws: seq<word>): (b: seq<bit>)
    ensures |b| == 9 * |ws|
  {
    if ws == [] then [] else WordBits(ws[0]) + WordsBits(ws[1..])
  }

  lemma {:induction false} WordsBitsAppend(a: seq<word>, b: seq<word>)
    ensures WordsBits(a + b) == WordsBits(a) + WordsBits(b)
  {
    if a == [] {
      assert a + b == b;
    } else {
      WordsBitsAppend(a[1..], b);
      assert (a + b)[1..] == a[1..] + b;
      Associate(WordBits(a[0]), WordsBits(a[1..]), WordsBits(b));
    }
  }

  lemma WordsBitsSnoc(a: seq<word>, w: word)
    ensures WordsBits(a + [w]) == WordsBits(a) + WordBits(w)
  {
    WordsBitsAppend(a, [w]);
    assert WordsBits([w]) == WordBits(w) + WordsBits([]);
  }

  /** What a panel reads: groups of nine bits; an incomplete group is dropped when the transfer ends. */
  function Decode9(b: seq<bit>): seq<(bit, nat)>
    decreases |b|
  {
    if |b| < 9 then [] else [(b[0], Value(b[1..9]))] + Decode9(b[9..])
  }

  function Pairs(ws: seq<word>): (p: seq<(bit, nat)>)
    ensures |p| == |ws|
    ensures forall i :: 0 <= i < |p| ==> p[i] == (Dc(ws[i]), Low(ws[i]) as nat)
  {
    seq(|ws|, i requires 0 <= i < |ws| => (Dc(ws[i]), Low(ws[i]) as nat))
  }

  lemma {:induction false} DecodeWords(ws: seq<word>, tail: seq<bit>)
    requires |tail| < 9
    ensures Decode9(WordsBits(ws) + tail) == Pairs(ws)
  {
    if ws == [] {
      assert WordsBits(ws) + tail == tail;
    } else {
      var rest := WordsBits(ws[1..]) + tail;
      Associate(WordBits(ws[0]), WordsBits(ws[1..]), tail);
      DecodeOne(ws[0], rest);
      DecodeWords(ws[1..], tail);
      hide WordBits;
      assert Pairs(ws) == [(Dc(ws[0]), Low(ws[0]) as nat)] + Pairs(ws[1..]);
    }
  }

  lemma DecodeOne(w: word, rest: seq<bit>)
    ensures Decode9(WordBits(w) + rest) == [(Dc(w), Low(w) as nat)] + Decode9(rest)
  {
    var b := WordBits(w) + rest;
    Pow2Of8();
    ValueOfBits(Low(w), 8);
    assert b[1..9] == BitsOf(Low(w), 8);
    assert b[9..] == rest;
  }

  // ---------------------------------------------------------------- the packer

  function Blocks(size: nat): nat
  {
    (size + 7) / 8
  }

  /** One word entered below v at bit position k of the accumulator. */
  lemma ShiftedWord(v: nat, dc: bit, low: byte, k: nat)
    ensures Or(Or(v * Pow2(k + 9), dc * Pow2(k + 8)), low * Pow2(k)) == ((v * 2 + dc) * 256 + low) * Pow2(k)
  {
    Pow2Of8();
    Pow2Add(k, 8);
    hide Or;
    var p, p8 := Pow2(k), Pow2(k + 8);
    assert Pow2(k + 9) == 2 * p8;
    hide Pow2;
    assert p8 == 256 * p;
    Shifts(v, dc, p8);
    OrDisjoint(v, dc * p8, k + 9);
    MulLess(low, 256, p);
    OrDisjoint(v * 2 + dc, low * p, k + 8);
    Assoc3(v * 2 + dc, 256, p);
    Distribute((v * 2 + dc) * 256, low, p);
  }

  lemma Shifts(v: nat, dc: bit, p: nat)
    requires 1 <= p
    ensures v * (2 * p) + dc * p == (v * 2 + dc) * p && dc * p < 2 * p
  {
  }

  lemma Assoc3(a: nat, b: nat, p: nat)
    ensures a * (b * p) == (a * b) * p
  {
  }

  lemma Distribute(a: nat, b: nat, p: nat)
    ensures a * p + b * p == (a + b) * p
  {
  }

  lemma MulLess(a: nat, b: nat, p: nat)
    requires a < b && 1 <= p
    ensures a * p < b * p
  {
  }

  lemma ValueSnoc(ws: seq<word>, w: word)
    ensures Value(WordsBits(ws + [w])) == (Value(WordsBits(ws)) * 2 + Dc(w)) * 256 + Low(w)
  {
    WordsBitsSnoc(ws, w);
    ValueAppend(WordsBits(ws), WordBits(w));
    ValueAppend([Dc(w)], BitsOf(Low(w), 8));
    Pow2Of8();
    ValueOfBits(Low(w), 8);
    assert Value([Dc(w)]) == 2 * Value([]) + Dc(w);
  }

  /** Sixty-four bits hold seven words and the data/command bit of the eighth; its low byte follows. */
  lemma EightWords(ws: seq<word>, tmp: nat)
    requires |ws| == 8 && tmp == 2 * Value(WordsBits(ws[..7])) + Dc(ws[7])
    ensures tmp < Pow256(8)
    ensures ByteBits(BigEndian(tmp, 8) + [Low(ws[7])]) == WordsBits(ws)
  {
    hide ByteBits, BigEndian, WordsBits, Value, BitsOf;
    SixtyFour(ws, tmp);
    ByteBitsAppend(BigEndian(tmp, 8), [Low(ws[7])]);
    OneByte(Low(ws[7]));
    Associate(WordsBits(ws[..7]), [Dc(ws[7])], BitsOf(Low(ws[7]), 8));
    assert ws == ws[..7] + [ws[7]];
    WordsBitsSnoc(ws[..7], ws[7]);
  }

  lemma SixtyFour(ws: seq<word>, tmp: nat)
    requires |ws| == 8 && tmp == 2 * Value(WordsBits(ws[..7])) + Dc(ws[7])
    ensures tmp < Pow256(8)
    ensures ByteBits(BigEndian(tmp, 8)) == WordsBits(ws[..7]) + [Dc(ws[7])]
  {
    hide ByteBits, BigEndian;
    var b := WordsBits(ws[..7]) + [Dc(ws[7])];
    assert b[..63] == WordsBits(ws[..7]);
    assert tmp == Value(b);
    Pow256IsPow2(8);
    ByteBitsBigEndian(tmp, 8);
    BitsOfValue(b);
  }

  lemma OneByte(low: byte)
    ensures ByteBits([low]) == BitsOf(low, 8)
  {
    assert ByteBits([low]) == BitsOf(low, 8) + ByteBits([]);
  }

  /** The bytes of an accepted transfer are the beginning of the nine-bit words, bit by bit. */
  ghost predicate Packs(src: seq<word>, size: nat, sent: bytes)
    requires 8 * Blocks(size) <= |src|
  {
    && |sent| == size + Blocks(size)
    && 8 * |sent| <= 72 * Blocks(size)
    && ByteBits(sent) == WordsBits(src[..8 * Blocks(size)])[..8 * |sent|]
  }

  /**
   * Packs size = len / 2 words in blocks of eight and sends size bytes plus one per block. The buffer
   * must reach to the end of the last block, which is read in full.
   */
  method WriteSpiEmulate9(extra: array?<byte>, src: seq<word>, len: nat) returns (ret: int, sent: bytes)
    requires extra != null && len % 8 == 0 ==> 8 * Blocks(len / 2) <= |src| && 9 * Blocks(len / 2) <= extra.Length
    modifies extra
    ensures extra == null || len % 8 != 0 ==> ret == EINVAL && sent == []
    ensures extra != null && len % 8 == 0 ==> ret == 0 && Packs(src, len / 2, sent)
  {
    if extra == null || len % 8 != 0 {
      return EINVAL, [];
    }
    var size := len / 2;
    BlocksBound(size);
    hide ByteBits, WordsBits, Blocks;
    var added := PackAll(extra, src, size);
    sent := extra[..size + added];
    Truncated(extra[..9 * added], size + added, src[..8 * added]);
    assert extra[..9 * added][..size + added] == sent;
    ret := 0;
  }

  /** The outer loop; returns the number of blocks, which the source counts in `added`. */
  method PackAll(extra: array<byte>, src: seq<word>, size: nat) returns (added: nat)
    requires 8 * Blocks(size) <= |src| && 9 * Blocks(size) <= extra.Length
    modifies extra
    ensures added == Blocks(size)
    ensures ByteBits(extra[..9 * added]) == WordsBits(src[..8 * added])
  {
    BlocksBound(size);
    hide ByteBits, WordsBits, Blocks;
    added := 0;
    var dst, i := 0, 0;
    NothingPacked(extra, src);
    while i < size
      invariant i == 8 * added && added <= Blocks(size) && dst == 9 * added
      invariant ByteBits(extra[..dst]) == WordsBits(src[..i])
    {
      ghost var done := extra[..dst];
      PackBlock(extra, dst, src[i..i + 8]);
      assert extra[..dst + 9] == done + extra[dst..dst + 9];
      assert src[..i + 8] == src[..i] + src[i..i + 8];
      OneMoreBlock(done, extra[dst..dst + 9], src[..i], src[i..i + 8]);
      dst := dst + 9;
      added := added + 1;
      i := i + 8;
    }
  }

  lemma Truncated(all: bytes, n: nat, ws: seq<word>)
    requires n <= |all| && ByteBits(all) == WordsBits(ws)
    ensures ByteBits(all[..n]) == WordsBits(ws)[..8 * n]
  {
    assert all == all[..n] + all[n..];
    ByteBitsAppend(all[..n], all[n..]);
  }

  lemma OneMoreBlock(done: bytes, packed: bytes, ws: seq<word>, block: seq<word>)
    requires ByteBits(done) == WordsBits(ws) && ByteBits(packed) == WordsBits(block)
    ensures ByteBits(done + packed) == WordsBits(ws + block)
  {
    ByteBitsAppend(done, packed);
    WordsBitsAppend(ws, block);
  }

  lemma BlocksBound(size: nat)
    ensures size <= 8 * Blocks(size) < size + 8
  {
  }

  lemma NothingPacked(extra: array<byte>, src: seq<word>)
    ensures ByteBits(extra[..0]) == WordsBits(src[..0])
  {
  }

  /** One round of the outer loop: eight words into nine bytes at position dst. */
  method PackBlock(extra: array<byte>, dst: nat, src: seq<word>)
    requires |src| == 8 && dst + 9 <= extra.Length
    modifies extra
    ensures forall k :: 0 <= k < extra.Length && !(dst <= k < dst + 9) ==> extra[k] == old(extra[k])
    ensures ByteBits(extra[dst..dst + 9]) == WordsBits(src)
  {
    var tmp := PackSeven(src);
    LastBit(Value(WordsBits(src[..7])), Dc(src[7]));
    tmp := Or(tmp, Dc(src[7]));
    EightWords(src, tmp);
    hide ByteBits, WordsBits, BigEndian, Pow256, Pow2, Or;
    var be := BigEndian(tmp, 8);
    forall k | 0 <= k < 8 {
      extra[dst + k] := be[k];
    }
    extra[dst + 8] := Low(src[7]);
    assert extra[dst..dst + 9] == be + [Low(src[7])];
  }

  lemma LastBit(v: nat, dc: bit)
    ensures Or(v * Pow2(1), dc) == 2 * v + dc
  {
    OrDisjoint(v, dc, 1);
  }

  /** The inner loop: seven words from the top of a 64-bit number downwards. */
  method PackSeven(src: seq<word>) returns (tmp: nat)
    requires |src| == 8
    ensures tmp == Value(WordsBits(src[..7])) * Pow2(1)
  {
    hide Or, Value, Pow2, WordsBits;
    tmp := 0;
    var bits := 63;
    assert src[..0] == [];
    assert tmp == Value(WordsBits(src[..0])) * Pow2(64) by { EmptyValue(); }
    for j := 0 to 7
      invariant bits == 63 - 9 * j
      invariant tmp == Value(WordsBits(src[..j])) * Pow2(bits + 1)
    {
      ghost var v := Value(WordsBits(src[..j]));
      ShiftedWord(v, Dc(src[j]), Low(src[j]), bits - 8);
      ValueSnoc(src[..j], src[j]);
      assert src[..j + 1] == src[..j] + [src[j]];
      tmp := Or(tmp, Dc(src[j]) * Pow2(bits));
      bits := bits - 8;
      tmp := Or(tmp, Low(src[j]) * Pow2(bits));
      bits := bits - 1;
    }
  }

  lemma EmptyValue()
    ensures Value(WordsBits([])) == 0
  {
  }

  /**
   * The packed bits begin with the bits of all words; four more bits, of the word after them, follow
   * exactly when the word count is not a multiple of eight.
   */
  lemma PackedBits(src: seq<word>, size: nat, sent: bytes)
    requires size % 4 == 0 && 8 * Blocks(size) <= |src| && Packs(src, size, sent)
    ensures 9 * size <= 8 * |sent|
    ensures ByteBits(sent)[..9 * size] == WordsBits(src[..size])
    ensures 8 * |sent| - 9 * size == if size % 8 == 0 then 0 else 4
  {
    hide ByteBits, WordsBits;
    var all := src[..8 * Blocks(size)];
    assert all == src[..size] + all[size..];
    WordsBitsAppend(src[..size], all[size..]);
    PackedSize(size);
    PrefixOfPrefix(WordsBits(src[..size]), WordsBits(all[size..]), 8 * |sent|);
  }

  lemma PackedSize(size: nat)
    requires size % 4 == 0
    ensures 8 * (size + Blocks(size)) - 9 * size == if size % 8 == 0 then 0 else 4
  {
    var b := size / 8;
    assert size == 8 * b + size % 8 && size % 8 in {0, 4};
    assert Blocks(size) == if size % 8 == 0 then b else b + 1;
  }

  lemma PrefixOfPrefix(a: seq<bit>, b: seq<bit>, n: nat)
    requires |a| <= n <= |a + b|
    ensures (a + b)[..n][..|a|] == a
  {
  }

  /** Read in groups of nine, an accepted transfer is exactly its words. */
  lemma TransferDecodes(src: seq<word>, size: nat, sent: bytes)
    requires size % 4 == 0 && 8 * Blocks(size) <= |src| && Packs(src, size, sent)
    ensures Decode9(ByteBits(sent)) == Pairs(src[..size])
  {
    PackedBits(src, size, sent);
    var b := ByteBits(sent);
    assert b == WordsBits(src[..size]) + b[9 * size..];
    DecodeWords(src[..size], b[9 * size..]);
  }

  // ---------------------------------------------------------------- pixels over the nine-bit bus

  function DecodeAll(transfers: seq<bytes>): seq<(bit, nat)>
  {
    if transfers == [] then [] else Decode9(ByteBits(transfers[0])) + DecodeAll(transfers[1..])
  }

  lemma {:induction false} DecodeAllSnoc(transfers: seq<bytes>, t: bytes)
    ensures DecodeAll(transfers + [t]) == DecodeAll(transfers) + Decode9(ByteBits(t))
  {
    hide Decode9, ByteBits;
    if transfers == [] {
      assert [t][1..] == [] && transfers + [t] == [t];
    } else {
      DecodeAllSnoc(transfers[1..], t);
      assert (transfers + [t])[1..] == transfers[1..] + [t];
      Associate(Decode9(ByteBits(transfers[0])), DecodeAll(transfers[1..]), Decode9(ByteBits(t)));
    }
  }

  /** Pixels lie in memory low byte first; the panel wants the high byte first, each with dc = 1. */
  ghost predicate PixelPairs(pairs: seq<(bit, nat)>, vmem: bytes, from: nat)
    requires from + |pairs| <= |vmem| && |pairs| % 2 == 0
  {
    forall k :: 0 <= k < |pairs| ==>
      Partner(k) < |pairs| && pairs[k] == (1, vmem[from + Partner(k)] as nat)
  }

  /** In terms of pixel values: the pairs are each pixel's high byte and low byte, both with dc = 1. */
  lemma PairsOfPixels(pairs: seq<(bit, nat)>, vmem: bytes, from: nat, pixels: seq<nat>, i: nat)
    requires forall k :: 0 <= k < |pixels| ==> pixels[k] < 0x1_0000
    requires from + 2 * |pixels| <= |vmem| && vmem[from..from + 2 * |pixels|] == LowFirst(pixels)
    requires |pairs| % 2 == 0 && |pairs| <= 2 * |pixels| && PixelPairs(pairs, vmem, from) && 2 * i < |pairs|
    ensures 2 * i + 1 < |pairs| && i < |pixels|
    ensures pairs[2 * i] == (1, pixels[i] / 256) && pairs[2 * i + 1] == (1, pixels[i] % 256)
  {
    hide LowFirst, Partner, PixelPairs;
    LowFirstAt(pixels, i);
    var area := vmem[from..from + 2 * |pixels|];
    assert vmem[from + 2 * i] == area[2 * i] && vmem[from + 2 * i + 1] == area[2 * i + 1];
    PairIs(pairs, vmem, from, i);
  }

  lemma PairIs(pairs: seq<(bit, nat)>, vmem: bytes, from: nat, i: nat)
    requires |pairs| % 2 == 0 && from + |pairs| <= |vmem| && PixelPairs(pairs, vmem, from) && 2 * i < |pairs|
    ensures 2 * i + 1 < |pairs|
    ensures pairs[2 * i] == (1, vmem[from + 2 * i + 1] as nat) && pairs[2 * i + 1] == (1, vmem[from + 2 * i] as nat)
  {
    assert Partner(2 * i) == 2 * i + 1 && Partner(2 * i + 1) == 2 * i;
  }

  /** Only the last transfer may carry less than n words, and if `more` is to come not even that. */
  ghost predicate FullChunks(transfers: seq<bytes>, n: nat, more: bool)
  {
    forall i :: 0 <= i < |transfers| && (more || i < |transfers| - 1) ==> |Decode9(ByteBits(transfers[i]))| == n
  }

  /** Every transfer the chunk loop makes is a multiple of four words. */
  predicate Quads(n: nat)
  {
    n % 4 == 0
  }

  predicate Aligned(len: nat, arraySize: nat)
  {
    Quads(len) && (len <= arraySize || Quads(arraySize))
  }

  /** The transmit buffer in bytes gives this many word entries. */
  function Entries(txbufLen: nat): nat { txbufLen / 2 }

  /** The store that completes the last pair of an odd chunk goes past the transmit buffer. */
  predicate StoresPast(len: nat, arraySize: nat)
  {
    len > arraySize && arraySize % 2 == 1
  }

  /** The packer reads past the transmit buffer to complete the last block of some chunk. */
  predicate ReadsPast(len: nat, arraySize: nat)
  {
    if len <= arraySize then len % 8 == 4 && len + 4 > arraySize else arraySize % 8 == 4
  }

  /**
   * Writes len bytes of video memory from offset in chunks of at most txbufLen / 2 bytes, each widened to words and
   * packed. `behind` is the memory that follows the words of the transmit buffer, and `after` what becomes of it.
   */
  method WriteVmem16Bus9(txbuf: array?<word>, txbufLen: nat, behind: seq<word>, extra: array<byte>,
                         vmem: bytes, offset: nat, len: nat)
    returns (ret: int, transfers: seq<bytes>, readPast: bool, after: seq<word>)
    requires offset + len <= |vmem| && len % 2 == 0
    requires txbuf != null ==> txbuf.Length == Entries(txbufLen) > 0
    requires |behind| == 8
    requires extra.Length == txbufLen + txbufLen / 8 + 8
    modifies txbuf, extra
    ensures txbuf == null ==> ret == -1 && transfers == [] && !readPast && after == behind
    ensures txbuf != null ==>
              && ret == (if len == 0 || Aligned(len, txbuf.Length) then 0 else EINVAL)
              && (readPast <==> ReadsPast(len, txbuf.Length))
              && after == if StoresPast(len, txbuf.Length) then behind[0 := Data(vmem[offset + txbuf.Length - 1])]
                          else behind
    ensures |DecodeAll(transfers)| <= len && |DecodeAll(transfers)| % 2 == 0
    ensures PixelPairs(DecodeAll(transfers), vmem, offset)
    ensures ret == 0 ==> |DecodeAll(transfers)| == len
    ensures txbuf != null ==> FullChunks(transfers, txbufLen / 2, false)
  {
    if txbuf == null {
      return -1, [], false, behind;
    }
    ret, transfers, readPast, after := WriteChunks(txbuf, txbufLen, behind, extra, vmem, offset, len);
  }

  /** The chunk loop. */
  method WriteChunks(txbuf: array<word>, txbufLen: nat, behind: seq<word>, extra: array<byte>,
                     vmem: bytes, offset: nat, len: nat)
    returns (ret: int, transfers: seq<bytes>, readPast: bool, after: seq<word>)
    requires offset + len <= |vmem| && len % 2 == 0
    requires txbuf.Length == Entries(txbufLen) > 0 && |behind| == 8
    requires extra.Length == txbufLen + txbufLen / 8 + 8
    modifies txbuf, extra
    ensures ret == if len == 0 || Aligned(len, txbuf.Length) then 0 else EINVAL
    ensures readPast <==> ReadsPast(len, txbuf.Length)
    ensures after == if StoresPast(len, txbuf.Length) then behind[0 := Data(vmem[offset + txbuf.Length - 1])]
                     else behind
    ensures |DecodeAll(transfers)| <= len && |DecodeAll(transfers)| % 2 == 0
    ensures PixelPairs(DecodeAll(transfers), vmem, offset)
    ensures ret == 0 ==> |DecodeAll(transfers)| == len
    ensures FullChunks(transfers, txbuf.Length, false)
  {
    hide Decode9, ByteBits, Blocks, DecodeAll, PixelPairs, Aligned, SentAligned, Quads, Entries, ReadsPast, StoresPast;
    hide PastBuffer;
    var arraySize := txbuf.Length;
    var remain: nat := len;
    ret, transfers, readPast, after := 0, [], false, behind;
    NothingDecoded(vmem, offset);
    NothingPast(arraySize);
    while remain > 0
      invariant remain <= len && remain % 2 == 0 && ret == 0 && after == behind
      invariant remain == len || (SentAligned(len, arraySize, remain) && (remain == 0 ==> Aligned(len, arraySize)))
      invariant remain == len ==> !readPast
      invariant remain < len ==> (readPast <==> ReadsPast(len, arraySize)) && !StoresPast(len, arraySize)
      invariant FullChunks(transfers, arraySize, remain > 0)
      invariant |DecodeAll(transfers)| == len - remain
      invariant PixelPairs(DecodeAll(transfers), vmem, offset)
    {
      var toCopy := if remain > arraySize then arraySize else remain;
      NextChunk(len, arraySize, remain, toCopy);
      ChunkPast(len, arraySize, remain, toCopy);
      var sent, past;
      ret, sent, past, after := SendChunk(txbuf, txbufLen, behind, extra, vmem, offset + (len - remain), toCopy);
      readPast := readPast || past;
      if ret < 0 {
        return;
      }
      DecodeAllSnoc(transfers, sent);
      MorePixels(DecodeAll(transfers), Decode9(ByteBits(sent)), vmem, offset);
      transfers := transfers + [sent];
      remain := remain - toCopy;
    }
  }

  /** The packer reads past the buffer for this chunk. */
  predicate PastBuffer(toCopy: nat, arraySize: nat)
  {
    Quads(toCopy) && 8 * Blocks(toCopy) > arraySize
  }

  lemma NothingPast(arraySize: nat)
    ensures !ReadsPast(0, arraySize) && !StoresPast(0, arraySize)
  {
  }

  lemma BlocksOfQuads(n: nat)
    requires Quads(n)
    ensures 8 * Blocks(n) == if n % 8 == 4 then n + 4 else n
  {
    var q := QuadsAre(n);
    var h := q / 2;
    assert q == 2 * h + q % 2;
    if n % 8 == 4 {
      assert n + 7 == 8 * (h + 1) + 3;
    } else {
      assert n + 7 == 8 * h + 7;
    }
  }

  /** Only the first chunk decides: a later one reads past the buffer only if a full one does. */
  lemma ChunkPast(len: nat, arraySize: nat, remain: nat, toCopy: nat)
    requires 0 < remain <= len && len % 2 == 0 && remain % 2 == 0 && 0 < arraySize
    requires remain == len || SentAligned(len, arraySize, remain)
    requires toCopy == if remain > arraySize then arraySize else remain
    ensures remain == len ==> (PastBuffer(toCopy, arraySize) <==> ReadsPast(len, arraySize))
    ensures remain < len && PastBuffer(toCopy, arraySize) ==> ReadsPast(len, arraySize)
    ensures remain == len ==> (StoresPast(len, arraySize) <==> toCopy % 2 == 1)
    ensures toCopy % 2 == 1 ==> toCopy == arraySize && remain == len
  {
    hide Blocks, Quads;
    if Quads(toCopy) {
      BlocksOfQuads(toCopy);
    }
    QuadLength(toCopy);
    OddIsNoQuad(toCopy);
    if remain < len {
      LaterChunks(len, arraySize, remain);
      if Quads(toCopy) && arraySize % 8 != 4 {
        WithinQuads(toCopy, arraySize);
      }
    }
  }

  lemma OddIsNoQuad(n: nat)
    ensures n % 8 == 4 ==> Quads(n)
    ensures n % 2 == 1 ==> !Quads(n)
  {
    if n % 8 == 4 {
      var h := n / 8;
      assert n == 4 * (2 * h + 1);
    }
    if Quads(n) {
      QuadsEven(n);
    }
  }

  lemma LaterChunks(len: nat, arraySize: nat, remain: nat)
    requires 0 < remain < len && SentAligned(len, arraySize, remain)
    ensures Quads(arraySize) && len > arraySize && arraySize % 2 == 0
  {
    hide Quads;
    QuadsEven(arraySize);
  }

  lemma QuadsAre(n: nat) returns (q: nat)
    requires Quads(n)
    ensures n == 4 * q && (n % 8 == 4 <==> q % 2 == 1)
  {
    q := n / 4;
    assert n == 4 * q;
    var h := q / 2;
    if q % 2 == 1 {
      assert n == 8 * h + 4;
    } else {
      assert n == 8 * h;
    }
  }

  lemma WithinQuads(n: nat, size: nat)
    requires Quads(n) && Quads(size) && n <= size && size % 8 != 4
    ensures n % 8 == 4 ==> n + 4 <= size
  {
    hide Quads;
    var a := QuadsAre(n);
    var b := QuadsAre(size);
    assert a <= b;
    if n % 8 == 4 {
      assert a != b;
    }
  }

  /** One round of the chunk loop. */
  method SendChunk(txbuf: array<word>, txbufLen: nat, behind: seq<word>, extra: array<byte>,
                   vmem: bytes, at: nat, toCopy: nat)
    returns (ret: int, sent: bytes, readPast: bool, after: seq<word>)
    requires txbuf.Length == Entries(txbufLen) && |behind| == 8
    requires toCopy <= txbuf.Length && at + toCopy + toCopy % 2 <= |vmem|
    requires toCopy % 2 == 1 ==> toCopy == txbuf.Length
    requires extra.Length == txbufLen + txbufLen / 8 + 8
    modifies txbuf, extra
    ensures ret == if Quads(toCopy) then 0 else EINVAL
    ensures readPast <==> PastBuffer(toCopy, txbuf.Length)
    ensures after == if toCopy % 2 == 1 then behind[0 := Data(vmem[at + toCopy - 1])] else behind
    ensures ret == 0 ==>
              && toCopy % 2 == 0 && |Decode9(ByteBits(sent))| == toCopy
              && PixelPairs(Decode9(ByteBits(sent)), vmem, at)
  {
    hide Decode9, ByteBits, WordsBits, Blocks, Pairs, Packs, Chunk, PixelPairs, Quads, Entries;
    QuadLength(toCopy);
    BufferIsEnough(txbufLen, toCopy);
    BlocksBound(toCopy);
    after := FillChunk(txbuf, behind, vmem, at, toCopy);
    var src := txbuf[..] + after;
    ret, sent := WriteSpiEmulate9(extra, src, toCopy * 2);
    readPast := ret == 0 && 8 * Blocks(toCopy) > txbuf.Length;
    if ret == 0 {
      QuadsEven(toCopy);
      TransferDecodes(src, toCopy, sent);
      assert src[..toCopy] == txbuf[..toCopy];
      ChunkPairs(txbuf[..toCopy], vmem, at);
    }
  }

  lemma ChunkPairs(ws: seq<word>, vmem: bytes, at: nat)
    requires |ws| % 2 == 0 && at + |ws| <= |vmem| && Chunk(ws, vmem, at)
    ensures PixelPairs(Pairs(ws), vmem, at)
  {
  }

  lemma NextChunk(len: nat, arraySize: nat, remain: nat, toCopy: nat)
    requires 0 < remain <= len && len % 2 == 0 && remain % 2 == 0
    requires 0 < arraySize
    requires remain == len || SentAligned(len, arraySize, remain)
    requires toCopy == if remain > arraySize then arraySize else remain
    ensures 0 < toCopy <= remain && toCopy + toCopy % 2 <= remain
    ensures Quads(toCopy) ==> toCopy % 2 == 0 && (remain - toCopy) % 2 == 0 && (len - remain) % 2 == 0
    ensures Quads(toCopy) ==> SentAligned(len, arraySize, remain - toCopy)
    ensures Quads(toCopy) && toCopy == remain ==> Aligned(len, arraySize)
    ensures !Quads(toCopy) ==> !Aligned(len, arraySize)
  {
    hide Quads;
    var sent := len - remain;
    QuadsSum(sent, toCopy);
    if Quads(toCopy) {
      QuadsEven(toCopy);
    }
    EvenDifference(len, remain);
    if toCopy == remain {
      assert sent + toCopy == len;
    }
  }

  lemma QuadsSum(a: nat, b: nat)
    requires a == 0 || Quads(a)
    ensures Quads(a + b) <==> Quads(b)
  {
  }

  lemma QuadsEven(n: nat)
    requires Quads(n)
    ensures n % 2 == 0
    ensures forall m: nat :: n <= m && m % 2 == 0 ==> (m - n) % 2 == 0
  {
    var q := n / 4;
    assert n == 2 * (2 * q);
    forall m: nat | n <= m && m % 2 == 0 ensures (m - n) % 2 == 0 {
      EvenDifference(m, n);
    }
  }

  lemma EvenDifference(a: nat, b: nat)
    requires b <= a && a % 2 == 0 && b % 2 == 0
    ensures (a - b) % 2 == 0
  {
    var p, q := a / 2, b / 2;
    assert a - b == 2 * (p - q);
  }

  /** The packer's length test, in bytes, and its word count. */
  lemma QuadLength(n: nat)
    ensures (n * 2) % 8 == 0 <==> Quads(n)
    ensures n * 2 / 2 == n
    ensures Quads(n) <==> n % 4 == 0
  {
  }

  predicate SentAligned(len: nat, arraySize: nat, remain: nat)
  {
    remain <= len && Quads(len - remain) && if len > arraySize then Quads(arraySize) else remain == 0
  }

  lemma NothingDecoded(vmem: bytes, offset: nat)
    requires offset <= |vmem|
    ensures DecodeAll([]) == [] && PixelPairs([], vmem, offset)
  {
  }

  /** One chunk of memory bytes as data words, the two bytes of each pixel exchanged. */
  method FillChunk(txbuf: array<word>, behind: seq<word>, vmem: bytes, at: nat, toCopy: nat) returns (after: seq<word>)
    requires toCopy <= txbuf.Length && at + toCopy + toCopy % 2 <= |vmem|
    requires toCopy % 2 == 1 ==> toCopy == txbuf.Length
    requires |behind| == 8
    modifies txbuf
    ensures toCopy % 2 == 0 ==> Chunk(txbuf[..toCopy], vmem, at) && after == behind
    ensures toCopy % 2 == 1 ==> after == behind[0 := Data(vmem[at + toCopy - 1])]
  {
    after := behind;
    var i := 0;
    while i < toCopy
      invariant 0 <= i <= toCopy + toCopy % 2 && i % 2 == 0
      invariant i <= toCopy ==> Chunk(txbuf[..i], vmem, at) && after == behind
      invariant i > toCopy ==> after == behind[0 := Data(vmem[at + toCopy - 1])]
    {
      txbuf[i] := Data(vmem[at + i + 1]);
      if i + 1 < txbuf.Length {
        txbuf[i + 1] := Data(vmem[at + i]);
      } else {
        after := after[0 := Data(vmem[at + i])];
      }
      i := i + 2;
    }
  }

  ghost predicate Chunk(ws: seq<word>, vmem: bytes, at: nat)
    requires |ws| % 2 == 0 && at + |ws| <= |vmem|
  {
    forall k :: 0 <= k < |ws| ==> Partner(k) < |ws| && ws[k] == Data(vmem[at + Partner(k)])
  }

  /** The `extra` buffer has room for the packed form of any chunk. */
  lemma BufferIsEnough(txbufLen: nat, toCopy: nat)
    requires toCopy <= Entries(txbufLen)
    ensures 9 * Blocks(toCopy) <= txbufLen + txbufLen / 8 + 8
  {
  }

  lemma MorePixels(before: seq<(bit, nat)>, more: seq<(bit, nat)>, vmem: bytes, offset: nat)
    requires |before| % 2 == 0 && |more| % 2 == 0 && offset + |before| + |more| <= |vmem|
    requires PixelPairs(before, vmem, offset) && PixelPairs(more, vmem, offset + |before|)
    ensures PixelPairs(before + more, vmem, offset)
  {
    hide Partner;
    var all, n := before + more, |before|;
    forall k | 0 <= k < |all| ensures Partner(k) < |all| && all[k] == (1, vmem[offset + Partner(k)] as nat) {
      if k >= n {
        PartnerAfter(k - n, n);
        assert all[k] == more[k - n];
      } else {
        PartnerWithin(k, n);
      }
    }
  }

  // ---------------------------------------------------------------- register writes

  /** No-op words that round the transfer up to a multiple of four. */
  function Padding(len: nat): nat
  {
    if len % 4 == 0 then 0 else 4 - len % 4
  }

  /** What the panel reads for a register write: no-ops, the command with dc = 0, its data with dc = 1. */
  function RegisterPairs(values: seq<int>): (p: seq<(bit, nat)>)
    requires values != []
    ensures |p| == Padding(|values|) + |values|
    ensures forall k :: 0 <= k < |p| ==>
              p[k] == if k < Padding(|values|) then (0, 0)
                      else if k == Padding(|values|) then (0, values[0] % 256)
                      else (1, values[k - Padding(|values|)] % 256)
  {
    seq(Padding(|values|) + |values|, k requires 0 <= k < Padding(|values|) + |values| =>
      if k < Padding(|values|) then (0, 0)
      else if k == Padding(|values|) then (0, values[0] % 256)
      else (1, values[k - Padding(|values|)] % 256))
  }

  /** By number: no-ops up to a multiple of four words, then the command with dc = 0, then the data with dc = 1. */
  lemma RegisterByNumber(values: seq<int>, k: nat)
    requires values != [] && k < |RegisterPairs(values)|
    ensures var (p, pad) := (RegisterPairs(values), |RegisterPairs(values)| - |values|);
            && 0 <= pad < 4 && |p| % 4 == 0
            && p[k] == if k < pad then (0, 0)
                       else if k == pad then (0, values[0] % 256)
                       else (1, values[k - pad] % 256)
  {
    PaddingByNumber(|values|);
    hide Padding;
    var pad := Padding(|values|);
    assert |RegisterPairs(values)| - |values| == pad;
  }

  lemma PaddingByNumber(n: nat)
    ensures Padding(n) < 4 && (Padding(n) + n) % 4 == 0
  {
    assert n == 4 * (n / 4) + n % 4;
  }

  ghost predicate RegisterWords(buf: seq<word>, values: seq<int>, upTo: nat)
    requires values != [] && upTo <= Padding(|values|) + |values| <= |buf|
  {
    forall k :: 0 <= k < upTo ==>
      (Dc(buf[k]), Low(buf[k]) as nat) == RegisterPairs(values)[k]
  }

  /** Register write on the emulated nine-bit bus; buf is the driver's 128-byte buffer. */
  method WriteReg8Bus9(buf: array<word>, extra: array<byte>, values: seq<int>) returns (sent: Option<bytes>)
    requires buf.Length == 64 && |values| + Padding(|values|) <= 64
    requires extra.Length >= 9 * Blocks(|values| + Padding(|values|))
    modifies buf, extra
    ensures values == [] <==> sent.None?
    ensures values != [] ==> Decode9(ByteBits(sent.value)) == RegisterPairs(values)
  {
    if values == [] {
      return None;
    }
    hide Decode9, ByteBits, WordsBits, Blocks, Pairs, Packs, RegisterWords, Padding, RegisterPairs, Quads;
    var n := |values|;
    var pad := Padding(n);
    Padded(n);
    QuadLength(n + pad);
    FillRegister(buf, values);
    assert 8 * Blocks(n + pad) <= 64 by { BlocksOfBuffer(n + pad); }
    var ret, bytes := WriteSpiEmulate9(extra, buf[..], (n + pad) * 2);
    TransferDecodes(buf[..], n + pad, bytes);
    RegisterIsPairs(buf[..], values);
    sent := Some(bytes);
  }

  method FillRegister(buf: array<word>, values: seq<int>)
    requires values != [] && buf.Length == 64 && |values| + Padding(|values|) <= 64
    modifies buf
    ensures RegisterWords(buf[..], values, Padding(|values|) + |values|)
  {
    var n := |values|;
    var pad := Padding(n);
    var i := 0;
    while i < pad
      invariant 0 <= i <= pad
      invariant RegisterWords(buf[..], values, i)
    {
      buf[i] := 0;
      i := i + 1;
    }
    buf[pad] := values[0] % 256;
    i := 1;
    while i < n
      invariant 1 <= i <= n
      invariant RegisterWords(buf[..], values, pad + i)
    {
      buf[pad + i] := Data(values[i] % 256);
      i := i + 1;
    }
  }

  lemma Padded(n: nat)
    ensures Quads(n + Padding(n))
  {
  }

  lemma RegisterIsPairs(buf: seq<word>, values: seq<int>)
    requires values != [] && Padding(|values|) + |values| <= |buf|
    requires RegisterWords(buf, values, Padding(|values|) + |values|)
    ensures Pairs(buf[..Padding(|values|) + |values|]) == RegisterPairs(values)
  {
  }

  lemma BlocksOfBuffer(size: nat)
    requires size <= 64
    ensures 8 * Blocks(size) <= 64
  {
  }
}
