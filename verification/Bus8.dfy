/** 16-bit pixels over an 8-bit bus: the chunked, byte-swapping write of video memory. */
module Bus8 {
  import opened Bytes

  /** Exchanges the two bytes of every pixel: little-endian memory in big-endian order. */
  function Swapped(b: bytes): (s: bytes)
    requires |b| % 2 == 0
    ensures |s| == |b|
    ensures forall k :: 0 <= k < |b| ==> Partner(k) < |b| && s[k] == b[Partner(k)]
  {
    seq(|b|, k requires 0 <= k < |b| => b[Partner(k)])
  }

  lemma SwappedAppend(a: bytes, b: bytes)
    requires |a| % 2 == 0 && |b| % 2 == 0
    ensures |a + b| % 2 == 0
    ensures Swapped(a + b) == Swapped(a) + Swapped(b)
  {
    hide Partner, Swapped;
    var n := |a|;
    EvenSum(n, |b|);
    var s, t := Swapped(a + b), Swapped(a) + Swapped(b);
    forall k | 0 <= k < |s| ensures s[k] == t[k] {
      if k >= n {
        PartnerAfter(k - n, n);
        assert Swapped(b)[k - n] == b[Partner(k - n)];
      } else {
        PartnerWithin(k, n);
      }
    }
  }

  lemma EvenSum(a: nat, b: nat)
    requires a % 2 == 0 && b % 2 == 0
    ensures (a + b) % 2 == 0
  {
  }

  /** 16-bit pixels in the order the panel wants: the high byte first. */
  function HighFirst(pixels: seq<nat>): (b: bytes)
    requires forall i :: 0 <= i < |pixels| ==> pixels[i] < 0x1_0000
    ensures |b| == 2 * |pixels|
  {
    if pixels == [] then []
    else
      TwoBytes(pixels[0]);
      BigEndian(pixels[0], 2) + HighFirst(pixels[1..])
  }

  /** Exchanging the bytes of pixels in memory gives the concatenation of their big-endian forms. */
  lemma {:induction false} SwappedPixels(pixels: seq<nat>)
    requires forall i :: 0 <= i < |pixels| ==> pixels[i] < 0x1_0000
    ensures Swapped(LowFirst(pixels)) == HighFirst(pixels)
    decreases |pixels|
  {
    if pixels != [] {
      var low, high := pixels[0] % 256, pixels[0] / 256;
      SwappedPixels(pixels[1..]);
      SwappedAppend([low, high], LowFirst(pixels[1..]));
      SwappedPair(low, high);
      TwoBytes(pixels[0]);
      hide Swapped, BigEndian;
    }
  }

  lemma SwappedPair(low: byte, high: byte)
    ensures Swapped([low, high]) == [high, low]
  {
  }

  /** The start byte that announces pixel data: bit 1 set, every other bit as configured. */
  predicate Announces(startbyte: byte, first: byte)
  {
    first / 2 % 2 == 1 && first % 2 == startbyte % 2 && first / 4 == startbyte / 4
  }

  /** The start byte with bit 1 set. */
  function DataStart(startbyte: byte): byte
  {
    if startbyte / 2 % 2 == 1 then startbyte else startbyte + 2
  }

  lemma DataStartAnnounces(startbyte: byte)
    ensures Announces(startbyte, DataStart(startbyte))
  {
  }

  /** What the panel keeps of a transfer: everything after the start byte, if there is one. */
  function Payload(startbyte: byte, transfer: bytes): bytes
  {
    if startbyte == 0 || transfer == [] then transfer else transfer[1..]
  }

  function Payloads(startbyte: byte, transfers: seq<bytes>): bytes
  {
    if transfers == [] then [] else Payload(startbyte, transfers[0]) + Payloads(startbyte, transfers[1..])
  }

  lemma {:induction false} PayloadsSnoc(startbyte: byte, transfers: seq<bytes>, t: bytes)
    ensures Payloads(startbyte, transfers + [t]) == Payloads(startbyte, transfers) + Payload(startbyte, t)
  {
    if transfers == [] {
      assert [t][1..] == [] && transfers + [t] == [t];
    } else {
      PayloadsSnoc(startbyte, transfers[1..], t);
      assert (transfers + [t])[1..] == transfers[1..] + [t];
      hide Payload;
      Associate(Payload(startbyte, transfers[0]), Payloads(startbyte, transfers[1..]), Payload(startbyte, t));
    }
  }

  predicate WellFormed(startbyte: byte, txbufLen: nat, transfer: bytes)
  {
    |transfer| <= txbufLen && (startbyte != 0 ==> transfer != [] && Announces(startbyte, transfer[0]))
  }

  /** Pixels per transfer: two entries are given up for the start byte. */
  function ArraySize(startbyte: byte, txbufLen: nat): int
  {
    if startbyte == 0 then txbufLen / 2 else txbufLen / 2 - 2
  }

  /** Length of a transfer that uses all of the buffer it may. */
  function FullTransfer(startbyte: byte, txbufLen: nat): int
  {
    if startbyte == 0 then txbufLen / 2 * 2 else 1 + (txbufLen / 2 - 2) * 2
  }

  /** Only the last transfer may be shorter than a full one. */
  predicate AllButLastFull(startbyte: byte, txbufLen: nat, transfers: seq<bytes>)
  {
    forall i :: 0 <= i < |transfers| - 1 ==> |transfers[i]| == FullTransfer(startbyte, txbufLen)
  }

  /** The bus takes `accepted` transfers and fails the next one; a failed transfer ends the write. */
  ghost predicate Written(startbyte: byte, txbufLen: nat, area: bytes, accepted: nat, ret: int, transfers: seq<bytes>)
    requires |area| % 2 == 0
  {
    && (forall t :: t in transfers ==> WellFormed(startbyte, txbufLen, t))
    && Payloads(startbyte, transfers) <= Swapped(area)
    && (ret == 0 ==> Payloads(startbyte, transfers) == Swapped(area))
    && (ret < 0 ==> |transfers| == accepted)
    && AllButLastFull(startbyte, txbufLen, transfers)
  }

  /** In terms of pixel values: a write that succeeds sends every pixel high byte first, a failed one the first ones. */
  lemma PixelsAreSent(startbyte: byte, txbufLen: nat, pixels: seq<nat>, accepted: nat, ret: int,
                      transfers: seq<bytes>)
    requires forall i :: 0 <= i < |pixels| ==> pixels[i] < 0x1_0000
    requires Written(startbyte, txbufLen, LowFirst(pixels), accepted, ret, transfers)
    ensures Payloads(startbyte, transfers) <= HighFirst(pixels)
    ensures ret == 0 ==> Payloads(startbyte, transfers) == HighFirst(pixels)
  {
    SwappedPixels(pixels);
  }

  /** Writes len / 2 pixels of video memory starting at offset; err is what the bus returns for a failed transfer. */
  method WriteVmem16Bus8(txbuf: array?<byte>, startbyte: byte, vmem: bytes, offset: nat, len: nat,
                         accepted: nat, err: int)
    returns (ret: int, transfers: seq<bytes>)
    requires offset + len <= |vmem| && err < 0
    requires txbuf != null ==> 0 < ArraySize(startbyte, txbuf.Length)
    modifies txbuf
    ensures txbuf == null ==> if accepted > 0 then ret == 0 && transfers == [vmem[offset..offset + len]]
                              else ret == err && transfers == []
    ensures txbuf != null ==>
              && ret in {0, err}
              && Written(startbyte, txbuf.Length, vmem[offset..offset + len / 2 * 2], accepted, ret, transfers)
  {
    if txbuf == null {
      if accepted == 0 {
        return err, [];
      }
      return 0, [vmem[offset..offset + len]];
    }
    ret, transfers := WriteBuffered(txbuf, startbyte, vmem, offset, len / 2, accepted, err);
  }

  method WriteBuffered(txbuf: array<byte>, startbyte: byte, vmem: bytes, offset: nat, pixels: nat,
                       accepted: nat, err: int)
    returns (ret: int, transfers: seq<bytes>)
    requires offset + pixels * 2 <= |vmem| && err < 0
    requires 0 < ArraySize(startbyte, txbuf.Length)
    modifies txbuf
    ensures ret in {0, err}
    ensures Written(startbyte, txbuf.Length, vmem[offset..offset + pixels * 2], accepted, ret, transfers)
  {
    hide Swapped, Payloads, Payload, WellFormed, SentTo, Written, FullTransfer;
    var arraySize, base := txbuf.Length / 2, 0;
    if startbyte != 0 {
      base := 1;
      arraySize := arraySize - 2;
      txbuf[0] := DataStart(startbyte);
    }
    ret, transfers := 0, [];
    var remain: nat := pixels;
    ghost var done: nat := 0;
    NothingSent(startbyte, txbuf.Length, vmem, offset, pixels);
    FullSize(startbyte, txbuf.Length);
    while remain > 0
      invariant ret == 0 && |transfers| <= accepted && done + remain == pixels
      invariant startbyte != 0 ==> txbuf[0] == DataStart(startbyte)
      invariant SentTo(startbyte, txbuf.Length, transfers, vmem, offset, done, remain > 0)
      decreases remain
    {
      var toCopy := if remain > arraySize then arraySize else remain;
      var t := FillTransfer(txbuf, startbyte, base, vmem, offset + 2 * (pixels - remain), toCopy);
      if |transfers| == accepted {
        ret := err;
        SentSome(startbyte, txbuf.Length, vmem, offset, pixels, done, accepted, ret, transfers);
        return;
      }
      OneMoreSent(startbyte, txbuf.Length, transfers, t, vmem, offset, done, toCopy, remain > toCopy);
      transfers := transfers + [t];
      done := done + toCopy;
      remain := remain - toCopy;
    }
    SentAll(startbyte, txbuf.Length, vmem, offset, pixels, accepted, transfers);
  }

  /** The transfers are well formed and carry the first `done` pixels. */
  ghost predicate SentTo(startbyte: byte, txbufLen: nat, transfers: seq<bytes>, vmem: bytes, offset: nat, done: nat,
                         more: bool)
  {
    && AllButLastFull(startbyte, txbufLen, transfers)
    && (more && transfers != [] ==> |transfers[|transfers| - 1]| == FullTransfer(startbyte, txbufLen))
    && offset + 2 * done <= |vmem|
    && (forall t :: t in transfers ==> WellFormed(startbyte, txbufLen, t))
    && Payloads(startbyte, transfers) == Swapped(vmem[offset..offset + 2 * done])
  }

  lemma NothingSent(startbyte: byte, txbufLen: nat, vmem: bytes, offset: nat, pixels: nat)
    requires offset + 2 * pixels <= |vmem|
    ensures SentTo(startbyte, txbufLen, [], vmem, offset, 0, pixels > 0)
  {
  }

  lemma FullSize(startbyte: byte, txbufLen: nat)
    ensures FullTransfer(startbyte, txbufLen) ==
            (if startbyte == 0 then 0 else 1) + ArraySize(startbyte, txbufLen) * 2
  {
  }

  lemma OneMoreSent(startbyte: byte, txbufLen: nat, transfers: seq<bytes>, t: bytes, vmem: bytes, offset: nat,
                    done: nat, count: nat, more: bool)
    requires SentTo(startbyte, txbufLen, transfers, vmem, offset, done, true) && WellFormed(startbyte, txbufLen, t)
    requires offset + 2 * (done + count) <= |vmem|
    requires Payload(startbyte, t) == Swapped(vmem[offset + 2 * done..offset + 2 * done + count * 2])
    requires more ==> |t| == FullTransfer(startbyte, txbufLen)
    ensures SentTo(startbyte, txbufLen, transfers + [t], vmem, offset, done + count, more)
  {
    hide Swapped, Payloads, Payload, WellFormed, FullTransfer;
    PayloadsSnoc(startbyte, transfers, t);
    SwappedPrefix(vmem, offset, done, done + count);
  }

  lemma SentSome(startbyte: byte, txbufLen: nat, vmem: bytes, offset: nat, pixels: nat, done: nat,
                 accepted: nat, ret: int, transfers: seq<bytes>)
    requires SentTo(startbyte, txbufLen, transfers, vmem, offset, done, true) && done <= pixels
    requires offset + 2 * pixels <= |vmem| && ret < 0 && |transfers| == accepted
    ensures Written(startbyte, txbufLen, vmem[offset..offset + pixels * 2], accepted, ret, transfers)
  {
    hide Swapped, Payloads, WellFormed;
    SwappedPrefix(vmem, offset, done, pixels);
  }

  lemma SentAll(startbyte: byte, txbufLen: nat, vmem: bytes, offset: nat, pixels: nat, accepted: nat,
                transfers: seq<bytes>)
    requires SentTo(startbyte, txbufLen, transfers, vmem, offset, pixels, false)
    ensures Written(startbyte, txbufLen, vmem[offset..offset + pixels * 2], accepted, 0, transfers)
  {
    hide Swapped, Payloads, WellFormed;
  }

  /** One transfer: the start byte, if any, and toCopy swapped pixels. */
  method FillTransfer(txbuf: array<byte>, startbyte: byte, base: nat, vmem: bytes, at: nat, toCopy: nat)
    returns (t: bytes)
    requires base == if startbyte == 0 then 0 else 1
    requires base + toCopy * 2 <= txbuf.Length && at + toCopy * 2 <= |vmem|
    requires startbyte != 0 ==> txbuf[0] == DataStart(startbyte)
    modifies txbuf
    ensures startbyte != 0 ==> txbuf[0] == DataStart(startbyte)
    ensures WellFormed(startbyte, txbuf.Length, t) && |t| == base + toCopy * 2
    ensures Payload(startbyte, t) == Swapped(vmem[at..at + toCopy * 2])
  {
    hide Swapped;
    CopySwapped(txbuf, base, vmem, at, toCopy);
    DataStartAnnounces(startbyte);
    t := txbuf[..base + toCopy * 2];
    assert t[base..] == Swapped(vmem[at..at + toCopy * 2]);
  }

  /** The first n pixels are the first m and the ones after them. */
  lemma SwappedPrefix(vmem: bytes, offset: nat, m: nat, n: nat)
    requires m <= n && offset + 2 * n <= |vmem|
    ensures Swapped(vmem[offset..offset + 2 * n]) ==
            Swapped(vmem[offset..offset + 2 * m]) + Swapped(vmem[offset + 2 * m..offset + 2 * n])
  {
    hide Swapped;
    assert vmem[offset..offset + 2 * n] == vmem[offset..offset + 2 * m] + vmem[offset + 2 * m..offset + 2 * n];
    SwappedAppend(vmem[offset..offset + 2 * m], vmem[offset + 2 * m..offset + 2 * n]);
  }

  /** The copy loop of one chunk. */
  method CopySwapped(txbuf: array<byte>, base: nat, vmem: bytes, at: nat, toCopy: nat)
    requires base + toCopy * 2 <= txbuf.Length && at + toCopy * 2 <= |vmem|
    modifies txbuf
    ensures txbuf[base..base + toCopy * 2] == Swapped(vmem[at..at + toCopy * 2])
    ensures txbuf[..base] == old(txbuf[..base])
  {
    for i := 0 to toCopy
      invariant txbuf[..base] == old(txbuf[..base])
      invariant forall k :: 0 <= k < 2 * i ==> Partner(k) < 2 * i && txbuf[base + k] == vmem[at + Partner(k)]
    {
      txbuf[base + 2 * i] := vmem[at + 2 * i + 1];
      txbuf[base + 2 * i + 1] := vmem[at + 2 * i];
    }
  }
}
