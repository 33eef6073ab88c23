/** RFC 6455 frames: the incremental parser, the relay's encoder and an independent wire format. */
module Frames {
  import opened Bytes
  import opened Bits

  datatype Frame = Frame(fin: bool, opcode: nat, payload: bytes)

  datatype Parsed = Incomplete | Complete(frame: Frame, size: nat)

  // ---------------------------------------------------------------- masking

  /** Bitwise exclusive or of the n low bits. */
  function XorBits(a: nat, b: nat, n: nat): nat
    decreases n
  {
    if n == 0 then 0 else (if a % 2 == b % 2 then 0 else 1) + 2 * XorBits(a / 2, b / 2, n - 1)
  }

  lemma {:induction false} XorBitsTwice(a: nat, b: nat, n: nat)
    requires a < Pow2(n)
    ensures XorBits(a, b, n) < Pow2(n)
    ensures XorBits(XorBits(a, b, n), b, n) == a
    decreases n
  {
    if n != 0 {
      XorBitsTwice(a / 2, b / 2, n - 1);
    }
  }

  lemma XorSplit(a: nat, b: nat, n: nat)
    requires n > 0
    ensures XorBits(a, b, n) % 2 == (a + b) % 2 && XorBits(a, b, n) / 2 == XorBits(a / 2, b / 2, n - 1)
  {
    var low, rest := if a % 2 == b % 2 then 0 else 1, XorBits(a / 2, b / 2, n - 1);
    assert XorBits(a, b, n) == low + 2 * rest;
    hide XorBits;
    ParityOfSum(a, b);
    Halved(low, rest);
  }

  lemma ParityOfSum(a: nat, b: nat)
    ensures (a + b) % 2 == if a % 2 == b % 2 then 0 else 1
  {
  }

  lemma Halved(low: nat, rest: nat)
    requires low < 2
    ensures (low + 2 * rest) % 2 == low && (low + 2 * rest) / 2 == rest
  {
  }

  /** Every bit of the result is the sum, modulo two, of the bits of the operands. */
  lemma {:induction false} XorBitAt(a: nat, b: nat, n: nat, k: nat)
    requires k < n
    ensures XorBits(a, b, n) / Pow2(k) % 2 == (a / Pow2(k) + b / Pow2(k)) % 2
    decreases n
  {
    hide XorBits;
    XorSplit(a, b, n);
    if k > 0 {
      var p := Pow2(k - 1);
      assert Pow2(k) == 2 * p;
      XorBitAt(a / 2, b / 2, n - 1, k - 1);
      HalfQuotient(a, p);
      HalfQuotient(b, p);
      HalfQuotient(XorBits(a, b, n), p);
    }
  }

  function Xor(a: byte, b: byte): byte
  {
    Pow2Of8();
    XorBitsTwice(a, b, 8);
    XorBits(a, b, 8)
  }

  lemma XorTwice(a: byte, b: byte)
    ensures Xor(Xor(a, b), b) == a
  {
    Pow2Of8();
    XorBitsTwice(a, b, 8);
  }

  /** Section 5.3: byte j is combined with byte j mod 4 of the key; the same step masks and unmasks. */
  function Mask(payload: bytes, key: bytes): (m: bytes)
    requires |key| == 4
    ensures |m| == |payload|
  {
    seq(|payload|, j requires 0 <= j < |payload| => Xor(payload[j], key[j % 4]))
  }

  /** Bit k of masked byte j is the sum of the bits of payload byte j and of key byte j mod 4. */
  lemma MaskBitAt(payload: bytes, key: bytes, j: nat, k: nat)
    requires |key| == 4 && j < |payload| && k < 8
    ensures Mask(payload, key)[j] / Pow2(k) % 2 == (payload[j] / Pow2(k) + key[j % 4] / Pow2(k)) % 2
  {
    hide XorBits, Pow2;
    XorBitAt(payload[j], key[j % 4], 8, k);
  }

  lemma MaskTwice(payload: bytes, key: bytes)
    requires |key| == 4
    ensures Mask(Mask(payload, key), key) == payload
  {
    forall j | 0 <= j < |payload| ensures Mask(Mask(payload, key), key)[j] == payload[j] {
      XorTwice(payload[j], key[j % 4]);
    }
  }

  function Unmask(raw: bytes, key: Option<bytes>): (m: bytes)
    requires key.Some? ==> |key.value| == 4
    ensures |m| == |raw|
  {
    if key.Some? then Mask(raw, key.value) else raw
  }

  // ---------------------------------------------------------------- parser

  /** Payload length, masking key and size of everything before the payload. */
  datatype Header = Header(len: nat, key: Option<bytes>, size: nat)

  function ExtensionSize(code: nat): nat
  {
    if code == 126 then 2 else if code == 127 then 8 else 0
  }

  function ParseHeader(buf: bytes): (r: Option<Header>)
    ensures r.Some? ==> 2 <= r.value.size <= |buf| && (r.value.key.Some? ==> |r.value.key.value| == 4)
  {
    if |buf| < 2 then None
    else
      var code := buf[1] % 128;
      var pos := 2 + ExtensionSize(code);
      if |buf| < pos then None
      else
        var len := if code < 126 then code else FromBigEndian(buf[2..pos]);
        if buf[1] / 128 == 0 then Some(Header(len, None, pos))
        else if |buf| < pos + 4 then None
        else Some(Header(len, Some(buf[pos..pos + 4]), pos + 4))
  }

  /** One frame from the start of buf, or Incomplete while any of its bytes is missing. */
  function ParseFrame(buf: bytes): (r: Parsed)
    ensures r.Complete? ==> 2 <= r.size <= |buf| && r.frame.opcode < 16
  {
    var h := ParseHeader(buf);
    if h.None? || |buf| < h.value.size + h.value.len then Incomplete
    else
      var end := h.value.size + h.value.len;
      Complete(Frame(buf[0] / 128 == 1, buf[0] % 16, Unmask(buf[h.value.size..end], h.value.key)), end)
  }

  lemma SliceIsStable(buf: bytes, more: bytes, i: nat, j: nat)
    requires i <= j <= |buf|
    ensures (buf + more)[i..j] == buf[i..j]
  {
  }

  lemma HeaderIsStable(buf: bytes, more: bytes)
    requires ParseHeader(buf).Some?
    ensures ParseHeader(buf + more) == ParseHeader(buf)
  {
    hide FromBigEndian;
    var pos := 2 + ExtensionSize(buf[1] % 128);
    SliceIsStable(buf, more, 2, pos);
    if pos + 4 <= |buf| {
      SliceIsStable(buf, more, pos, pos + 4);
    }
  }

  /** Later bytes never change a frame that is already complete. */
  lemma ParseIsStable(buf: bytes, more: bytes)
    requires ParseFrame(buf).Complete?
    ensures ParseFrame(buf + more) == ParseFrame(buf)
  {
    HeaderIsStable(buf, more);
    hide ParseHeader, Mask;
    var h := ParseHeader(buf).value;
    SliceIsStable(buf, more, h.size, h.size + h.len);
  }

  // ---------------------------------------------------------------- encoder

  /** A final, unmasked frame with the shortest length field; None where `to_bytes(8)` raises OverflowError. */
  function EncodeFrame(opcode: nat, payload: bytes): (r: Option<bytes>)
    ensures r.Some? <==> |payload| < Pow256(8)
  {
    var n := |payload|;
    var first: byte := 128 + opcode % 16;
    FieldLimits();
    if n < 126 then Some([first, n] + payload)
    else if n < 65536 then Some([first, 126] + BigEndian(n, 2) + payload)
    else if n < Pow256(8) then Some([first, 127] + BigEndian(n, 8) + payload)
    else None
  }

  // ---------------------------------------------------------------- the wire format of section 5.2

  datatype LengthForm = Short | Medium | Long

  /** Every choice a sender has: reserved bits, an optional masking key and any length form that fits. */
  datatype WireFrame = WireFrame(frame: Frame, rsv: nat, key: Option<bytes>, form: LengthForm)
  {
    predicate Valid()
    {
      && rsv < 8 && frame.opcode < 16
      && (key.Some? ==> |key.value| == 4)
      && (form.Short? ==> |frame.payload| < 126)
      && |frame.payload| < Pow256(if form.Medium? then 2 else 8)
    }

    function Code(): byte
      requires Valid()
    {
      match form case Short => |frame.payload| case Medium => 126 case Long => 127
    }

    function Extension(): bytes
      requires Valid()
    {
      match form
      case Short => []
      case Medium => BigEndian(|frame.payload|, 2)
      case Long => BigEndian(|frame.payload|, 8)
    }

    function PrintHeader(): bytes
      requires Valid()
    {
      [(if frame.fin then 128 else 0) + 16 * rsv + frame.opcode, (if key.Some? then 128 else 0) + Code()]
      + Extension()
      + key.GetOr([])
    }

    function Print(): bytes
      requires Valid()
    {
      PrintHeader() + Unmask(frame.payload, key)
    }
  }

  lemma HeaderOfPrinted(w: WireFrame, rest: bytes)
    requires w.Valid()
    ensures ParseHeader(w.PrintHeader() + rest) == Some(Header(|w.frame.payload|, w.key, |w.PrintHeader()|))
  {
    hide BigEndian, FromBigEndian, Pow256;
    var buf := w.PrintHeader() + rest;
    var n := |w.frame.payload|;
    var pos := 2 + ExtensionSize(w.Code());
    assert buf[1] % 128 == w.Code();
    assert buf[2..pos] == w.Extension();
    if w.form.Medium? {
      DecodeEncode(n, 2);
    } else if w.form.Long? {
      DecodeEncode(n, 8);
    }
    assert w.key.Some? ==> buf[pos..pos + 4] == w.key.value;
  }

  /** Whatever the sender chose, the parser recovers the frame and consumes exactly its bytes. */
  lemma ParsePrint(w: WireFrame, rest: bytes)
    requires w.Valid()
    ensures ParseFrame(w.Print() + rest) == Complete(w.frame, |w.Print()|)
  {
    hide ParseHeader, Mask, ExtensionSize;
    var head := w.PrintHeader();
    var raw := Unmask(w.frame.payload, w.key);
    Associate(head, raw, rest);
    HeaderOfPrinted(w, raw + rest);
    HeaderBits(w);
    assert (head + (raw + rest))[|head|..|head| + |raw|] == raw;
    assert Unmask(raw, w.key) == w.frame.payload by {
      if w.key.Some? {
        MaskTwice(w.frame.payload, w.key.value);
      }
    }
  }

  lemma HeaderBits(w: WireFrame)
    requires w.Valid()
    ensures w.PrintHeader()[0] / 128 == (if w.frame.fin then 1 else 0) && w.PrintHeader()[0] % 16 == w.frame.opcode
  {
  }

  /** Conversely, every frame the parser accepts is a printed wire frame. */
  lemma PrintParse(buf: bytes) returns (w: WireFrame)
    requires ParseFrame(buf).Complete?
    ensures w.Valid() && w.frame == ParseFrame(buf).frame
    ensures w.Print() == buf[..ParseFrame(buf).size]
  {
    hide BigEndian, Pow256, Mask;
    var code := buf[1] % 128;
    var p := ParseFrame(buf);
    var h := ParseHeader(buf).value;
    w := WireFrame(p.frame, buf[0] / 16 % 8, h.key, if code < 126 then Short else if code == 126 then Medium else Long);
    HeaderFromParsed(buf, w);
    if h.key.Some? {
      MaskTwice(buf[h.size..p.size], h.key.value);
    }
    assert buf[..p.size] == buf[..h.size] + buf[h.size..p.size];
  }

  lemma HeaderFromParsed(buf: bytes, w: WireFrame)
    requires ParseFrame(buf).Complete? && w.frame == ParseFrame(buf).frame
    requires w.rsv == buf[0] / 16 % 8 && w.key == ParseHeader(buf).value.key
    requires var code := buf[1] % 128;
             w.form == if code < 126 then Short else if code == 126 then Medium else Long
    ensures w.Valid() && w.PrintHeader() == buf[..ParseHeader(buf).value.size]
  {
    hide BigEndian, FromBigEndian, Pow256, Unmask;
    var code := buf[1] % 128;
    var pos := 2 + ExtensionSize(code);
    EncodeDecode(buf[2..pos]);
    FieldLimits();
    HeaderBytes(buf[0]);
    assert buf[..pos] == [buf[0], buf[1]] + buf[2..pos];
    assert w.key.Some? ==> buf[..pos + 4] == buf[..pos] + buf[pos..pos + 4];
  }

  lemma HeaderBytes(b: byte)
    ensures (if b / 128 == 1 then 128 else 0) + 16 * (b / 16 % 8) + b % 16 == b
    ensures (if b / 128 == 1 then 128 else 0) + b % 128 == b
  {
  }

  /** The final, unmasked wire frame without reserved bits, in the shortest length form. */
  function Minimal(opcode: nat, payload: bytes): WireFrame
  {
    WireFrame(Frame(true, opcode, payload), 0, None,
              if |payload| < 126 then Short else if |payload| < 65536 then Medium else Long)
  }

  /** The encoder prints the minimal wire frame, and no wire frame carries the payload in fewer bytes. */
  lemma EncodeIsShortest(opcode: nat, payload: bytes)
    requires opcode < 16 && |payload| < Pow256(8)
    ensures Minimal(opcode, payload).Valid()
    ensures EncodeFrame(opcode, payload) == Some(Minimal(opcode, payload).Print())
    ensures forall w: WireFrame | w.Valid() && w.frame.payload == payload ::
              |EncodeFrame(opcode, payload).value| <= |w.Print()|
  {
    FieldLimits();
    hide BigEndian, FromBigEndian, Pow256;
    var w := Minimal(opcode, payload);
    assert w.Print() == [128 + opcode, w.Code()] + w.Extension() + payload;
    assert w.form.Short? ==> [128 + opcode, w.Code()] + w.Extension() == [128 + opcode, w.Code()];
  }

  /** The bytes of the three length forms, by number. */
  lemma EncodedBytes(opcode: nat, payload: bytes)
    requires opcode < 16 && |payload| < 0x1_0000_0000_0000_0000
    ensures |payload| < 126 ==> EncodeFrame(opcode, payload) == Some([128 + opcode, |payload|] + payload)
    ensures 126 <= |payload| < 65536 ==>
              EncodeFrame(opcode, payload) == Some([128 + opcode, 126, |payload| / 256, |payload| % 256] + payload)
    ensures 65536 <= |payload| ==>
              && |payload| < Pow256(8)
              && EncodeFrame(opcode, payload) == Some([128 + opcode, 127] + BigEndian(|payload|, 8) + payload)
  {
    FieldLimits();
    if 126 <= |payload| < 65536 {
      TwoBytes(|payload|);
      assert [128 + opcode, 126] + [|payload| / 256, |payload| % 256]
          == [128 + opcode, 126, |payload| / 256, |payload| % 256];
    }
  }

  /** The bytes of every wire frame, by number: flags and opcode, mask bit and length, key, masked payload. */
  lemma WireBytes(w: WireFrame)
    requires w.Valid()
    ensures var first := (if w.frame.fin then 128 else 0) + 16 * w.rsv + w.frame.opcode;
            var (mask, n) := (if w.key.Some? then 128 else 0, |w.frame.payload|);
            var tail := if w.key.Some? then w.key.value + Mask(w.frame.payload, w.key.value) else w.frame.payload;
            && first < 256 && n < Pow256(8)
            && (w.form.Short? ==> n < 126 && w.Print() == [first, mask + n] + tail)
            && (w.form.Medium? ==> n < 0x1_0000 && w.Print() == [first, mask + 126, n / 256, n % 256] + tail)
            && (w.form.Long? ==> w.Print() == [first, mask + 127] + BigEndian(n, 8) + tail)
  {
    hide Mask, BigEndian, Pow256;
    FieldLimits();
    if w.form.Medium? {
      TwoBytes(|w.frame.payload|);
    }
  }

  const HELLO: bytes := [0x48, 0x65, 0x6c, 0x6c, 0x6f]

  function Differ(x: nat, y: nat): nat
  {
    if x % 2 == y % 2 then 0 else 1
  }

  lemma XorStep(a: nat, b: nat, n: nat)
    requires n > 0
    ensures XorBits(a, b, n) == Differ(a, b) + 2 * XorBits(a / 2, b / 2, n - 1)
  {
  }

  lemma FourBits(a: nat, b: nat, n: nat)
    requires n >= 4
    ensures XorBits(a, b, n) == Differ(a, b) + 2 * Differ(a / 2, b / 2) + 4 * Differ(a / 4, b / 4)
                                + 8 * Differ(a / 8, b / 8) + 16 * XorBits(a / 16, b / 16, n - 4)
  {
    hide XorBits, Differ;
    XorStep(a, b, n);
    XorStep(a / 2, b / 2, n - 1);
    XorStep(a / 4, b / 4, n - 2);
    XorStep(a / 8, b / 8, n - 3);
  }

  lemma NoBits(a: nat, b: nat)
    ensures XorBits(a, b, 0) == 0
  {
  }

  lemma MaskedH(a: byte, b: byte)
    requires a == 0x7f && b == 0x37
    ensures Xor(a, b) == 0x48
  {
    hide XorBits;
    FourBits(a, b, 8);
    FourBits(a / 16, b / 16, 4);
    NoBits(a / 16 / 16, b / 16 / 16);
  }

  lemma MaskedE(a: byte, b: byte)
    requires a == 0x9f && b == 0xfa
    ensures Xor(a, b) == 0x65
  {
    hide XorBits;
    FourBits(a, b, 8);
    FourBits(a / 16, b / 16, 4);
    NoBits(a / 16 / 16, b / 16 / 16);
  }

  lemma MaskedL(a: byte, b: byte)
    requires a == 0x4d && b == 0x21
    ensures Xor(a, b) == 0x6c
  {
    hide XorBits;
    FourBits(a, b, 8);
    FourBits(a / 16, b / 16, 4);
    NoBits(a / 16 / 16, b / 16 / 16);
  }

  lemma MaskedSecondL(a: byte, b: byte)
    requires a == 0x51 && b == 0x3d
    ensures Xor(a, b) == 0x6c
  {
    hide XorBits;
    FourBits(a, b, 8);
    FourBits(a / 16, b / 16, 4);
    NoBits(a / 16 / 16, b / 16 / 16);
  }

  lemma MaskedO(a: byte, b: byte)
    requires a == 0x58 && b == 0x37
    ensures Xor(a, b) == 0x6f
  {
    hide XorBits;
    FourBits(a, b, 8);
    FourBits(a / 16, b / 16, 4);
    NoBits(a / 16 / 16, b / 16 / 16);
  }

  lemma MaskedHello()
    ensures Mask([0x7f, 0x9f, 0x4d, 0x51, 0x58], [0x37, 0xfa, 0x21, 0x3d]) == HELLO
  {
    hide Xor;
    MaskedH(0x7f, 0x37);
    MaskedE(0x9f, 0xfa);
    MaskedL(0x4d, 0x21);
    MaskedSecondL(0x51, 0x3d);
    MaskedO(0x58, 0x37);
  }

  /** The unmasked and the masked text message, and the masked pong, of section 5.7 of RFC 6455. */
  lemma StandardExamples()
    ensures ParseFrame([0x81, 0x05] + HELLO) == Complete(Frame(true, 1, HELLO), 7)
    ensures ParseFrame([0x81, 0x85, 0x37, 0xfa, 0x21, 0x3d, 0x7f, 0x9f, 0x4d, 0x51, 0x58])
         == Complete(Frame(true, 1, HELLO), 11)
    ensures ParseFrame([0x8a, 0x85, 0x37, 0xfa, 0x21, 0x3d, 0x7f, 0x9f, 0x4d, 0x51, 0x58])
         == Complete(Frame(true, 10, HELLO), 11)
  {
    MaskedHello();
    hide Mask;
    var plain := [0x81, 0x05] + HELLO;
    assert plain[2..7] == HELLO;
    var masked: bytes := [0x81, 0x85, 0x37, 0xfa, 0x21, 0x3d, 0x7f, 0x9f, 0x4d, 0x51, 0x58];
    assert masked[2..6] == [0x37, 0xfa, 0x21, 0x3d] && masked[6..11] == [0x7f, 0x9f, 0x4d, 0x51, 0x58];
    var pong := masked[0 := 0x8a];
    assert pong[2..6] == [0x37, 0xfa, 0x21, 0x3d] && pong[6..11] == [0x7f, 0x9f, 0x4d, 0x51, 0x58];
    assert pong == [0x8a, 0x85, 0x37, 0xfa, 0x21, 0x3d, 0x7f, 0x9f, 0x4d, 0x51, 0x58];
  }

  /** Parsing what the encoder wrote gives back opcode and payload and leaves the bytes after it. */
  lemma ParseEncode(opcode: nat, payload: bytes, rest: bytes)
    requires opcode < 16 && |payload| < Pow256(8)
    ensures var e := EncodeFrame(opcode, payload).value;
            ParseFrame(e + rest) == Complete(Frame(true, opcode, payload), |e|)
  {
    EncodeIsShortest(opcode, payload);
    ParsePrint(Minimal(opcode, payload), rest);
  }
}
