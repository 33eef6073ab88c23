/** The server-to-client pump: handshake pass-through, frame parsing, payload rewrite and re-encoding. */
module Relay {
  import opened Bytes
  import opened Search
  import opened Frames
  import opened Messages
  import SubMessages

  // ---------------------------------------------------------------- incremental parser

  /** The first frame is neither final nor a control frame. */
  ghost predicate StartsWithFragment(buf: bytes)
  {
    ParseFrame(buf).Complete? && ParseFrame(buf).frame.opcode !in {8, 9, 10} && !ParseFrame(buf).frame.fin
  }

  class WSFrameParser {
    var buf: bytes
    var msgOpcode: Option<nat>
    var msgPayload: bytes

    constructor ()
      ensures buf == [] && Pend() == IDLE
    {
      buf := [];
      msgOpcode := None;
      msgPayload := [];
    }

    function Pend(): Pending
      reads this
    {
      Pending(msgOpcode, msgPayload)
    }

    method Feed(data: bytes)
      modifies this`buf
      ensures buf == old(buf) + data
    {
      buf := buf + data;
    }

    /** Consumes one frame; consumes nothing while the frame is incomplete. */
    method TryParseOneFrame() returns (frame: Option<Frame>)
      modifies this`buf
      ensures match ParseFrame(old(buf))
              case Incomplete => frame == None && buf == old(buf)
              case Complete(f, size) => frame == Some(f) && buf == old(buf)[size..]
    {
      hide FromBigEndian, Mask;
      if |buf| < 2 {
        return None;
      }
      var b0, b1 := buf[0], buf[1];
      var fin, opcode := b0 / 128 == 1, b0 % 16;
      var masked, ln := b1 / 128 == 1, b1 % 128;
      var pos := 2;
      if ln == 126 {
        if |buf| < pos + 2 {
          return None;
        }
        ln := FromBigEndian(buf[pos..pos + 2]);
        pos := pos + 2;
      } else if ln == 127 {
        if |buf| < pos + 8 {
          return None;
        }
        ln := FromBigEndian(buf[pos..pos + 8]);
        pos := pos + 8;
      }
      var maskKey := None;
      if masked {
        if |buf| < pos + 4 {
          return None;
        }
        maskKey := Some(buf[pos..pos + 4]);
        pos := pos + 4;
      }
      assert ParseHeader(buf) == Some(Header(ln, maskKey, pos));
      if |buf| < pos + ln {
        return None;
      }
      var payload := Unmask(buf[pos..pos + ln], maskKey);
      buf := buf[pos + ln..];
      frame := Some(Frame(fin, opcode, payload));
    }

    /** The next message the buffered bytes complete, if any; the rest stays for the next call. */
    method NextCompleteMessage() returns (m: Option<Message>)
      modifies this
      ensures m.Some? ==> |buf| < |old(buf)|
      ensures m.None? ==> Drain(buf, Pend()) == Drained([], buf, Pend())
      ensures var d, e := Drain(old(buf), old(Pend())), Drain(buf, Pend());
              d == Drained(Listed(m) + e.messages, e.buf, e.pending)
      // a close, ping or pong frame comes out at once and leaves an open message alone
      ensures match ParseFrame(old(buf))
              case Incomplete => m == None && buf == old(buf) && Pend() == old(Pend())
              case Complete(f, size) =>
                && (f.opcode in {8, 9, 10} ==>
                      m == Some(Message(Some(f.opcode), f.payload)) && buf == old(buf)[size..] && Pend() == old(Pend()))
                && (f.opcode !in {8, 9, 10} && f.fin ==>
                      && buf == old(buf)[size..] && msgOpcode == None && msgPayload == []
                      && m == Some(if f.opcode == 0 then Message(old(msgOpcode), old(msgPayload) + f.payload)
                                   else Message(Some(f.opcode), f.payload)))
    {
      hide ParseFrame;
      ghost var start := Drain(buf, Pend());
      while true
        invariant (buf == old(buf) && Pend() == old(Pend())) || StartsWithFragment(old(buf))
        invariant |buf| <= |old(buf)|
        invariant Drain(buf, Pend()) == start
        decreases |buf|
      {
        var frame := TryParseOneFrame();
        if frame.None? {
          assert [] + start.messages == start.messages;
          return None;
        }
        var Frame(fin, opcode, payload) := frame.value;
        if opcode == 8 || opcode == 9 || opcode == 10 {
          return Some(Message(Some(opcode), payload));
        }
        if opcode != 0 {
          msgOpcode := Some(opcode);
          msgPayload := payload;
        } else {
          msgPayload := msgPayload + payload;
        }
        if fin {
          var opcodeOut, payloadOut := msgOpcode, msgPayload;
          msgOpcode := None;
          msgPayload := [];
          return Some(Message(opcodeOut, payloadOut));
        }
        assert forall ms: seq<Message> :: Listed(None) + ms == ms;
      }
    }
  }

  // ---------------------------------------------------------------- delivery of messages

  /** The message the client should get: binary payloads rewritten, everything else unchanged. */
  function Mapped(m: Message): Message
  {
    if m.opcode == Some(2) && SubMessages.RewritePayload(m.payload).Done?
    then m.(payload := SubMessages.RewritePayload(m.payload).payload)
    else m
  }

  /** A message leaves the pump unless one of its steps raises: no opcode, or a length field that overflows. */
  predicate Deliverable(m: Message)
  {
    && m.opcode.Some?
    && (m.opcode == Some(2) ==> SubMessages.RewritePayload(m.payload).Done?)
    && |Mapped(m).payload| < Pow256(8)
  }

  function Emit(m: Message): (r: Option<bytes>)
    ensures r.Some? <==> Deliverable(m)
  {
    if m.opcode.None? then None
    else if m.opcode.value != 2 then EncodeFrame(m.opcode.value, m.payload)
    else
      match SubMessages.RewritePayload(m.payload)
      case Overflow => None
      case Done(p) => EncodeFrame(2, p)
  }

  /** Bytes written so far, and whether the pump is still running. */
  datatype Sent = Sent(out: bytes, ok: bool)

  /** Messages are written in order; the first one that raises ends the pump. */
  function Deliver(ms: seq<Message>): Sent
  {
    if ms == [] then Sent([], true)
    else
      match Emit(ms[0])
      case None => Sent([], false)
      case Some(e) => var rest := Deliver(ms[1..]); Sent(e + rest.out, rest.ok)
  }

  /** Only opcode 2 marks a message whose payload is rewritten; every other message passes as it is. */
  lemma MappedByOpcode(m: Message)
    ensures Mapped(m).opcode == m.opcode
    ensures m.opcode != Some(2) ==> Mapped(m) == m
    ensures m.opcode == Some(2) && SubMessages.RewritePayload(m.payload).Done? ==>
              SubMessages.RewritePayload(m.payload) == SubMessages.Done(Mapped(m).payload)
  {
  }

  lemma {:induction false} DeliverAppend(a: seq<Message>, b: seq<Message>)
    ensures Deliver(a + b) ==
            if Deliver(a).ok then Sent(Deliver(a).out + Deliver(b).out, Deliver(b).ok) else Deliver(a)
  {
    hide Emit;
    if a == [] {
      assert a + b == b;
      assert [] + Deliver(b).out == Deliver(b).out;
    } else {
      DeliverAppend(a[1..], b);
      assert (a + b)[1..] == a[1..] + b;
      if Emit(a[0]).Some? {
        Associate(Emit(a[0]).value, Deliver(a[1..]).out, Deliver(b).out);
      }
    }
  }

  lemma {:induction false} DeliverOk(ms: seq<Message>)
    ensures Deliver(ms).ok <==> forall i :: 0 <= i < |ms| ==> Deliverable(ms[i])
  {
    if ms != [] {
      DeliverOk(ms[1..]);
      assert forall i :: 1 <= i < |ms| ==> ms[i] == ms[1..][i - 1];
    }
  }

  method EmitOne(m: Message) returns (r: Option<bytes>)
    ensures r == Emit(m)
  {
    hide SubMessages.RewritePayload, EncodeFrame;
    if m.opcode.None? {
      return None;
    }
    if m.opcode.value == 2 {
      var outcome := SubMessages.RewriteSubmessages(m.payload);
      if outcome.Overflow? {
        return None;
      }
      r := EncodeFrame(2, outcome.payload);
    } else {
      r := EncodeFrame(m.opcode.value, m.payload);
    }
  }

  // ---------------------------------------------------------------- the pump

  const TERMINATOR: bytes := [13, 10, 13, 10]

  /** An empty read is the end of the stream. */
  function UntilEof(chunks: seq<bytes>): (live: seq<bytes>)
    ensures live <= chunks
    ensures forall i :: 0 <= i < |live| ==> live[i] != []
    ensures |live| < |chunks| ==> chunks[|live|] == []
  {
    if chunks == [] || chunks[0] == [] then [] else [chunks[0]] + UntilEof(chunks[1..])
  }

  /** Chunks that end before byte n of the stream, that is before the one holding byte n - 1. */
  function ChunksBefore(chunks: seq<bytes>, n: nat): (k: nat)
    ensures k <= |chunks|
  {
    if chunks == [] || n <= |chunks[0]| then 0 else 1 + ChunksBefore(chunks[1..], n - |chunks[0]|)
  }

  /** What the pump writes when the header of the stream ends just before byte n. */
  function AfterHeader(live: seq<bytes>, n: nat): Sent
    requires n <= |Concat(live)|
  {
    var stream := Concat(live);
    var d := Deliver(Drain(stream[n..], IDLE).messages);
    Sent(Concat(live[..ChunksBefore(live, n)]) + stream[..n] + d.out, d.ok)
  }

  /**
   * The whole pump, stated on the whole stream: all of it is passed through if no header terminator
   * occurs; otherwise the chunks read before the one that completes the terminator, the full header,
   * and the delivered messages of everything after the header.
   */
  ghost predicate Pumps(chunks: seq<bytes>, sent: Sent)
  {
    var live := UntilEof(chunks);
    var stream := Concat(live);
    && (!Occurs(TERMINATOR, stream) ==> sent == Sent(stream, true))
    && forall i | FirstAt(TERMINATOR, stream, i) :: sent == AfterHeader(live, i + 4)
  }

  /** Writes every message the parser can complete; ok is false if one of them raised. */
  method DeliverBuffered(parser: WSFrameParser) returns (w: bytes, ok: bool)
    modifies parser
    ensures Sent(w, ok) == Deliver(old(Drain(parser.buf, parser.Pend())).messages)
    ensures ok ==> var d := old(Drain(parser.buf, parser.Pend())); parser.buf == d.buf && parser.Pend() == d.pending
  {
    hide Drain, Emit, ParseFrame;
    w, ok := [], true;
    ghost var start := Drain(parser.buf, parser.Pend());
    ghost var sent: seq<Message> := [];
    assert [] + start.messages == start.messages;
    while true
      invariant var d := Drain(parser.buf, parser.Pend());
                start == Drained(sent + d.messages, d.buf, d.pending)
      invariant ok && Deliver(sent) == Sent(w, true)
      decreases |parser.buf|
    {
      ghost var ahead := Drain(parser.buf, parser.Pend()).messages;
      var m := parser.NextCompleteMessage();
      if m.None? {
        assert sent + [] == sent;
        return;
      }
      ghost var next := Drain(parser.buf, parser.Pend()).messages;
      Associate(sent, [m.value], next);
      var e := EmitOne(m.value);
      DeliverAppend(sent, [m.value]);
      DeliverAppend(sent + [m.value], next);
      if e.None? {
        ok := false;
        assert w + [] == w;
        return;
      }
      assert Deliver([m.value]) == Sent(e.value, true) by { assert e.value + [] == e.value; }
      w := w + e.value;
      sent := sent + [m.value];
    }
  }

  /** Chunks before c hold the header, which ends in the first terminator, and then tail. */
  ghost predicate InFrames(live: seq<bytes>, c: nat, head: bytes, tail: bytes)
  {
    && c <= |live|
    && Concat(live[..c]) == head + tail
    && FirstAt(TERMINATOR, head, |head| - 4)
  }

  /** What has been written once the bytes of tail have been drained. */
  function Progress(live: seq<bytes>, head: bytes, tail: bytes): Sent
  {
    var d := Deliver(Drain(tail, IDLE).messages);
    Sent(Concat(live[..ChunksBefore(live, |head|)]) + head + d.out, d.ok)
  }

  method PumpRewriteS2C(chunks: seq<bytes>) returns (out: bytes, ok: bool)
    ensures Pumps(chunks, Sent(out, ok))
  {
    hide Drain, Deliver, Pumps, FirstAt, Occurs;
    var parser := new WSFrameParser();
    var handshakeDone := false;
    var handshakeBuf: bytes := [];
    out, ok := [], true;
    ghost var live := UntilEof(chunks);
    ghost var head: bytes, tail: bytes := [], [];
    var c := 0;
    NoTerminatorYet();
    while c < |chunks| && chunks[c] != []
      invariant 0 <= c <= |live| && ok
      invariant !handshakeDone ==> handshakeBuf == out == Concat(live[..c]) && !Occurs(TERMINATOR, out)
      invariant !handshakeDone ==> parser.buf == [] && parser.Pend() == IDLE
      invariant handshakeDone ==> InFrames(live, c, head, tail) && Sent(out, ok) == Progress(live, head, tail)
      invariant handshakeDone ==> parser.buf == Drain(tail, IDLE).buf && parser.Pend() == Drain(tail, IDLE).pending
    {
      var chunk := chunks[c];
      assert live[..c + 1] == live[..c] + [chunk];
      ConcatSnoc(live[..c], chunk);
      if !handshakeDone {
        handshakeBuf := handshakeBuf + chunk;
        var idx := Find(handshakeBuf, TERMINATOR);
        if idx.None? {
          out := out + chunk;
          c := c + 1;
          continue;
        }
        HeaderComplete(live, c, idx.value);
        head, tail := handshakeBuf[..idx.value + 4], handshakeBuf[idx.value + 4..];
        out := out + handshakeBuf[..idx.value + 4];
        handshakeDone := true;
        parser.Feed(handshakeBuf[idx.value + 4..]);
        handshakeBuf := [];
        assert parser.buf == tail;
        var w: bytes;
        w, ok := DeliverBuffered(parser);
        out := out + w;
      } else {
        MoreFrames(live, c, head, tail, chunk);
        tail := tail + chunk;
        parser.Feed(chunk);
        var w: bytes;
        w, ok := DeliverBuffered(parser);
        out := out + w;
      }
      c := c + 1;
      if !ok {
        Finish(chunks, c, head, tail);
        return;
      }
    }
    assert c == |live| && live[..c] == live;
    if handshakeDone {
      Finish(chunks, c, head, tail);
    } else {
      PassedThrough(chunks);
    }
  }

  lemma NoTerminatorYet()
    ensures !Occurs(TERMINATOR, [])
  {
  }

  lemma PassedThrough(chunks: seq<bytes>)
    requires !Occurs(TERMINATOR, Concat(UntilEof(chunks)))
    ensures Pumps(chunks, Sent(Concat(UntilEof(chunks)), true))
  {
  }

  lemma {:induction false} ChunksBeforeIs(chunks: seq<bytes>, k: nat, n: nat)
    requires k < |chunks| && |Concat(chunks[..k])| < n <= |Concat(chunks[..k + 1])|
    ensures ChunksBefore(chunks, n) == k
  {
    assert chunks[..k + 1] == [chunks[0]] + chunks[1..][..k];
    if k > 0 {
      assert chunks[..k] == [chunks[0]] + chunks[1..][..k - 1];
      ChunksBeforeIs(chunks[1..], k - 1, n - |chunks[0]|);
    }
  }

  /** The terminator was not complete before chunk c, so chunk c holds its last byte. */
  lemma HeaderComplete(live: seq<bytes>, c: nat, idx: nat)
    requires c < |live| && !Occurs(TERMINATOR, Concat(live[..c]))
    requires FirstAt(TERMINATOR, Concat(live[..c + 1]), idx)
    ensures idx + 4 <= |Concat(live[..c + 1])|
    ensures var s := Concat(live[..c + 1]); InFrames(live, c + 1, s[..idx + 4], s[idx + 4..])
    ensures ChunksBefore(live, idx + 4) == c
  {
    var (was, now) := (Concat(live[..c]), Concat(live[..c + 1]));
    assert live[..c + 1] == live[..c] + [live[c]];
    ConcatSnoc(live[..c], live[c]);
    if idx + 4 <= |was| {
      AtInPrefix(TERMINATOR, was, live[c], idx);
      assert false;
    }
    ChunksBeforeIs(live, c, idx + 4);
    var head := now[..idx + 4];
    assert now == head + now[idx + 4..];
    forall j | 0 <= j <= idx ensures At(TERMINATOR, head, j) <==> At(TERMINATOR, now, j) {
      AtInPrefix(TERMINATOR, head, now[idx + 4..], j);
    }
  }

  lemma MoreFrames(live: seq<bytes>, c: nat, head: bytes, tail: bytes, chunk: bytes)
    requires InFrames(live, c, head, tail) && c < |live| && chunk == live[c]
    requires Progress(live, head, tail).ok
    ensures InFrames(live, c + 1, head, tail + chunk)
    ensures var d := Drain(tail, IDLE);
            var e := Drain(d.buf + chunk, d.pending);
            && Drain(tail + chunk, IDLE).buf == e.buf && Drain(tail + chunk, IDLE).pending == e.pending
            && Progress(live, head, tail + chunk) ==
               Sent(Progress(live, head, tail).out + Deliver(e.messages).out, Deliver(e.messages).ok)
  {
    hide Drain, Deliver, FirstAt;
    assert live[..c + 1] == live[..c] + [chunk];
    ConcatSnoc(live[..c], chunk);
    Associate(head, tail, chunk);
    DrainAppend(tail, IDLE, chunk);
    var d := Drain(tail, IDLE);
    var e := Drain(d.buf + chunk, d.pending);
    DeliverAppend(d.messages, e.messages);
    Associate(Concat(live[..ChunksBefore(live, |head|)]) + head, Deliver(d.messages).out, Deliver(e.messages).out);
  }

  /** Once a message has raised, or the stream has ended, nothing more is written. */
  lemma Settled(live: seq<bytes>, head: bytes, tail: bytes, more: bytes)
    requires more == [] || !Progress(live, head, tail).ok
    ensures Progress(live, head, tail + more) == Progress(live, head, tail)
  {
    hide Drain, Deliver;
    DrainAppend(tail, IDLE, more);
    var d := Drain(tail, IDLE);
    DeliverAppend(d.messages, Drain(d.buf + more, d.pending).messages);
    assert more == [] ==> tail + more == tail;
  }

  lemma Finish(chunks: seq<bytes>, c: nat, head: bytes, tail: bytes)
    requires InFrames(UntilEof(chunks), c, head, tail)
    requires c == |UntilEof(chunks)| || !Progress(UntilEof(chunks), head, tail).ok
    ensures Pumps(chunks, Progress(UntilEof(chunks), head, tail))
  {
    hide Drain, Deliver;
    var live := UntilEof(chunks);
    var more := Concat(live[c..]);
    assert live == live[..c] + live[c..];
    ConcatAppend(live[..c], live[c..]);
    Associate(head, tail, more);
    FirstInPrefix(TERMINATOR, head, tail + more, |head| - 4);
    var stream := Concat(live);
    assert stream[..|head|] == head && stream[|head|..] == tail + more;
    Settled(live, head, tail, more);
    assert AfterHeader(live, |head|) == Progress(live, head, tail);
  }

  // ---------------------------------------------------------------- what the client receives

  function MapAll(ms: seq<Message>): (r: seq<Message>)
    ensures |r| == |ms|
    ensures forall i :: 0 <= i < |r| ==> r[i] == Mapped(ms[i])
  {
    seq(|ms|, i requires 0 <= i < |ms| => Mapped(ms[i]))
  }

  /** Opcodes a parser can report: four bits, and never the continuation opcode. */
  predicate Reported(op: Option<nat>)
  {
    op.Some? ==> 0 < op.value < 16
  }

  lemma {:induction false} DrainReports(buf: bytes, p: Pending)
    requires Reported(p.opcode)
    ensures forall i :: 0 <= i < |Drain(buf, p).messages| ==> Reported(Drain(buf, p).messages[i].opcode)
    decreases |buf|
  {
    if ParseFrame(buf).Complete? {
      var f := ParseFrame(buf);
      hide ParseFrame;
      DrainReports(buf[f.size..], Absorb(f.frame, p).1);
    }
  }

  /** Parsing what was delivered gives the mapped messages and leaves nothing over. */
  lemma {:induction false} ParseDelivered(ms: seq<Message>)
    requires Deliver(ms).ok
    requires forall i :: 0 <= i < |ms| ==> Reported(ms[i].opcode)
    ensures Drain(Deliver(ms).out, IDLE) == Drained(MapAll(ms), [], IDLE)
  {
    hide ParseFrame, EncodeFrame, SubMessages.RewritePayload;
    if ms != [] {
      var rest := Deliver(ms[1..]).out;
      var e := Emit(ms[0]).value;
      var m := Mapped(ms[0]);
      ParseDelivered(ms[1..]);
      ParseEncode(m.opcode.value, m.payload, rest);
      assert (e + rest)[|e|..] == rest;
      assert MapAll(ms) == [m] + MapAll(ms[1..]);
    }
  }

  /** The wire frame a message leaves in: final, unmasked, no reserved bits, the shortest length form. */
  function FrameOf(m: Message): WireFrame
    requires m.opcode.Some?
  {
    Minimal(m.opcode.value, m.payload)
  }

  function FramesFor(ms: seq<Message>): (ws: seq<WireFrame>)
    requires forall i :: 0 <= i < |ms| ==> ms[i].opcode.Some?
    ensures |ws| == |ms| && forall i :: 0 <= i < |ws| ==> ws[i] == FrameOf(ms[i])
  {
    seq(|ms|, i requires 0 <= i < |ms| => FrameOf(ms[i]))
  }

  /**
   * What is delivered is, byte for byte, one minimal wire frame for each mapped message, so any client that reads
   * the format of section 5.2 of RFC 6455 reads it.
   */
  lemma {:induction false} DeliveredIsMinimal(ms: seq<Message>)
    requires Deliver(ms).ok
    requires forall i :: 0 <= i < |ms| ==> Reported(ms[i].opcode)
    ensures forall i :: 0 <= i < |ms| ==> MapAll(ms)[i].opcode.Some?
    ensures AllValid(FramesFor(MapAll(ms)))
    ensures Deliver(ms).out == PrintAll(FramesFor(MapAll(ms)))
  {
    hide Emit, Mapped, FrameOf, AllValid, PrintAll, MapAll, FramesFor;
    if ms == [] {
      NoFrames();
    } else {
      DeliveredIsMinimal(ms[1..]);
      EmittedIsMinimal(ms[0]);
      var m, rest := Mapped(ms[0]), MapAll(ms[1..]);
      assert MapAll(ms) == [m] + rest;
      FrameFirst(m, rest);
    }
  }

  lemma NoFrames()
    ensures MapAll([]) == [] && FramesFor([]) == [] && AllValid([]) && PrintAll([]) == []
  {
  }

  lemma FrameFirst(m: Message, rest: seq<Message>)
    requires m.opcode.Some? && FrameOf(m).Valid()
    requires (forall i :: 0 <= i < |rest| ==> rest[i].opcode.Some?) && AllValid(FramesFor(rest))
    ensures forall i :: 0 <= i < |[m] + rest| ==> ([m] + rest)[i].opcode.Some?
    ensures AllValid(FramesFor([m] + rest))
    ensures PrintAll(FramesFor([m] + rest)) == FrameOf(m).Print() + PrintAll(FramesFor(rest))
  {
    hide FrameOf, WireFrame.Valid, WireFrame.Print;
    var ws, behind := FramesFor([m] + rest), FramesFor(rest);
    assert ws == [FrameOf(m)] + behind;
    assert ws[1..] == behind;
  }

  lemma EmittedIsMinimal(m: Message)
    requires Emit(m).Some? && Reported(m.opcode)
    ensures Mapped(m).opcode.Some?
    ensures FrameOf(Mapped(m)).Valid() && Emit(m).value == FrameOf(Mapped(m)).Print()
  {
    hide EncodeFrame, SubMessages.RewritePayload, Minimal, WireFrame.Valid, WireFrame.Print;
    EncodeIsShortest(Mapped(m).opcode.value, Mapped(m).payload);
  }

  /**
   * For every byte stream after the handshake on which no message raises, whatever its reserved bits,
   * masks, length forms and fragmentation: the client parses exactly the mapped messages of the server.
   */
  lemma ClientSeesMappedMessages(stream: bytes)
    requires Deliver(Drain(stream, IDLE).messages).ok
    ensures Drain(Deliver(Drain(stream, IDLE).messages).out, IDLE) ==
            Drained(MapAll(Drain(stream, IDLE).messages), [], IDLE)
  {
    DrainReports(stream, IDLE);
    ParseDelivered(Drain(stream, IDLE).messages);
  }

  /** Below nine tenths of 2^48 bytes no length field can overflow. */
  predicate Small(m: Message)
  {
    10 * |m.payload| < 9 * Pow256(6)
  }

  lemma SmallIsDeliverable(m: Message)
    requires Small(m) && m.opcode.Some?
    ensures Deliverable(m)
  {
    FieldLimits();
    SubMessages.NoOverflow(m.payload);
  }

  lemma {:induction false} ItemOpcodes(items: seq<Item>)
    requires forall i :: 0 <= i < |items| ==> ValidItem(items[i])
    ensures forall i :: 0 <= i < |MessagesOf(items)| ==> MessagesOf(items)[i].opcode.Some?
  {
    if items != [] {
      ItemOpcodes(items[1..]);
      if items[0].Data? {
        PieceOpcodes(items[0].pieces);
      }
    }
  }

  lemma {:induction false} PieceOpcodes(pieces: seq<Piece>)
    requires forall i :: 0 <= i < |pieces| ==> ValidPiece(pieces[i])
    ensures AllControl(PieceControls(pieces))
  {
    if pieces != [] {
      PieceOpcodes(pieces[1..]);
      assert ValidPiece(pieces[0]);
    }
  }

  lemma WellFormedDelivery(items: seq<Item>, ws: seq<WireFrame>)
    requires forall i :: 0 <= i < |items| ==> ValidItem(items[i])
    requires AllValid(ws) && Contents(ws) == FramesOf(items)
    requires forall i :: 0 <= i < |MessagesOf(items)| ==> Small(MessagesOf(items)[i])
    ensures Drain(PrintAll(ws), IDLE).messages == MessagesOf(items)
    ensures Deliver(MessagesOf(items)).ok
    ensures Drain(Deliver(MessagesOf(items)).out, IDLE) == Drained(MapAll(MessagesOf(items)), [], IDLE)
  {
    var ms := MessagesOf(items);
    WellFormedStream(items, ws);
    ItemOpcodes(items);
    forall i | 0 <= i < |ms| ensures Deliverable(ms[i]) {
      SmallIsDeliverable(ms[i]);
    }
    DeliverOk(ms);
    ClientSeesMappedMessages(PrintAll(ws));
  }

  /** The message the server sent as the client should have it; binary is opcode 2. */
  predicate Rewritten(sent: Message, received: Message)
  {
    && received.opcode == sent.opcode
    && (sent.opcode == Some(2) ==> SubMessages.RewritePayload(sent.payload) == SubMessages.Done(received.payload))
    && (sent.opcode != Some(2) ==> received.payload == sent.payload)
  }

  /**
   * End to end: a header, then any well-formed sequence of messages in any wire form, cut into any
   * chunks. The pump keeps running, writes the header bytes first, and what it writes after them
   * parses to the same messages in the same order, the binary payloads rewritten and the others unchanged.
   */
  lemma EndToEnd(chunks: seq<bytes>, head: bytes, items: seq<Item>, ws: seq<WireFrame>, sent: Sent)
    requires Pumps(chunks, sent)
    requires forall i :: 0 <= i < |items| ==> ValidItem(items[i])
    requires AllValid(ws) && Contents(ws) == FramesOf(items)
    requires FirstAt(TERMINATOR, head, |head| - 4)
    requires Concat(UntilEof(chunks)) == head + PrintAll(ws)
    requires forall i :: 0 <= i < |MessagesOf(items)| ==> Small(MessagesOf(items)[i])
    ensures sent.ok
    ensures var written := Concat(UntilEof(chunks)[..ChunksBefore(UntilEof(chunks), |head|)]) + head;
            && written <= sent.out
            && var d := Drain(sent.out[|written|..], IDLE);
               && d.buf == [] && d.pending == IDLE && |d.messages| == |MessagesOf(items)|
               && forall i :: 0 <= i < |d.messages| ==> Rewritten(MessagesOf(items)[i], d.messages[i])
  {
    hide Drain, Deliver, MessagesOf, PrintAll, ChunksBefore, FirstAt, Pumps, Mapped, Rewritten;
    WellFormedDelivery(items, ws);
    AfterThisHeader(chunks, head, PrintAll(ws), sent);
    var live := UntilEof(chunks);
    var written := Concat(live[..ChunksBefore(live, |head|)]) + head;
    assert sent.out == written + Deliver(MessagesOf(items)).out;
    assert sent.out[|written|..] == Deliver(MessagesOf(items)).out;
    AllRewritten(MessagesOf(items));
  }

  lemma AllRewritten(ms: seq<Message>)
    requires forall i :: 0 <= i < |ms| ==> Small(ms[i])
    ensures forall i :: 0 <= i < |ms| ==> Rewritten(ms[i], MapAll(ms)[i])
  {
    hide SubMessages.RewritePayload, Mapped, Small;
    forall i | 0 <= i < |ms| ensures Rewritten(ms[i], MapAll(ms)[i]) {
      MappedByOpcode(ms[i]);
      SmallIsDone(ms[i]);
    }
  }

  lemma SmallIsDone(m: Message)
    requires Small(m)
    ensures SubMessages.RewritePayload(m.payload).Done?
  {
    hide SubMessages.RewritePayload;
    SubMessages.NoOverflow(m.payload);
  }

  lemma AfterThisHeader(chunks: seq<bytes>, head: bytes, tail: bytes, sent: Sent)
    requires Pumps(chunks, sent)
    requires FirstAt(TERMINATOR, head, |head| - 4) && Concat(UntilEof(chunks)) == head + tail
    ensures var d := Deliver(Drain(tail, IDLE).messages);
            var live := UntilEof(chunks);
            sent == Sent(Concat(live[..ChunksBefore(live, |head|)]) + head + d.out, d.ok)
  {
    FirstInPrefix(TERMINATOR, head, tail, |head| - 4);
    hide Drain, Deliver, ChunksBefore, FirstAt;
    var stream := Concat(UntilEof(chunks));
    assert stream[|head|..] == tail && stream[..|head|] == head;
    assert sent == AfterHeader(UntilEof(chunks), |head|);
  }

  lemma EarlyChunks(live: seq<bytes>, n: nat)
    requires 0 < n <= |Concat(live)| && forall i :: 0 <= i < |live| ==> live[i] != []
    ensures live != []
    ensures Concat(live[..ChunksBefore(live, n)]) == [] <==> n <= |live[0]|
  {
  }

  lemma PrefixIsEmpty(early: bytes, rest: bytes)
    ensures early + rest == rest <==> early == []
  {
  }

  /**
   * The header reaches the client exactly once only if the chunk that completes it is the first one:
   * any earlier chunk is written as it arrives and again as part of the full header.
   */
  lemma HeaderOnce(chunks: seq<bytes>, i: nat, sent: Sent)
    requires Pumps(chunks, sent) && FirstAt(TERMINATOR, Concat(UntilEof(chunks)), i)
    ensures chunks != []
    ensures var stream := Concat(UntilEof(chunks));
            sent.out == stream[..i + 4] + Deliver(Drain(stream[i + 4..], IDLE).messages).out
            <==> i + 4 <= |chunks[0]|
  {
    hide Drain, Deliver, Concat, ChunksBefore;
    var live := UntilEof(chunks);
    var stream := Concat(live);
    EarlyChunks(live, i + 4);
    var early := Concat(live[..ChunksBefore(live, i + 4)]);
    var d := Deliver(Drain(stream[i + 4..], IDLE).messages).out;
    Associate(early, stream[..i + 4], d);
    PrefixIsEmpty(early, stream[..i + 4] + d);
  }

  lemma FirstOfTwo(a: bytes, b: bytes)
    requires a != [] && b != []
    ensures UntilEof([a, b]) == [a, b] && Concat([a, b]) == a + b
    ensures Concat([a, b][..1]) == a
  {
    var both, one := [a, b], [b];
    assert both[1..] == one && one[1..] == [];
    assert UntilEof(one) == one && UntilEof(both) == [a] + one == both;
    assert Concat(one) == b + Concat([]) == b && Concat(both) == a + Concat(one);
    assert both[..1] == [a] && [a][1..] == [];
    assert Concat([a]) == a + Concat([]) == a;
  }

  /** A header that arrives in two reads reaches the client with its first part written twice. */
  lemma HeaderInTwoReads(a: bytes, b: bytes, sent: Sent)
    requires a != [] && b != [] && FirstAt(TERMINATOR, a + b, |a + b| - 4)
    requires Pumps([a, b], sent)
    ensures sent == Sent(a + (a + b), true)
  {
    hide Concat, FirstAt, ParseFrame;
    FirstOfTwo(a, b);
    var live := [a, b];
    assert live[..0 + 1] == live[..1] && live[..1 + 1] == live;
    ChunksBeforeIs(live, 1, |a + b|);
    var stream := Concat(live);
    assert stream[..|stream|] == stream && stream[|stream|..] == [];
    assert sent == AfterHeader(live, |stream|);
    NothingToDeliver();
    assert a + stream + [] == a + (a + b);
  }

  lemma NothingToDeliver()
    ensures Deliver(Drain([], IDLE).messages) == Sent([], true)
  {
    var none: bytes := [];
    assert ParseHeader(none).None?;
    assert ParseFrame(none).Incomplete?;
    assert Drain(none, IDLE).messages == [];
  }

  /** The shortest example: the terminator itself, cut in the middle. */
  lemma TerminatorInTwoReads(sent: Sent)
    requires Pumps([[13, 10], [13, 10]], sent)
    ensures sent.out == [13, 10, 13, 10, 13, 10]
  {
    hide Pumps;
    var a: bytes := [13, 10];
    assert a + a == TERMINATOR;
    assert At(TERMINATOR, TERMINATOR, 0);
    HeaderInTwoReads(a, a, sent);
  }
}
