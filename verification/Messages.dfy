/**
 * Messages over frames: the reassembly step of the parser, the messages of a whole byte stream,
 * and an independent description of well-formed fragmentation (RFC 6455, sections 5.4 and 5.5).
 */
module Messages {
  import opened Bytes
  import opened Frames

  /** The opcode is None when a continuation frame arrives with no message to continue. */
  datatype Message = Message(opcode: Option<nat>, payload: bytes)

  /** The fields `_msg_opcode` and `_msg_payload` of the parser. */
  datatype Pending = Pending(opcode: Option<nat>, payload: bytes)

  const IDLE := Pending(None, [])

  /** One frame of the stream: at most one message comes out. */
  function Absorb(f: Frame, p: Pending): (Option<Message>, Pending)
  {
    if f.opcode == 8 || f.opcode == 9 || f.opcode == 10 then (Some(Message(Some(f.opcode), f.payload)), p)
    else
      var q := if f.opcode != 0 then Pending(Some(f.opcode), f.payload) else Pending(p.opcode, p.payload + f.payload);
      if f.fin then (Some(Message(q.opcode, q.payload)), IDLE) else (None, q)
  }

  function Listed(m: Option<Message>): seq<Message>
  {
    if m.Some? then [m.value] else []
  }

  datatype Drained = Drained(messages: seq<Message>, buf: bytes, pending: Pending)

  /** Every message the bytes complete, and what stays buffered. */
  function Drain(buf: bytes, p: Pending): Drained
    decreases |buf|
  {
    match ParseFrame(buf)
    case Incomplete => Drained([], buf, p)
    case Complete(f, size) =>
      var (m, q) := Absorb(f, p);
      var d := Drain(buf[size..], q);
      Drained(Listed(m) + d.messages, d.buf, d.pending)
  }

  /** Bytes that arrive later can be drained later. */
  lemma {:induction false} DrainAppend(buf: bytes, p: Pending, more: bytes)
    ensures var d := Drain(buf, p);
            var e := Drain(d.buf + more, d.pending);
            Drain(buf + more, p) == Drained(d.messages + e.messages, e.buf, e.pending)
    decreases |buf|
  {
    hide ParseFrame, Absorb;
    if ParseFrame(buf).Incomplete? {
      var e := Drain(buf + more, p);
      assert [] + e.messages == e.messages;
    } else {
      var f := ParseFrame(buf);
      var (m, q) := Absorb(f.frame, p);
      ParseIsStable(buf, more);
      assert (buf + more)[f.size..] == buf[f.size..] + more;
      DrainAppend(buf[f.size..], q, more);
      var d := Drain(buf[f.size..], q);
      var e := Drain(d.buf + more, d.pending);
      Associate(Listed(m), d.messages, e.messages);
    }
  }

  function DrainChunks(chunks: seq<bytes>, buf: bytes, p: Pending): Drained
  {
    if chunks == [] then Drained([], buf, p)
    else
      var d := Drain(buf + chunks[0], p);
      var e := DrainChunks(chunks[1..], d.buf, d.pending);
      Drained(d.messages + e.messages, e.buf, e.pending)
  }

  /** Feeding a stream chunk by chunk gives the messages, buffer and fragment state of feeding it at once. */
  lemma {:induction false} ChunkIndependence(chunks: seq<bytes>, buf: bytes, p: Pending)
    requires Drain(buf, p) == Drained([], buf, p)
    ensures DrainChunks(chunks, buf, p) == Drain(buf + Concat(chunks), p)
  {
    hide Drain;
    if chunks == [] {
      assert buf + Concat(chunks) == buf;
    } else {
      var d := Drain(buf + chunks[0], p);
      DrainIsDone(buf + chunks[0], p);
      ChunkIndependence(chunks[1..], d.buf, d.pending);
      DrainAppend(buf + chunks[0], p, Concat(chunks[1..]));
      assert buf + Concat(chunks) == (buf + chunks[0]) + Concat(chunks[1..]);
    }
  }

  lemma {:induction false} DrainIsDone(buf: bytes, p: Pending)
    ensures var d := Drain(buf, p); Drain(d.buf, d.pending) == Drained([], d.buf, d.pending)
    decreases |buf|
  {
    hide ParseFrame, Absorb;
    if ParseFrame(buf).Complete? {
      var f := ParseFrame(buf);
      DrainIsDone(buf[f.size..], Absorb(f.frame, p).1);
    }
  }

  // ---------------------------------------------------------------- streams of wire frames

  predicate AllValid(ws: seq<WireFrame>)
  {
    forall i :: 0 <= i < |ws| ==> ws[i].Valid()
  }

  function PrintAll(ws: seq<WireFrame>): bytes
    requires AllValid(ws)
  {
    if ws == [] then [] else ws[0].Print() + PrintAll(ws[1..])
  }

  /** What the parser keeps of wire frames: reserved bits, masks and length forms are gone. */
  function Contents(ws: seq<WireFrame>): (fs: seq<Frame>)
    ensures |fs| == |ws|
    ensures forall i :: 0 <= i < |ws| ==> fs[i] == ws[i].frame
  {
    seq(|ws|, i requires 0 <= i < |ws| => ws[i].frame)
  }

  datatype Absorbed = Absorbed(messages: seq<Message>, pending: Pending)

  function AbsorbAll(fs: seq<Frame>, p: Pending): Absorbed
  {
    if fs == [] then Absorbed([], p)
    else
      var (m, q) := Absorb(fs[0], p);
      var rest := AbsorbAll(fs[1..], q);
      Absorbed(Listed(m) + rest.messages, rest.pending)
  }

  /** Draining printed frames is absorbing their contents. */
  lemma {:induction false} DrainPrinted(ws: seq<WireFrame>, p: Pending)
    requires AllValid(ws)
    ensures var a := AbsorbAll(Contents(ws), p);
            Drain(PrintAll(ws), p) == Drained(a.messages, [], a.pending)
  {
    if ws != [] {
      var tail := PrintAll(ws[1..]);
      var q := Absorb(ws[0].frame, p).1;
      ParsePrint(ws[0], tail);
      DrainPrinted(ws[1..], q);
      assert Contents(ws)[1..] == Contents(ws[1..]);
      assert PrintAll(ws)[|ws[0].Print()|..] == tail;
      hide ParseFrame;
    }
  }

  lemma {:induction false} AbsorbAppend(a: seq<Frame>, b: seq<Frame>, p: Pending)
    ensures var x := AbsorbAll(a, p);
            var y := AbsorbAll(b, x.pending);
            AbsorbAll(a + b, p) == Absorbed(x.messages + y.messages, y.pending)
  {
    hide Absorb;
    if a == [] {
      assert a + b == b;
      assert [] + AbsorbAll(b, p).messages == AbsorbAll(b, p).messages;
    } else {
      var (m, q) := Absorb(a[0], p);
      AbsorbAppend(a[1..], b, q);
      assert (a + b)[1..] == a[1..] + b;
      var x := AbsorbAll(a[1..], q);
      Associate(Listed(m), x.messages, AbsorbAll(b, x.pending).messages);
    }
  }

  // ---------------------------------------------------------------- well-formed fragmentation

  /** A later fragment of a message, after the control frames interleaved before it. */
  datatype Piece = Piece(controls: seq<Message>, payload: bytes)

  /** A control frame between messages, or a data message in one or more fragments. */
  datatype Item = Control(message: Message) | Data(opcode: nat, first: bytes, pieces: seq<Piece>)

  /** Close, ping and pong, by the numbers of section 5.5 of RFC 6455. */
  predicate ControlMessage(m: Message)
  {
    m.opcode in {Some(8), Some(9), Some(10)}
  }

  predicate AllControl(ms: seq<Message>)
  {
    forall i :: 0 <= i < |ms| ==> ControlMessage(ms[i])
  }

  predicate ValidPiece(p: Piece)
  {
    AllControl(p.controls)
  }

  predicate ValidItem(item: Item)
  {
    match item
    case Control(m) => ControlMessage(m)
    case Data(op, _, pieces) =>
      0 < op < 16 && op !in {8, 9, 10} && forall i :: 0 <= i < |pieces| ==> ValidPiece(pieces[i])
  }

  function ControlFrames(ms: seq<Message>): (fs: seq<Frame>)
    requires AllControl(ms)
  {
    seq(|ms|, i requires 0 <= i < |ms| => assert ControlMessage(ms[i]); Frame(true, ms[i].opcode.value, ms[i].payload))
  }

  function PieceFrames(pieces: seq<Piece>): seq<Frame>
    requires forall i :: 0 <= i < |pieces| ==> ValidPiece(pieces[i])
  {
    if pieces == [] then []
    else
      assert ValidPiece(pieces[0]);
      ControlFrames(pieces[0].controls) + [Frame(|pieces| == 1, 0, pieces[0].payload)] + PieceFrames(pieces[1..])
  }

  function ItemFrames(item: Item): seq<Frame>
    requires ValidItem(item)
  {
    match item
    case Control(m) => ControlFrames([m])
    case Data(op, first, pieces) => [Frame(pieces == [], op, first)] + PieceFrames(pieces)
  }

  function FramesOf(items: seq<Item>): seq<Frame>
    requires forall i :: 0 <= i < |items| ==> ValidItem(items[i])
  {
    if items == [] then [] else ItemFrames(items[0]) + FramesOf(items[1..])
  }

  function PieceControls(pieces: seq<Piece>): seq<Message>
  {
    if pieces == [] then [] else pieces[0].controls + PieceControls(pieces[1..])
  }

  function PiecePayload(pieces: seq<Piece>): bytes
  {
    if pieces == [] then [] else pieces[0].payload + PiecePayload(pieces[1..])
  }

  /** Control frames come out where they stand, the data message after the last of its fragments. */
  function ItemMessages(item: Item): seq<Message>
  {
    match item
    case Control(m) => [m]
    case Data(op, first, pieces) => PieceControls(pieces) + [Message(Some(op), first + PiecePayload(pieces))]
  }

  function MessagesOf(items: seq<Item>): seq<Message>
  {
    if items == [] then [] else ItemMessages(items[0]) + MessagesOf(items[1..])
  }

  lemma {:induction false} AbsorbControls(ms: seq<Message>, p: Pending)
    requires AllControl(ms)
    ensures AbsorbAll(ControlFrames(ms), p) == Absorbed(ms, p)
  {
    if ms != [] {
      AbsorbControls(ms[1..], p);
      assert ControlFrames(ms)[1..] == ControlFrames(ms[1..]);
      assert [ms[0]] + ms[1..] == ms;
    }
  }

  lemma {:induction false} AbsorbPieces(op: nat, got: bytes, pieces: seq<Piece>)
    requires pieces != [] && forall i :: 0 <= i < |pieces| ==> ValidPiece(pieces[i])
    ensures AbsorbAll(PieceFrames(pieces), Pending(Some(op), got)) ==
            Absorbed(PieceControls(pieces) + [Message(Some(op), got + PiecePayload(pieces))], IDLE)
    decreases |pieces|
  {
    hide AbsorbAll;
    var p := Pending(Some(op), got);
    var (here, tail) := (pieces[0], PieceFrames(pieces[1..]));
    var controls := ControlFrames(here.controls);
    var f := Frame(|pieces| == 1, 0, here.payload);
    assert ValidPiece(here);
    AbsorbControls(here.controls, p);
    Associate(controls, [f], tail);
    AbsorbAppend(controls, [f] + tail, p);
    AbsorbFragment(f, tail, op, got);
    if |pieces| == 1 {
      assert PiecePayload(pieces) == here.payload + [] == here.payload;
      assert PieceControls(pieces) == here.controls + [] == here.controls;
    } else {
      AbsorbPieces(op, got + here.payload, pieces[1..]);
      Associate(got, here.payload, PiecePayload(pieces[1..]));
      Associate(here.controls, PieceControls(pieces[1..]), [Message(Some(op), got + PiecePayload(pieces))]);
    }
  }

  lemma AbsorbFragment(f: Frame, tail: seq<Frame>, op: nat, got: bytes)
    requires f.opcode == 0 && (f.fin ==> tail == [])
    ensures AbsorbAll([f] + tail, Pending(Some(op), got)) ==
            if f.fin then Absorbed([Message(Some(op), got + f.payload)], IDLE)
            else AbsorbAll(tail, Pending(Some(op), got + f.payload))
  {
    assert ([f] + tail)[1..] == tail;
    if f.fin {
      assert AbsorbAll([], IDLE) == Absorbed([], IDLE);
    }
  }

  lemma AbsorbItem(item: Item)
    requires ValidItem(item)
    ensures AbsorbAll(ItemFrames(item), IDLE) == Absorbed(ItemMessages(item), IDLE)
  {
    match item
    case Control(m) =>
      AbsorbControls([m], IDLE);
    case Data(op, first, pieces) =>
      if pieces == [] {
        assert first + [] == first;
        assert ItemFrames(item) == [Frame(true, op, first)];
      } else {
        assert ItemFrames(item)[1..] == PieceFrames(pieces);
        AbsorbPieces(op, first, pieces);
      }
  }

  lemma {:induction false} AbsorbItems(items: seq<Item>)
    requires forall i :: 0 <= i < |items| ==> ValidItem(items[i])
    ensures AbsorbAll(FramesOf(items), IDLE) == Absorbed(MessagesOf(items), IDLE)
  {
    if items != [] {
      AbsorbItem(items[0]);
      AbsorbItems(items[1..]);
      AbsorbAppend(ItemFrames(items[0]), FramesOf(items[1..]), IDLE);
    }
  }

  lemma FirstOfPrinted(w: WireFrame, rest: bytes)
    requires w.Valid()
    ensures ParseFrame(w.Print() + rest) == Complete(w.frame, |w.Print()|)
    ensures (w.Print() + rest)[|w.Print()|..] == rest
  {
    hide ParseFrame;
    ParsePrint(w, rest);
  }

  /** A close, ping or pong frame is delivered at once and leaves an open message as it is. */
  lemma ControlComesOutAtOnce(w: WireFrame, rest: bytes, p: Pending)
    requires w.Valid() && w.frame.opcode in {8, 9, 10}
    ensures var d := Drain(rest, p);
            Drain(w.Print() + rest, p) ==
            Drained([Message(Some(w.frame.opcode), w.frame.payload)] + d.messages, d.buf, d.pending)
  {
    FirstOfPrinted(w, rest);
    hide ParseFrame;
  }

  /**
   * Any other frame waits for the end of its message: it opens a message (an opcode other than 0) or continues the
   * open one (0), and only a final frame delivers, after which no message is open.
   */
  lemma DataIsCollected(w: WireFrame, rest: bytes, p: Pending)
    requires w.Valid() && w.frame.opcode !in {8, 9, 10}
    ensures var opcode := if w.frame.opcode == 0 then p.opcode else Some(w.frame.opcode);
            var payload := if w.frame.opcode == 0 then p.payload + w.frame.payload else w.frame.payload;
            if w.frame.fin then
              var d := Drain(rest, Pending(None, []));
              Drain(w.Print() + rest, p) == Drained([Message(opcode, payload)] + d.messages, d.buf, d.pending)
            else Drain(w.Print() + rest, p) == Drain(rest, Pending(opcode, payload))
  {
    FirstOfPrinted(w, rest);
    hide ParseFrame;
    assert forall ms: seq<Message> :: Listed(None) + ms == ms;
  }

  /** A ping between the two fragments of a text message comes out first, and the message is whole. */
  lemma PingBetweenFragments(first: WireFrame, ping: WireFrame, last: WireFrame)
    requires first.Valid() && ping.Valid() && last.Valid()
    requires first.frame == Frame(false, 1, [0x48, 0x65, 0x6c])
    requires ping.frame.opcode == 9
    requires last.frame == Frame(true, 0, [0x6c, 0x6f])
    ensures Drain(first.Print() + (ping.Print() + (last.Print() + [])), Pending(None, [])) ==
            Drained([Message(Some(9), ping.frame.payload), Message(Some(1), [0x48, 0x65, 0x6c, 0x6c, 0x6f])],
                    [], Pending(None, []))
  {
    hide Drain, WireFrame.Print, WireFrame.Valid;
    DataIsCollected(first, ping.Print() + (last.Print() + []), Pending(None, []));
    ControlComesOutAtOnce(ping, last.Print() + [], Pending(Some(1), [0x48, 0x65, 0x6c]));
    DataIsCollected(last, [], Pending(Some(1), [0x48, 0x65, 0x6c]));
    NothingLeft();
    assert [0x48, 0x65, 0x6c] + [0x6c, 0x6f] == [0x48, 0x65, 0x6c, 0x6c, 0x6f];
  }

  lemma NothingLeft()
    ensures Drain([], Pending(None, [])) == Drained([], [], Pending(None, []))
  {
    var none: bytes := [];
    assert ParseFrame(none).Incomplete?;
  }

  /** However a sender fragments, interleaves, masks and sizes its frames, the parser delivers its messages. */
  lemma WellFormedStream(items: seq<Item>, ws: seq<WireFrame>)
    requires forall i :: 0 <= i < |items| ==> ValidItem(items[i])
    requires AllValid(ws) && Contents(ws) == FramesOf(items)
    ensures Drain(PrintAll(ws), IDLE) == Drained(MessagesOf(items), [], IDLE)
  {
    DrainPrinted(ws, IDLE);
    AbsorbItems(items);
  }
}
