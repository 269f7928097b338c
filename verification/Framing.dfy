/** repo/ws/read.go (ReadFrameFromBytes) and broker/websocket.go: cutting frames out of a connection's inbound bytes,
    and what the broker does with one frame. */
module Framing {
  import opened Bytes
  import opened Cipher
  import opened Streams
  import opened Header
  import opened Check
  import opened Frames
  import opened Reading
  import opened Reassembly
  import opened ReadMessage
  import opened Control

  datatype Cut = Cut(offset: nat, frame: seq<byte>) | Refused(err: Error)

  /** ReadFrameFromBytes. A frame with length 0 is returned as no bytes at offset 0. */
  function CutFrame(s: seq<byte>): (r: Cut)
    ensures r.Cut? ==> r.offset == |r.frame| <= |s|
  {
    match ParseBytes(s)
    case Failed(e) => Refused(e)
    case Parsed(h, n) =>
      ParsedWithin(s);
      if h.length == 0 then Cut(0, [])
      else if |s| - n < h.length then Refused(NeedMoreData)
      else Cut(n + h.length, s[..n + h.length])
  }

  lemma ParsedWithin(s: seq<byte>)
    ensures ParseBytes(s).Parsed? ==> ParseBytes(s).size <= |s|
  {
    hide Assemble;
  }

  /** The decoder finds the frame at the head of the buffer. */
  predicate CutsOff(f: Frame, more: seq<byte>) {
    CutFrame(EncodeFrame(f) + more) == Cut(|EncodeFrame(f)|, EncodeFrame(f))
  }

  predicate Framable(h: Header) { h.length > 0 && (h.masked || h.length > Len7) }

  lemma ParseBytesOfFrame(f: Frame, more: seq<byte>)
    requires f.Sound()
    ensures var k := HeaderSize(f.header);
            ParseBytes(EncodeFrame(f) + more) == Parsed(f.header, if f.header.masked || k > 2 then k else 0)
  {
    hide Parse, ParseBytes, EncodeFrame;
    ParseFrame(f, more);
    ParsersAgree(EncodeFrame(f) + more);
  }

  /** The decoder cuts a frame off the buffer, with any bytes behind it, if and only if the frame is not empty and is
      masked or has an extended length. An empty frame yields no bytes and moves nothing; a short unmasked one loses its
      last two bytes to the next frame. */
  lemma CutsOffIffFramable(f: Frame, more: seq<byte>)
    requires f.Sound()
    ensures CutsOff(f, more) <==> Framable(f.header)
    ensures f.header.length == 0 ==> CutFrame(EncodeFrame(f) + more) == Cut(0, [])
    ensures 0 < f.header.length <= Len7 && !f.header.masked ==>
              CutFrame(EncodeFrame(f) + more) == Cut(f.header.length, EncodeFrame(f)[..f.header.length])
  {
    hide ParseBytes, Encode;
    var e, k := EncodeFrame(f), HeaderSize(f.header);
    assert |e| == k + f.header.length;
    ParseBytesOfFrame(f, more);
    var n := if f.header.masked || k > 2 then k else 0;
    assert (e + more)[..n + f.header.length] == e[..n + f.header.length];
    assert e[..|e|] == e;
  }

  /** Such a frame is any masked ping or pong without payload, under whatever key: among them every pong with which a
      client answers the pings of the heartbeat, which have no payload. The decoder never gets past it. */
  lemma EmptyControlStalls(op: byte, mask: Mask, more: seq<byte>)
    requires op == OpPing || op == OpPong
    ensures CutFrame([if op == OpPing then 0x89 else 0x8A, 0x80] + mask + more) == Cut(0, [])
  {
    var f := Frame(Header(true, 0, op, true, mask, 0), []);
    EmptyControlBytes(f);
    CutsOffIffFramable(f, more);
  }

  lemma EmptyControlBytes(f: Frame)
    requires f == Frame(Header(true, 0, f.header.opCode, true, f.header.mask, 0), [])
    requires f.header.opCode == OpPing || f.header.opCode == OpPong
    ensures f.Sound() && EncodeFrame(f) == [if f.header.opCode == OpPing then 0x89 else 0x8A, 0x80] + f.header.mask
  {
    assert FirstByte(true, 0, OpPing) == 0x89 && FirstByte(true, 0, OpPong) == 0x8A;
    assert Narrow(0) == 0;
    assert SecondByte(true, 0) == 0x80;
  }

  /** A strict prefix of a frame asks for more data. */
  lemma PrefixNeedsMore(f: Frame, p: seq<byte>)
    requires f.Sound() && Framable(f.header) && p < EncodeFrame(f)
    ensures CutFrame(p) == Refused(NeedMoreData)
  {
    hide Encode, ParseBytes, Parse;
    var e, k := EncodeFrame(f), HeaderSize(f.header);
    assert |Encode(f.header)| == k;
    ParsersAgree(p);
    if |p| < k {
      assert p == Encode(f.header)[..|p|];
      HeaderCutShort(f.header, |p|);
    } else {
      var q := p[k..];
      assert p == Encode(f.header) + q;
      ParseInvertsEncode(f.header, q);
    }
  }

  // ---------- the connection's buffer ----------

  /** gnet's connection, as far as the decoder uses it: the bytes not yet taken, and whether it has been closed. */
  class InboundConn {
    var inbound: seq<byte>
    var closed: bool

    constructor ()
      ensures inbound == [] && !closed
    {
      inbound, closed := [], false;
    }

    method ShiftN(n: nat)
      requires n <= |inbound|
      modifies this
      ensures inbound == old(inbound)[n..] && closed == old(closed)
    {
      inbound := inbound[n..];
    }

    /** WebsocketFrameCodec.Decode after the upgrade. */
    method Decode() returns (frame: seq<byte>, err: Option<Error>)
      modifies this
      ensures match CutFrame(old(inbound))
              case Cut(n, f) => if old(inbound) == [] then true
                                else err == None && frame == f && inbound == old(inbound)[n..] && closed == old(closed)
              case Refused(e) => err == Some(e) && frame == [] && inbound == old(inbound)
                                 && closed == (old(closed) || e != NeedMoreData)
      ensures old(inbound) == [] ==> err == Some(NeedMoreData) && inbound == [] && closed == old(closed)
      ensures TopBitSet(old(inbound)) ==> err == Some(HeaderLengthMSB) && closed
    {
      hide ParseBytes, TopBitSet;
      TopBitIsRefused(inbound);
      frame := [];
      if |inbound| == 0 {
        NothingToCut();
        return frame, Some(NeedMoreData);
      }
      match CutFrame(inbound)
      case Refused(e) =>
        if e != NeedMoreData {
          closed := true;
        }
        err := Some(e);
      case Cut(n, f) =>
        frame, err := f, None;
        ShiftN(n);
    }
  }

  lemma NothingToCut()
    ensures CutFrame([]) == Refused(NeedMoreData)
  {
  }

  function Encodings(fs: seq<Frame>): seq<seq<byte>> {
    if fs == [] then [] else Encodings(fs[..|fs| - 1]) + [EncodeFrame(fs[|fs| - 1])]
  }

  ghost predicate AllFramable(fs: seq<Frame>) {
    forall i :: 0 <= i < |fs| ==> fs[i].Sound() && Framable(fs[i].header)
  }

  /** The first k frames have been cut off; the buffer holds the start of what follows, short of a whole frame. */
  ghost predicate InStep(fs: seq<Frame>, k: nat, received: seq<byte>, inbound: seq<byte>) {
    && k <= |fs|
    && received == EncodeAll(fs[..k]) + inbound
    && inbound <= EncodeAll(fs[k..])
  }

  /** Incremental framing: while any stream of framable frames comes in, in chunks of any size, decoding after each
      chunk until no more comes yields exactly the frames that are complete, in order; what is kept is the strict prefix
      of the next one. */
  method Feed(conn: InboundConn, chunks: seq<seq<byte>>, ghost fs: seq<Frame>)
    returns (out: seq<seq<byte>>, ghost k: nat)
    requires conn.inbound == [] && !conn.closed
    requires AllFramable(fs) && Joined(chunks) <= EncodeAll(fs)
    modifies conn
    ensures k <= |fs| && out == Encodings(fs[..k])
    ensures Joined(chunks) == EncodeAll(fs[..k]) + conn.inbound
    ensures if k < |fs| then conn.inbound < EncodeFrame(fs[k]) else conn.inbound == []
    ensures !conn.closed
  {
    hide EncodeFrame, CutFrame, Framable, EncodeAll, Encodings;
    out, k := [], 0;
    Nothing(fs);
    assert chunks[..0] == [] && chunks[..|chunks|] == chunks;
    for i := 0 to |chunks|
      invariant InStep(fs, k, Joined(chunks[..i]), conn.inbound) && out == Encodings(fs[..k]) && !conn.closed
      invariant if k < |fs| then conn.inbound < EncodeFrame(fs[k]) else conn.inbound == []
    {
      assert chunks[..i + 1][..i] == chunks[..i] && chunks[..i + 1][i] == chunks[i];
      JoinedPrefix(chunks, i + 1);
      MoreArrives(fs, k, Joined(chunks[..i]), conn.inbound, chunks[i]);
      conn.inbound := conn.inbound + chunks[i];
      var more;
      more, k := DecodeAll(conn, fs, k, Joined(chunks[..i + 1]));
      out := out + more;
    }
  }

  /** The event loop behind Decode: frame after frame until it asks for more data. */
  method DecodeAll(conn: InboundConn, ghost fs: seq<Frame>, ghost k0: nat, ghost received: seq<byte>)
    returns (out: seq<seq<byte>>, ghost k: nat)
    requires AllFramable(fs) && InStep(fs, k0, received, conn.inbound) && !conn.closed
    modifies conn
    ensures k0 <= k <= |fs| && Encodings(fs[..k0]) + out == Encodings(fs[..k])
    ensures InStep(fs, k, received, conn.inbound) && !conn.closed
    ensures if k < |fs| then conn.inbound < EncodeFrame(fs[k]) else conn.inbound == []
  {
    hide EncodeFrame, CutFrame, Framable, EncodeAll, Encodings;
    out, k := [], k0;
    var err: Option<Error> := None;
    assert Encodings(fs[..k0]) + out == Encodings(fs[..k0]);
    while err == None
      invariant k0 <= k <= |fs| && Encodings(fs[..k0]) + out == Encodings(fs[..k])
      invariant InStep(fs, k, received, conn.inbound) && !conn.closed
      invariant err != None ==> if k < |fs| then conn.inbound < EncodeFrame(fs[k]) else conn.inbound == []
      decreases err == None, |conn.inbound|
    {
      DecodeFinds(fs, k, received, conn.inbound);
      var frame;
      frame, err := conn.Decode();
      if err == None {
        out := out + [frame];
        OneMore(fs, k);
        k := k + 1;
      }
    }
  }

  lemma Nothing(fs: seq<Frame>)
    ensures EncodeAll(fs[..0]) == [] && Encodings(fs[..0]) == []
    ensures if |fs| > 0 then [] < EncodeFrame(fs[0]) else true
  {
  }

  lemma OneMore(fs: seq<Frame>, k: nat)
    requires k < |fs|
    ensures Encodings(fs[..k + 1]) == Encodings(fs[..k]) + [EncodeFrame(fs[k])]
  {
    assert fs[..k + 1][..k] == fs[..k];
  }

  lemma MoreArrives(fs: seq<Frame>, k: nat, received: seq<byte>, inbound: seq<byte>, chunk: seq<byte>)
    requires InStep(fs, k, received, inbound) && received + chunk <= EncodeAll(fs)
    ensures InStep(fs, k, received + chunk, inbound + chunk)
  {
    hide EncodeAll;
    EncodeAllConcat(fs[..k], fs[k..]);
    assert fs[..k] + fs[k..] == fs;
    var a, b := EncodeAll(fs[..k]), EncodeAll(fs[k..]);
    assert received + chunk == a + (inbound + chunk);
    assert (a + b)[|a|..] == b;
    assert (a + (inbound + chunk))[|a|..] == inbound + chunk;
    assert inbound + chunk == (a + b)[|a|..|a| + |inbound + chunk|];
  }

  /** What Decode meets in step: the next frame if it is all there, else a call for more data. */
  lemma DecodeFinds(fs: seq<Frame>, k: nat, received: seq<byte>, inbound: seq<byte>)
    requires AllFramable(fs) && InStep(fs, k, received, inbound)
    ensures if k < |fs| && EncodeFrame(fs[k]) <= inbound then
              var n := |EncodeFrame(fs[k])|;
              inbound != [] && n > 0 && CutFrame(inbound) == Cut(n, EncodeFrame(fs[k]))
              && InStep(fs, k + 1, received, inbound[n..])
            else CutFrame(inbound) == Refused(NeedMoreData)
                 && (if k < |fs| then inbound < EncodeFrame(fs[k]) else inbound == [])
  {
    hide EncodeFrame, CutFrame, Framable;
    if k == |fs| {
      assert EncodeAll(fs[k..]) == [];
      NothingToCut();
    } else {
      var f, e := fs[k], EncodeFrame(fs[k]);
      assert fs[k..][0] == f && fs[k..][1..] == fs[k + 1..];
      assert EncodeAll(fs[k..]) == e + EncodeAll(fs[k + 1..]);
      NotEmpty(f);
      if e <= inbound {
        var q := inbound[|e|..];
        assert inbound == e + q;
        CutsOffIffFramable(f, q);
        CutsOffMeans(f, q);
        StepOn(fs, k, received, inbound, q);
      } else {
        assert inbound <= e + EncodeAll(fs[k + 1..]);
        assert |inbound| < |e|;
        assert inbound == e[..|inbound|];
        PrefixNeedsMore(f, inbound);
      }
    }
  }

  lemma NotEmpty(f: Frame)
    ensures |EncodeFrame(f)| > 0
  {
  }

  lemma CutsOffMeans(f: Frame, q: seq<byte>)
    requires CutsOff(f, q)
    ensures CutFrame(EncodeFrame(f) + q) == Cut(|EncodeFrame(f)|, EncodeFrame(f))
  {
    hide CutFrame;
  }

  lemma StepOn(fs: seq<Frame>, k: nat, received: seq<byte>, inbound: seq<byte>, q: seq<byte>)
    requires k < |fs| && InStep(fs, k, received, inbound) && inbound == EncodeFrame(fs[k]) + q
    requires EncodeAll(fs[k..]) == EncodeFrame(fs[k]) + EncodeAll(fs[k + 1..])
    ensures InStep(fs, k + 1, received, q)
  {
    hide EncodeFrame, EncodeAll;
    var e := EncodeFrame(fs[k]);
    EncodeAllConcat(fs[..k], [fs[k]]);
    assert fs[..k] + [fs[k]] == fs[..k + 1];
    Single(fs[k]);
    var a, b := EncodeAll(fs[..k]), EncodeAll(fs[k + 1..]);
    assert a + (e + q) == (a + e) + q;
    assert e + q <= e + b;
    assert (e + q)[|e|..] == q && (e + b)[|e|..] == b;
    assert q == (e + b)[|e|..|e| + |q|];
  }

  lemma Single(f: Frame)
    ensures EncodeAll([f]) == EncodeFrame(f)
  {
    assert EncodeAll([f]) == EncodeFrame(f) + EncodeAll([]);
  }

  // ---------- what the broker does with a frame ----------

  /** onReactAfterUpgrade: the bytes to answer with, whether the connection is to be closed, the payload handed on to
      the application, and the payload of a ping reported to the connection. */
  datatype Reaction = Reaction(out: seq<byte>, close: bool, data: Option<seq<byte>>, ping: Option<seq<byte>>)

  const Refusal := Reaction([], true, None, None)

  /** onReactAfterUpgrade on the bytes of one frame. */
  method React(frame: seq<byte>, stalls: nat) returns (r: Reaction)
    requires |frame| <= MAX_LENGTH
    ensures match Receive(frame, StateServerSide)
            case Lost(_, _) => r.close && r == Refusal
            case Received(ms, _) => if |ms| != 1 then r.close && r == Refusal else Reacts(ms[0], r)
  {
    hide Receive, Pong, IsControl, ServerSide, ClientSide, EncodeFrame, Fragmented;
    var src := new Source(frame, stalls);
    NotFragmented();
    ReceiveBounds(frame, StateServerSide);
    KnownOpCodes();
    var msgs, err := ReadMessage.ReadMessage(src, StateServerSide, []);
    if err != None {
      return Refusal;
    }
    ghost var ms := Receive(frame, StateServerSide).msgs;
    assert [] + ms == ms;
    if |msgs| != 1 {
      return Refusal;
    }
    var msg := msgs[0];
    if IsControl(msg.opCode) {
      r := ReactToControl(msg, stalls);
    } else if msg.opCode == OpBinary || msg.opCode == OpText {
      r := Reaction([], false, Some(msg.payload), None);
    } else {
      r := Reaction([], false, None, None);
    }
  }

  lemma KnownOpCodes()
    ensures !IsControl(OpText) && !IsControl(OpBinary)
    ensures IsControl(OpPing) && IsControl(OpPong) && IsControl(OpClose)
  {
  }

  lemma NotFragmented()
    ensures !Fragmented(StateServerSide) && ServerSide(StateServerSide) && !ClientSide(StateServerSide)
  {
  }

  /** Data is handed on; a ping is answered by one unmasked pong with its payload; a pong is ignored. A close is answered
      by closing the connection: the reply that the handler has prepared is not sent, because the handler reports every
      close as an error. */
  ghost predicate Reacts(m: Message, r: Reaction) {
    if m.opCode == OpText || m.opCode == OpBinary then r == Reaction([], false, Some(m.payload), None)
    else if m.opCode == OpPing then
      |m.payload| <= MaxControlFramePayloadSize && r == Reaction(Pong(m.payload), false, None, Some(m.payload))
    else if m.opCode == OpPong || !IsControl(m.opCode) then r == Reaction([], false, None, None)
    else r.close && r == Refusal
  }

  /** The bytes of an unmasked, final pong. */
  function Pong(payload: seq<byte>): seq<byte>
    requires |payload| <= MaxControlFramePayloadSize
  {
    Encode(Header(true, 0, OpPong, false, NoMask, |payload|)) + payload
  }

  lemma OnlyPong(f: Frame, payload: seq<byte>)
    requires ControlReply(f, false, OpPong, payload)
    ensures EncodeFrame(f) == Pong(payload)
  {
    hide Encode;
  }

  /** HandleClientControlMessage into a buffer of its own. */
  method ReactToControl(msg: Message, stalls: nat) returns (r: Reaction)
    requires IsControl(msg.opCode) && |msg.payload| <= MaxControlFramePayloadSize
    ensures Reacts(msg, r)
  {
    hide ControlReply, ClientSide, EncodeFrame, Masked, Pong;
    NotFragmented();
    var out := new Sink(true);
    var src := new Source(msg.payload, stalls);
    var handler := new ControlHandler(src, out, StateServerSide, true);
    ghost var reply;
    var err;
    err, reply := handler.Handle(Header(true, 0, msg.opCode, ServerSide(StateServerSide), NoMask, |msg.payload|));
    if msg.opCode == OpPing {
      OnlyPong(reply[0], msg.payload);
      JustOne(reply[0]);
    }
    if err != None {
      return Refusal;
    }
    var close, ping := msg.opCode == OpClose, if msg.opCode == OpPing then Some(msg.payload) else None;
    r := Reaction(out.data, close, None, ping);
  }

  /** A frame that a client may send outside a message, handed to the broker on its own. */
  ghost predicate ClientFrame(f: Frame) {
    f.Sound() && FrameAllowed(f.header, StateServerSide) && f.header.opCode != OpContinuation
  }

  /** The broker takes exactly the frames that are messages of their own: for a final frame (text being UTF-8) the
      outcome is that frame's message; a fragment of a longer message makes it close the connection. */
  lemma BrokerTakesWholeMessagesOnly(f: Frame)
    requires ClientFrame(f)
    ensures Receive(EncodeFrame(f), StateServerSide)
            == Received([Message(f.header.opCode, Plain(f))], [])
            <==> f.header.fin && GoodMessage(f.header.opCode, Plain(f))
    ensures !(f.header.fin && GoodMessage(f.header.opCode, Plain(f))) ==> Receive(EncodeFrame(f), StateServerSide).Lost?
  {
    hide Receive, FrameAllowed, EncodeFrame, GoodMessage, Unmask;
    NotFragmented();
    assert EncodeFrame(f) + [] == EncodeFrame(f);
    if f.header.fin {
      ReceiveSolo(f, StateServerSide, []);
    } else {
      ReceiveLoneFragment(f, StateServerSide);
    }
  }
}
