/** repo/ws/frame.go: frames, and a message as the frames that carry it. */
module Frames {
  import opened Bytes
  import opened Cipher
  import opened Streams
  import opened Header
  import opened Check

  /** A frame as it travels: the payload is masked when the header says so. */
  datatype Frame = Frame(header: Header, payload: seq<byte>)
  {
    predicate Sound() {
      header.Wire() && header.length == |payload|
    }
  }

  datatype Message = Message(opCode: byte, payload: seq<byte>)

  /** The bytes under a header's mask. */
  function Unmask(h: Header, p: seq<byte>): (r: seq<byte>)
    ensures |r| == |p|
  {
    if h.masked then Masked(p, h.mask, 0) else p
  }

  function Plain(f: Frame): seq<byte> { Unmask(f.header, f.payload) }

  function EncodeFrame(f: Frame): seq<byte> { Encode(f.header) + f.payload }

  function EncodeAll(fs: seq<Frame>): seq<byte> {
    if fs == [] then [] else EncodeFrame(fs[0]) + EncodeAll(fs[1..])
  }

  lemma {:induction false} EncodeAllConcat(fs: seq<Frame>, gs: seq<Frame>)
    ensures EncodeAll(fs + gs) == EncodeAll(fs) + EncodeAll(gs)
  {
    hide EncodeFrame;
    if fs == [] {
      assert fs + gs == gs;
    } else {
      assert (fs + gs)[1..] == fs[1..] + gs;
      EncodeAllConcat(fs[1..], gs);
    }
  }

  /** The plain payloads of fs one after the other. */
  function Glue(fs: seq<Frame>): seq<byte> {
    if fs == [] then [] else Plain(fs[0]) + Glue(fs[1..])
  }

  lemma {:induction false} GlueConcat(fs: seq<Frame>, gs: seq<Frame>)
    ensures Glue(fs + gs) == Glue(fs) + Glue(gs)
  {
    hide Plain;
    if fs == [] {
      assert fs + gs == gs;
    } else {
      assert (fs + gs)[1..] == fs[1..] + gs;
      GlueConcat(fs[1..], gs);
    }
  }

  /** NewFrame, masked with the given key when the sender is a client. */
  function Seal(client: bool, op: byte, fin: bool, p: seq<byte>, mask: Mask): (f: Frame)
    requires |p| <= MAX_LENGTH && op < 16
    ensures f.Sound() && f.header.fin == fin && f.header.opCode == op && f.header.rsv == 0 && f.header.masked == client
    ensures Plain(f) == p
  {
    if client then
      MaskedTwice(p, mask, 0);
      Frame(Header(fin, 0, op, true, mask, |p|), Masked(p, mask, 0))
    else Frame(Header(fin, 0, op, false, NoMask, |p|), p)
  }

  /** fs are the frames sent so far for one message with opcode op, none of them final:
      the first one carries the opcode, the others continue it. */
  ghost predicate OpenRun(fs: seq<Frame>, op: byte, client: bool) {
    forall i :: 0 <= i < |fs| ==>
      && fs[i].Sound() && !fs[i].header.fin && fs[i].header.rsv == 0 && fs[i].header.masked == client
      && fs[i].header.opCode == (if i == 0 then op else OpContinuation)
  }

  /** fs are all the frames of one message: an open run closed by one final frame. */
  ghost predicate WholeRun(fs: seq<Frame>, op: byte, client: bool) {
    |fs| > 0
    && var n := |fs| - 1;
       && OpenRun(fs[..n], op, client)
       && fs[n].Sound() && fs[n].header.fin && fs[n].header.rsv == 0 && fs[n].header.masked == client
       && fs[n].header.opCode == (if n == 0 then op else OpContinuation)
  }
}
