/** repo/ws/wsutil/writer.go: the Writer that cuts a message into frames. */
module Writer {
  import opened Bytes
  import opened Cipher
  import opened Streams
  import opened Header
  import opened Check
  import opened Frames

  const DefaultWriteBuffer := 4096
  const MaxEmptyReads := 100

  /** The bytes that a buffer of n bytes gives up for the header. */
  function Reserve(state: State, n: nat): (offset: nat)
    ensures 2 <= offset <= 14
  {
    var mask := if ClientSide(state) then 4 else 0;
    if n <= Len7 + mask + 2 then mask + 2
    else if n <= Len16 + mask + 4 then mask + 4
    else mask + 10
  }

  function SizeOfHeader(state: State, n: Length): (k: nat)
    ensures 2 <= k <= 14
  {
    HeaderSize(Header(false, 0, 0, ClientSide(state), NoMask, n))
  }

  /** The header of any frame that fits the buffer fits the gap in front of it. */
  lemma GapFitsHeader(state: State, total: nat, n: Length)
    requires Reserve(state, total) + n <= total
    ensures SizeOfHeader(state, n) <= Reserve(state, total)
  {
  }

  /** A buffer made for n payload bytes holds exactly n. */
  lemma GapForSize(state: State, n: Length)
    requires 0 < n
    ensures var total := n + SizeOfHeader(state, n);
            total > MinHeaderSize && Reserve(state, total) == SizeOfHeader(state, n)
  {
  }

  // ---------- what is on the wire for the message being written ----------

  /** data is base followed by the frames sent for the current message; their payloads and what is still
      buffered are the bytes accepted for it. */
  ghost predicate Wire(data: seq<byte>, base: seq<byte>, sent: seq<Frame>, accepted: seq<byte>,
                       buffered: seq<byte>, op: byte, client: bool, fragmented: bool) {
    && data == base + EncodeAll(sent)
    && OpenRun(sent, op, client)
    && Glue(sent) + buffered == accepted
    && (fragmented <==> sent != [])
  }

  /** f is the next frame of the message: it carries p, and the message's opcode only if it is the first. */
  ghost predicate NextOf(f: Frame, op: byte, client: bool, fragmented: bool, fin: bool, p: seq<byte>) {
    && f.Sound() && f.header.fin == fin && f.header.rsv == 0 && f.header.masked == client
    && f.header.opCode == (if fragmented then OpContinuation else op)
    && Plain(f) == p
  }

  /** No frame was sent in vain. */
  ghost predicate Filled(sent: seq<Frame>) {
    forall i :: 0 <= i < |sent| ==> sent[i].payload != []
  }

  lemma FilledMore(sent: seq<Frame>, f: Frame)
    requires Filled(sent) && Plain(f) != []
    ensures Filled(sent + [f])
  {
  }

  /** What was sent in filled frames is something. */
  lemma FilledIsSome(sent: seq<Frame>)
    requires Filled(sent) && sent != []
    ensures Glue(sent) != []
  {
  }

  /** How much is buffered after a Write of k bytes that does not fail: what does not fit goes out with what was
      buffered, and the rest is buffered again unless it is more than the buffer holds. */
  function AfterWrite(size: nat, buffered: nat, k: nat): nat
    requires buffered <= size
  {
    if buffered + k <= size then buffered + k
    else if buffered == 0 then 0
    else AfterWrite(size, 0, buffered + k - size)
  }

  // ---------- the frames that are sent ----------

  /** One more frame has been sent, not final, with the payload p. */
  ghost predicate OneMore(after: seq<Frame>, before: seq<Frame>, p: seq<byte>) {
    && |after| == |before| + 1 && after[..|before|] == before
    && !after[|before|].header.fin && Plain(after[|before|]) == p
  }

  lemma IsOneMore(before: seq<Frame>, f: Frame, p: seq<byte>)
    requires !f.header.fin && Plain(f) == p
    ensures OneMore(before + [f], before, p)
  {
  }

  /** More frames have been sent, with payloads of these lengths. */
  ghost predicate Sends(after: seq<Frame>, before: seq<Frame>, lengths: seq<nat>) {
    && |after| == |before| + |lengths| && after[..|before|] == before
    && forall i :: 0 <= i < |lengths| ==> |Plain(after[|before| + i])| == lengths[i]
  }

  lemma SendsNothing(sent: seq<Frame>)
    ensures Sends(sent, sent, [])
  {
    assert sent[..|sent|] == sent;
  }

  lemma SendsOneMore(after: seq<Frame>, mid: seq<Frame>, before: seq<Frame>, lengths: seq<nat>, p: seq<byte>)
    requires Sends(mid, before, lengths) && OneMore(after, mid, p)
    ensures Sends(after, before, lengths + [|p|])
  {
    hide Plain;
    assert after[..|before|] == mid[..|before|];
    forall i | 0 <= i < |lengths|
      ensures |Plain(after[|before| + i])| == lengths[i]
    {
      assert after[..|mid|][|before| + i] == mid[|before| + i];
    }
  }

  /** More frames have been sent, each of a full buffer. */
  ghost predicate AllFull(after: seq<Frame>, before: seq<Frame>, size: nat) {
    before <= after && forall i :: |before| <= i < |after| ==> |Plain(after[i])| == size
  }

  lemma NothingSent(sent: seq<Frame>, size: nat)
    ensures AllFull(sent, sent, size)
  {
  }

  lemma OneFull(after: seq<Frame>, before: seq<Frame>, p: seq<byte>, size: nat)
    requires OneMore(after, before, p) && |p| == size
    ensures AllFull(after, before, size)
  {
  }

  lemma MoreFull(after: seq<Frame>, mid: seq<Frame>, before: seq<Frame>, size: nat)
    requires AllFull(after, mid, size) && AllFull(mid, before, size)
    ensures AllFull(after, before, size)
  {
  }

  /** The payload lengths of the frames that a Write of k bytes sends: the buffer filled up, if there is something in it,
      and then all the rest, unless that fits. */
  function FramesOfWrite(size: nat, buffered: nat, k: nat): (lengths: seq<nat>)
    requires buffered <= size
  {
    if buffered + k <= size then []
    else if buffered == 0 then [k]
    else [size] + FramesOfWrite(size, 0, buffered + k - size)
  }

  /** They are at most two, and what they carry and what stays in the buffer is all there is. */
  lemma FramesAddUp(size: nat, buffered: nat, k: nat)
    requires buffered <= size
    ensures |FramesOfWrite(size, buffered, k)| <= 2
    ensures Sum(FramesOfWrite(size, buffered, k)) + AfterWrite(size, buffered, k) == buffered + k
  {
    if buffered + k > size && buffered > 0 {
      FramesAddUp(size, 0, buffered + k - size);
      assert ([size] + FramesOfWrite(size, 0, buffered + k - size))[1..] == FramesOfWrite(size, 0, buffered + k - size);
    }
  }

  function Sum(s: seq<nat>): nat {
    if s == [] then 0 else s[0] + Sum(s[1..])
  }

  /** Write's loop on its way: of k bytes, rest are left, and buffered are in the buffer; what it has sent and what it will
      send are the frames of Write. */
  ghost predicate OnTheWay(size: nat, buffered0: nat, k: nat, buffered: nat, rest: nat,
                           before: seq<Frame>, sent: seq<Frame>)
  {
    && buffered0 <= size && buffered <= size && AfterWrite(size, buffered, rest) == AfterWrite(size, buffered0, k)
    && exists done: seq<nat> :: Sends(sent, before, done)
                      && done + FramesOfWrite(size, buffered, rest) == FramesOfWrite(size, buffered0, k)
  }

  lemma SetsOut(size: nat, buffered: nat, k: nat, sent: seq<Frame>)
    requires buffered <= size
    ensures OnTheWay(size, buffered, k, buffered, k, sent, sent)
  {
    SendsNothing(sent);
    assert [] + FramesOfWrite(size, buffered, k) == FramesOfWrite(size, buffered, k);
  }

  lemma OneFrameOn(size: nat, buffered0: nat, k: nat, buffered: nat, rest: nat, before: seq<Frame>, mid: seq<Frame>,
                   sent: seq<Frame>, nn: nat, q: seq<byte>)
    requires OnTheWay(size, buffered0, k, buffered, rest, before, mid) && buffered + rest > size
    requires nn == (if buffered == 0 then rest else size - buffered)
    requires OneMore(sent, mid, q) && |q| == buffered + nn
    ensures OnTheWay(size, buffered0, k, 0, rest - nn, before, sent)
  {
    hide Sends, OneMore;
    var done: seq<nat> :| Sends(mid, before, done)
                          && done + FramesOfWrite(size, buffered, rest) == FramesOfWrite(size, buffered0, k);
    SendsOneMore(sent, mid, before, done, q);
    assert FramesOfWrite(size, buffered, rest) == [|q|] + FramesOfWrite(size, 0, rest - nn);
    assert (done + [|q|]) + FramesOfWrite(size, 0, rest - nn) == done + ([|q|] + FramesOfWrite(size, 0, rest - nn));
  }

  lemma Arrives(size: nat, buffered0: nat, k: nat, buffered: nat, rest: nat, before: seq<Frame>, sent: seq<Frame>)
    requires OnTheWay(size, buffered0, k, buffered, rest, before, sent) && buffered + rest <= size
    ensures Sends(sent, before, FramesOfWrite(size, buffered0, k)) && buffered + rest == AfterWrite(size, buffered0, k)
  {
    hide Sends;
    var done: seq<nat> :| Sends(sent, before, done)
                          && done + FramesOfWrite(size, buffered, rest) == FramesOfWrite(size, buffered0, k);
    assert done + [] == done;
  }

  /** How much can be buffered after a ReadFrom of k bytes: a full buffer is sent only when more is asked of the source. */
  predicate AfterRead(size: nat, buffered: nat, k: nat, now: nat)
    requires size > 0
  {
    now == (buffered + k) % size || (k > 0 && now == size && (buffered + k) % size == 0)
  }

  lemma WireAccepts(data: seq<byte>, base: seq<byte>, sent: seq<Frame>, accepted: seq<byte>,
                    buffered: seq<byte>, op: byte, client: bool, fragmented: bool, p: seq<byte>)
    requires Wire(data, base, sent, accepted, buffered, op, client, fragmented)
    ensures Wire(data, base, sent, accepted + p, buffered + p, op, client, fragmented)
  {
    hide OpenRun;
    assert Glue(sent) + (buffered + p) == (Glue(sent) + buffered) + p;
  }

  lemma PlainOfNext(f: Frame, op: byte, client: bool, fragmented: bool, fin: bool, p: seq<byte>)
    requires NextOf(f, op, client, fragmented, fin, p)
    ensures Plain(f) == p && f.header.fin == fin
  {
  }

  lemma SentOne(sent: seq<Frame>, f: Frame)
    ensures EncodeAll(sent + [f]) == EncodeAll(sent) + EncodeFrame(f)
    ensures Glue(sent + [f]) == Glue(sent) + Plain(f)
  {
    hide EncodeFrame, Plain;
    EncodeAllConcat(sent, [f]);
    GlueConcat(sent, [f]);
    assert EncodeAll([f]) == EncodeFrame(f) + EncodeAll([]);
    assert Glue([f]) == Plain(f) + Glue([]);
  }

  lemma WireSends(data: seq<byte>, base: seq<byte>, sent: seq<Frame>, accepted: seq<byte>,
                  buffered: seq<byte>, op: byte, client: bool, fragmented: bool, f: Frame)
    requires Wire(data, base, sent, accepted, buffered, op, client, fragmented)
    requires NextOf(f, op, client, fragmented, false, buffered)
    ensures Wire(data + EncodeFrame(f), base, sent + [f], accepted, [], op, client, true)
  {
    hide EncodeFrame, Plain, EncodeAll, Glue;
    SentOne(sent, f);
    assert base + (EncodeAll(sent) + EncodeFrame(f)) == (base + EncodeAll(sent)) + EncodeFrame(f);
    assert (Glue(sent) + buffered) + [] == accepted;
  }

  lemma WireEnds(data: seq<byte>, base: seq<byte>, sent: seq<Frame>, accepted: seq<byte>,
                 buffered: seq<byte>, op: byte, client: bool, fragmented: bool, f: Frame)
    requires Wire(data, base, sent, accepted, buffered, op, client, fragmented)
    requires NextOf(f, op, client, fragmented, true, buffered)
    ensures data + EncodeFrame(f) == base + EncodeAll(sent + [f])
    ensures WholeRun(sent + [f], op, client) && Glue(sent + [f]) == accepted
  {
    hide EncodeFrame, Plain, EncodeAll, Glue, OpenRun;
    SentOne(sent, f);
    assert (sent + [f])[..|sent|] == sent;
    assert base + (EncodeAll(sent) + EncodeFrame(f)) == (base + EncodeAll(sent)) + EncodeFrame(f);
  }

  predicate Congruent(size: nat, a: nat, b: nat) {
    size > 0 && a % size == b % size
  }

  lemma MoreRead(size: nat, a: nat, b: nat, k: nat)
    requires Congruent(size, a, b)
    ensures Congruent(size, a + k, b + k)
  {
    var x, y := a / size, b / size;
    assert a == size * x + a % size && b == size * y + b % size;
    assert a + k == b + k + size * (x - y);
    SameRest(size, a + k, b + k, x - y);
  }

  lemma MoreCongruent(size: nat, a: nat, b: nat, k: nat, c: nat)
    requires Congruent(size, a, b) && Congruent(size, b + k, c)
    ensures Congruent(size, a + k, c)
  {
    MoreRead(size, a, b, k);
  }

  lemma SameRest(size: nat, a: nat, b: nat, d: int)
    requires size > 0 && a == b + size * d
    ensures a % size == b % size
  {
    var q := b / size;
    assert b == size * q + b % size;
    assert a == size * (q + d) + b % size;
    assert a == size * (a / size) + a % size;
    Multiple(size, a / size - (q + d));
    assert size * (a / size - (q + d)) == b % size - a % size;
  }

  lemma Multiple(size: nat, z: int)
    ensures z >= 1 ==> size * z >= size
    ensures z <= -1 ==> size * z <= 0 - size
  {
  }

  lemma StartOfRead(size: nat, n: nat)
    requires size > 0
    ensures Congruent(size, n, n)
  {
  }

  lemma BufferSent(size: nat, a: nat)
    requires Congruent(size, a, size)
    ensures Congruent(size, a, 0)
  {
  }

  lemma ReadEnds(size: nat, buffered: nat, k: nat, now: nat)
    requires Congruent(size, buffered + k, now) && now <= size && (now == size ==> k > 0)
    ensures AfterRead(size, buffered, k, now)
  {
  }

  // ---------- writeFrame ----------

  /** NewMask: any key. */
  method NewMask() returns (m: Mask)
  {
    var a: byte, b: byte, c: byte, d: byte := *, *, *, *;
    m := [a, b, c, d];
  }

  /** ws.WriteFrame: header, then payload. */
  method PutFrame(dest: Sink, f: Frame) returns (err: Option<Error>)
    modifies dest
    ensures err == None ==> dest.data == old(dest.data) + EncodeFrame(f)
    ensures old(dest.data) <= dest.data
    ensures err == None || (err == Some(SinkFailed) && !dest.reliable)
  {
    err := WriteHeader(dest, f.header);
    if err == None {
      assert old(dest.data) + EncodeFrame(f) == old(dest.data) + Encode(f.header) + f.payload;
      var _, e := dest.Write(f.payload);
      err := e;
    }
  }

  /** writeFrame: p is copied before it is masked. */
  method WriteFrame(dest: Sink, state: State, op: byte, fin: bool, p: seq<byte>)
    returns (err: Option<Error>, ghost f: Frame)
    requires |p| <= MAX_LENGTH && op < 16
    modifies dest
    ensures f.Sound() && f.header.fin == fin && f.header.opCode == op && f.header.rsv == 0
    ensures f.header.masked == ClientSide(state) && Plain(f) == p
    ensures err == None ==> dest.data == old(dest.data) + EncodeFrame(f)
    ensures old(dest.data) <= dest.data
    ensures err == None || (err == Some(SinkFailed) && !dest.reliable)
  {
    hide EncodeFrame, ClientSide;
    if ClientSide(state) {
      var mask := NewMask();
      var payload := new byte[|p|](i requires 0 <= i < |p| => p[i]);
      assert payload[0..|p|] == p;
      Cipher.Cipher(payload, 0, |p|, mask, 0);
      assert payload[..] == payload[0..|p|];
      MaskedTwice(p, mask, 0);
      var frame := Frame(Header(fin, 0, op, true, mask, |p|), payload[..]);
      f := frame;
      err := PutFrame(dest, frame);
    } else {
      var frame := Frame(Header(fin, 0, op, false, NoMask, |p|), p);
      f := frame;
      err := PutFrame(dest, frame);
    }
  }

  method CopyAt(a: array<byte>, at: nat, p: seq<byte>)
    requires at + |p| <= a.Length
    modifies a
    ensures a[..at] == old(a[..at]) && a[at..at + |p|] == p && a[at + |p|..] == old(a[at + |p|..])
  {
    forall k | 0 <= k < |p| {
      a[at + k] := p[k];
    }
  }

  lemma Grown(a: seq<byte>, off: nat, n: nat, was: seq<byte>, p: seq<byte>)
    requires off + n + |p| <= |a|
    requires a[..off + n][off..] == was && a[off + n..off + n + |p|] == p
    ensures a[off..off + (n + |p|)] == was + p
  {
  }

  lemma HeaderFits(h: Header, state: State, total: nat, n: Length)
    requires h.length == n && h.masked == ClientSide(state) && Reserve(state, total) + n <= total
    ensures HeaderSize(h) <= Reserve(state, total)
  {
    hide ClientSide;
    GapFitsHeader(state, total, n);
  }

  lemma TwoParts(a: seq<byte>, p: seq<byte>, k: nat)
    requires k <= |p|
    ensures a + p[..k] + p[k..] == a + p && p[..|p|] == p
  {
    assert p[..k] + p[k..] == p;
  }

  class Writer {
    const dest: Sink
    const raw: array<byte>
    const total: nat          // len(w.raw): the writer may own only the front of its array
    const off: nat            // where w.buf starts in w.raw
    var n: nat
    const op: byte
    const state: State
    var dirty: bool
    var fragmented: bool
    var err: Option<Error>

    ghost var base: seq<byte>
    ghost var sent: seq<Frame>
    ghost var accepted: seq<byte>

    ghost predicate Valid()
      reads this, dest, raw
    {
      && op < 16
      && off == Reserve(state, total) < total <= raw.Length <= MAX_LENGTH
      && off + n <= total
      && (err == None || err == Some(SinkFailed))
      && (err == None ==> Wire(dest.data, base, sent, accepted, raw[off..off + n], op, ClientSide(state), fragmented))
      && (err == None && !dirty ==> Filled(sent))
    }

    /** NewWriterBuffer on buf[:total]. */
    constructor FromBuffer(dest: Sink, state: State, op: byte, buf: array<byte>, total: nat)
      requires op < 16 && Reserve(state, total) < total <= buf.Length <= MAX_LENGTH
      ensures Valid() && Size() == total - Reserve(state, total)
      ensures this.dest == dest && this.state == state && this.op == op && raw == buf && this.total == total
      ensures n == 0 && err == None && !dirty && !fragmented && accepted == [] && sent == [] && base == dest.data
    {
      this.dest, this.state, this.op := dest, state, op;
      raw, this.total, off := buf, total, Reserve(state, total);
      n, dirty, fragmented, err := 0, false, false, None;
      base, sent, accepted := dest.data, [], [];
    }

    /** NewWriterSize: a buffer for exactly size payload bytes, or the default buffer when size is 0. */
    constructor (dest: Sink, state: State, op: byte, size: nat)
      requires op < 16 && size + MaxHeaderSize <= MAX_LENGTH
      ensures Valid() && fresh(raw)
      ensures this.dest == dest && this.state == state && this.op == op
      ensures n == 0 && err == None && !dirty && !fragmented && accepted == [] && sent == [] && base == dest.data
      ensures if size > 0 then Size() == size else this.total == DefaultWriteBuffer
    {
      var total := if size > 0 then size + SizeOfHeader(state, size) else DefaultWriteBuffer;
      if size > 0 {
        GapForSize(state, size);
      }
      this.dest, this.state, this.op := dest, state, op;
      raw := new byte[total];
      this.total, off := total, Reserve(state, total);
      n, dirty, fragmented, err := 0, false, false, None;
      base, sent, accepted := dest.data, [], [];
    }

    function Size(): int { total - off }

    function Available(): int
      reads this
    {
      total - off - n
    }

    function OpCode(): byte
      reads this
    {
      if fragmented then OpContinuation else op
    }

    ghost function Buffered(): seq<byte>
      reads this, raw
      requires off + n <= raw.Length
    {
      raw[off..off + n]
    }

    /** copy(w.buf[w.n:], p): as much of p as fits. */
    method CopyIn(p: seq<byte>) returns (nn: nat)
      requires Valid()
      modifies raw, `n, `accepted
      ensures Valid() && nn == (if |p| <= old(Available()) then |p| else old(Available()))
      ensures n == old(n) + nn && accepted == old(accepted) + p[..nn]
    {
      hide Filled, Wire, ClientSide, Reserve;
      nn := if |p| <= Available() then |p| else Available();
      ghost var was := raw[off..off + n];
      CopyAt(raw, off + n, p[..nn]);
      Grown(raw[..], off, n, was, p[..nn]);
      n := n + nn;
      if err == None {
        WireAccepts(dest.data, base, sent, accepted, was, op, ClientSide(state), fragmented, p[..nn]);
      }
      accepted := accepted + p[..nn];
    }

    /** flushFragment: the payload is masked where it lies, and the header is put into the gap in front of it,
        so that one Write sends both. */
    method SendBuffer(fin: bool) returns (e: Option<Error>, ghost f: Frame)
      requires Valid()
      modifies raw, dest
      ensures NextOf(f, op, ClientSide(state), fragmented, fin, old(Buffered()))
      ensures e == None ==> dest.data == old(dest.data) + EncodeFrame(f)
      ensures old(dest.data) <= dest.data
      ensures e == None || (e == Some(SinkFailed) && !dest.reliable)
    {
      hide Filled, Wire, ClientSide, Masked, Reserve, Encode, HeaderSize, SizeOfHeader, Unmask;
      ghost var p := Buffered();
      var mask := MaskBuffer();
      var h := Header(fin, 0, OpCode(), ClientSide(state), mask, n);
      f := Frame(h, raw[off..off + n]);
      HeaderFits(h, state, total, n);
      var offset := off - HeaderSize(h);
      PutHeader(h, offset);
      assert raw[off..off + n] == raw[off..][..n];
      assert raw[offset..off + n] == raw[offset..off] + raw[off..off + n];
      var _, e' := dest.Write(raw[offset..off + n]);
      e := e';
    }

    /** MaskFrameInPlace, when the writer is a client. */
    method MaskBuffer() returns (mask: Mask)
      requires off + n <= raw.Length
      modifies raw
      ensures !ClientSide(state) ==> mask == NoMask
      ensures forall h: Header :: h.masked == ClientSide(state) && h.mask == mask ==>
                Unmask(h, raw[off..off + n]) == old(raw[off..off + n])
    {
      hide ClientSide, Masked;
      mask := NoMask;
      if ClientSide(state) {
        ghost var p := raw[off..off + n];
        mask := NewMask();
        Cipher.Cipher(raw, off, off + n, mask, 0);
        MaskedTwice(p, mask, 0);
      }
    }

    /** WriteHeader into the header segment of the raw buffer. */
    method PutHeader(h: Header, offset: nat)
      requires offset + HeaderSize(h) == off <= raw.Length
      modifies raw
      ensures raw[offset..off] == Encode(h) && raw[off..] == old(raw[off..])
    {
      hide HeaderSize, Encode;
      var bts, k := FillHeader(h);
      assert |Encode(h)| == HeaderSize(h);
      CopyAt(raw, offset, bts[..k]);
    }

    /** FlushFragment: what is buffered goes out in a frame that is not final; nothing happens when nothing is buffered. */
    method FlushFragment() returns (e: Option<Error>)
      requires Valid()
      modifies this, raw, dest
      ensures Valid() && e == err && dirty == old(dirty)
      ensures old(err) != None ==> Untouched(old(dest.data), old(n)) && err == old(err)
      ensures old(err) == None && old(n) == 0 ==> Untouched(old(dest.data), 0) && err == None && sent == old(sent)
      ensures old(err) == None && old(n) > 0 ==> n == 0 && fragmented
      ensures old(err) == None && old(n) > 0 && err == None ==> OneMore(sent, old(sent), old(Buffered()))
      ensures dest.reliable ==> err == old(err)
      ensures accepted == old(accepted) && base == old(base) && old(dest.data) <= dest.data
    {
      hide Filled, Wire, ClientSide, Reserve, EncodeFrame, NextOf;
      if n == 0 || err != None {
        return err;
      }
      ghost var p, data := Buffered(), dest.data;
      ghost var f;
      e, f := SendBuffer(false);
      if e == None {
        WireSends(data, base, sent, accepted, p, op, ClientSide(state), fragmented, f);
        if !dirty {
          PlainOfNext(f, op, ClientSide(state), fragmented, false, p);
          FilledMore(sent, f);
        }
        PlainOfNext(f, op, ClientSide(state), fragmented, false, p);
        IsOneMore(sent, f, p);
        sent := sent + [f];
      }
      err := e;
      n := 0;
      fragmented := true;
      assert raw[off..off + n] == [];
    }

    /** Nothing has been written and nothing buffered. */
    ghost predicate Untouched(data: seq<byte>, buffered: nat)
      reads this, dest
    {
      dest.data == data && n == buffered
    }

    /** Flush: the final frame, with whatever is buffered, ends the message - unless nothing is buffered and nothing has
        marked the writer as dirty. Then it does nothing, and a message of which frames have been sent stays open.
        whole are the frames of the message that has ended. */
    method Flush() returns (e: Option<Error>, ghost whole: seq<Frame>)
      requires Valid()
      modifies this, raw, dest
      ensures Valid() && e == err && old(dest.data) <= dest.data
      ensures old(err) != None ==> Untouched(old(dest.data), old(n)) && err == old(err)
      ensures old(err) == None && !old(dirty) && old(n) == 0 ==>
                Untouched(old(dest.data), 0) && err == None && sent == old(sent) && accepted == old(accepted)
                && base == old(base) && whole == [] && !dirty
      ensures old(err) == None && (old(dirty) || old(n) > 0) ==>
                && n == 0 && !dirty && !fragmented
                && (err == None ==>
                      && WholeRun(whole, op, ClientSide(state)) && Glue(whole) == old(accepted)
                      && |whole| == |old(sent)| + 1 && whole[..|old(sent)|] == old(sent)
                      && Plain(whole[|old(sent)|]) == old(Buffered())
                      && dest.data == old(base) + EncodeAll(whole)
                      && sent == [] && accepted == [] && base == dest.data)
      ensures err == None ==> (sent == [] <==> old(dirty) || old(n) > 0 || old(sent) == [])
      ensures dest.reliable ==> err == old(err)
    {
      hide Filled, Wire, ClientSide, Reserve, EncodeFrame, NextOf, WholeRun, EncodeAll, Glue;
      whole := [];
      if (!dirty && n == 0) || err != None {
        return err, whole;
      }
      e, whole := EndMessage();
    }

    /** The part of Flush that ends a message. */
    method EndMessage() returns (e: Option<Error>, ghost whole: seq<Frame>)
      requires Valid() && err == None
      modifies this, raw, dest
      ensures Valid() && e == err && old(dest.data) <= dest.data && n == 0 && !dirty && !fragmented
      ensures err == None ==>
                && WholeRun(whole, op, ClientSide(state)) && Glue(whole) == old(accepted)
                && |whole| == |old(sent)| + 1 && whole[..|old(sent)|] == old(sent)
                && Plain(whole[|old(sent)|]) == old(Buffered())
                && dest.data == old(base) + EncodeAll(whole)
                && sent == [] && accepted == [] && base == dest.data
      ensures dest.reliable ==> err == None
    {
      hide Filled, Wire, ClientSide, Reserve, EncodeFrame, NextOf, WholeRun, EncodeAll, Glue;
      ghost var p, data := Buffered(), dest.data;
      ghost var f;
      e, f := SendBuffer(true);
      whole := sent + [f];
      if e == None {
        WireEnds(data, base, sent, accepted, p, op, ClientSide(state), fragmented, f);
        PlainOfNext(f, op, ClientSide(state), fragmented, true, p);
        base, sent, accepted := dest.data, [], [];
      }
      err := e;
      n := 0;
      dirty := false;
      fragmented := false;
      assert raw[off..off + n] == [];
      FreshWire(dest.data, op, ClientSide(state));
    }

    /** WriteThrough: p goes out at once in a frame of its own that is not final. */
    method WriteThrough(p: seq<byte>) returns (nn: nat, e: Option<Error>)
      requires Valid() && |p| <= MAX_LENGTH
      modifies this, dest
      ensures Valid() && n == old(n) && base == old(base) && old(dest.data) <= dest.data
      ensures old(err) != None ==>
                nn == 0 && e == old(err) == err && Untouched(old(dest.data), old(n)) && accepted == old(accepted)
                && dirty == old(dirty)
      ensures old(err) == None && old(n) > 0 ==>
                nn == 0 && e == Some(NotEmpty) && err == None && Untouched(old(dest.data), old(n))
                && accepted == old(accepted) && dirty == old(dirty)
      ensures old(err) == None && old(n) == 0 ==>
                && e == err && dirty && fragmented
                && (e == None ==> nn == |p| && accepted == old(accepted) + p && OneMore(sent, old(sent), p))
                && (e != None ==> nn == 0 && accepted == old(accepted))
      ensures dest.reliable ==> err == old(err)
    {
      hide Filled, Wire, ClientSide, Reserve, EncodeFrame, NextOf, Unmask;
      nn := 0;
      if err != None {
        return nn, err;
      }
      if n != 0 {
        return nn, Some(NotEmpty);
      }
      ghost var data := dest.data;
      ghost var f;
      e, f := WriteFrame(dest, state, OpCode(), false, p);
      assert raw[off..off + n] == [];
      err := e;
      if err == None {
        nn := |p|;
        FrameIsNext(f, op, ClientSide(state), fragmented, false, p);
        WireAccepts(data, base, sent, accepted, [], op, ClientSide(state), fragmented, p);
        assert [] + p == p;
        WireSends(data, base, sent, accepted + p, p, op, ClientSide(state), fragmented, f);
        IsOneMore(sent, f, p);
        sent, accepted := sent + [f], accepted + p;
      }
      dirty := true;
      fragmented := true;
    }

    /** One turn of Write's loop, when p does not fit: straight through if the buffer is empty,
        else fill the buffer up and send it. */
    method WriteSome(p: seq<byte>) returns (nn: nat)
      requires Valid() && |p| <= MAX_LENGTH && |p| > Available() && err == None && dirty
      modifies this, raw, dest
      ensures Valid() && dirty && base == old(base) && old(dest.data) <= dest.data
      ensures nn <= |p| && accepted == old(accepted) + p[..nn]
      ensures dest.reliable ==> err == None
      ensures err == None ==> nn > 0 || n < old(n)
      ensures err == None ==> n == 0 && nn == if old(n) == 0 then |p| else old(Available())
      ensures err == None ==> exists q :: OneMore(sent, old(sent), q) && |q| == old(n) + nn
    {
      hide Filled, Wire, ClientSide, Reserve, OneMore;
      if n == 0 {
        var ignored;
        nn, ignored := WriteThrough(p);
        assert p[..|p|] == p && p[..0] == [];
      } else {
        nn := CopyIn(p);
        var _ := FlushFragment();
      }
    }

    /** Write: all of p is accepted, or the sink has failed. Data beyond the buffer's room goes out in frames that
        are not final; the loop ends because it takes in some of p or else empties a full buffer. */
    method Write(p: seq<byte>) returns (count: nat, e: Option<Error>)
      requires Valid() && |p| <= MAX_LENGTH
      modifies this, raw, dest
      ensures Valid() && e == err && dirty && base == old(base) && old(dest.data) <= dest.data
      ensures old(err) != None ==> count == 0 && err == old(err) && Untouched(old(dest.data), old(n))
      ensures count <= |p| && accepted == old(accepted) + p[..count]
      ensures e == None ==> count == |p| && accepted == old(accepted) + p
      ensures |p| <= old(Available()) && old(err) == None ==>
                e == None && sent == old(sent) && Untouched(old(dest.data), old(n) + |p|)
      ensures e == None ==> n == AfterWrite(Size(), old(n), |p|)
      ensures e == None ==> Sends(sent, old(sent), FramesOfWrite(Size(), old(n), |p|))
      ensures dest.reliable ==> err == old(err)
    {
      hide Filled, Wire, ClientSide, Reserve, AfterWrite, Sends, FramesOfWrite, OnTheWay;
      dirty := true;
      count := WriteOut(p);
      if err != None {
        return count, err;
      }
      Arrives(Size(), old(n), |p|, n, |p| - count, old(sent), sent);
      assert |p[count..]| == |p| - count;
      TwoParts(old(accepted), p, count);
      var nn := CopyIn(p[count..]);
      assert p[count..][..nn] == p[count..];
      count := count + nn;
      e := err;
    }

    /** Write's loop: until what is left of p fits into the buffer. */
    method WriteOut(p: seq<byte>) returns (count: nat)
      requires Valid() && dirty && |p| <= MAX_LENGTH
      modifies this, raw, dest
      ensures Valid() && dirty && base == old(base) && old(dest.data) <= dest.data && n <= Size()
      ensures count <= |p| && accepted == old(accepted) + p[..count]
      ensures old(err) != None || |p| <= old(Available()) ==>
                count == 0 && err == old(err) && sent == old(sent) && Untouched(old(dest.data), old(n))
      ensures err == None ==> |p| - count <= Available()
      ensures err == None ==> OnTheWay(Size(), old(n), |p|, n, |p| - count, old(sent), sent)
      ensures dest.reliable ==> err == old(err)
    {
      hide Filled, Wire, ClientSide, Reserve, OnTheWay, OneMore;
      count := 0;
      SetsOut(Size(), n, |p|, sent);
      while |p| - count > Available() && err == None
        invariant Valid() && dirty && base == old(base) && old(dest.data) <= dest.data && n <= Size()
        invariant count <= |p| && accepted == old(accepted) + p[..count]
        invariant old(err) != None || |p| <= old(Available()) ==>
                    count == 0 && err == old(err) && sent == old(sent) && Untouched(old(dest.data), old(n))
        invariant dest.reliable ==> err == old(err)
        invariant err == None ==> OnTheWay(Size(), old(n), |p|, n, |p| - count, old(sent), sent)
        decreases err == None, |p| - count, n
      {
        ghost var mid, m := sent, n;
        var nn := WriteSome(p[count..]);
        assert p[..count] + p[count..][..nn] == p[..count + nn];
        if err == None {
          ghost var q :| OneMore(sent, mid, q) && |q| == m + nn;
          OneFrameOn(Size(), old(n), |p|, m, |p| - count, old(sent), mid, sent, nn, q);
        }
        count := count + nn;
      }
    }

    /** The inner loop of ReadFrom: up to maxEmptyReads reads straight into the free part of the buffer. */
    method FillOnce(src: Source) returns (nn: nat, e: Option<Error>, stuck: bool)
      requires Valid() && Available() > 0
      modifies raw, src
      ensures Valid() && nn <= Available() && nn <= |old(src.rest)| && src.rest == old(src.rest)[nn..]
      ensures Buffered() == old(Buffered()) && raw[off + n..off + n + nn] == old(src.rest)[..nn]
      ensures e == None || (e == Some(EOF) && src.rest == [])
      ensures src.stalls <= old(src.stalls)
      ensures stuck ==> nn == 0 && e == None && old(src.stalls) >= MaxEmptyReads
      ensures !stuck ==> nn > 0 || e != None
    {
      hide Filled, Wire, ClientSide, Reserve;
      var nr := 0;
      nn, e := 0, None;
      ghost var rest := src.rest;
      ghost var kept := raw[..off + n];
      assert kept[off..] == Buffered();
      while nr < MaxEmptyReads && nn == 0 && e == None
        invariant 0 <= nr <= MaxEmptyReads && nn <= Available() && nn <= |rest| && src.rest == rest[nn..]
        invariant raw[..off + n] == kept && raw[off + n..off + n + nn] == rest[..nn]
        invariant e == None || (e == Some(EOF) && src.rest == [])
        invariant src.stalls + nr <= old(src.stalls)
        decreases nn == 0 && e == None, MaxEmptyReads - nr
      {
        nn, e := src.Read(raw, off + n, total);
        if nn == 0 && e == None {
          nr := nr + 1;
        }
      }
      stuck := nn == 0 && e == None;
      assert raw[off..off + n] == raw[..off + n][off..];
    }

    /** One turn of ReadFrom's loop: a full buffer is sent, else the source is read into it. */
    method ReadTurn(src: Source) returns (nn: nat, e: Option<Error>, stuck: bool)
      requires Valid()
      modifies this, raw, dest, src
      ensures Valid() && base == old(base) && old(dest.data) <= dest.data && dirty == old(dirty)
      ensures nn <= |old(src.rest)| && src.rest == old(src.rest)[nn..] && accepted == old(accepted) + old(src.rest)[..nn]
      ensures src.stalls <= old(src.stalls) && (stuck ==> e == None && old(src.stalls) >= MaxEmptyReads)
      ensures e != None ==> (e == Some(EOF) && src.rest == []) || e == err
      ensures e == None && !stuck ==> |src.rest| < |old(src.rest)| || (nn == 0 && n < old(n))
      ensures stuck ==> n < Size()
      ensures old(err) != None ==> dest.data == old(dest.data) && err == old(err)
      ensures dest.reliable ==> err == old(err)
      ensures err == None ==> Congruent(Size(), old(n) + nn, n) && n <= Size() && (n == Size() ==> nn > 0)
      ensures err == None ==> AllFull(sent, old(sent), Size())
    {
      hide Filled, Wire, ClientSide, Reserve, Congruent, OneMore, AllFull;
      NothingSent(sent, Size());
      StartOfRead(Size(), n);
      ghost var rest, n0 := src.rest, n;
      if Available() == 0 {
        BufferSent(Size(), n);
        ghost var before, p := sent, Buffered();
        e := FlushFragment();
        if e == None {
          OneFull(sent, before, p, Size());
        }
        nn, stuck := 0, false;
      } else {
        nn, e, stuck := FillOnce(src);
        if !stuck {
          TakeIn(nn, rest[..nn]);
          StartOfRead(Size(), n);
        }
      }
      assert accepted + [] == accepted;
    }

    /** ReadFrom: everything the source has is accepted, until its end, until it makes no progress in a hundred
        reads, or until the sink fails. */
    method ReadFrom(src: Source) returns (count: nat, e: Option<Error>)
      requires Valid()
      modifies this, raw, dest, src
      ensures Valid() && base == old(base) && old(dest.data) <= dest.data
      ensures count <= |old(src.rest)| && src.rest == old(src.rest)[count..]
      ensures accepted == old(accepted) + old(src.rest)[..count]
      ensures e == None ==> src.rest == [] && dirty
      ensures e != None ==> dirty == old(dirty) && (e == Some(NoProgress) || e == err)
      ensures e == Some(NoProgress) ==> old(src.stalls) >= MaxEmptyReads && n < Size()
      ensures err == None ==> AfterRead(Size(), old(n), count, n) && AllFull(sent, old(sent), Size())
      ensures old(err) != None ==> dest.data == old(dest.data) && err == old(err)
      ensures dest.reliable ==> err == old(err)
    {
      hide Filled, Wire, ClientSide, Reserve, Congruent, AfterRead, AllFull;
      ghost var rest := src.rest;
      NothingSent(sent, Size());
      StartOfRead(Size(), n);
      count, e := 0, None;
      var stuck := false;
      while e == None && !stuck
        invariant Valid() && base == old(base) && old(dest.data) <= dest.data && dirty == old(dirty)
        invariant count <= |rest| && src.rest == rest[count..] && accepted == old(accepted) + rest[..count]
        invariant src.stalls <= old(src.stalls) && (stuck ==> e == None && old(src.stalls) >= MaxEmptyReads)
        invariant e != None ==> (e == Some(EOF) && src.rest == []) || e == err
        invariant old(err) != None ==> dest.data == old(dest.data) && err == old(err)
        invariant dest.reliable ==> err == old(err)
        invariant err == None ==> Congruent(Size(), old(n) + count, n) && n <= Size()
        invariant err == None ==> AllFull(sent, old(sent), Size())
        invariant err == None && n == Size() && (e != None || stuck) ==> count > 0
        invariant stuck ==> n < Size()
        decreases e == None && !stuck, |src.rest|, n
      {
        var nn;
        ghost var n0, mid := n, sent;
        nn, e, stuck := ReadTurn(src);
        assert rest[..count] + rest[count..][..nn] == rest[..count + nn];
        assert rest[count..][nn..] == rest[count + nn..];
        if err == None {
          MoreCongruent(Size(), old(n) + count, n0, nn, n);
          MoreFull(sent, mid, old(sent), Size());
        }
        count := count + nn;
      }
      if err == None {
        ReadEnds(Size(), old(n), count, n);
      }
      if stuck {
        return count, Some(NoProgress);
      }
      if e == Some(EOF) {
        e := None;
        dirty := true;
      }
    }

    /** w.n += nn, for bytes already read into place. */
    method TakeIn(nn: nat, ghost p: seq<byte>)
      requires Valid() && nn <= Available() && raw[off + n..off + n + nn] == p
      modifies `n, `accepted
      ensures Valid() && n == old(n) + nn && accepted == old(accepted) + p
    {
      hide Filled, Wire, ClientSide, Reserve;
      Grown(raw[..], off, n, Buffered(), p);
      if err == None {
        WireAccepts(dest.data, base, sent, accepted, Buffered(), op, ClientSide(state), fragmented, p);
      }
      n := n + nn;
      accepted := accepted + p;
    }
  }

  lemma FreshWire(data: seq<byte>, op: byte, client: bool)
    ensures Wire(data, data, [], [], [], op, client, false) && Filled([])
  {
    assert data + EncodeAll([]) == data;
    assert Glue([]) + [] == [];
  }

  lemma FrameIsNext(f: Frame, op: byte, client: bool, fragmented: bool, fin: bool, p: seq<byte>)
    requires f.Sound() && f.header.fin == fin && f.header.rsv == 0 && f.header.masked == client && Plain(f) == p
    requires f.header.opCode == (if fragmented then OpContinuation else op)
    ensures NextOf(f, op, client, fragmented, fin, p)
  {
  }
}
