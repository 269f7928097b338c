/** repo/ws/wsutil/reader.go: Discard, which leaves a message unread. */
module Discard {
  import opened Bytes
  import opened Streams
  import opened Header
  import opened Check
  import opened Frames
  import opened Reading
  import opened Reassembly
  import opened Reader
  import Utf8

  /** How leaving the current message ends: the control messages met on the way, and what is left of the stream. */
  datatype Left = Left(ctrl: seq<Message>, rest: seq<byte>) | Stopped(ctrl: seq<Message>, err: Error)
  {
    function After(cs: seq<Message>): Left {
      match this
      case Left(c, r) => Left(cs + c, r)
      case Stopped(c, e) => Stopped(cs + c, e)
    }
  }

  /** All that Discard looks at: not what the payload says, nor how it is to be deciphered. */
  function Bare(rest: seq<byte>, state: State): View {
    Initial(rest, state, false)
  }

  /** To the end of the message's last frame. A frame cut short by the end of the stream is left like any other. */
  function Leave(rest: seq<byte>, state: State, left: nat): Left
    decreases |rest|
  {
    var behind := rest[Min(left, |rest|)..];
    if !Fragmented(state) then Left([], behind)
    else match Open(Bare(behind, state))
      case NoFrame(e) => Stopped([], e)
      case Aside(_, m, w) => Leave(w.rest, w.state, w.left).After([m])
      case Opened(_, w) => Leave(w.rest, w.state, w.left)
  }

  /** What a reader has noted about the text does not matter for the frames to come. */
  lemma OpenAnyway(v: View)
    ensures var o, b := Open(v), Open(Bare(v.rest, v.state));
            && (o.NoFrame? <==> b.NoFrame?) && (o.Aside? <==> b.Aside?)
            && (o.NoFrame? ==> o.err == b.err)
            && (o.Aside? ==> o.msg == b.msg)
            && (!o.NoFrame? ==> o.v.rest == b.v.rest && o.v.state == b.v.state && o.v.left == b.v.left && o.hdr == b.hdr)
  {
    hide Parse, CheckHeader, Unmask, Clear, Set;
  }

  /** Discard ends exactly where Read would have ended the message, with the same control messages. */
  lemma {:induction false} LeavesTheMessage(v: View)
    requires Drain(v).Done?
    ensures Leave(v.rest, v.state, if v.frame.Some? then v.left else 0) == Left(Drain(v).ctrl, Drain(v).rest)
    decreases |v.rest|, v.frame.Some?
  {
    hide Open, Take, TextAfter, Rejects, Fragmented;
    if v.frame.Some? {
      assert v.left <= |v.rest|;
      var u := Skip(v, v.left);
      assert Drain(v) == AtFrameEnd(u).After([], Take(v, v.left));
      if Fragmented(v.state) {
        var w := CloseFragment(u);
        LeavesTheMessage(w);
        assert w.rest[0..] == w.rest;
        assert Leave(v.rest, v.state, v.left) == Leave(w.rest, w.state, 0);
        assert [] + Drain(w).ctrl == Drain(w).ctrl;
      }
    } else {
      OpenAnyway(v);
      OpenLeft(v);
      assert v.rest[0..] == v.rest;
      LeavesTheMessage(Open(v).v);
    }
  }

  /** After a control frame nothing of it is left, unless the stream has ended. */
  lemma OpenLeft(v: View)
    ensures Open(v).Aside? ==> Open(v).v.frame == v.frame && Open(v).v.state == v.state
    ensures Open(v).Aside? ==> (Open(v).v.left == 0 || Open(v).v.rest == [])
    ensures Open(v).Opened? ==> Open(v).v.frame.Some?
  {
    hide Parse, CheckHeader, Unmask, Clear, Set;
  }

  // ---------- a stream that ends too soon ----------

  /** Inside a message the end of the stream is noticed by the next NextFrame. */
  lemma NothingLeft(state: State, left: nat)
    ensures Leave([], state, left) == if Fragmented(state) then Stopped([], UnexpectedEOF) else Left([], [])
  {
    hide Fragmented;
  }

  /** A payload cut short is noticed iff the message was to go on in another frame. */
  lemma PayloadCutShort(rest: seq<byte>, state: State, left: nat)
    requires |rest| < left
    ensures Leave(rest, state, left) == if Fragmented(state) then Stopped([], UnexpectedEOF) else Left([], [])
  {
    hide Fragmented;
    NothingLeft(state, 0);
  }

  /** How much of the frames fs that end a message must be there for Discard to succeed: all frames but the last,
      and the header of the last. */
  function Needed(fs: seq<Frame>): nat
    requires fs != []
  {
    if |fs| == 1 then HeaderSize(fs[0].header) else |EncodeFrame(fs[0])| + Needed(fs[1..])
  }

  /** A message, of whose current frame the bytes cur are still to come, and the frames fs behind them. The stream is cut
      after n bytes: Discard succeeds iff the cut lies at or behind the header of the final frame. */
  lemma {:induction false} CutIsNoticedBeforeTheFinalPayload(cur: seq<byte>, fs: seq<Frame>, s: State, n: nat)
    requires if Fragmented(s) then Continuing(fs, s) else fs == []
    requires n <= |cur + EncodeAll(fs)|
    ensures var l := Leave((cur + EncodeAll(fs))[..n], s, |cur|);
            if fs == [] || n >= |cur| + Needed(fs) then l.Left? else l.Stopped? && l.err == UnexpectedEOF
    decreases |fs|, 2
  {
    hide Fragmented, Continuing, EncodeAll, Leave;
    var p := (cur + EncodeAll(fs))[..n];
    if !Fragmented(s) {
      LeaveEnds(p, s, |cur|);
    } else if n < |cur| {
      ContinuingIsSome(fs, s);
      PayloadCutShort(p, s, |cur|);
    } else {
      ContinuingIsSome(fs, s);
      assert p[|cur|..] == EncodeAll(fs)[..n - |cur|];
      SkipPayload(p, s, |cur|);
      CutAtFrames(fs, s, n - |cur|);
    }
  }

  lemma ContinuingIsSome(fs: seq<Frame>, s: State)
    requires Continuing(fs, s)
    ensures fs != []
  {
  }

  lemma LeaveEnds(rest: seq<byte>, s: State, left: nat)
    requires !Fragmented(s)
    ensures Leave(rest, s, left).Left?
  {
  }

  lemma SkipPayload(rest: seq<byte>, s: State, left: nat)
    requires left <= |rest|
    ensures Leave(rest, s, left) == Leave(rest[left..], s, 0)
  {
    hide Open, Fragmented;
    assert rest[left..][0..] == rest[left..];
  }

  lemma {:induction false} CutAtFrames(fs: seq<Frame>, s: State, n: nat)
    requires Fragmented(s) && Continuing(fs, s) && n <= |EncodeAll(fs)|
    ensures var l := Leave(EncodeAll(fs)[..n], s, 0);
            if n >= Needed(fs) then l.Left? else l.Stopped? && l.err == UnexpectedEOF
    decreases |fs|, 1
  {
    hide Fragmented, FrameAllowed, Encode, Leave, Unmask, Open;
    var f, more := fs[0], EncodeAll(fs[1..]);
    var k := HeaderSize(f.header);
    assert f.Sound() && FrameAllowed(f.header, s);
    var p := EncodeAll(fs)[..n];
    assert EncodeAll(fs) == Encode(f.header) + (f.payload + more);
    NeededIsMore(fs);
    if n < k {
      assert p == Encode(f.header)[..n];
      HeaderCutShort(f.header, n);
      HeaderEnds(p, s);
    } else {
      var q := (f.payload + more)[..n - k];
      assert p == Encode(f.header) + q;
      OpensCut(f, s, q);
      FrameOpened(p, s, f, q);
      if ControlFrame(f) {
        ContinuingTail(fs, s);
        CutAtControl(fs, s, n - k);
      } else {
        CutAtFragment(fs, s, n - k);
      }
    }
  }

  lemma NeededIsMore(fs: seq<Frame>)
    requires fs != []
    ensures Needed(fs) >= HeaderSize(fs[0].header)
    ensures |fs| > 1 ==> Needed(fs) > |EncodeFrame(fs[0])|
  {
    if |fs| > 1 {
      NeededIsMore(fs[1..]);
    }
  }

  /** The stream ends inside a header. */
  lemma HeaderEnds(p: seq<byte>, s: State)
    requires Fragmented(s) && Parse(p).Failed? && Parse(p).err in {EOF, UnexpectedEOF}
    ensures Leave(p, s, 0) == Stopped([], UnexpectedEOF)
  {
    hide Parse, Fragmented;
    assert p[0..] == p;
  }

  /** A header whose payload may be cut short. */
  lemma OpensCut(f: Frame, s: State, q: seq<byte>)
    requires f.Sound() && FrameAllowed(f.header, s) && Fragmented(s)
    requires !ControlFrame(f) ==> f.header.opCode == OpContinuation
    ensures Open(Bare(Encode(f.header) + q, s)) == OpenBody(Bare(Encode(f.header) + q, s), f.header, q)
  {
    hide Parse, Encode, OpenBody, Fragmented, FrameAllowed, Clear, Set;
    ParseInvertsEncode(f.header, q);
    AllowedPasses(f.header, s);
    assert |Encode(f.header)| == HeaderSize(f.header);
    assert (Encode(f.header) + q)[HeaderSize(f.header)..] == q;
  }

  /** What Discard goes on with behind a header. */
  function Behind(f: Frame, s: State, q: seq<byte>): Left {
    if ControlFrame(f) then
      var k := Min(f.header.length, |q|);
      Leave(q[k..], s, f.header.length - k).After([Message(f.header.opCode, Unmask(f.header, q[..k]))])
    else
      Leave(q, if f.header.fin then Clear(s, StateFragmented) else Set(s, StateFragmented), f.header.length)
  }

  lemma FrameOpened(p: seq<byte>, s: State, f: Frame, q: seq<byte>)
    requires Fragmented(s) && Open(Bare(p, s)) == OpenBody(Bare(p, s), f.header, q) && |q| < |p|
    ensures Leave(p, s, 0) == Behind(f, s, q)
  {
    hide Parse, CheckHeader, Fragmented, Unmask, Clear, Set, Open;
    assert p[0..] == p;
  }

  lemma {:induction false} CutAtControl(fs: seq<Frame>, s: State, m: nat)
    requires fs != [] && Fragmented(s) && Continuing(fs[1..], s) && fs[0].Sound() && ControlFrame(fs[0])
    requires m <= |fs[0].payload + EncodeAll(fs[1..])|
    ensures var l := Behind(fs[0], s, (fs[0].payload + EncodeAll(fs[1..]))[..m]);
            if m >= |fs[0].payload| + Needed(fs[1..]) then l.Left? else l.Stopped? && l.err == UnexpectedEOF
    decreases |fs|, 0
  {
    hide Fragmented, Encode, Leave, Unmask, EncodeAll;
    var f, more := fs[0], EncodeAll(fs[1..]);
    var q := (f.payload + more)[..m];
    if m < |f.payload| {
      assert q[m..] == [];
      NothingLeft(s, f.header.length - m);
    } else {
      assert q[|f.payload|..] == more[..m - |f.payload|];
      CutAtFrames(fs[1..], s, m - |f.payload|);
    }
  }

  lemma {:induction false} CutAtFragment(fs: seq<Frame>, s: State, m: nat)
    requires Fragmented(s) && Continuing(fs, s) && !ControlFrame(fs[0])
    requires m <= |fs[0].payload + EncodeAll(fs[1..])|
    ensures var l := Behind(fs[0], s, (fs[0].payload + EncodeAll(fs[1..]))[..m]);
            if |fs| == 1 || m >= |fs[0].payload| + Needed(fs[1..]) then l.Left? else l.Stopped? && l.err == UnexpectedEOF
    decreases |fs|, 0
  {
    hide Fragmented, Encode, Leave, Unmask, EncodeAll, FrameAllowed, Clear, Set;
    var f := fs[0];
    FragmentFlag(s);
    assert f.header.fin <==> |fs| == 1;
    if f.header.fin {
      assert fs[1..] == [];
      LeaveEnds((f.payload + EncodeAll(fs[1..]))[..m], Clear(s, StateFragmented), f.header.length);
    } else {
      var t := Set(s, StateFragmented);
      ContinuingTail(fs, s);
      SameSideContinues(fs[1..], s, t);
      CutIsNoticedBeforeTheFinalPayload(f.payload, fs[1..], t, m);
    }
  }

  /** So a stream that ends inside a final frame is an error to read and none to discard. */
  lemma CutGoesUnnoticed()
    ensures var h := Header(true, 0, OpBinary, false, NoMask, 2);
            && Receive(Encode(h) + [0x61], StateClientSide) == Lost([], UnexpectedEOF)
            && Leave([0x61], StateClientSide, 2) == Left([], [])
  {
    var h := Header(true, 0, OpBinary, false, NoMask, 2);
    PayloadCutShort([0x61], StateClientSide, 2);
    ReadsCut(h, [0x61]);
  }

  lemma ReadsCut(h: Header, q: seq<byte>)
    requires h.Wire() && FrameAllowed(h, StateClientSide) && h.opCode == OpBinary && h.fin && |q| < h.length
    ensures Receive(Encode(h) + q, StateClientSide) == Lost([], UnexpectedEOF)
  {
    hide Parse, Encode, CheckHeader, Unmask;
    var v := Initial(Encode(h) + q, StateClientSide, true);
    ParseInvertsEncode(h, q);
    AllowedPasses(h, StateClientSide);
    assert (Encode(h) + q)[HeaderSize(h)..] == q by { assert |Encode(h)| == HeaderSize(h); }
    assert Open(v) == OpenBody(v, h, q);
  }

  /** io.Copy(ioutil.Discard, &r.raw). */
  method SkipRaw(rd: Reader)
    modifies rd.source, rd`left
    ensures var k := Min(old(rd.left), |old(rd.source.rest)|);
            rd.source.rest == old(rd.source.rest)[k..] && rd.left == old(rd.left) - k
    ensures rd.source.stalls <= old(rd.source.stalls)
  {
    ghost var r := rd.source.rest;
    ghost var k: nat := 0;
    var buf := new byte[512];
    var e: Option<Error> := None;
    while e == None
      invariant k <= |r| && k <= old(rd.left)
      invariant rd.source.rest == r[k..] && rd.left == old(rd.left) - k
      invariant e == None || rd.left == 0 || rd.source.rest == []
      invariant rd.source.stalls <= old(rd.source.stalls)
      decreases e == None, rd.left, rd.source.stalls
    {
      var n;
      n, e := rd.RawRead(buf, 0, buf.Length);
      k := k + n;
    }
  }

  /** Discard, from any point of a message. */
  method Discard(rd: Reader) returns (err: Option<Error>, ghost cs: seq<Message>)
    modifies rd, rd.source, rd.cipher, rd.utf8
    ensures rd.collected == old(rd.collected) + cs
    ensures var l := Leave(old(rd.source.rest), old(rd.state), old(rd.left));
            && (l.Left? ==> err == None && cs == l.ctrl && rd.source.rest == l.rest && !Fragmented(rd.state))
            && (l.Stopped? ==> err == Some(l.err) && cs == l.ctrl)
    ensures rd.frame == None && rd.left == 0 && rd.op == 0 && rd.utf8.Now() == Utf8.Start
  {
    hide Open, Fragmented, Leave;
    err, cs := None, [];
    ghost var l := Leave(rd.source.rest, rd.state, rd.left);
    assert l.After([]) == l by { AfterNone(l); }
    while true
      invariant rd.collected == old(rd.collected) + cs && err == None
      invariant l == Leave(rd.source.rest, rd.state, rd.left).After(cs)
      decreases |rd.source.rest|
    {
      ghost var rest, state, left := rd.source.rest, rd.state, rd.left;
      SkipRaw(rd);
      OneFrame(rest, state, left, rd.Now(), cs);
      if !Fragmented(rd.state) {
        break;
      }
      ghost var v := rd.Now();
      OpenShrinks(v);
      var h;
      h, err := rd.NextFrame();
      if err != None {
        break;
      }
      if Open(v).Aside? {
        cs := cs + [Open(v).msg];
      }
    }
    rd.left, rd.frame, rd.op := 0, None, 0;
    rd.utf8.state, rd.utf8.codep, rd.utf8.accepted := 0, 0, 0;
  }

  lemma AfterNone(l: Left)
    ensures l.After([]) == l
  {
  }

  lemma OpenShrinks(v: View)
    ensures !Open(v).NoFrame? ==> |Open(v).v.rest| < |v.rest|
  {
  }

  /** One turn of Discard's loop, seen from what is still to come. */
  lemma OneFrame(rest: seq<byte>, state: State, left: nat, v: View, cs: seq<Message>)
    requires v.rest == rest[Min(left, |rest|)..] && v.state == state
    ensures !Fragmented(state) ==> Leave(rest, state, left).After(cs) == Left(cs, v.rest)
    ensures Fragmented(state) && Open(v).NoFrame? ==> Leave(rest, state, left).After(cs) == Stopped(cs, Open(v).err)
    ensures Fragmented(state) && Open(v).Aside? ==>
              Leave(rest, state, left).After(cs) ==
              Leave(Open(v).v.rest, Open(v).v.state, Open(v).v.left).After(cs + [Open(v).msg])
    ensures Fragmented(state) && Open(v).Opened? ==>
              Leave(rest, state, left).After(cs) == Leave(Open(v).v.rest, Open(v).v.state, Open(v).v.left).After(cs)
  {
    hide Open, Fragmented;
    OpenAnyway(v);
    if Fragmented(state) && Open(v).Aside? {
      var next := Leave(Open(v).v.rest, Open(v).v.state, Open(v).v.left);
      assert cs + ([Open(v).msg] + next.ctrl) == (cs + [Open(v).msg]) + next.ctrl;
    }
  }
}
