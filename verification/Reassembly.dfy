/** What reading gives back of a message that was sent in frames, with control frames between them
    (section 5.4 of RFC 6455). */
module Reassembly {
  import opened Bytes
  import opened Cipher
  import opened Streams
  import opened Header
  import opened Check
  import opened Frames
  import opened Utf8
  import opened Reading

  predicate ControlFrame(f: Frame) { IsControl(f.header.opCode) }

  /** The control messages in fs, in order. */
  function Controls(fs: seq<Frame>): seq<Message> {
    if fs == [] then []
    else (if ControlFrame(fs[0]) then [Message(fs[0].header.opCode, Plain(fs[0]))] else []) + Controls(fs[1..])
  }

  /** The payloads of the data frames in fs, glued. */
  function DataOf(fs: seq<Frame>): seq<byte> {
    if fs == [] then [] else (if ControlFrame(fs[0]) then [] else Plain(fs[0])) + DataOf(fs[1..])
  }

  /** Every frame is sound and passes the rules for single frames on side s. */
  ghost predicate AllAllowed(fs: seq<Frame>, s: State) {
    forall i :: 0 <= i < |fs| ==> fs[i].Sound() && FrameAllowed(fs[i].header, s)
  }

  /** fs carry an open message on to its end: continuations, with control frames in between,
      up to and including the final fragment. */
  ghost predicate Continuing(fs: seq<Frame>, s: State) {
    && |fs| > 0 && AllAllowed(fs, s)
    && (forall i :: 0 <= i < |fs| ==> ControlFrame(fs[i]) || fs[i].header.opCode == OpContinuation)
    && (forall i :: 0 <= i < |fs| ==> !ControlFrame(fs[i]) ==> (fs[i].header.fin <==> i == |fs| - 1))
    && !ControlFrame(fs[|fs| - 1])
  }

  /** fs carry one whole message: a data frame that opens it and, unless that one is final, the rest. */
  ghost predicate MessageStream(fs: seq<Frame>, s: State) {
    && |fs| > 0 && AllAllowed(fs[..1], s)
    && !ControlFrame(fs[0]) && fs[0].header.opCode != OpContinuation
    && (if fs[0].header.fin then |fs| == 1 else Continuing(fs[1..], s))
  }

  // ---------- one frame at the head of the stream ----------

  lemma ParseFrame(f: Frame, more: seq<byte>)
    requires f.Sound()
    ensures Parse(EncodeFrame(f) + more) == Parsed(f.header, HeaderSize(f.header))
    ensures (EncodeFrame(f) + more)[HeaderSize(f.header)..] == f.payload + more
  {
    hide Encode;
    assert |Encode(f.header)| == HeaderSize(f.header);
    assert EncodeFrame(f) + more == Encode(f.header) + (f.payload + more);
    ParseInvertsEncode(f.header, f.payload + more);
  }

  /** The view of a reader between two frames, or before the first one. */
  predicate Between(v: View) {
    v.frame == None && v.left == 0
  }

  /** NextFrame accepts an allowed frame that continues a message iff one is open. */
  lemma OpenFrame(v: View, f: Frame, more: seq<byte>)
    requires v.rest == EncodeFrame(f) + more && f.Sound() && FrameAllowed(f.header, v.state)
    requires !ControlFrame(f) ==> (f.header.opCode == OpContinuation <==> Fragmented(v.state))
    ensures Open(v) == OpenBody(v, f.header, f.payload + more)
  {
    hide Parse, EncodeFrame, OpenBody, Fragmented, FrameAllowed;
    ParseFrame(f, more);
    AllowedPasses(f.header, v.state);
  }

  lemma AllowedPasses(h: Header, s: State)
    requires FrameAllowed(h, s) && (!IsControl(h.opCode) ==> (h.opCode == OpContinuation <==> Fragmented(s)))
    ensures CheckHeader(h, s) == None
  {
    hide Fragmented, ServerSide, ClientSide, Check.Extended, IsControl, IsReserved;
    assert !IsControl(OpContinuation) by { ContinuationIsData(); }
  }

  lemma ContinuationIsData()
    ensures !IsControl(OpContinuation)
  {
  }

  /** A control frame inside a message is handed on, and the message goes on behind it. */
  lemma DrainControl(v: View, f: Frame, more: seq<byte>)
    requires Between(v) && Fragmented(v.state)
    requires v.rest == EncodeFrame(f) + more && f.Sound() && FrameAllowed(f.header, v.state) && ControlFrame(f)
    ensures Drain(v) == Drain(v.(rest := more)).After([Message(f.header.opCode, Plain(f))], [])
  {
    hide Fragmented, FrameAllowed, EncodeFrame, Unmask, IsControl, Open;
    OpenFrame(v, f, more);
    assert (f.payload + more)[..|f.payload|] == f.payload;
    assert (f.payload + more)[|f.payload|..] == more;
    assert v.(rest := more, left := 0) == v.(rest := more);
  }

  /** The view just after NextFrame has opened a data frame. */
  function InFrame(v: View, f: Frame, more: seq<byte>, op: byte, check: bool): View {
    v.(rest := f.payload + more,
       state := if f.header.fin then Clear(v.state, StateFragmented) else Set(v.state, StateFragmented),
       op := op,
       frame := Some(Body(f.header.masked, if f.header.masked then f.header.mask else NoMask, 0, check)),
       left := |f.payload|)
  }

  /** The text state behind a frame. */
  function TextBehind(v: View, f: Frame, check: bool): Decoder {
    if check then Run(v.text, Plain(f)) else v.text
  }

  predicate BadText(v: View, f: Frame, check: bool) {
    check && f.payload != [] && TextBehind(v, f, check).state == Reject
  }

  /** The payload read in plain, then the end of the frame. */
  lemma DrainFrame(v: View, f: Frame, more: seq<byte>, op: byte, check: bool)
    requires f.Sound()
    ensures var w, n := InFrame(v, f, more, op, check), |f.payload|;
            && (BadText(v, f, check) ==> Drain(w) == Broken([], InvalidUTF8))
            && (!BadText(v, f, check) ==> Drain(w) == AtFrameEnd(Skip(w, n)).After([], Plain(f)))
            && Skip(w, n) == w.(rest := more, left := 0, text := TextBehind(v, f, check), frame := Skip(w, n).frame)
  {
    hide Run, Masked, AtFrameEnd;
    var w := InFrame(v, f, more, op, check);
    var n := |f.payload|;
    assert (f.payload + more)[..n] == f.payload && (f.payload + more)[n..] == more;
    assert Take(w, n) == Plain(f);
    assert TextAfter(w, n) == TextBehind(v, f, check);
    if !Rejects(w, n) {
      ReadLast(w);
    }
  }

  /** A fragment that is not the last: the reader is between fragments behind it. */
  lemma DrainFragment(v: View, f: Frame, more: seq<byte>, op: byte, check: bool)
    requires f.Sound() && !f.header.fin && v.frame == None
    ensures var w := InFrame(v, f, more, op, check);
            var u := v.(rest := more, state := Set(v.state, StateFragmented), op := op, left := 0,
                        text := TextBehind(v, f, check));
            Drain(w) == if BadText(v, f, check) then Broken([], InvalidUTF8) else Drain(u).After([], Plain(f))
  {
    hide Run, Drain, BadText, TextBehind, Unmask, Set, Fragmented, Skip;
    var w := InFrame(v, f, more, op, check);
    DrainFrame(v, f, more, op, check);
    var z := Skip(w, |f.payload|);
    SkipShape(w, |f.payload|);
    FragmentFlag(v.state);
    assert AtFrameEnd(z) == Drain(CloseFragment(z));
  }

  /** The last fragment decides whether the text is whole. */
  lemma DrainLast(v: View, f: Frame, more: seq<byte>, op: byte, check: bool)
    requires f.Sound() && f.header.fin && v.frame == None
    requires v.checkUTF8 && (!check ==> v.text == Start)
    ensures var w, u := InFrame(v, f, more, op, check), TextBehind(v, f, check);
            Drain(w) == if u.state == Accept then Done([], Plain(f), more) else Broken([], InvalidUTF8)
  {
    hide Run, Drain, Unmask, Clear, Fragmented, Skip;
    var w := InFrame(v, f, more, op, check);
    DrainFrame(v, f, more, op, check);
    FragmentFlag(v.state);
    assert Plain(f) + [] == Plain(f);
  }

  // ---------- the rest of an open message ----------

  predicate TextGood(v: View, d: seq<byte>) {
    v.op == OpText ==> Run(v.text, d).state == Accept
  }

  /** What draining gives: everything in order, or the news that the text is broken,
      behind some of the control messages. */
  ghost predicate Delivered(o: Outcome, good: bool, cs: seq<Message>, d: seq<byte>, tail: seq<byte>) {
    if good then o == Done(cs, d, tail)
    else o.Broken? && o.err == InvalidUTF8 && o.ctrl <= cs
  }

  lemma DeliveredAfter(o: Outcome, good: bool, cs: seq<Message>, d: seq<byte>, tail: seq<byte>,
                       c: seq<Message>, p: seq<byte>)
    requires Delivered(o, good, cs, d, tail)
    ensures Delivered(o.After(c, p), good, c + cs, p + d, tail)
  {
  }

  lemma {:induction false} DrainContinuing(v: View, fs: seq<Frame>, tail: seq<byte>)
    requires Between(v) && Fragmented(v.state) && Consistent(v) && v.checkUTF8
    requires v.rest == EncodeAll(fs) + tail && Continuing(fs, v.state)
    ensures Delivered(Drain(v), TextGood(v, DataOf(fs)), Controls(fs), DataOf(fs), tail)
    decreases |fs|
  {
    hide Drain, Fragmented, FrameAllowed, EncodeFrame, Unmask, IsControl, Run, Delivered, Set, Clear, TextGood, Consistent;
    var f, more := fs[0], EncodeAll(fs[1..]) + tail;
    assert v.rest == EncodeFrame(f) + more;
    if ControlFrame(f) {
      var u := v.(rest := more);
      ContinuingTail(fs, v.state);
      DrainControl(v, f, more);
      ConsistentElsewhere(v, more);
      DrainContinuing(u, fs[1..], tail);
      GoodElsewhere(v, u, DataOf(fs[1..]));
      DeliveredAfter(Drain(u), TextGood(v, DataOf(fs[1..])), Controls(fs[1..]), DataOf(fs[1..]), tail,
                     [Message(f.header.opCode, Plain(f))], []);
      assert [] + DataOf(fs[1..]) == DataOf(fs[1..]);
    } else {
      DrainContinuation(v, fs, tail);
    }
  }

  lemma ConsistentElsewhere(v: View, more: seq<byte>)
    requires Consistent(v)
    ensures Consistent(v.(rest := more))
  {
  }

  lemma GoodElsewhere(v: View, u: View, d: seq<byte>)
    requires u.op == v.op && u.text == v.text
    ensures TextGood(v, d) == TextGood(u, d)
  {
  }

  lemma ContinuingTail(fs: seq<Frame>, s: State)
    requires Continuing(fs, s) && (ControlFrame(fs[0]) || !fs[0].header.fin)
    ensures Continuing(fs[1..], s)
  {
    hide FrameAllowed, IsControl;
    var g := fs[1..];
    assert g[|g| - 1] == fs[|fs| - 1];
  }

  /** DrainContinuing when the first frame is a fragment of the message. */
  lemma {:induction false} DrainContinuation(v: View, fs: seq<Frame>, tail: seq<byte>)
    requires Between(v) && Fragmented(v.state) && Consistent(v) && v.checkUTF8
    requires v.rest == EncodeAll(fs) + tail && Continuing(fs, v.state) && !ControlFrame(fs[0])
    ensures Delivered(Drain(v), TextGood(v, DataOf(fs)), Controls(fs), DataOf(fs), tail)
    decreases |fs|, 1
  {
    hide Drain, Fragmented, FrameAllowed, EncodeFrame, Unmask, IsControl, Run, Delivered, Set, Clear, TextGood, Consistent;
    var f, more := fs[0], EncodeAll(fs[1..]) + tail;
    assert v.rest == EncodeFrame(f) + more;
    OpenFrame(v, f, more);
    OpensContinuation(v, f, more);
    DrainOpened(v);
    if f.header.fin {
      assert |fs| == 1 && fs[1..] == [];
      LastOfMessage(v, f, more);
      assert more == tail by { assert EncodeAll([]) == []; }
      assert Controls(fs) == [] + Controls([]) == [];
      assert DataOf(fs) == Plain(f) + DataOf([]) == Plain(f);
    } else {
      ContinuingTail(fs, v.state);
      FragmentOfMessage(v, fs, tail);
    }
  }

  lemma DrainOpened(v: View)
    requires v.frame == None && Fragmented(v.state) && Open(v).Opened?
    ensures Drain(v) == Drain(Open(v).v)
  {
    hide Open;
  }

  lemma OpensContinuation(v: View, f: Frame, more: seq<byte>)
    requires Fragmented(v.state) && !ControlFrame(f) && f.Sound() && f.header.opCode == OpContinuation && v.checkUTF8
    ensures OpenBody(v, f.header, f.payload + more) == Opened(f.header, InFrame(v, f, more, v.op, v.op == OpText))
  {
    hide Fragmented, Unmask, IsControl, Set, Clear;
  }

  lemma LastOfMessage(v: View, f: Frame, more: seq<byte>)
    requires Between(v) && Consistent(v) && v.checkUTF8 && f.Sound() && f.header.fin
    ensures Delivered(Drain(InFrame(v, f, more, v.op, v.op == OpText)), TextGood(v, Plain(f)), [], Plain(f), more)
  {
    hide Drain, Fragmented, Unmask, Run, Set, Clear;
    DrainLast(v, f, more, v.op, v.op == OpText);
  }

  /** A fragment that opens or continues the message, then the rest of the message. */
  lemma {:induction false} FragmentOfMessage(v: View, fs: seq<Frame>, tail: seq<byte>)
    requires Between(v) && Consistent(v) && v.checkUTF8
    requires |fs| > 0 && fs[0].Sound() && !ControlFrame(fs[0]) && !fs[0].header.fin
    requires Continuing(fs[1..], v.state)
    ensures Delivered(Drain(InFrame(v, fs[0], EncodeAll(fs[1..]) + tail, v.op, v.op == OpText)),
                      TextGood(v, DataOf(fs)), Controls(fs), DataOf(fs), tail)
    decreases |fs|, 0
  {
    hide Drain, Fragmented, FrameAllowed, EncodeFrame, Unmask, IsControl, Run, Delivered, Set, Clear, TextGood, BadText,
         TextBehind, InFrame, Consistent;
    var f, gs := fs[0], fs[1..];
    var more, check := EncodeAll(gs) + tail, v.op == OpText;
    var u := v.(rest := more, state := Set(v.state, StateFragmented), op := v.op, left := 0,
                text := TextBehind(v, f, check));
    DrainFragment(v, f, more, v.op, check);
    assert Controls(fs) == [] + Controls(gs) && DataOf(fs) == Plain(f) + DataOf(gs);
    if BadText(v, f, check) {
      BadTextIsBad(v, f, DataOf(gs));
      BrokenIsDelivered(Controls(fs), DataOf(fs), tail);
    } else {
      FragmentFlag(v.state);
      SameSideContinues(gs, v.state, u.state);
      FragmentKeepsConsistent(v, f, more);
      DrainContinuing(u, gs, tail);
      TextGoodAfter(v, f, u, DataOf(gs));
      DeliveredAfter(Drain(u), TextGood(v, DataOf(fs)), Controls(gs), DataOf(gs), tail, [], Plain(f));
    }
  }

  lemma BrokenIsDelivered(cs: seq<Message>, d: seq<byte>, tail: seq<byte>)
    ensures Delivered(Broken([], InvalidUTF8), false, cs, d, tail)
  {
  }

  lemma BadTextIsBad(v: View, f: Frame, d: seq<byte>)
    requires BadText(v, f, v.op == OpText)
    ensures !TextGood(v, Plain(f) + d)
  {
    hide Run, Unmask;
    RunConcat(v.text, Plain(f), d);
    RejectStays(Run(v.text, Plain(f)), d);
  }

  lemma TextGoodAfter(v: View, f: Frame, u: View, d: seq<byte>)
    requires u.op == v.op && u.text == TextBehind(v, f, v.op == OpText)
    ensures TextGood(u, d) == TextGood(v, Plain(f) + d)
  {
    hide Run, Unmask;
    RunConcat(v.text, Plain(f), d);
  }

  lemma SameSideContinues(fs: seq<Frame>, s: State, t: State)
    requires Continuing(fs, s) && SameSide(s, t)
    ensures Continuing(fs, t)
  {
    hide IsControl, Check.Extended, ServerSide, ClientSide, IsReserved;
  }

  lemma FragmentKeepsConsistent(v: View, f: Frame, more: seq<byte>)
    requires Between(v) && Consistent(v) && v.checkUTF8
    ensures var t := Set(v.state, StateFragmented);
            Consistent(v.(rest := more, state := t, op := v.op, left := 0, text := TextBehind(v, f, v.op == OpText)))
  {
    hide Run, Unmask, Set, Fragmented;
    FragmentFlag(v.state);
  }

  // ---------- a whole message ----------

  /** Text must be UTF-8, other messages may hold anything. */
  ghost predicate GoodMessage(op: byte, d: seq<byte>) {
    op == OpText ==> WellFormed(d)
  }

  /** Reassembly: from a stream that holds one message, cut into frames in any way, each under its own mask,
      with control frames between them, ReadMessage takes the control messages in order of arrival and then the
      message itself, and stops at the end of its final frame - if and only if the message is not broken text.
      Broken text is reported as such, behind the control messages that were met before it showed. */
  lemma ReceiveReassembles(fs: seq<Frame>, s: State, tail: seq<byte>)
    requires !Fragmented(s) && MessageStream(fs, s)
    ensures var op, d, cs := fs[0].header.opCode, DataOf(fs), Controls(fs);
            var r := Receive(EncodeAll(fs) + tail, s);
            if GoodMessage(op, d) then r == Received(cs + [Message(op, d)], tail)
            else r.Lost? && r.err == InvalidUTF8 && r.msgs <= cs
  {
    hide Drain, Fragmented, FrameAllowed, EncodeFrame, Unmask, IsControl, Run, Set, Clear, WellFormed, Open, Continuing,
         DataOf, Controls, InFrame;
    var v := Initial(EncodeAll(fs) + tail, s, true);
    var f, gs := fs[0], fs[1..];
    var more := EncodeAll(gs) + tail;
    assert v.rest == EncodeFrame(f) + more;
    assert fs[..1][0] == f;
    OpenFrame(v, f, more);
    OpensMessage(v, f, more);
    var op, check := f.header.opCode, f.header.opCode == OpText;
    var w := InFrame(v, f, more, op, check);
    DrainMessage(v, fs, tail);
    AutomatonDecidesUtf8(DataOf(fs));
  }

  lemma OpensMessage(v: View, f: Frame, more: seq<byte>)
    requires !Fragmented(v.state) && f.Sound() && v.checkUTF8
    ensures var op := f.header.opCode;
            OpenBody(v, f.header, f.payload + more) == Opened(f.header, InFrame(v, f, more, op, op == OpText))
  {
    hide Fragmented, Unmask, IsControl, Set, Clear;
  }

  /** Draining from the first frame on. */
  lemma DrainMessage(v: View, fs: seq<Frame>, tail: seq<byte>)
    requires Between(v) && !Fragmented(v.state) && v.text == Start && v.checkUTF8
    requires MessageStream(fs, v.state)
    ensures var op := fs[0].header.opCode;
            Delivered(Drain(InFrame(v, fs[0], EncodeAll(fs[1..]) + tail, op, op == OpText)),
                      op == OpText ==> Run(Start, DataOf(fs)).state == Accept, Controls(fs), DataOf(fs), tail)
  {
    hide Drain, Fragmented, FrameAllowed, EncodeFrame, Unmask, IsControl, Run, Delivered, Set, Clear, TextGood, BadText,
         TextBehind, InFrame, Consistent, Continuing, ControlFrame;
    var f, gs := fs[0], fs[1..];
    var op := f.header.opCode;
    var more, v' := EncodeAll(gs) + tail, v.(op := op);
    assert Controls(fs) == [] + Controls(gs) && DataOf(fs) == Plain(f) + DataOf(gs);
    InFrameOf(v, v', f, more, op);
    GoodFromStart(v', DataOf(fs));
    if f.header.fin {
      assert gs == [];
      assert more == tail by { assert EncodeAll([]) == []; }
      assert Controls(gs) == [] && DataOf(gs) == [];
      assert Plain(f) + [] == Plain(f);
      FreshIsConsistent(v');
      LastOfMessage(v', f, more);
    } else {
      FreshIsConsistent(v');
      FragmentOfMessage(v', fs, tail);
    }
  }

  lemma InFrameOf(v: View, v': View, f: Frame, more: seq<byte>, op: byte)
    requires v' == v.(op := op)
    ensures InFrame(v, f, more, op, op == OpText) == InFrame(v', f, more, op, op == OpText)
  {
    hide Set, Clear;
  }

  lemma GoodFromStart(v: View, d: seq<byte>)
    requires v.text == Start
    ensures TextGood(v, d) <==> (v.op == OpText ==> Run(Start, d).state == Accept)
  {
    hide Run;
  }

  lemma FreshIsConsistent(v: View)
    requires v.text == Start && v.frame == None
    ensures Consistent(v)
  {
  }

  // ---------- one frame on its own ----------

  /** A final frame on its own is a message, be it data or control; text must be UTF-8. */
  lemma ReceiveSolo(f: Frame, s: State, tail: seq<byte>)
    requires !Fragmented(s) && f.Sound() && FrameAllowed(f.header, s)
    requires f.header.opCode != OpContinuation && f.header.fin
    ensures var op := f.header.opCode;
            Receive(EncodeFrame(f) + tail, s)
            == if GoodMessage(op, Plain(f)) then Received([Message(op, Plain(f))], tail) else Lost([], InvalidUTF8)
  {
    hide Drain, Fragmented, FrameAllowed, EncodeFrame, Unmask, IsControl, Run, Set, Clear, WellFormed, Open;
    var v := Initial(EncodeFrame(f) + tail, s, true);
    var op := f.header.opCode;
    OpenFrame(v, f, tail);
    OpensMessage(v, f, tail);
    DrainLast(v, f, tail, op, op == OpText);
    AutomatonDecidesUtf8(Plain(f));
    assert [] + [Message(op, Plain(f))] == [Message(op, Plain(f))];
  }

  /** A fragment on its own is never a message. */
  lemma ReceiveLoneFragment(f: Frame, s: State)
    requires !Fragmented(s) && f.Sound() && FrameAllowed(f.header, s)
    requires f.header.opCode != OpContinuation && !f.header.fin
    ensures Receive(EncodeFrame(f), s).Lost?
  {
    hide Drain, Fragmented, FrameAllowed, EncodeFrame, Unmask, IsControl, Run, Set, Clear, Open, BadText, TextBehind;
    var v := Initial(EncodeFrame(f), s, true);
    var op := f.header.opCode;
    var u := v.(rest := [], state := Set(s, StateFragmented), op := op, left := 0, text := TextBehind(v, f, op == OpText));
    assert EncodeFrame(f) + [] == EncodeFrame(f);
    OpenFrame(v, f, []);
    OpensMessage(v, f, []);
    DrainFragment(v, f, [], op, op == OpText);
    FragmentFlag(s);
    StreamEnds(u);
  }

  lemma StreamEnds(u: View)
    requires u.frame == None && Fragmented(u.state) && u.rest == []
    ensures Drain(u) == Broken([], UnexpectedEOF)
  {
    hide Fragmented;
    assert Parse([]) == Failed(EOF);
  }

  // ---------- a message that is never ended ----------

  /** fs open a message, or carry it on, but do not end it. */
  ghost predicate Unfinished(fs: seq<Frame>, s: State) {
    && AllAllowed(fs, s)
    && forall i :: 0 <= i < |fs| ==> !ControlFrame(fs[i]) && !fs[i].header.fin
  }

  function WhyUnfinished(op: byte, text: Decoder, d: seq<byte>): Error {
    if op == OpText && Run(text, d).state == Reject then InvalidUTF8 else UnexpectedEOF
  }

  lemma {:induction false} DrainUnfinished(v: View, fs: seq<Frame>)
    requires Between(v) && Fragmented(v.state) && v.checkUTF8 && v.text.state != Reject
    requires v.rest == EncodeAll(fs) && Unfinished(fs, v.state)
    requires forall i :: 0 <= i < |fs| ==> fs[i].header.opCode == OpContinuation
    ensures Drain(v) == Broken([], WhyUnfinished(v.op, v.text, Glue(fs)))
    decreases |fs|, 1
  {
    hide Drain, Fragmented, FrameAllowed, EncodeFrame, Unmask, IsControl, Run, Set;
    if fs == [] {
      StreamEnds(v);
      RunNothing(v.text, []);
    } else {
      var f, more := fs[0], EncodeAll(fs[1..]);
      OpenFrame(v, f, more);
      OpensContinuation(v, f, more);
      DrainOpened(v);
      FragmentUnfinished(v, fs);
    }
  }

  lemma {:induction false} FragmentUnfinished(v: View, fs: seq<Frame>)
    requires Between(v) && v.checkUTF8 && v.text.state != Reject
    requires fs != [] && Unfinished(fs, v.state)
    requires forall i :: 1 <= i < |fs| ==> fs[i].header.opCode == OpContinuation
    ensures Drain(InFrame(v, fs[0], EncodeAll(fs[1..]), v.op, v.op == OpText))
            == Broken([], WhyUnfinished(v.op, v.text, Glue(fs)))
    decreases |fs|, 0
  {
    hide Drain, Fragmented, EncodeFrame, Unmask, IsControl, Run, Set, InFrame, FrameAllowed;
    var f, gs := fs[0], fs[1..];
    var more, check := EncodeAll(gs), v.op == OpText;
    var u := v.(rest := more, state := Set(v.state, StateFragmented), op := v.op, left := 0,
                text := TextBehind(v, f, check));
    DrainFragment(v, f, more, v.op, check);
    assert Glue(fs) == Plain(f) + Glue(gs);
    RunConcat(v.text, Plain(f), Glue(gs));
    if BadText(v, f, check) {
      RejectStays(Run(v.text, Plain(f)), Glue(gs));
    } else {
      RunNothing(v.text, Plain(f));
      FragmentFlag(v.state);
      SameSideAllowed(gs, v.state, u.state);
      DrainUnfinished(u, gs);
    }
  }

  lemma SameSideAllowed(fs: seq<Frame>, s: State, t: State)
    requires SameSide(s, t)
    ensures AllAllowed(fs, s) ==> AllAllowed(fs, t)
  {
    hide IsControl, Check.Extended, ServerSide, ClientSide, IsReserved;
  }

  /** Fragments that are not followed by a final one are no message: the reader reports the end of the stream, or earlier
      that what it has is no UTF-8. */
  lemma ReceiveUnfinished(fs: seq<Frame>, s: State)
    requires !Fragmented(s) && fs != [] && Unfinished(fs, s) && fs[0].header.opCode != OpContinuation
    requires forall i :: 1 <= i < |fs| ==> fs[i].header.opCode == OpContinuation
    ensures Receive(EncodeAll(fs), s) == Lost([], WhyUnfinished(fs[0].header.opCode, Start, Glue(fs)))
  {
    hide Drain, Fragmented, FrameAllowed, EncodeFrame, Unmask, IsControl, Run, Set, Clear, Open, InFrame, Glue, WhyUnfinished;
    var v := Initial(EncodeAll(fs), s, true);
    var f, more := fs[0], EncodeAll(fs[1..]);
    var op := f.header.opCode;
    OpenFrame(v, f, more);
    OpensMessage(v, f, more);
    InFrameOf(v, v.(op := op), f, more, op);
    FragmentUnfinished(v.(op := op), fs);
  }
}
