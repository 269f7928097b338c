/** What repo/ws/wsutil/reader.go makes of a byte stream, as functions of the stream alone:
    the specification that the Reader object of module Reader is proved against. */
module Reading {
  import opened Bytes
  import opened Cipher
  import opened Streams
  import opened Header
  import opened Check
  import opened Frames
  import opened Utf8

  /** The reader of the current frame's payload: the cipher's mask and position, and whether UTF-8 is checked. */
  datatype Body = Body(masked: bool, mask: Mask, pos: nat, check: bool)

  /** A Reader's fields as values, with what is left in its source. */
  datatype View = View(rest: seq<byte>, state: State, checkUTF8: bool, op: byte,
                       frame: Option<Body>, left: nat, text: Decoder)

  /** A new Reader. */
  function Initial(rest: seq<byte>, state: State, checkUTF8: bool): View {
    View(rest, state, checkUTF8, 0, None, 0, Start)
  }

  /** How reading the current message ends: the control messages met on the way,
      then either its remaining payload and the stream behind it, or an error. */
  datatype Outcome =
    | Done(ctrl: seq<Message>, data: seq<byte>, rest: seq<byte>)
    | Broken(ctrl: seq<Message>, err: Error)
  {
    /** This outcome, after cs and d have come in first. */
    function After(cs: seq<Message>, d: seq<byte>): Outcome {
      match this
      case Done(c, p, r) => Done(cs + c, d + p, r)
      case Broken(c, e) => Broken(cs + c, e)
    }
  }

  lemma AfterNothing(o: Outcome)
    ensures o.After([], []) == o
  {
    match o
    case Done(c, p, r) => assert [] + c == c && [] + p == p;
    case Broken(c, e) => assert [] + c == c;
  }

  lemma AfterTwice(o: Outcome, c1: seq<Message>, d1: seq<byte>, c2: seq<Message>, d2: seq<byte>)
    ensures o.After(c2, d2).After(c1, d1) == o.After(c1 + c2, d1 + d2)
  {
    match o
    case Done(c, p, r) => assert c1 + (c2 + c) == (c1 + c2) + c && d1 + (d2 + p) == (d1 + d2) + p;
    case Broken(c, e) => assert c1 + (c2 + c) == (c1 + c2) + c;
  }

  function Min(a: nat, b: nat): nat { if a < b then a else b }

  /** What NextFrame does: fail, take in a control frame inside a fragmented message, or open a frame. */
  datatype Opening =
    | NoFrame(err: Error)
    | Aside(hdr: Header, msg: Message, v: View)
    | Opened(hdr: Header, v: View)

  function Open(v: View): (o: Opening)
    ensures o.Aside? || o.Opened? ==> |o.v.rest| < |v.rest|
  {
    match Parse(v.rest)
    case Failed(e) => NoFrame(if e == EOF && Fragmented(v.state) then UnexpectedEOF else e)
    case Parsed(h, n) =>
      if CheckHeader(h, v.state) != None then NoFrame(CheckHeader(h, v.state).value)
      else OpenBody(v, h, v.rest[n..])
  }

  /** The part of NextFrame after the header h has been accepted. */
  function OpenBody(v: View, h: Header, rest: seq<byte>): (o: Opening)
    ensures !o.NoFrame? && o.hdr == h && |o.v.rest| <= |rest|
  {
    if Fragmented(v.state) && IsControl(h.opCode) then
      // A control frame cut short by the end of the stream is still handed on.
      var k := Min(h.length, |rest|);
      Aside(h, Message(h.opCode, Unmask(h, rest[..k])), v.(rest := rest[k..], left := h.length - k))
    else
      var op := if Fragmented(v.state) then v.op else h.opCode;
      var check := v.checkUTF8 && (h.opCode == OpText || (Fragmented(v.state) && op == OpText));
      Opened(h, v.(rest := rest,
                   state := if h.fin then Clear(v.state, StateFragmented) else Set(v.state, StateFragmented),
                   op := op,
                   frame := Some(Body(h.masked, if h.masked then h.mask else NoMask, 0, check)),
                   left := h.length))
  }

  /** Its two cases. */
  lemma BodyOf(v: View, h: Header, rest: seq<byte>)
    ensures Fragmented(v.state) && IsControl(h.opCode) ==>
              var k := Min(h.length, |rest|);
              OpenBody(v, h, rest) == Aside(h, Message(h.opCode, Unmask(h, rest[..k])),
                                            v.(rest := rest[k..], left := h.length - k))
    ensures !(Fragmented(v.state) && IsControl(h.opCode)) ==>
              var op := if Fragmented(v.state) then v.op else h.opCode;
              OpenBody(v, h, rest) ==
              Opened(h, v.(rest := rest,
                           state := if h.fin then Clear(v.state, StateFragmented) else Set(v.state, StateFragmented),
                           op := op,
                           frame := Some(Body(h.masked, if h.masked then h.mask else NoMask, 0,
                                              v.checkUTF8 && (h.opCode == OpText || (Fragmented(v.state) && op == OpText)))),
                           left := h.length))
  {
    hide Unmask, Fragmented, Clear, Set, IsControl;
  }

  /** Only the stream behind the header matters. */
  lemma OpenBodyIgnores(v: View, w: View, h: Header)
    requires w == v.(rest := w.rest)
    ensures OpenBody(v, h, w.rest) == OpenBody(w, h, w.rest)
  {
    hide Unmask;
  }

  /** The next k payload bytes in plain. */
  function Take(v: View, k: nat): (d: seq<byte>)
    requires v.frame.Some? && k <= |v.rest|
    ensures |d| == k
  {
    var b := v.frame.value;
    if b.masked then Masked(v.rest[..k], b.mask, b.pos) else v.rest[..k]
  }

  /** The UTF-8 state after those bytes. */
  function TextAfter(v: View, k: nat): Decoder
    requires v.frame.Some? && k <= |v.rest|
  {
    if v.frame.value.check then Run(v.text, Take(v, k)) else v.text
  }

  predicate Rejects(v: View, k: nat)
    requires v.frame.Some? && k <= |v.rest|
  {
    v.frame.value.check && k > 0 && Run(v.text, Take(v, k)).state == Reject
  }

  /** k payload bytes further, before the UTF-8 check. */
  function Forward(v: View, k: nat): View
    requires v.frame.Some? && k <= |v.rest| && k <= v.left
  {
    var b := v.frame.value;
    v.(rest := v.rest[k..], left := v.left - k, frame := Some(b.(pos := if b.masked then b.pos + k else b.pos)))
  }

  /** The reader after k payload bytes. */
  function Skip(v: View, k: nat): View
    requires v.frame.Some? && k <= |v.rest| && k <= v.left
  {
    Forward(v, k).(text := TextAfter(v, k))
  }

  /** The reader between two fragments. */
  function CloseFragment(v: View): View {
    v.(left := 0, frame := None)
  }

  /** Reading the current message to its end. */
  function Drain(v: View): (o: Outcome)
    decreases |v.rest|, v.frame.Some?
  {
    if v.frame.Some? then
      if |v.rest| < v.left then
        Broken([], if Rejects(v, |v.rest|) then InvalidUTF8 else UnexpectedEOF)
      else if Rejects(v, v.left) then Broken([], InvalidUTF8)
      else AtFrameEnd(Skip(v, v.left)).After([], Take(v, v.left))
    else if !Fragmented(v.state) then Broken([], NoFrameAdvance)
    else match Open(v)
      case NoFrame(e) => Broken([], e)
      case Aside(_, m, w) => Drain(w).After([m], [])
      case Opened(_, w) => Drain(w)
  }

  /** The end of a frame: of the message too, unless it goes on in another frame. */
  function AtFrameEnd(v: View): (o: Outcome)
    requires v.frame.Some? && v.left == 0
    decreases |v.rest|, v.frame.Some?, 0
  {
    if Fragmented(v.state) then Drain(CloseFragment(v))
    else if v.checkUTF8 && v.text.state != Accept then Broken([], InvalidUTF8)
    else Done([], [], v.rest)
  }

  // ---------- a payload may be read in any pieces ----------

  lemma TakeSplit(v: View, k: nat, n: nat)
    requires v.frame.Some? && k <= n <= |v.rest| && k <= v.left
    ensures Take(v, n) == Take(v, k) + Take(Skip(v, k), n - k)
    ensures TextAfter(v, n) == TextAfter(Skip(v, k), n - k)
    ensures !Rejects(v, k) ==> (Rejects(v, n) <==> Rejects(Skip(v, k), n - k))
    ensures Rejects(v, k) ==> Rejects(v, n)
  {
    hide Run, Masked;
    var b := v.frame.value;
    assert v.rest[..n] == v.rest[..k] + v.rest[k..][..n - k];
    if b.masked {
      MaskedConcat(v.rest[..k], v.rest[k..][..n - k], b.mask, b.pos);
    }
    var d1, d2 := Take(v, k), Take(Skip(v, k), n - k);
    RunConcat(v.text, d1, d2);
    RunNothing(v.text, d1);
    RunNothing(Run(v.text, d1), d2);
    if Run(v.text, d1).state == Reject {
      RejectStays(Run(v.text, d1), d2);
    }
  }

  lemma RunNothing(d: Decoder, s: seq<byte>)
    ensures s == [] ==> Run(d, s) == d
  {
  }

  lemma SkipTwice(v: View, k: nat, n: nat)
    requires v.frame.Some? && k <= n <= |v.rest| && n <= v.left
    ensures Skip(Skip(v, k), n - k) == Skip(v, n)
  {
    hide Run, Masked, Take, TextAfter;
    TakeSplit(v, k, n);
    assert v.rest[k..][n - k..] == v.rest[n..];
  }

  /** Reading k bytes first does not change how the message ends. */
  lemma ReadSomeFirst(v: View, k: nat)
    requires v.frame.Some? && k <= v.left && k <= |v.rest| && !Rejects(v, k)
    ensures Drain(v) == Drain(Skip(v, k)).After([], Take(v, k))
  {
    hide Take, TextAfter, Rejects, AtFrameEnd;
    var w := Skip(v, k);
    if |v.rest| < v.left {
      TakeSplit(v, k, |v.rest|);
    } else {
      TakeSplit(v, k, v.left);
      if !Rejects(v, v.left) {
        SkipTwice(v, k, v.left);
        AfterTwice(AtFrameEnd(Skip(v, v.left)), [], Take(v, k), [], Take(w, w.left));
      }
    }
  }

  /** Bytes that the automaton rejects break the message at once. */
  lemma RejectEndsMessage(v: View, k: nat)
    requires v.frame.Some? && k <= v.left && k <= |v.rest| && Rejects(v, k)
    ensures Drain(v) == Broken([], InvalidUTF8)
  {
    hide Take, TextAfter, Rejects, AtFrameEnd;
    TakeSplit(v, k, if |v.rest| < v.left then |v.rest| else v.left);
  }

  /** With the whole payload read, the end of the frame decides. */
  lemma ReadLast(v: View)
    requires v.frame.Some? && v.left <= |v.rest| && !Rejects(v, v.left)
    ensures Drain(v) == AtFrameEnd(Skip(v, v.left)).After([], Take(v, v.left))
  {
  }

  /** A call that reports no error has taken bytes, closed a frame, or used up one of the source's empty reads. */
  predicate Progress(v: View, stalls: nat, w: View, stalls': nat) {
    |w.rest| < |v.rest|
    || (|w.rest| == |v.rest| && v.frame.Some? && (w.frame == None || stalls' < stalls))
  }

  lemma Advances(v: View, n: nat, stalls: nat, w: View, stalls': nat)
    requires v.frame.Some? && n <= v.left && n <= |v.rest| && stalls' <= stalls
    requires (w == Skip(v, n) && (n > 0 || stalls' < stalls)) || w == CloseFragment(Skip(v, n))
    ensures Progress(v, stalls, w, stalls')
  {
    hide TextAfter;
  }

  /** The stream ends inside a frame. */
  lemma CutShort(v: View)
    requires v.frame.Some? && v.left > 0 && v.rest == []
    ensures Drain(v) == Broken([], UnexpectedEOF)
  {
  }

  /** Nothing is left of the frame. */
  lemma FrameDone(v: View)
    requires v.frame.Some? && v.left == 0
    ensures Drain(v) == AtFrameEnd(v)
  {
    hide AtFrameEnd;
    TakeNothing(v);
    AfterNothing(AtFrameEnd(v));
  }

  lemma TakeNothing(v: View)
    requires v.frame.Some?
    ensures Take(v, 0) == [] && !Rejects(v, 0) && Skip(v, 0) == v
  {
    RunNothing(v.text, Take(v, 0));
    assert v.rest[0..] == v.rest;
  }

  /** UTF-8 is followed exactly in text messages; elsewhere the automaton rests in its start state. */
  predicate Consistent(v: View) {
    && (v.frame.Some? ==> (v.frame.value.check <==> v.checkUTF8 && v.op == OpText))
    && (v.text != Start ==> v.checkUTF8 && v.op == OpText && (v.frame.Some? || Fragmented(v.state)))
  }

  lemma OpenKeepsConsistent(v: View)
    requires Consistent(v) && (!Fragmented(v.state) ==> v.text == Start)
    ensures !Open(v).NoFrame? ==> Consistent(Open(v).v)
  {
    hide Parse, CheckHeader;
    match Parse(v.rest)
    case Failed(_) =>
    case Parsed(h, n) =>
      if CheckHeader(h, v.state) == None {
        OpenBodyKeepsConsistent(v, h, v.rest[n..]);
      }
  }

  lemma OpenBodyKeepsConsistent(v: View, h: Header, rest: seq<byte>)
    requires Consistent(v) && (!Fragmented(v.state) ==> v.text == Start)
    requires CheckHeader(h, v.state) == None
    ensures Consistent(OpenBody(v, h, rest).v)
  {
    hide Unmask;
  }

  /** One call of Read took the reader from v to w, delivering the bytes d behind the control messages cs:
      the message v was in the middle of ends as the one w is in the middle of, or ends here. */
  predicate Delivers(v: View, err: Option<Error>, cs: seq<Message>, d: seq<byte>, w: View) {
    match err
    case None => Drain(v) == Drain(w).After(cs, d)
    case Some(e) => if e == EOF then Drain(v) == Done(cs, d, w.rest) else Drain(v) == Broken(cs, e)
  }

  /** What Read delivers when it has to call NextFrame first. */
  lemma OpeningDelivers(v: View, w: View)
    requires v.frame == None && Fragmented(v.state)
    ensures Open(v).NoFrame? ==> Open(v).err != EOF && Delivers(v, Some(Open(v).err), [], [], w)
    ensures Open(v).Aside? ==> Delivers(v, None, [Open(v).msg], [], Open(v).v)
    ensures Open(v).Opened? ==> Open(v).v.frame.Some? && Drain(v) == Drain(Open(v).v)
  {
    hide Open;
    OpenErrors(v);
    OpenShape(v);
  }

  lemma OpenErrors(v: View)
    ensures Open(v).NoFrame? && Fragmented(v.state) ==> Open(v).err != EOF
  {
    hide OpenBody;
    ParseErrors(v.rest);
  }

  lemma ParseErrors(s: seq<byte>)
    ensures Parse(s).Failed? ==> Parse(s).err in {EOF, UnexpectedEOF, HeaderLengthMSB}
  {
    hide Assemble;
  }

  lemma OpenShape(v: View)
    ensures Open(v).Opened? ==> Open(v).v.frame.Some?
    ensures Open(v).Aside? ==> Open(v).v.frame == v.frame
  {
    hide Parse, CheckHeader, Unmask;
  }

  lemma NoAdvance(v: View, w: View)
    requires v.frame == None && !Fragmented(v.state)
    ensures Delivers(v, Some(NoFrameAdvance), [], [], w)
  {
  }

  lemma DeliversError(v: View, err: Option<Error>, w: View, w': View)
    requires err != None && err != Some(EOF) && Delivers(v, err, [], [], w)
    ensures Delivers(v, err, [], [], w')
  {
  }

  lemma DeliversFrom(u: View, v: View, err: Option<Error>, d: seq<byte>, w: View)
    requires Drain(v) == Drain(u) && Delivers(u, err, [], d, w)
    ensures Delivers(v, err, [], d, w)
  {
  }

  lemma BrokenOff(v: View, k: nat, d: seq<byte>, w: View)
    requires v.frame.Some? && k <= v.left && k <= |v.rest| && Rejects(v, k)
    ensures Delivers(v, Some(InvalidUTF8), [], d, w)
  {
    RejectEndsMessage(v, k);
  }

  lemma DeliversBroken(v: View, e: Error, d: seq<byte>, d': seq<byte>, w: View)
    requires e != EOF && Delivers(v, Some(e), [], d, w)
    ensures Delivers(v, Some(e), [], d', w)
  {
  }

  lemma DeliversDone(v: View, d: seq<byte>, w: View, w': View)
    requires Delivers(v, Some(EOF), [], d, w) && w.rest == w'.rest
    ensures Delivers(v, Some(EOF), [], d, w')
  {
  }

  /** What the switch at the end of Read concludes after w = Skip(v, n) has been reached without an error. */
  lemma Verdict(v: View, n: nat)
    requires v.frame.Some? && n <= v.left && n <= |v.rest| && !Rejects(v, n)
    ensures var w, d := Skip(v, n), Take(v, n);
            && Delivers(v, None, [], d, w)
            && (w.left > 0 && w.rest == [] ==> Delivers(v, Some(UnexpectedEOF), [], d, w))
            && (w.left == 0 && Fragmented(w.state) ==> Delivers(v, None, [], d, CloseFragment(w)))
            && (w.left == 0 && !Fragmented(w.state) && w.checkUTF8 && w.text.state != Accept ==>
                  Delivers(v, Some(InvalidUTF8), [], d, w))
            && (w.left == 0 && !Fragmented(w.state) && !(w.checkUTF8 && w.text.state != Accept) ==>
                  Delivers(v, Some(EOF), [], d, w))
  {
    hide Take, TextAfter, Rejects, Drain, Fragmented, Skip;
    var w, d := Skip(v, n), Take(v, n);
    ReadSomeFirst(v, n);
    assert w.frame.Some? && w.left == v.left - n by { SkipShape(v, n); }
    assert d + [] == d;
    if w.left > 0 && w.rest == [] {
      CutShort(w);
    }
    if w.left == 0 {
      FrameDone(w);
    }
  }

  lemma ReadingKeepsConsistent(v: View, n: nat)
    requires v.frame.Some? && n <= v.left && n <= |v.rest| && Consistent(v)
    ensures Consistent(Skip(v, n))
    ensures Fragmented(v.state) ==> Consistent(CloseFragment(Skip(v, n)))
    ensures !Skip(v, n).frame.value.check ==> Skip(v, n).text == Start
  {
    hide Run, Take;
  }

  lemma SkipShape(v: View, n: nat)
    requires v.frame.Some? && n <= v.left && n <= |v.rest|
    ensures var w := Skip(v, n);
            w.frame.Some? && w.left == v.left - n && w.state == v.state && w.rest == v.rest[n..]
            && w.op == v.op && w.checkUTF8 == v.checkUTF8 && w.frame.value.check == v.frame.value.check
  {
  }

  /** Two calls in a row deliver what they deliver one after the other. */
  lemma DeliversThen(v: View, cs: seq<Message>, d: seq<byte>, u: View, err: Option<Error>,
                     cs': seq<Message>, d': seq<byte>, w: View)
    requires Delivers(v, None, cs, d, u) && Delivers(u, err, cs', d', w)
    ensures Delivers(v, err, cs + cs', d + d', w)
  {
    hide Drain;
    AfterTwice(Drain(w), cs, d, cs', d');
  }

  lemma DeliversNothing(v: View)
    ensures Delivers(v, None, [], [], v)
  {
    hide Drain;
    AfterNothing(Drain(v));
  }

  /** The messages that ReadMessage appends and what stays in the stream, or those it appends before an error. */
  datatype Received = Received(msgs: seq<Message>, rest: seq<byte>) | Lost(msgs: seq<Message>, err: Error)

  /** ReadMessage as a function of the stream. */
  function Receive(s: seq<byte>, state: State): Received {
    match Open(Initial(s, state, true))
    case NoFrame(e) => Lost([], e)
    case Aside(_, m, v) => Received([m], v.rest)
    case Opened(h, v) =>
      match Drain(v)
      case Broken(c, e) => Lost(c, e)
      case Done(c, d, r) => Received(c + [Message(h.opCode, d)], r)
  }

  /** Only inside a fragmented message does NextFrame put a frame aside. */
  lemma FirstFrameIsOpened(v: View)
    requires !Fragmented(v.state)
    ensures !Open(v).Aside?
    ensures Open(v).Opened? ==> var w, h := Open(v).v, Open(v).hdr;
                                w.frame.Some? && w.left == h.length && Fragmented(w.state) == !h.fin
  {
    hide Parse, CheckHeader, Unmask;
    FragmentFlag(v.state);
  }

  /** Nothing longer than the stream comes out of it. */
  lemma {:induction false} DrainBound(v: View)
    ensures Drain(v).Done? ==> |Drain(v).data| + |Drain(v).rest| <= |v.rest|
    decreases |v.rest|, v.frame.Some?
  {
    hide Open, Fragmented, TextAfter, Rejects, Take;
    if v.frame.Some? {
      if v.left <= |v.rest| {
        var u := Skip(v, v.left);
        if Fragmented(u.state) {
          DrainBound(CloseFragment(u));
        }
      }
    } else if Fragmented(v.state) && !Open(v).NoFrame? {
      DrainBound(Open(v).v);
    }
  }

  /** A control message that comes alone obeys the limit of section 5.5 of RFC 6455. */
  lemma ReceiveBounds(s: seq<byte>, state: State)
    requires !Fragmented(state)
    ensures match Receive(s, state)
            case Lost(_, _) => true
            case Received(ms, _) => |ms| > 0 && |ms[|ms| - 1].payload| <= |s|
                                    && (IsControl(ms[|ms| - 1].opCode) ==> |ms[|ms| - 1].payload| <= 125)
  {
    hide Drain, Open, Fragmented, IsControl;
    var v := Initial(s, state, true);
    FirstFrameIsOpened(v);
    if Open(v).Opened? {
      var w := Open(v).v;
      DrainBound(w);
      ControlIsShort(v);
      if IsControl(Open(v).hdr.opCode) {
        DrainWhole(w);
      }
    }
  }

  lemma ControlIsShort(v: View)
    ensures Open(v).Opened? && IsControl(Open(v).hdr.opCode) ==> Open(v).hdr.fin && Open(v).hdr.length <= 125
  {
    hide Parse, OpenBody, IsReserved;
    match Parse(v.rest)
    case Failed(_) =>
    case Parsed(h, n) =>
      assert OpenBody(v, h, v.rest[n..]).hdr == h;
  }

  /** A frame that ends its message delivers exactly its length. */
  lemma DrainWhole(w: View)
    requires w.frame.Some? && !Fragmented(w.state)
    ensures Drain(w).Done? ==> |Drain(w).data| == w.left
  {
    hide Fragmented, TextAfter, Rejects, Take;
  }
}
