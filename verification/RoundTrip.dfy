/** The package's promise, end to end: what a Writer is given, ReadMessage gives back. */
module RoundTrip {
  import opened Bytes
  import opened Streams
  import opened Header
  import opened Check
  import opened Frames
  import opened Utf8
  import opened Reading
  import opened Reassembly
  import opened Writer
  import opened ReadMessage

  /** A reader on side s talks to a writer that masks exactly if it is a client. */
  predicate Opposite(s: State, client: bool) {
    (ServerSide(s) ==> client) && (ClientSide(s) ==> !client)
  }

  lemma DataOpCodes(op: byte)
    requires op == OpText || op == OpBinary || op == OpContinuation
    ensures !IsControl(op) && !IsReserved(op)
  {
  }

  /** The frames of a Writer's message are a message for the opposite side. */
  lemma RunIsMessage(fs: seq<Frame>, op: byte, client: bool, s: State)
    requires WholeRun(fs, op, client) && (op == OpText || op == OpBinary) && Opposite(s, client)
    ensures MessageStream(fs, s) && fs[0].header.opCode == op
    ensures Controls(fs) == [] && DataOf(fs) == Glue(fs)
  {
    hide IsControl, IsReserved, ServerSide, ClientSide, Check.Extended, Unmask;
    DataOpCodes(op);
    DataOpCodes(OpContinuation);
    forall i | 0 <= i < |fs|
      ensures fs[i].Sound() && FrameAllowed(fs[i].header, s) && !ControlFrame(fs[i])
      ensures fs[i].header.opCode == (if i == 0 then op else OpContinuation)
      ensures fs[i].header.fin <==> i == |fs| - 1
    {
      if i < |fs| - 1 {
        assert fs[i] == fs[..|fs| - 1][i];
      }
    }
    OnlyData(fs);
    if !fs[0].header.fin {
      var gs := fs[1..];
      assert forall i :: 0 <= i < |gs| ==> gs[i] == fs[i + 1];
    }
  }

  lemma {:induction false} OnlyData(fs: seq<Frame>)
    requires forall i :: 0 <= i < |fs| ==> !ControlFrame(fs[i])
    ensures Controls(fs) == [] && DataOf(fs) == Glue(fs)
  {
    hide ControlFrame, Unmask;
    if fs != [] {
      OnlyData(fs[1..]);
    }
  }

  // ---------- what is done to a Writer, and what it answers ----------

  /** The calls that an application makes; ReadFrom's source holds p and may return nothing up to stalls times. */
  datatype Call =
    | CallWrite(p: seq<byte>)
    | CallWriteThrough(p: seq<byte>)
    | CallReadFrom(p: seq<byte>, stalls: nat)
    | CallFlushFragment
    | CallFlush
  {
    predicate Fits() {
      CallFlushFragment? || CallFlush? || |p| <= MAX_LENGTH
    }

    /** The bytes that were taken, when n were. */
    function Taken(n: nat): seq<byte> {
      if CallFlushFragment? || CallFlush? || n > |p| then [] else p[..n]
    }
  }

  /** What a call returns, and what Buffered returns after it. */
  datatype Reply = Reply(n: nat, err: Option<Error>, buffered: nat)

  /** The answers of a Writer with room for size bytes, before of them taken, over a sink that does not fail. Write takes
      everything; WriteThrough takes everything, unless something is buffered: then nothing; ReadFrom takes everything,
      unless its source makes no progress, which it cannot find out while the buffer is full. */
  predicate Answers(size: nat, before: nat, c: Call, r: Reply)
    requires before <= size && size > 0
  {
    match c
    case CallWrite(p) => r == Reply(|p|, None, AfterWrite(size, before, |p|))
    case CallWriteThrough(p) => r == if before == 0 then Reply(|p|, None, 0) else Reply(0, Some(NotEmpty), before)
    case CallReadFrom(p, stalls) =>
      && r.n <= |p| && AfterRead(size, before, r.n, r.buffered)
      && (r.err == None ==> r.n == |p|)
      && (r.err == None || (r.err == Some(NoProgress) && stalls >= MaxEmptyReads && r.buffered < size))
    case CallFlushFragment => r == Reply(0, None, 0)
    case CallFlush => r == Reply(0, None, 0)
  }

  /** What a run of calls has come to, by their answers alone: the messages that have been ended, the bytes taken for the
      next one, whether a call has succeeded that marks a message as begun, and how much is buffered. */
  datatype Log = Log(ended: seq<seq<byte>>, open: seq<byte>, begun: bool, buffered: nat)

  function Next(l: Log, c: Call, r: Reply): Log {
    match c
    case CallFlush => if l.begun || l.buffered > 0 then Log(l.ended + [l.open], [], false, 0) else l
    case CallFlushFragment => l.(buffered := r.buffered)
    case _ => Log(l.ended, l.open + c.Taken(r.n), l.begun || r.err == None, r.buffered)
  }

  function Logged(script: seq<Call>, replies: seq<Reply>): Log
    requires |script| == |replies|
  {
    if script == [] then Log([], [], false, 0)
    else
      var n := |script| - 1;
      Next(Logged(script[..n], replies[..n]), script[n], replies[n])
  }

  /** What is buffered before call i. */
  function Before(replies: seq<Reply>, i: nat): nat
    requires i <= |replies|
  {
    if i == 0 then 0 else replies[i - 1].buffered
  }

  /** Every answer is one that a Writer gives in its place. */
  ghost predicate AllAnswered(size: nat, script: seq<Call>, replies: seq<Reply>)
    requires size > 0
  {
    && |replies| == |script|
    && forall i :: 0 <= i < |script| ==>
         Before(replies, i) <= size && Answers(size, Before(replies, i), script[i], replies[i])
  }

  /** What a reader gets of that: the messages that have been ended, in order, each with the Writer's opcode, and then
      the end of the stream; a text that is not UTF-8 is refused, and so is a message that was begun and not ended. */
  function Delivery(op: byte, ended: seq<seq<byte>>, open: seq<byte>): (seq<Message>, Error) {
    if ended == [] then ([], if open == [] then EOF else WhyUnfinished(op, Start, open))
    else if op == OpText && Run(Start, ended[0]).state != Accept then ([], InvalidUTF8)
    else
      var (ms, e) := Delivery(op, ended[1..], open);
      ([Message(op, ended[0])] + ms, e)
  }

  /** The payload bytes that a buffer made for size of them holds: the default one when size is 0. */
  function BufferSize(state: State, size: nat): (k: nat)
    ensures k > 0
  {
    if size > 0 then size else DefaultWriteBuffer - Reserve(state, DefaultWriteBuffer)
  }

  /** The bytes taken by all calls. */
  function Gathered(script: seq<Call>, replies: seq<Reply>): seq<byte>
    requires |script| == |replies|
  {
    if script == [] then []
    else var n := |script| - 1; Gathered(script[..n], replies[..n]) + script[n].Taken(replies[n].n)
  }

  /** A Write, or a WriteThrough or ReadFrom that succeeded. */
  predicate Begins(c: Call, r: Reply) {
    !c.CallFlush? && !c.CallFlushFragment? && r.err == None
  }

  /** The calls for a single message, its Flush at the end: the message is ended, with all that the calls took, iff one of
      them has begun it - unless a ReadFrom made no progress. */
  lemma {:induction false} OneMessage(size: nat, script: seq<Call>, replies: seq<Reply>, last: Reply)
    requires size > 0 && AllAnswered(size, script, replies)
    requires forall i :: 0 <= i < |script| ==> !script[i].CallFlush? && replies[i].err != Some(NoProgress)
    ensures var l := Logged(script + [CallFlush], replies + [last]);
            && l.open == []
            && l.ended == if SomeBegins(script, replies) then [Gathered(script, replies)] else []
  {
    hide Answers, Next, Gathered, SomeBegins;
    assert (script + [CallFlush])[..|script|] == script && (replies + [last])[..|script|] == replies;
    BeforeTheFlush(size, script, replies);
    assert Logged(script + [CallFlush], replies + [last]) == Next(Logged(script, replies), CallFlush, last);
    Flushed(Logged(script, replies), last);
  }

  lemma Flushed(l: Log, r: Reply)
    ensures Next(l, CallFlush, r) == if l.begun || l.buffered > 0 then Log(l.ended + [l.open], [], false, 0) else l
  {
  }

  /** A log of one message so far: what was taken is open, and nothing has been taken unless the message has begun. */
  ghost predicate OneOpen(l: Log, taken: seq<byte>, buffered: nat) {
    && l.ended == [] && l.open == taken && l.buffered == buffered
    && (!l.begun ==> taken == [] && buffered == 0)
  }

  lemma OneOpenMore(size: nat, l: Log, taken: seq<byte>, before: nat, c: Call, r: Reply)
    requires size > 0 && before <= size && OneOpen(l, taken, before)
    requires Answers(size, before, c, r) && !c.CallFlush? && r.err != Some(NoProgress)
    ensures OneOpen(Next(l, c, r), taken + c.Taken(r.n), r.buffered)
    ensures Next(l, c, r).begun <==> l.begun || Begins(c, r)
  {
    hide AfterWrite, AfterRead;
  }

  ghost predicate SomeBegins(script: seq<Call>, replies: seq<Reply>)
    requires |script| == |replies|
  {
    exists i :: 0 <= i < |script| && Begins(script[i], replies[i])
  }

  lemma SomeBeginsMore(script: seq<Call>, replies: seq<Reply>)
    requires |script| == |replies| > 0
    ensures var n := |script| - 1;
            SomeBegins(script, replies) <==> SomeBegins(script[..n], replies[..n]) || Begins(script[n], replies[n])
  {
    var n := |script| - 1;
    if SomeBegins(script[..n], replies[..n]) {
      var i :| 0 <= i < n && Begins(script[..n][i], replies[..n][i]);
      assert Begins(script[i], replies[i]);
    }
    if i :| 0 <= i < n && Begins(script[i], replies[i]) {
      assert Begins(script[..n][i], replies[..n][i]);
    }
  }

  lemma {:induction false} BeforeTheFlush(size: nat, script: seq<Call>, replies: seq<Reply>)
    requires size > 0 && AllAnswered(size, script, replies) && |script| == |replies|
    requires forall i :: 0 <= i < |script| ==> !script[i].CallFlush? && replies[i].err != Some(NoProgress)
    ensures OneOpen(Logged(script, replies), Gathered(script, replies), Before(replies, |replies|))
    ensures Logged(script, replies).begun <==> SomeBegins(script, replies)
  {
    hide Answers, Next, Begins, SomeBegins, AllAnswered, OneOpen;
    if script == [] {
      NothingBegins();
    } else {
      var n := |script| - 1;
      var s, t := script[..n], replies[..n];
      LastAnswered(size, script, replies);
      BeforeTheFlush(size, s, t);
      OneOpenMore(size, Logged(s, t), Gathered(s, t), Before(t, n), script[n], replies[n]);
      SomeBeginsMore(script, replies);
    }
  }

  lemma LastAnswered(size: nat, script: seq<Call>, replies: seq<Reply>)
    requires size > 0 && AllAnswered(size, script, replies) && script != []
    ensures var n := |script| - 1;
            && AllAnswered(size, script[..n], replies[..n]) && Before(replies[..n], n) == Before(replies, n) <= size
            && Answers(size, Before(replies, n), script[n], replies[n])
  {
    hide Answers;
    var n := |script| - 1;
    assert forall i :: 0 <= i < n ==>
             script[..n][i] == script[i] && replies[..n][i] == replies[i] && Before(replies[..n], i) == Before(replies, i);
  }

  lemma NothingBegins()
    ensures !SomeBegins([], []) && OneOpen(Log([], [], false, 0), [], 0)
  {
  }

  /** A ReadFrom that took k bytes and then made no progress, FlushFragment, Flush: nothing is ended, and what was taken
      stays behind in fragments of a message without an end. */
  lemma StrandedByNoProgress(p: seq<byte>, stalls: nat, k: nat, b: nat)
    requires 0 < k <= |p|
    ensures var script := [CallReadFrom(p, stalls), CallFlushFragment, CallFlush];
            var l := Logged(script, [Reply(k, Some(NoProgress), b), Reply(0, None, 0), Reply(0, None, 0)]);
            l.ended == [] && l.open == p[..k] != [] && Delivery(OpBinary, l.ended, l.open) == ([], UnexpectedEOF)
  {
    hide Delivery;
    var script := [CallReadFrom(p, stalls), CallFlushFragment, CallFlush];
    var replies := [Reply(k, Some(NoProgress), b), Reply(0, None, 0), Reply(0, None, 0)];
    assert script[..2][..1] == [CallReadFrom(p, stalls)] && replies[..2][..1] == [Reply(k, Some(NoProgress), b)];
    assert script[..2][..1][..0] == [] && replies[..2][..1][..0] == [];
    assert Logged(script[..2][..1], replies[..2][..1]) == Log([], [] + p[..k], false, b);
    assert [] + p[..k] == p[..k];
    assert Logged(script[..2], replies[..2]) == Log([], p[..k], false, 0);
    CutOff(p[..k]);
  }

  lemma CutOff(d: seq<byte>)
    requires d != []
    ensures Delivery(OpBinary, [], d) == ([], UnexpectedEOF)
  {
  }

  /** Such answers are among those of a Writer: with a buffer of four bytes, and a source of four and then a hundred empty
      reads. */
  lemma StrandedWitness(a: byte)
    ensures var p := [a, a, a, a];
            AllAnswered(4, [CallReadFrom(p, 100), CallFlushFragment, CallFlush],
                        [Reply(4, Some(NoProgress), 0), Reply(0, None, 0), Reply(0, None, 0)])
  {
  }

  // ---------- the sending side ----------

  /** One call on a Writer with a reliable sink; whole are the frames of the message that it ends, if it does. */
  method Perform(w: Writer, c: Call) returns (r: Reply, ghost whole: seq<Frame>)
    requires w.Valid() && w.err == None && w.dest.reliable && c.Fits()
    modifies w, w.raw, w.dest
    ensures w.Valid() && w.err == None && w.n == r.buffered <= w.Size() && Answers(w.Size(), old(w.n), c, r)
    ensures var l := Next(Log([], old(w.accepted), old(w.dirty), old(w.n)), c, r);
            w.accepted == l.open && w.dirty == l.begun && w.n == l.buffered
    ensures if c.CallFlush? && (old(w.dirty) || old(w.n) > 0) then
              w.base == old(w.base) + EncodeAll(whole) && WholeRun(whole, w.op, ClientSide(w.state))
              && Glue(whole) == old(w.accepted)
            else w.base == old(w.base)
  {
    hide Wire, Reserve, ClientSide, Filled, AfterWrite, AfterRead, WholeRun, Glue, EncodeAll;
    whole := [];
    var e: Option<Error>;
    match c
    case CallWrite(p) =>
      var k;
      k, e := w.Write(p);
      assert p[..k] == p;
      r := Reply(k, e, w.n);
    case CallWriteThrough(p) =>
      var k;
      k, e := w.WriteThrough(p);
      assert p[..|p|] == p && p[..0] == [] && w.accepted + [] == w.accepted;
      r := Reply(k, e, w.n);
    case CallReadFrom(p, stalls) =>
      var src := new Source(p, stalls);
      var k;
      k, e := w.ReadFrom(src);
      r := Reply(k, e, w.n);
    case CallFlushFragment =>
      e := w.FlushFragment();
      r := Reply(0, e, w.n);
    case CallFlush =>
      e, whole := w.Flush();
      r := Reply(0, e, w.n);
  }

  /** The bytes of whole messages, one after the other. */
  function Stream(runs: seq<seq<Frame>>): seq<byte> {
    if runs == [] then [] else EncodeAll(runs[0]) + Stream(runs[1..])
  }

  lemma {:induction false} StreamMore(runs: seq<seq<Frame>>, run: seq<Frame>)
    ensures Stream(runs + [run]) == Stream(runs) + EncodeAll(run)
  {
    hide EncodeAll;
    if runs == [] {
      assert ([run])[1..] == [];
    } else {
      assert (runs + [run])[1..] == runs[1..] + [run];
      StreamMore(runs[1..], run);
    }
  }

  /** The runs carry the messages. */
  ghost predicate Carry(runs: seq<seq<Frame>>, ended: seq<seq<byte>>, op: byte, client: bool) {
    && |runs| == |ended|
    && forall i :: 0 <= i < |runs| ==> WholeRun(runs[i], op, client) && Glue(runs[i]) == ended[i]
  }

  lemma CarryMore(runs: seq<seq<Frame>>, ended: seq<seq<byte>>, op: byte, client: bool, run: seq<Frame>, d: seq<byte>)
    requires Carry(runs, ended, op, client) && WholeRun(run, op, client) && Glue(run) == d
    ensures Carry(runs + [run], ended + [d], op, client)
  {
    hide WholeRun, Glue;
  }

  /** The calls of script on a new Writer. */
  method RunScript(w: Writer, script: seq<Call>) returns (replies: seq<Reply>, ghost runs: seq<seq<Frame>>)
    requires w.Valid() && w.err == None && w.dest.reliable
    requires !w.dirty && w.n == 0 && w.accepted == [] && w.base == []
    requires forall i :: 0 <= i < |script| ==> script[i].Fits()
    modifies w, w.raw, w.dest
    ensures w.Valid() && w.err == None && w.Size() > 0 && AllAnswered(w.Size(), script, replies)
    ensures var l := Logged(script, replies);
            && w.accepted == l.open && w.dirty == l.begun && w.n == l.buffered
            && w.base == Stream(runs) && Carry(runs, l.ended, w.op, ClientSide(w.state))
  {
    hide Wire, Reserve, ClientSide, Filled, Answers, WholeRun, Glue, EncodeAll, Carry, Stream, AllAnswered, Logged;
    replies, runs := [], [];
    NothingLogged(w.Size());
    assert script[..0] == [];
    NothingCarried(w.op, ClientSide(w.state));
    var i := 0;
    while i < |script|
      invariant 0 <= i <= |script| && |replies| == i && w.Valid() && w.err == None
      invariant AllAnswered(w.Size(), script[..i], replies)
      invariant w.n == Before(replies, i) <= w.Size()
      invariant w.accepted == Logged(script[..i], replies).open && w.dirty == Logged(script[..i], replies).begun
      invariant w.n == Logged(script[..i], replies).buffered
      invariant w.base == Stream(runs) && Carry(runs, Logged(script[..i], replies).ended, w.op, ClientSide(w.state))
    {
      ghost var before, l := w.n, Logged(script[..i], replies);
      var r;
      ghost var whole;
      r, whole := Perform(w, script[i]);
      OneMoreAnswer(w.Size(), script, i, replies, r, before);
      if script[i].CallFlush? && (l.begun || l.buffered > 0) {
        StreamMore(runs, whole);
        CarryMore(runs, l.ended, w.op, ClientSide(w.state), whole, l.open);
        runs := runs + [whole];
      }
      replies := replies + [r];
      i := i + 1;
    }
    assert script[..|script|] == script;
  }

  lemma NothingLogged(size: nat)
    requires size > 0
    ensures AllAnswered(size, [], []) && Logged([], []) == Log([], [], false, 0)
  {
  }

  lemma NothingCarried(op: byte, client: bool)
    ensures Stream([]) == [] && Carry([], [], op, client)
  {
  }

  lemma OneMoreAnswer(size: nat, script: seq<Call>, i: nat, replies: seq<Reply>, r: Reply, before: nat)
    requires size > 0 && i < |script| && AllAnswered(size, script[..i], replies) && |replies| == i
    requires before <= size && before == Before(replies, i)
    requires Answers(size, before, script[i], r)
    ensures AllAnswered(size, script[..i + 1], replies + [r])
    ensures Logged(script[..i + 1], replies + [r]) == Next(Logged(script[..i], replies), script[i], r)
  {
    hide Answers, Next;
    var s, t := script[..i + 1], replies + [r];
    assert s[..i] == script[..i] && t[..i] == replies;
    forall j | 0 <= j < |s|
      ensures Before(t, j) <= size && Answers(size, Before(t, j), s[j], t[j])
    {
      assert Before(t, j) == Before(replies, j);
      if j < i {
        assert s[j] == script[..i][j] && t[j] == replies[j];
      }
    }
  }

  /** The sending half: a Writer of any buffer size, the calls, then Flush. */
  method Send(writerState: State, op: byte, size: nat, script: seq<Call>)
    returns (replies: seq<Reply>, stream: seq<byte>, ghost runs: seq<seq<Frame>>, ghost stranded: seq<Frame>)
    requires op < 16 && size + MaxHeaderSize <= MAX_LENGTH
    requires forall i :: 0 <= i < |script| ==> script[i].Fits()
    ensures AllAnswered(BufferSize(writerState, size), script + [CallFlush], replies)
    ensures var l := Logged(script + [CallFlush], replies);
            && stream == Stream(runs) + EncodeAll(stranded) && Carry(runs, l.ended, op, ClientSide(writerState))
            && OpenRun(stranded, op, ClientSide(writerState)) && Glue(stranded) == l.open
            && (stranded == [] <==> l.open == [])
  {
    hide ClientSide, Wire, Reserve, Carry, Stream, Glue, EncodeAll, Answers, Logged, OpenRun, Filled;
    var dest := new Sink(true);
    var w := new Writer(dest, writerState, op, size);
    SizeOfBuffer(w, writerState, size);
    var calls := script + [CallFlush];
    assert forall i :: 0 <= i < |calls| ==> calls[i].Fits();
    replies, runs := RunScript(w, calls);
    stream := dest.data;
    FlushedLast(script, replies);
    stranded := w.sent;
    WhatIsLeft(dest.data, w.base, w.sent, w.accepted, w.Buffered(), op, ClientSide(writerState), w.fragmented);
  }

  lemma SizeOfBuffer(w: Writer, state: State, size: nat)
    requires w.Valid() && w.state == state && if size > 0 then w.Size() == size else w.total == DefaultWriteBuffer
    ensures w.Size() == BufferSize(state, size)
  {
    hide Reserve, Wire;
  }

  /** After a Flush nothing is buffered, and no message is marked as begun. */
  lemma FlushedLast(script: seq<Call>, replies: seq<Reply>)
    requires |replies| == |script| + 1
    ensures var l := Logged(script + [CallFlush], replies); !l.begun && l.buffered == 0
  {
    assert (script + [CallFlush])[..|script|] == script;
  }

  lemma WhatIsLeft(data: seq<byte>, base: seq<byte>, sent: seq<Frame>, accepted: seq<byte>,
                   buffered: seq<byte>, op: byte, client: bool, fragmented: bool)
    requires Wire(data, base, sent, accepted, buffered, op, client, fragmented) && Filled(sent) && buffered == []
    ensures data == base + EncodeAll(sent) && OpenRun(sent, op, client) && Glue(sent) == accepted
    ensures sent == [] <==> accepted == []
  {
    hide OpenRun, EncodeAll;
    if sent != [] {
      FilledIsSome(sent);
    }
  }

  // ---------- the receiving side ----------

  /** A run that was begun and not ended, to the opposite side. */
  lemma OpenRunIsUnfinished(fs: seq<Frame>, op: byte, client: bool, s: State)
    requires OpenRun(fs, op, client) && (op == OpText || op == OpBinary) && Opposite(s, client)
    ensures Unfinished(fs, s) && forall i :: 0 <= i < |fs| ==> fs[i].header.opCode == if i == 0 then op else OpContinuation
  {
    hide IsControl, IsReserved, ServerSide, ClientSide, Check.Extended, Unmask;
    DataOpCodes(op);
    DataOpCodes(OpContinuation);
  }

  lemma FirstCarried(runs: seq<seq<Frame>>, ended: seq<seq<byte>>, op: byte, client: bool, tail: seq<byte>)
    requires Carry(runs, ended, op, client) && runs != []
    ensures Carry(runs[1..], ended[1..], op, client) && WholeRun(runs[0], op, client) && Glue(runs[0]) == ended[0]
    ensures Stream(runs) + tail == EncodeAll(runs[0]) + (Stream(runs[1..]) + tail)
  {
    hide WholeRun, EncodeAll, Glue;
  }

  /** One ReadMessage on a stream that starts with a whole message. */
  lemma ReceivesFirst(runs: seq<seq<Frame>>, ended: seq<seq<byte>>, op: byte, client: bool, s: State, tail: seq<byte>)
    requires Carry(runs, ended, op, client) && runs != [] && ended != [] && (op == OpText || op == OpBinary)
    requires Opposite(s, client) && !Fragmented(s)
    ensures Carry(runs[1..], ended[1..], op, client)
    ensures var r := Receive(Stream(runs) + tail, s);
            if op == OpText && Run(Start, ended[0]).state != Accept then r == Lost([], InvalidUTF8)
            else r == Received([Message(op, ended[0])], Stream(runs[1..]) + tail)
  {
    hide Fragmented, Opposite, Receive, WholeRun, Run, WellFormed, EncodeAll, Glue, MessageStream, Carry, Stream;
    var run, more := runs[0], Stream(runs[1..]) + tail;
    FirstCarried(runs, ended, op, client, tail);
    RunIsMessage(run, op, client, s);
    ReceiveReassembles(run, s, more);
    AutomatonDecidesUtf8(ended[0]);
    assert [] + [Message(op, ended[0])] == [Message(op, ended[0])];
  }

  /** ReadMessage after ReadMessage, until there is an error. */
  method ReceiveAll(src: Source, s: State, op: byte, ghost client: bool, ghost runs: seq<seq<Frame>>,
                    ghost ended: seq<seq<byte>>, ghost stranded: seq<Frame>)
    returns (msgs: seq<Message>, err: Error)
    requires op == OpText || op == OpBinary
    requires Opposite(s, client) && !Fragmented(s)
    requires src.rest == Stream(runs) + EncodeAll(stranded)
    requires Carry(runs, ended, op, client) && OpenRun(stranded, op, client)
    requires stranded == [] <==> Glue(stranded) == []
    modifies src
    ensures (msgs, err) == Delivery(op, ended, Glue(stranded))
  {
    hide Fragmented, Opposite, Receive, EncodeAll, Glue, Carry, Stream, OpenRun, Run;
    msgs := [];
    ghost var k: nat := 0;
    ghost var tail, open := EncodeAll(stranded), Glue(stranded);
    CarryLengths(runs, ended, op, client);
    Nothing(Delivery(op, ended, open));
    assert runs[0..] == runs && ended[0..] == ended;
    while true
      invariant k <= |runs| == |ended| && src.rest == Stream(runs[k..]) + tail
      invariant Carry(runs[k..], ended[k..], op, client)
      invariant Delivery(op, ended, open) == Behind(msgs, Delivery(op, ended[k..], open))
      decreases |runs| - k
    {
      ghost var rest := src.rest;
      var ms, e := ReadMessage.ReadMessage(src, s, []);
      assert [] + Receive(rest, s).msgs == Receive(rest, s).msgs;
      if k < |runs| {
        ReceivesFirst(runs[k..], ended[k..], op, client, s, tail);
        assert runs[k..][1..] == runs[k + 1..] && ended[k..][1..] == ended[k + 1..];
      } else {
        assert runs[k..] == [] && ended[k..] == [];
        ReceivesLast(stranded, op, client, s);
      }
      if e != None {
        assert msgs + [] == msgs;
        return msgs, e.value;
      }
      OneBehind(msgs, ms[0], Delivery(op, ended[k + 1..], open));
      msgs := msgs + ms;
      k := k + 1;
    }
  }

  function Behind(msgs: seq<Message>, d: (seq<Message>, Error)): (seq<Message>, Error) {
    (msgs + d.0, d.1)
  }

  lemma Nothing(d: (seq<Message>, Error))
    ensures Behind([], d) == d
  {
    assert [] + d.0 == d.0;
  }

  lemma OneBehind(msgs: seq<Message>, m: Message, d: (seq<Message>, Error))
    ensures Behind(msgs, ([m] + d.0, d.1)) == Behind(msgs + [m], d)
  {
    assert msgs + ([m] + d.0) == (msgs + [m]) + d.0;
  }

  lemma CarryLengths(runs: seq<seq<Frame>>, ended: seq<seq<byte>>, op: byte, client: bool)
    requires Carry(runs, ended, op, client)
    ensures |runs| == |ended|
  {
  }

  /** ReadMessage behind the last whole message. */
  lemma ReceivesLast(stranded: seq<Frame>, op: byte, client: bool, s: State)
    requires OpenRun(stranded, op, client) && (op == OpText || op == OpBinary) && Opposite(s, client) && !Fragmented(s)
    requires stranded == [] <==> Glue(stranded) == []
    ensures Stream([]) + EncodeAll(stranded) == EncodeAll(stranded)
    ensures Receive(EncodeAll(stranded), s) == Lost([], Delivery(op, [], Glue(stranded)).1)
  {
    hide Fragmented, Opposite, Receive, EncodeFrame, Run, OpenRun, Glue, Unfinished;
    assert Stream([]) == [];
    if stranded == [] {
      ReceiveNothing(s);
    } else {
      OpenRunIsUnfinished(stranded, op, client, s);
      DataOpCodes(op);
      ReceiveUnfinished(stranded, s);
    }
  }

  /** End to end: any calls on one Writer of any buffer size, any number of messages among them, and then Flush, over a
      sink that does not fail; and ReadMessage on the other side, again and again, over a source that cuts its reads in
      any way. The reader gets exactly the messages that have been ended, in order, each with the Writer's opcode and
      the bytes that the calls took for it; then the end of the stream. It stops at a text that is not UTF-8. What was
      begun and not ended, which takes a ReadFrom that made no progress, it reports as cut off. */
  method RoundTrip(writerState: State, readerState: State, op: byte, size: nat, script: seq<Call>, stalls: nat)
    returns (replies: seq<Reply>, msgs: seq<Message>, err: Error)
    requires op == OpText || op == OpBinary
    requires Opposite(readerState, ClientSide(writerState)) && !Fragmented(readerState)
    requires size + MaxHeaderSize <= MAX_LENGTH
    requires forall i :: 0 <= i < |script| ==> script[i].Fits()
    ensures AllAnswered(BufferSize(writerState, size), script + [CallFlush], replies)
    ensures var l := Logged(script + [CallFlush], replies); (msgs, err) == Delivery(op, l.ended, l.open)
  {
    hide ClientSide, Fragmented, Opposite, Answers, Logged, Delivery, Carry, Stream, OpenRun, Glue, EncodeAll;
    var stream;
    ghost var runs, stranded;
    replies, stream, runs, stranded := Send(writerState, op, size, script);
    var src := new Source(stream, stalls);
    msgs, err := ReceiveAll(src, readerState, op, ClientSide(writerState), runs,
                            Logged(script + [CallFlush], replies).ended, stranded);
  }

  lemma ReceiveNothing(s: State)
    requires !Fragmented(s)
    ensures Receive([], s) == Lost([], EOF)
  {
    hide Fragmented;
  }
}
