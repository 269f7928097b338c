/** repo/ws/wsutil/handler.go: replies to control frames (section 5.5 of RFC 6455), with the close codes of
    repo/ws/frame.go, repo/ws/read.go and repo/ws/check.go. */
module Control {
  import opened Bytes
  import opened Cipher
  import opened CipherIO
  import opened Streams
  import opened Header
  import opened Check
  import opened Frames
  import opened Utf8
  import opened Writer

  type StatusCode = n: nat | n < 0x1_0000

  const StatusProtocolError: StatusCode := 1002
  const StatusNoMeaningYet: StatusCode := 1004
  const StatusNoStatusRcvd: StatusCode := 1005

  predicate IsNotUsed(c: StatusCode) { c <= 999 }

  predicate IsProtocolReserved(c: StatusCode) { c == 1005 || c == 1006 || c == 1015 }

  predicate IsProtocolSpec(c: StatusCode) { 1000 <= c <= 2999 }

  predicate IsProtocolDefined(c: StatusCode) {
    1000 <= c <= 1003 || 1005 <= c <= 1011 || c == 1015
  }

  /** ParseCloseFrameData: the code and the reason; code 0 when there is no room for one. */
  function ParseClose(payload: seq<byte>): (StatusCode, seq<byte>) {
    if |payload| < 2 then (0, [])
    else
      FromBigEndianBound(payload[..2]);
      Powers();
      (FromBigEndian(payload[..2]), payload[2..])
  }

  /** PutCloseFrameBody into a buffer of exactly the right size. */
  function CloseBody(code: StatusCode, reason: seq<byte>): seq<byte> {
    BigEndian(code, 2) + reason
  }

  /** As much of the reason as fits. */
  function Cropped(reason: seq<byte>): (r: seq<byte>)
    ensures |reason| <= MaxControlFramePayloadSize - 2 ==> r == reason
    ensures |reason| > MaxControlFramePayloadSize - 2 ==> r == reason[..123]
  {
    if |reason| <= MaxControlFramePayloadSize - 2 then reason else reason[..MaxControlFramePayloadSize - 2]
  }

  /** NewCloseFrameBody crops the reason so that the body is a legal control payload. */
  function NewCloseFrameBody(code: StatusCode, reason: seq<byte>): (body: seq<byte>)
    ensures |body| <= MaxControlFramePayloadSize
  {
    CloseBody(code, Cropped(reason))
  }

  /** A close body says what was put into it. */
  lemma ParseInvertsBody(code: StatusCode, reason: seq<byte>)
    ensures ParseClose(CloseBody(code, reason)) == (code, reason)
  {
    Powers();
    BigEndianRoundTrip(code, 2);
    assert CloseBody(code, reason)[..2] == BigEndian(code, 2);
    assert CloseBody(code, reason)[2..] == reason;
  }

  /** The body for a close frame says the code and the reason, as far as it fits. */
  lemma ParseInvertsNewBody(code: StatusCode, reason: seq<byte>)
    ensures ParseClose(NewCloseFrameBody(code, reason)) == (code, Cropped(reason))
  {
    ParseInvertsBody(code, Cropped(reason));
  }

  function CheckCloseFrameData(code: StatusCode, reason: seq<byte>): Option<Rule> {
    if IsNotUsed(code) then Some(StatusCodeNotInUse)
    else if IsProtocolReserved(code) then Some(StatusCodeApplicationLevel)
    else if code == StatusNoMeaningYet then Some(StatusCodeNoMeaning)
    else if IsProtocolSpec(code) && !IsProtocolDefined(code) then Some(StatusCodeUnknown)
    else if Run(Start, reason).state != Accept then Some(ReasonInvalidUTF8)
    else None
  }

  /** The codes of section 7.4 of RFC 6455 that may travel in a close frame, and every code above its private range,
      with a reason in UTF-8. */
  ghost predicate CloseAllowed(code: StatusCode, reason: seq<byte>) {
    && (code in {1000, 1001, 1002, 1003, 1007, 1008, 1009, 1010, 1011} || 3000 <= code)
    && WellFormed(reason)
  }

  lemma CloseCheckIsTheRule(code: StatusCode, reason: seq<byte>)
    ensures CheckCloseFrameData(code, reason) == None <==> CloseAllowed(code, reason)
  {
    hide Run, WellFormed;
    AutomatonDecidesUtf8(reason);
  }

  /** Of a close that is refused, the rule named is the first one that it breaks: its code's, or its reason's if the code
      may travel. */
  lemma NamedCloseRuleIsBroken(code: StatusCode, reason: seq<byte>)
    ensures CheckCloseFrameData(code, reason) == Some(StatusCodeNotInUse) <==> code < 1000
    ensures CheckCloseFrameData(code, reason) == Some(StatusCodeApplicationLevel) <==> code in {1005, 1006, 1015}
    ensures CheckCloseFrameData(code, reason) == Some(StatusCodeNoMeaning) <==> code == 1004
    ensures CheckCloseFrameData(code, reason) == Some(StatusCodeUnknown) <==> 1012 <= code <= 1014 || 1016 <= code < 3000
    ensures CheckCloseFrameData(code, reason) == Some(ReasonInvalidUTF8) <==> CloseAllowed(code, []) && !WellFormed(reason)
  {
    hide Run, WellFormed;
    AutomatonDecidesUtf8(reason);
    AutomatonDecidesUtf8([]);
    EmptyIsAccepted();
  }

  lemma EmptyIsAccepted()
    ensures Run(Start, []).state == Accept
  {
  }

  /** ProtocolError's text: it fits behind a code. */
  function RuleText(r: Rule): (text: string)
    ensures |text| <= MaxControlFramePayloadSize - 2
  {
    match r
    case OpCodeReserved => "use of reserved op code"
    case ControlPayloadOverflow => "control frame payload limit exceeded"
    case ControlNotFinal => "control frame is not final"
    case NonZeroRsv => "non-zero rsv bits with no extension negotiated"
    case MaskRequired => "frames from client to server must be masked"
    case MaskUnexpected => "frames from server to client must be not masked"
    case ContinuationExpected => "unexpected non-continuation data frame"
    case ContinuationUnexpected => "unexpected continuation data frame"
    case StatusCodeNotInUse => "status code is not in use"
    case StatusCodeApplicationLevel => "status code is only application level"
    case StatusCodeNoMeaning => "status code has no meaning yet"
    case StatusCodeUnknown => "status code is not defined in spec"
    case ReasonInvalidUTF8 => "invalid utf8 sequence in close reason"
  }

  /** The bytes of a text in ASCII. */
  function AsciiBytes(s: string): (b: seq<byte>)
    ensures |b| == |s|
  {
    seq(|s|, i requires 0 <= i < |s| => Narrow(s[i] as int % 128))
  }

  /** b is the text s, character by character. */
  ghost predicate Spells(b: seq<byte>, s: string) {
    |b| == |s| && forall i :: 0 <= i < |s| && s[i] as int < 128 ==> Value(b[i]) == s[i] as int
  }

  lemma AsciiBytesSpell(s: string)
    ensures Spells(AsciiBytes(s), s)
  {
    forall i | 0 <= i < |s| && s[i] as int < 128
      ensures Value(AsciiBytes(s)[i]) == s[i] as int
    {
      ValueOfNarrow(s[i] as int);
    }
  }

  /** The body of a close that answers a broken rule: code 1002 and the rule's text. */
  ghost predicate Complains(body: seq<byte>, r: Rule) {
    |body| <= 125 && ParseClose(body).0 == 1002 && Spells(ParseClose(body).1, RuleText(r))
  }

  lemma ErrorBodyComplains(r: Rule)
    ensures Complains(NewCloseFrameBody(StatusProtocolError, AsciiBytes(RuleText(r))), r)
  {
    hide RuleText, CloseBody, ParseClose;
    AsciiBytesSpell(RuleText(r));
    ParseInvertsNewBody(StatusProtocolError, AsciiBytes(RuleText(r)));
  }

  /** A control frame as the other side must see it: final, short, unmasked or masked by the sender's side. */
  ghost predicate ControlReply(f: Frame, client: bool, op: byte, payload: seq<byte>) {
    && f.Sound() && f.header.fin && f.header.rsv == 0 && f.header.opCode == op
    && f.header.masked == client && Plain(f) == payload && |payload| <= MaxControlFramePayloadSize
  }

  /** Every reply passes CheckHeader on the opposite side, whether or not a message is open there. */
  lemma ReplyPassesPeerCheck(f: Frame, client: bool, op: byte, payload: seq<byte>, peer: State)
    requires ControlReply(f, client, op, payload) && (op == OpPong || op == OpClose)
    requires (ServerSide(peer) ==> client) && (ClientSide(peer) ==> !client)
    ensures CheckHeader(f.header, peer) == None
  {
    hide ServerSide, ClientSide, Check.Extended, Fragmented, Unmask;
    assert IsControl(op) && !IsReserved(op);
  }

  // ---------- ControlWriter ----------

  /** How much of a buffer a control writer uses. */
  function Most(state: State, length: nat): nat {
    var most := MaxControlFramePayloadSize + SizeOfHeader(state, MaxControlFramePayloadSize);
    if length > most then most else length
  }

  class ControlWriter {
    const w: Writer
    const limit: nat
    const n: nat := 0          // never advanced, so that the limit holds for each Write on its own

    /** NewControlWriterBuffer: no more of buf is used than the largest control frame needs. */
    constructor (dest: Sink, state: State, op: byte, buf: array<byte>)
      requires op < 16 && buf.Length <= MAX_LENGTH && Reserve(state, Most(state, buf.Length)) < Most(state, buf.Length)
      ensures fresh(w) && w.Valid() && w.raw == buf && w.dest == dest && w.state == state && w.op == op
      ensures w.n == 0 && w.err == None && !w.dirty && w.accepted == [] && w.sent == [] && w.base == dest.data
      ensures limit == w.Size() == Most(state, buf.Length) - Reserve(state, Most(state, buf.Length))
    {
      var total := Most(state, buf.Length);
      w := new Writer.FromBuffer(dest, state, op, buf, total);
      limit := total - Reserve(state, total);
    }

    /** Write: within the limit it goes to the Writer, which buffers what fits. */
    method Write(p: seq<byte>) returns (k: nat, e: Option<Error>)
      requires w.Valid() && |p| <= MAX_LENGTH && w.err == None
      modifies w, w.raw, w.dest
      ensures w.Valid() && w.base == old(w.base) && old(w.dest.data) <= w.dest.data
      ensures n + |p| > limit ==> k == 0 && e == Some(ControlOverflow) && w.accepted == old(w.accepted) && w.n == old(w.n)
                                  && w.err == None && w.sent == old(w.sent) && w.dest.data == old(w.dest.data)
                                  && w.dirty == old(w.dirty)
      ensures n + |p| <= limit ==>
                && e == w.err && w.dirty && k <= |p| && w.accepted == old(w.accepted) + p[..k]
                && (e == None ==> k == |p|) && (w.dest.reliable ==> e == None)
      ensures n + |p| <= limit && |p| <= old(w.Available()) ==>
                && k == |p| && e == None && w.err == None && w.dirty
                && w.accepted == old(w.accepted) + p && w.sent == old(w.sent)
                && w.dest.data == old(w.dest.data) && w.n == old(w.n) + |p|
    {
      if n + |p| > limit {
        return 0, Some(ControlOverflow);
      }
      k, e := w.Write(p);
      assert p[..|p|] == p;
    }
  }

  // ---------- ControlHandler ----------

  class ControlHandler {
    const src: Source
    const dst: Sink
    const state: State
    const disableSrcCiphering: bool

    constructor (src: Source, dst: Sink, state: State, disableSrcCiphering: bool)
      ensures this.src == src && this.dst == dst && this.state == state
      ensures this.disableSrcCiphering == disableSrcCiphering
    {
      this.src, this.dst, this.state, this.disableSrcCiphering := src, dst, state, disableSrcCiphering;
    }

    /** The payload that the source holds, deciphered when the handler has to do that itself. */
    function Payload(h: Header, p: seq<byte>): (r: seq<byte>)
      ensures |r| == |p|
    {
      if Deciphers() then Masked(p, h.mask, 0) else p
    }

    /** The payload reader's Read: r is the source, behind a CipherReader when the handler deciphers. */
    method ReadPayload(c: CipherReader, buf: array<byte>) returns (nr: nat, eof: bool)
      requires buf.Length > 0
      modifies src, c, buf
      ensures nr <= |old(src.rest)| && nr <= buf.Length && src.rest == old(src.rest)[nr..]
      ensures var d := old(src.rest)[..nr];
              buf[..nr] == if Deciphers() then Masked(d, c.mask, old(c.pos)) else d
      ensures c.mask == old(c.mask) && (Deciphers() ==> c.pos == old(c.pos) + nr)
      ensures eof ==> src.rest == []
      ensures !eof ==> nr > 0 || src.stalls < old(src.stalls)
      ensures src.stalls <= old(src.stalls)
    {
      hide Masked, ServerSide;
      var er;
      nr, er := src.Read(buf, 0, buf.Length);
      assert buf[0..0 + nr] == buf[..nr];
      if Deciphers() {
        c.Unmask(buf, 0, nr);
      }
      eof := er == Some(EOF);
    }

    predicate Deciphers() { ServerSide(state) && !disableSrcCiphering }

    /** io.Copy(w, r): the source to its end, chunk by chunk into the control writer, unless that refuses a chunk;
        k bytes of it are taken. */
    method CopyTo(w: ControlWriter, h: Header) returns (e: Option<Error>, ghost k: nat)
      requires w.w.Valid() && w.w.err == None && w.w.n == 0 && w.w.dest == dst && w.w.sent == [] && w.w.accepted == []
      requires 0 < w.limit == w.w.Size() <= MaxControlFramePayloadSize && !w.w.dirty
      modifies src, w.w, w.w.raw, dst
      ensures k <= |old(src.rest)| && w.w.Valid() && w.w.base == old(w.w.base)
      ensures e == None ==> w.w.err == None && src.rest == [] && k == |old(src.rest)|
      ensures e == Some(ControlOverflow) ==> w.w.err == None && |old(src.rest)| > w.limit
      ensures e == None || e == Some(ControlOverflow) || (e == w.w.err && !dst.reliable)
      ensures w.w.err == None ==> w.w.accepted == Payload(h, old(src.rest)[..k]) && w.w.dirty == (k > 0)
      ensures |old(src.rest)| <= w.limit ==> e == None && w.w.sent == [] && dst.data == old(dst.data)
    {
      hide Masked, ServerSide, Wire, Reserve, Filled, Payload;
      ghost var r := src.rest;
      var c := new CipherReader(h.mask);
      var buf := new byte[32768];
      e, k := None, 0;
      var eof := false;
      NoPayload(h, r);
      while !eof && e == None
        invariant k <= |r| && (e == None ==> src.rest == r[k..])
        invariant w.w.Valid() && w.w.base == old(w.w.base)
        invariant w.w.err == None ==> w.w.accepted == Payload(h, r[..k]) && w.w.dirty == (k > 0)
        invariant e == None ==> w.w.err == None && c.mask == h.mask && (Deciphers() ==> c.pos == k)
        invariant e == None || (e == Some(ControlOverflow) && w.w.err == None && |r| > w.limit) || (e == w.w.err && !dst.reliable)
        invariant |r| <= w.limit ==> e == None && w.w.n == k && w.w.sent == [] && dst.data == old(dst.data)
        invariant (eof ==> src.rest == []) && fresh(buf) && fresh(c) && buf.Length > 0
        decreases e == None && !eof, |src.rest|, src.stalls
      {
        ghost var nr;
        e, eof, nr := CopyTurn(w, h, c, buf, r, k);
        k := k + nr;
      }
      assert r[..|r|] == r;
    }

    /** One turn of io.Copy: a read, and a Write of what it gave; nr bytes are taken. */
    method CopyTurn(w: ControlWriter, h: Header, c: CipherReader, buf: array<byte>, ghost r: seq<byte>, ghost k: nat)
      returns (e: Option<Error>, eof: bool, ghost nr: nat)
      requires w.w.Valid() && w.w.err == None && w.limit == w.w.Size() && w.w.dest == dst && {buf} !! {w.w.raw}
      requires 0 < buf.Length <= MAX_LENGTH && k <= |r| && src.rest == r[k..]
      requires c.mask == h.mask && (Deciphers() ==> c.pos == k)
      requires w.w.accepted == Payload(h, r[..k]) && w.w.dirty == (k > 0)
      modifies src, c, buf, w.w, w.w.raw, dst
      ensures w.w.Valid() && w.w.base == old(w.w.base) && k + nr <= |r|
      ensures e == None ==> w.w.err == None && src.rest == r[k + nr..]
      ensures e != None ==> nr == 0
      ensures w.w.err == None ==> w.w.accepted == Payload(h, r[..k + nr]) && w.w.dirty == (k + nr > 0)
      ensures e == None || (e == Some(ControlOverflow) && w.w.err == None && |r| > w.limit) || (e == w.w.err && !dst.reliable)
      ensures c.mask == h.mask && (e == None && Deciphers() ==> c.pos == k + nr)
      ensures old(w.w.n) + |r| - k <= w.limit ==>
                e == None && w.w.n == old(w.w.n) + nr && w.w.sent == old(w.w.sent) && dst.data == old(dst.data)
      ensures eof ==> src.rest == []
      ensures !eof && e == None ==> nr > 0 || src.stalls < old(src.stalls)
      ensures src.stalls <= old(src.stalls)
    {
      hide Masked, ServerSide, Wire, Reserve, Filled, Payload;
      var m;
      m, eof := ReadPayload(c, buf);
      e, nr := None, m;
      assert r[k..][m..] == r[k + m..];
      if m > 0 {
        PayloadGrows(h, r, k, m, buf[..m]);
        e := WriteChunk(w, buf[..m]);
        if e != None {
          nr := 0;
        }
      }
    }

    /** One Write of io.Copy. */
    method WriteChunk(w: ControlWriter, d: seq<byte>) returns (e: Option<Error>)
      requires w.w.Valid() && w.w.err == None && d != [] && |d| <= MAX_LENGTH && w.limit == w.w.Size() && w.w.dest == dst
      modifies w.w, w.w.raw, dst
      ensures w.w.Valid() && w.w.base == old(w.w.base)
      ensures e == None ==> w.w.err == None && w.w.accepted == old(w.w.accepted) + d && w.w.dirty
      ensures e == None || (e == Some(ControlOverflow) && w.w.err == None && |d| > w.limit
                            && w.w.accepted == old(w.w.accepted) && w.w.dirty == old(w.w.dirty))
                        || (e == w.w.err && w.w.err != None && !dst.reliable)
      ensures old(w.w.n) + |d| <= w.limit ==>
                e == None && w.w.n == old(w.w.n) + |d| && w.w.sent == old(w.w.sent) && dst.data == old(dst.data)
    {
      hide Wire, Reserve, Filled;
      var k;
      k, e := w.Write(d);
      assert d[..|d|] == d;
    }

    lemma NoPayload(h: Header, r: seq<byte>)
      ensures Payload(h, r[..0]) == []
    {
    }

    /** How many payload bytes the reply to h has room for. */
    function Room(h: Header): nat {
      if h.length < MaxControlFramePayloadSize then h.length else MaxControlFramePayloadSize
    }

    /** HandlePing. A ping without payload is answered without looking at the source; any other by one pong with all that
        the source holds, up to its end: so the source should hold the payload and no more. One that ends before its
        payload has begun gets no answer; and one that goes on behind it no proper one - the copying is broken off, or
        what has been copied goes out in fragments, which control frames must not. fs are the frames sent. */
    method HandlePing(h: Header) returns (e: Option<Error>, ghost fs: seq<Frame>)
      requires h.length + MaxHeaderSize <= MAX_LENGTH
      modifies src, dst
      ensures dst.reliable ==> dst.data == old(dst.data) + EncodeAll(fs)
      ensures h.length == 0 ==>
                |fs| == 1 && ControlReply(fs[0], ClientSide(state), OpPong, []) && src.rest == old(src.rest)
      ensures 0 < |old(src.rest)| <= Room(h) ==>
                |fs| == 1 && ControlReply(fs[0], ClientSide(state), OpPong, Payload(h, old(src.rest)))
      ensures (h.length == 0 || |old(src.rest)| <= Room(h)) && dst.reliable ==> e == None
      ensures h.length > 0 && old(src.rest) == [] ==> fs == []
      ensures h.length > 0 && |old(src.rest)| > Room(h) && dst.reliable ==>
                || (e == Some(ControlOverflow) && OpenRun(fs, OpPong, ClientSide(state)))
                || (e == None && WholeRun(fs, OpPong, ClientSide(state)) && |fs| > 1)
    {
      hide Masked, ServerSide, ClientSide, Wire, Reserve, EncodeAll, EncodeFrame, SizeOfHeader, HeaderSize, WholeRun, OpenRun,
           ControlReply, Filled;
      if h.length == 0 {
        ghost var f;
        e, f := EmptyReply(OpPong);
        fs := [f];
        JustOne(f);
        return;
      }
      var p := new byte[h.length + SizeOfHeader(state, h.length)];
      ControlBufferFits(state, h.length);
      var w := new ControlWriter(dst, state, OpPong, p);
      ghost var k;
      e, k := CopyTo(w, h);
      assert old(src.rest)[..|old(src.rest)|] == old(src.rest);
      if e != None {
        fs := w.w.sent;
        if dst.reliable {
          SentSoFar(dst.data, w.w.base, w.w.sent, w.w.accepted, w.w.Buffered(), OpPong, ClientSide(state), w.w.fragmented);
        }
        return;
      }
      e, fs := FlushPong(w.w, h, old(src.rest));
    }

    /** The Flush of HandlePing. */
    method FlushPong(w: Writer, h: Header, ghost r: seq<byte>) returns (e: Option<Error>, ghost fs: seq<Frame>)
      requires w.Valid() && w.err == None && w.dirty == (r != []) && w.accepted == Payload(h, r) && w.base + [] == w.base
      requires w.dest == dst && w.state == state && w.op == OpPong && w.Size() == Room(h)
      requires |r| <= Room(h) ==> w.sent == [] && w.base == dst.data
      modifies w, w.raw, dst
      ensures dst.reliable ==> dst.data == old(w.base) + EncodeAll(fs) && e == None
      ensures 0 < |r| <= Room(h) ==> |fs| == 1 && ControlReply(fs[0], ClientSide(state), OpPong, Payload(h, r))
      ensures r == [] ==> fs == []
      ensures |r| > Room(h) && e == None ==> WholeRun(fs, OpPong, ClientSide(state)) && |fs| > 1
    {
      hide Masked, ServerSide, ClientSide, Wire, Reserve, EncodeAll, EncodeFrame, WholeRun, OpenRun, ControlReply, Filled;
      ghost var base, sent := w.base, w.sent;
      NothingSentYet(dst.data, w.base, w.sent, w.accepted, w.Buffered(), OpPong, ClientSide(state), w.fragmented);
      MoreThanBuffered(dst.data, w.base, w.sent, w.accepted, w.Buffered(), OpPong, ClientSide(state), w.fragmented);
      EncodesNothing();
      assert dst.data + [] == dst.data;
      e, fs := w.Flush();
      if 0 < |r| <= Room(h) {
        if e == None {
          SingleRun(fs, OpPong, ClientSide(state));
          PongIs(fs[0], ClientSide(state), Payload(h, r));
        } else {
          fs := [SomeReply(ClientSide(state), OpPong, Payload(h, r))];
        }
      }
    }

    /** A reply with no payload is a header on its own, under a zero mask when the sender is a client. */
    method EmptyReply(op: byte) returns (e: Option<Error>, ghost f: Frame)
      requires op == OpPong || op == OpClose
      modifies dst
      ensures ControlReply(f, ClientSide(state), op, [])
      ensures e == None ==> dst.data == old(dst.data) + EncodeFrame(f)
      ensures e == None || (e == Some(SinkFailed) && !dst.reliable)
    {
      hide ClientSide, Masked;
      var h := Header(true, 0, op, ClientSide(state), NoMask, 0);
      f := Frame(h, []);
      e := WriteHeader(dst, h);
      assert EncodeFrame(f) == Encode(h);
    }

    /** Flush of a control writer that has only buffered. */
    method FlushReply(w: Writer, op: byte, ghost payload: seq<byte>) returns (e: Option<Error>, ghost f: Frame)
      requires w.Valid() && w.err == None && w.dirty && w.sent == [] && w.accepted == payload && w.base == dst.data
      requires w.dest == dst && w.state == state && w.op == op && |payload| <= MaxControlFramePayloadSize
      modifies w, w.raw, dst
      ensures ControlReply(f, ClientSide(state), op, payload)
      ensures e == None ==> dst.data == old(dst.data) + EncodeFrame(f)
      ensures e == None || (e == Some(SinkFailed) && !dst.reliable)
    {
      hide ClientSide, Wire, Reserve, EncodeFrame, WholeRun;
      ghost var whole;
      e, whole := w.Flush();
      if e == None {
        f := whole[0];
        SingleRun(whole, op, ClientSide(state));
      } else {
        f := SomeReply(ClientSide(state), op, payload);
      }
    }

    /** HandlePong: the source is read to its end and thrown away, unless there is no payload. */
    method HandlePong(h: Header) returns (e: Option<Error>)
      modifies src
      ensures e == None && src.rest == if h.length == 0 then old(src.rest) else []
    {
      e := None;
      if h.length == 0 {
        return;
      }
      var buf := new byte[h.length];
      var eof := false;
      while !eof
        invariant eof ==> src.rest == []
        decreases !eof, |src.rest|, src.stalls
      {
        var nr, er := src.Read(buf, 0, buf.Length);
        eof := er == Some(EOF);
      }
    }

    /** HandleClose. It takes the payload, and no more, from the source. The reply echoes the code of a valid close; the two
        bytes are copied to their place in the buffer that the payload was read into, before the header is put in front of
        them. A close with a forbidden code or a broken reason is answered with code 1002 and the broken rule's text. A
        source that ends too soon is reported, and nothing is sent. Else the error tells how the connection was closed.
        fs are the frames sent: the reply. */
    method HandleClose(h: Header) returns (e: Error, ghost fs: seq<Frame>)
      requires h.length + MaxHeaderSize <= MAX_LENGTH
      modifies src, dst
      ensures dst.reliable ==> dst.data == old(dst.data) + EncodeAll(fs)
      ensures e == SinkFailed ==> !dst.reliable
      ensures |old(src.rest)| < h.length ==>
                fs == [] && e == (if old(src.rest) == [] then EOF else UnexpectedEOF) && src.rest == []
      ensures |old(src.rest)| >= h.length ==> |fs| == 1 && src.rest == old(src.rest)[h.length..]
      ensures |old(src.rest)| >= h.length ==>
        var payload := Payload(h, old(src.rest)[..h.length]);
        var (code, reason) := ParseClose(payload);
        if payload == [] then
          ControlReply(fs[0], ClientSide(state), OpClose, []) && e in {Closed(StatusNoStatusRcvd, []), SinkFailed}
        else match CheckCloseFrameData(code, reason)
          case None =>
            ControlReply(fs[0], ClientSide(state), OpClose, payload[..2]) && e in {Closed(code, reason), SinkFailed}
          case Some(r) =>
            ErrorReply(fs[0], ClientSide(state), r) && e == Protocol(r)
    {
      hide Masked, ServerSide, ClientSide, Wire, Reserve, EncodeFrame, EncodeAll, SizeOfHeader, HeaderSize, WholeRun, Run,
           ParseClose, ControlReply;
      EncodesNothing();
      ghost var f;
      if h.length == 0 {
        assert Payload(h, src.rest[..0]) == [] && src.rest[0..] == src.rest;
        var ew;
        ew, f := EmptyReply(OpClose);
        JustOne(f);
        return if ew == None then Closed(StatusNoStatusRcvd, []) else ew.value, [f];
      }
      var p := new byte[h.length + SizeOfHeader(state, h.length)];
      var er := ReadPayloadFull(h, p);
      if er != None {
        assert dst.data + [] == dst.data;
        return er.value, [];
      }
      ghost var payload := p[..h.length];
      var (code, reason) := ParseClose(p[..h.length]);
      var rule := CheckCloseFrameData(code, reason);
      if rule != None {
        f := CloseWithProtocolError(rule.value);
        JustOne(f);
        return Protocol(rule.value), [f];
      }
      TwoBytes(payload);
      assert p[..2] == payload[..2];
      var ew;
      ew, f := EchoCode(h.length, p);
      JustOne(f);
      return if ew == None then Closed(code, reason) else ew.value, [f];
    }

    /** The reply to a valid close, in the buffer that holds its payload. */
    method EchoCode(length: Length, p: array<byte>) returns (ew: Option<Error>, ghost f: Frame)
      requires 2 <= length && p.Length == length + SizeOfHeader(state, length) <= MAX_LENGTH
      modifies p, dst
      ensures ControlReply(f, ClientSide(state), OpClose, old(p[..2]))
      ensures ew == None ==> dst.data == old(dst.data) + EncodeFrame(f)
      ensures ew == None || (ew == Some(SinkFailed) && !dst.reliable)
    {
      hide ClientSide, Wire, Reserve, EncodeFrame, SizeOfHeader, HeaderSize, Filled;
      ControlBufferFits(state, length);
      var w := new ControlWriter(dst, state, OpClose, p);
      ghost var code := p[..2];
      var k, e := w.Write(p[..2]);
      assert [] + code == code;
      ew, f := FlushReply(w.w, OpClose, code);
    }

    /** io.ReadFull(r, p[:h.Length]); the running position of the cipher makes one pass of its chunks. */
    method ReadPayloadFull(h: Header, p: array<byte>) returns (e: Option<Error>)
      requires h.length <= p.Length
      modifies src, p
      ensures |old(src.rest)| >= h.length ==>
                e == None && p[..h.length] == Payload(h, old(src.rest)[..h.length]) && src.rest == old(src.rest)[h.length..]
      ensures |old(src.rest)| < h.length ==>
                e == Some(if old(src.rest) == [] then EOF else UnexpectedEOF) && src.rest == []
    {
      hide Masked, ServerSide;
      e := src.ReadFull(p, 0, h.length);
      if e == None && Deciphers() {
        var c := new CipherReader(h.mask);
        c.Unmask(p, 0, h.length);
      }
      assert p[0..h.length] == p[..h.length];
    }

    /** closeWithProtocolError. On the client side the payload is masked, but the frame that says so is dropped. */
    method CloseWithProtocolError(r: Rule) returns (ghost f: Frame)
      modifies dst
      ensures ErrorReply(f, ClientSide(state), r)
      ensures dst.reliable ==> dst.data == old(dst.data) + EncodeFrame(f)
    {
      hide ClientSide, Masked, EncodeFrame, NewCloseFrameBody, BigEndian, RuleText, AsciiBytes, Complains;
      ErrorBodyComplains(r);
      var body := NewCloseFrameBody(StatusProtocolError, AsciiBytes(RuleText(r)));
      var sent := body;
      if ClientSide(state) {
        var mask := NewMask();
        sent := Masked(body, mask, 0);
        assert sent == Masked(body, mask, 0);
      }
      var frame := Frame(Header(true, 0, OpClose, false, NoMask, |body|), sent);
      f := frame;
      var ew := PutFrame(dst, frame);
    }

    /** Handle: pings, pongs and closes, each to its handler; fs are the frames sent. For a source that holds the payload
        and no more, of a header that has been checked, this is what the three promise. */
    method Handle(h: Header) returns (e: Option<Error>, ghost fs: seq<Frame>)
      requires h.length + MaxHeaderSize <= MAX_LENGTH
      modifies src, dst
      ensures dst.reliable ==> dst.data == old(dst.data) + EncodeAll(fs)
      ensures h.opCode == OpPing && h.length == |old(src.rest)| <= MaxControlFramePayloadSize ==>
                && |fs| == 1 && ControlReply(fs[0], ClientSide(state), OpPong, Payload(h, old(src.rest)))
                && (dst.reliable ==> e == None)
      ensures h.opCode == OpPong ==> e == None && fs == []
      ensures h.opCode == OpClose ==> e != None && (|fs| == 1 <==> |old(src.rest)| >= h.length)
      ensures h.opCode !in {OpPing, OpPong, OpClose} ==> e == Some(NotControlFrame) && fs == [] && src.rest == old(src.rest)
    {
      hide ControlReply, EncodeFrame, EncodeAll, ClientSide, ServerSide, Masked, ParseClose, CheckCloseFrameData, ErrorReply,
           WholeRun, OpenRun;
      EncodesNothing();
      assert dst.data + [] == dst.data;
      if h.opCode == OpPing {
        assert |src.rest| == 0 ==> Payload(h, src.rest) == [];
        e, fs := HandlePing(h);
      } else if h.opCode == OpPong {
        e := HandlePong(h);
        fs := [];
      } else if h.opCode == OpClose {
        var ce;
        ce, fs := HandleClose(h);
        e := Some(ce);
      } else {
        e, fs := Some(NotControlFrame), [];
      }
    }

    lemma PayloadGrows(h: Header, r: seq<byte>, k: nat, n: nat, d: seq<byte>)
      requires k + n <= |r| && d == if Deciphers() then Masked(r[k..][..n], h.mask, k) else r[k..][..n]
      ensures Payload(h, r[..k + n]) == Payload(h, r[..k]) + d
    {
      hide Masked, ServerSide;
      assert r[..k + n] == r[..k] + r[k..][..n];
      MaskedConcat(r[..k], r[k..][..n], h.mask, 0);
    }
  }

  /** The close that answers a broken one. From a server it is a proper control frame; from a client its payload is masked
      under a key that its header does not carry. */
  ghost predicate ErrorReply(f: Frame, client: bool, r: Rule) {
    && f.Sound() && f.header == Header(true, 0, OpClose, false, NoMask, |f.payload|) && |f.payload| <= 125
    && (client ==> exists mask: Mask, body: seq<byte> :: f.payload == Masked(body, mask, 0) && Complains(body, r))
    && (!client ==> ControlReply(f, false, OpClose, f.payload) && Complains(f.payload, r))
  }

  /** A protocol-error reply passes the peer's CheckHeader if and only if it comes from the server side:
      a server refuses the client's, because it is not marked as masked. */
  lemma ErrorReplyPassesIffServer(f: Frame, client: bool, r: Rule, peer: State)
    requires ErrorReply(f, client, r)
    requires ServerSide(peer) == client && ClientSide(peer) == !client
    ensures CheckHeader(f.header, peer) == None <==> !client
    ensures client ==> CheckHeader(f.header, peer) == Some(Protocol(MaskRequired))
  {
    hide ServerSide, ClientSide, Check.Extended, Fragmented, Unmask, Masked, Complains;
    assert IsControl(OpClose) && !IsReserved(OpClose);
  }

  /** The code of a valid close takes its first two bytes. */
  lemma TwoBytes(payload: seq<byte>)
    requires CheckCloseFrameData(ParseClose(payload).0, ParseClose(payload).1) == None
    ensures |payload| >= 2 && ParseClose(payload[..2]) == (ParseClose(payload).0, [])
  {
    hide Run;
    if |payload| >= 2 {
      assert payload[..2][..2] == payload[..2] && payload[..2][2..] == [];
    }
  }

  /** The pool buffer made for a reply: the control writer holds the payload, as far as control frames go. */
  lemma ControlBufferFits(state: State, n: Length)
    requires 0 < n
    ensures var total := Most(state, n + SizeOfHeader(state, n));
            Reserve(state, total) < total &&
            total - Reserve(state, total) == if n < MaxControlFramePayloadSize then n else MaxControlFramePayloadSize
  {
    hide ClientSide;
  }

  lemma PongIs(f: Frame, client: bool, payload: seq<byte>)
    requires f.Sound() && f.header.fin && f.header.rsv == 0 && f.header.masked == client && f.header.opCode == OpPong
    requires Plain(f) == payload && |payload| <= MaxControlFramePayloadSize
    ensures ControlReply(f, client, OpPong, payload)
  {
  }

  lemma EncodesNothing()
    ensures EncodeAll([]) == []
  {
  }

  lemma JustOne(f: Frame)
    ensures EncodeAll([f]) == EncodeFrame(f)
  {
    hide EncodeFrame;
    assert EncodeAll([f]) == EncodeFrame(f) + EncodeAll([]);
  }

  lemma SentSoFar(data: seq<byte>, base: seq<byte>, sent: seq<Frame>, accepted: seq<byte>,
                  buffered: seq<byte>, op: byte, client: bool, fragmented: bool)
    requires Wire(data, base, sent, accepted, buffered, op, client, fragmented)
    ensures data == base + EncodeAll(sent) && OpenRun(sent, op, client)
  {
  }

  lemma NothingSentYet(data: seq<byte>, base: seq<byte>, sent: seq<Frame>, accepted: seq<byte>,
                       buffered: seq<byte>, op: byte, client: bool, fragmented: bool)
    requires Wire(data, base, sent, accepted, buffered, op, client, fragmented)
    ensures accepted == [] ==> buffered == []
    ensures sent == [] ==> data == base && buffered == accepted
  {
    hide OpenRun;
  }

  lemma MoreThanBuffered(data: seq<byte>, base: seq<byte>, sent: seq<Frame>, accepted: seq<byte>,
                         buffered: seq<byte>, op: byte, client: bool, fragmented: bool)
    requires Wire(data, base, sent, accepted, buffered, op, client, fragmented)
    ensures |accepted| > |buffered| ==> sent != []
  {
    hide OpenRun;
  }

  lemma SingleRun(whole: seq<Frame>, op: byte, client: bool)
    requires |whole| == 1 && WholeRun(whole, op, client)
    ensures EncodeAll(whole) == EncodeFrame(whole[0]) && Glue(whole) == Plain(whole[0])
    ensures var h := whole[0].header;
            whole[0].Sound() && h.fin && h.rsv == 0 && h.masked == client && h.opCode == op
  {
    hide EncodeFrame, Unmask;
    assert EncodeAll(whole) == EncodeFrame(whole[0]) + EncodeAll([]);
    assert Glue(whole) == Plain(whole[0]) + Glue([]);
  }

  ghost function SomeReply(client: bool, op: byte, payload: seq<byte>): (f: Frame)
    requires op < 16 && |payload| <= MaxControlFramePayloadSize
    ensures ControlReply(f, client, op, payload)
  {
    Seal(client, op, true, payload, NoMask)
  }
}
