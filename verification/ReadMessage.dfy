/** repo/ws/wsutil/helper.go: ReadMessage, on a stateful Reader. */
module ReadMessage {
  import opened Bytes
  import opened Streams
  import opened Header
  import opened Check
  import opened Frames
  import opened Reading
  import opened Reader
  import Utf8

  /** io.ReadFull(rd, p) for a message of exactly that length in one frame. */
  method ReadWhole(rd: Reader, p: array<byte>) returns (err: Option<Error>, ghost cs: seq<Message>)
    requires Consistent(rd.Now()) && rd.frame.Some? && !Fragmented(rd.state) && rd.left == p.Length
    requires rd.Now().text == Utf8.Start
    modifies rd, rd.source, rd.cipher, rd.utf8, p
    ensures rd.collected == old(rd.collected) + cs
    ensures match Drain(old(rd.Now()))
            case Done(c, d, r) => err == None && c == cs && d == p[..] && r == rd.source.rest
            case Broken(c, e) => err == Some(e) && c == cs
  {
    hide Drain, Delivers, Consistent, Fragmented;
    ghost var v := rd.Now();
    var n: nat := 0;
    err, cs := None, [];
    assert p[..0] == [];
    DeliversNothing(v);
    while n < p.Length && err == None
      invariant n <= p.Length
      invariant rd.collected == old(rd.collected) + cs
      invariant Delivers(v, err, cs, p[..n], rd.Now())
      invariant err == None ==>
                  Consistent(rd.Now()) && rd.frame.Some? && rd.state == v.state && rd.left == p.Length - n
      invariant err == None && n > 0 ==> rd.left > 0
      invariant p.Length == 0 ==> n == 0 && err == None && cs == [] && rd.Now() == v
      invariant err == Some(EOF) ==> n == p.Length
      invariant err != None && err != Some(EOF) ==> n < p.Length
      decreases err == None, |rd.source.rest|, rd.frame.Some?, rd.source.stalls
    {
      ghost var u, d := rd.Now(), p[..n];
      var nn;
      ghost var cs';
      nn, err, cs' := rd.Read(p, n, p.Length);
      DeliversThen(v, cs, d, u, err, cs', p[n..n + nn], rd.Now());
      assert p[..n + nn] == d + p[n..n + nn];
      n := n + nn;
      cs := cs + cs';
    }
    assert p[..p.Length] == p[..];
    if n >= p.Length {
      if err == None {
        // Only an empty message is complete without a single call of Read.
        EmptyMessage(v);
      } else {
        WholeDelivered(v, err, cs, p[..], rd.Now());
      }
      err := None;
    } else {
      // Short of the whole message the error is never a plain EOF, so ReadFull passes it on.
      DeliveredError(v, err, cs, p[..n], rd.Now());
      if n > 0 && err == Some(EOF) {
        err := Some(UnexpectedEOF);
      }
    }
  }

  lemma EmptyMessage(v: View)
    requires v.frame.Some? && !Fragmented(v.state) && v.left == 0 && v.text == Utf8.Start
    ensures Drain(v) == Done([], [], v.rest)
  {
    FrameDone(v);
  }

  lemma WholeDelivered(v: View, err: Option<Error>, cs: seq<Message>, d: seq<byte>, w: View)
    requires Delivers(v, err, cs, d, w)
    requires err == Some(EOF)
    ensures Drain(v) == Done(cs, d, w.rest)
  {
  }

  lemma DeliveredError(v: View, err: Option<Error>, cs: seq<Message>, d: seq<byte>, w: View)
    requires err != None && err != Some(EOF) && Delivers(v, err, cs, d, w)
    ensures Drain(v) == Broken(cs, err.value)
  {
  }

  /** bytes.Buffer.ReadFrom(rd): everything up to the end of the message. */
  method ReadRest(rd: Reader) returns (data: seq<byte>, err: Option<Error>, ghost cs: seq<Message>)
    requires Consistent(rd.Now())
    modifies rd, rd.source, rd.cipher, rd.utf8
    ensures rd.collected == old(rd.collected) + cs
    ensures match Drain(old(rd.Now()))
            case Done(c, d, r) => err == None && c == cs && d == data && r == rd.source.rest
            case Broken(c, e) => err == Some(e) && c == cs
  {
    hide Drain, Delivers, Consistent;
    ghost var v := rd.Now();
    var buf := new byte[512];
    data, err, cs := [], None, [];
    DeliversNothing(v);
    while err == None
      invariant rd.collected == old(rd.collected) + cs
      invariant Delivers(v, err, cs, data, rd.Now())
      invariant err == None ==> Consistent(rd.Now())
      decreases err == None, |rd.source.rest|, rd.frame.Some?, rd.source.stalls
    {
      ghost var u := rd.Now();
      var n;
      ghost var cs';
      n, err, cs' := rd.Read(buf, 0, buf.Length);
      assert buf[0..0 + n] == buf[..n];
      DeliversThen(v, cs, data, u, err, cs', buf[..n], rd.Now());
      data := data + buf[..n];
      cs := cs + cs';
    }
    if err == Some(EOF) {
      WholeDelivered(v, err, cs, data, rd.Now());
      err := None;
    } else {
      DeliveredError(v, err, cs, data, rd.Now());
    }
  }

  /** ReadMessage: however the source cuts its reads, it appends to m what Receive finds in the stream, in that
      order, and leaves the source at the end of the message; or it fails with Receive's error, with the control
      messages that came first already appended. */
  method ReadMessage(r: Source, s: State, m: seq<Message>) returns (msgs: seq<Message>, err: Option<Error>)
    requires !Fragmented(s)
    modifies r
    ensures match Receive(old(r.rest), s)
            case Received(ms, rest) => err == None && msgs == m + ms && r.rest == rest
            case Lost(ms, e) => err == Some(e) && msgs == m + ms
  {
    hide Drain, Open, Fragmented;
    var rd := new Reader(r, s, true, m);
    ghost var v := rd.Now();
    FirstFrameIsOpened(v);
    OpenKeepsConsistent(v);
    FirstText(v);
    var h, e := rd.NextFrame();
    assert m + [] == m;
    if e != None {
      return m, e;
    }
    ghost var cs;
    var p: seq<byte>;
    if h.fin {
      var buf := new byte[h.length];
      err, cs := ReadWhole(rd, buf);
      p := buf[..];
    } else {
      p, err, cs := ReadRest(rd);
    }
    msgs := rd.collected;
    if err == None {
      assert (m + cs) + [Message(h.opCode, p)] == m + (cs + [Message(h.opCode, p)]);
      msgs := msgs + [Message(h.opCode, p)];
    }
  }

  lemma FirstText(v: View)
    ensures Open(v).Opened? ==> Open(v).v.text == v.text
  {
    hide Parse, CheckHeader, Unmask;
  }
}
