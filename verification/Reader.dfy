/** repo/ws/wsutil/reader.go and helper.go: the Reader that reassembles messages, with the OnIntermediate
    callback that ReadMessage installs (read the control frame and append it to the messages). */
module Reader {
  import opened Bytes
  import opened Cipher
  import opened CipherIO
  import opened Streams
  import opened Header
  import opened Check
  import opened Frames
  import opened Utf8
  import opened Utf8Reader
  import opened Reading

  /** Which wrappers NextFrame has put around the limited reader: the chain behind r.frame. */
  datatype Chain = Chain(masked: bool, check: bool)

  class Reader {
    const source: Source
    var state: State
    const checkUTF8: bool

    var op: byte
    var frame: Option<Chain>
    var left: Length          // raw.N
    const cipher: CipherReader
    const utf8: UTF8Reader

    var collected: seq<Message>

    constructor (source: Source, state: State, checkUTF8: bool, m: seq<Message>)
      ensures this.source == source && this.state == state
      ensures this.checkUTF8 == checkUTF8
      ensures fresh(cipher) && fresh(utf8)
      ensures collected == m
      ensures Now() == Initial(source.rest, state, checkUTF8)
    {
      this.source, this.state, this.checkUTF8 := source, state, checkUTF8;
      op, frame, left, collected := 0, None, 0, m;
      cipher := new CipherReader(NoMask);
      utf8 := new UTF8Reader();
    }

    function Now(): View
      reads this, source, cipher, utf8
    {
      View(source.rest, state, checkUTF8, op,
           if frame == None then None
           else Some(Body(frame.value.masked, if frame.value.masked then cipher.mask else NoMask,
                          if frame.value.masked then cipher.pos else 0, frame.value.check)),
           left, utf8.Now())
    }

    /** LimitedReader.Read on p[lo:hi]. */
    method RawRead(p: array<byte>, lo: nat, hi: nat) returns (n: nat, err: Option<Error>)
      requires lo <= hi <= p.Length
      modifies source, `left, p
      ensures n <= hi - lo && n <= |old(source.rest)| && n <= old(left)
      ensures source.rest == old(source.rest)[n..] && left == old(left) - n
      ensures p[..lo] == old(p[..lo]) && p[lo..lo + n] == old(source.rest)[..n]
      ensures err == None || (err == Some(EOF) && (left == 0 || source.rest == []))
      ensures source.stalls <= old(source.stalls)
      ensures lo < hi && err == None ==> n > 0 || source.stalls < old(source.stalls)
    {
      if left <= 0 {
        return 0, Some(EOF);
      }
      var to := if hi - lo > left then lo + left else hi;
      n, err := source.Read(p, lo, to);
      left := left - n;
    }

    /** The deciphering layer of r.frame.Read(p[lo:hi]). */
    method PlainRead(p: array<byte>, lo: nat, hi: nat) returns (n: nat, err: Option<Error>)
      requires lo <= hi <= p.Length && frame.Some?
      modifies source, `left, cipher, p
      ensures n <= hi - lo && n <= |old(source.rest)| && n <= old(left)
      ensures p[..lo] == old(p[..lo]) && p[lo..lo + n] == Take(old(Now()), n)
      ensures Now() == Forward(old(Now()), n)
      ensures err == None || (err == Some(EOF) && (left == 0 || source.rest == []))
      ensures source.stalls <= old(source.stalls)
      ensures lo < hi && err == None ==> n > 0 || source.stalls < old(source.stalls)
    {
      hide Masked;
      n, err := RawRead(p, lo, hi);
      if frame.value.masked {
        ghost var head := p[..lo];
        cipher.Unmask(p, lo, n);
      }
    }

    /** The UTF-8 layer of r.frame.Read(p[lo:hi]); k counts the bytes taken from the source. */
    method FrameRead(p: array<byte>, lo: nat, hi: nat) returns (n: nat, err: Option<Error>, ghost k: nat)
      requires lo <= hi <= p.Length && frame.Some?
      modifies source, `left, cipher, utf8, p
      ensures k <= hi - lo && k <= |old(source.rest)| && k <= old(left)
      ensures p[..lo] == old(p[..lo]) && source.stalls <= old(source.stalls)
      ensures Rejects(old(Now()), k) ==> err == Some(InvalidUTF8) && n < k
      ensures !Rejects(old(Now()), k) ==>
                && n == k && p[lo..lo + n] == Take(old(Now()), n) && Now() == Skip(old(Now()), n)
                && (err == None || (err == Some(EOF) && (left == 0 || source.rest == [])))
                && (lo < hi && err == None ==> n > 0 || source.stalls < old(source.stalls))
      ensures !Rejects(old(Now()), k) && frame.value.check && utf8.state != Accept ==>
                utf8.accepted < n || n == utf8.accepted == 0
    {
      hide Take, Run, LastAccept;
      ghost var v := Now();
      n, err := PlainRead(p, lo, hi);
      k := n;
      if frame.value.check {
        LastAcceptBelow(v.text, Take(v, n));
        var m, e := utf8.Check(p, lo, n);
        if e != None {
          return m, e, k;
        }
      }
    }

    /** The callback on a control frame: ReadAll of its payload, deciphered. */
    method ReadAside(h: Header) returns (bts: seq<byte>)
      modifies source, `left
      ensures var k := Min(old(left), |old(source.rest)|);
              bts == Unmask(h, old(source.rest)[..k]) && source.rest == old(source.rest)[k..] && left == old(left) - k
      ensures source.stalls <= old(source.stalls)
    {
      hide Masked;
      ghost var r := source.rest;
      var c := new CipherReader(h.mask);
      var buf := new byte[512];
      bts := [];
      MaskedConcat([], [], h.mask, 0);
      var e: Option<Error> := None;
      while e == None
        invariant |bts| <= |r| && |bts| <= old(left)
        invariant source.rest == r[|bts|..] && left == old(left) - |bts|
        invariant bts == Unmask(h, r[..|bts|])
        invariant c.mask == h.mask && (h.masked ==> c.pos == |bts|)
        invariant e == None || left == 0 || source.rest == []
        invariant source.stalls <= old(source.stalls)
        decreases e == None, left, source.stalls
      {
        var n;
        n, e := RawRead(buf, 0, buf.Length);
        ghost var k := |bts|;
        assert r[..k + n] == r[..k] + buf[..n];
        if h.masked {
          MaskedConcat(r[..k], buf[..n], h.mask, 0);
          c.Unmask(buf, 0, n);
        }
        bts := bts + buf[..n];
      }
    }

    method NextFrame() returns (h: Header, err: Option<Error>)
      modifies this, source, cipher
      ensures source.stalls <= old(source.stalls)
      ensures match Open(old(Now()))
              case NoFrame(e) => err == Some(e) && collected == old(collected)
              case Aside(g, m, v) => err == None && h == g && collected == old(collected) + [m] && Now() == v
              case Opened(g, v) => err == None && h == g && collected == old(collected) && Now() == v
    {
      hide Parse, CheckHeader, OpenBody, Fragmented;
      h, err := ReadHeader(source);
      if err == Some(EOF) && Fragmented(state) {
        err := Some(UnexpectedEOF);
      }
      if err == None {
        err := CheckHeader(h, state);
      }
      if err != None {
        return;
      }
      ghost var v := Now();
      OpenBodyIgnores(old(Now()), v, h);
      OpenFrame(h);
    }

    /** NextFrame once the header has been read and accepted. */
    method OpenFrame(h: Header)
      modifies this, source, cipher
      ensures source.stalls <= old(source.stalls)
      ensures var o := OpenBody(old(Now()), h, old(source.rest));
              Now() == o.v && collected == if o.Aside? then old(collected) + [o.msg] else old(collected)
    {
      hide Unmask, Fragmented, Clear, Set, IsControl, OpenBody;
      BodyOf(Now(), h, source.rest);
      left := h.length;
      if Fragmented(state) {
        if IsControl(h.opCode) {
          var bts := ReadAside(h);
          collected := collected + [Message(h.opCode, bts)];
          return;
        }
      } else {
        op := h.opCode;
      }
      OpenData(h);
    }

    /** A data frame, or the only frame of its message: put the readers on top of each other. */
    method OpenData(h: Header)
      requires left == h.length
      modifies `frame, `state, cipher
      ensures Now() == old(Now()).(frame := Now().frame, state := state)
      ensures state == if h.fin then Clear(old(state), StateFragmented) else Set(old(state), StateFragmented)
      ensures Now().frame == Some(Body(h.masked, if h.masked then h.mask else NoMask, 0,
                                       checkUTF8 && (h.opCode == OpText || (Fragmented(old(state)) && op == OpText))))
    {
      hide Fragmented, Clear, Set;
      var check := checkUTF8 && (h.opCode == OpText || (Fragmented(state) && op == OpText));
      if h.masked {
        cipher.Reset(h.mask);
      }
      frame := Some(Chain(h.masked, check));
      state := if h.fin then Clear(state, StateFragmented) else Set(state, StateFragmented);
    }

    /** Read(p[lo:hi]) once NextFrame has been called: some bytes of the message, or its end, or why it is broken.
        cs are the control messages met during this call. Whatever the call takes in, the outcome of the message
        that Drain foretold before the call is the one it foretells after it, behind what this call delivered. */
    method Read(p: array<byte>, lo: nat, hi: nat) returns (n: nat, err: Option<Error>, ghost cs: seq<Message>)
      requires lo <= hi <= p.Length && Consistent(Now())
      modifies this, source, cipher, utf8, p
      ensures n <= hi - lo && p[..lo] == old(p[..lo])
      ensures collected == old(collected) + cs
      ensures Delivers(old(Now()), err, cs, p[lo..lo + n], Now())
      ensures err != None && err != Some(EOF) && lo < hi ==> n < hi - lo || (err == Some(UnexpectedEOF) && left > 0)
      ensures err == None ==> Consistent(Now())
      ensures err == None && lo < hi ==> Progress(old(Now()), old(source.stalls), Now(), source.stalls)
      ensures old(frame).Some? ==>
                && (err == None && !Fragmented(old(state)) ==> frame.Some? && 0 < left == old(left) - n && state == old(state))
                && (err == Some(EOF) ==> n == old(left))
                && (err == Some(UnexpectedEOF) ==> 0 < left == old(left) - n)
    {
      hide Consistent, Delivers, Drain, Open, Fragmented;
      cs := [];
      ghost var v := Now();
      if frame == None {
        if !Fragmented(state) {
          NoAdvance(v, v);
          assert p[lo..lo + 0] == [];
          return 0, Some(NoFrameAdvance), [];
        }
        assert v.frame == None;
        OpeningDelivers(v, v);
        OpenKeepsConsistent(v);
        var h, e := NextFrame();
        n, err := 0, e;
        assert p[lo..lo + 0] == [];
        if e != None {
          DeliversError(v, e, v, Now());
          return;
        }
        if frame == None {
          cs := [Open(v).msg];
          return;
        }
        assert Open(v).Opened? by { OpenShape(v); }
      }
      ghost var u := Now();
      n, err := ReadBody(p, lo, hi);
      DeliversFrom(u, v, err, p[lo..lo + n], Now());
    }

    /** The part of Read below NextFrame: read from the frame, then decide whether the frame, the message or
        the stream has ended. */
    method ReadBody(p: array<byte>, lo: nat, hi: nat) returns (n: nat, err: Option<Error>)
      requires lo <= hi <= p.Length && frame.Some? && Consistent(Now())
      modifies this, source, cipher, utf8, p
      ensures n <= hi - lo && p[..lo] == old(p[..lo]) && collected == old(collected)
      ensures Delivers(old(Now()), err, [], p[lo..lo + n], Now())
      ensures err != None && err != Some(EOF) && lo < hi ==> n < hi - lo || (err == Some(UnexpectedEOF) && left > 0)
      ensures err == None ==> Consistent(Now())
      ensures err == None && lo < hi ==> Progress(old(Now()), old(source.stalls), Now(), source.stalls)
      ensures err == None && !Fragmented(old(state)) ==> frame.Some? && 0 < left == old(left) - n && state == old(state)
      ensures err == Some(EOF) ==> n == old(left)
      ensures err == Some(UnexpectedEOF) ==> 0 < left == old(left) - n
    {
      hide Progress, Take, Run, Drain, TextAfter, Rejects, Skip, Fragmented, Consistent, Delivers;
      ghost var v := Now();
      ghost var k;
      n, err, k := FrameRead(p, lo, hi);
      if err != None && err != Some(EOF) {
        BrokenOff(v, k, p[lo..lo + n], Now());
        return;
      }
      SkipShape(v, n);
      ghost var d, n0 := p[lo..lo + n], n;
      n, err := Settle(n, err, v, d);
      assert p[lo..lo + n] == d[..n];
      if err == None && lo < hi {
        Advances(v, n0, old(source.stalls), Now(), source.stalls);
      }
    }

    /** The switch at the end of Read. */
    method Settle(n0: nat, err0: Option<Error>, ghost v: View, ghost d: seq<byte>) returns (n: nat, err: Option<Error>)
      requires v.frame.Some? && n0 <= v.left && n0 <= |v.rest| && !Rejects(v, n0) && Consistent(v)
      requires Now() == Skip(v, n0) && d == Take(v, n0)
      requires err0 == None || (err0 == Some(EOF) && (left == 0 || source.rest == []))
      requires frame.Some? && frame.value.check && utf8.state != Accept ==> utf8.accepted < n0 || n0 == utf8.accepted == 0
      modifies `left, `frame, `op, utf8
      ensures n <= n0 && Delivers(v, err, [], d[..n], Now())
      ensures err == None ==> Consistent(Now()) && n == n0
      ensures err == None ==> (err0 == None && Now() == old(Now())) || Now() == CloseFragment(old(Now()))
      ensures err != None && err != Some(EOF) ==> n < n0 || n0 == 0 || (err == Some(UnexpectedEOF) && left > 0)
      ensures err == None && !Fragmented(old(state)) ==> frame.Some? && 0 < left == old(left) && state == old(state)
      ensures err == Some(EOF) ==> old(left) == 0 && n == n0
      ensures err == Some(UnexpectedEOF) ==> 0 < left == old(left) && n == n0
    {
      hide Take, Run, TextAfter, Rejects, Skip, Fragmented, Consistent, Delivers;
      ghost var w := Now();
      n, err := n0, err0;
      assert d[..n0] == d;
      Verdict(v, n);
      SkipShape(v, n);
      ReadingKeepsConsistent(v, n);
      if err == None && left != 0 {
        return;
      }
      if left != 0 {
        err := Some(UnexpectedEOF);
      } else if Fragmented(state) {
        err := None;
        left, frame := 0, None;
        assert Now() == CloseFragment(w);
      } else if checkUTF8 && !utf8.Valid() {
        n := utf8.accepted;
        err := Some(InvalidUTF8);
        DeliversBroken(v, InvalidUTF8, d, d[..n], w);
      } else {
        left, frame, op := 0, None, 0;
        utf8.state, utf8.codep, utf8.accepted := 0, 0, 0;
        err := Some(EOF);
        DeliversDone(v, d, w, Now());
      }
    }
  }

  lemma LastAcceptBelow(d: Decoder, s: seq<byte>)
    ensures s != [] && Run(d, s).state != Accept ==> LastAccept(d, s) < |s|
    ensures s == [] ==> LastAccept(d, s) == 0 && Run(d, s) == d
  {
    if s != [] && Run(d, s).state != Accept {
      RejectedNotAccepted(d, s);
    }
  }
}
