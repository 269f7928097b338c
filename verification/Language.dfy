/** The frames that a run of NextFrame accepts from a stream: each one is consumed before the next is asked for. */
module Language {
  import opened Bytes
  import opened Streams
  import opened Header
  import opened Check
  import opened Frames
  import opened Reading
  import opened Reassembly
  import opened Reader
  import Discard

  /** NextFrame checks the header against the state it is in, and leaves the state that NextState says. */
  lemma OpenTakesNextState(v: View)
    ensures !Open(v).NoFrame? ==>
              CheckHeader(Open(v).hdr, v.state) == None && Open(v).v.state == NextState(Open(v).hdr, v.state)
  {
    hide Parse, CheckHeader, Unmask, Set, Clear, IsControl, Fragmented;
  }

  /** The headers that NextFrame accepts from a stream, in turn, when all of each payload is consumed. */
  function Accepted(rest: seq<byte>, s: State): seq<Header>
    decreases |rest|
  {
    match Open(Initial(rest, s, false))
    case NoFrame(_) => []
    case Aside(h, _, v) => [h] + Accepted(v.rest[Min(v.left, |v.rest|)..], v.state)
    case Opened(h, v) => [h] + Accepted(v.rest[Min(v.left, |v.rest|)..], v.state)
  }

  /** NextFrame on one Reader, again and again, each frame consumed before the next is asked for: whatever the Reader has
      come to before, and however its source cuts the reads, the headers are those. */
  method NextFrames(rd: Reader) returns (hs: seq<Header>, err: Option<Error>)
    modifies rd, rd.source, rd.cipher
    ensures hs == Accepted(old(rd.source.rest), old(rd.state)) && err != None
  {
    hide Open, Accepted;
    hs, err := [], None;
    ghost var all := Accepted(rd.source.rest, rd.state);
    assert [] + all == all;
    while true
      invariant hs + Accepted(rd.source.rest, rd.state) == all
      decreases |rd.source.rest|
    {
      ghost var v := rd.Now();
      Discard.OpenAnyway(v);
      Discard.OpenShrinks(v);
      AcceptedNext(v);
      var h;
      h, err := rd.NextFrame();
      if err != None {
        assert hs + [] == hs;
        return;
      }
      ghost var w := rd.Now();
      Discard.SkipRaw(rd);
      assert hs + ([h] + Accepted(rd.source.rest, rd.state)) == (hs + [h]) + Accepted(rd.source.rest, rd.state);
      hs := hs + [h];
    }
  }

  lemma AcceptedNext(v: View)
    ensures Open(v).NoFrame? ==> Accepted(v.rest, v.state) == []
    ensures !Open(v).NoFrame? ==>
              var w := Open(v).v;
              Accepted(v.rest, v.state) == [Open(v).hdr] + Accepted(w.rest[Min(w.left, |w.rest|)..], w.state)
  {
    hide Open;
    Discard.OpenAnyway(v);
  }

  function Headers(fs: seq<Frame>): (hs: seq<Header>)
    ensures |hs| == |fs| && forall i :: 0 <= i < |fs| ==> hs[i] == fs[i].header
  {
    if fs == [] then [] else [fs[0].header] + Headers(fs[1..])
  }

  /** AcceptAll, from the front. */
  lemma {:induction false} AcceptFront(s: State, h: Header, hs: seq<Header>)
    ensures AcceptAll(s, [h] + hs) == if CheckHeader(h, s) == None then AcceptAll(NextState(h, s), hs) else None
  {
    hide CheckHeader, NextState;
    var all := [h] + hs;
    var n := |all| - 1;
    if hs == [] {
      assert all[..n] == [];
      assert AcceptAll(s, []) == Some(s);
    } else {
      assert all[..n] == [h] + hs[..|hs| - 1] && all[n] == hs[|hs| - 1];
      AcceptFront(s, h, hs[..|hs| - 1]);
    }
  }

  /** One frame at the head of the stream. */
  lemma AcceptedFirst(f: Frame, more: seq<byte>, s: State)
    requires f.Sound()
    ensures Accepted(EncodeFrame(f) + more, s) ==
            if CheckHeader(f.header, s) == None then [f.header] + Accepted(more, NextState(f.header, s)) else []
  {
    hide Parse, EncodeFrame, CheckHeader, Unmask, Set, Clear, IsControl, Fragmented;
    var v := Initial(EncodeFrame(f) + more, s, false);
    ParseFrame(f, more);
    assert (f.payload + more)[|f.payload|..] == more && more[0..] == more;
    OpenTakesNextState(v);
  }

  lemma {:induction false} AcceptedIsAcceptAll(fs: seq<Frame>, s: State)
    requires forall i :: 0 <= i < |fs| ==> fs[i].Sound()
    ensures Accepted(EncodeAll(fs), s) == Headers(fs) <==> AcceptAll(s, Headers(fs)).Some?
    ensures Accepted(EncodeAll(fs), s) <= Headers(fs)
  {
    hide EncodeFrame, CheckHeader, NextState;
    if fs == [] {
      NothingAccepted(s);
    } else {
      var f := fs[0];
      assert EncodeAll(fs) == EncodeFrame(f) + EncodeAll(fs[1..]);
      AcceptedFirst(f, EncodeAll(fs[1..]), s);
      AcceptFront(s, f.header, Headers(fs[1..]));
      AcceptedIsAcceptAll(fs[1..], NextState(f.header, s));
    }
  }

  lemma NothingAccepted(s: State)
    ensures Accepted([], s) == []
  {
    hide CheckHeader;
  }

  /** The reader's language: of any frames encoded one behind the other, NextFrame accepts, from a state with no message
      open, the first m exactly if their headers are a sequence that section 5.4 of RFC 6455 allows. */
  lemma ReaderLanguage(fs: seq<Frame>, s: State, m: nat)
    requires !Fragmented(s) && m <= |fs| && forall i :: 0 <= i < |fs| ==> fs[i].Sound()
    ensures Headers(fs)[..m] <= Accepted(EncodeAll(fs), s) <==> SequenceAllowed(Headers(fs[..m]), s)
  {
    hide Fragmented, SequenceAllowed, EncodeFrame, AcceptAll;
    HeadersPrefix(fs, m);
    AcceptedIsAcceptAll(fs[..m], s);
    AcceptsExactlyTheAllowed(s, Headers(fs[..m]));
    AcceptedPrefix(fs, s, m);
    AcceptedIsAcceptAll(fs, s);
  }

  lemma {:induction false} HeadersPrefix(fs: seq<Frame>, m: nat)
    requires m <= |fs|
    ensures Headers(fs[..m]) == Headers(fs)[..m]
  {
  }

  /** What is accepted of the first m frames is what is accepted of all, as far as it goes. */
  lemma {:induction false} AcceptedPrefix(fs: seq<Frame>, s: State, m: nat)
    requires m <= |fs| && forall i :: 0 <= i < |fs| ==> fs[i].Sound()
    ensures Accepted(EncodeAll(fs[..m]), s) == Headers(fs[..m]) <==> Headers(fs)[..m] <= Accepted(EncodeAll(fs), s)
  {
    hide EncodeFrame, CheckHeader, NextState, Accepted, EncodeAll, Headers;
    if m == 0 {
      assert fs[..0] == [];
      NothingEncoded(s);
    } else {
      var f, t, gs := fs[0], NextState(fs[0].header, s), fs[1..];
      assert fs[..m][1..] == gs[..m - 1] && fs[..m][0] == f;
      FirstOf(fs);
      FirstOf(fs[..m]);
      AcceptedFirst(f, EncodeAll(gs), s);
      AcceptedFirst(f, EncodeAll(gs[..m - 1]), s);
      AcceptedPrefix(gs, t, m - 1);
      assert ([f.header] + Headers(gs))[..m] == [f.header] + Headers(gs)[..m - 1];
      OneBefore(f.header, Headers(gs)[..m - 1], Accepted(EncodeAll(gs), t));
      SameAfterOne(f.header, Accepted(EncodeAll(gs[..m - 1]), t), Headers(gs[..m - 1]));
    }
  }

  lemma NothingEncoded(s: State)
    ensures EncodeAll([]) == [] && Headers([]) == [] && Accepted([], s) == []
  {
    NothingAccepted(s);
  }

  lemma FirstOf(fs: seq<Frame>)
    requires fs != []
    ensures EncodeAll(fs) == EncodeFrame(fs[0]) + EncodeAll(fs[1..]) && Headers(fs) == [fs[0].header] + Headers(fs[1..])
  {
    hide EncodeFrame;
  }

  lemma SameAfterOne(h: Header, p: seq<Header>, q: seq<Header>)
    ensures [h] + p == [h] + q <==> p == q
  {
    assert ([h] + p)[1..] == p && ([h] + q)[1..] == q;
  }

  lemma OneBefore(h: Header, p: seq<Header>, q: seq<Header>)
    ensures [h] + p <= [h] + q <==> p <= q
  {
    if [h] + p <= [h] + q {
      assert ([h] + q)[..|p| + 1][1..] == q[..|p|] && ([h] + p)[1..] == p;
    }
  }
}
