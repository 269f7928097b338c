/** repo/ws/wsutil/utf8.go: UTF8Reader, the automaton carried across reads. */
module Utf8Reader {
  import opened Bytes
  import opened Streams
  import opened Utf8

  /** How many bytes of s end in a whole character, when reading starts in d. */
  function LastAccept(d: Decoder, s: seq<byte>): (n: nat)
    ensures n <= |s|
  {
    if s == [] then 0
    else if Run(d, s).state == Accept then |s|
    else LastAccept(d, s[..|s| - 1])
  }

  /** The index of the byte at which the automaton first rejects. */
  function RejectAt(d: Decoder, s: seq<byte>): (r: Option<nat>)
    ensures r.Some? ==> r.value < |s|
  {
    if s == [] then None
    else
      var before := RejectAt(d, s[..|s| - 1]);
      if before.Some? then before
      else if Run(d, s).state == Reject then Some(|s| - 1) else None
  }

  /** RejectAt, one byte further. */
  lemma RejectAtStep(d: Decoder, t: seq<byte>, b: byte)
    ensures RejectAt(d, t + [b]) ==
            if RejectAt(d, t).Some? then RejectAt(d, t)
            else if Run(d, t + [b]).state == Reject then Some(|t|) else None
  {
    hide Decode, Run;
    assert (t + [b])[..|t|] == t;
  }

  lemma {:induction false} RejectedSomewhere(d: Decoder, s: seq<byte>)
    ensures RejectAt(d, s).Some? <==> s != [] && Run(d, s).state == Reject
  {
    hide Decode, Run, RejectAt;
    if s == [] {
      StartOfRun(d);
    } else {
      var t, b := s[..|s| - 1], s[|s| - 1];
      assert s == t + [b];
      RejectedSomewhere(d, t);
      RejectAtStep(d, t, b);
      RunConcat(d, t, [b]);
      if t != [] && Run(d, t).state == Reject {
        RejectStays(Run(d, t), [b]);
      }
    }
  }

  /** The rejected byte is the same one however the stream is cut. */
  lemma {:induction false} RejectAtConcat(d: Decoder, s: seq<byte>, t: seq<byte>)
    ensures RejectAt(d, s + t) == match RejectAt(d, s)
                                  case Some(i) => Some(i)
                                  case None => match RejectAt(Run(d, s), t)
                                               case None => None
                                               case Some(j) => Some(|s| + j)
  {
    hide Decode, Run;
    if t == [] {
      assert s + t == s;
    } else {
      var u := t[..|t| - 1];
      assert (s + t)[..|s + t| - 1] == s + u;
      RejectAtConcat(d, s, u);
      RunConcat(d, s, t);
    }
  }

  lemma {:induction false} NoAcceptAfterReject(d: Decoder, s: seq<byte>, t: seq<byte>)
    requires Run(d, s).state == Reject
    ensures Run(d, s + t).state == Reject && LastAccept(d, s + t) == LastAccept(d, s)
  {
    hide Decode, Run;
    if t == [] {
      assert s + t == s;
    } else {
      var u := t[..|t| - 1];
      NoAcceptAfterReject(d, s, u);
      RunConcat(d, s, t);
      RejectStays(Run(d, s), t);
      assert (s + t)[..|s + t| - 1] == s + u;
    }
  }

  lemma {:induction false} RejectedNotAccepted(d: Decoder, s: seq<byte>)
    requires Run(d, s).state != Accept && s != []
    ensures LastAccept(d, s) < |s|
  {
  }

  lemma StartOfRun(d: Decoder)
    ensures Run(d, []) == d && LastAccept(d, []) == 0 && RejectAt(d, []) == None
  {
  }

  /** One more byte of data. */
  lemma Advance(d: Decoder, data: seq<byte>, i: nat)
    requires i < |data|
    ensures Run(d, data[..i + 1]) == Decode(Run(d, data[..i]), data[i])
    ensures LastAccept(d, data[..i + 1])
            == if Run(d, data[..i + 1]).state == Accept then i + 1 else LastAccept(d, data[..i])
    ensures RejectAt(d, data[..i]) == None ==>
              RejectAt(d, data[..i + 1]) == if Run(d, data[..i + 1]).state == Reject then Some(i) else None
  {
    hide Decode;
    assert data[..i + 1][..i] == data[..i] && data[..i + 1][i] == data[i];
  }

  lemma RejectedPrefix(d: Decoder, data: seq<byte>, i: nat)
    requires i < |data| && Run(d, data[..i + 1]).state == Reject && RejectAt(d, data[..i]) == None
    ensures Run(d, data).state == Reject && LastAccept(d, data) == LastAccept(d, data[..i])
    ensures RejectAt(d, data) == Some(i)
  {
    hide Decode, Run;
    Advance(d, data, i);
    RejectAtConcat(d, data[..i + 1], data[i + 1..]);
    NoAcceptAfterReject(d, data[..i + 1], data[i + 1..]);
    assert data == data[..i + 1] + data[i + 1..];
  }

  class UTF8Reader {
    var accepted: nat
    var state: nat
    var codep: bv32

    constructor ()
      ensures Now() == Start && accepted == 0
    {
      accepted, state, codep := 0, 0, 0;
    }

    function Now(): Decoder
      reads this
    {
      Decoder(state, codep)
    }

    /** Reset keeps the count of the last read, as the source does. */
    method Reset()
      modifies this
      ensures Now() == Start && accepted == old(accepted)
    {
      state, codep := 0, 0;
    }

    predicate Valid()
      reads this
    {
      state == Accept
    }

    /** What Read does with the n bytes that its source has put into p[lo:]: it fails iff the automaton rejects one of
        them, with the count of the bytes in whole characters before that one. */
    method Check(p: array<byte>, lo: nat, n: nat) returns (m: nat, err: Option<Error>)
      requires lo + n <= p.Length
      modifies this
      ensures var data := p[lo..lo + n];
              var d := Run(old(Now()), data);
              if n > 0 && d.state == Reject then
                && err == Some(InvalidUTF8) && m == LastAccept(old(Now()), data)
                && state == Reject && codep == old(codep) && accepted == old(accepted)
              else
                && err == None && m == n
                && Now() == d && accepted == LastAccept(old(Now()), data)
      ensures var data := p[lo..lo + n];
              && (err == Some(InvalidUTF8) <==> RejectAt(old(Now()), data).Some?)
              && (err != None ==> m == LastAccept(old(Now()), data[..RejectAt(old(Now()), data).value]))
    {
      hide Decode, Run, LastAccept, RejectAt;
      ghost var data := p[lo..lo + n];
      ghost var start := Now();
      StartOfRun(start);
      var good: nat := 0;
      var d := Now();
      assert data[..0] == [] && data[..n] == data;
      for i := 0 to n
        invariant d == Run(start, data[..i]) && good == LastAccept(start, data[..i])
        invariant Now() == start && accepted == old(accepted)
        invariant (i > 0 ==> d.state != Reject) && RejectAt(start, data[..i]) == None
      {
        assert data[i] == p[lo + i];
        Advance(start, data, i);
        d := Decode(d, p[lo + i]);
        if d.state == Reject {
          RejectedPrefix(start, data, i);
          state := d.state;
          return good, Some(InvalidUTF8);
        }
        if d.state == Accept {
          good := i + 1;
        }
      }
      state, codep := d.state, d.codep;
      accepted := good;
      return n, None;
    }
  }

  lemma OneMoreChunk(d: Decoder, chunks: seq<seq<byte>>, k: nat)
    requires k < |chunks| && RejectAt(d, Joined(chunks[..k])) == None
    ensures var before, c := Joined(chunks[..k]), chunks[k];
            && Joined(chunks[..k + 1]) == before + c
            && Run(d, before + c) == Run(Run(d, before), c)
            && (RejectAt(Run(d, before), c) == None ==> RejectAt(d, before + c) == None)
            && (RejectAt(Run(d, before), c).Some? ==>
                  RejectAt(d, Joined(chunks)) == Some(|before| + RejectAt(Run(d, before), c).value))
  {
    hide Decode, Run, RejectAt;
    var before, c := Joined(chunks[..k]), chunks[k];
    assert chunks[..k + 1][..k] == chunks[..k];
    RunConcat(d, before, c);
    RejectAtConcat(d, before, c);
    JoinedPrefix(chunks, k + 1);
    var whole := Joined(chunks);
    RejectAtConcat(d, before + c, whole[|before + c|..]);
    assert whole == before + c + whole[|before + c|..];
  }

  /** Chunk independence of the object: fed in any chunks, a UTF8Reader fails in the read that holds the byte at which the
      automaton rejects the whole, or else ends in the state of a single read. k counts the reads that did not fail. */
  method Feed(u: UTF8Reader, chunks: seq<seq<byte>>) returns (k: nat, m: nat, err: Option<Error>)
    modifies u
    ensures k <= |chunks|
    ensures match RejectAt(old(u.Now()), Joined(chunks))
            case None => err == None && k == |chunks| && u.Now() == Run(old(u.Now()), Joined(chunks))
            case Some(i) => err == Some(InvalidUTF8) && k < |chunks|
                            && |Joined(chunks[..k])| <= i < |Joined(chunks[..k + 1])|
                            && m <= i - |Joined(chunks[..k])|
    ensures old(u.Now()) == Start ==> (err == None && u.Valid() <==> WellFormed(Joined(chunks)))
  {
    hide Decode, Run, RejectAt, LastAccept, WellFormed;
    k, m, err := 0, 0, None;
    ghost var d := u.Now();
    StartOfRun(d);
    AutomatonDecidesUtf8(Joined(chunks));
    RejectedSomewhere(d, Joined(chunks));
    assert chunks[..|chunks|] == chunks;
    while k < |chunks|
      invariant k <= |chunks| && err == None
      invariant u.Now() == Run(d, Joined(chunks[..k])) && RejectAt(d, Joined(chunks[..k])) == None
    {
      var c := chunks[k];
      OneMoreChunk(d, chunks, k);
      var p := new byte[|c|](i requires 0 <= i < |c| => c[i]);
      assert p[..] == c && p[0..|c|] == c;
      m, err := u.Check(p, 0, |c|);
      if err != None {
        return;
      }
      k := k + 1;
    }
  }
}
