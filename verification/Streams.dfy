/** The two ends a WebSocket endpoint reads and writes: io.Reader and io.Writer. */
module Streams {
  import opened Bytes

  datatype Option<+T> = None | Some(value: T)

  datatype Error =
    | EOF
    | UnexpectedEOF
    | NoProgress
    | SinkFailed
    | HeaderLengthMSB
    | NeedMoreData
    | NoFrameAdvance
    | InvalidUTF8
    | NotEmpty
    | ControlOverflow
    | NotControlFrame
    | Protocol(rule: Rule)
    | Closed(code: nat, reason: seq<byte>)

  /** The protocol errors of repo/ws/check.go. */
  datatype Rule =
    | OpCodeReserved
    | ControlPayloadOverflow
    | ControlNotFinal
    | NonZeroRsv
    | MaskRequired
    | MaskUnexpected
    | ContinuationExpected
    | ContinuationUnexpected
    | StatusCodeNotInUse
    | StatusCodeApplicationLevel
    | StatusCodeNoMeaning
    | StatusCodeUnknown
    | ReasonInvalidUTF8

  /** An io.Reader over a fixed byte stream. Each Read returns any number of the bytes asked for; it may
      return none without an error, but only finitely often; it may report EOF together with the last
      bytes or on a later call. */
  class Source {
    var rest: seq<byte>
    var stalls: nat

    constructor (data: seq<byte>, stalls: nat)
      ensures rest == data && this.stalls == stalls
    {
      this.rest, this.stalls := data, stalls;
    }

    /** Read(p[lo:hi]). */
    method Read(p: array<byte>, lo: nat, hi: nat) returns (n: nat, err: Option<Error>)
      requires lo <= hi <= p.Length
      modifies this, p
      ensures n <= hi - lo && n <= |old(rest)| && rest == old(rest)[n..]
      ensures p[..lo] == old(p[..lo]) && p[lo..lo + n] == old(rest)[..n]
      ensures err == None || (err == Some(EOF) && rest == [])
      ensures stalls <= old(stalls)
      ensures lo < hi && err == None ==> n > 0 || stalls < old(stalls)
    {
      var most := if hi - lo < |rest| then hi - lo else |rest|;
      n :| 0 <= n <= most;
      err := None;
      if n == 0 && lo < hi {
        if stalls > 0 {
          stalls := stalls - 1;
        } else if most == 0 {
          err := Some(EOF);
        } else {
          n := most;
        }
      }
      forall k | 0 <= k < n {
        p[lo + k] := rest[k];
      }
      rest := rest[n..];
      var early: bool := *;
      if rest == [] && early {
        err := Some(EOF);
      }
    }

    /** io.ReadFull(r, p[lo:hi]): the next hi - lo bytes, or EOF when there is none at all,
        or UnexpectedEOF when there are some but not enough. */
    method ReadFull(p: array<byte>, lo: nat, hi: nat) returns (err: Option<Error>)
      requires lo <= hi <= p.Length
      modifies this, p
      ensures stalls <= old(stalls)
      ensures p[..lo] == old(p[..lo])
      ensures hi - lo <= |old(rest)| ==>
                err == None && p[lo..hi] == old(rest)[..hi - lo] && rest == old(rest)[hi - lo..]
      ensures hi - lo > |old(rest)| ==>
                err == Some(if |old(rest)| == 0 then EOF else UnexpectedEOF) && rest == []
    {
      var n: nat := 0;
      err := None;
      ghost var r := rest;
      while n < hi - lo && err == None
        invariant n <= hi - lo && n <= |r| && rest == r[n..]
        invariant p[..lo] == old(p[..lo]) && p[lo..lo + n] == r[..n]
        invariant err == None || (err == Some(EOF) && rest == [])
        invariant stalls <= old(stalls)
        decreases err == None, hi - lo - n, stalls
      {
        ghost var before := p[..lo + n];
        var nn;
        nn, err := Read(p, lo + n, hi);
        Appended(p[..], before, lo, n, nn);
        Further(r, n, nn);
        n := n + nn;
      }
      if n >= hi - lo {
        err := None;
      } else if n > 0 {
        err := Some(UnexpectedEOF);
      }
    }
  }

  lemma Further<T>(r: seq<T>, n: nat, k: nat)
    requires n + k <= |r|
    ensures r[..n] + r[n..][..k] == r[..n + k] && r[n..][k..] == r[n + k..]
  {
  }

  /** A buffer that kept its first lo + n bytes and took nn more. */
  lemma Appended(now: seq<byte>, before: seq<byte>, lo: nat, n: nat, nn: nat)
    requires lo + n + nn <= |now| && |before| == lo + n && now[..lo + n] == before
    ensures now[..lo] == before[..lo]
    ensures now[lo..lo + n + nn] == before[lo..] + now[lo + n..lo + n + nn]
  {
  }

  /** An io.Writer as the bytes it has taken so far. A sink that is not reliable may fail at any call,
      after taking any part of what it was given. */
  class Sink {
    var data: seq<byte>
    const reliable: bool

    constructor (reliable: bool)
      ensures data == [] && this.reliable == reliable
    {
      this.data, this.reliable := [], reliable;
    }

    method Write(p: seq<byte>) returns (n: nat, err: Option<Error>)
      modifies this
      ensures n <= |p| && data == old(data) + p[..n]
      ensures err == None ==> n == |p| && data == old(data) + p
      ensures err == None || (err == Some(SinkFailed) && !reliable)
    {
      err := None;
      n := |p|;
      var fails: bool := *;
      if !reliable && fails {
        n :| 0 <= n <= |p|;
        err := Some(SinkFailed);
      }
      data := data + p[..n];
      assert p[..|p|] == p;
    }
  }
}
