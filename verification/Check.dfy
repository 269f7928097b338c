/** repo/ws/check.go and the opcode predicates of repo/ws/frame.go: which frames an endpoint accepts,
    and the frame sequences that this lets through (section 5.4 of RFC 6455). */
module Check {
  import opened Bytes
  import opened Streams
  import opened Header

  type State = bv8

  const StateServerSide: State := 0x1
  const StateClientSide: State := 0x2
  const StateExtended: State := 0x4
  const StateFragmented: State := 0x8

  const MaxControlFramePayloadSize := 125

  predicate Is(s: State, v: State) { s & v != 0 }

  function Set(s: State, v: State): State { s | v }

  function Clear(s: State, v: State): State { s & !v }

  predicate ServerSide(s: State) { Is(s, StateServerSide) }

  predicate ClientSide(s: State) { Is(s, StateClientSide) }

  predicate Extended(s: State) { Is(s, StateExtended) }

  predicate Fragmented(s: State) { Is(s, StateFragmented) }

  predicate IsControl(op: byte) { op & 0x8 != 0 }

  predicate IsReserved(op: byte) { 0x3 <= op <= 0x7 || 0xb <= op <= 0xf }

  predicate SameSide(s: State, t: State) {
    ServerSide(t) == ServerSide(s) && ClientSide(t) == ClientSide(s) && Extended(t) == Extended(s)
  }

  /** Setting or clearing the fragmentation flag leaves the side and the extension flag alone. */
  lemma FragmentFlag(s: State)
    ensures Fragmented(Set(s, StateFragmented)) && !Fragmented(Clear(s, StateFragmented))
    ensures SameSide(s, Set(s, StateFragmented)) && SameSide(s, Clear(s, StateFragmented))
  {
  }

  function CheckHeader(h: Header, s: State): Option<Error> {
    if IsReserved(h.opCode) then Some(Protocol(OpCodeReserved))
    else if IsControl(h.opCode) && h.length > MaxControlFramePayloadSize then Some(Protocol(ControlPayloadOverflow))
    else if IsControl(h.opCode) && !h.fin then Some(Protocol(ControlNotFinal))
    else if h.rsv != 0 && !Extended(s) then Some(Protocol(NonZeroRsv))
    else if ServerSide(s) && !h.masked then Some(Protocol(MaskRequired))
    else if ClientSide(s) && h.masked then Some(Protocol(MaskUnexpected))
    else if Fragmented(s) && !IsControl(h.opCode) && h.opCode != OpContinuation then Some(Protocol(ContinuationExpected))
    else if !Fragmented(s) && h.opCode == OpContinuation then Some(Protocol(ContinuationUnexpected))
    else None
  }

  /** The flag NextFrame leaves behind after a frame it accepted. A control frame inside a message is handled aside. */
  function NextState(h: Header, s: State): State {
    if Fragmented(s) && IsControl(h.opCode) then s
    else if h.fin then Clear(s, StateFragmented)
    else Set(s, StateFragmented)
  }

  /** The state after NextFrame has accepted every header of hs in turn, if it does. */
  function AcceptAll(s: State, hs: seq<Header>): Option<State> {
    if hs == [] then Some(s)
    else
      var n := |hs| - 1;
      match AcceptAll(s, hs[..n])
      case None => None
      case Some(t) => if CheckHeader(hs[n], t) == None then Some(NextState(hs[n], t)) else None
  }

  // ---------- section 5.4 of RFC 6455, on whole sequences ----------

  /** Before frame i a data message is open: some data frame was not final, and only control frames followed it. */
  ghost predicate OpenBefore(hs: seq<Header>, i: nat)
    requires i <= |hs|
  {
    exists j :: 0 <= j < i && !IsControl(hs[j].opCode) && !hs[j].fin
                && forall k :: j < k < i ==> IsControl(hs[k].opCode)
  }

  /** Section 5.2 to 5.5 for one frame: no reserved opcode, final and short control frames,
      reserved bits only with an extension, masked exactly as the side demands. */
  ghost predicate FrameAllowed(h: Header, s: State) {
    && !IsReserved(h.opCode)
    && (IsControl(h.opCode) ==> h.fin && h.length <= MaxControlFramePayloadSize)
    && (h.rsv != 0 ==> Extended(s))
    && (ServerSide(s) ==> h.masked)
    && (ClientSide(s) ==> !h.masked)
  }

  /** A data frame continues a message exactly when one is open; control frames may stand anywhere. */
  ghost predicate SequenceAllowed(hs: seq<Header>, s: State) {
    forall i :: 0 <= i < |hs| ==>
      FrameAllowed(hs[i], s)
      && (!IsControl(hs[i].opCode) ==> (hs[i].opCode == OpContinuation <==> OpenBefore(hs, i)))
  }

  lemma OpenBeforePrefix(hs: seq<Header>, n: nat, i: nat)
    requires i <= n <= |hs|
    ensures OpenBefore(hs[..n], i) <==> OpenBefore(hs, i)
  {
    if OpenBefore(hs, i) {
      var j :| 0 <= j < i && !IsControl(hs[j].opCode) && !hs[j].fin && forall k :: j < k < i ==> IsControl(hs[k].opCode);
      assert !IsControl(hs[..n][j].opCode) && !hs[..n][j].fin;
    }
    if OpenBefore(hs[..n], i) {
      var p := hs[..n];
      var j :| 0 <= j < i && !IsControl(p[j].opCode) && !p[j].fin && forall k :: j < k < i ==> IsControl(p[k].opCode);
      assert !IsControl(hs[j].opCode) && !hs[j].fin;
      assert forall k :: j < k < i ==> p[k] == hs[k];
    }
  }

  /** One more frame: a message is open after it iff it is an unfinished data frame or a control frame inside one. */
  lemma OpenAfter(hs: seq<Header>)
    requires |hs| > 0
    ensures var n := |hs| - 1;
            OpenBefore(hs, |hs|) <==>
              if IsControl(hs[n].opCode) then OpenBefore(hs, n) else !hs[n].fin
  {
    var n := |hs| - 1;
    if IsControl(hs[n].opCode) && OpenBefore(hs, n) {
      var j :| 0 <= j < n && !IsControl(hs[j].opCode) && !hs[j].fin && forall k :: j < k < n ==> IsControl(hs[k].opCode);
      assert forall k :: j < k < |hs| ==> IsControl(hs[k].opCode);
    }
    if OpenBefore(hs, |hs|) {
      var j :| 0 <= j < |hs| && !IsControl(hs[j].opCode) && !hs[j].fin && forall k :: j < k < |hs| ==> IsControl(hs[k].opCode);
      if j < n {
        assert IsControl(hs[n].opCode);
        assert forall k :: j < k < n ==> IsControl(hs[k].opCode);
      }
    }
  }

  /** Reader language: the header sequences that NextFrame accepts from a state with no message open are exactly
      those section 5.4 allows, and the fragmentation flag is set iff a data message is open. */
  lemma {:induction false} AcceptsExactlyTheAllowed(s: State, hs: seq<Header>)
    requires !Fragmented(s)
    ensures AcceptAll(s, hs).Some? <==> SequenceAllowed(hs, s)
    ensures match AcceptAll(s, hs)
            case None => true
            case Some(t) => (Fragmented(t) <==> OpenBefore(hs, |hs|)) && SameSide(s, t)
  {
    hide Is, Set, Clear, ServerSide, ClientSide, Extended, Fragmented, IsControl, IsReserved;
    if hs != [] {
      var n := |hs| - 1;
      var p, h := hs[..n], hs[n];
      AcceptsExactlyTheAllowed(s, p);
      PrefixAllowed(hs, s);
      OpenBeforePrefix(hs, n, n);
      OpenAfter(hs);
      if AcceptAll(s, p).Some? {
        StepAccepts(h, s, AcceptAll(s, p).value);
      }
    }
  }

  lemma PrefixAllowed(hs: seq<Header>, s: State)
    requires |hs| > 0
    ensures var n := |hs| - 1;
            SequenceAllowed(hs, s) <==>
              SequenceAllowed(hs[..n], s) && FrameAllowed(hs[n], s)
              && (!IsControl(hs[n].opCode) ==> (hs[n].opCode == OpContinuation <==> OpenBefore(hs, n)))
  {
    hide OpenBefore, FrameAllowed, IsControl;
    var n := |hs| - 1;
    forall i | 0 <= i < n
      ensures OpenBefore(hs[..n], i) <==> OpenBefore(hs, i)
    {
      OpenBeforePrefix(hs, n, i);
    }
    assert forall i :: 0 <= i < n ==> hs[..n][i] == hs[i];
  }

  lemma StepAccepts(h: Header, s: State, t: State)
    requires SameSide(s, t)
    ensures CheckHeader(h, t) == None <==>
              FrameAllowed(h, s) && (!IsControl(h.opCode) ==> (h.opCode == OpContinuation <==> Fragmented(t)))
    ensures SameSide(s, NextState(h, t))
    ensures CheckHeader(h, t) == None ==>
              (Fragmented(NextState(h, t)) <==> if IsControl(h.opCode) then Fragmented(t) else !h.fin)
  {
    hide CheckHeader, FrameAllowed, Is, Set, Clear, Fragmented, ServerSide, ClientSide, Extended;
    CheckIsTheRule(h, s, t);
    FragmentFlag(t);
  }

  lemma CheckIsTheRule(h: Header, s: State, t: State)
    requires SameSide(s, t)
    ensures CheckHeader(h, t) == None <==>
              FrameAllowed(h, s) && (!IsControl(h.opCode) ==> (h.opCode == OpContinuation <==> Fragmented(t)))
    ensures CheckHeader(h, t) == None && IsControl(h.opCode) ==> h.fin
  {
    assert !IsControl(OpContinuation);
    hide Is, Set, Clear, ServerSide, ClientSide, Extended, Fragmented, IsReserved, IsControl;
  }

  /** What a rule asks of a header. */
  ghost predicate Breaks(h: Header, s: State, r: Rule) {
    match r
    case OpCodeReserved => h.opCode in {0x3, 0x4, 0x5, 0x6, 0x7, 0xb, 0xc, 0xd, 0xe, 0xf}
    case ControlPayloadOverflow => IsControl(h.opCode) && h.length > 125
    case ControlNotFinal => IsControl(h.opCode) && !h.fin
    case NonZeroRsv => h.rsv != 0 && !Extended(s)
    case MaskRequired => ServerSide(s) && !h.masked
    case MaskUnexpected => ClientSide(s) && h.masked
    case ContinuationExpected => !IsControl(h.opCode) && h.opCode != OpContinuation && Fragmented(s)
    case ContinuationUnexpected => h.opCode == OpContinuation && !Fragmented(s)
    case _ => false
  }

  /** Of a header that is refused, the rule named is one that it breaks. */
  lemma NamedRuleIsBroken(h: Header, s: State)
    ensures CheckHeader(h, s) != None ==>
              CheckHeader(h, s).value.Protocol? && Breaks(h, s, CheckHeader(h, s).value.rule)
  {
    hide Is, ServerSide, ClientSide, Extended, Fragmented, IsControl;
  }
}
