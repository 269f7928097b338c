/** What authenticating comes to, in any run of the system of Registry: setAuthed registers a connection under its
    session's alias and topics, and each business's topic index is what the run has done to it. */
module Sessions {
  import Streams
  import opened TopicIndex
  import opened Registry

  // ---------- setAuthed ----------

  /** The system after some more steps. */
  function Run(s: System, steps: seq<Registry.Step>): System {
    if steps == [] then s else Do(Run(s, steps[..|steps| - 1]), steps[|steps| - 1])
  }

  predicate GoesOn(step: Registry.Step, c: Conn) { step.Go? && step.conn == c }

  /** How often c's goroutine has gone on. */
  function Goes(steps: seq<Registry.Step>, c: Conn): nat {
    if steps == [] then 0 else Goes(steps[..|steps| - 1], c) + (if GoesOn(steps[|steps| - 1], c) then 1 else 0)
  }

  /** The alias is listed under each topic of the session, since now, and its hub holds the connection. */
  ghost predicate Enlisted(s: System, c: Conn, session: Session, now: int) {
    && session.business in s.groups && c in HubConns(s, session.business, session.alias)
    && forall t :: t in session.topics ==>
         Listed(s.groups[session.business].index, session.alias, t)
         && Row(s.groups[session.business].index.topics, t)[session.alias] == now
  }

  /** That was so right after step i, which was addAliasConn for c. */
  ghost predicate EnlistedAt(s: System, c: Conn, session: Session, steps: seq<Registry.Step>, i: nat)
    requires i < |steps|
  {
    && GoesOn(steps[i], c) && LocalOf(Run(s, steps[..i]), c).phase == AuthAlias
    && Enlisted(Run(s, steps[..i + 1]), c, session, steps[i].now)
  }

  ghost predicate HasEnlisted(s: System, c: Conn, session: Session, steps: seq<Registry.Step>) {
    exists i :: 0 <= i < |steps| && EnlistedAt(s, c, session, steps, i)
  }

  /** setAuthed on its way: it has n steps left at most, or is done. */
  ghost predicate OnItsWay(l: Local, session: Session, enlisted: bool, n: int) {
    && l.state == Authed && l.session == Streams.Some(session)
    && (l.phase in {AuthLoad, AuthMake, AuthId, AuthAlias} ==> Rank(l.phase) <= n)
    && (l.phase == AuthConns ==> enlisted && Rank(l.phase) <= n)
    && (l.phase == Idle ==> enlisted && l.grouped)
    && l.phase in {Idle, AuthLoad, AuthMake, AuthId, AuthAlias, AuthConns}
  }

  lemma {:induction false} RunKeeps(s: System, steps: seq<Registry.Step>)
    requires Inv(s)
    ensures Inv(Run(s, steps))
  {
    if steps == [] {
    } else {
      hide Inv, Do;
      RunKeeps(s, steps[..|steps| - 1]);
      StepKeeps(Run(s, steps[..|steps| - 1]), steps[|steps| - 1]);
    }
  }

  lemma StillEnlisted(s: System, c: Conn, session: Session, steps: seq<Registry.Step>)
    requires steps != [] && HasEnlisted(s, c, session, steps[..|steps| - 1])
    ensures HasEnlisted(s, c, session, steps)
  {
    hide Enlisted, Run;
    var before := steps[..|steps| - 1];
    var i: nat :| i < |before| && EnlistedAt(s, c, session, before, i);
    assert before[..i] == steps[..i] && before[..i + 1] == steps[..i + 1];
    assert EnlistedAt(s, c, session, steps, i);
  }

  /** addAliasConn puts the alias down under all its topics. */
  lemma AliasEnlists(s: System, c: Conn, now: int, ok: bool, session: Session)
    requires Inv(s) && c in s.conns && s.conns[c].phase == AuthAlias && s.conns[c].session == Streams.Some(session)
    ensures Enlisted(Do(s, Go(c, now, ok)), c, session, now)
  {
    hide IdsRight, HubsRight, AllRight, TwoWay, IndicesTwoWay, TopicIndex.Put;
    SoundConn(s, c);
    var g := s.groups[session.business].index;
    forall t | t in session.topics
      ensures session.alias in Row(TopicIndex.Put(g.topics, session.alias, session.topics, now), t)
           && Row(TopicIndex.Put(g.topics, session.alias, session.topics, now), t)[session.alias] == now
    {
      PutListed(g.topics, session.alias, session.topics, now, session.alias, t);
    }
  }

  /** What others do does not change c's record. */
  lemma Untouched(s: System, step: Registry.Step, c: Conn)
    requires c in s.conns && !GoesOn(step, c) && step != Close(c)
    requires s.conns[c].state == Init ==> !(step.SetAuthed? && step.conn == c)
    ensures c in Do(s, step).conns && Do(s, step).conns[c] == s.conns[c]
  {
    hide Continue, Added, Removed, Subscribed, Unsubscribed, Moved;
    if step.Go? && step.conn in s.conns && s.conns[step.conn].session.Some? {
      OnlyItsOwn(s, step.conn, s.conns[step.conn], s.conns[step.conn].session.value, step.now, step.ok, c);
    }
  }

  lemma OwnStep(s: System, c: Conn, now: int, session: Session, enlisted: bool, n: int)
    requires c in s.conns && OnItsWay(s.conns[c], session, enlisted, n)
    requires s.conns[c].phase in {AuthAlias, AuthConns} ==> session.business in s.groups
    requires s.conns[c].phase in {AuthId, AuthAlias, AuthConns} ==> s.conns[c].grouped
    ensures c in Do(s, Go(c, now, true)).conns
    ensures OnItsWay(Do(s, Go(c, now, true)).conns[c], session, enlisted || s.conns[c].phase == AuthAlias, n - 1)
  {
    hide Added, Removed, Moved;
  }

  /** Any step but c's Close: only c's own goroutine brings it further, and each of its steps does. */
  lemma OneStepOn(s: System, step: Registry.Step, c: Conn, session: Session, enlisted: bool, n: int)
    requires Inv(s) && c in s.conns && OnItsWay(s.conns[c], session, enlisted, n)
    requires step != Close(c) && (GoesOn(step, c) ==> step.ok)
    ensures c in Do(s, step).conns
    ensures OnItsWay(Do(s, step).conns[c], session, enlisted || (GoesOn(step, c) && s.conns[c].phase == AuthAlias),
                     if GoesOn(step, c) then n - 1 else n)
  {
    hide Do, IdsRight, HubsRight, AllRight, IndicesTwoWay, Lawful, Answered;
    SoundConn(s, c);
    if GoesOn(step, c) {
      OwnStep(s, c, step.now, session, enlisted, n);
    } else {
      Untouched(s, step, c);
    }
  }

  lemma {:induction false} StaysOnItsWay(s: System, c: Conn, session: Session, steps: seq<Registry.Step>)
    requires Inv(s) && c in s.conns && OnItsWay(s.conns[c], session, false, 5)
    requires forall i :: 0 <= i < |steps| ==> steps[i] != Close(c) && (GoesOn(steps[i], c) ==> steps[i].ok)
    ensures c in Run(s, steps).conns
    ensures OnItsWay(Run(s, steps).conns[c], session, HasEnlisted(s, c, session, steps), 5 - Goes(steps, c))
  {
    hide Inv, Do, OnItsWay, Enlisted, HasEnlisted;
    if steps == [] {
      MoreEnlisted(s.conns[c], session, false, HasEnlisted(s, c, session, steps), 5);
    } else {
      var before, step := steps[..|steps| - 1], steps[|steps| - 1];
      var s1 := Run(s, before);
      StaysOnItsWay(s, c, session, before);
      RunKeeps(s, before);
      OneStepOn(s1, step, c, session, HasEnlisted(s, c, session, before), 5 - Goes(before, c));
      if GoesOn(step, c) && s1.conns[c].phase == AuthAlias {
        JustEnlisted(s, c, session, steps, HasEnlisted(s, c, session, before), 5 - Goes(before, c));
      }
      if HasEnlisted(s, c, session, before) {
        StillEnlisted(s, c, session, steps);
      }
      MoreEnlisted(Do(s1, step).conns[c], session,
                   HasEnlisted(s, c, session, before) || (GoesOn(step, c) && s1.conns[c].phase == AuthAlias),
                   HasEnlisted(s, c, session, steps), 5 - Goes(steps, c));
    }
  }

  lemma MoreEnlisted(l: Local, session: Session, enlisted: bool, enlisted': bool, n: int)
    requires OnItsWay(l, session, enlisted, n) && (enlisted ==> enlisted')
    ensures OnItsWay(l, session, enlisted', n)
  {
  }

  lemma JustEnlisted(s: System, c: Conn, session: Session, steps: seq<Registry.Step>, enlisted: bool, n: int)
    requires steps != [] && GoesOn(steps[|steps| - 1], c) && Inv(Run(s, steps[..|steps| - 1]))
    requires c in Run(s, steps[..|steps| - 1]).conns && Run(s, steps[..|steps| - 1]).conns[c].phase == AuthAlias
    requires OnItsWay(Run(s, steps[..|steps| - 1]).conns[c], session, enlisted, n)
    ensures HasEnlisted(s, c, session, steps)
  {
    hide Inv, Enlisted, Do;
    var i := |steps| - 1;
    AliasEnlists(Run(s, steps[..i]), c, steps[i].now, steps[i].ok, session);
    assert steps[..i + 1] == steps;
    assert EnlistedAt(s, c, session, steps, i);
  }

  /** setAuthed authenticates: from any state in which c is new and its lock is free, once its goroutine has gone on five
      times, whatever other connections do in between, c is authenticated and registered, by its ID, in the hub of its
      session's alias and among all connections of its business, and its addAliasConn has put the alias down under every
      topic of the session. It is assumed that making a group manager succeeds and that c is not closed. */
  lemma SetAuthedRegisters(s: System, c: Conn, session: Session, steps: seq<Registry.Step>)
    requires Inv(s) && c in s.conns && s.conns[c].phase == Idle && s.conns[c].state == Init
    requires forall i :: 0 <= i < |steps| ==> steps[i] != Close(c) && (GoesOn(steps[i], c) ==> steps[i].ok)
    requires Goes(steps, c) >= 5
    ensures
      var s0 := Do(s, SetAuthed(c, session));
      var s' := Run(s0, steps);
      && c in s'.conns && Settled(s'.conns[c]) && s'.conns[c].grouped && s'.conns[c].session == Streams.Some(session)
      && Found(s'.connectionIDToConnMap, c) && c in HubConns(s', session.business, session.alias)
      && Found(AllConns(s', session.business), c)
      && HasEnlisted(s0, c, session, steps)
  {
    hide Sound, HasEnlisted, IdsRight, HubsRight, AllRight, IndicesTwoWay, LocalsSound;
    var s0 := Do(s, SetAuthed(c, session));
    StepKeeps(s, SetAuthed(c, session));
    InvSound(s, c);
    NotBefore(s, c);
    StaysOnItsWay(s0, c, session, steps);
    RunKeeps(s0, steps);
    WhereSettled(Run(s0, steps), c, session);
  }

  lemma NotBefore(s: System, c: Conn)
    requires Inv(s) && c in s.conns && s.conns[c].state == Init
    ensures !s.conns[c].grouped
  {
    hide IdsRight, HubsRight, AllRight, IndicesTwoWay, Lawful, Answered;
    SoundConn(s, c);
  }

  lemma WhereSettled(s: System, c: Conn, session: Session)
    requires Inv(s) && c in s.conns && Settled(s.conns[c]) && s.conns[c].grouped
    requires s.conns[c].session == Streams.Some(session)
    ensures Found(s.connectionIDToConnMap, c) && c in HubConns(s, session.business, session.alias)
    ensures Found(AllConns(s, session.business), c)
  {
    assert LocalOf(s, c) == s.conns[c];
  }

  // ---------- Close ----------

  /** Close on its way: it has n steps left at most, or is done. */
  predicate OnItsWayOut(l: Local, n: int) {
    || (l.phase == Idle && l.state == ConnState.Closed)
    || (l.phase in {CloseId, CloseLoad, CloseMake, CloseAlias, CloseConns, CloseEnd} && Rank(l.phase) <= n)
  }

  lemma OneStepOut(s: System, step: Registry.Step, c: Conn, n: int)
    requires Inv(s) && c in s.conns && OnItsWayOut(s.conns[c], n)
    ensures c in Do(s, step).conns && OnItsWayOut(Do(s, step).conns[c], if GoesOn(step, c) then n - 1 else n)
  {
    hide IdsRight, HubsRight, AllRight, IndicesTwoWay, Lawful, Answered, Continue;
    SoundConn(s, c);
    if GoesOn(step, c) {
      if s.conns[c].session.Some? {
        OwnStepOut(s, c, step.now, step.ok, n);
      }
    } else if step != Close(c) {
      hide Do;
      Untouched(s, step, c);
    }
  }

  lemma OwnStepOut(s: System, c: Conn, now: int, ok: bool, n: int)
    requires c in s.conns && OnItsWayOut(s.conns[c], n) && s.conns[c].session.Some?
    requires s.conns[c].phase in {CloseAlias, CloseConns} ==> s.conns[c].session.value.business in s.groups
    requires s.conns[c].phase == CloseEnd ==> s.conns[c].state == Closing
    ensures c in Do(s, Go(c, now, ok)).conns && OnItsWayOut(Do(s, Go(c, now, ok)).conns[c], n - 1)
  {
    hide Added, Removed;
  }

  lemma {:induction false} StaysOnItsWayOut(s: System, c: Conn, steps: seq<Registry.Step>, n: int)
    requires Inv(s) && c in s.conns && OnItsWayOut(s.conns[c], n)
    ensures c in Run(s, steps).conns && OnItsWayOut(Run(s, steps).conns[c], n - Goes(steps, c))
  {
    hide Inv, Do, OnItsWayOut;
    if steps == [] {
    } else {
      var before := steps[..|steps| - 1];
      StaysOnItsWayOut(s, c, before, n);
      RunKeeps(s, before);
      OneStepOut(Run(s, before), steps[|steps| - 1], c, n - Goes(before, c));
    }
  }

  /** Close closes: from any state in which c is not closed and its lock is free, once its goroutine has gone on six times,
      whatever happens in between and whether or not a group manager can be made, c is closed, its first Close has returned
      nil, and it is registered nowhere. */
  lemma CloseCloses(s: System, c: Conn, steps: seq<Registry.Step>, b: string, a: string)
    requires Inv(s) && c in s.conns && s.conns[c].phase == Idle && s.conns[c].state != ConnState.Closed
    requires Goes(steps, c) >= 6
    ensures
      var s' := Run(Do(s, Close(c)), steps);
      && c in s'.conns && s'.conns[c].state == ConnState.Closed && s'.conns[c].phase == Idle
      && s'.conns[c].answers != [] && s'.conns[c].answers[0]
      && !Found(s'.connectionIDToConnMap, c) && c !in HubConns(s', b, a) && !Found(AllConns(s', b), c)
  {
    hide IdsRight, HubsRight, AllRight, IndicesTwoWay, LocalsSound, Lawful, Run;
    var s0 := Do(s, Close(c));
    InvSound(s, c);
    StepKeeps(s, Close(c));
    StaysOnItsWayOut(s0, c, steps, 6);
    RunKeeps(s0, steps);
    InvSound(Run(s0, steps), c);
    WhereClosed(Run(s0, steps), c, b, a);
  }

  lemma WhereClosed(s: System, c: Conn, b: string, a: string)
    requires Inv(s) && c in s.conns && s.conns[c].state == ConnState.Closed && s.conns[c].phase == Idle
    ensures !Found(s.connectionIDToConnMap, c) && c !in HubConns(s, b, a) && !Found(AllConns(s, b), c)
  {
    assert LocalOf(s, c) == s.conns[c];
  }

  // ---------- which connections and group managers there are ----------

  /** Step i opens c: no connection with its ID has been opened before. */
  ghost predicate OpensConn(steps: seq<Registry.Step>, i: nat, c: Conn)
    requires i < |steps|
  {
    steps[i] == Open(c) && forall k :: 0 <= k < i && steps[k].Open? ==> steps[k].conn.connectionID != c.connectionID
  }

  lemma ConnsStep(s: System, step: Registry.Step, c: Conn)
    ensures c in Do(s, step).conns <==>
              c in s.conns
              || (step == Open(c) && forall d :: d in s.conns ==> d.connectionID != c.connectionID)
  {
    hide Added, Removed, Subscribed, Unsubscribed, Moved, Continue;
    if step.Go? && step.conn in s.conns && s.conns[step.conn].session.Some? {
      OnlyItsOwn(s, step.conn, s.conns[step.conn], s.conns[step.conn].session.value, step.now, step.ok, c);
      GoKeepsSession(s, step.conn, s.conns[step.conn], s.conns[step.conn].session.value, step.now, step.ok);
    }
  }

  /** An ID that has been opened is somebody's. */
  lemma {:induction false} IdTaken(steps: seq<Registry.Step>, k: nat) returns (d: Conn)
    requires k < |steps| && steps[k].Open?
    ensures d in Registry.After(steps).conns && d.connectionID == steps[k].conn.connectionID
  {
    hide Do;
    var n := |steps| - 1;
    var s := Registry.After(steps[..n]);
    if k < n {
      d := IdTaken(steps[..n], k);
      ConnsStep(s, steps[n], d);
    } else {
      d := steps[k].conn;
      ConnsStep(s, steps[n], d);
      if x :| x in s.conns && x.connectionID == d.connectionID {
        d := x;
        ConnsStep(s, steps[n], d);
      }
    }
  }

  /** A connection has been opened. */
  lemma {:induction false} WasOpened(steps: seq<Registry.Step>, d: Conn) returns (k: nat)
    requires d in Registry.After(steps).conns
    ensures k < |steps| && steps[k] == Open(d)
  {
    hide Do;
    var n := |steps| - 1;
    ConnsStep(Registry.After(steps[..n]), steps[n], d);
    if d in Registry.After(steps[..n]).conns {
      k := WasOpened(steps[..n], d);
    } else {
      k := n;
    }
  }

  lemma LastOpens(steps: seq<Registry.Step>, c: Conn)
    requires steps != []
    ensures var n := |steps| - 1;
            c in Registry.After(steps).conns <==> c in Registry.After(steps[..n]).conns || OpensConn(steps, n, c)
  {
    hide Do;
    var n := |steps| - 1;
    var s := Registry.After(steps[..n]);
    ConnsStep(s, steps[n], c);
    if steps[n] == Open(c) {
      if d :| d in s.conns && d.connectionID == c.connectionID {
        var k := WasOpened(steps[..n], d);
        assert steps[k].Open?;
      }
      if k: nat :| k < n && steps[k].Open? && steps[k].conn.connectionID == c.connectionID {
        var d := IdTaken(steps[..n], k);
      }
    }
  }

  /** The connections are those that have been opened. */
  lemma {:induction false} ConnsAreOpened(steps: seq<Registry.Step>, c: Conn)
    ensures c in Registry.After(steps).conns <==> exists i :: 0 <= i < |steps| && OpensConn(steps, i, c)
  {
    if steps == [] {
    } else {
      hide Registry.After, OpensConn;
      var n := |steps| - 1;
      ConnsAreOpened(steps[..n], c);
      LastOpens(steps, c);
      forall i | 0 <= i < n
        ensures OpensConn(steps[..n], i, c) <==> OpensConn(steps, i, c)
      {
        OpensConnPrefix(steps, i, n, c);
      }
    }
  }

  lemma OpensConnPrefix(steps: seq<Registry.Step>, i: nat, n: nat, c: Conn)
    requires i < n <= |steps|
    ensures OpensConn(steps[..n], i, c) <==> OpensConn(steps, i, c)
  {
    assert forall k :: 0 <= k <= i ==> steps[..n][k] == steps[k];
  }

  /** A step that makes business b's group manager, if there is none. */
  predicate Makes(s: System, step: Registry.Step, b: string) {
    || step == MakeGroup(b)
    || (step.Go? && step.ok && step.conn in s.conns && AtBusiness(s.conns[step.conn], b)
        && s.conns[step.conn].phase in {AuthMake, CloseMake})
  }

  lemma GroupsStep(s: System, step: Registry.Step, b: string)
    ensures b in Do(s, step).groups <==> b in s.groups || Makes(s, step, b)
  {
    hide Added, Removed, Subscribed, Unsubscribed, Moved, Continue;
    if step.Go? && step.conn in s.conns && s.conns[step.conn].session.Some? {
      GroupsGo(s, step.conn, s.conns[step.conn], s.conns[step.conn].session.value, step.now, step.ok, b);
    }
  }

  lemma GroupsGo(s: System, c: Conn, l: Local, session: Session, now: int, ok: bool, b: string)
    ensures b in Continue(s, c, l, session, now, ok).groups <==>
              b in s.groups || (ok && session.business == b && l.phase in {AuthMake, CloseMake})
  {
    hide Added, Removed, Moved;
  }

  /** The group managers are those that have been made, once and for all. */
  lemma {:induction false} GroupsAreMade(steps: seq<Registry.Step>, b: string)
    ensures b in Registry.After(steps).groups <==> exists i :: 0 <= i < |steps| && MakesAt(steps, i, b)
  {
    if steps == [] {
    } else {
      hide Registry.After, MakesAt;
      var n := |steps| - 1;
      GroupsAreMade(steps[..n], b);
      LastMakes(steps, b);
      forall i | 0 <= i < n
        ensures MakesAt(steps[..n], i, b) <==> MakesAt(steps, i, b)
      {
        MakesAtPrefix(steps, i, n, b);
      }
    }
  }

  ghost predicate MakesAt(steps: seq<Registry.Step>, i: nat, b: string)
    requires i < |steps|
  {
    Makes(Registry.After(steps[..i]), steps[i], b)
  }

  lemma MakesAtPrefix(steps: seq<Registry.Step>, i: nat, n: nat, b: string)
    requires i < n <= |steps|
    ensures MakesAt(steps[..n], i, b) <==> MakesAt(steps, i, b)
  {
    assert steps[..n][..i] == steps[..i];
  }

  lemma LastMakes(steps: seq<Registry.Step>, b: string)
    requires steps != []
    ensures var n := |steps| - 1;
            b in Registry.After(steps).groups <==> b in Registry.After(steps[..n]).groups || MakesAt(steps, n, b)
  {
    hide Do, Makes;
    var n := |steps| - 1;
    GroupsStep(Registry.After(steps[..n]), steps[n], b);
  }

  // ---------- each business's index is its history ----------

  /** What a step does to the index of business b. */
  function OpsIn(s: System, step: Registry.Step, b: string): seq<TopicIndex.Op> {
    if b !in s.groups then [] else
      match step
      case Subscribe(business, alias, ts, now) =>
        if business == b then [TopicIndex.Op.Subscribe(alias, ts, now)] else []
      case Unsubscribe(business, alias, ts) =>
        if business == b then [TopicIndex.Op.Unsubscribe(alias, ts)] else []
      case Go(c, now, _) =>
        if c in s.conns && AtBusiness(s.conns[c], b) then OpsOf(c, s.conns[c].phase, s.conns[c].session.value, now) else []
      case _ => []
  }

  /** What setAuthed and Close do to it. */
  function OpsOf(c: Conn, phase: Phase, session: Session, now: int): seq<TopicIndex.Op> {
    if phase == AuthAlias then [Add(session.alias, c, session.topics, now)]
    else if phase == CloseAlias then [Remove(session.alias, c)]
    else []
  }

  /** The operations that a run performs on the topic index of business b. */
  function Ops(steps: seq<Registry.Step>, b: string): seq<TopicIndex.Op> {
    if steps == [] then [] else
      Ops(steps[..|steps| - 1], b) + OpsIn(Registry.After(steps[..|steps| - 1]), steps[|steps| - 1], b)
  }

  function IndexAfter(steps: seq<Registry.Step>, b: string): Index {
    GroupAt(Registry.After(steps), b).index
  }

  lemma OneMoreOp(ops: seq<TopicIndex.Op>, more: seq<TopicIndex.Op>)
    requires |more| <= 1
    ensures TopicIndex.After(ops + more) == if more == [] then TopicIndex.After(ops)
                                            else TopicIndex.Step(TopicIndex.After(ops), more[0])
  {
    if more == [] {
      assert ops + more == ops;
    } else {
      assert (ops + more)[..|ops|] == ops;
    }
  }

  lemma IndexStep(s: System, step: Registry.Step, b: string)
    ensures
      var more := OpsIn(s, step, b);
      |more| <= 1 &&
      GroupAt(Do(s, step), b).index ==
      if more == [] then GroupAt(s, b).index else TopicIndex.Step(GroupAt(s, b).index, more[0])
  {
    hide Added, Removed, Subscribed, Unsubscribed, Moved, Continue;
    if step.Go? {
      if step.conn in s.conns && s.conns[step.conn].session.Some? {
        IndexGo(s, step.conn, s.conns[step.conn], s.conns[step.conn].session.value, step.now, step.ok, b);
      }
    }
  }

  lemma IndexGo(s: System, c: Conn, l: Local, session: Session, now: int, ok: bool, b: string)
    requires c in s.conns && s.conns[c] == l && l.session == Streams.Some(session)
    ensures
      var more := if b in s.groups && session.business == b then OpsOf(c, l.phase, session, now) else [];
      |more| <= 1 &&
      GroupAt(Continue(s, c, l, session, now, ok), b).index ==
      if more == [] then GroupAt(s, b).index else TopicIndex.Step(GroupAt(s, b).index, more[0])
  {
    hide Added, Removed, Subscribed, Unsubscribed, Moved;
    if l.phase != AuthAlias && l.phase != CloseAlias {
      hide OpsOf, TopicIndex.Step;
      assert OpsOf(c, l.phase, session, now) == [];
      IndexKept(s, c, l, session, now, ok, b);
    }
  }

  lemma IndexKept(s: System, c: Conn, l: Local, session: Session, now: int, ok: bool, b: string)
    requires l.phase != AuthAlias && l.phase != CloseAlias
    ensures GroupAt(Continue(s, c, l, session, now, ok), b).index == GroupAt(s, b).index
  {
    hide Moved;
  }

  /** The group managers hold, business by business, what the run has done to them. */
  lemma {:induction false} GroupIsHistory(steps: seq<Registry.Step>, b: string)
    ensures IndexAfter(steps, b) == TopicIndex.After(Ops(steps, b))
  {
    if steps == [] {
    } else {
      hide Do, OpsIn, TopicIndex.After, TopicIndex.Step;
      var before, step := steps[..|steps| - 1], steps[|steps| - 1];
      GroupIsHistory(before, b);
      IndexStep(Registry.After(before), step, b);
      OneMoreOp(Ops(before, b), OpsIn(Registry.After(before), step, b));
    }
  }

  /** So members, topics and times of asking can be read off the run. */
  lemma RunIsHistory(steps: seq<Registry.Step>, b: string, a: string, t: string)
    ensures Holds(IndexAfter(steps, b), a, t, Members(Ops(steps, b), a), Since(Ops(steps, b), a, t))
  {
    GroupIsHistory(steps, b);
    IndexIsHistory(Ops(steps, b), a, t);
  }

  // ---------- who is authenticated gets the pushes ----------

  /** A member has been added and not removed since. */
  lemma {:induction false} MemberWasAdded(ops: seq<TopicIndex.Op>, a: string, c: Conn) returns (i: nat)
    requires c in Members(ops, a)
    ensures i < |ops| && ops[i].Add? && ops[i].alias == a && ops[i].conn == c
    ensures forall j :: i < j < |ops| ==> ops[j] != Remove(a, c)
  {
    var n := |ops| - 1;
    if ops[n].Add? && ops[n].alias == a && ops[n].conn == c {
      i := n;
    } else {
      i := MemberWasAdded(ops[..n], a, c);
      assert forall j :: i < j < n ==> ops[j] == ops[..n][j];
    }
  }

  /** A session, once given, stays. */
  lemma SessionStays(s: System, step: Registry.Step, c: Conn)
    requires Inv(s) && c in s.conns && s.conns[c].session.Some?
    ensures c in Do(s, step).conns && Do(s, step).conns[c].session == s.conns[c].session
  {
    hide IdsRight, HubsRight, AllRight, IndicesTwoWay, Lawful, Answered, Continue, Moved;
    SoundConn(s, c);
    if GoesOn(step, c) {
      GoKeepsSession(s, c, s.conns[c], s.conns[c].session.value, step.now, step.ok);
    } else if step == Close(c) {
      CloseKeepsSession(s, c, s.conns[c]);
    } else {
      hide Do;
      Untouched(s, step, c);
    }
  }

  lemma GoKeepsSession(s: System, c: Conn, l: Local, session: Session, now: int, ok: bool)
    requires c in s.conns && s.conns[c] == l
    ensures
      var s' := Continue(s, c, l, session, now, ok);
      c in s'.conns && s'.conns[c].session == l.session
  {
    hide Added, Removed;
  }

  lemma CloseKeepsSession(s: System, c: Conn, l: Local)
    requires c in s.conns && s.conns[c] == l
    ensures c in BeginClose(s, c, l).conns && BeginClose(s, c, l).conns[c].session == l.session
  {
  }

  ghost predicate OfSession(s: System, op: TopicIndex.Op, b: string) {
    op.Add? ==> op.conn in s.conns && s.conns[op.conn].session == Streams.Some(Session(b, op.alias, op.topics))
  }

  /** Connections are added under their session's alias and topics, and never others. */
  lemma {:induction false} AddsAreOfSessions(steps: seq<Registry.Step>, b: string, i: nat)
    requires i < |Ops(steps, b)|
    ensures OfSession(Registry.After(steps), Ops(steps, b)[i], b)
  {
    hide Inv, Do;
    var before, step := steps[..|steps| - 1], steps[|steps| - 1];
    var s := Registry.After(before);
    Always(before);
    if i < |Ops(before, b)| {
      AddsAreOfSessions(before, b, i);
      if Ops(before, b)[i].Add? {
        SessionStays(s, step, Ops(before, b)[i].conn);
      }
    } else {
      IndexStep(s, step, b);
      if OpsIn(s, step, b)[0].Add? {
        SessionStays(s, step, step.conn);
      }
    }
  }

  predicate TakesBack(step: Registry.Step, b: string, a: string, t: string) {
    step.Unsubscribe? && step.business == b && step.alias == a && t in step.topics
  }

  lemma {:induction false} NothingTakenBack(steps: seq<Registry.Step>, b: string, a: string, t: string, i: nat)
    requires forall k :: 0 <= k < |steps| ==> !TakesBack(steps[k], b, a, t)
    requires i < |Ops(steps, b)|
    ensures !(Ops(steps, b)[i].Unsubscribe? && Ops(steps, b)[i].alias == a && t in Ops(steps, b)[i].topics)
  {
    var before, step := steps[..|steps| - 1], steps[|steps| - 1];
    if i < |Ops(before, b)| {
      NothingTakenBack(before, b, a, t, i);
    } else {
      hide Do;
      IndexStep(Registry.After(before), step, b);
      assert !TakesBack(step, b, a, t);
    }
  }

  /** In every run with a monotone clock: a connection that is authenticated and has its group manager is reached by every
      push to a topic of its session, unless its alias has taken that topic back, and wherever the push finds it in its
      alias's hub. */
  lemma AuthedIsReached(steps: seq<Registry.Step>, c: Conn, t: string, later: Index)
    requires c in Registry.After(steps).conns
    requires Settled(Registry.After(steps).conns[c]) && Registry.After(steps).conns[c].grouped
    requires Registry.After(steps).conns[c].session.Some? && t in Registry.After(steps).conns[c].session.value.topics
    requires InTime(Ops(steps, Registry.After(steps).conns[c].session.value.business))
    requires
      var session := Registry.After(steps).conns[c].session.value;
      && c in ConnsOf(later, session.alias)
      && forall k :: 0 <= k < |steps| ==> !TakesBack(steps[k], session.business, session.alias, t)
    ensures
      var session := Registry.After(steps).conns[c].session.value;
      c in Reached(IndexAfter(steps, session.business), later, session.alias, t)
  {
    hide Inv, Registry.After, Do, Ops;
    var s := Registry.After(steps);
    var session := s.conns[c].session.value;
    var b, a := session.business, session.alias;
    var ops := Ops(steps, b);
    Always(steps);
    WhereSettled(s, c, session);
    RunIsHistory(steps, b, a, t);
    var i := MemberWasAdded(ops, a, c);
    AddsAreOfSessions(steps, b, i);
    forall j | i < j < |ops|
      ensures !Withdraws(ops[j], a, c, t)
    {
      NothingTakenBack(steps, b, a, t, j);
    }
    GroupIsHistory(steps, b);
    NoMissedPush(ops, i, a, c, t, later);
  }
}
