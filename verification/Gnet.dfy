/** broker/gnet.go: connections that open and close, and the heartbeat timer's queue of requests. */
module Gnet {
  import opened Events
  import opened Heap
  import opened Heartbeat

  /** The connections watched once every request in the channel has been served. */
  function Drained(ops: seq<Op>, watched: set<Conn>): set<Conn> {
    if ops == [] then watched else Drained(ops[1..], After(ops[0], watched))
  }

  lemma {:induction false} DrainedAppend(ops: seq<Op>, op: Op, watched: set<Conn>)
    ensures Drained(ops + [op], watched) == After(op, Drained(ops, watched))
  {
    if ops == [] {
      assert ([op])[1..] == [];
    } else {
      assert (ops + [op])[1..] == ops[1..] + [op];
      DrainedAppend(ops[1..], op, After(ops[0], watched));
    }
  }

  /** Nothing watched is waiting to be added, and nothing waits twice. */
  ghost predicate AddsAreNew(ops: seq<Op>, watched: set<Conn>) {
    && (forall i :: 0 <= i < |ops| && ops[i].OpAdd? ==> ops[i].conn !in watched)
    && (forall i, j :: 0 <= i < j < |ops| && ops[i].OpAdd? && ops[j].OpAdd? ==> ops[i].conn != ops[j].conn)
  }

  lemma AddsStayNew(ops: seq<Op>, watched: set<Conn>)
    requires AddsAreNew(ops, watched) && ops != []
    ensures AddsAreNew(ops[1..], After(ops[0], watched))
  {
  }

  /** What a sweep stops watching has no request waiting that would bring it back. */
  lemma {:induction false} DrainedMinus(ops: seq<Op>, watched: set<Conn>, dropped: set<Conn>)
    requires AddsAreNew(ops, watched) && dropped <= watched
    ensures Drained(ops, watched - dropped) == Drained(ops, watched) - dropped
  {
    DrainedWithout(ops, watched, dropped);
  }

  lemma {:induction false} DrainedWithout(ops: seq<Op>, watched: set<Conn>, dropped: set<Conn>)
    requires forall i :: 0 <= i < |ops| && ops[i].OpAdd? ==> ops[i].conn !in dropped
    ensures Drained(ops, watched - dropped) == Drained(ops, watched) - dropped
  {
    if ops == [] {
    } else {
      assert After(ops[0], watched - dropped) == After(ops[0], watched) - dropped;
      DrainedWithout(ops[1..], After(ops[0], watched), dropped);
    }
  }

  /** A priority of its own is asked for only for a connection that has been marked dead. */
  ghost predicate UpdatesAreOfDead(ops: seq<Op>, conns: set<Conn>)
    reads conns`isDeadConn
  {
    forall i :: 0 <= i < |ops| && ops[i].OpUpdate? ==> ops[i].conn in conns && ops[i].conn.isDeadConn
  }

  /** What an event adds to the world's records. */
  datatype News = News(heard: seq<Conn>, pinged: seq<Conn>, lost: seq<Conn>)

  /** The part of broker/server.go's Server that opens and closes connections. */
  class Server {
    var gnetConnToConn: map<nat, Conn>     // by the identity of the gnet connection
    const heartbeatTimer: HeartbeatTimer
    const world: World
    ghost var admitted: set<Conn>          // the connections opened so far
    ghost var gone: set<Conn>              // OnClosed has been called
    ghost var heard: set<Conn>             // OnFrame has been called
    ghost var dropped: set<Conn>           // closed by a sweep

    constructor (maxCheckTimeoutConn: nat, world: World)
      ensures Valid() && fresh(heartbeatTimer) && fresh(heartbeatTimer.pq) && fresh(heartbeatTimer.Items())
      ensures this.world == world && State() == View(map[], [], {}, {}, {}, {}, {})
    {
      gnetConnToConn, admitted, gone, heard, dropped, this.world := map[], {}, {}, {}, {}, world;
      heartbeatTimer := new HeartbeatTimer(maxCheckTimeoutConn);
    }

    /** In every state: once the channel is empty, exactly the connections that have been opened, have not been closed
        and have not been dropped by a sweep are watched; and every stored priority is a lower bound on the deadline of
        its connection, unless that has been marked dead. */
    ghost predicate Valid()
      reads this, heartbeatTimer, heartbeatTimer.pq, heartbeatTimer.Items(), world`t
      reads admitted`lastReceiveFrameTime, admitted`isDeadConn
    {
      && heartbeatTimer.Valid()
      && Consistent(heartbeatTimer.opC, heartbeatTimer.connToPQItem.Keys, admitted, gone, dropped)
      && OneToOne(gnetConnToConn, admitted - gone) && gone <= admitted && dropped <= admitted
      && Conns(heartbeatTimer.Items()) <= admitted && LowerBound(heartbeatTimer.Items())
      && FromPast(admitted, world.t) && UpdatesAreOfDead(heartbeatTimer.opC, admitted)
    }

    /** What events tell of the server. */
    ghost function State(): View
      reads this, heartbeatTimer`opC, admitted`isDeadConn
    {
      View(gnetConnToConn, heartbeatTimer.opC, admitted, gone, heard, Dead(admitted), dropped)
    }

    /** OnOpened: the new connection is stored before the timer is asked to watch it. newConn may fail. */
    method OnOpened(c: nat, interval: nat, fails: bool) returns (conn: Conn?)
      requires Valid() && c !in gnetConnToConn
      modifies this, heartbeatTimer, world`t
      ensures Valid() && world.t >= old(world.t)
      ensures fails ==> conn == null && State() == old(State())
      ensures !fails ==> conn != null && fresh(conn) && conn !in old(admitted) && !conn.isDeadConn
                         && conn.heartbeatDeadlineInterval == interval && conn.lastReceiveFrameTime == world.t
                         && State() == old(State()).(stored := old(gnetConnToConn)[c := conn],
                                                     ops := old(heartbeatTimer.opC) + [OpAdd(conn)],
                                                     admitted := old(admitted) + {conn})
      ensures Logged(old(world.Record(admitted)), world.Record(admitted), [], [], [])
    {
      hide LowerBound, HeartbeatTimer.Valid, Consistent, UpdatesAreOfDead, OneToOne, Logged;
      ghost var log := world.Record(admitted);
      NothingLogged(log);
      if fails {
        return null;
      }
      var now := world.Now();
      conn := new Conn(now, interval);
      Admit(c, conn);
      NothingLoggedOfMore(log, world.Record(admitted));
    }

    /** Store, and ask the timer to watch. */
    method Admit(c: nat, it: Conn)
      requires Valid() && c !in gnetConnToConn && it !in admitted && it.lastReceiveFrameTime <= world.t && !it.isDeadConn
      modifies this, heartbeatTimer
      ensures Valid()
      ensures State() == old(State()).(stored := old(gnetConnToConn)[c := it], ops := old(heartbeatTimer.opC) + [OpAdd(it)],
                                       admitted := old(admitted) + {it})
    {
      hide LowerBound, PriorityQueue.Valid, Tracks, OneToOne;
      ghost var ops, watched := heartbeatTimer.opC, heartbeatTimer.connToPQItem.Keys;
      StoredOne(gnetConnToConn, admitted - gone, c, it);
      gnetConnToConn := gnetConnToConn[c := it];
      heartbeatTimer.AddConn(it);
      OpenedOne(ops, watched, admitted, gone, dropped, it);
      admitted := admitted + {it};
      assert admitted - gone == old(admitted - gone) + {it};
    }

    /** OnClosed, up to the Close of the connection: the timer is asked to forget it. */
    method OnClosed(c: nat) returns (conn: Conn?)
      requires Valid()
      modifies this, heartbeatTimer
      ensures Valid()
      ensures c !in old(gnetConnToConn) ==> conn == null && State() == old(State())
      ensures c in old(gnetConnToConn) ==> conn == old(gnetConnToConn[c])
                                           && State() == old(State()).(stored := old(gnetConnToConn) - {c},
                                                                       ops := old(heartbeatTimer.opC) + [OpRemove(conn)],
                                                                       gone := old(gone) + {conn})
    {
      hide LowerBound, PriorityQueue.Valid, Tracks;
      if c !in gnetConnToConn {
        assert gnetConnToConn - {c} == gnetConnToConn;
        return null;
      }
      var it := gnetConnToConn[c];
      ghost var ops, watched := heartbeatTimer.opC, heartbeatTimer.connToPQItem.Keys;
      TakenOne(gnetConnToConn, admitted - gone, c);
      gnetConnToConn := gnetConnToConn - {c};
      heartbeatTimer.RemoveConn(it);
      GoneOne(ops, watched, admitted, gone, dropped, it);
      gone := gone + {it};
      conn := it;
    }

    /** A frame has come in on a connection. */
    method OnFrame(conn: Conn)
      requires Valid() && conn in admitted
      modifies conn`lastReceiveFrameTime, world`t, world`heard, `heard
      ensures Valid() && conn.lastReceiveFrameTime == world.t >= old(world.t)
      ensures Logged(old(world.Record(admitted)), world.Record(admitted), [conn], [], [])
      ensures State() == old(State()).(heard := old(heard) + {conn})
    {
      hide PriorityQueue.Valid, Tracks;
      heartbeatTimer.Receive(conn, world, heartbeatTimer.Items(), admitted);
      heard := heard + {conn};
    }

    /** setDead: the connection is to be looked at again soon. Only sendAuthFailedAndSetDead asks for it, which nothing
        calls: a connection that fails to authenticate is closed instead. */
    method SetDead(conn: Conn, deadInterval: nat)
      requires Valid() && conn in admitted
      modifies heartbeatTimer, conn`isDeadConn, world`t
      ensures Valid() && conn.isDeadConn && world.t >= old(world.t)
      ensures old(conn.isDeadConn) ==> State() == old(State())
      ensures !old(conn.isDeadConn) ==>
                State() == old(State()).(dead := old(Dead(admitted)) + {conn},
                                         ops := old(heartbeatTimer.opC) + [OpUpdate(conn, world.t + deadInterval)])
    {
      hide PriorityQueue.Valid, Tracks;
      if conn.isDeadConn {
        return;
      }
      ghost var ops, watched := heartbeatTimer.opC, heartbeatTimer.connToPQItem.Keys;
      conn.isDeadConn := true;
      var now := world.Now();
      heartbeatTimer.UpdateConn(conn, now + deadInterval);
      UpdatedOne(ops, watched, admitted, gone, dropped, conn, now + deadInterval);
    }

    /** One turn of the timer's Run that serves a request. */
    method Serve()
      requires Valid() && heartbeatTimer.opC != []
      modifies heartbeatTimer, heartbeatTimer.pq, heartbeatTimer.Items()
      ensures Valid() && State() == old(State()).(ops := old(heartbeatTimer.opC[1..]))
      ensures fresh(heartbeatTimer.Items() - old(heartbeatTimer.Items()))
    {
      hide Consistent, PriorityQueue.Valid, Tracks, OneToOne, LowerBound;
      ghost var ops, watched := heartbeatTimer.opC, heartbeatTimer.connToPQItem.Keys;
      ServedOne(ops, watched, admitted, gone, dropped);
      heartbeatTimer.TakeOp();
      TrackedConns(heartbeatTimer.Items(), heartbeatTimer.connToPQItem);
    }

    /** The requests in the channel are served: then the watched connections are the open ones that no sweep has
        dropped, and none that has been closed is among them. */
    method ServeAll()
      requires Valid()
      modifies heartbeatTimer, heartbeatTimer.pq, heartbeatTimer.Items()
      ensures Valid() && heartbeatTimer.opC == []
      ensures heartbeatTimer.connToPQItem.Keys == admitted - gone - dropped
    {
      hide HeartbeatTimer.Valid, OneToOne, LowerBound, FromPast, UpdatesAreOfDead;
      while heartbeatTimer.opC != []
        invariant Valid() && fresh(heartbeatTimer.Items() - old(heartbeatTimer.Items()))
        decreases |heartbeatTimer.opC|
      {
        Serve();
      }
    }

    /** One turn of the timer's Run on its ticker: a sweep. */
    method Tick()
      returns (now: int, closed: seq<Conn>, ghost examined: seq<PQItem>, ghost turns: seq<Turn>, ghost frames: seq<Conn>)
      requires Valid()
      modifies this, heartbeatTimer, heartbeatTimer.pq, heartbeatTimer.Items(), world
      modifies Conns(heartbeatTimer.Items())`lastReceiveFrameTime
      ensures Valid() && State() == old(State()).(dropped := old(dropped) + Named(closed))
      ensures old(world.t) <= now && heartbeatTimer.Items() <= old(heartbeatTimer.Items())
      ensures Listed(turns, examined) && Judged(turns, old(Late(Conns(heartbeatTimer.Items()), now)), frames)
      ensures closed == Pings(turns, false)
      ensures Logged(old(world.Record(admitted)), world.Record(admitted), frames, Pings(turns, true), closed)
      ensures AllIn(closed, old(Late(Conns(heartbeatTimer.Items()), now)))
      ensures NoneDead(Conns(old(Overdue(heartbeatTimer.Items(), now)))) ==>
                Thorough(heartbeatTimer.Items(), old(Overdue(heartbeatTimer.Items(), now)), examined, now,
                         heartbeatTimer.maxCheckTimeoutConn + 1)
      ensures now >= 0 && closed == [] && !NoneDead(Conns(old(Overdue(heartbeatTimer.Items(), now)))) ==>
                |examined| == heartbeatTimer.maxCheckTimeoutConn + 1
    {
      hide Consistent, PriorityQueue.Valid, Tracks, Thorough, AllIn, Late, ClosedOf, OneToOne, LowerBound, NoneDead, Overdue;
      hide Logged, Judged, Listed, Pings;
      ghost var ops, m, items := heartbeatTimer.opC, heartbeatTimer.connToPQItem, heartbeatTimer.Items();
      ghost var dead := Dead(admitted);
      now, examined, closed, turns, frames := heartbeatTimer.Sweep(world, admitted);
      SweptAway(heartbeatTimer.connToPQItem, m, closed);
      SweptSome(ops, m.Keys, admitted, gone, dropped, Named(closed));
      assert Dead(admitted) == dead;
      FewerConns(heartbeatTimer.Items(), items);
      dropped := dropped + Named(closed);
    }

    /** What an event does: conn is what it opens, news what it adds to the world's records. */
    method Handle(e: Event) returns (ghost conn: Conn?, ghost news: News)
      requires Valid()
      modifies this, heartbeatTimer, heartbeatTimer.pq, heartbeatTimer.Items(), world, admitted
      ensures Valid() && Step(e, old(State()), State(), conn)
      ensures Logged(old(world.Record(admitted)), world.Record(admitted), news.heard, news.pinged, news.lost)
      ensures dropped == old(dropped) + Named(news.lost)
      ensures !e.TimerTick? ==> news.pinged == news.lost == []
      ensures !e.TimerTick? ==>
                news.heard == if e.FrameIn? && e.c in old(gnetConnToConn) then [old(gnetConnToConn[e.c])] else []
      ensures e.FrameIn? && e.c in old(gnetConnToConn) ==> old(gnetConnToConn[e.c]).lastReceiveFrameTime == world.t
      ensures conn != null ==>
                conn.lastReceiveFrameTime == world.t && e.Opening? && conn.heartbeatDeadlineInterval == e.interval
      ensures forall it :: it in heartbeatTimer.Items() ==> it in old(heartbeatTimer.Items()) || fresh(it)
      ensures fresh(admitted - old(admitted))
    {
      hide PriorityQueue.Valid, Tracks, Consistent, LowerBound, FromPast, UpdatesAreOfDead, Thorough, Late, AllIn, Overdue;
      hide Logged, Judged, Listed, Pings, NoneDead, OneToOne;
      conn, news := null, News([], [], []);
      NothingLogged(world.Record(admitted));
      match e
      case Opening(c, interval, fails) =>
        if c !in gnetConnToConn {
          conn := OnOpened(c, interval, fails);
        }
      case Closing(c) => var it := OnClosed(c);
      case FrameIn(c) =>
        if c in gnetConnToConn {
          StoredIsAdmitted(gnetConnToConn, admitted - gone, c);
          OnFrame(gnetConnToConn[c]);
          news := News([gnetConnToConn[c]], [], []);
        }
      case MarkedDead(c, deadInterval) =>
        if c in gnetConnToConn {
          StoredIsAdmitted(gnetConnToConn, admitted - gone, c);
          SetDead(gnetConnToConn[c], deadInterval);
        }
      case TimerOp =>
        if heartbeatTimer.opC != [] {
          Serve();
        }
      case TimerTick =>
        ghost var examined, turns, frames;
        var now, closed;
        now, closed, examined, turns, frames := Tick();
        news := News(frames, Pings(turns, true), closed);
    }
  }

  /** Any run from a server without connections: openings, closings, frames, markings, requests and sweeps in any order.
      The events tell what the server is like: at[i] is what event i has opened. Once the queue has been served, the
      connections watched are those opened, not closed, and not dropped by a sweep because a ping could not be sent. */
  method Run(maxCheckTimeoutConn: nat, world: World, events: seq<Event>)
    returns (s: Server, ghost at: map<nat, Conn>, ghost news: News)
    modifies world
    ensures s.Valid() && fresh(s) && s.world == world
    ensures ReadOff(events, |events|, at, s.State())
    ensures forall i :: i in at ==> at[i].heartbeatDeadlineInterval == events[i].interval
    ensures world.heard == old(world.heard) + news.heard && world.pinged == old(world.pinged) + news.pinged
    ensures world.lost == old(world.lost) + news.lost && s.dropped == Named(news.lost) && s.heard <= Named(news.heard)
    ensures s.heartbeatTimer.opC == [] ==>
              s.heartbeatTimer.connToPQItem.Keys == Lasting(events, at) - Named(news.lost)
    ensures forall it :: it in s.heartbeatTimer.Items() ==> it.value.isDeadConn || it.priority <= it.value.Deadline()
  {
    hide Server.Valid, HeartbeatTimer.Valid, LowerBound, Conns, Elems, ReadOff, Step, Fits, Named, Closed, Opens,
         Consistent, Logged, MoreNews;
    s := new Server(maxCheckTimeoutConn, world);
    at, news := map[], News([], [], []);
    ghost var start := world.Record({});
    NothingReadOff(events);
    NothingFits(events, s.State());
    for i := 0 to |events|
      invariant s.Valid() && s.world == world && fresh(s) && fresh(s.heartbeatTimer) && fresh(s.heartbeatTimer.pq)
      invariant fresh(s.heartbeatTimer.Items()) && fresh(s.admitted)
      invariant ReadOff(events, i, at, s.State()) && Fits(events, i, at, s.State(), news)
      invariant NewsSince(start, world.Record({}), news)
    {
      ghost var v, log := s.State(), world.Record(s.admitted);
      ghost var conn, more;
      conn, more := s.Handle(events[i]);
      NewsAdd(start, log, world.Record(s.admitted), news, more);
      ghost var at' := StepKeeps(events, i, at, v, s.State(), conn);
      StillFits(events, i, at, at', v, s.State(), conn, news, more);
      at, news := at', MoreNews(news, more);
    }
    WhatFits(events, |events|, at, s.State(), news);
    WhatValidSays(s);
    Watched(events, at, s.State(), s.heartbeatTimer.connToPQItem.Keys);
  }

  lemma WhatValidSays(s: Server)
    requires s.Valid()
    ensures Consistent(s.heartbeatTimer.opC, s.heartbeatTimer.connToPQItem.Keys, s.admitted, s.gone, s.dropped)
    ensures forall it :: it in s.heartbeatTimer.Items() ==> it.value.isDeadConn || it.priority <= it.value.Deadline()
  {
  }

  function MoreNews(a: News, b: News): News {
    News(a.heard + b.heard, a.pinged + b.pinged, a.lost + b.lost)
  }

  ghost predicate NewsSince(start: Log, now: Log, news: News) {
    now.heard == start.heard + news.heard && now.pinged == start.pinged + news.pinged && now.lost == start.lost + news.lost
  }

  lemma NewsAdd(start: Log, a: Log, b: Log, news: News, more: News)
    requires NewsSince(start, a, news) && Logged(a, b, more.heard, more.pinged, more.lost)
    ensures NewsSince(start, b, MoreNews(news, more))
  {
  }

  /** The records agree with the server, and connections have the intervals that their openings say. */
  ghost predicate Fits(events: seq<Event>, n: nat, at: map<nat, Conn>, v: View, news: News)
    requires n <= |events|
  {
    && v.dropped == Named(news.lost) && v.heard <= Named(news.heard)
    && forall i :: i in at ==> i < n && events[i].Opening? && at[i].heartbeatDeadlineInterval == events[i].interval
  }

  lemma NothingFits(events: seq<Event>, v: View)
    requires v.dropped == v.heard == {}
    ensures Fits(events, 0, map[], v, News([], [], []))
  {
  }

  lemma WhatFits(events: seq<Event>, n: nat, at: map<nat, Conn>, v: View, news: News)
    requires n <= |events| && Fits(events, n, at, v, news)
    ensures v.dropped == Named(news.lost) && v.heard <= Named(news.heard)
    ensures forall i :: i in at ==> i < n && events[i].Opening? && at[i].heartbeatDeadlineInterval == events[i].interval
  {
  }

  lemma StillFits(events: seq<Event>, n: nat, at: map<nat, Conn>, at': map<nat, Conn>, v: View, v': View, conn: Conn?,
                  news: News, more: News)
    requires n < |events| && Fits(events, n, at, v, news) && Step(events[n], v, v', conn)
    requires v'.dropped == v.dropped + Named(more.lost)
    requires events[n].FrameIn? && events[n].c in v.stored ==> more.heard == [v.stored[events[n].c]]
    requires conn != null ==> events[n].Opening? && conn.heartbeatDeadlineInterval == events[n].interval
    requires at' == if Opens(events, n) && conn != null then at[n := conn] else at
    ensures Fits(events, n + 1, at', v', MoreNews(news, more))
  {
    hide Opens;
    assert Named(news.lost + more.lost) == Named(news.lost) + Named(more.lost);
    assert Named(news.heard + more.heard) == Named(news.heard) + Named(more.heard);
  }

  /** What has been opened and not closed. */
  ghost function Lasting(events: seq<Event>, at: map<nat, Conn>): set<Conn>
    requires forall i :: i in at ==> i < |events|
  {
    set i | i in at && !Closed(events, i, |events|) :: at[i]
  }

  /** With the queue empty, what the server's invariant says is said by the events. */
  lemma Watched(events: seq<Event>, at: map<nat, Conn>, v: View, watched: set<Conn>)
    requires ReadOff(events, |events|, at, v) && forall i :: i in at ==> i < |events|
    requires Consistent(v.ops, watched, v.admitted, v.gone, v.dropped)
    ensures v.ops == [] ==> watched == Lasting(events, at) - v.dropped
  {
    assert v.admitted - v.gone == Lasting(events, at);
  }

  // ---------- what each step keeps ----------

  ghost predicate Consistent(ops: seq<Op>, watched: set<Conn>, admitted: set<Conn>, gone: set<Conn>, dropped: set<Conn>) {
    && AddsAreNew(ops, watched) && watched <= admitted
    && (forall i :: 0 <= i < |ops| ==> ops[i].conn in admitted)
    && Drained(ops, watched) == admitted - gone - dropped
  }

  lemma OpenedOne(ops: seq<Op>, watched: set<Conn>, admitted: set<Conn>, gone: set<Conn>, dropped: set<Conn>, c: Conn)
    requires Consistent(ops, watched, admitted, gone, dropped) && c !in admitted && gone <= admitted && dropped <= admitted
    ensures Consistent(ops + [OpAdd(c)], watched, admitted + {c}, gone, dropped)
  {
    DrainedAppend(ops, OpAdd(c), watched);
  }

  lemma GoneOne(ops: seq<Op>, watched: set<Conn>, admitted: set<Conn>, gone: set<Conn>, dropped: set<Conn>, c: Conn)
    requires Consistent(ops, watched, admitted, gone, dropped) && c in admitted
    ensures Consistent(ops + [OpRemove(c)], watched, admitted, gone + {c}, dropped)
  {
    DrainedAppend(ops, OpRemove(c), watched);
  }

  lemma UpdatedOne(ops: seq<Op>, watched: set<Conn>, admitted: set<Conn>, gone: set<Conn>, dropped: set<Conn>,
                   c: Conn, priority: int)
    requires Consistent(ops, watched, admitted, gone, dropped) && c in admitted
    ensures Consistent(ops + [OpUpdate(c, priority)], watched, admitted, gone, dropped)
  {
    DrainedAppend(ops, OpUpdate(c, priority), watched);
  }

  lemma ServedOne(ops: seq<Op>, watched: set<Conn>, admitted: set<Conn>, gone: set<Conn>, dropped: set<Conn>)
    requires Consistent(ops, watched, admitted, gone, dropped) && ops != []
    ensures Consistent(ops[1..], After(ops[0], watched), admitted, gone, dropped) && After(ops[0], watched) <= admitted
    ensures ops[0].OpAdd? ==> ops[0].conn !in watched
  {
    AddsStayNew(ops, watched);
  }

  lemma SweptSome(ops: seq<Op>, watched: set<Conn>, admitted: set<Conn>, gone: set<Conn>, dropped: set<Conn>, lost: set<Conn>)
    requires Consistent(ops, watched, admitted, gone, dropped) && lost <= watched
    ensures Consistent(ops, watched - lost, admitted, gone, dropped + lost) && lost <= admitted
  {
    DrainedMinus(ops, watched, lost);
  }

  lemma SweptAway(m: map<Conn, PQItem>, before: map<Conn, PQItem>, closed: seq<Conn>)
    requires ClosedOf(m, before, closed)
    ensures m.Keys == before.Keys - (set c | c in closed) && (set c | c in closed) <= before.Keys
  {
  }

  lemma TrackedConns(items: set<PQItem>, m: map<Conn, PQItem>)
    requires Tracks(items, m)
    ensures Conns(items) == m.Keys
  {
    forall c | c in m
      ensures c in Conns(items)
    {
      assert m[c].value == c;
    }
  }

  /** Every one of conns is there once. */
  ghost predicate OneToOne(m: map<nat, Conn>, conns: set<Conn>) {
    && m.Values == conns
    && forall i, j :: i in m && j in m && m[i] == m[j] ==> i == j
  }

  lemma StoredIsAdmitted(m: map<nat, Conn>, conns: set<Conn>, k: nat)
    requires OneToOne(m, conns) && k in m
    ensures m[k] in conns
  {
  }

  lemma StoredOne(m: map<nat, Conn>, conns: set<Conn>, k: nat, c: Conn)
    requires OneToOne(m, conns) && k !in m && c !in conns
    ensures OneToOne(m[k := c], conns + {c})
  {
    var m' := m[k := c];
    assert forall i :: i in m ==> m'[i] == m[i];
    forall x | x in conns + {c}
      ensures x in m'.Values
    {
      if x != c {
        var i :| i in m && m[i] == x;
        assert m'[i] == x;
      } else {
        assert m'[k] == x;
      }
    }
  }

  lemma TakenOne(m: map<nat, Conn>, conns: set<Conn>, k: nat)
    requires OneToOne(m, conns) && k in m
    ensures OneToOne(m - {k}, conns - {m[k]}) && m[k] in conns
  {
    var m' := m - {k};
    forall x | x in conns - {m[k]}
      ensures x in m'.Values
    {
      var i :| i in m && m[i] == x;
      assert i in m' && m'[i] == x;
    }
  }
}
