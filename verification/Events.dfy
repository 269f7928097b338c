/** What happens to a server's connections, and what can be read off it afterwards. */
module Events {
  import opened Heap
  import opened Heartbeat

  /** c names a gnet connection; interval is in nanoseconds, deadInterval in seconds. */
  datatype Event =
    | Opening(c: nat, interval: nat, fails: bool)
    | Closing(c: nat)
    | FrameIn(c: nat)
    | MarkedDead(c: nat, deadInterval: nat)
    | TimerOp
    | TimerTick
  {
    predicate Names(k: nat) { !TimerOp? && !TimerTick? && c == k }
    predicate OpensKey(k: nat) { Opening? && !fails && c == k }
  }

  // ---------- reading the events ----------

  /** The key c is closed between events i and n. */
  ghost predicate ClosedBetween(events: seq<Event>, c: nat, i: nat, n: nat)
    requires n <= |events|
  {
    exists j :: i < j < n && events[j] == Closing(c)
  }

  /** Event i opens a connection: its key was free, which is to say that it had been closed after each earlier opening. */
  ghost predicate Opens(events: seq<Event>, i: nat)
    requires i < |events|
  {
    && events[i].Opening? && !events[i].fails
    && forall k :: 0 <= k < i && events[k].OpensKey(events[i].c) ==> ClosedBetween(events, events[i].c, k, i)
  }

  /** Event j happens to the connection that event i opens. */
  ghost predicate Hits(events: seq<Event>, i: nat, j: nat)
    requires j < |events|
  {
    i < j && Opens(events, i) && events[j].Names(events[i].c) && !ClosedBetween(events, events[i].c, i, j)
  }

  ghost predicate Closed(events: seq<Event>, i: nat, n: nat)
    requires i < n <= |events|
  {
    events[i].Opening? && ClosedBetween(events, events[i].c, i, n)
  }

  ghost predicate HeardFrom(events: seq<Event>, i: nat, n: nat)
    requires n <= |events|
  {
    exists j :: i < j < n && events[j].FrameIn? && Hits(events, i, j)
  }

  ghost predicate Marked(events: seq<Event>, i: nat, n: nat)
    requires n <= |events|
  {
    exists j :: i < j < n && events[j].MarkedDead? && Hits(events, i, j)
  }

  /** Event j asks the timer for something: to watch what it opens, to forget what it closes, to look again soon at what
      it is the first to mark dead. */
  ghost predicate Asks(events: seq<Event>, j: nat)
    requires j < |events|
  {
    || Opens(events, j)
    || (events[j].Closing? && exists i :: 0 <= i < j && Hits(events, i, j))
    || (events[j].MarkedDead? && exists i :: 0 <= i < j && Hits(events, i, j) && !Marked(events, i, j))
  }

  /** Those of the first n events that ask, in order. */
  ghost function Asking(events: seq<Event>, n: nat): (asking: seq<nat>)
    requires n <= |events|
    ensures forall k :: 0 <= k < |asking| ==> asking[k] < n && Asks(events, asking[k])
  {
    if n == 0 then [] else Asking(events, n - 1) + (if Asks(events, n - 1) then [n - 1] else [])
  }

  /** How many of them the timer has served. */
  ghost function Served(events: seq<Event>, n: nat): (k: nat)
    requires n <= |events|
    ensures k <= |Asking(events, n)|
  {
    if n == 0 then 0 else
      var k := Served(events, n - 1);
      if events[n - 1].TimerOp? && k < |Asking(events, n - 1)| then k + 1 else k
  }

  /** op is what event j asks for, if at[i] is what event i opens. */
  ghost predicate AskedBy(op: Op, events: seq<Event>, j: nat, at: map<nat, Conn>)
    requires j < |events|
  {
    match events[j]
    case Opening(_, _, _) => j in at && op == OpAdd(at[j])
    case Closing(_) => op.OpRemove? && exists i :: i in at && Hits(events, i, j) && op.conn == at[i]
    case MarkedDead(_, _) => op.OpUpdate? && exists i :: i in at && Hits(events, i, j) && op.conn == at[i]
    case _ => false
  }

  // ---------- a server, and what an event does to it ----------

  /** What of a server events tell: the open connections, the queue of requests, and the connections that have been
      opened, closed, heard from and marked dead, and that sweeps have dropped. */
  datatype View = View(stored: map<nat, Conn>, ops: seq<Op>, admitted: set<Conn>, gone: set<Conn>, heard: set<Conn>,
                       dead: set<Conn>, dropped: set<Conn>)

  /** What an event does; conn is what it opens. */
  ghost predicate Step(e: Event, v: View, v': View, conn: Conn?) {
    match e
    case Opening(c, _, fails) =>
      if fails || c in v.stored then v' == v && conn == null else
        && conn != null && conn !in v.admitted
        && v' == v.(stored := v.stored[c := conn], ops := v.ops + [OpAdd(conn)], admitted := v.admitted + {conn})
    case Closing(c) =>
      if c !in v.stored then v' == v else
        v' == v.(stored := v.stored - {c}, ops := v.ops + [OpRemove(v.stored[c])], gone := v.gone + {v.stored[c]})
    case FrameIn(c) =>
      if c !in v.stored then v' == v else v' == v.(heard := v.heard + {v.stored[c]})
    case MarkedDead(c, _) =>
      if c !in v.stored || v.stored[c] in v.dead then v' == v else
        && v'.ops != [] && v'.ops[|v'.ops| - 1].OpUpdate? && v'.ops[|v'.ops| - 1].conn == v.stored[c]
        && v' == v.(dead := v.dead + {v.stored[c]}, ops := v.ops + [v'.ops[|v'.ops| - 1]])
    case TimerOp => v' == v.(ops := if v.ops == [] then [] else v.ops[1..])
    case TimerTick => v.dropped <= v'.dropped && v' == v.(dropped := v'.dropped)
  }

  /** After n events the server is as the events say, at[i] being what event i has opened. */
  ghost predicate ReadOff(events: seq<Event>, n: nat, at: map<nat, Conn>, v: View)
    requires n <= |events|
  {
    && OpenedReadOff(events, n, at, v) && StoredReadOff(events, n, at, v.stored)
    && (forall i :: i in at ==> (at[i] in v.gone <==> Closed(events, i, n)))
    && (forall i :: i in at ==> (at[i] in v.heard <==> HeardFrom(events, i, n)))
    && (forall i :: i in at ==> (at[i] in v.dead <==> Marked(events, i, n)))
    && QueueReadOff(v.ops, events, n, at)
  }

  /** One connection for each event that opens one. */
  ghost predicate OpenedReadOff(events: seq<Event>, n: nat, at: map<nat, Conn>, v: View)
    requires n <= |events|
  {
    && (forall i :: i in at <==> 0 <= i < n && Opens(events, i))
    && (forall i, j :: i in at && j in at && at[i] == at[j] ==> i == j)
    && v.admitted == at.Values && v.gone <= v.admitted && v.heard <= v.admitted && v.dead <= v.admitted
  }

  /** Stored are, under their keys, those not closed. */
  ghost predicate StoredReadOff(events: seq<Event>, n: nat, at: map<nat, Conn>, stored: map<nat, Conn>)
    requires n <= |events|
    requires forall i :: i in at ==> i < n && events[i].Opening?
  {
    && (forall i :: i in at && !Closed(events, i, n) ==> events[i].c in stored && stored[events[i].c] == at[i])
    && (forall c :: c in stored ==> exists i :: i in at && events[i].c == c && !Closed(events, i, n))
  }

  ghost predicate QueueReadOff(ops: seq<Op>, events: seq<Event>, n: nat, at: map<nat, Conn>)
    requires n <= |events|
  {
    && Served(events, n) + |ops| == |Asking(events, n)|
    && forall k :: 0 <= k < |ops| ==> AskedBy(ops[k], events, Asking(events, n)[Served(events, n) + k], at)
  }

  // ---------- each event keeps it ----------

  lemma NothingReadOff(events: seq<Event>)
    ensures ReadOff(events, 0, map[], View(map[], [], {}, {}, {}, {}, {}))
  {
  }

  /** What one more event tells of the connections opened before it. */
  lemma OneMore(events: seq<Event>, i: nat, n: nat)
    requires i < n < |events| && Opens(events, i)
    ensures Closed(events, i, n + 1) <==> Closed(events, i, n) || (events[n].Closing? && Hits(events, i, n))
    ensures HeardFrom(events, i, n + 1) <==> HeardFrom(events, i, n) || (events[n].FrameIn? && Hits(events, i, n))
    ensures Marked(events, i, n + 1) <==> Marked(events, i, n) || (events[n].MarkedDead? && Hits(events, i, n))
  {
  }

  lemma OneMoreOfAll(events: seq<Event>, n: nat, at: map<nat, Conn>)
    requires n < |events| && forall i :: i in at ==> i < n && Opens(events, i)
    ensures forall i :: i in at ==>
              (Closed(events, i, n + 1) <==> Closed(events, i, n) || (events[n].Closing? && Hits(events, i, n)))
    ensures forall i :: i in at ==>
              (HeardFrom(events, i, n + 1) <==> HeardFrom(events, i, n) || (events[n].FrameIn? && Hits(events, i, n)))
    ensures forall i :: i in at ==>
              (Marked(events, i, n + 1) <==> Marked(events, i, n) || (events[n].MarkedDead? && Hits(events, i, n)))
  {
    forall i | i in at {
      OneMore(events, i, n);
    }
  }

  /** An event that names a stored connection's key happens to that connection. */
  lemma Holder(events: seq<Event>, n: nat, at: map<nat, Conn>, v: View, c: nat) returns (i: nat)
    requires n < |events| && ReadOff(events, n, at, v) && c in v.stored && events[n].Names(c)
    ensures i in at && Hits(events, i, n) && v.stored[c] == at[i] && events[i].c == c
    ensures forall k :: 0 <= k < n && Hits(events, k, n) ==> k == i
  {
    i :| i in at && events[i].c == c && !Closed(events, i, n);
    forall k | 0 <= k < n && Hits(events, k, n)
      ensures k == i
    {
      assert k in at && !Closed(events, k, n);
    }
  }

  lemma NoHolder(events: seq<Event>, n: nat, at: map<nat, Conn>, v: View, c: nat)
    requires n < |events| && ReadOff(events, n, at, v) && c !in v.stored && events[n].Names(c)
    ensures forall k :: 0 <= k < n ==> !Hits(events, k, n)
  {
    forall k | 0 <= k < n
      ensures !Hits(events, k, n)
    {
      assert Hits(events, k, n) ==> k in at;
    }
  }

  /** Whoever tries to open a key finds it held, or opens it. */
  lemma {:induction false} Opener(events: seq<Event>, k: nat) returns (i: nat)
    requires k < |events| && events[k].Opening? && !events[k].fails
    ensures i <= k && Opens(events, i) && events[i].c == events[k].c && !ClosedBetween(events, events[k].c, i, k)
    decreases k
  {
    if Opens(events, k) {
      i := k;
    } else {
      var j: nat :| j < k && events[j].OpensKey(events[k].c) && !ClosedBetween(events, events[k].c, j, k);
      i := Opener(events, j);
    }
  }

  /** An opening opens iff its key is not stored. */
  lemma OpensIfFree(events: seq<Event>, n: nat, at: map<nat, Conn>, v: View)
    requires n < |events| && ReadOff(events, n, at, v) && events[n].Opening? && !events[n].fails
    ensures Opens(events, n) <==> events[n].c !in v.stored
  {
    var c := events[n].c;
    if c in v.stored {
      var i := Holder(events, n, at, v, c);
      assert events[i].OpensKey(c);
    } else {
      NoHolder(events, n, at, v, c);
      forall k: nat | k < n && events[k].OpensKey(c)
        ensures ClosedBetween(events, c, k, n)
      {
        var i := Opener(events, k);
        assert !Hits(events, i, n);
      }
    }
  }

  /** A request put at the end of the queue. */
  lemma OneMoreAsked(ops: seq<Op>, op: Op, events: seq<Event>, n: nat, at: map<nat, Conn>, at': map<nat, Conn>)
    requires n < |events| && QueueReadOff(ops, events, n, at) && !events[n].TimerOp?
    requires Asks(events, n) && AskedBy(op, events, n, at')
    requires forall i :: i in at ==> i in at' && at'[i] == at[i]
    ensures QueueReadOff(ops + [op], events, n + 1, at')
  {
    hide Hits, Asks;
  }

  /** No request is put into it, and none taken out. */
  lemma NothingAsked(ops: seq<Op>, events: seq<Event>, n: nat, at: map<nat, Conn>)
    requires n < |events| && QueueReadOff(ops, events, n, at) && !events[n].TimerOp? && !Asks(events, n)
    ensures QueueReadOff(ops, events, n + 1, at)
  {
    hide Hits, Asks;
  }

  lemma TimerOpNext(events: seq<Event>, n: nat)
    requires n < |events| && events[n].TimerOp? && !Asks(events, n)
    ensures Asking(events, n + 1) == Asking(events, n)
    ensures Served(events, n + 1) == Served(events, n) + (if Served(events, n) < |Asking(events, n)| then 1 else 0)
  {
    hide Asks;
  }

  lemma OneServed(ops: seq<Op>, events: seq<Event>, n: nat, at: map<nat, Conn>)
    requires n < |events| && QueueReadOff(ops, events, n, at) && events[n].TimerOp? && !Asks(events, n)
    ensures QueueReadOff(if ops == [] then [] else ops[1..], events, n + 1, at)
  {
    hide Hits, Opens, Marked, Asks, AskedBy, Asking, Served;
    TimerOpNext(events, n);
  }

  lemma WhatAsks(events: seq<Event>, n: nat)
    requires n < |events|
    ensures Opens(events, n) ==> Asks(events, n) && events[n].Opening? && !events[n].fails
    ensures Asks(events, n) ==> Opens(events, n) || events[n].Closing? || events[n].MarkedDead?
  {
  }

  lemma JustOpened(events: seq<Event>, n: nat)
    requires n < |events|
    ensures !Closed(events, n, n + 1) && !HeardFrom(events, n, n + 1) && !Marked(events, n, n + 1)
  {
  }

  lemma OpensIsOpening(events: seq<Event>, at: map<nat, Conn>)
    requires forall i :: i in at ==> i < |events| && Opens(events, i)
    ensures forall i :: i in at ==> events[i].Opening?
  {
  }

  lemma PutIn(events: seq<Event>, n: nat, at: map<nat, Conn>, stored: map<nat, Conn>, conn: Conn)
    requires n < |events| && events[n].Opening? && events[n].c !in stored
    requires forall i :: i in at ==> i < n && events[i].Opening? && Opens(events, i)
    requires StoredReadOff(events, n, at, stored)
    ensures StoredReadOff(events, n + 1, at[n := conn], stored[events[n].c := conn])
  {
    hide Hits;
    var at', stored' := at[n := conn], stored[events[n].c := conn];
    OneMoreOfAll(events, n, at);
    assert !Closed(events, n, n + 1);
    forall c | c in stored'
      ensures exists i :: i in at' && events[i].c == c && !Closed(events, i, n + 1)
    {
      if c == events[n].c {
        assert n in at';
      } else {
        var i :| i in at && events[i].c == c && !Closed(events, i, n);
        assert i in at' && !Closed(events, i, n + 1);
      }
    }
  }

  lemma OpenedKeeps(events: seq<Event>, n: nat, at: map<nat, Conn>, v: View, v': View, conn: Conn)
    requires n < |events| && ReadOff(events, n, at, v) && Step(events[n], v, v', conn)
    requires Opens(events, n) && conn !in v.admitted && events[n].c !in v.stored
    ensures ReadOff(events, n + 1, at[n := conn], v')
  {
    hide Opens, Hits, QueueReadOff, Asks, StoredReadOff, Closed, HeardFrom, Marked;
    var at' := at[n := conn];
    OneMoreOfAll(events, n, at);
    WhatAsks(events, n);
    JustOpened(events, n);
    OpensIsOpening(events, at);
    OneMoreAsked(v.ops, OpAdd(conn), events, n, at, at');
    PutIn(events, n, at, v.stored, conn);
    assert at'.Values == at.Values + {conn};
  }

  /** An event that asks for nothing and takes nothing from the queue: at most a connection has been heard from. */
  lemma QuietKeeps(events: seq<Event>, n: nat, at: map<nat, Conn>, v: View, v': View)
    requires n < |events| && ReadOff(events, n, at, v) && !events[n].TimerOp? && !Asks(events, n)
    requires v' == v.(heard := v'.heard, dropped := v'.dropped) && v'.heard <= v.admitted
    requires forall i :: i in at ==> (at[i] in v'.heard <==> at[i] in v.heard || (events[n].FrameIn? && Hits(events, i, n)))
    requires forall i :: i in at && Hits(events, i, n) ==> !events[n].Closing?
    requires forall i :: i in at && Hits(events, i, n) && events[n].MarkedDead? ==> at[i] in v.dead
    ensures ReadOff(events, n + 1, at, v')
  {
    hide Opens, Hits, QueueReadOff, Asks, Closed, HeardFrom, Marked;
    OneMoreOfAll(events, n, at);
    WhatAsks(events, n);
    NothingAsked(v.ops, events, n, at);
  }

  lemma ClosedKeeps(events: seq<Event>, n: nat, at: map<nat, Conn>, v: View, v': View, h: nat)
    requires n < |events| && ReadOff(events, n, at, v) && events[n].Closing? && events[n].c in v.stored
    requires Step(events[n], v, v', null)
    requires h in at && Hits(events, h, n) && v.stored[events[n].c] == at[h]
    requires forall i :: 0 <= i < n && Hits(events, i, n) ==> i == h
    ensures ReadOff(events, n + 1, at, v')
  {
    hide Opens, Hits, QueueReadOff, Closed, HeardFrom, Marked;
    OneMoreOfAll(events, n, at);
    WhatAsks(events, n);
    OpensIsOpening(events, at);
    OneMoreAsked(v.ops, OpRemove(at[h]), events, n, at, at);
    TakenOut(events, n, at, v.stored, h);
  }

  lemma TakenOut(events: seq<Event>, n: nat, at: map<nat, Conn>, stored: map<nat, Conn>, h: nat)
    requires n < |events| && events[n].Closing? && events[n].c in stored && h in at && Hits(events, h, n)
    requires forall i :: i in at ==> i < n && events[i].Opening? && Opens(events, i)
    requires StoredReadOff(events, n, at, stored)
    requires forall i :: 0 <= i < n && Hits(events, i, n) ==> i == h
    ensures StoredReadOff(events, n + 1, at, stored - {events[n].c})
  {
  }

  lemma MarkedKeeps(events: seq<Event>, n: nat, at: map<nat, Conn>, v: View, v': View, h: nat)
    requires n < |events| && ReadOff(events, n, at, v) && events[n].MarkedDead? && events[n].c in v.stored
    requires Step(events[n], v, v', null)
    requires h in at && Hits(events, h, n) && v.stored[events[n].c] == at[h] && at[h] !in v.dead
    requires forall i :: 0 <= i < n && Hits(events, i, n) ==> i == h
    ensures ReadOff(events, n + 1, at, v')
  {
    hide Opens, Hits, QueueReadOff, Closed, HeardFrom, Marked;
    OneMoreOfAll(events, n, at);
    WhatAsks(events, n);
    OpensIsOpening(events, at);
    OneMoreAsked(v.ops, v'.ops[|v.ops|], events, n, at, at);
  }

  lemma ServedKeeps(events: seq<Event>, n: nat, at: map<nat, Conn>, v: View, v': View)
    requires n < |events| && ReadOff(events, n, at, v) && Step(events[n], v, v', null) && events[n].TimerOp?
    requires !Asks(events, n)
    ensures ReadOff(events, n + 1, at, v')
  {
    hide Opens, Hits, QueueReadOff, Asks, Closed, HeardFrom, Marked;
    OneMoreOfAll(events, n, at);
    WhatAsks(events, n);
    OneServed(v.ops, events, n, at);
  }

  /** An event that happens to no connection. */
  lemma UnhitKeeps(events: seq<Event>, n: nat, at: map<nat, Conn>, v: View)
    requires n < |events| && ReadOff(events, n, at, v) && !events[n].TimerOp? && !Opens(events, n)
    requires forall i :: 0 <= i < n && Hits(events, i, n) ==> events[n].Opening?
    ensures ReadOff(events, n + 1, at, v)
  {
    hide Opens, Hits, QueueReadOff, StoredReadOff, Closed, HeardFrom, Marked;
    QuietKeeps(events, n, at, v, v);
  }

  lemma TickKeeps(events: seq<Event>, n: nat, at: map<nat, Conn>, v: View, v': View)
    requires n < |events| && ReadOff(events, n, at, v) && Step(events[n], v, v', null) && events[n].TimerTick?
    ensures ReadOff(events, n + 1, at, v')
  {
    hide Opens, Hits, QueueReadOff, StoredReadOff, Closed, HeardFrom, Marked;
    WhatAsks(events, n);
    QuietKeeps(events, n, at, v, v');
  }

  lemma OpeningKeeps(events: seq<Event>, n: nat, at: map<nat, Conn>, v: View, v': View, conn: Conn?)
    requires n < |events| && ReadOff(events, n, at, v) && Step(events[n], v, v', conn) && events[n].Opening?
    ensures Opens(events, n) ==> conn != null && ReadOff(events, n + 1, at[n := conn], v')
    ensures !Opens(events, n) ==> ReadOff(events, n + 1, at, v')
  {
    hide Hits, ReadOff;
    if !events[n].fails {
      OpensIfFree(events, n, at, v);
    }
    if Opens(events, n) {
      OpenedKeeps(events, n, at, v, v', conn);
    } else {
      UnhitKeeps(events, n, at, v);
    }
  }

  lemma FrameKeeps(events: seq<Event>, n: nat, at: map<nat, Conn>, v: View, v': View)
    requires n < |events| && ReadOff(events, n, at, v) && Step(events[n], v, v', null) && events[n].FrameIn?
    ensures ReadOff(events, n + 1, at, v')
  {
    hide Hits, Opens, QueueReadOff, Closed, HeardFrom, Marked;
    var c := events[n].c;
    WhatAsks(events, n);
    if c in v.stored {
      var h := Holder(events, n, at, v, c);
      QuietKeeps(events, n, at, v, v');
    } else {
      NoHolder(events, n, at, v, c);
      QuietKeeps(events, n, at, v, v');
    }
  }

  lemma ClosingKeeps(events: seq<Event>, n: nat, at: map<nat, Conn>, v: View, v': View)
    requires n < |events| && ReadOff(events, n, at, v) && Step(events[n], v, v', null) && events[n].Closing?
    ensures ReadOff(events, n + 1, at, v')
  {
    hide Hits, Opens, ReadOff;
    var c := events[n].c;
    WhatAsks(events, n);
    if c in v.stored {
      var h := Holder(events, n, at, v, c);
      ClosedKeeps(events, n, at, v, v', h);
    } else {
      NoHolder(events, n, at, v, c);
      UnhitKeeps(events, n, at, v);
    }
  }

  lemma MarkingKeeps(events: seq<Event>, n: nat, at: map<nat, Conn>, v: View, v': View)
    requires n < |events| && ReadOff(events, n, at, v) && Step(events[n], v, v', null) && events[n].MarkedDead?
    ensures ReadOff(events, n + 1, at, v')
  {
    hide Hits, Opens, QueueReadOff, StoredReadOff, Closed, HeardFrom, Marked;
    var c := events[n].c;
    WhatAsks(events, n);
    if c in v.stored {
      var h := Holder(events, n, at, v, c);
      if at[h] in v.dead {
        assert Marked(events, h, n);
        QuietKeeps(events, n, at, v, v');
      } else {
        MarkedKeeps(events, n, at, v, v', h);
      }
    } else {
      NoHolder(events, n, at, v, c);
      UnhitKeeps(events, n, at, v);
    }
  }

  /** Whatever an event does, the events including it tell what the server is like then. */
  lemma StepKeeps(events: seq<Event>, n: nat, at: map<nat, Conn>, v: View, v': View, conn: Conn?)
    returns (at': map<nat, Conn>)
    requires n < |events| && ReadOff(events, n, at, v) && Step(events[n], v, v', conn)
    ensures ReadOff(events, n + 1, at', v')
    ensures Opens(events, n) ==> conn != null && at' == at[n := conn]
    ensures !Opens(events, n) ==> at' == at
  {
    hide Opens, Hits, ReadOff, Asks;
    at' := at;
    WhatAsks(events, n);
    match events[n]
    case Opening(_, _, _) =>
      OpeningKeeps(events, n, at, v, v', conn);
      if Opens(events, n) {
        at' := at[n := conn];
      }
    case Closing(_) => ClosingKeeps(events, n, at, v, v');
    case FrameIn(_) => FrameKeeps(events, n, at, v, v');
    case MarkedDead(_, _) => MarkingKeeps(events, n, at, v, v');
    case TimerOp => ServedKeeps(events, n, at, v, v');
    case TimerTick => TickKeeps(events, n, at, v, v');
  }
}
