/** broker/heartbeat.go: HeartbeatTimer - which connections are watched, and the sweep over overdue ones. */
module Heartbeat {
  import opened HeapOrder
  import opened Heap

  /** What the timer meets outside: time.Now().Unix(), which never goes back, frames that come in, and Conn.Ping, which
      may fail; heard records the connections a frame came in on, pinged and lost those that a ping was sent to, and
      could not be sent to. */
  class World {
    var t: int
    ghost var heard: seq<Conn>
    ghost var pinged: seq<Conn>
    ghost var lost: seq<Conn>

    constructor (start: int)
      ensures t == start && heard == pinged == lost == []
    {
      t, heard, pinged, lost := start, [], [], [];
    }

    ghost function Record(all: set<Conn>): Log
      reads `heard, `pinged, `lost, all`lastReceiveFrameTime
    {
      Log(heard, pinged, lost, Times(all))
    }

    method Hear(conn: Conn)
      modifies `heard
      ensures heard == old(heard) + [conn]
    {
      heard := heard + [conn];
    }

    method Now() returns (n: int)
      modifies `t
      ensures n == t >= old(t)
    {
      var step :| 0 <= step;
      t := t + step;
      n := t;
    }

    method Ping(conn: Conn) returns (ok: bool)
      modifies `pinged, `lost
      ensures if ok then pinged == old(pinged) + [conn] && lost == old(lost) else pinged == old(pinged) && lost == old(lost) + [conn]
    {
      ok := *;
      if ok {
        pinged := pinged + [conn];
      } else {
        lost := lost + [conn];
      }
    }
  }

  datatype Op = OpAdd(conn: Conn) | OpRemove(conn: Conn) | OpUpdate(conn: Conn, priority: int)

  /** The watched connections after an operation. */
  function After(op: Op, watched: set<Conn>): set<Conn> {
    match op
    case OpAdd(c) => watched + {c}
    case OpRemove(c) => watched - {c}
    case OpUpdate(_, _) => watched
  }

  /** connToPQItem and the items of the queue name each other. */
  ghost predicate Tracks(items: set<PQItem>, m: map<Conn, PQItem>) {
    && (forall c :: c in m ==> m[c] in items && m[c].value == c)
    && (forall it :: it in items ==> it.value in m && m[it.value] == it)
  }

  ghost function Conns(items: set<PQItem>): set<Conn> { set it | it in items :: it.value }

  /** No stored priority is later than its connection's deadline, unless the connection has been marked dead. */
  ghost predicate LowerBound(items: set<PQItem>)
    reads items`priority, Conns(items)`lastReceiveFrameTime, Conns(items)`isDeadConn
  {
    forall it :: it in items ==> it.value in Conns(items) && (it.value.isDeadConn || it.priority <= it.value.Deadline())
  }

  ghost function Dead(conns: set<Conn>): set<Conn>
    reads conns`isDeadConn
  {
    set c | c in conns && c.isDeadConn
  }

  ghost predicate NoneDead(conns: set<Conn>)
    reads conns`isDeadConn
  {
    forall c :: c in conns ==> !c.isDeadConn
  }

  /** Nothing has been received in the future. */
  ghost predicate FromPast(conns: set<Conn>, t: int)
    reads conns`lastReceiveFrameTime
  {
    forall c :: c in conns ==> c.lastReceiveFrameTime <= t
  }

  /** When the last frame came in. */
  ghost function Times(conns: set<Conn>): (times: map<Conn, int>)
    reads conns`lastReceiveFrameTime
  {
    map c | c in conns :: c.lastReceiveFrameTime
  }

  /** These times have moved on, if at all, and only for the connections in who. */
  ghost predicate OnlyMoved(before: map<Conn, int>, after: map<Conn, int>, who: set<Conn>) {
    && before.Keys <= after.Keys
    && forall c :: c in before ==> before[c] <= after[c] && (c in who || after[c] == before[c])
  }

  /** What the world has recorded, and when the last frames came in. */
  datatype Log = Log(heard: seq<Conn>, pinged: seq<Conn>, lost: seq<Conn>, times: map<Conn, int>)

  /** Between a and b, frames have come in, pings been sent and been lost; no time has moved for any other reason. */
  ghost predicate Logged(a: Log, b: Log, frames: seq<Conn>, pings: seq<Conn>, lost: seq<Conn>) {
    && b.heard == a.heard + frames && b.pinged == a.pinged + pings && b.lost == a.lost + lost
    && OnlyMoved(a.times, b.times, Named(frames) + Named(pings))
  }

  lemma LoggedTwice(a: Log, b: Log, c: Log, frames: seq<Conn>, pings: seq<Conn>, lost: seq<Conn>,
                    frames': seq<Conn>, pings': seq<Conn>, lost': seq<Conn>)
    requires Logged(a, b, frames, pings, lost) && Logged(b, c, frames', pings', lost')
    ensures Logged(a, c, frames + frames', pings + pings', lost + lost')
  {
    hide OnlyMoved;
    MovedTwice(a.times, b.times, c.times, Named(frames) + Named(pings), Named(frames') + Named(pings'));
    assert Named(frames + frames') + Named(pings + pings')
        == (Named(frames) + Named(pings)) + (Named(frames') + Named(pings'));
  }

  lemma LoggedMoves(a: Log, b: Log, pings: seq<Conn>, lost: seq<Conn>)
    requires Logged(a, b, [], pings, lost)
    ensures OnlyMoved(a.times, b.times, Named([]) + Named(pings))
  {
  }

  lemma OneLogged(a: Log, b: Log, el: PQItem, late: bool, kept: bool)
    requires b.heard == a.heard && b.pinged == a.pinged + (if kept && late then [el.value] else [])
    requires b.lost == a.lost + (if kept then [] else [el.value]) && (!kept ==> late)
    requires a.times.Keys == b.times.Keys && el.value in a.times && a.times[el.value] <= b.times[el.value]
    requires forall c :: c in a.times && c != el.value ==> b.times[c] == a.times[c]
    requires (kept && late) || b.times[el.value] == a.times[el.value]
    ensures Logged(a, b, [], Tries(el, late, kept, true), Tries(el, late, kept, false))
  {
    NamedTries(el, late, kept);
  }

  lemma NothingLogged(a: Log)
    ensures Logged(a, a, [], [], [])
  {
  }

  /** With connections that were not there before. */
  lemma NothingLoggedOfMore(a: Log, b: Log)
    requires a.heard == b.heard && a.pinged == b.pinged && a.lost == b.lost
    requires forall c :: c in a.times ==> c in b.times && b.times[c] == a.times[c]
    ensures Logged(a, b, [], [], [])
  {
  }

  lemma MovedTwice(a: map<Conn, int>, b: map<Conn, int>, c: map<Conn, int>, who: set<Conn>, who': set<Conn>)
    requires OnlyMoved(a, b, who) && OnlyMoved(b, c, who')
    ensures OnlyMoved(a, c, who + who')
  {
  }

  function Named(s: seq<Conn>): set<Conn> { set c | c in s }

  /** One turn of a sweep: the item examined, whether its connection was past its deadline then, and whether it went back. */
  datatype Turn = Turn(item: PQItem, late: bool, kept: bool)

  /** The connections that a ping was tried on, in order, with that outcome. */
  function Pings(turns: seq<Turn>, ok: bool): seq<Conn> {
    if turns == [] then [] else
      Pings(turns[..|turns| - 1], ok) + PingOf(turns[|turns| - 1], ok)
  }

  function PingOf(turn: Turn, ok: bool): seq<Conn> {
    if turn.late && turn.kept == ok then [turn.item.value] else []
  }

  function Tried(turns: seq<Turn>): set<Conn> { set turn | turn in turns && turn.late :: turn.item.value }

  /** What a sweep does to connections: those not kept were past their deadline. late are the connections past it at the
      start of the sweep, frames those heard from since: who was past it when examined was so at the start; and who was
      so at the start was so when examined, unless heard from or pinged in between. */
  ghost predicate Judged(turns: seq<Turn>, late: set<Conn>, frames: seq<Conn>) {
    forall k :: 0 <= k < |turns| ==>
      && (!turns[k].kept ==> turns[k].late)
      && (turns[k].late ==> turns[k].item.value in late)
      && (turns[k].item.value in late && turns[k].item.value !in frames && turns[k].item.value !in Tried(turns[..k]) ==>
            turns[k].late)
  }

  /** The items due for examination. */
  ghost function Overdue(items: set<PQItem>, now: int): set<PQItem>
    reads items`priority
  {
    set it | it in items && it.priority < now
  }

  /** The timer. all is any set of connections that includes the watched ones. */
  class HeartbeatTimer {
    var opC: seq<Op>
    const pq: PriorityQueue
    var connToPQItem: map<Conn, PQItem>
    const maxCheckTimeoutConn: nat

    constructor (maxCheckTimeoutConn: nat)
      ensures Valid() && fresh(pq) && opC == [] && connToPQItem == map[] && pq.items == []
      ensures this.maxCheckTimeoutConn == maxCheckTimeoutConn
    {
      opC, connToPQItem, this.maxCheckTimeoutConn := [], map[], maxCheckTimeoutConn;
      pq := new PriorityQueue();
    }

    ghost function Items(): set<PQItem>
      reads this, pq
    {
      Elems(pq.items)
    }

    /** The scheduler's invariant: heap order, every item at its index, and the map a bijection onto the items. */
    ghost predicate Valid()
      reads this, pq, Items()
    {
      pq.Valid() && Tracks(Items(), connToPQItem)
    }

    /** AddConn, RemoveConn and UpdateConn only put a request into the channel. */
    method AddConn(conn: Conn)
      modifies `opC
      ensures opC == old(opC) + [OpAdd(conn)]
    {
      opC := opC + [OpAdd(conn)];
    }

    method RemoveConn(conn: Conn)
      modifies `opC
      ensures opC == old(opC) + [OpRemove(conn)]
    {
      opC := opC + [OpRemove(conn)];
    }

    method UpdateConn(conn: Conn, updatePriority: int)
      modifies `opC
      ensures opC == old(opC) + [OpUpdate(conn, updatePriority)]
    {
      opC := opC + [OpUpdate(conn, updatePriority)];
    }

    /** One turn of Run that takes a request out of the channel. Only dead connections get priorities of their own. */
    method TakeOp()
      requires Valid() && opC != [] && (opC[0].OpAdd? ==> opC[0].conn !in connToPQItem)
      requires LowerBound(Items()) && (opC[0].OpUpdate? ==> opC[0].conn.isDeadConn)
      modifies this, pq, Items()
      ensures Valid() && opC == old(opC[1..]) && connToPQItem.Keys == After(old(opC[0]), old(connToPQItem.Keys))
      ensures LowerBound(Items()) && fresh(Items() - old(Items()))
    {
      hide Tracks, Ordered, PriorityQueue.Valid, LowerBound;
      var op := opC[0];
      opC := opC[1..];
      match op
      case OpAdd(conn) => ApplyAdd(conn);
      case OpRemove(conn) => ApplyRemove(conn);
      case OpUpdate(conn, priority) => ApplyUpdate(conn, priority);
    }

    /** addConn: for a connection that is not watched yet. */
    method ApplyAdd(conn: Conn)
      requires Valid() && conn !in connToPQItem && LowerBound(Items())
      modifies this, pq, Items()
      ensures Valid() && fresh(Items() - old(Items())) && opC == old(opC) && LowerBound(Items())
      ensures connToPQItem.Keys == old(connToPQItem.Keys) + {conn}
      ensures forall c :: c in old(connToPQItem) ==> connToPQItem[c] == old(connToPQItem[c])
      ensures connToPQItem[conn].priority == conn.Deadline()
      ensures forall it :: it in old(Items()) ==> it.priority == old(it.priority)
    {
      hide Tracks, Ordered, PriorityQueue.Valid;
      ghost var items := Items();
      var item := new PQItem(conn, conn.Deadline());
      StillBounded(items, item);
      Watch(item);
    }

    /** A new item joins the queue and the map. */
    method Watch(item: PQItem)
      requires Valid() && item.value !in connToPQItem && item !in Items() && LowerBound(Items() + {item})
      modifies `connToPQItem, pq, Items()`index, item`index
      ensures Valid() && Items() == old(Items()) + {item} && LowerBound(Items())
      ensures connToPQItem == old(connToPQItem)[item.value := item]
    {
      hide Tracks, Ordered, PriorityQueue.Valid;
      AddTracked(Items(), item, connToPQItem);
      pq.Push(item);
      connToPQItem := connToPQItem[item.value := item];
    }

    /** removeConn: nothing happens when the connection is not watched. */
    method ApplyRemove(conn: Conn)
      requires Valid() && LowerBound(Items())
      modifies this, pq, Items()
      ensures Valid() && opC == old(opC) && Items() <= old(Items()) && LowerBound(Items())
      ensures connToPQItem == old(connToPQItem) - {conn}
      ensures forall it :: it in old(Items()) ==> it.priority == old(it.priority)
    {
      hide Ordered, PriorityQueue.Valid;
      if conn !in connToPQItem {
        assert connToPQItem - {conn} == connToPQItem;
        return;
      }
      var item := connToPQItem[conn];
      connToPQItem := connToPQItem - {conn};
      pq.Remove(item);
    }

    /** updateConn: setDead is the only one to ask for it. */
    method ApplyUpdate(conn: Conn, updatePriority: int)
      requires Valid() && LowerBound(Items()) && conn.isDeadConn
      modifies this, pq, Items()
      ensures Valid() && opC == old(opC) && connToPQItem == old(connToPQItem) && Items() == old(Items())
      ensures LowerBound(Items())
      ensures forall it :: it in old(Items()) ==>
                it.priority == if it.value == conn then updatePriority else old(it.priority)
    {
      hide Ordered, PriorityQueue.Valid;
      if conn !in connToPQItem {
        return;
      }
      pq.Update(connToPQItem[conn], updatePriority);
    }

    /** An item taken out of the queue goes back with the given priority. */
    method PutBack(el: PQItem, priority: int)
      requires pq.Valid() && el !in Items() && Tracks(Items() + {el}, connToPQItem)
      requires LowerBound(Items()) && (el.value.isDeadConn || priority <= el.value.Deadline())
      modifies pq, Items()`index, el`index, el`priority
      ensures Valid() && Items() == old(Items()) + {el} && el.priority == priority && LowerBound(Items())
    {
      hide Tracks, PriorityQueue.Valid;
      el.priority := priority;
      pq.Push(el);
    }

    /** A frame comes in: OnReceiveData's first step. */
    method Receive(conn: Conn, world: World, ghost items: set<PQItem>, ghost all: set<Conn>)
      requires LowerBound(items) && conn in all && FromPast(all, world.t)
      modifies conn`lastReceiveFrameTime, world`t, world`heard
      ensures LowerBound(items) && FromPast(all, world.t) && (!conn.isDeadConn ==> conn.Deadline() >= world.t)
      ensures conn.lastReceiveFrameTime == world.t >= old(world.t) && world.heard == old(world.heard) + [conn]
      ensures OnlyMoved(old(Times(all)), Times(all), {conn})
    {
      world.Hear(conn);
      Touch(conn, world, items, all);
    }

    /** A frame, or the sending of a ping, sets the time of the last frame: deadlines only move on. */
    method Touch(conn: Conn, world: World, ghost items: set<PQItem>, ghost all: set<Conn>)
      requires LowerBound(items) && conn in all && FromPast(all, world.t)
      modifies conn`lastReceiveFrameTime, world`t
      ensures LowerBound(items) && FromPast(all, world.t) && (!conn.isDeadConn ==> conn.Deadline() >= world.t)
      ensures conn.lastReceiveFrameTime == world.t >= old(world.t)
      ensures OnlyMoved(old(Times(all)), Times(all), {conn})
    {
      var t := world.Now();
      conn.lastReceiveFrameTime := t;
    }

    /** removeConnToPGItem, for an item that is not in the queue. */
    method Forget(el: PQItem)
      requires pq.Valid() && el !in Items() && Tracks(Items() + {el}, connToPQItem)
      modifies `connToPQItem
      ensures Valid() && connToPQItem == old(connToPQItem) - {el.value}
    {
      hide Tracks;
      DropTracked(Items(), el, connToPQItem);
      connToPQItem := connToPQItem - {el.value};
    }

    /** One overdue item, taken out of the queue: a connection that has received something since goes back with its
        new deadline; one that is overdue itself goes back if a ping can be sent to it, and is dropped if not. */
    method Examine(el: PQItem, now: int, world: World, ghost all: set<Conn>) returns (kept: bool)
      requires pq.Valid() && el !in Items() && Tracks(Items() + {el}, connToPQItem)
      requires LowerBound(Items()) && el.value in all && FromPast(all, world.t) && now <= world.t
      modifies `connToPQItem, pq, Items(), el, el.value`lastReceiveFrameTime, world`t, world`pinged, world`lost
      ensures Valid() && LowerBound(Items()) && FromPast(all, world.t) && world.t >= old(world.t)
      ensures kept ==> Items() == old(Items()) + {el} && connToPQItem == old(connToPQItem)
                       && el.priority == el.value.Deadline() && (el.value.isDeadConn || el.priority >= now)
      ensures !kept ==> Items() == old(Items()) && connToPQItem == old(connToPQItem) - {el.value}
                        && old(el.value.Deadline()) <= now
      ensures world.pinged == old(world.pinged) + (if kept && old(el.value.Deadline()) <= now then [el.value] else [])
      ensures world.lost == old(world.lost) + (if kept then [] else [el.value])
      ensures forall it :: it in old(Items()) ==> it.priority == old(it.priority)
      ensures el.value.lastReceiveFrameTime ==
              if kept && old(el.value.Deadline()) <= now then world.t else old(el.value.lastReceiveFrameTime)
    {
      hide Tracks, PriorityQueue.Valid, FromPast, OnlyMoved, Valid;
      var conn := el.value;
      var deadline := conn.Deadline();
      if deadline <= now {
        var pinged := world.Ping(conn);
        if pinged {
          Touch(conn, world, Items(), all);
          PutBack(el, conn.Deadline());
          return true;
        }
        Forget(el);
        return false;
      }
      PutBack(el, deadline);
      return true;
    }

    /** One turn of the sweep: the most urgent item is examined if it is overdue; if it is not, none is,
        it goes back and the sweep is over. */
    method SweepStep(now: int, world: World, ghost all: set<Conn>) returns (el: PQItem?, kept: bool, ghost late: bool)
      requires Valid() && LowerBound(Items()) && Conns(Items()) <= all && FromPast(all, world.t) && now <= world.t
      modifies `connToPQItem, pq, Items(), Conns(Items())`lastReceiveFrameTime, world`t, world`pinged, world`lost
      ensures Valid() && LowerBound(Items()) && FromPast(all, world.t) && world.t >= old(world.t)
      ensures el == null ==> Overdue(Items(), now) == old(Overdue(Items(), now)) == {} && Items() == old(Items())
      ensures el == null ==> connToPQItem == old(connToPQItem)
      ensures el != null ==>
                && el in old(Overdue(Items(), now)) && el.value in old(connToPQItem) && el.value in old(Conns(Items()))
                && (!el.value.isDeadConn ==> Overdue(Items(), now) == old(Overdue(Items(), now)) - {el})
                && (el.value.isDeadConn && kept && now >= 0 ==> Overdue(Items(), now) == old(Overdue(Items(), now)))
                && (kept ==> Items() == old(Items()) && connToPQItem == old(connToPQItem))
                && (!kept ==> Items() == old(Items()) - {el} && connToPQItem == old(connToPQItem) - {el.value}
                              && old(el.value.Deadline()) <= now)
      ensures el == null ==> !late && kept
      ensures el != null ==> el in old(Items()) && late == old(el.value.Deadline() <= now) && (!kept ==> late)
      ensures el != null && kept ==> el.priority == el.value.Deadline()
      ensures el != null ==> forall it :: it in old(Items()) ==> old(el.priority) <= old(it.priority)
      ensures Logged(old(world.Record(all)), world.Record(all),
                     [], Tries(el, late, kept, true), Tries(el, late, kept, false))
    {
      hide Tracks, LowerBound, FromPast, Overdue, PriorityQueue.Valid, Logged;
      NothingLogged(world.Record(all));
      kept, late := true, false;
      ghost var items := Items();
      el := TakeOverdue(now);
      if el == null {
        return;
      }
      ValueIsWatched(items, el, connToPQItem);
      assert items - {el} == Items();
      late := el.value.Deadline() <= now;
      kept := Judge(el, now, world, all);
    }

    /** The first item if it is overdue; if it is not, none is, and it goes back. */
    method TakeOverdue(now: int) returns (el: PQItem?)
      requires Valid() && LowerBound(Items())
      modifies pq, Items()`index
      ensures el == null ==> Valid() && Items() == old(Items()) && Overdue(Items(), now) == {}
      ensures el != null ==>
                && pq.Valid() && el in old(Items()) && el !in Items() && Items() + {el} == old(Items())
                && Tracks(Items() + {el}, connToPQItem) && el.priority < now
                && forall it :: it in old(Items()) ==> el.priority <= it.priority
      ensures LowerBound(Items())
    {
      hide Tracks, PriorityQueue.Valid;
      ghost var items := Items();
      el := TakeFirst();
      assert LowerBound(items);
      if el == null {
        return;
      }
      if el.priority >= now {
        pq.Push(el);
        el := null;
      } else {
        FewerBounded(items, Items());
      }
    }

    /** Examine, with what it does to the set of overdue items. */
    method Judge(el: PQItem, now: int, world: World, ghost all: set<Conn>) returns (kept: bool)
      requires pq.Valid() && el !in Items() && Tracks(Items() + {el}, connToPQItem) && el.priority < now
      requires LowerBound(Items()) && el.value in all && FromPast(all, world.t) && now <= world.t
      modifies `connToPQItem, pq, Items(), el, el.value`lastReceiveFrameTime, world`t, world`pinged, world`lost
      ensures Valid() && LowerBound(Items()) && FromPast(all, world.t) && world.t >= old(world.t)
      ensures el in old(Overdue(Items() + {el}, now))
      ensures !el.value.isDeadConn ==> Overdue(Items(), now) == old(Overdue(Items() + {el}, now)) - {el}
      ensures el.value.isDeadConn && kept && now >= 0 ==> Overdue(Items(), now) == old(Overdue(Items() + {el}, now))
      ensures kept ==> Items() == old(Items()) + {el} && connToPQItem == old(connToPQItem)
      ensures !kept ==> Items() == old(Items()) && connToPQItem == old(connToPQItem) - {el.value}
                        && old(el.value.Deadline()) <= now
      ensures kept ==> el.priority == el.value.Deadline()
      ensures Logged(old(world.Record(all)), world.Record(all), [], Tries(el, old(el.value.Deadline()) <= now, kept, true),
                     Tries(el, old(el.value.Deadline()) <= now, kept, false))
    {
      hide Tracks, LowerBound, FromPast, Logged, OnlyMoved, PriorityQueue.Valid, Elems, Tries;
      ghost var log, late := world.Record(all), el.value.Deadline() <= now;
      assert el.value.lastReceiveFrameTime <= world.t by {
        InPast(el.value, all, world.t);
      }
      OverdueWithout(Items() + {el}, el, now);
      assert (Items() + {el}) - {el} == Items();
      kept := Examine(el, now, world, all);
      OneLogged(log, world.Record(all), el, late, kept);
      if kept {
        OverdueWithout(Items(), el, now);
        assert Items() - {el} == old(Items());
      }
    }

    /** Pop, in the timer's terms. */
    method TakeFirst() returns (el: PQItem?)
      requires Valid()
      modifies pq, Items()`index
      ensures el == null ==> Valid() && Items() == old(Items()) == {}
      ensures el != null ==>
                && pq.Valid() && el in old(Items()) && el !in Items() && Items() + {el} == old(Items())
                && Tracks(Items() + {el}, connToPQItem)
                && forall it :: it in old(Items()) ==> el.priority <= it.priority
    {
      hide Tracks;
      ghost var items := Items();
      el := pq.Pop();
      assert el != null ==> items == Items() + {el};
    }

    /** Frames that arrive on other goroutines: any watched connections, any number of them, as time goes on. */
    method Traffic(world: World, ghost all: set<Conn>) returns (ghost frames: seq<Conn>)
      requires LowerBound(Items()) && Conns(Items()) <= all && FromPast(all, world.t)
      modifies Conns(Items())`lastReceiveFrameTime, world`t, world`heard
      ensures LowerBound(Items()) && FromPast(all, world.t) && world.t >= old(world.t)
      ensures world.heard == old(world.heard) + frames && OnlyMoved(old(Times(all)), Times(all), Named(frames))
    {
      frames := [];
      ghost var times := Times(all);
      var n :| 0 <= n;
      for i := 0 to n
        invariant Items() == old(Items()) && LowerBound(Items()) && FromPast(all, world.t) && world.t >= old(world.t)
        invariant world.heard == old(world.heard) + frames && OnlyMoved(times, Times(all), Named(frames))
      {
        if |pq.items| > 0 {
          ghost var times' := Times(all);
          var conn := Frame(world, all);
          OneMoreMoved(times, times', Times(all), frames, conn);
          frames := frames + [conn];
        }
      }
    }

    /** One frame, on some watched connection. */
    method Frame(world: World, ghost all: set<Conn>) returns (conn: Conn)
      requires LowerBound(Items()) && Conns(Items()) <= all && FromPast(all, world.t) && |pq.items| > 0
      modifies Conns(Items())`lastReceiveFrameTime, world`t, world`heard
      ensures LowerBound(Items()) && FromPast(all, world.t) && world.t >= old(world.t) && Items() == old(Items())
      ensures world.heard == old(world.heard) + [conn] && OnlyMoved(old(Times(all)), Times(all), {conn})
    {
      var k :| 0 <= k < |pq.items|;
      var it := pq.items[k];
      assert it in Items() && it.value in Conns(Items());
      Receive(it.value, world, Items(), all);
      conn := it.value;
    }

    /** checkTimeoutConn. Whatever the state of the connections, the scheduler's invariant and the lower bounds survive.
        A ping is tried on the connections of exactly those items examined that were past their deadline then, once for
        each such turn; those it could not be sent to are closed and no longer watched, and no others are. The time of a
        connection's last frame moves only with a frame or with a ping that was sent. If no overdue connection is marked
        dead, the overdue ones are examined once each, up to the budget; and if the budget suffices, none ends with a
        stored priority before now, nor, unless it is dead, with a deadline before now. A dead overdue connection that can
        be pinged uses the whole budget up. */
    method Sweep(world: World, ghost all: set<Conn>)
      returns (now: int, ghost examined: seq<PQItem>, closed: seq<Conn>, ghost turns: seq<Turn>, ghost frames: seq<Conn>)
      requires Valid() && LowerBound(Items()) && Conns(Items()) <= all && FromPast(all, world.t)
      modifies `connToPQItem, pq, Items(), Conns(Items())`lastReceiveFrameTime, world
      ensures Valid() && ClosedOf(connToPQItem, old(connToPQItem), closed) && opC == old(opC)
      ensures LowerBound(Items()) && FromPast(all, world.t) && old(world.t) <= now <= world.t && Items() <= old(Items())
      ensures Listed(turns, examined) && Judged(turns, old(Late(Conns(Items()), now)), frames)
      ensures closed == Pings(turns, false)
      ensures Logged(old(world.Record(all)), world.Record(all), frames, Pings(turns, true), closed)
      ensures AllIn(closed, old(Late(Conns(Items()), now)))
      ensures NoneDead(Conns(old(Overdue(Items(), now)))) ==>
                Thorough(Items(), old(Overdue(Items(), now)), examined, now, maxCheckTimeoutConn + 1)
      ensures now >= 0 && closed == [] && !NoneDead(Conns(old(Overdue(Items(), now)))) ==>
                |examined| == maxCheckTimeoutConn + 1
    {
      hide Tracks, LowerBound, Overdue, Thorough, AllIn, ClosedOf, NoneDead, Logged, Judged, Listed, Pings, Late;
      now := world.Now();
      examined, closed, turns, frames := SweepAt(now, world, all);
    }

    /** The loop of checkTimeoutConn. */
    method SweepAt(now: int, world: World, ghost all: set<Conn>)
      returns (ghost examined: seq<PQItem>, closed: seq<Conn>, ghost turns: seq<Turn>, ghost frames: seq<Conn>)
      requires Valid() && LowerBound(Items()) && Conns(Items()) <= all && FromPast(all, world.t) && now <= world.t
      modifies `connToPQItem, pq, Items(), Conns(Items())`lastReceiveFrameTime, world
      ensures Valid() && ClosedOf(connToPQItem, old(connToPQItem), closed) && Items() <= old(Items())
      ensures LowerBound(Items()) && FromPast(all, world.t) && world.t >= old(world.t)
      ensures Listed(turns, examined) && Judged(turns, old(Late(Conns(Items()), now)), frames)
      ensures closed == Pings(turns, false)
      ensures Logged(old(world.Record(all)), world.Record(all), frames, Pings(turns, true), closed)
      ensures AllIn(closed, old(Late(Conns(Items()), now)))
      ensures NoneDead(Conns(old(Overdue(Items(), now)))) ==>
                Thorough(Items(), old(Overdue(Items(), now)), examined, now, maxCheckTimeoutConn + 1)
      ensures now >= 0 && closed == [] && !NoneDead(Conns(old(Overdue(Items(), now)))) ==>
                |examined| == maxCheckTimeoutConn + 1
    {
      hide Tracks, LowerBound, FromPast, Overdue, Late, AllIn, Examined, ClosedOf, Thorough, PriorityQueue.Valid, NoneDead,
           Elems, Account, Conns, Logged, Times, Judged, Listed, Pings, PingOf, Tries, Turns, Told, Named;
      examined, closed, turns, frames := [], [], [], [];
      var count := 0;
      ghost var items, m, log := Items(), connToPQItem, world.Record(all);
      ghost var due, late := Overdue(items, now), Late(Conns(items), now);
      ghost var alive, d := NoneDead(Conns(due)), SomeDead(due);
      StartOfAccount(due, late, m, alive, d, now);
      StartOfTurns(late);
      NothingLogged(log);
      while true
        invariant 0 <= count == |examined| <= maxCheckTimeoutConn + 1
        invariant Valid() && Items() <= items && Conns(Items()) <= Conns(items) && LowerBound(Items())
        invariant FromPast(all, world.t) && world.t >= old(world.t)
        invariant Logged(log, world.Record(all), frames, Pings(turns, true), closed)
        invariant Turns(turns, examined, closed, late, Late(Conns(Items()), now), frames)
        invariant alive == NoneDead(Conns(due)) && (!alive ==> d != null && d.value.isDeadConn)
        invariant Account(Overdue(Items(), now), Late(Conns(Items()), now), connToPQItem, due, late, m, alive, d,
                          examined, closed, now)
        decreases maxCheckTimeoutConn + 1 - count
      {
        if count > maxCheckTimeoutConn {
          break;
        }
        count := count + 1;
        ghost var over, lateNow, watched := Overdue(Items(), now), Late(Conns(Items()), now), connToPQItem;
        ghost var log', frames', pings := world.Record(all), frames, Pings(turns, true);
        var el, kept;
        ghost var wasLate, heard;
        el, kept, wasLate, heard := SweepTurn(now, world, all);
        FewerConns(Items(), items);
        frames := frames + heard;
        LoggedTwice(log, log', world.Record(all), frames', pings, closed,
                    heard, Tries(el, wasLate, kept, true), Tries(el, wasLate, kept, false));
        if el == null {
          EndOfAccount(over, lateNow, Late(Conns(Items()), now), watched, due, late, m, alive, d, examined, closed, now);
          NothingTried(wasLate, kept, pings, closed);
          EndOfTurns(turns, examined, closed, late, lateNow, Late(Conns(Items()), now), frames', heard);
          break;
        }
        var item: PQItem := el;
        if alive {
          IsAlive(over, lateNow, watched, due, late, m, d, examined, closed, now, item);
        }
        ghost var turn := Turn(item, wasLate, kept);
        OneMoreInAccount(over, Overdue(Items(), now), lateNow, Late(Conns(Items()), now), watched, connToPQItem,
                         due, late, m, alive, d, examined, closed, now, turn, item.value.isDeadConn, heard);
        OneMoreTurn(turns, examined, closed, late, lateNow, Late(Conns(Items()), now), frames', heard, turn);
        examined, turns := examined + [item], turns + [turn];
        if !kept {
          closed := closed + [item.value];
        }
      }
      Reckoned(Items(), Late(Conns(Items()), now), connToPQItem, due, late, m, alive, d, examined, closed, now,
               maxCheckTimeoutConn + 1);
      WholeOfTurns(turns, examined, closed, late, Late(Conns(Items()), now), frames);
    }

    /** Some traffic, then one turn. */
    method SweepTurn(now: int, world: World, ghost all: set<Conn>)
      returns (el: PQItem?, kept: bool, ghost late: bool, ghost frames: seq<Conn>)
      requires Valid() && LowerBound(Items()) && Conns(Items()) <= all && FromPast(all, world.t) && now <= world.t
      modifies `connToPQItem, pq, Items(), Conns(Items())`lastReceiveFrameTime, world
      ensures Valid() && LowerBound(Items()) && FromPast(all, world.t) && world.t >= old(world.t) && Items() <= old(Items())
      ensures el == null ==> Overdue(Items(), now) == old(Overdue(Items(), now)) == {} && connToPQItem == old(connToPQItem)
      ensures el != null ==>
                && el in old(Overdue(Items(), now)) && el.value in old(connToPQItem) && el.value in old(Conns(Items()))
                && (!el.value.isDeadConn ==> Overdue(Items(), now) == old(Overdue(Items(), now)) - {el})
                && (el.value.isDeadConn && kept && now >= 0 ==> Overdue(Items(), now) == old(Overdue(Items(), now)))
                && connToPQItem == (if kept then old(connToPQItem) else old(connToPQItem) - {el.value})
      ensures Late(Conns(Items()), now) <= old(Late(Conns(Items()), now))
      ensures el != null ==> Told(el, late, kept, old(Late(Conns(Items()), now)), Late(Conns(Items()), now), frames)
      ensures el == null ==> old(Late(Conns(Items()), now)) <= Late(Conns(Items()), now) + Named(frames)
      ensures Logged(old(world.Record(all)), world.Record(all),
                     frames, Tries(el, late, kept, true), Tries(el, late, kept, false))
    {
      hide LowerBound, FromPast, Late, Tracks, Overdue, PriorityQueue.Valid, Logged, Told, Named, Tries;
      ghost var a, lateBefore := world.Record(all), Late(Conns(Items()), now);
      frames := SomeTraffic(now, world, all);
      ghost var b, lateThen := world.Record(all), Late(Conns(Items()), now);
      el, kept, late := QuietTurn(now, world, all);
      ToldOfAll(el, late, kept, lateBefore, lateThen, Late(Conns(Items()), now), frames);
      LoggedTwice(a, b, world.Record(all), frames, [], [], [], Tries(el, late, kept, true), Tries(el, late, kept, false));
      EmptyFirst(frames, Tries(el, late, kept, true), Tries(el, late, kept, false));
    }

    /** Traffic, and what it leaves of the deadlines. */
    method SomeTraffic(now: int, world: World, ghost all: set<Conn>) returns (ghost frames: seq<Conn>)
      requires LowerBound(Items()) && Conns(Items()) <= all && FromPast(all, world.t)
      modifies Conns(Items())`lastReceiveFrameTime, world`t, world`heard
      ensures LowerBound(Items()) && FromPast(all, world.t) && world.t >= old(world.t)
      ensures Late(Conns(Items()), now) <= old(Late(Conns(Items()), now))
      ensures old(Late(Conns(Items()), now)) <= Late(Conns(Items()), now) + Named(frames)
      ensures Logged(old(world.Record(all)), world.Record(all), frames, [], [])
    {
      hide LowerBound, FromPast, OnlyMoved, Late, LateAt;
      ghost var times, dead := Times(all), Dead(Conns(Items()));
      LateIs(Conns(Items()), all, now);
      frames := Traffic(world, all);
      LateFollows(Conns(Items()), all, now, times, dead, Named(frames));
      assert Named(frames) + Named([]) == Named(frames);
    }

    /** SweepStep, and what it leaves of the deadlines. */
    method QuietTurn(now: int, world: World, ghost all: set<Conn>) returns (el: PQItem?, kept: bool, ghost late: bool)
      requires Valid() && LowerBound(Items()) && Conns(Items()) <= all && FromPast(all, world.t) && now <= world.t
      modifies `connToPQItem, pq, Items(), Conns(Items())`lastReceiveFrameTime, world`t, world`pinged, world`lost
      ensures Valid() && LowerBound(Items()) && FromPast(all, world.t) && world.t >= old(world.t) && Items() <= old(Items())
      ensures el == null ==> Overdue(Items(), now) == old(Overdue(Items(), now)) == {} && connToPQItem == old(connToPQItem)
      ensures el != null ==>
                && el in old(Overdue(Items(), now)) && el.value in old(connToPQItem) && el.value in old(Conns(Items()))
                && (!el.value.isDeadConn ==> Overdue(Items(), now) == old(Overdue(Items(), now)) - {el})
                && (el.value.isDeadConn && kept && now >= 0 ==> Overdue(Items(), now) == old(Overdue(Items(), now)))
                && connToPQItem == (if kept then old(connToPQItem) else old(connToPQItem) - {el.value})
      ensures Late(Conns(Items()), now) <= old(Late(Conns(Items()), now))
      ensures el != null ==> Told(el, late, kept, old(Late(Conns(Items()), now)), Late(Conns(Items()), now), [])
      ensures el == null ==> old(Late(Conns(Items()), now)) <= Late(Conns(Items()), now)
      ensures Logged(old(world.Record(all)), world.Record(all),
                     [], Tries(el, late, kept, true), Tries(el, late, kept, false))
    {
      hide LowerBound, Tracks, Overdue, PriorityQueue.Valid, OnlyMoved, Named, Late, LateAt, Told, FromPast, Dead, Tries,
           Logged;
      ghost var items, log, dead, late0 := Items(), world.Record(all), Dead(Conns(Items())), Late(Conns(Items()), now);
      LateIs(Conns(items), all, now);
      LateMeans(Conns(items), now);
      el, kept, late := SweepStep(now, world, all);
      FewerConns(Items(), items);
      LoggedMoves(log, world.Record(all), Tries(el, late, kept, true), Tries(el, late, kept, false));
      NamedTries(el, late, kept);
      LateFollows(Conns(items), all, now, log.times, dead, if el != null && late && kept then {el.value} else {});
      if el != null {
        assert late0 == LateAt(Conns(items), log.times, dead, now);
        ToldAtOnce(items, Items(), el, late, kept, late0, now);
      }
    }
  }

  /** The connections a turn tried a ping on, with that outcome. */
  function Tries(el: PQItem?, late: bool, kept: bool, ok: bool): seq<Conn> {
    if el == null then [] else PingOf(Turn(el, late, kept), ok)
  }

  lemma NamedTries(el: PQItem?, late: bool, kept: bool)
    ensures Named([]) + Named(Tries(el, late, kept, true)) == if el != null && late && kept then {el.value} else {}
  {
  }

  lemma NothingTried(late: bool, kept: bool, pings: seq<Conn>, lost: seq<Conn>)
    ensures pings + Tries(null, late, kept, true) == pings && lost + Tries(null, late, kept, false) == lost
  {
  }

  lemma EmptyFirst(a: seq<Conn>, b: seq<Conn>, c: seq<Conn>)
    ensures a + [] == a && [] + b == b && [] + c == c
  {
  }

  /** One turn: late says whether el's connection was among those past their deadline, which were lateBefore at its start
      and are lateNow at its end; and frames came in before it. */
  ghost predicate Told(el: PQItem, late: bool, kept: bool, lateBefore: set<Conn>, lateNow: set<Conn>, frames: seq<Conn>) {
    && (!kept ==> late) && (late ==> el.value in lateBefore) && (el.value in lateBefore && el.value !in frames ==> late)
    && lateBefore <= lateNow + Named(frames) + (if late then {el.value} else {})
  }

  lemma ToldAtOnce(items: set<PQItem>, items': set<PQItem>, el: PQItem, late: bool, kept: bool, before: set<Conn>, now: int)
    requires el in items && items' == (if kept then items else items - {el}) && (!kept ==> late)
    requires late <==> el.value in before
    requires Late(Conns(items), now) <= before <= Late(Conns(items), now) + (if late && kept then {el.value} else {})
    ensures Told(el, late, kept, before, Late(Conns(items'), now), []) && Late(Conns(items'), now) <= before
  {
    forall c | c in Conns(items) && c != el.value
      ensures c in Conns(items')
    {
      var it :| it in items && it.value == c;
    }
  }

  lemma ToldOfAll(el: PQItem?, late: bool, kept: bool, lateBefore: set<Conn>, lateThen: set<Conn>, lateNow: set<Conn>,
                  frames: seq<Conn>)
    requires lateThen <= lateBefore <= lateThen + Named(frames)
    ensures el != null && Told(el, late, kept, lateThen, lateNow, []) ==> Told(el, late, kept, lateBefore, lateNow, frames)
  {
  }

  lemma OneMoreMoved(a: map<Conn, int>, b: map<Conn, int>, c: map<Conn, int>, frames: seq<Conn>, conn: Conn)
    requires OnlyMoved(a, b, Named(frames)) && OnlyMoved(b, c, {conn})
    ensures OnlyMoved(a, c, Named(frames + [conn]))
  {
    MovedTwice(a, b, c, Named(frames), {conn});
    assert Named(frames + [conn]) == Named(frames) + {conn};
  }

  lemma InPast(c: Conn, conns: set<Conn>, t: int)
    requires FromPast(conns, t) && c in conns
    ensures c.lastReceiveFrameTime <= t
  {
  }

  /** The connections past their deadline if these were the times of their last frames. */
  ghost function LateAt(conns: set<Conn>, times: map<Conn, int>, dead: set<Conn>, now: int): set<Conn> {
    set c | c in conns && c in times && (if c in dead then -1 else times[c] + c.Interval()) <= now
  }

  lemma LateIs(conns: set<Conn>, all: set<Conn>, now: int)
    requires conns <= all
    ensures Late(conns, now) == LateAt(conns, Times(all), Dead(conns), now)
  {
  }

  lemma LateMeans(conns: set<Conn>, now: int)
    ensures forall c :: c in conns ==> (c in Late(conns, now) <==> c.Deadline() <= now)
  {
  }

  /** As times move on, connections leave the set of those past their deadline. */
  lemma LateFollows(conns: set<Conn>, all: set<Conn>, now: int, times: map<Conn, int>, dead: set<Conn>, who: set<Conn>)
    requires conns <= all <= times.Keys && OnlyMoved(times, Times(all), who) && dead == Dead(conns)
    ensures Late(conns, now) <= LateAt(conns, times, dead, now) <= Late(conns, now) + who
  {
  }

  lemma FewerConns(items: set<PQItem>, before: set<PQItem>)
    ensures items <= before ==> Conns(items) <= Conns(before)
  {
  }

  /** The connections past their deadline. */
  ghost function Late(conns: set<Conn>, now: int): set<Conn>
    reads conns
  {
    set c | c in conns && c.Deadline() <= now
  }

  ghost predicate AllIn(s: seq<Conn>, conns: set<Conn>) {
    forall c :: c in s ==> c in conns
  }

  lemma NoneIn(conns: set<Conn>)
    ensures AllIn([], conns)
  {
  }

  lemma OneMoreIn(s: seq<Conn>, conns: set<Conn>, c: Conn)
    requires AllIn(s, conns) && c in conns
    ensures AllIn(s + [c], conns)
  {
  }

  lemma OverdueWithout(items: set<PQItem>, el: PQItem, now: int)
    requires el in items
    ensures Overdue(items, now) == Overdue(items - {el}, now) + (if el.priority < now then {el} else {})
    ensures el !in Overdue(items - {el}, now)
  {
  }

  lemma StillBounded(items: set<PQItem>, el: PQItem)
    requires LowerBound(items) && el.priority == el.value.Deadline()
    ensures LowerBound(items + {el})
  {
  }

  /** How a sweep stands: over are the items overdue, of which due were so at its start, lateNow the connections past their
      deadline, of late, and watched those watched, of m; alive says that none of due belongs to a dead connection, and
      if not, d is one that does. */
  ghost predicate Account(over: set<PQItem>, lateNow: set<Conn>, watched: map<Conn, PQItem>, due: set<PQItem>,
                          late: set<Conn>, m: map<Conn, PQItem>, alive: bool, d: PQItem?, examined: seq<PQItem>,
                          closed: seq<Conn>, now: int)
  {
    && (alive ==> Examined(over, due, examined))
    && (!alive && now >= 0 && closed == [] ==> d != null && d in over)
    && ClosedOf(watched, m, closed) && lateNow <= late && AllIn(closed, late)
  }

  lemma StartOfAccount(due: set<PQItem>, late: set<Conn>, m: map<Conn, PQItem>, alive: bool, d: PQItem?, now: int)
    requires !alive ==> d != null && d in due
    ensures Account(due, late, m, due, late, m, alive, d, [], [], now)
  {
    NothingExamined(due);
    NothingClosed(m);
    NoneIn(late);
  }

  lemma IsAlive(over: set<PQItem>, lateNow: set<Conn>, watched: map<Conn, PQItem>, due: set<PQItem>, late: set<Conn>,
                m: map<Conn, PQItem>, d: PQItem?, examined: seq<PQItem>, closed: seq<Conn>, now: int, el: PQItem)
    requires Account(over, lateNow, watched, due, late, m, true, d, examined, closed, now)
    requires NoneDead(Conns(due)) && el in over
    ensures !el.value.isDeadConn
  {
    assert el.value in Conns(due);
  }

  /** One more item has been examined; dead says whether its connection is. */
  lemma OneMoreInAccount(over: set<PQItem>, over': set<PQItem>, lateNow: set<Conn>, lateNow': set<Conn>,
                         watched: map<Conn, PQItem>, watched': map<Conn, PQItem>, due: set<PQItem>, late: set<Conn>,
                         m: map<Conn, PQItem>, alive: bool, d: PQItem?, examined: seq<PQItem>, closed: seq<Conn>, now: int,
                         turn: Turn, dead: bool, heard: seq<Conn>)
    requires Account(over, lateNow, watched, due, late, m, alive, d, examined, closed, now)
    requires turn.item in over && turn.item.value in watched && lateNow' <= lateNow
    requires alive ==> !dead
    requires (!dead ==> over' == over - {turn.item}) && (dead && turn.kept && now >= 0 ==> over' == over)
    requires !alive && turn.item == d ==> dead
    requires watched' == if turn.kept then watched else watched - {turn.item.value}
    requires Told(turn.item, turn.late, turn.kept, lateNow, lateNow', heard)
    ensures Account(over', lateNow', watched', due, late, m, alive, d, examined + [turn.item],
                    if turn.kept then closed else closed + [turn.item.value], now)
  {
    hide Examined, ClosedOf, AllIn;
    var el := turn.item;
    if alive {
      OneExamined(over, due, examined, el);
    }
    if !turn.kept {
      OneClosed(watched, m, closed, el.value);
      OneMoreIn(closed, late, el.value);
    }
  }

  lemma EndOfAccount(over: set<PQItem>, lateNow: set<Conn>, lateNow': set<Conn>, watched: map<Conn, PQItem>,
                     due: set<PQItem>, late: set<Conn>, m: map<Conn, PQItem>, alive: bool, d: PQItem?,
                     examined: seq<PQItem>, closed: seq<Conn>, now: int)
    requires Account(over, lateNow, watched, due, late, m, alive, d, examined, closed, now) && lateNow' <= lateNow
    ensures Account(over, lateNow', watched, due, late, m, alive, d, examined, closed, now)
    ensures over == {} ==> alive || now < 0 || closed != []
  {
  }

  /** What it comes to. */
  lemma Reckoned(items: set<PQItem>, lateNow: set<Conn>, watched: map<Conn, PQItem>, due: set<PQItem>, late: set<Conn>,
                 m: map<Conn, PQItem>, alive: bool, d: PQItem?, examined: seq<PQItem>, closed: seq<Conn>, now: int, budget: nat)
    requires Account(Overdue(items, now), lateNow, watched, due, late, m, alive, d, examined, closed, now)
    requires LowerBound(items) && (|examined| == budget || (|examined| < budget && Overdue(items, now) == {}))
    ensures ClosedOf(watched, m, closed) && AllIn(closed, late)
    ensures alive ==> Thorough(items, due, examined, now, budget)
    ensures !alive && now >= 0 && closed == [] ==> |examined| == budget
  {
    hide Examined, ClosedOf, AllIn, LowerBound, Thorough;
    if alive {
      IsThorough(items, due, examined, now, budget);
    }
  }

  /** A dead connection's item, if there is one. */
  ghost function SomeDead(due: set<PQItem>): (it: PQItem?)
    reads Conns(due)`isDeadConn
    ensures !NoneDead(Conns(due)) ==> it != null && it in due && it.value.isDeadConn
  {
    if it: PQItem :| it in due && it.value in Conns(due) && it.value.isDeadConn then it else null
  }

  lemma NotOverdue(items: set<PQItem>, now: int)
    requires LowerBound(items) && Overdue(items, now) == {}
    ensures forall it :: it in items ==> it.value in Conns(items) && it.priority >= now
                                         && (it.value.isDeadConn || it.value.Deadline() >= now)
  {
    forall it | it in items
      ensures it.priority >= now
    {
      assert it !in Overdue(items, now);
    }
  }

  // ---------- the turns of a sweep ----------

  ghost predicate Listed(turns: seq<Turn>, examined: seq<PQItem>) {
    && |turns| == |examined|
    && forall k :: 0 <= k < |turns| ==> turns[k].item == examined[k]
  }

  /** The turns so far; of the connections past their deadline at the start, lateNow are so still. */
  ghost predicate Turns(turns: seq<Turn>, examined: seq<PQItem>, closed: seq<Conn>, late: set<Conn>, lateNow: set<Conn>,
                         frames: seq<Conn>)
  {
    && Listed(turns, examined) && Judged(turns, late, frames) && closed == Pings(turns, false)
    && lateNow <= late <= lateNow + Named(frames) + Tried(turns)
  }

  lemma StartOfTurns(late: set<Conn>)
    ensures Turns([], [], [], late, late, []) && Pings([], true) == []
  {
  }

  lemma OneMorePing(turns: seq<Turn>, turn: Turn, ok: bool)
    ensures Pings(turns + [turn], ok) == Pings(turns, ok) + PingOf(turn, ok)
  {
    assert (turns + [turn])[..|turns|] == turns;
  }

  lemma OneMoreJudged(turns: seq<Turn>, late: set<Conn>, lateNow: set<Conn>, lateNow': set<Conn>, frames: seq<Conn>,
                      heard: seq<Conn>, turn: Turn)
    requires Judged(turns, late, frames) && lateNow <= late <= lateNow + Named(frames) + Tried(turns)
    requires Told(turn.item, turn.late, turn.kept, lateNow, lateNow', heard)
    ensures Judged(turns + [turn], late, frames + heard)
  {
    var turns' := turns + [turn];
    assert forall k :: 0 <= k <= |turns| ==> turns'[..k] == turns[..k];
    assert turns'[..|turns|] == turns;
  }

  lemma OneMoreTurn(turns: seq<Turn>, examined: seq<PQItem>, closed: seq<Conn>, late: set<Conn>, lateNow: set<Conn>,
                        lateNow': set<Conn>, frames: seq<Conn>, heard: seq<Conn>, turn: Turn)
    requires Turns(turns, examined, closed, late, lateNow, frames) && lateNow' <= lateNow
    requires Told(turn.item, turn.late, turn.kept, lateNow, lateNow', heard)
    ensures Turns(turns + [turn], examined + [turn.item], if turn.kept then closed else closed + [turn.item.value], late,
                   lateNow', frames + heard)
    ensures closed + Tries(turn.item, turn.late, turn.kept, false)
         == if turn.kept then closed else closed + [turn.item.value]
    ensures Pings(turns + [turn], true) == Pings(turns, true) + Tries(turn.item, turn.late, turn.kept, true)
  {
    hide Judged, Pings;
    OneMoreJudged(turns, late, lateNow, lateNow', frames, heard, turn);
    OneMorePing(turns, turn, true);
    OneMorePing(turns, turn, false);
    assert Named(frames + heard) == Named(frames) + Named(heard);
    assert Tried(turns + [turn]) == Tried(turns) + (if turn.late then {turn.item.value} else {}) by {
      assert (turns + [turn])[|turns|] == turn;
      assert forall t :: t in turns ==> t in turns + [turn];
    }
  }

  lemma EndOfTurns(turns: seq<Turn>, examined: seq<PQItem>, closed: seq<Conn>, late: set<Conn>, lateNow: set<Conn>,
                    lateNow': set<Conn>, frames: seq<Conn>, heard: seq<Conn>)
    requires Turns(turns, examined, closed, late, lateNow, frames) && lateNow' <= lateNow <= lateNow' + Named(heard)
    ensures Turns(turns, examined, closed, late, lateNow', frames + heard)
  {
    hide Pings, Listed;
    assert Named(frames + heard) == Named(frames) + Named(heard);
  }

  lemma WholeOfTurns(turns: seq<Turn>, examined: seq<PQItem>, closed: seq<Conn>, late: set<Conn>, lateNow: set<Conn>,
                    frames: seq<Conn>)
    requires Turns(turns, examined, closed, late, lateNow, frames)
    ensures Listed(turns, examined) && Judged(turns, late, frames) && closed == Pings(turns, false)
  {
  }

  // ---------- counting ----------

  /** over are those of due that have not been examined; examined names each of the others once. */
  ghost predicate Examined(over: set<PQItem>, due: set<PQItem>, examined: seq<PQItem>) {
    && over <= due && |over| + |examined| == |due|
    && (forall i :: 0 <= i < |examined| ==> examined[i] in due && examined[i] !in over)
    && (forall i, j :: 0 <= i < j < |examined| ==> examined[i] != examined[j])
  }

  lemma NothingExamined(due: set<PQItem>)
    ensures Examined(due, due, [])
  {
  }

  lemma OneExamined(over: set<PQItem>, due: set<PQItem>, examined: seq<PQItem>, el: PQItem)
    requires Examined(over, due, examined) && el in over
    ensures Examined(over - {el}, due, examined + [el])
  {
  }

  /** What a sweep with the given budget is for: overdue items are examined once each, as far as the budget goes;
      and if it goes far enough, nothing is overdue any more. */
  ghost predicate Thorough(items: set<PQItem>, due: set<PQItem>, examined: seq<PQItem>, now: int, budget: nat)
    reads items`priority, Conns(items)`lastReceiveFrameTime, Conns(items)`isDeadConn
  {
    && (forall i :: 0 <= i < |examined| ==> examined[i] in due)
    && (forall i, j :: 0 <= i < j < |examined| ==> examined[i] != examined[j])
    && |examined| == (if |due| <= budget then |due| else budget)
    && (|due| <= budget ==>
          forall it :: it in items ==> it.value in Conns(items) && it.priority >= now
                                       && (it.value.isDeadConn || it.value.Deadline() >= now))
  }

  lemma IsThorough(items: set<PQItem>, due: set<PQItem>, examined: seq<PQItem>, now: int, budget: nat)
    requires Examined(Overdue(items, now), due, examined) && LowerBound(items)
    requires |examined| == budget || (|examined| < budget && Overdue(items, now) == {})
    ensures Thorough(items, due, examined, now, budget)
  {
    hide LowerBound;
    var over := Overdue(items, now);
    assert |due| <= budget ==> |over| == 0;
    if |due| <= budget {
      assert over == {};
      NotOverdue(items, now);
    }
  }

  /** closed names, once each, the connections of before that are not in m; m is otherwise before. */
  ghost predicate ClosedOf(m: map<Conn, PQItem>, before: map<Conn, PQItem>, closed: seq<Conn>) {
    && m == before - (set c | c in closed)
    && (forall c :: c in closed ==> c in before)
    && forall i, j :: 0 <= i < j < |closed| ==> closed[i] != closed[j]
  }

  lemma NothingClosed(m: map<Conn, PQItem>)
    ensures ClosedOf(m, m, [])
  {
  }

  lemma OneClosed(m: map<Conn, PQItem>, before: map<Conn, PQItem>, closed: seq<Conn>, c: Conn)
    requires ClosedOf(m, before, closed) && c in m
    ensures ClosedOf(m - {c}, before, closed + [c])
  {
    assert (set x | x in closed + [c]) == (set x | x in closed) + {c};
  }

  lemma ValueIsWatched(items: set<PQItem>, el: PQItem, m: map<Conn, PQItem>)
    requires el in items && Tracks(items, m)
    ensures el.value in Conns(items) && el.value in m
  {
  }

  lemma FewerBounded(items: set<PQItem>, fewer: set<PQItem>)
    requires LowerBound(items) && fewer <= items
    ensures LowerBound(fewer)
  {
  }

  lemma AddTracked(items: set<PQItem>, el: PQItem, m: map<Conn, PQItem>)
    requires Tracks(items, m) && el.value !in m && el !in items
    ensures Tracks(items + {el}, m[el.value := el])
  {
  }

  lemma DropTracked(items: set<PQItem>, el: PQItem, m: map<Conn, PQItem>)
    requires el !in items && Tracks(items + {el}, m)
    ensures Tracks(items, m - {el.value})
  {
  }
}
