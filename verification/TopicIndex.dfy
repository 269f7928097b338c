/** broker/group.go and hub.go as a function on values: which connections an alias has, which topics it follows, and,
    from the other side, which aliases follow a topic and since when. Each group-manager operation is one step. */
module TopicIndex {
  import opened Streams

  /** The part of Conn that hubs use. The connection ID is a fresh UUID. */
  datatype Conn = Conn(connectionID: string, connectTime: int)

  /** A hub of the alias kind, while it is open. */
  datatype HubView = HubView(conns: set<Conn>, topics: set<string>)

  /** aliasHub and topicAliasInfoMap; the innermost value is subscribeTs. */
  datatype Index = Index(hubs: map<string, HubView>, topics: map<string, map<string, int>>)

  const EMPTY := Index(map[], map[])

  datatype Op =
    | Add(alias: string, conn: Conn, topics: set<string>, now: int)
    | Remove(alias: string, conn: Conn)
    | Subscribe(alias: string, topics: set<string>, now: int)
    | Unsubscribe(alias: string, topics: set<string>)

  function ConnsOf(g: Index, alias: string): set<Conn> {
    if alias in g.hubs then g.hubs[alias].conns else {}
  }

  function TopicsOf(g: Index, alias: string): set<string> {
    if alias in g.hubs then g.hubs[alias].topics else {}
  }

  function Row(topics: map<string, map<string, int>>, t: string): map<string, int> {
    if t in topics then topics[t] else map[]
  }

  predicate Listed(g: Index, alias: string, t: string) {
    alias in Row(g.topics, t)
  }

  /** alias is put down under each of ts. */
  function Put(topics: map<string, map<string, int>>, alias: string, ts: set<string>, now: int): map<string, map<string, int>> {
    map t | t in topics.Keys + ts :: if t in ts then Row(topics, t)[alias := now] else topics[t]
  }

  /** alias is struck out under each of ts. The topics themselves stay. */
  function Cut(topics: map<string, map<string, int>>, alias: string, ts: set<string>): map<string, map<string, int>> {
    map t | t in topics :: if t in ts then topics[t] - {alias} else topics[t]
  }

  /** addAliasConn. */
  function Added(g: Index, alias: string, conn: Conn, ts: set<string>, now: int): Index {
    Index(g.hubs[alias := HubView(ConnsOf(g, alias) + {conn}, TopicsOf(g, alias) + ts)], Put(g.topics, alias, ts, now))
  }

  /** removeAliasConn. */
  function Removed(g: Index, alias: string, conn: Conn): Index {
    if alias !in g.hubs then g
    else if ConnsOf(g, alias) - {conn} == {} then
      Index(g.hubs - {alias}, Cut(g.topics, alias, TopicsOf(g, alias)))
    else
      Index(g.hubs[alias := HubView(ConnsOf(g, alias) - {conn}, TopicsOf(g, alias))], g.topics)
  }

  /** Subscribe: an alias without a hub cannot. */
  function Subscribed(g: Index, alias: string, ts: set<string>, now: int): Index {
    if alias !in g.hubs then g
    else Index(g.hubs[alias := HubView(ConnsOf(g, alias), TopicsOf(g, alias) + ts)], Put(g.topics, alias, ts, now))
  }

  /** UnSubscribe. */
  function Unsubscribed(g: Index, alias: string, ts: set<string>): Index {
    if alias !in g.hubs then g
    else Index(g.hubs[alias := HubView(ConnsOf(g, alias), TopicsOf(g, alias) - ts)], Cut(g.topics, alias, ts))
  }

  function Step(g: Index, op: Op): Index {
    match op
    case Add(alias, conn, ts, now) => Added(g, alias, conn, ts, now)
    case Remove(alias, conn) => Removed(g, alias, conn)
    case Subscribe(alias, ts, now) => Subscribed(g, alias, ts, now)
    case Unsubscribe(alias, ts) => Unsubscribed(g, alias, ts)
  }

  /** The index after a whole run. */
  function After(ops: seq<Op>): Index {
    if ops == [] then EMPTY else Step(After(ops[..|ops| - 1]), ops[|ops| - 1])
  }

  // ---------- the two directions agree ----------

  /** No hub is empty, and an alias is listed under a topic exactly if it has a hub that follows the topic. */
  ghost predicate TwoWay(g: Index) {
    && (forall a :: a in g.hubs ==> g.hubs[a].conns != {})
    && (forall a, t :: Listed(g, a, t) <==> t in TopicsOf(g, a))
  }

  lemma PutListed(topics: map<string, map<string, int>>, alias: string, ts: set<string>, now: int, a: string, t: string)
    ensures a in Row(Put(topics, alias, ts, now), t) <==> a in Row(topics, t) || (a == alias && t in ts)
    ensures a == alias && t in ts ==> Row(Put(topics, alias, ts, now), t)[a] == now
    ensures a in Row(topics, t) && !(a == alias && t in ts) ==> Row(Put(topics, alias, ts, now), t)[a] == Row(topics, t)[a]
  {
  }

  lemma CutListed(topics: map<string, map<string, int>>, alias: string, ts: set<string>, a: string, t: string)
    ensures a in Row(Cut(topics, alias, ts), t) <==> a in Row(topics, t) && !(a == alias && t in ts)
    ensures a in Row(topics, t) && !(a == alias && t in ts) ==> Row(Cut(topics, alias, ts), t)[a] == Row(topics, t)[a]
  {
  }

  lemma StepKeepsTwoWay(g: Index, op: Op)
    requires TwoWay(g)
    ensures TwoWay(Step(g, op))
  {
    hide Put, Cut, Row;
    var g' := Step(g, op);
    forall a, t
      ensures Listed(g', a, t) <==> t in TopicsOf(g', a)
    {
      assert Listed(g, a, t) <==> t in TopicsOf(g, a);
      match op
      case Add(alias, conn, ts, now) => PutListed(g.topics, alias, ts, now, a, t);
      case Remove(alias, conn) => CutListed(g.topics, alias, TopicsOf(g, alias), a, t);
      case Subscribe(alias, ts, now) => PutListed(g.topics, alias, ts, now, a, t);
      case Unsubscribe(alias, ts) => CutListed(g.topics, alias, ts, a, t);
    }
  }

  /** Over every run: every hub has a connection, and the two indices say the same. */
  lemma {:induction false} AlwaysTwoWay(ops: seq<Op>)
    ensures TwoWay(After(ops))
  {
    if ops == [] {
    } else {
      AlwaysTwoWay(ops[..|ops| - 1]);
      StepKeepsTwoWay(After(ops[..|ops| - 1]), ops[|ops| - 1]);
    }
  }

  /** Removing an alias's last connection strikes the alias out everywhere. */
  lemma LastRemovalClears(ops: seq<Op>, alias: string, conn: Conn, t: string)
    requires ConnsOf(After(ops), alias) <= {conn}
    ensures alias !in After(ops + [Remove(alias, conn)]).hubs && !Listed(After(ops + [Remove(alias, conn)]), alias, t)
  {
    var ops' := ops + [Remove(alias, conn)];
    assert ops'[..|ops' | - 1] == ops;
    AlwaysTwoWay(ops);
    AlwaysTwoWay(ops');
    assert Listed(After(ops'), alias, t) <==> t in TopicsOf(After(ops'), alias);
  }

  // ---------- what a run means, read off the run itself ----------

  /** The connections of an alias: added and not removed since. */
  function Members(ops: seq<Op>, a: string): set<Conn> {
    if ops == [] then {} else
      var before := Members(ops[..|ops| - 1], a);
      match ops[|ops| - 1]
      case Add(alias, conn, _, _) => if alias == a then before + {conn} else before
      case Remove(alias, conn) => if alias == a then before - {conn} else before
      case _ => before
  }

  /** When an alias last asked for a topic, if that still stands: it lapses when the alias takes it back, and when its
      last connection goes. An alias without connections cannot ask. */
  function Since(ops: seq<Op>, a: string, t: string): Option<int> {
    if ops == [] then None else
      var before := Since(ops[..|ops| - 1], a, t);
      match ops[|ops| - 1]
      case Add(alias, _, ts, now) => if alias == a && t in ts then Some(now) else before
      case Remove(alias, _) => if alias == a && Members(ops, a) == {} then None else before
      case Subscribe(alias, ts, now) => if alias == a && t in ts && Members(ops, a) != {} then Some(now) else before
      case Unsubscribe(alias, ts) => if alias == a && t in ts then None else before
  }

  /** What the index holds about an alias and a topic. */
  ghost predicate Holds(g: Index, a: string, t: string, members: set<Conn>, since: Option<int>) {
    && ConnsOf(g, a) == members && (a in g.hubs <==> members != {})
    && (t in TopicsOf(g, a) <==> since.Some?)
    && (Listed(g, a, t) <==> since.Some?)
    && (since.Some? ==> Row(g.topics, t)[a] == since.value)
  }

  /** The index holds exactly what the run says. */
  lemma {:induction false} IndexIsHistory(ops: seq<Op>, a: string, t: string)
    ensures Holds(After(ops), a, t, Members(ops, a), Since(ops, a, t))
  {
    if ops == [] {
    } else {
      IndexIsHistory(ops[..|ops| - 1], a, t);
      HistoryStep(After(ops[..|ops| - 1]), ops, a, t);
    }
  }

  lemma HistoryStep(g: Index, ops: seq<Op>, a: string, t: string)
    requires ops != []
    requires Holds(g, a, t, Members(ops[..|ops| - 1], a), Since(ops[..|ops| - 1], a, t))
    ensures Holds(Step(g, ops[|ops| - 1]), a, t, Members(ops, a), Since(ops, a, t))
  {
    hide Put, Cut, Row;
    match ops[|ops| - 1]
    case Add(alias, conn, ts, now) => PutListed(g.topics, alias, ts, now, a, t);
    case Remove(alias, conn) => CutListed(g.topics, alias, TopicsOf(g, alias), a, t);
    case Subscribe(alias, ts, now) => PutListed(g.topics, alias, ts, now, a, t);
    case Unsubscribe(alias, ts) => CutListed(g.topics, alias, ts, a, t);
  }

  // ---------- pushing to a topic ----------

  /** The connections that a hub's filter lets through. */
  function Passing(conns: set<Conn>, subscribeTs: int): set<Conn> {
    set c | c in conns && c.connectTime <= subscribeTs
  }

  /** BroadcastByTopic takes an alias's subscribeTs from one state of the index; the hub delivers in a later one, to
      those of its connections that the filter lets through. */
  function Reached(now: Index, later: Index, alias: string, t: string): set<Conn> {
    if Listed(now, alias, t) then Passing(ConnsOf(later, alias), Row(now.topics, t)[alias]) else {}
  }

  function Time(op: Op): Option<int> {
    match op
    case Add(_, _, _, now) => Some(now)
    case Subscribe(_, _, now) => Some(now)
    case _ => None
  }

  /** A monotone clock: operations happen in order, and a connection is made before it is added. */
  ghost predicate InTime(ops: seq<Op>) {
    && (forall i, j :: 0 <= i < j < |ops| && Time(ops[i]).Some? && Time(ops[j]).Some? ==>
          Time(ops[i]).value <= Time(ops[j]).value)
    && (forall i :: 0 <= i < |ops| && ops[i].Add? ==> ops[i].conn.connectTime <= ops[i].now)
  }

  /** alias asks for t while conn is one of its connections. */
  ghost predicate Asks(ops: seq<Op>, i: nat, a: string, conn: Conn, t: string)
    requires i < |ops|
  {
    match ops[i]
    case Add(alias, c, ts, _) => alias == a && t in ts && (c == conn || conn in Members(ops[..i], a))
    case Subscribe(alias, ts, _) => alias == a && t in ts && conn in Members(ops[..i], a)
    case _ => false
  }

  /** The connection is removed, or its alias takes the topic back. */
  predicate Withdraws(op: Op, a: string, conn: Conn, t: string) {
    match op
    case Remove(alias, c) => alias == a && c == conn
    case Unsubscribe(alias, ts) => alias == a && t in ts
    case _ => false
  }

  lemma InTimePrefix(ops: seq<Op>, n: nat)
    requires InTime(ops) && n <= |ops|
    ensures InTime(ops[..n])
  {
  }

  /** A connection of an alias has been added. */
  lemma {:induction false} MemberIsOld(ops: seq<Op>, a: string, conn: Conn)
    requires InTime(ops) && conn in Members(ops, a)
    ensures exists i :: 0 <= i < |ops| && ops[i].Add? && ops[i].conn == conn
  {
    if ops == [] {
    } else {
      var n := |ops| - 1;
      if ops[n].Add? && ops[n].conn == conn {
      } else {
        InTimePrefix(ops, n);
        MemberIsOld(ops[..n], a, conn);
        var k :| 0 <= k < n && ops[..n][k].Add? && ops[..n][k].conn == conn;
        assert ops[k].Add? && ops[k].conn == conn;
      }
    }
  }

  /** What has been asked for stands, and the time kept is no earlier than that. */
  lemma {:induction false} AskedStands(ops: seq<Op>, i: nat, a: string, conn: Conn, t: string)
    requires InTime(ops) && i < |ops| && Asks(ops, i, a, conn, t)
    requires forall j :: i < j < |ops| ==> !Withdraws(ops[j], a, conn, t)
    ensures conn in Members(ops, a)
    ensures Since(ops, a, t).Some? && Time(ops[i]).Some? && Since(ops, a, t).value >= Time(ops[i]).value
    decreases |ops|
  {
    var n := |ops| - 1;
    if i == n {
    } else {
      InTimePrefix(ops, n);
      assert ops[..n][..i] == ops[..i] && ops[..n][i] == ops[i];
      AskedStands(ops[..n], i, a, conn, t);
      assert !Withdraws(ops[n], a, conn, t);
    }
  }

  /** No push is missed: a connection that was there when its alias asked for the topic, and for which that has not
      been withdrawn, is let through by the filter of every later push that finds it in the hub. */
  lemma NoMissedPush(ops: seq<Op>, i: nat, a: string, conn: Conn, t: string, later: Index)
    requires InTime(ops) && i < |ops| && Asks(ops, i, a, conn, t)
    requires forall j :: i < j < |ops| ==> !Withdraws(ops[j], a, conn, t)
    requires conn in ConnsOf(later, a)
    ensures conn in ConnsOf(After(ops), a) && conn in Reached(After(ops), later, a, t)
  {
    AskedStands(ops, i, a, conn, t);
    IndexIsHistory(ops, a, t);
    AskersAreOld(ops, i, a, conn, t);
  }

  lemma AskersAreOld(ops: seq<Op>, i: nat, a: string, conn: Conn, t: string)
    requires InTime(ops) && i < |ops| && Asks(ops, i, a, conn, t)
    ensures Time(ops[i]).Some? && conn.connectTime <= Time(ops[i]).value
  {
    if conn in Members(ops[..i], a) {
      InTimePrefix(ops, i);
      MemberIsOld(ops[..i], a, conn);
      var k :| 0 <= k < i && ops[..i][k].Add? && ops[..i][k].conn == conn;
      assert ops[k].Add? && ops[k].conn == conn && Time(ops[k]).Some?;
    }
  }

  /** Who a push reaches, when no operation comes between: the members of the aliases that have asked for the topic,
      but for those connected after the asking. */
  lemma PushReaches(ops: seq<Op>, a: string, conn: Conn, t: string)
    ensures conn in Reached(After(ops), After(ops), a, t) <==>
            conn in Members(ops, a) && Since(ops, a, t).Some? && conn.connectTime <= Since(ops, a, t).value
  {
    IndexIsHistory(ops, a, t);
  }

  // ---------- Subscribe and UnSubscribe in two steps ----------

  /** Subscribe gives up the lock between the two indices: it lists the alias, and then its hub follows the topics,
      unless it has been closed. Here is op, an operation of another goroutine that comes between. */
  function Interrupted(g: Index, alias: string, ts: set<string>, now: int, op: Op): Index
    requires alias in g.hubs
  {
    var g' := Step(Index(g.hubs, Put(g.topics, alias, ts, now)), op);
    if alias !in g'.hubs then g'
    else Index(g'.hubs[alias := HubView(ConnsOf(g', alias), TopicsOf(g', alias) + ts)], g'.topics)
  }

  /** UnSubscribe likewise: the alias is struck out, and then its hub gives the topics up. */
  function InterruptedBack(g: Index, alias: string, ts: set<string>, op: Op): Index
    requires alias in g.hubs
  {
    var g' := Step(Index(g.hubs, Cut(g.topics, alias, ts)), op);
    if alias !in g'.hubs then g'
    else Index(g'.hubs[alias := HubView(ConnsOf(g', alias), TopicsOf(g', alias) - ts)], g'.topics)
  }

  /** What must not come between the steps of Subscribe: the removal of the alias's last connection, if there is a topic
      that it did not follow before; and the taking back of one of the topics. */
  predicate DisturbsSubscribe(g: Index, alias: string, ts: set<string>, op: Op) {
    match op
    case Remove(a, conn) => a == alias && ConnsOf(g, alias) == {conn} && !(ts <= TopicsOf(g, alias))
    case Unsubscribe(a, ts') => a == alias && !(ts !! ts')
    case _ => false
  }

  /** What must not come between the steps of UnSubscribe: the asking for one of the topics. */
  predicate DisturbsUnsubscribe(alias: string, ts: set<string>, op: Op) {
    match op
    case Add(a, _, ts', _) => a == alias && !(ts !! ts')
    case Subscribe(a, ts', _) => a == alias && !(ts !! ts')
    case _ => false
  }

  /** What an operation adds to the topics of an alias, in both indices. */
  predicate Gains(g: Index, op: Op, a: string, t: string) {
    match op
    case Add(alias, _, ts, _) => alias == a && t in ts
    case Subscribe(alias, ts, _) => alias == a && t in ts && alias in g.hubs
    case _ => false
  }

  /** op takes the last connection from alias a. */
  predicate Drops(g: Index, op: Op, a: string) {
    op.Remove? && op.alias == a && a in g.hubs && ConnsOf(g, a) - {op.conn} == {}
  }

  /** What an operation takes from what is listed. */
  predicate Loses(g: Index, op: Op, a: string, t: string) {
    || (op.Unsubscribe? && op.alias == a && t in op.topics && a in g.hubs)
    || (Drops(g, op, a) && t in TopicsOf(g, a))
  }

  /** One operation, seen from one alias and one topic, whether or not the indices agree. */
  lemma StepAt(g: Index, op: Op, a: string, t: string)
    ensures Listed(Step(g, op), a, t) <==> (Listed(g, a, t) || Gains(g, op, a, t)) && !Loses(g, op, a, t)
    ensures t in TopicsOf(Step(g, op), a) <==> (t in TopicsOf(g, a) || Gains(g, op, a, t)) && !Loses(g, op, a, t)
    ensures a in Step(g, op).hubs <==> (a in g.hubs || (op.Add? && op.alias == a)) && !Drops(g, op, a)
  {
    hide Put, Cut, Row;
    match op
    case Add(alias, conn, ts, now) => PutListed(g.topics, alias, ts, now, a, t);
    case Remove(alias, conn) => CutListed(g.topics, alias, TopicsOf(g, alias), a, t);
    case Subscribe(alias, ts, now) => PutListed(g.topics, alias, ts, now, a, t);
    case Unsubscribe(alias, ts) => CutListed(g.topics, alias, ts, a, t);
  }

  /** No operation leaves an empty hub behind. */
  lemma StepKeepsHubs(g: Index, op: Op)
    requires forall a :: a in g.hubs ==> g.hubs[a].conns != {}
    ensures forall a :: a in Step(g, op).hubs ==> Step(g, op).hubs[a].conns != {}
  {
    hide Put, Cut;
  }

  /** An interrupted Subscribe leaves the indices in agreement iff the operation that came between does not disturb it. */
  lemma SubscribeInterrupted(g: Index, alias: string, ts: set<string>, now: int, op: Op)
    requires TwoWay(g) && alias in g.hubs
    ensures TwoWay(Interrupted(g, alias, ts, now, op)) <==> !DisturbsSubscribe(g, alias, ts, op)
  {
    hide Put, Cut, Row, Step;
    var g1 := Index(g.hubs, Put(g.topics, alias, ts, now));
    var g2 := Interrupted(g, alias, ts, now, op);
    StepKeepsHubs(g1, op);
    forall a, t
      ensures Listed(g2, a, t) <==>
              (t in TopicsOf(g, a) || (a == alias && t in ts) || Gains(g, op, a, t)) && !Loses(g, op, a, t)
      ensures t in TopicsOf(g2, a) <==>
              ((t in TopicsOf(g, a) || Gains(g, op, a, t)) && !Loses(g, op, a, t))
              || (a == alias && t in ts && !Drops(g, op, alias))
    {
      PutListed(g.topics, alias, ts, now, a, t);
      StepAt(g1, op, a, t);
      StepAt(g1, op, alias, t);
      assert Listed(g, a, t) <==> t in TopicsOf(g, a);
    }
    SubscribeDecided(g, g2, alias, ts, op);
  }

  lemma SubscribeDecided(g: Index, g2: Index, alias: string, ts: set<string>, op: Op)
    requires alias in g.hubs && g.hubs[alias].conns != {}
    requires forall a :: a in g2.hubs ==> g2.hubs[a].conns != {}
    requires forall a, t :: Listed(g2, a, t) <==>
               (t in TopicsOf(g, a) || (a == alias && t in ts) || Gains(g, op, a, t)) && !Loses(g, op, a, t)
    requires forall a, t :: t in TopicsOf(g2, a) <==>
               ((t in TopicsOf(g, a) || Gains(g, op, a, t)) && !Loses(g, op, a, t))
               || (a == alias && t in ts && !Drops(g, op, alias))
    ensures TwoWay(g2) <==> !DisturbsSubscribe(g, alias, ts, op)
  {
    hide Row;
    if Drops(g, op, alias) {
      if t :| t in ts && t !in TopicsOf(g, alias) {
        assert Listed(g2, alias, t) && t !in TopicsOf(g2, alias);
      }
    } else if op.Unsubscribe? && op.alias == alias {
      if t :| t in ts && t in op.topics {
        assert !Listed(g2, alias, t) && t in TopicsOf(g2, alias);
      }
    }
  }

  /** The same for UnSubscribe. */
  lemma UnsubscribeInterrupted(g: Index, alias: string, ts: set<string>, op: Op)
    requires TwoWay(g) && alias in g.hubs
    ensures TwoWay(InterruptedBack(g, alias, ts, op)) <==> !DisturbsUnsubscribe(alias, ts, op)
  {
    hide Put, Cut, Row, Step;
    var g1 := Index(g.hubs, Cut(g.topics, alias, ts));
    var g2 := InterruptedBack(g, alias, ts, op);
    StepKeepsHubs(g1, op);
    forall a, t
      ensures Listed(g2, a, t) <==>
              ((t in TopicsOf(g, a) && !(a == alias && t in ts)) || Gains(g, op, a, t)) && !Loses(g, op, a, t)
      ensures t in TopicsOf(g2, a) <==>
              (t in TopicsOf(g, a) || Gains(g, op, a, t)) && !Loses(g, op, a, t) && !(a == alias && t in ts)
    {
      CutListed(g.topics, alias, ts, a, t);
      StepAt(g1, op, a, t);
      StepAt(g1, op, alias, t);
      assert Listed(g, a, t) <==> t in TopicsOf(g, a);
    }
    if (op.Add? || op.Subscribe?) && op.alias == alias {
      if t :| t in ts && t in op.topics {
        assert Listed(g2, alias, t) && t !in TopicsOf(g2, alias);
      }
    }
  }
}
