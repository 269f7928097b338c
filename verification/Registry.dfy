/** The life of connections and where they are registered: broker/conn.go setAuthed and Close, broker/server.go
    AddAuthedConnection and RemoveAuthedConnection, and the group managers they use. A run is a sequence of steps,
    each of which is one operation under one lock, of any of the goroutines, in any order. A connection's own lock,
    c.mu, is held from the first step of setAuthed or Close to the last: so a connection has one phase at a time. */
module Registry {
  import Streams
  import opened TopicIndex

  datatype ConnState = Init | Authed | Closing | Closed

  /** What the goroutine that holds c.mu is about to do; Idle when nobody holds it. */
  datatype Phase =
    | Idle
    | AuthLoad        // look the group manager up
    | AuthMake        // make a new one
    | AuthId          // store the connection by its ID
    | AuthAlias       // addAliasConn
    | AuthConns       // addConn
    | CloseId         // delete the connection ID
    | CloseLoad       // look the group manager up
    | CloseMake       // make a new one
    | CloseAlias      // removeAliasConn
    | CloseConns      // removeConn
    | CloseEnd        // updateState(Closed)

  datatype Session = Session(business: string, alias: string, topics: set<string>)

  /** A connection. trace is the states it has been in; answers is what Close has returned so far, true for nil;
      grouped says whether AddAuthedConnection got its group manager. */
  datatype Local = Local(state: ConnState, phase: Phase, session: Streams.Option<Session>, grouped: bool,
                         trace: seq<ConnState>, answers: seq<bool>)

  /** groupManager. */
  datatype Group = Group(index: Index, allConns: map<string, Conn>)

  datatype System = System(conns: map<Conn, Local>, connectionIDToConnMap: map<string, Conn>, groups: map<string, Group>)

  datatype Step =
    | Open(conn: Conn)                                // newConn
    | SetAuthed(conn: Conn, session: Session)         // setAuthed takes the lock
    | Close(conn: Conn)                               // Close takes the lock
    | MakeGroup(business: string)                     // getGroupManager in a push handler
    | Go(conn: Conn, now: int, ok: bool)              // the holder of the lock goes on; ok: newGroupManager succeeds
    | Subscribe(business: string, alias: string, topics: set<string>, now: int)
    | Unsubscribe(business: string, alias: string, topics: set<string>)

  const START := System(map[], map[], map[])
  const NEW_GROUP := Group(EMPTY, map[])

  /** updateState: nothing leads out of Closed. */
  function Moved(l: Local, state: ConnState): Local {
    if l.state == Closed || l.state == state then l
    else l.(state := state, trace := l.trace + [state])
  }

  function Put(s: System, c: Conn, l: Local): System {
    s.(conns := s.conns[c := l])
  }

  function PutGroup(s: System, business: string, g: Group): System {
    s.(groups := s.groups[business := g])
  }

  /** A step that is not possible in a state leaves it as it is. */
  function Do(s: System, step: Step): System {
    match step
    case Open(c) =>
      if c in s.conns || (exists d :: d in s.conns && d.connectionID == c.connectionID) then s
      else Put(s, c, Local(Init, Idle, Streams.None, false, [Init], []))
    case SetAuthed(c, session) =>
      if c !in s.conns || s.conns[c].phase != Idle || s.conns[c].state != Init then s
      else Put(s, c, Moved(s.conns[c], Authed).(session := Streams.Some(session), phase := AuthLoad))
    case Close(c) =>
      if c !in s.conns || s.conns[c].phase != Idle then s else BeginClose(s, c, s.conns[c])
    case MakeGroup(business) => if business in s.groups then s else PutGroup(s, business, NEW_GROUP)
    case Go(c, now, ok) =>
      if c !in s.conns || s.conns[c].session.None? then s else Continue(s, c, s.conns[c], s.conns[c].session.value, now, ok)
    case Subscribe(business, alias, topics, now) =>
      if business !in s.groups then s
      else PutGroup(s, business, s.groups[business].(index := Subscribed(s.groups[business].index, alias, topics, now)))
    case Unsubscribe(business, alias, topics) =>
      if business !in s.groups then s
      else PutGroup(s, business, s.groups[business].(index := Unsubscribed(s.groups[business].index, alias, topics)))
  }

  function BeginClose(s: System, c: Conn, l: Local): System {
    match l.state
    case Init => Put(s, c, Moved(l, Closed).(answers := l.answers + [true]))
    case Authed => Put(s, c, Moved(l, Closing).(phase := if l.session.Some? then CloseId else CloseEnd))
    case _ => Put(s, c, l.(answers := l.answers + [false]))
  }

  /** The rest of setAuthed and Close, step by step. */
  function Continue(s: System, c: Conn, l: Local, session: Session, now: int, ok: bool): System {
    var b := session.business;
    match l.phase
    case Idle => s
    case AuthLoad => Put(s, c, if b in s.groups then l.(phase := AuthId, grouped := true) else l.(phase := AuthMake))
    case AuthMake =>
      if !ok then Put(s, c, l.(phase := Idle))
      else Put(if b in s.groups then s else PutGroup(s, b, NEW_GROUP), c, l.(phase := AuthId, grouped := true))
    case AuthId =>
      Put(s.(connectionIDToConnMap := s.connectionIDToConnMap[c.connectionID := c]), c, l.(phase := AuthAlias))
    case AuthAlias =>
      if b !in s.groups then s
      else
        var g := s.groups[b];
        Put(PutGroup(s, b, g.(index := Added(g.index, session.alias, c, session.topics, now))), c, l.(phase := AuthConns))
    case AuthConns =>
      if b !in s.groups then s
      else
        var g := s.groups[b];
        Put(PutGroup(s, b, g.(allConns := g.allConns[c.connectionID := c])), c, l.(phase := Idle))
    case CloseId =>
      Put(s.(connectionIDToConnMap := s.connectionIDToConnMap - {c.connectionID}), c, l.(phase := CloseLoad))
    case CloseLoad => Put(s, c, if b in s.groups then l.(phase := CloseAlias) else l.(phase := CloseMake))
    case CloseMake =>
      if !ok then Put(s, c, l.(phase := CloseEnd))
      else Put(if b in s.groups then s else PutGroup(s, b, NEW_GROUP), c, l.(phase := CloseAlias))
    case CloseAlias =>
      if b !in s.groups then s
      else
        var g := s.groups[b];
        Put(PutGroup(s, b, g.(index := Removed(g.index, session.alias, c))), c, l.(phase := CloseConns))
    case CloseConns =>
      if b !in s.groups then s
      else
        var g := s.groups[b];
        Put(PutGroup(s, b, g.(allConns := g.allConns - {c.connectionID})), c, l.(phase := CloseEnd))
    case CloseEnd => Put(s, c, Moved(l, Closed).(phase := Idle, answers := l.answers + [true]))
  }

  /** The system after a whole run. */
  function After(steps: seq<Step>): System {
    if steps == [] then START else Do(After(steps[..|steps| - 1]), steps[|steps| - 1])
  }

  // ---------- where a connection is to be found, by its phase ----------

  predicate Settled(l: Local) { l.phase == Idle && l.state == Authed }

  predicate ById(l: Local) {
    l.grouped && (Settled(l) || l.phase in {AuthAlias, AuthConns, CloseId})
  }

  predicate InHub(l: Local) {
    l.grouped && (Settled(l) || l.phase in {AuthConns, CloseId, CloseLoad, CloseMake, CloseAlias})
  }

  predicate InAll(l: Local) {
    l.grouped && (Settled(l) || l.phase in {CloseId, CloseLoad, CloseMake, CloseAlias, CloseConns})
  }

  /** What is known of a connection by itself. */
  ghost predicate Sound(l: Local) {
    && (l.phase == Idle ==> l.state != Closing)
    && (l.phase in {AuthLoad, AuthMake, AuthId, AuthAlias, AuthConns} ==> l.state == Authed)
    && (l.phase in {CloseId, CloseLoad, CloseMake, CloseAlias, CloseConns, CloseEnd} ==> l.state == Closing)
    && (l.phase in {AuthId, AuthAlias, AuthConns} ==> l.grouped)
    && (l.phase in {AuthLoad, AuthMake, CloseMake} ==> !l.grouped)
    && (l.session.None? ==> !l.grouped && l.phase == Idle)
    && (l.state == Init ==> l.session.None?)
    && (l.state in {Authed, Closing} ==> l.session.Some?)
    && Lawful(l.trace, l.state) && Answered(l.answers, l.state)
  }

  /** Init, Authed, Closing, Closed, or Init, Closed; so far. */
  predicate Lawful(trace: seq<ConnState>, state: ConnState) {
    match state
    case Init => trace == [Init]
    case Authed => trace == [Init, Authed]
    case Closing => trace == [Init, Authed, Closing]
    case Closed => trace == [Init, Closed] || trace == [Init, Authed, Closing, Closed]
  }

  /** The first Close returned nil and no other did; and none has before the connection is closed. */
  ghost predicate Answered(answers: seq<bool>, state: ConnState) {
    if state == Closed
    then answers != [] && answers[0] && forall i :: 1 <= i < |answers| ==> !answers[i]
    else answers == []
  }

  function LocalOf(s: System, c: Conn): Local {
    if c in s.conns then s.conns[c] else NOBODY
  }

  const NOBODY := Local(Init, Idle, Streams.None, false, [Init], [])

  function GroupAt(s: System, b: string): Group {
    if b in s.groups then s.groups[b] else NEW_GROUP
  }

  function HubConns(s: System, b: string, a: string): set<Conn> {
    ConnsOf(GroupAt(s, b).index, a)
  }

  function AllConns(s: System, b: string): map<string, Conn> {
    GroupAt(s, b).allConns
  }

  predicate Found(m: map<string, Conn>, c: Conn) {
    c.connectionID in m && m[c.connectionID] == c
  }

  /** The business and the alias of the connection's session. */
  predicate At(l: Local, b: string, a: string) {
    l.session.Some? && l.session.value.business == b && l.session.value.alias == a
  }

  predicate AtBusiness(l: Local, b: string) {
    l.session.Some? && l.session.value.business == b
  }

  // A connection is registered where its phase says, and nowhere else: also one that has never been opened.

  ghost predicate IdsRight(s: System) {
    forall c :: Found(s.connectionIDToConnMap, c) <==> ById(LocalOf(s, c))
  }

  ghost predicate HubsRight(s: System) {
    forall c, b, a :: c in HubConns(s, b, a) <==> InHub(LocalOf(s, c)) && At(LocalOf(s, c), b, a)
  }

  ghost predicate AllRight(s: System) {
    forall c, b :: Found(AllConns(s, b), c) <==> InAll(LocalOf(s, c)) && AtBusiness(LocalOf(s, c), b)
  }

  /** The group manager that was found or made is there for good. */
  predicate HasGroup(l: Local, businesses: set<string>) {
    l.grouped || l.phase in {CloseAlias, CloseConns} ==> l.session.Some? && l.session.value.business in businesses
  }

  ghost predicate LocalsSound(s: System) {
    && (forall c :: c in s.conns ==> Sound(s.conns[c]))
    && (forall c :: c in s.conns ==> HasGroup(s.conns[c], s.groups.Keys))
    && (forall c, d :: c in s.conns && d in s.conns && c.connectionID == d.connectionID ==> c == d)
  }

  ghost predicate IndicesTwoWay(s: System) {
    forall b :: b in s.groups ==> TwoWay(s.groups[b].index)
  }

  /** The invariant. */
  ghost predicate Inv(s: System) {
    LocalsSound(s) && IdsRight(s) && HubsRight(s) && AllRight(s) && IndicesTwoWay(s)
  }

  // ---------- what a step does to each part ----------

  /** Only c's own record changes, and no group goes. */
  ghost predicate Only(s: System, s': System, c: Conn, l: Local) {
    s'.conns == s.conns[c := l] && s.groups.Keys <= s'.groups.Keys
  }

  lemma LocalsKept(s: System, s': System, c: Conn, l: Local)
    requires LocalsSound(s) && Only(s, s', c, l) && Sound(l)
    requires HasGroup(l, s'.groups.Keys)
    requires c in s.conns || forall d :: d in s.conns ==> d.connectionID != c.connectionID
    ensures LocalsSound(s')
  {
    hide Sound;
  }

  lemma IdsKept(s: System, s': System, c: Conn, l: Local)
    requires IdsRight(s) && Only(s, s', c, l) && ById(l) == ById(LocalOf(s, c))
    requires s'.connectionIDToConnMap == s.connectionIDToConnMap
    ensures IdsRight(s')
  {
    hide ById;
    assert forall d :: LocalOf(s', d) == if d == c then l else LocalOf(s, d);
  }

  lemma IdsStored(s: System, s': System, c: Conn, l: Local)
    requires IdsRight(s) && LocalsSound(s) && Only(s, s', c, l) && ById(l) && c in s.conns
    requires s'.connectionIDToConnMap == s.connectionIDToConnMap[c.connectionID := c]
    ensures IdsRight(s')
  {
    hide Sound;
    assert forall d :: LocalOf(s', d) == if d == c then l else LocalOf(s, d);
  }

  lemma IdsDeleted(s: System, s': System, c: Conn, l: Local)
    requires IdsRight(s) && LocalsSound(s) && Only(s, s', c, l) && !ById(l) && c in s.conns
    requires s'.connectionIDToConnMap == s.connectionIDToConnMap - {c.connectionID}
    ensures IdsRight(s')
  {
    hide Sound;
    assert forall d :: LocalOf(s', d) == if d == c then l else LocalOf(s, d);
  }

  lemma HubsKept(s: System, s': System, c: Conn, l: Local)
    requires HubsRight(s) && Only(s, s', c, l) && InHub(l) == InHub(LocalOf(s, c))
    requires l.session == LocalOf(s, c).session || !InHub(l)
    requires forall b, a :: HubConns(s', b, a) == HubConns(s, b, a)
    ensures HubsRight(s')
  {
    hide InHub, HubConns;
    assert forall d :: LocalOf(s', d) == if d == c then l else LocalOf(s, d);
    forall d, b, a
      ensures d in HubConns(s', b, a) <==> InHub(LocalOf(s', d)) && At(LocalOf(s', d), b, a)
    {
      assert HubConns(s', b, a) == HubConns(s, b, a);
    }
  }

  lemma HubsChanged(s: System, s': System, c: Conn, l: Local)
    requires HubsRight(s) && Only(s, s', c, l) && l.session == LocalOf(s, c).session
    requires forall b, a :: HubConns(s', b, a) ==
                            if !At(l, b, a) then HubConns(s, b, a)
                            else if InHub(l) then HubConns(s, b, a) + {c} else HubConns(s, b, a) - {c}
    ensures HubsRight(s')
  {
    hide InHub, HubConns;
    assert forall d :: LocalOf(s', d) == if d == c then l else LocalOf(s, d);
    forall d, b, a
      ensures d in HubConns(s', b, a) <==> InHub(LocalOf(s', d)) && At(LocalOf(s', d), b, a)
    {
      assert d in HubConns(s, b, a) <==> InHub(LocalOf(s, d)) && At(LocalOf(s, d), b, a);
    }
  }

  lemma AllKept(s: System, s': System, c: Conn, l: Local)
    requires AllRight(s) && Only(s, s', c, l) && InAll(l) == InAll(LocalOf(s, c))
    requires l.session == LocalOf(s, c).session || !InAll(l)
    requires forall b :: AllConns(s', b) == AllConns(s, b)
    ensures AllRight(s')
  {
    hide InAll, AllConns;
    assert forall d :: LocalOf(s', d) == if d == c then l else LocalOf(s, d);
    forall d, b
      ensures Found(AllConns(s', b), d) <==> InAll(LocalOf(s', d)) && AtBusiness(LocalOf(s', d), b)
    {
      assert AllConns(s', b) == AllConns(s, b);
      assert Found(AllConns(s, b), d) <==> InAll(LocalOf(s, d)) && AtBusiness(LocalOf(s, d), b);
    }
  }

  lemma AllChanged(s: System, s': System, c: Conn, l: Local)
    requires AllRight(s) && LocalsSound(s) && Only(s, s', c, l) && c in s.conns
    requires l.session == s.conns[c].session
    requires forall b :: AllConns(s', b) ==
                         if !AtBusiness(l, b) then AllConns(s, b)
                         else if InAll(l) then AllConns(s, b)[c.connectionID := c] else AllConns(s, b) - {c.connectionID}
    ensures AllRight(s')
  {
    hide AllConns, Sound;
    assert forall d :: LocalOf(s', d) == if d == c then l else LocalOf(s, d);
    forall d, b
      ensures Found(AllConns(s', b), d) <==> InAll(LocalOf(s', d)) && AtBusiness(LocalOf(s', d), b)
    {
      assert Found(AllConns(s, b), d) <==> InAll(LocalOf(s, d)) && AtBusiness(LocalOf(s, d), b);
      assert d.connectionID == c.connectionID && d != c ==> d !in s.conns;
      assert LocalOf(s, c) == s.conns[c];
    }
  }

  lemma TwoWayKept(s: System, s': System, b: string, g: Group, op: Op)
    requires IndicesTwoWay(s) && b in s.groups && s'.groups == s.groups[b := g]
    requires g.index == TopicIndex.Step(s.groups[b].index, op) || g.index == s.groups[b].index
    ensures IndicesTwoWay(s')
  {
    hide TwoWay, TopicIndex.Step;
    StepKeepsTwoWay(s.groups[b].index, op);
  }

  // ---------- every step keeps the invariant ----------

  /** A step that the registries do not see; at most a group is made. */
  lemma Unseen(s: System, s': System, c: Conn, l: Local)
    requires Inv(s) && Only(s, s', c, l) && Sound(l)
    requires c in s.conns || forall d :: d in s.conns ==> d.connectionID != c.connectionID
    requires HasGroup(l, s'.groups.Keys)
    requires ById(l) == ById(LocalOf(s, c)) && InHub(l) == InHub(LocalOf(s, c)) && InAll(l) == InAll(LocalOf(s, c))
    requires l.session == LocalOf(s, c).session || !(InHub(l) || InAll(l))
    requires s'.connectionIDToConnMap == s.connectionIDToConnMap
    requires forall b :: GroupAt(s', b) == GroupAt(s, b)
    ensures Inv(s')
  {
    hide ById, InHub, InAll, Sound, LocalsSound, IdsRight, HubsRight, AllRight, TwoWay;
    LocalsKept(s, s', c, l);
    IdsKept(s, s', c, l);
    assert forall b, a :: HubConns(s', b, a) == HubConns(s, b, a);
    HubsKept(s, s', c, l);
    AllKept(s, s', c, l);
    EmptyTwoWay();
    forall b | b in s'.groups
      ensures TwoWay(s'.groups[b].index)
    {
      assert GroupAt(s', b) == GroupAt(s, b);
    }
  }

  lemma EmptyTwoWay()
    ensures TwoWay(EMPTY)
  {
  }

  lemma OpenKeeps(s: System, c: Conn)
    requires Inv(s)
    ensures Inv(Do(s, Open(c)))
  {
    hide IdsRight, HubsRight, AllRight, TwoWay, LocalsSound;
    if c !in s.conns && forall d :: d in s.conns ==> d.connectionID != c.connectionID {
      Unseen(s, Do(s, Open(c)), c, NOBODY);
    }
  }

  lemma SoundConn(s: System, c: Conn)
    requires LocalsSound(s) && c in s.conns
    ensures Sound(s.conns[c]) && HasGroup(s.conns[c], s.groups.Keys)
  {
    hide Sound;
    assert Sound(s.conns[c]);
  }

  lemma SetAuthedKeeps(s: System, c: Conn, session: Session)
    requires Inv(s)
    ensures Inv(Do(s, SetAuthed(c, session)))
  {
    hide IdsRight, HubsRight, AllRight, TwoWay, LocalsSound;
    if c in s.conns && s.conns[c].phase == Idle && s.conns[c].state == Init {
      SoundConn(s, c);
      Unseen(s, Do(s, SetAuthed(c, session)), c, Do(s, SetAuthed(c, session)).conns[c]);
    }
  }

  /** A connection's record before and after a step that the registries do not see. */
  ghost predicate LooksSame(l: Local, l': Local) {
    && Sound(l') && l'.session == l.session
    && ById(l') == ById(l) && InHub(l') == InHub(l) && InAll(l') == InAll(l)
    && (l'.grouped || l'.phase in {CloseAlias, CloseConns} ==> l.grouped || l.phase in {CloseAlias, CloseConns})
  }

  /** What Close makes of a connection's record when it takes the lock. */
  function Begun(l: Local): Local {
    match l.state
    case Init => Moved(l, ConnState.Closed).(answers := l.answers + [true])
    case Authed => Moved(l, Closing).(phase := if l.session.Some? then CloseId else CloseEnd)
    case _ => l.(answers := l.answers + [false])
  }

  lemma BegunLooksSame(l: Local)
    requires Sound(l) && l.phase == Idle
    ensures LooksSame(l, Begun(l))
  {
  }

  lemma Same(s: System, s': System, c: Conn, l: Local)
    requires Inv(s) && c in s.conns && LooksSame(s.conns[c], l) && s' == Put(s, c, l)
    ensures Inv(s')
  {
    hide IdsRight, HubsRight, AllRight, TwoWay, LocalsSound, IndicesTwoWay, Sound, ById, InHub, InAll;
    SoundConn(s, c);
    assert forall b :: GroupAt(s', b) == GroupAt(s, b);
    Unseen(s, s', c, l);
  }

  lemma CloseKeeps(s: System, c: Conn)
    requires Inv(s)
    ensures Inv(Do(s, Close(c)))
  {
    hide Inv, LooksSame, Sound;
    if c in s.conns && s.conns[c].phase == Idle {
      InvSound(s, c);
      BegunLooksSame(s.conns[c]);
      Same(s, Do(s, Close(c)), c, Begun(s.conns[c]));
    }
  }

  /** The steps of setAuthed that look up or make the group manager. */
  lemma AuthQuiet(s: System, c: Conn, now: int, ok: bool)
    requires Inv(s) && c in s.conns && s.conns[c].session.Some? && s.conns[c].phase in {AuthLoad, AuthMake}
    ensures Inv(Do(s, Go(c, now, ok)))
  {
    hide IdsRight, HubsRight, AllRight, TwoWay, LocalsSound, IndicesTwoWay, Lawful, Answered;
    SoundConn(s, c);
    var s' := Do(s, Go(c, now, ok));
    assert forall b :: GroupAt(s', b) == GroupAt(s, b);
    Unseen(s, s', c, s'.conns[c]);
  }

  /** The same for Close. */
  lemma CloseQuiet(s: System, c: Conn, now: int, ok: bool)
    requires Inv(s) && c in s.conns && s.conns[c].session.Some? && s.conns[c].phase in {CloseLoad, CloseMake}
    ensures Inv(Do(s, Go(c, now, ok)))
  {
    hide IdsRight, HubsRight, AllRight, TwoWay, LocalsSound, IndicesTwoWay, Lawful, Answered;
    SoundConn(s, c);
    var s' := Do(s, Go(c, now, ok));
    assert forall b :: GroupAt(s', b) == GroupAt(s, b);
    Unseen(s, s', c, s'.conns[c]);
  }

  /** The end of Close. */
  lemma EndKeeps(s: System, c: Conn, now: int, ok: bool)
    requires Inv(s) && c in s.conns && s.conns[c].session.Some? && s.conns[c].phase == CloseEnd
    ensures Inv(Do(s, Go(c, now, ok)))
  {
    hide Inv, LooksSame, Sound;
    InvSound(s, c);
    EndLooksSame(s.conns[c]);
    Same(s, Do(s, Go(c, now, ok)), c, Do(s, Go(c, now, ok)).conns[c]);
  }

  lemma EndLooksSame(l: Local)
    requires Sound(l) && l.phase == CloseEnd
    ensures LooksSame(l, Moved(l, ConnState.Closed).(phase := Idle, answers := l.answers + [true]))
  {
  }

  lemma IdKeeps(s: System, c: Conn, now: int, ok: bool)
    requires Inv(s) && c in s.conns && s.conns[c].session.Some? && s.conns[c].phase in {AuthId, CloseId}
    ensures Inv(Do(s, Go(c, now, ok)))
  {
    hide IdsRight, HubsRight, AllRight, TwoWay, LocalsSound;
    SoundConn(s, c);
    var s' := Do(s, Go(c, now, ok));
    var l := s'.conns[c];
    LocalsKept(s, s', c, l);
    if l.phase == AuthAlias {
      IdsStored(s, s', c, l);
    } else {
      IdsDeleted(s, s', c, l);
    }
    HubsKept(s, s', c, l);
    AllKept(s, s', c, l);
  }

  lemma AliasKeeps(s: System, c: Conn, now: int, ok: bool)
    requires Inv(s) && c in s.conns && s.conns[c].session.Some? && s.conns[c].phase in {AuthAlias, CloseAlias}
    ensures Inv(Do(s, Go(c, now, ok)))
  {
    hide IdsRight, HubsRight, AllRight, TwoWay, LocalsSound, Added, Removed;
    SoundConn(s, c);
    var s' := Do(s, Go(c, now, ok));
    var session := s.conns[c].session.value;
    var b := session.business;
    if b in s.groups {
      var l := s'.conns[c];
      LocalsKept(s, s', c, l);
      IdsKept(s, s', c, l);
      forall a
        ensures ConnsOf(Added(s.groups[b].index, session.alias, c, session.topics, now), a) ==
                ConnsOf(s.groups[b].index, a) + (if a == session.alias then {c} else {})
        ensures ConnsOf(Removed(s.groups[b].index, session.alias, c), a) ==
                ConnsOf(s.groups[b].index, a) - (if a == session.alias then {c} else {})
      {
        ConnsAfter(s.groups[b].index, session.alias, c, session.topics, now, a);
      }
      HubsChanged(s, s', c, l);
      AllKept(s, s', c, l);
      TwoWayKept(s, s', b, s'.groups[b],
                 if l.phase == AuthConns then Add(session.alias, c, session.topics, now) else Remove(session.alias, c));
    }
  }

  lemma ConnsAfter(g: Index, alias: string, c: Conn, ts: set<string>, now: int, a: string)
    ensures ConnsOf(Added(g, alias, c, ts, now), a) == ConnsOf(g, a) + (if a == alias then {c} else {})
    ensures ConnsOf(Removed(g, alias, c), a) == ConnsOf(g, a) - (if a == alias then {c} else {})
    ensures ConnsOf(Subscribed(g, alias, ts, now), a) == ConnsOf(Unsubscribed(g, alias, ts), a) == ConnsOf(g, a)
  {
  }

  lemma ConnsKeeps(s: System, c: Conn, now: int, ok: bool)
    requires Inv(s) && c in s.conns && s.conns[c].session.Some? && s.conns[c].phase in {AuthConns, CloseConns}
    ensures Inv(Do(s, Go(c, now, ok)))
  {
    hide IdsRight, HubsRight, AllRight, TwoWay, LocalsSound;
    SoundConn(s, c);
    var s' := Do(s, Go(c, now, ok));
    var session := s.conns[c].session.value;
    var b := session.business;
    if b in s.groups {
      var l := s'.conns[c];
      LocalsKept(s, s', c, l);
      IdsKept(s, s', c, l);
      HubsKept(s, s', c, l);
      AllChanged(s, s', c, l);
      TwoWayKept(s, s', b, s'.groups[b], Remove(session.alias, c));
    }
  }

  lemma SubscribeKeeps(s: System, b: string, alias: string, ts: set<string>, now: int)
    requires Inv(s)
    ensures Inv(Do(s, Step.Subscribe(b, alias, ts, now))) && Inv(Do(s, Step.Unsubscribe(b, alias, ts)))
  {
    hide IdsRight, HubsRight, AllRight, TwoWay, LocalsSound, Subscribed, Unsubscribed;
    if b in s.groups {
      var op, op' := TopicIndex.Op.Subscribe(alias, ts, now), TopicIndex.Op.Unsubscribe(alias, ts);
      forall a
        ensures ConnsOf(Subscribed(s.groups[b].index, alias, ts, now), a) == ConnsOf(s.groups[b].index, a)
        ensures ConnsOf(Unsubscribed(s.groups[b].index, alias, ts), a) == ConnsOf(s.groups[b].index, a)
      {
        ConnsAfter(s.groups[b].index, alias, Conn("", 0), ts, now, a);
      }
      IndexChanged(s, Do(s, Step.Subscribe(b, alias, ts, now)), b, op);
      IndexChanged(s, Do(s, Step.Unsubscribe(b, alias, ts)), b, op');
    }
  }

  /** An operation of a group manager that leaves its connections alone. */
  lemma IndexChanged(s: System, s': System, b: string, op: Op)
    requires Inv(s) && b in s.groups
    requires s' == PutGroup(s, b, s.groups[b].(index := TopicIndex.Step(s.groups[b].index, op)))
    requires forall a :: ConnsOf(s'.groups[b].index, a) == ConnsOf(s.groups[b].index, a)
    ensures Inv(s')
  {
    hide TwoWay, TopicIndex.Step, Sound, ById, InHub, InAll;
    TwoWayKept(s, s', b, s'.groups[b], op);
    assert forall d :: LocalOf(s', d) == LocalOf(s, d);
    assert forall b', a :: HubConns(s', b', a) == HubConns(s, b', a);
    assert forall b' :: AllConns(s', b') == AllConns(s, b');
  }

  lemma MakeGroupKeeps(s: System, b: string)
    requires Inv(s)
    ensures Inv(Do(s, MakeGroup(b)))
  {
    hide TwoWay, Sound, ById, InHub, InAll;
    if b !in s.groups {
      var s' := Do(s, MakeGroup(b));
      EmptyTwoWay();
      assert forall d :: LocalOf(s', d) == LocalOf(s, d);
      assert forall b', a :: HubConns(s', b', a) == HubConns(s, b', a);
      assert forall b' :: AllConns(s', b') == AllConns(s, b');
    }
  }

  lemma StepKeeps(s: System, step: Step)
    requires Inv(s)
    ensures Inv(Do(s, step))
  {
    hide Inv, Do;
    match step
    case Open(c) => OpenKeeps(s, c);
    case SetAuthed(c, session) => SetAuthedKeeps(s, c, session);
    case Close(c) => CloseKeeps(s, c);
    case MakeGroup(b) => MakeGroupKeeps(s, b);
    case Go(c, now, ok) => GoKeeps(s, c, now, ok);
    case Subscribe(b, alias, ts, now) => SubscribeKeeps(s, b, alias, ts, now);
    case Unsubscribe(b, alias, ts) => SubscribeKeeps(s, b, alias, ts, 0);
  }

  lemma GoKeeps(s: System, c: Conn, now: int, ok: bool)
    requires Inv(s)
    ensures Inv(Do(s, Go(c, now, ok)))
  {
    hide Inv;
    if c in s.conns && s.conns[c].session.Some? {
      match s.conns[c].phase
      case Idle =>
      case AuthId | CloseId => IdKeeps(s, c, now, ok);
      case AuthAlias | CloseAlias => AliasKeeps(s, c, now, ok);
      case AuthConns | CloseConns => ConnsKeeps(s, c, now, ok);
      case AuthLoad | AuthMake => AuthQuiet(s, c, now, ok);
      case CloseLoad | CloseMake => CloseQuiet(s, c, now, ok);
      case CloseEnd => EndKeeps(s, c, now, ok);
    }
  }

  /** In every run of any number of connections, authenticating and closing at once in any order. */
  lemma {:induction false} Always(steps: seq<Step>)
    ensures Inv(After(steps))
  {
    if steps == [] {
    } else {
      hide Inv;
      Always(steps[..|steps| - 1]);
      StepKeeps(After(steps[..|steps| - 1]), steps[|steps| - 1]);
    }
  }

  // ---------- what this means ----------

  function Rank(phase: Phase): nat {
    match phase
    case Idle => 0
    case AuthLoad => 5 case AuthMake => 4 case AuthId => 3 case AuthAlias => 2 case AuthConns => 1
    case CloseId => 6 case CloseLoad => 5 case CloseMake => 4 case CloseAlias => 3 case CloseConns => 2 case CloseEnd => 1
  }

  /** Whoever holds a connection's lock can go on, whatever the others do, and lets go after at most six steps. */
  lemma LockIsGivenBack(steps: seq<Step>, c: Conn, now: int, ok: bool)
    requires c in After(steps).conns && After(steps).conns[c].phase != Idle
    ensures
      var s := Do(After(steps), Go(c, now, ok));
      c in s.conns && Rank(s.conns[c].phase) < Rank(After(steps).conns[c].phase) <= 6
  {
    hide IdsRight, HubsRight, AllRight, TwoWay, Added, Removed, Lawful, Answered, After;
    Always(steps);
    SoundConn(After(steps), c);
  }

  /** If no making of a group manager fails, every authenticated connection has one. */
  lemma {:induction false} NoFailure(steps: seq<Step>, c: Conn)
    requires forall i :: 0 <= i < |steps| && steps[i].Go? ==> steps[i].ok
    requires c in After(steps).conns && After(steps).conns[c].phase == Idle && After(steps).conns[c].state == Authed
    ensures After(steps).conns[c].grouped
  {
    if steps != [] {
      hide Do, Inv;
      var before, step := steps[..|steps| - 1], steps[|steps| - 1];
      Always(before);
      if c in After(before).conns && Settled(After(before).conns[c]) {
        NoFailure(before, c);
      }
      NoFailureStep(After(before), step, c);
    }
  }

  lemma NoFailureStep(s: System, step: Step, c: Conn)
    requires Inv(s) && (step.Go? ==> step.ok)
    requires c in s.conns && Settled(s.conns[c]) ==> s.conns[c].grouped
    requires c in Do(s, step).conns && Settled(Do(s, step).conns[c])
    ensures Do(s, step).conns[c].grouped
  {
    hide Inv, Continue, Added, Removed, Subscribed, Unsubscribed, Lawful, Answered;
    if step.Go? {
      if step.conn in s.conns && s.conns[step.conn].session.Some? {
        var d := step.conn;
        if d != c {
          OnlyItsOwn(s, d, s.conns[d], s.conns[d].session.value, step.now, step.ok, c);
        } else {
          InvSound(s, c);
          NoFailureGo(s, c, s.conns[c], s.conns[c].session.value, step.now);
        }
      }
    }
  }

  lemma InvSound(s: System, c: Conn)
    requires Inv(s) && c in s.conns
    ensures Sound(s.conns[c])
  {
    hide IdsRight, HubsRight, AllRight, TwoWay, Lawful, Answered;
    SoundConn(s, c);
  }

  /** Of setAuthed's steps only the last, when the group manager has been found or made, leads out of it. */
  lemma NoFailureGo(s: System, c: Conn, l: Local, session: Session, now: int)
    requires c in s.conns && s.conns[c] == l && Sound(l) && (Settled(l) ==> l.grouped)
    requires c in Continue(s, c, l, session, now, true).conns
    ensures Settled(Continue(s, c, l, session, now, true).conns[c]) ==> Continue(s, c, l, session, now, true).conns[c].grouped
  {
    hide Added, Removed, Lawful, Answered;
  }

  /** Outside the critical sections a connection can be found by its ID, in its alias's hub and among all connections
      of its business exactly if it is authenticated and had a group manager; and nowhere else in any case. */
  lemma RegisteredIffAuthed(steps: seq<Step>, c: Conn, b: string, a: string)
    requires c in After(steps).conns && After(steps).conns[c].phase == Idle
    ensures
      var s := After(steps);
      var l := s.conns[c];
      var there := l.state == Authed && l.grouped;
      && (Found(s.connectionIDToConnMap, c) <==> there)
      && (c in HubConns(s, b, a) <==> there && At(l, b, a))
      && (Found(AllConns(s, b), c) <==> there && AtBusiness(l, b))
  {
    Always(steps);
    assert LocalOf(After(steps), c) == After(steps).conns[c];
  }

  /** The states a connection goes through, and what its Close calls return: the first to end nil, the others an error. */
  lemma OneLifeOneClose(steps: seq<Step>, c: Conn)
    requires c in After(steps).conns
    ensures Lawful(After(steps).conns[c].trace, After(steps).conns[c].state)
    ensures Answered(After(steps).conns[c].answers, After(steps).conns[c].state)
  {
    Always(steps);
    SoundConn(After(steps), c);
  }

  lemma ClosedStep(s: System, step: Step, c: Conn)
    requires c in s.conns && s.conns[c].state == ConnState.Closed && s.conns[c].phase == Idle
    ensures c in Do(s, step).conns && Do(s, step).conns[c].state == ConnState.Closed
  {
    hide Continue, Added, Removed, Subscribed, Unsubscribed;
    match step
    case Go(d, now, ok) =>
      if d in s.conns && s.conns[d].session.Some? {
        OnlyItsOwn(s, d, s.conns[d], s.conns[d].session.value, now, ok, c);
      }
    case _ =>
  }

  lemma ClosedIsIdle(s: System, c: Conn)
    requires Inv(s) && c in s.conns && s.conns[c].state == ConnState.Closed
    ensures s.conns[c].phase == Idle
  {
    hide IdsRight, HubsRight, AllRight, TwoWay;
    SoundConn(s, c);
  }

  /** The holder of d's lock touches no other connection's record. */
  lemma OnlyItsOwn(s: System, d: Conn, l: Local, session: Session, now: int, ok: bool, c: Conn)
    requires d in s.conns
    ensures
      var s' := Continue(s, d, l, session, now, ok);
      c != d ==> (c in s'.conns <==> c in s.conns) && (c in s.conns ==> s'.conns[c] == s.conns[c])
    ensures l.phase == Idle ==> Continue(s, d, l, session, now, ok) == s
  {
    hide Added, Removed, Moved;
  }

  lemma {:induction false} ClosedStays(steps: seq<Step>, n: nat, c: Conn)
    requires n <= |steps| && c in After(steps[..n]).conns && After(steps[..n]).conns[c].state == ConnState.Closed
    ensures c in After(steps).conns && After(steps).conns[c].state == ConnState.Closed
    decreases |steps|
  {
    if n == |steps| {
      assert steps[..n] == steps;
    } else {
      var before := steps[..|steps| - 1];
      assert before[..n] == steps[..n];
      hide Sound, Do, Inv;
      ClosedStays(before, n, c);
      Always(before);
      ClosedIsIdle(After(before), c);
      ClosedStep(After(before), steps[|steps| - 1], c);
    }
  }

  /** Once closed, a connection is never registered again. */
  lemma ClosedNeverReturns(steps: seq<Step>, n: nat, c: Conn, b: string, a: string)
    requires n <= |steps| && c in After(steps[..n]).conns && After(steps[..n]).conns[c].state == ConnState.Closed
    ensures !Found(After(steps).connectionIDToConnMap, c)
    ensures c !in HubConns(After(steps), b, a) && !Found(AllConns(After(steps), b), c)
  {
    ClosedStays(steps, n, c);
    Always(steps);
    SoundConn(After(steps), c);
    assert LocalOf(After(steps), c) == After(steps).conns[c];
  }
}
