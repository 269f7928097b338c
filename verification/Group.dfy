/** broker/hub.go and group.go: hubs and group managers, updated in place. */
module Group {
  import opened TopicIndex

  datatype TopicRequest = TopicRequest(request: seq<char>, subscribeTs: int, topicName: string)

  /** The set of the elements, and that each is there once. */
  ghost predicate Once<T(!new)>(s: seq<T>, elems: set<T>) {
    && (forall x :: x in s <==> x in elems)
    && forall i, j :: 0 <= i < j < |s| ==> s[i] != s[j]
  }

  function Set<T>(s: seq<T>): set<T> { set x | x in s }

  class Hub {
    const name: string
    var conns: set<Conn>
    var topicSet: set<string>
    var exited: bool                       // the exit channel is closed
    var running: bool
    var topicPush: seq<TopicRequest>       // what the channels hold
    var broadcast: seq<seq<char>>

    constructor (name: string)
      ensures this.name == name && conns == {} && topicSet == {} && !exited && !running
      ensures topicPush == [] && broadcast == []
    {
      this.name, conns, topicSet, exited, running, topicPush, broadcast := name, {}, {}, false, false, [], [];
    }

    ghost function View(): HubView
      reads `conns, `topicSet
    {
      HubView(conns, topicSet)
    }

    method Register(conn: Conn)
      modifies `conns
      ensures conns == old(conns) + {conn}
    {
      conns := conns + {conn};
    }

    method Unregister(conn: Conn)
      modifies `conns
      ensures conns == old(conns) - {conn}
    {
      conns := conns - {conn};
    }

    method Close()
      modifies `exited
      ensures exited
    {
      exited := true;
    }

    /** The compare-and-swap of start; spawned says whether a goroutine is started. */
    method Start() returns (spawned: bool)
      modifies `running
      ensures running && spawned == !old(running)
    {
      spawned := !running;
      running := true;
    }

    method Subscribe(topics: seq<string>)
      modifies `topicSet
      ensures topicSet == if exited then old(topicSet) else old(topicSet) + Set(topics)
    {
      if exited {
        return;
      }
      for i := 0 to |topics|
        invariant topicSet == old(topicSet) + Set(topics[..i])
      {
        TakeOneMore(topics, i);
        topicSet := topicSet + {topics[i]};
      }
      assert topics[..|topics|] == topics;
    }

    method Unsubscribe(topics: seq<string>)
      modifies `topicSet
      ensures topicSet == if exited then old(topicSet) else old(topicSet) - Set(topics)
    {
      if exited {
        return;
      }
      for i := 0 to |topics|
        invariant topicSet == old(topicSet) - Set(topics[..i])
      {
        TakeOneMore(topics, i);
        topicSet := topicSet - {topics[i]};
      }
      assert topics[..|topics|] == topics;
    }

    /** The turn of run that takes a request from topicPush: sending is attempted, once each, to the connections that
        the filter lets through, whether or not it succeeds for others. */
    method PushTopic() returns (request: TopicRequest, tried: seq<Conn>)
      requires topicPush != []
      modifies `topicPush
      ensures request == old(topicPush[0]) && topicPush == old(topicPush[1..])
      ensures Once(tried, Passing(conns, request.subscribeTs))
    {
      request := topicPush[0];
      topicPush := topicPush[1..];
      tried := [];
      var rest := conns;
      while rest != {}
        invariant rest <= conns
        invariant Once(tried, Passing(conns - rest, request.subscribeTs))
        decreases |rest|
      {
        var conn :| conn in rest;
        ghost var done := conns - rest;
        rest := rest - {conn};
        assert conns - rest == done + {conn};
        assert Passing(conns - rest, request.subscribeTs) ==
               Passing(done, request.subscribeTs) + (if conn.connectTime > request.subscribeTs then {} else {conn});
        if conn.connectTime > request.subscribeTs {
          continue;
        }
        tried := tried + [conn];
      }
    }

    /** The turn of run that takes a request from broadcast. */
    method PushAll() returns (request: seq<char>, tried: seq<Conn>)
      requires broadcast != []
      modifies `broadcast
      ensures request == old(broadcast[0]) && broadcast == old(broadcast[1..]) && Once(tried, conns)
    {
      request := broadcast[0];
      broadcast := broadcast[1..];
      tried := [];
      var rest := conns;
      while rest != {}
        invariant rest <= conns && Once(tried, conns - rest)
        decreases |rest|
      {
        var conn :| conn in rest;
        rest := rest - {conn};
        tried := tried + [conn];
      }
    }
  }

  /** However many pushes find a hub that has not been started and start it: one goroutine runs for it. */
  method StartAgainAndAgain(h: Hub, pushes: nat) returns (goroutines: nat)
    modifies h`running
    ensures goroutines <= 1 && (goroutines == 1 <==> pushes > 0 && !old(h.running))
    ensures h.running == (old(h.running) || pushes > 0)
  {
    goroutines := 0;
    for i := 0 to pushes
      invariant h.running == (old(h.running) || i > 0)
      invariant goroutines == if i > 0 && !old(h.running) then 1 else 0
    {
      var spawned := h.Start();
      if spawned {
        goroutines := goroutines + 1;
      }
    }
  }

  lemma TakeOneMore<T>(s: seq<T>, i: nat)
    requires i < |s|
    ensures Set(s[..i + 1]) == Set(s[..i]) + {s[i]}
  {
    assert s[..i + 1] == s[..i] + [s[i]];
  }

  lemma PutOneMore(topics: map<string, map<string, int>>, alias: string, ts: set<string>, now: int, t: string)
    ensures Put(topics, alias, ts + {t}, now) ==
            var topics' := Put(topics, alias, ts, now); topics'[t := Row(topics', t)[alias := now]]
  {
    var topics' := Put(topics, alias, ts, now);
    var one, more := topics'[t := Row(topics', t)[alias := now]], Put(topics, alias, ts + {t}, now);
    assert one.Keys == more.Keys;
    forall k | k in one
      ensures one[k] == more[k]
    {
    }
  }

  lemma CutOneMore(topics: map<string, map<string, int>>, alias: string, ts: set<string>, t: string)
    ensures Cut(topics, alias, ts + {t}) ==
            var topics' := Cut(topics, alias, ts); if t in topics' then topics'[t := topics'[t] - {alias}] else topics'
  {
    var topics' := Cut(topics, alias, ts);
    var one, more := if t in topics' then topics'[t := topics'[t] - {alias}] else topics', Cut(topics, alias, ts + {t});
    assert one.Keys == more.Keys;
    forall k | k in one
      ensures one[k] == more[k]
    {
    }
  }

  lemma PutNone(topics: map<string, map<string, int>>, alias: string, now: int)
    ensures Put(topics, alias, {}, now) == topics && Cut(topics, alias, {}) == topics
  {
  }

  lemma OneChanged<T>(m: map<string, T>, before: map<string, T>, a: string, x: T)
    requires m.Keys == before.Keys + {a} && m[a] == x
    requires forall b :: b in before && b != a ==> m[b] == before[b]
    ensures m == before[a := x]
  {
  }

  lemma TwiceChanged<T>(m: map<string, T>, a: string, x: T, y: T)
    ensures m[a := x][a := y] == m[a := y]
  {
  }

  lemma DropChanged<T>(m: map<string, T>, a: string, x: T)
    ensures m[a := x] - {a} == m - {a}
  {
  }

  lemma NoneChanged<T>(m: map<string, T>, before: map<string, T>)
    requires m.Keys == before.Keys && forall b :: b in before ==> m[b] == before[b]
    ensures m == before
  {
  }

  ghost predicate Distinct(hubs: map<string, Hub>) {
    forall a, b :: a in hubs && b in hubs && hubs[a] == hubs[b] ==> a == b
  }

  /** Every alias has a hub of its own, and it is open. */
  ghost predicate Separate(hubs: map<string, Hub>)
    reads hubs.Values`exited
  {
    Distinct(hubs) && forall a :: a in hubs ==> !hubs[a].exited
  }

  ghost function HubViews(hubs: map<string, Hub>): (views: map<string, HubView>)
    reads hubs.Values`conns, hubs.Values`topicSet
    ensures views.Keys == hubs.Keys && forall a :: a in hubs ==> views[a] == hubs[a].View()
  {
    map a | a in hubs :: hubs[a].View()
  }

  /** Every hub but one is open and shows what it did. */
  ghost predicate Others(hubs: map<string, Hub>, a: string, before: map<string, HubView>)
    reads hubs.Values`exited, hubs.Values`conns, hubs.Values`topicSet
  {
    forall b :: b in hubs && b != a ==> b in before && hubs[b].View() == before[b] && !hubs[b].exited
  }

  lemma OneHubChanged(hubs: map<string, Hub>, a: string, before: map<string, HubView>)
    requires Others(hubs, a, before) && before.Keys == hubs.Keys && a in hubs && !hubs[a].exited && Distinct(hubs)
    ensures Separate(hubs) && HubViews(hubs) == before[a := hubs[a].View()]
  {
    OneChanged(HubViews(hubs), before, a, hubs[a].View());
  }

  datatype Queue = Queue(running: bool, requests: seq<TopicRequest>)

  /** The topicPush channels, and whether anybody empties them. */
  ghost function Queues(hubs: map<string, Hub>): (queues: map<string, Queue>)
    reads hubs.Values`running, hubs.Values`topicPush
    ensures queues.Keys == hubs.Keys && forall a :: a in hubs ==> queues[a] == Queue(hubs[a].running, hubs[a].topicPush)
  {
    map a | a in hubs :: Queue(hubs[a].running, hubs[a].topicPush)
  }

  ghost function Pushed(queues: map<string, Queue>, a: string, request: TopicRequest): map<string, Queue> {
    if a in queues then queues[a := Queue(true, queues[a].requests + [request])] else queues
  }

  /** A request for a topic to all of some aliases that follow it. */
  ghost function Served(queues: map<string, Queue>, since: map<string, int>, aliases: set<string>, topic: string,
                        request: seq<char>): map<string, Queue>
    requires aliases <= since.Keys
  {
    map a | a in queues ::
      if a in aliases then Queue(true, queues[a].requests + [TopicRequest(request, since[a], topic)]) else queues[a]
  }

  lemma ServedNone(queues: map<string, Queue>, topic: string, request: seq<char>, since: map<string, int>)
    ensures Served(queues, since, {}, topic, request) == queues
  {
  }

  lemma ServedOneMore(queues: map<string, Queue>, since: map<string, int>, aliases: set<string>, topic: string,
                      request: seq<char>, a: string)
    requires aliases <= since.Keys && a in since.Keys - aliases
    ensures Pushed(Served(queues, since, aliases, topic, request), a, TopicRequest(request, since[a], topic)) ==
            Served(queues, since, aliases + {a}, topic, request)
  {
  }

  lemma OneHubMore(hubs: map<string, Hub>, a: string, h: Hub)
    requires a !in hubs && h !in hubs.Values && Separate(hubs) && !h.exited
    ensures Separate(hubs[a := h]) && HubViews(hubs[a := h]) == HubViews(hubs)[a := h.View()]
  {
    assert forall b :: b in hubs ==> hubs[b] in hubs.Values;
    OneChanged(HubViews(hubs[a := h]), HubViews(hubs), a, h.View());
  }

  class GroupManager {
    var aliasHub: map<string, Hub>
    var topicAliasInfoMap: map<string, map<string, int>>     // topic -> alias -> subscribeTs
    var allConns: map<string, Conn>

    constructor ()
      ensures Valid() && View() == EMPTY && allConns == map[]
    {
      aliasHub, topicAliasInfoMap, allConns := map[], map[], map[];
    }

    ghost function View(): Index
      reads `aliasHub, `topicAliasInfoMap, aliasHub.Values`conns, aliasHub.Values`topicSet
    {
      Index(HubViews(aliasHub), topicAliasInfoMap)
    }

    /** Every alias has a hub of its own, and it is open; no hub is empty; and the two indices agree. */
    ghost predicate Valid()
      reads `aliasHub, `topicAliasInfoMap, aliasHub.Values`conns, aliasHub.Values`topicSet, aliasHub.Values`exited
    {
      Separate(aliasHub) && TwoWay(View())
    }

    method AddConn(conn: Conn)
      modifies `allConns
      ensures allConns == old(allConns)[conn.connectionID := conn]
    {
      allConns := allConns[conn.connectionID := conn];
    }

    method RemoveConn(connectionID: string)
      modifies `allConns
      ensures allConns == old(allConns) - {connectionID}
    {
      allConns := allConns - {connectionID};
    }

    /** doWithTopicAliasInfo: the index by topic. */
    method DoWithTopicAliasInfo(alias: string, topicList: seq<string>, isSubscribe: bool, now: int) returns (h: Hub?)
      modifies `topicAliasInfoMap
      ensures h == if alias in aliasHub then aliasHub[alias] else null
      ensures topicAliasInfoMap ==
              if h == null || h.exited then old(topicAliasInfoMap)
              else if isSubscribe then Put(old(topicAliasInfoMap), alias, Set(topicList), now)
              else Cut(old(topicAliasInfoMap), alias, Set(topicList))
    {
      hide Put, Cut;
      if alias !in aliasHub {
        return null;
      }
      h := aliasHub[alias];
      if h.exited {
        return;
      }
      PutNone(topicAliasInfoMap, alias, now);
      assert Set(topicList[..0]) == {};
      if !isSubscribe {
        for i := 0 to |topicList|
          invariant topicAliasInfoMap == Cut(old(topicAliasInfoMap), alias, Set(topicList[..i]))
        {
          var t := topicList[i];
          TakeOneMore(topicList, i);
          CutOneMore(old(topicAliasInfoMap), alias, Set(topicList[..i]), t);
          if t in topicAliasInfoMap {
            topicAliasInfoMap := topicAliasInfoMap[t := topicAliasInfoMap[t] - {alias}];
          }
        }
        assert topicList[..|topicList|] == topicList;
        return;
      }
      for i := 0 to |topicList|
        invariant topicAliasInfoMap == Put(old(topicAliasInfoMap), alias, Set(topicList[..i]), now)
      {
        var t := topicList[i];
        TakeOneMore(topicList, i);
        PutOneMore(old(topicAliasInfoMap), alias, Set(topicList[..i]), now, t);
        topicAliasInfoMap := topicAliasInfoMap[t := Row(topicAliasInfoMap, t)[alias := now]];
      }
      assert topicList[..|topicList|] == topicList;
    }

    /** subscribeImpl: the index by topic and then the hub's own. */
    method SubscribeImpl(alias: string, topicList: seq<string>, isSubscribe: bool, now: int)
      requires Valid()
      modifies `topicAliasInfoMap, aliasHub.Values
      ensures Valid() && aliasHub == old(aliasHub)
      ensures isSubscribe ==> View() == Subscribed(old(View()), alias, Set(topicList), now)
      ensures !isSubscribe ==> View() == Unsubscribed(old(View()), alias, Set(topicList))
    {
      hide Put, Cut, TwoWay, HubViews, Separate;
      ghost var ts := Set(topicList);
      if alias in aliasHub {
        OpenAndOnlyOne(alias);
      }
      StepKeepsTwoWay(View(), Op.Subscribe(alias, ts, now));
      StepKeepsTwoWay(View(), Op.Unsubscribe(alias, ts));
      var h := DoWithTopicAliasInfo(alias, topicList, isSubscribe, now);
      if h != null && !h.exited {
        Follow(h, alias, topicList, isSubscribe);
      }
    }

    /** The second half of subscribeImpl: the hub's own topics. */
    method Follow(h: Hub, alias: string, topicList: seq<string>, isSubscribe: bool)
      requires Separate(aliasHub) && alias in aliasHub && h == aliasHub[alias]
      modifies h`topicSet
      ensures Separate(aliasHub)
      ensures HubViews(aliasHub) == old(HubViews(aliasHub))
                [alias := HubView(h.conns, if isSubscribe then old(h.topicSet) + Set(topicList)
                                           else old(h.topicSet) - Set(topicList))]
    {
      hide HubViews;
      ghost var hubs := HubViews(aliasHub);
      if isSubscribe {
        h.Subscribe(topicList);
      } else {
        h.Unsubscribe(topicList);
      }
      OneHubChanged(aliasHub, alias, hubs);
    }

    method AddAliasConn(alias: string, conn: Conn, topics: seq<string>, now: int)
      requires Valid()
      modifies `aliasHub, `topicAliasInfoMap, aliasHub.Values
      ensures Valid() && View() == Added(old(View()), alias, conn, Set(topics), now)
    {
      hide Put, Cut, TwoWay, HubViews, Separate;
      StepKeepsTwoWay(View(), Op.Add(alias, conn, Set(topics), now));
      ghost var hubs := HubViews(aliasHub);
      var h := HubFor(alias);
      TwiceChanged(hubs, alias, h.View(), HubView(h.conns + {conn}, h.topicSet + Set(topics)));
      Join(h, alias, conn, topics, now);
    }

    /** The hub of an alias, which is made if there is none. */
    method HubFor(alias: string) returns (h: Hub)
      requires Separate(aliasHub)
      modifies `aliasHub
      ensures Separate(aliasHub) && alias in aliasHub && h == aliasHub[alias]
      ensures alias in old(aliasHub) ==> aliasHub == old(aliasHub)
      ensures alias !in old(aliasHub) ==> fresh(h) && aliasHub == old(aliasHub)[alias := h]
      ensures h.View() == if alias in old(aliasHub) then old(aliasHub[alias].View()) else HubView({}, {})
      ensures HubViews(aliasHub) == old(HubViews(aliasHub))[alias := h.View()]
    {
      hide HubViews;
      if alias !in aliasHub {
        h := NewHub(alias);
      } else {
        h := aliasHub[alias];
        OneChanged(HubViews(aliasHub), HubViews(aliasHub), alias, h.View());
      }
    }

    method NewHub(alias: string) returns (h: Hub)
      requires Separate(aliasHub) && alias !in aliasHub
      modifies `aliasHub
      ensures fresh(h) && !h.exited && h.View() == HubView({}, {})
      ensures aliasHub == old(aliasHub)[alias := h] && Separate(aliasHub)
      ensures HubViews(aliasHub) == old(HubViews(aliasHub))[alias := h.View()]
    {
      hide HubViews, Separate;
      h := new Hub(alias);
      assert h !in aliasHub.Values;
      OneHubMore(aliasHub, alias, h);
      aliasHub := aliasHub[alias := h];
    }

    /** A connection joins a hub, with topics. */
    method Join(h: Hub, alias: string, conn: Conn, topics: seq<string>, now: int)
      requires Separate(aliasHub) && alias in aliasHub && h == aliasHub[alias]
      modifies `topicAliasInfoMap, h
      ensures Separate(aliasHub)
      ensures HubViews(aliasHub) ==
              old(HubViews(aliasHub))[alias := HubView(old(h.conns) + {conn}, old(h.topicSet) + Set(topics))]
      ensures topicAliasInfoMap == Put(old(topicAliasInfoMap), alias, Set(topics), now)
    {
      hide HubViews, Put, Cut;
      ghost var hubs := HubViews(aliasHub);
      h.Register(conn);
      if |topics| > 0 {
        var same := DoWithTopicAliasInfo(alias, topics, true, now);
        h.Subscribe(topics);
      } else {
        PutNone(topicAliasInfoMap, alias, now);
        assert Set(topics) == {} && old(h.topicSet) + {} == h.topicSet;
      }
      OneHubChanged(aliasHub, alias, hubs);
    }

    method RemoveAliasConn(alias: string, conn: Conn)
      requires Valid()
      modifies `aliasHub, `topicAliasInfoMap, aliasHub.Values
      ensures Valid() && View() == Removed(old(View()), alias, conn)
      ensures alias in old(aliasHub) && alias !in aliasHub ==> old(aliasHub[alias]).exited
    {
      hide Put, Cut, TwoWay, HubViews;
      StepKeepsTwoWay(View(), Op.Remove(alias, conn));
      if alias !in aliasHub {
        return;
      }
      var h := aliasHub[alias];
      ghost var hubs := HubViews(aliasHub);
      h.Unregister(conn);
      OneHubChanged(aliasHub, alias, hubs);
      if |h.conns| == 0 {
        DropChanged(hubs, alias, h.View());
        Drop(alias, h);

      }
    }

    /** The end of an alias: its hub is closed, and it is struck out under each topic the hub followed. */
    method Drop(alias: string, h: Hub)
      requires Separate(aliasHub) && alias in aliasHub && h == aliasHub[alias]
      modifies `aliasHub, `topicAliasInfoMap, h`exited, h`topicSet
      ensures Separate(aliasHub) && HubViews(aliasHub) == old(HubViews(aliasHub)) - {alias} && h.exited
      ensures topicAliasInfoMap == Cut(old(topicAliasInfoMap), alias, old(h.topicSet))
    {
      hide Cut, HubViews;
      ghost var hubs := HubViews(aliasHub);
      h.Close();
      aliasHub := aliasHub - {alias};
      StrikeOut(alias, h.topicSet);
      h.topicSet := {};
      NoneChanged(HubViews(aliasHub), hubs - {alias});
    }

    /** The loop of removeAliasConn over the closed hub's topics. */
    method StrikeOut(alias: string, topicSet: set<string>)
      modifies `topicAliasInfoMap
      ensures topicAliasInfoMap == Cut(old(topicAliasInfoMap), alias, topicSet)
    {
      hide Cut;
      PutNone(topicAliasInfoMap, alias, 0);
      var rest := topicSet;
      assert topicSet - rest == {};
      while rest != {}
        invariant rest <= topicSet
        invariant topicAliasInfoMap == Cut(old(topicAliasInfoMap), alias, topicSet - rest)
        decreases |rest|
      {
        var t :| t in rest;
        CutOneMore(old(topicAliasInfoMap), alias, topicSet - rest, t);
        assert topicSet - (rest - {t}) == topicSet - rest + {t};
        rest := rest - {t};
        if t in topicAliasInfoMap {
          topicAliasInfoMap := topicAliasInfoMap[t := topicAliasInfoMap[t] - {alias}];
        }
      }
      assert topicSet - rest == topicSet;
    }

    /** BroadcastByTopic: the hub of each alias that follows the topic gets the request once, with the alias's own
        subscription time, and is started if it was not running; no other hub gets anything. */
    method BroadcastByTopic(topic: string, request: seq<char>)
      requires Valid()
      modifies aliasHub.Values
      ensures Valid() && View() == old(View())
      ensures Queues(aliasHub) ==
              Served(old(Queues(aliasHub)), Row(topicAliasInfoMap, topic), Row(topicAliasInfoMap, topic).Keys, topic, request)
    {
      hide Valid, View, Queues, Served;
      if topic !in topicAliasInfoMap {
        assert Row(topicAliasInfoMap, topic).Keys == {};
        ServedNone(Queues(aliasHub), topic, request, Row(topicAliasInfoMap, topic));
        return;
      }
      var aliasMap := topicAliasInfoMap[topic];
      var rest := aliasMap.Keys;
      ServedNone(Queues(aliasHub), topic, request, aliasMap);
      assert aliasMap.Keys - rest == {};
      while rest != {}
        invariant rest <= aliasMap.Keys
        invariant Valid() && View() == old(View())
        invariant Queues(aliasHub) == Served(old(Queues(aliasHub)), aliasMap, aliasMap.Keys - rest, topic, request)
        decreases |rest|
      {
        var a :| a in rest;
        PushTo(a, TopicRequest(request, aliasMap[a], topic));
        ServedOneMore(old(Queues(aliasHub)), aliasMap, aliasMap.Keys - rest, topic, request, a);
        assert aliasMap.Keys - rest + {a} == aliasMap.Keys - (rest - {a});
        rest := rest - {a};
      }
      assert aliasMap.Keys - rest == aliasMap.Keys;
    }

    lemma OpenAndOnlyOne(a: string)
      requires Valid() && a in aliasHub
      ensures !aliasHub[a].exited && forall b :: b in aliasHub && aliasHub[b] == aliasHub[a] ==> b == a
    {
    }

    /** One of BroadcastByTopic's tasks. */
    method PushTo(a: string, request: TopicRequest)
      requires Valid()
      modifies (if a in aliasHub then {aliasHub[a]} else {})`running
      modifies (if a in aliasHub then {aliasHub[a]} else {})`topicPush
      ensures Valid() && View() == old(View())
      ensures Queues(aliasHub) == Pushed(old(Queues(aliasHub)), a, request)
    {
      hide Valid, View, Queues;
      ghost var queues := Queues(aliasHub);
      if a !in aliasHub {
        return;
      }
      var h := aliasHub[a];
      OpenAndOnlyOne(a);
      if h.exited {
        return;
      }
      if !h.running {
        var spawned := h.Start();
      }
      h.topicPush := h.topicPush + [request];
      OneChanged(Queues(aliasHub), queues, a, Queue(h.running, h.topicPush));
    }

    /** BroadcastByAlias. */
    method BroadcastByAlias(alias: string, request: seq<char>)
      requires Valid()
      modifies (if alias in aliasHub then {aliasHub[alias]} else {})`running
      modifies (if alias in aliasHub then {aliasHub[alias]} else {})`broadcast
      ensures Valid() && View() == old(View())
      ensures alias in aliasHub ==>
                aliasHub[alias].running && aliasHub[alias].broadcast == old(aliasHub[alias].broadcast) + [request]
    {
      hide Valid, View;
      if alias !in aliasHub {
        return;
      }
      var h := aliasHub[alias];
      OpenAndOnlyOne(alias);
      if h.exited {
        return;
      }
      if !h.running {
        var spawned := h.Start();
      }
      h.broadcast := h.broadcast + [request];
    }
  }
}
