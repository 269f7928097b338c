/** broker/heartbeat.go: the index-tracking priority queue, over the sift operations of Go's container/heap. */
module Heap {
  import opened HeapOrder

  /** The part of broker/conn.go's Conn that the heartbeat reads. */
  class Conn {
    var lastReceiveFrameTime: int
    const heartbeatDeadlineInterval: nat     // nanoseconds
    var isDeadConn: bool

    constructor (now: int, interval: nat)
      ensures lastReceiveFrameTime == now && heartbeatDeadlineInterval == interval && !isDeadConn
    {
      lastReceiveFrameTime, heartbeatDeadlineInterval, isDeadConn := now, interval, false;
    }

    /** The interval in whole seconds. */
    function Interval(): (seconds: nat)
      ensures seconds * 1_000_000_000 <= heartbeatDeadlineInterval < (seconds + 1) * 1_000_000_000
    {
      heartbeatDeadlineInterval / 1_000_000_000
    }

    /** GetHeartbeatDeadline: the last frame's time plus the interval, in whole seconds; -1 once marked dead. */
    function Deadline(): (t: int)
      reads `lastReceiveFrameTime, `isDeadConn
      ensures if isDeadConn then t == -1 else
                var late := (t - lastReceiveFrameTime) * 1_000_000_000; late <= heartbeatDeadlineInterval < late + 1_000_000_000
    {
      if isDeadConn then -1 else lastReceiveFrameTime + Interval()
    }
  }

  class PQItem {
    const value: Conn
    var priority: int
    var index: int

    constructor (value: Conn, priority: int)
      ensures this.value == value && this.priority == priority && index == 0
    {
      this.value, this.priority, index := value, priority, 0;
    }
  }

  /** The priorities of items. */
  ghost function Keys(items: seq<PQItem>): (keys: seq<int>)
    reads items
    ensures |keys| == |items|
    ensures forall k :: 0 <= k < |items| ==> keys[k] == items[k].priority
  {
    seq(|items|, k requires 0 <= k < |items| reads items => items[k].priority)
  }

  /** Every item knows its place; so no item is there twice. */
  ghost predicate Indexed(items: seq<PQItem>)
    reads items
  {
    forall k :: 0 <= k < |items| ==> items[k].index == k
  }

  ghost function Elems(items: seq<PQItem>): set<PQItem> { set it | it in items }

  lemma InElems(items: seq<PQItem>, k: nat)
    requires k < |items|
    ensures items[k] in Elems(items)
  {
  }

  lemma IndexOf(items: seq<PQItem>, el: PQItem)
    requires Indexed(items) && el in items
    ensures 0 <= el.index < |items| && items[el.index] == el && el in Elems(items)
  {
  }

  lemma SwappedElems(s: seq<PQItem>, i: nat, j: nat)
    requires i < |s| && j < |s|
    ensures Elems(Swapped(s, i, j)) == Elems(s)
  {
    var t := Swapped(s, i, j);
    forall x | x in s
      ensures x in t
    {
      var k :| 0 <= k < |s| && s[k] == x;
      assert t[if k == i then j else if k == j then i else k] == x;
    }
  }

  class PriorityQueue {
    var items: seq<PQItem>

    constructor ()
      ensures Valid() && items == []
    {
      items := [];
    }

    ghost predicate Valid()
      reads this, items
    {
      Indexed(items) && Ordered(Keys(items), |items|)
    }

    predicate Less(i: nat, j: nat)
      requires i < |items| && j < |items|
      reads this, items
    {
      items[i].priority < items[j].priority
    }

    method Swap(i: nat, j: nat)
      requires i < |items| && j < |items| && Indexed(items)
      modifies `items, {items[i], items[j]}`index
      ensures items == Swapped(old(items), i, j) && Indexed(items)
      ensures Keys(items) == Swapped(old(Keys(items)), i, j) && Elems(items) == Elems(old(items))
    {
      SwappedElems(items, i, j);
      items := items[i := items[j]][j := items[i]];
      items[i].index := i;
      items[j].index := j;
    }

    /** heap.up, which looks no further than the first n items when it starts among them. */
    method Up(j0: nat, ghost n: nat)
      requires j0 < n <= |items| && Indexed(items) && OrderedButUp(Keys(items), n, j0)
      modifies `items, Elems(items)`index
      ensures Indexed(items) && Elems(items) == Elems(old(items)) && |items| == |old(items)|
      ensures Ordered(Keys(items), n) && items[n..] == old(items)[n..]
    {
      hide Ordered, OrderedButUp, Swapped;
      var j: nat := j0;
      while true
        invariant j < n <= |items| == |old(items)| && Indexed(items) && Elems(items) == Elems(old(items))
        invariant OrderedButUp(Keys(items), n, j) && items[n..] == old(items)[n..]
        decreases j
      {
        var i := Parent(j);
        if i == j || !Less(j, i) {
          UpDone(Keys(items), n, j);
          break;
        }
        UpStep(Keys(items), n, j);
        TailKept(items, i, j, n);
        assert items[i] in Elems(items) && items[j] in Elems(items);
        Swap(i, j);
        j := i;
      }
    }

    /** The child that heap.down compares with: the smaller one. */
    method SmallerChild(i: nat, n: nat) returns (j: nat)
      requires 2 * i + 1 < n <= |items|
      ensures LeastChild(Keys(items), n, i, j)
    {
      j := 2 * i + 1;
      var j2 := j + 1;
      if j2 < n && Less(j2, j) {
        j := j2;
      }
      forall k | i < k < n && Parent(k) == i
        ensures Keys(items)[j] <= Keys(items)[k]
      {
        Children(i, k);
      }
    }

    /** heap.down on the first n items: whether it moved the item at i0, which then is in its place; or else that
        the item is in order with its children. */
    method Down(i0: nat, n: nat) returns (moved: bool)
      requires n <= |items| && i0 < |items| && Indexed(items) && OrderedButAt(Keys(items), n, i0)
      modifies `items, Elems(items)`index
      ensures Indexed(items) && Elems(items) == Elems(old(items)) && |items| == |old(items)|
      ensures items[n..] == old(items)[n..]
      ensures moved ==> Ordered(Keys(items), n)
      ensures !moved ==> items == old(items) && Keys(items) == old(Keys(items))
      ensures !moved && i0 < n ==> OrderedButUp(Keys(items), n, i0)
      ensures !moved && i0 == 0 ==> Ordered(Keys(items), n)
    {
      hide Ordered, OrderedButUp, OrderedButDown, OrderedButAt, Swapped;
      var i: nat := i0;
      moved := false;
      while 2 * i + 1 < n
        invariant i < |items| == |old(items)| && Indexed(items) && Elems(items) == Elems(old(items))
        invariant items[n..] == old(items)[n..] && moved == (i > i0) && i >= i0
        invariant if moved then OrderedButDown(Keys(items), n, i) else
                  items == old(items) && i == i0 && OrderedButAt(Keys(items), n, i)
        invariant Keys(items) == old(Keys(items)) || moved
        decreases n - i
      {
        var j := SmallerChild(i, n);
        if !Less(j, i) {
          break;
        }
        TailKept(items, i, j, n);
        if moved {
          DownAgain(Keys(items), n, i, j);
        } else {
          DownFirst(Keys(items), n, i, j);
        }
        assert items[i] in Elems(items) && items[j] in Elems(items);
        Swap(i, j);
        i, moved := j, true;
      }
      forall k | i < k < n && Parent(k) == i
        ensures Keys(items)[i] <= Keys(items)[k]
      {
        Children(i, k);
      }
      DownDone(Keys(items), n, i);
      RootAt(Keys(items), n);
    }

    /** heap.Interface's Pop: the last item leaves. */
    method PopLast() returns (it: PQItem)
      requires items != [] && Indexed(items) && Ordered(Keys(items), |items| - 1)
      modifies `items, {items[|items| - 1]}`index
      ensures Valid() && it == old(items[|items| - 1]) && items == old(items[..|items| - 1]) && it.index == -1
      ensures Elems(items) == Elems(old(items)) - {it} && it !in items
    {
      hide Ordered;
      var n := |items| - 1;
      it := items[n];
      OrderedPrefix(Keys(items), n);
      ghost var keys := Keys(items);
      forall k | 0 <= k < n
        ensures items[k] != it
      {
        assert items[k].index == k && it.index == n;
      }
      items := items[..n];
      it.index := -1;
      assert Keys(items) == keys[..n];
    }

    /** heap.Push: el joins the queue. */
    method Push(el: PQItem)
      requires Valid() && el !in items
      modifies `items, Elems(items)`index, el`index
      ensures Valid() && |items| == |old(items)| + 1 && Elems(items) == Elems(old(items)) + {el}
    {
      hide Ordered, OrderedButUp;
      var n := |items|;
      AppendKey(Keys(items), el.priority);
      ghost var keys := Keys(items);
      items := items + [el];
      el.index := n;
      assert Keys(items) == keys + [el.priority];
      Up(n, n + 1);
    }

    /** Pop: the item with the least priority leaves; nil when there is none. */
    method Pop() returns (el: PQItem?)
      requires Valid()
      modifies `items, Elems(items)`index
      ensures Valid()
      ensures |old(items)| == 0 ==> el == null && items == old(items)
      ensures |old(items)| > 0 ==>
                && el != null && el in old(items) && el.index == -1
                && |items| == |old(items)| - 1 && Elems(items) == Elems(old(items)) - {el}
                && Least(el, old(items))
    {
      hide Ordered, OrderedButAt, Swapped, Least;
      if |items| == 0 {
        return null;
      }
      LeastFirst(items);
      RootLast();
      assert items[|items| - 1] in Elems(items);
      el := PopLast();
    }

    /** The root changes places with the last item, and the new root is sifted to its place among the others. */
    method RootLast()
      requires Valid() && items != []
      modifies `items, Elems(items)`index
      ensures |items| == |old(items)| && Indexed(items) && Elems(items) == Elems(old(items))
      ensures Ordered(Keys(items), |items| - 1) && items[|items| - 1] == old(items[0])
    {
      hide Ordered, OrderedButAt, Swapped, Indexed, Keys, Elems;
      var n := |items| - 1;
      SwapLast(0);
      ghost var its := items;
      var moved := Down(0, n);
      SameTail(items, its, n);
    }

    /** An item changes places with the last one: then the others are in order, but for the one that has come. */
    method SwapLast(i: nat)
      requires Valid() && i < |items|
      modifies `items, Elems(items)`index
      ensures |items| == |old(items)| && Indexed(items) && Elems(items) == Elems(old(items))
      ensures OrderedButAt(Keys(items), |items| - 1, i) && items[|items| - 1] == old(items[i])
    {
      hide Ordered, OrderedButAt, Swapped, Keys, Elems;
      var n := |items| - 1;
      SwapOut(Keys(items), n, i);
      LastOfSwapped(items, i);
      InElems(items, i);
      InElems(items, n);
      Swap(i, n);
    }

    /** No item is more urgent than el. */
    ghost predicate Least(el: PQItem, its: seq<PQItem>)
      reads el`priority, its`priority
    {
      forall it :: it in its ==> el.priority <= it.priority
    }

    lemma LeastFirst(its: seq<PQItem>)
      requires its != [] && Ordered(Keys(its), |its|)
      ensures Least(its[0], its)
    {
      hide Ordered;
      forall it | it in its
        ensures its[0].priority <= it.priority
      {
        var k :| 0 <= k < |its| && its[k] == it;
        RootIsLeast(Keys(its), |its|, k);
      }
    }

    /** Remove: el leaves, wherever it stands. */
    method Remove(el: PQItem)
      requires Valid() && el in items
      modifies `items, Elems(items)`index
      ensures Valid() && |items| == |old(items)| - 1 && Elems(items) == Elems(old(items)) - {el} && el.index == -1
    {
      hide Ordered, OrderedButAt, OrderedButUp, Swapped, Keys, Elems;
      var i := el.index;
      var n := |items| - 1;
      IndexOf(items, el);
      if n != i {
        Displace(i);
      } else {
        OrderedShorter(Keys(items), n);
      }
      InElems(items, n);
      var last := PopLast();
    }

    /** An item goes to the last place, and the last one is sifted to its own among the others. */
    method Displace(i: nat)
      requires Valid() && i < |items| - 1
      modifies `items, Elems(items)`index
      ensures |items| == |old(items)| && Indexed(items) && Elems(items) == Elems(old(items))
      ensures Ordered(Keys(items), |items| - 1) && items[|items| - 1] == old(items[i])
    {
      hide Ordered, OrderedButAt, Swapped, Indexed, Keys, Elems;
      var n := |items| - 1;
      SwapLast(i);
      ghost var its := items;
      Settle(i, n);
      SameTail(items, its, n);
    }

    /** Down, and Up if that moved nothing: the one item that may be out of order is sifted to its place. */
    method Settle(i: nat, n: nat)
      requires i < n <= |items| && Indexed(items) && OrderedButAt(Keys(items), n, i)
      modifies `items, Elems(items)`index
      ensures |items| == |old(items)| && Indexed(items) && Elems(items) == Elems(old(items))
      ensures Ordered(Keys(items), n) && items[n..] == old(items)[n..]
    {
      hide Ordered, OrderedButAt, OrderedButUp, Swapped, Indexed, Keys;
      var moved := Down(i, n);
      if !moved {
        Up(i, n);
      }
    }

    /** Update: el gets a new priority and is sifted to its place. */
    method Update(el: PQItem, priority: int)
      requires Valid() && el in items
      modifies `items, Elems(items)`index, el`priority
      ensures Valid() && |items| == |old(items)| && Elems(items) == Elems(old(items)) && el.priority == priority
    {
      hide Ordered, OrderedButAt;
      ghost var keys := Keys(items);
      var i := el.index;
      PutAt(keys, |items|, i, priority);
      el.priority := priority;
      assert Keys(items) == keys[i := priority];
      Settle(i, |items|);
    }
  }

  lemma TailKept<T>(s: seq<T>, i: nat, j: nat, n: nat)
    requires i < n <= |s| && j < n
    ensures Swapped(s, i, j)[n..] == s[n..]
  {
  }

  lemma SameTail<T>(s: seq<T>, t: seq<T>, n: nat)
    requires n < |s| && n < |t| && s[n..] == t[n..]
    ensures s[n] == t[n]
  {
    assert s[n..][0] == t[n..][0];
  }

  lemma LastOfSwapped<T>(s: seq<T>, i: nat)
    requires i < |s|
    ensures Swapped(s, i, |s| - 1)[|s| - 1] == s[i]
  {
  }

  lemma RootAt(keys: seq<int>, n: nat)
    requires n <= |keys|
    ensures 0 < |keys| && OrderedButUp(keys, n, 0) ==> Ordered(keys, n)
    ensures n == 0 ==> Ordered(keys, n)
  {
    if 0 < n {
      if OrderedButUp(keys, n, 0) {
        UpDone(keys, n, 0);
      }
    }
  }
}
