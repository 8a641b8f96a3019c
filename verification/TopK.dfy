/**
 The streaming top-K processor. Values are reals, the clock is a parameter of each call,
 and the two callbacks are left out; each locked method is one step.
 */
module TopK {
  import opened Heap
  import opened Sorting

  // ----- What the operations do to the tracked hosts -----

  /** Some expired hosts, each the least at its turn, have been dropped. */
  ghost predicate Pruned(c: map<string, Record>, d: map<string, Record>, cutoff: int) {
    && d.Keys <= c.Keys
    && (forall h :: h in d ==> d[h] == c[h])
    && (forall h :: h in c && h !in d ==> c[h].timestamp < cutoff)
    && (forall h, g :: h in c && h !in d && g in d ==> c[h].value <= d[g].value)
  }

  /** `cleanup_expired`: it stops when nothing is left or a least host is still fresh. */
  ghost predicate Cleaned(c: map<string, Record>, d: map<string, Record>, cutoff: int) {
    Pruned(c, d, cutoff) && (d == map[] || exists h :: Least(d, h) && d[h].timestamp >= cutoff)
  }

  /** One report: update in place, add while there is room, replace a smaller least host, or discard. */
  ghost predicate Observed(c: map<string, Record>, d: map<string, Record>, k: int, host: string, rec: Record) {
    if host in c then d == c[host := rec.(updates := c[host].updates + 1)]
    else if |c| < k then d == c[host := rec]
    else if exists v :: Least(c, v) && c[v].value < rec.value then
      exists v :: Least(c, v) && d == (c - {v})[host := rec]
    else d == c
  }

  /** A new host that is no larger than any tracked one is discarded when there is no room, ties included. */
  lemma TieIsDiscarded(c: map<string, Record>, d: map<string, Record>, k: int, host: string, rec: Record)
    requires Observed(c, d, k, host, rec) && host !in c && |c| >= k
    ensures (forall h :: h in c ==> rec.value <= c[h].value) ==> d == c
    ensures d != c ==> host in d && d[host] == rec && exists v :: v in c && v !in d && c[v].value < rec.value
  {
    if v :| Least(c, v) && c[v].value < rec.value {
      var u :| Least(c, u) && d == (c - {u})[host := rec];
      assert c[u].value <= c[v].value;
    }
  }

  /** Kept hosts keep their records and no dropped one was larger. */
  ghost predicate Kept(c: map<string, Record>, d: map<string, Record>) {
    && d.Keys <= c.Keys
    && (forall h :: h in d ==> d[h] == c[h])
    && (forall h, g :: h in c && h !in d && g in d ==> c[h].value <= d[g].value)
  }

  /** `set_k`: the k largest stay. */
  ghost predicate Shrunk(c: map<string, Record>, d: map<string, Record>, k: int) {
    Kept(c, d) && |d| == (if |c| <= k then |c| else k) && (|c| <= k ==> d == c)
  }

  ghost predicate Descending(items: seq<Item>) {
    forall i, j :: 0 <= i < j < |items| ==> items[i].value >= items[j].value
  }

  lemma KeptSame(c: map<string, Record>)
    ensures Kept(c, c)
  {
  }

  lemma KeptMore(c: map<string, Record>, d: map<string, Record>, v: string)
    requires Kept(c, d) && Least(d, v)
    ensures Kept(c, d - {v})
  {
  }

  lemma KeptAll(c: map<string, Record>, d: map<string, Record>)
    requires Kept(c, d)
    ensures |d| == |c| ==> d == c
  {
    if |d| == |c| { SubsetEqual(d.Keys, c.Keys); }
  }

  lemma SubsetEqual(a: set<string>, b: set<string>)
    requires a <= b && |a| == |b|
    ensures a == b
  {
    assert b == a + (b - a);
    assert |b| == |a| + |b - a|;
  }

  lemma PrunedSame(c: map<string, Record>, cutoff: int)
    ensures Pruned(c, c, cutoff)
  {
  }

  lemma PrunedMore(c: map<string, Record>, d: map<string, Record>, v: string, cutoff: int)
    requires Pruned(c, d, cutoff) && Least(d, v) && d[v].timestamp < cutoff
    ensures Pruned(c, d - {v}, cutoff)
  {
  }

  lemma EmptyHeap(heap: seq<Item>, m: map<string, int>)
    requires Linked(heap, m) && heap == []
    ensures Contents(heap, m) == map[]
  {
    assert m == map[];
  }

  lemma ItemOf(heap: seq<Item>, m: map<string, int>, h: string)
    requires Linked(heap, m) && h in m
    ensures 0 <= m[h] < |heap| && heap[m[h]].host == h && heap[m[h]].index == m[h]
    ensures Contents(heap, m)[h] == RecordOf(heap[m[h]])
  {
  }

  class Processor {
    var heap: seq<Item>
    var itemMap: map<string, int>
    var k: int
    var ttl: int
    var closed: bool
    var updateCount: nat

    ghost predicate Valid()
      reads this
    {
      && k > 0
      && |heap| <= k
      && Linked(heap, itemMap)
      && Ordered(heap)
    }

    ghost function Tracked(): (c: map<string, Record>)
      requires Linked(heap, itemMap)
      reads this
    {
      Contents(heap, itemMap)
    }

    constructor (k: int, ttl: int)
      requires k > 0 && ttl > 0
      ensures Valid() && Tracked() == map[] && this.k == k && this.ttl == ttl && !closed && updateCount == 0
    {
      heap, itemMap := [], map[];
      this.k, this.ttl, closed, updateCount := k, ttl, false, 0;
    }

    method Swap(i: nat, j: nat)
      requires Linked(heap, itemMap) && i < |heap| && j < |heap| && i != j
      modifies this`heap, this`itemMap
      ensures heap == old(SwapItems(heap, i, j))
      ensures Linked(heap, itemMap) && Tracked() == old(Tracked())
    {
      SwapLinked(heap, itemMap, i, j);
      heap, itemMap := SwapItems(heap, i, j), SwapMap(heap, itemMap, i, j);
    }

    method HeapifyUp(start: nat)
      requires Linked(heap, itemMap) && start < |heap|
      requires OrderedBut(heap, {start}) && Grand(heap, start)
      modifies this`heap, this`itemMap
      ensures |heap| == old(|heap|) && Ordered(heap)
      ensures Linked(heap, itemMap) && Tracked() == old(Tracked())
    {
      hide Linked, OrderedBut, Grand, Contents, SwapItems;
      var index := start;
      while index > 0
        invariant 0 <= index < |heap| == old(|heap|)
        invariant OrderedBut(heap, {index}) && Grand(heap, index)
        invariant Linked(heap, itemMap) && Tracked() == old(Tracked())
      {
        var parent := (index - 1) / 2;
        if heap[index].value < heap[parent].value {
          RiseStep(heap, index);
          Swap(index, parent);
          index := parent;
        } else {
          break;
        }
      }
      Settled(heap, index);
    }

    method HeapifyDown(start: nat)
      requires Linked(heap, itemMap) && start < |heap|
      requires Sinking(heap, start, {start as int})
      modifies this`heap, this`itemMap
      ensures |heap| == old(|heap|) && OrderedBut(heap, {start}) && Grand(heap, start)
      ensures Linked(heap, itemMap) && Tracked() == old(Tracked())
    {
      hide Linked, OrderedBut, Grand, Contents, Sinking, SwapItems;
      var index := start;
      while true
        invariant start <= index < |heap| == old(|heap|)
        invariant Sinking(heap, index, if index == start then {start as int} else {})
        invariant Linked(heap, itemMap) && Tracked() == old(Tracked())
        decreases |heap| - index
      {
        var smallest, left, right := index, 2 * index + 1, 2 * index + 2;
        if left < |heap| && heap[left].value < heap[smallest].value {
          smallest := left;
        }
        if right < |heap| && heap[right].value < heap[smallest].value {
          smallest := right;
        }
        SmallestChild(heap, index, smallest);
        if smallest != index {
          SinkStep(heap, index, smallest, if index == start then {start as int} else {});
          Swap(index, smallest);
          index := smallest;
        } else {
          break;
        }
      }
      Sunk(heap, index, start);
    }

    method ProcessStream(host: string, value: real, now: int)
      requires Valid()
      modifies this`heap, this`itemMap, this`updateCount
      ensures Valid()
      ensures closed ==> Tracked() == old(Tracked()) && updateCount == old(updateCount)
      ensures !closed ==> updateCount == old(updateCount) + 1
      ensures !closed ==> exists c :: Cleaned(old(Tracked()), c, now - ttl) &&
                                      Observed(c, Tracked(), k, host, Record(value, now, 1))
    {
      hide Linked, OrderedBut, Contents, Cleaned, Observed;
      if closed {
        return;
      }
      updateCount := updateCount + 1;
      CleanupExpired(now);
      Observe(host, value, now);
    }

    /** `trace[i]` is what was tracked before the i-th item of the batch. */
    method ProcessStreamBatch(items: seq<(string, real)>, now: int) returns (ghost trace: seq<map<string, Record>>)
      requires Valid()
      modifies this`heap, this`itemMap, this`updateCount
      ensures Valid()
      ensures closed ==> Tracked() == old(Tracked()) && updateCount == old(updateCount)
      ensures !closed ==> updateCount == old(updateCount) + |items|
      ensures !closed ==>
                && |trace| == |items| + 1
                && Cleaned(old(Tracked()), trace[0], now - ttl)
                && Tracked() == trace[|items|]
                && forall i :: 0 <= i < |items| ==>
                     Observed(trace[i], trace[i + 1], k, items[i].0, Record(items[i].1, now, 1))
    {
      hide Linked, OrderedBut, Contents, Cleaned, Observed;
      if closed {
        return [];
      }
      updateCount := updateCount + |items|;
      CleanupExpired(now);
      trace := [Tracked()];
      for n := 0 to |items|
        invariant Valid() && |trace| == n + 1 && trace[n] == Tracked()
        invariant updateCount == old(updateCount) + |items|
        invariant Cleaned(old(Tracked()), trace[0], now - ttl)
        invariant forall i :: 0 <= i < n ==>
                    Observed(trace[i], trace[i + 1], k, items[i].0, Record(items[i].1, now, 1))
      {
        Observe(items[n].0, items[n].1, now);
        trace := trace + [Tracked()];
      }
    }

    method SetK(newK: int)
      requires Valid()
      modifies this`heap, this`itemMap, this`k
      ensures Valid()
      ensures k == if closed || newK <= 0 then old(k) else newK
      ensures closed || newK <= 0 ==> Tracked() == old(Tracked())
      ensures !closed && newK > 0 ==> Shrunk(old(Tracked()), Tracked(), newK)
    {
      hide Linked, OrderedBut, Contents, Kept;
      if closed || newK <= 0 {
        return;
      }
      k := newK;
      LinkedSize(heap, itemMap);
      KeptSame(Tracked());
      while |heap| > k
        invariant Linked(heap, itemMap) && Ordered(heap) && k == newK > 0
        invariant Kept(old(Tracked()), Tracked())
        invariant |Tracked()| == |heap| <= |old(Tracked())|
        invariant |heap| == |old(Tracked())| || |heap| >= k
      {
        RootLeast(heap, itemMap);
        KeptMore(old(Tracked()), Tracked(), heap[0].host);
        PopRoot();
        LinkedSize(heap, itemMap);
      }
      KeptAll(old(Tracked()), Tracked());
    }

    method Clear()
      requires Valid()
      modifies this`heap, this`itemMap, this`updateCount
      ensures Valid()
      ensures Tracked() == if closed then old(Tracked()) else map[]
      ensures updateCount == if closed then old(updateCount) else 0
    {
      if closed {
        return;
      }
      heap, itemMap, updateCount := [], map[], 0;
    }

    method Close()
      requires Valid()
      modifies this`heap, this`itemMap, this`closed
      ensures Valid() && closed
      ensures Tracked() == if old(closed) then old(Tracked()) else map[]
    {
      if closed {
        return;
      }
      heap, itemMap, closed := [], map[], true;
    }

    method GetValue(host: string) returns (found: bool, value: real)
      requires Valid()
      ensures found <==> !closed && host in Tracked()
      ensures found ==> value == Tracked()[host].value
    {
      if closed || host !in itemMap {
        return false, 0.0;
      }
      return true, heap[itemMap[host]].value;
    }

    /** The tracked items by descending value. */
    method GetTopK() returns (items: seq<Item>)
      requires Valid()
      ensures Descending(items)
      ensures multiset(items) == if closed then multiset{} else multiset(heap)
    {
      if closed {
        return [];
      }
      hide Valid;
      items := SortBy(heap, (it: Item) => -it.value);
    }

    /** Removes the root, as both `cleanup_expired` and `set_k` do. */
    method PopRoot()
      requires Linked(heap, itemMap) && Ordered(heap) && heap != []
      modifies this`heap, this`itemMap
      ensures |heap| == old(|heap|) - 1 && Ordered(heap)
      ensures Linked(heap, itemMap) && Tracked() == old(Tracked() - {heap[0].host})
    {
      PopLinked(heap, itemMap);
      if |heap| > 1 {
        PopSinks(heap);
      }
      heap, itemMap := PopItems(heap), PopMap(heap, itemMap);
      if |heap| > 0 {
        HeapifyDown(0);
      }
    }

    method CleanupExpired(now: int)
      requires Linked(heap, itemMap) && Ordered(heap)
      modifies this`heap, this`itemMap
      ensures |heap| <= old(|heap|) && Ordered(heap)
      ensures Linked(heap, itemMap) && Cleaned(old(Tracked()), Tracked(), now - ttl)
    {
      hide Linked, OrderedBut, Contents, Pruned;
      var cutoff := now - ttl;
      PrunedSame(Tracked(), cutoff);
      while |heap| > 0
        invariant |heap| <= old(|heap|) && Ordered(heap) && Linked(heap, itemMap)
        invariant Pruned(old(Tracked()), Tracked(), cutoff)
      {
        RootLeast(heap, itemMap);
        if heap[0].timestamp < cutoff {
          PrunedMore(old(Tracked()), Tracked(), heap[0].host, cutoff);
          PopRoot();
        } else {
          break;
        }
      }
      if heap == [] {
        EmptyHeap(heap, itemMap);
      }
    }

    /** The decision on one report, after expired items are gone. */
    method Observe(host: string, value: real, now: int)
      requires Valid()
      modifies this`heap, this`itemMap
      ensures Valid() && Observed(old(Tracked()), Tracked(), k, host, Record(value, now, 1))
    {
      LinkedSize(heap, itemMap);
      if host in itemMap {
        UpdateTracked(host, value, now);
      } else if |heap| < k {
        var item := Item(host, value, now, |heap|, 1);
        PushLinked(heap, itemMap, item);
        heap, itemMap := heap + [item], itemMap[host := |heap|];
        HeapifyUp(item.index);
      } else {
        RootLeast(heap, itemMap);
        if value > heap[0].value {
          var item := Item(host, value, now, 0, 1);
          ReplaceLinked(heap, itemMap, item);
          UpdateOpens(heap, 0, item);
          ghost var victim := heap[0].host;
          heap, itemMap := heap[0 := item], (itemMap - {heap[0].host})[host := 0];
          HeapifyDown(0);
          assert Tracked() == (old(Tracked()) - {victim})[host := Record(value, now, 1)];
        }
      }
    }

    method UpdateTracked(host: string, value: real, now: int)
      requires Linked(heap, itemMap) && Ordered(heap) && host in itemMap
      modifies this`heap, this`itemMap
      ensures |heap| == old(|heap|) && Ordered(heap) && Linked(heap, itemMap)
      ensures Tracked() == old(Tracked()[host := Record(value, now, Tracked()[host].updates + 1)])
    {
      hide Linked, OrderedBut, Contents, Grand, Sinking;
      ItemOf(heap, itemMap, host);
      var index := itemMap[host];
      var item := heap[index].(value := value, timestamp := now, updates := heap[index].updates + 1);
      SetLinked(heap, itemMap, index, item);
      UpdateOpens(heap, index, item);
      heap := heap[index := item];
      HeapifyDown(index);
      HeapifyUp(index);
    }
  }

  lemma Settled(heap: seq<Item>, i: nat)
    requires i < |heap| && OrderedBut(heap, {i})
    requires i > 0 ==> heap[Parent(i)].value <= heap[i].value
    ensures Ordered(heap)
  {
  }

  /** The item the loop picks is the least of an item and its children. */
  lemma SmallestChild(heap: seq<Item>, i: nat, smallest: nat)
    requires i < |heap| && smallest < |heap|
    requires smallest == i || (smallest > 0 && Parent(smallest) == i)
    requires 2 * i + 1 < |heap| ==> heap[smallest].value <= heap[2 * i + 1].value
    requires 2 * i + 2 < |heap| ==> heap[smallest].value <= heap[2 * i + 2].value
    ensures forall j :: 0 < j < |heap| && Parent(j) == i ==> heap[smallest].value <= heap[j].value
  {
  }

  lemma Sunk(heap: seq<Item>, i: nat, start: nat)
    requires i < |heap| && start < |heap| && Sinking(heap, i, if i == start then {start as int} else {})
    requires forall j :: 0 < j < |heap| && Parent(j) == i ==> heap[i].value <= heap[j].value
    ensures OrderedBut(heap, {start}) && Grand(heap, start)
  {
    if i != start {
      forall j | 0 < j < |heap| && start > 0 && Parent(j) == start ensures heap[Parent(start)].value <= heap[j].value {
        assert heap[Parent(start)].value <= heap[start].value;
        assert heap[Parent(j)].value <= heap[j].value;
      }
    }
  }
}
