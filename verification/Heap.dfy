/**
 The array heap of the streaming top-K processor: a min-heap of items by value, together
 with the map from host to heap position that is kept beside it.
 */
module Heap {

  datatype Item = Item(host: string, value: real, timestamp: int, index: int, updates: nat)

  /** What the processor knows of one tracked host. */
  datatype Record = Record(value: real, timestamp: int, updates: nat)

  function Parent(i: nat): nat
    requires i > 0
  {
    (i - 1) / 2
  }

  /** The map is the inverse of the heap positions, and each item stores its own. */
  ghost predicate Linked(heap: seq<Item>, m: map<string, int>) {
    && (forall i :: 0 <= i < |heap| ==> heap[i].index == i && heap[i].host in m && m[heap[i].host] == i)
    && (forall h :: h in m ==> 0 <= m[h] < |heap| && heap[m[h]].host == h)
  }

  /** No item is smaller than its parent, except that the items in `skip` are not compared with theirs. */
  ghost predicate OrderedBut(heap: seq<Item>, skip: set<int>) {
    forall i :: 0 < i < |heap| && i !in skip ==> heap[Parent(i)].value <= heap[i].value
  }

  ghost predicate Ordered(heap: seq<Item>) {
    OrderedBut(heap, {})
  }

  function RecordOf(it: Item): Record {
    Record(it.value, it.timestamp, it.updates)
  }

  /** The tracked hosts and their records. */
  ghost function Contents(heap: seq<Item>, m: map<string, int>): (c: map<string, Record>)
    requires Linked(heap, m)
    ensures c.Keys == m.Keys
  {
    map h | h in m :: RecordOf(heap[m[h]])
  }

  function SwapItems(heap: seq<Item>, i: nat, j: nat): (r: seq<Item>)
    requires i < |heap| && j < |heap|
    ensures |r| == |heap|
  {
    heap[i := heap[j].(index := i)][j := heap[i].(index := j)]
  }

  function SwapMap(heap: seq<Item>, m: map<string, int>, i: nat, j: nat): map<string, int>
    requires i < |heap| && j < |heap|
  {
    m[heap[j].host := i][heap[i].host := j]
  }

  lemma SwapLinked(heap: seq<Item>, m: map<string, int>, i: nat, j: nat)
    requires Linked(heap, m) && i < |heap| && j < |heap| && i != j
    ensures Linked(SwapItems(heap, i, j), SwapMap(heap, m, i, j))
    ensures Contents(SwapItems(heap, i, j), SwapMap(heap, m, i, j)) == Contents(heap, m)
  {
    var r, m' := SwapItems(heap, i, j), SwapMap(heap, m, i, j);
    assert m'.Keys == m.Keys;
    assert heap[i].host != heap[j].host;
    assert Linked(r, m');
    forall h | h in m ensures RecordOf(r[m'[h]]) == RecordOf(heap[m[h]]) {
    }
  }

  /** Distinct positions hold distinct hosts, so the map has one entry per item. */
  lemma LinkedSize(heap: seq<Item>, m: map<string, int>)
    requires Linked(heap, m)
    ensures |m| == |heap|
  {
    HostCount(heap, m, |heap|);
    assert m.Keys == set i | 0 <= i < |heap| :: heap[i].host;
  }

  lemma {:induction false} HostCount(heap: seq<Item>, m: map<string, int>, n: nat)
    requires Linked(heap, m) && n <= |heap|
    ensures |set i | 0 <= i < n :: heap[i].host| == n
  {
    var s := set i | 0 <= i < n :: heap[i].host;
    if n > 0 {
      HostCount(heap, m, n - 1);
      var t := set i | 0 <= i < n - 1 :: heap[i].host;
      assert s == t + {heap[n - 1].host};
      assert heap[n - 1].host !in t;
    }
  }

  /** The root of an ordered heap is its minimum. */
  lemma {:induction false} RootIsLeast(heap: seq<Item>, i: nat)
    requires Ordered(heap) && i < |heap|
    ensures heap[0].value <= heap[i].value
    decreases i
  {
    if i > 0 { RootIsLeast(heap, Parent(i)); }
  }

  // ----- Sifting -----

  /** The children of `i` are no smaller than its parent. */
  ghost predicate Grand(heap: seq<Item>, i: nat)
    requires i < |heap|
  {
    forall j :: 0 < j < |heap| && i > 0 && Parent(j) == i ==> heap[Parent(i)].value <= heap[j].value
  }

  /** Ordered but for the edges below `i`, and but for the edge above the items in `skip`. */
  ghost predicate Sinking(heap: seq<Item>, i: nat, skip: set<int>)
    requires i < |heap|
  {
    && (forall j :: 0 < j < |heap| && j !in skip && Parent(j) != i ==> heap[Parent(j)].value <= heap[j].value)
    && Grand(heap, i)
  }

  /** Moving a too small item up one level leaves only the next edge open. */
  lemma RiseStep(heap: seq<Item>, i: nat)
    requires 0 < i < |heap| && OrderedBut(heap, {i}) && Grand(heap, i)
    requires heap[i].value < heap[Parent(i)].value
    ensures OrderedBut(SwapItems(heap, i, Parent(i)), {Parent(i)}) && Grand(SwapItems(heap, i, Parent(i)), Parent(i))
  {
    var p, r := Parent(i), SwapItems(heap, i, Parent(i));
    forall j | 0 < j < |r| && j != p ensures r[Parent(j)].value <= r[j].value {
      assert j != i ==> heap[Parent(j)].value <= heap[j].value;
    }
    forall j | 0 < j < |r| && p > 0 && Parent(j) == p ensures r[Parent(p)].value <= r[j].value {
      assert heap[Parent(p)].value <= heap[p].value;
      assert j != i ==> heap[p].value <= heap[j].value;
    }
  }

  /** Moving a too large item down to its smaller child settles the level it leaves. */
  lemma SinkStep(heap: seq<Item>, i: nat, c: nat, skip: set<int>)
    requires i < |heap| && Sinking(heap, i, skip) && 0 < c < |heap| && Parent(c) == i
    requires skip <= {i as int}
    requires heap[c].value < heap[i].value
    requires forall j :: 0 < j < |heap| && Parent(j) == i ==> heap[c].value <= heap[j].value
    ensures Sinking(SwapItems(heap, i, c), c, {})
  {
    var r := SwapItems(heap, i, c);
    forall j | 0 < j < |r| && Parent(j) != c ensures r[Parent(j)].value <= r[j].value {
      if j == i {
        assert heap[Parent(i)].value <= heap[c].value;
      } else if Parent(j) != i {
        assert heap[Parent(j)].value <= heap[j].value;
      }
    }
    forall j | 0 < j < |r| && Parent(j) == c ensures r[Parent(c)].value <= r[j].value {
      assert heap[c].value <= heap[j].value;
    }
  }

  /** Reporting a new value in place opens only the edges at that item. */
  lemma UpdateOpens(heap: seq<Item>, i: nat, it: Item)
    requires Ordered(heap) && i < |heap|
    ensures Sinking(heap[i := it], i, {i as int})
  {
    var r := heap[i := it];
    forall j | 0 < j < |r| && i > 0 && Parent(j) == i ensures r[Parent(i)].value <= r[j].value {
      assert heap[Parent(i)].value <= heap[i].value <= heap[j].value;
    }
  }

  // ----- Adding, replacing and removing -----

  lemma PushLinked(heap: seq<Item>, m: map<string, int>, it: Item)
    requires Linked(heap, m) && it.host !in m && it.index == |heap|
    ensures Linked(heap + [it], m[it.host := |heap|])
    ensures Contents(heap + [it], m[it.host := |heap|]) == Contents(heap, m)[it.host := RecordOf(it)]
    ensures Ordered(heap) ==> OrderedBut(heap + [it], {|heap|}) && Grand(heap + [it], |heap|)
  {
  }

  /** Overwriting the item at `i`, keeping its host. */
  lemma SetLinked(heap: seq<Item>, m: map<string, int>, i: nat, it: Item)
    requires Linked(heap, m) && i < |heap| && it.host == heap[i].host && it.index == i
    ensures Linked(heap[i := it], m)
    ensures Contents(heap[i := it], m) == Contents(heap, m)[it.host := RecordOf(it)]
  {
  }

  /** Overwriting the root by an item of a new host. */
  lemma ReplaceLinked(heap: seq<Item>, m: map<string, int>, it: Item)
    requires Linked(heap, m) && heap != [] && it.host !in m && it.index == 0
    ensures Linked(heap[0 := it], (m - {heap[0].host})[it.host := 0])
    ensures Contents(heap[0 := it], (m - {heap[0].host})[it.host := 0]) ==
            (Contents(heap, m) - {heap[0].host})[it.host := RecordOf(it)]
  {
    var r, m' := heap[0 := it], (m - {heap[0].host})[it.host := 0];
    assert Linked(r, m');
    assert Contents(r, m').Keys == m'.Keys;
  }

  function PopItems(heap: seq<Item>): (r: seq<Item>)
    requires heap != []
    ensures |r| == |heap| - 1
  {
    if |heap| > 1 then heap[0 := heap[|heap| - 1].(index := 0)][..|heap| - 1] else []
  }

  function PopMap(heap: seq<Item>, m: map<string, int>): map<string, int>
    requires heap != []
  {
    var rest := m - {heap[0].host};
    if |heap| > 1 then rest[heap[|heap| - 1].host := 0] else rest
  }

  /** Dropping the root and moving the last item there forgets exactly the root's host. */
  lemma PopLinked(heap: seq<Item>, m: map<string, int>)
    requires Linked(heap, m) && heap != []
    ensures Linked(PopItems(heap), PopMap(heap, m))
    ensures Contents(PopItems(heap), PopMap(heap, m)) == Contents(heap, m) - {heap[0].host}
  {
    var r, m' := PopItems(heap), PopMap(heap, m);
    assert m'.Keys == m.Keys - {heap[0].host};
    assert Linked(r, m');
    assert Contents(r, m').Keys == m'.Keys;
  }

  lemma PopSinks(heap: seq<Item>)
    requires Ordered(heap) && |heap| > 1
    ensures Sinking(PopItems(heap), 0, {0 as int})
  {
    forall j | 0 < j < |heap| - 1 && Parent(j) != 0
      ensures PopItems(heap)[Parent(j)].value <= PopItems(heap)[j].value
    {
      assert heap[Parent(j)].value <= heap[j].value;
    }
  }

  /** The hosts with the least value: the root is one of them. */
  ghost predicate Least(c: map<string, Record>, h: string) {
    h in c && forall g :: g in c ==> c[h].value <= c[g].value
  }

  lemma RootLeast(heap: seq<Item>, m: map<string, int>)
    requires Linked(heap, m) && Ordered(heap) && heap != []
    ensures Least(Contents(heap, m), heap[0].host)
    ensures Contents(heap, m)[heap[0].host] == RecordOf(heap[0])
  {
    forall g | g in m ensures heap[0].value <= Contents(heap, m)[g].value {
      RootIsLeast(heap, m[g]);
    }
  }
}
