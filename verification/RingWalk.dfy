/**
 The walk of the replica lookup without a bound on its steps: how many nodes it can ever
 meet, and so for which counts the lookup ends.
 */
module RingWalk {
  import opened HashRing
  import opened ConsistentHash

  /** The distinct nodes met in `m` passes of the loop; the index goes round and round. */
  ghost function Met(ring: seq<Hash>, owners: Owners, start: nat, m: nat): (r: seq<string>)
    requires start < |ring| && Backed(ring, owners)
    ensures forall x :: x in r ==> x in owners.Values
  {
    if m == 0 then []
    else
      var prev := Met(ring, owners, start, m - 1);
      var v := ring[Around(start, m - 1, |ring|)];
      assert v in owners;
      if owners[v] in prev then prev else prev + [owners[v]]
  }

  lemma {:induction false} MetDistinct(ring: seq<Hash>, owners: Owners, start: nat, m: nat)
    requires start < |ring| && Backed(ring, owners)
    ensures Distinct(Met(ring, owners, start, m))
  {
    if m > 0 { MetDistinct(ring, owners, start, m - 1); }
  }

  /** However long the walk, it meets no more nodes than own something. */
  lemma MetBound(ring: seq<Hash>, owners: Owners, start: nat, m: nat)
    requires start < |ring| && Backed(ring, owners)
    ensures |Met(ring, owners, start, m)| <= |owners.Values|
  {
    var r := Met(ring, owners, start, m);
    MetDistinct(ring, owners, start, m);
    DistinctSize(r);
    SubsetSize((set x | x in r), owners.Values);
  }

  lemma SubsetSize(a: set<string>, b: set<string>)
    requires a <= b
    ensures |a| <= |b|
  {
    assert b == a + (b - a);
  }

  lemma {:induction false} MetIsSeen(ring: seq<Hash>, owners: Owners, start: nat, m: nat)
    requires start < |ring| && m <= |ring| && Backed(ring, owners)
    ensures Met(ring, owners, start, m) == Seen(ring, owners, start, m)
  {
    hide Seen;
    if m == 0 {
      SeenStep(ring, owners, start, 0);
    } else {
      MetIsSeen(ring, owners, start, m - 1);
      SeenStep(ring, owners, start, m - 1);
      hide Backed;
    }
  }

  /** The count grows by at most one a pass, so it takes every value on the way. */
  lemma {:induction false} MetPasses(ring: seq<Hash>, owners: Owners, start: nat, m: nat, n: nat) returns (k: nat)
    requires start < |ring| && Backed(ring, owners) && n <= |Met(ring, owners, start, m)|
    ensures |Met(ring, owners, start, k)| == n
    decreases m
  {
    if |Met(ring, owners, start, m)| == n {
      return m;
    }
    k := MetPasses(ring, owners, start, m - 1, n);
  }

  /** After `m` passes the loop has the `n` nodes it wants. */
  ghost predicate Ends(ring: seq<Hash>, owners: Owners, start: nat, n: nat, m: nat)
    requires start < |ring| && Backed(ring, owners)
  {
    |Met(ring, owners, start, m)| == n
  }

  ghost predicate CanEnd(ring: seq<Hash>, owners: Owners, start: nat, n: nat)
    requires start < |ring| && Backed(ring, owners)
  {
    exists m :: Ends(ring, owners, start, n, m)
  }

  /** The lookup of `n` nodes ends if and only if at least that many own something. */
  lemma WalkEndsIff(ring: seq<Hash>, owners: Owners, start: nat, n: nat)
    requires start < |ring| && Backed(ring, owners)
    ensures CanEnd(ring, owners, start, n) <==> n <= |owners.Values|
  {
    hide Met;
    forall m: nat | Ends(ring, owners, start, n, m) ensures n <= |owners.Values| {
      MetBound(ring, owners, start, m);
    }
    if n <= |owners.Values| {
      MetIsSeen(ring, owners, start, |ring|);
      SeenAll(ring, owners, start);
      var k := MetPasses(ring, owners, start, |ring|, n);
      assert Ends(ring, owners, start, n, k);
    }
  }

  /** The check against the node count is enough for every count if and only if every node owns something. */
  lemma NodeCountEnough(hash: HashFunc, replicas: int, nodes: seq<string>, ring: seq<Hash>, owners: Owners, start: nat)
    requires start < |ring| && Backed(ring, owners)
    requires Distinct(nodes) && Genuine(hash, replicas, SetOf(nodes), owners)
    ensures (forall n: nat :: n <= |nodes| ==> CanEnd(ring, owners, start, n)) <==>
            owners.Values == SetOf(nodes)
  {
    hide CanEnd, Backed;
    var all := SetOf(nodes);
    DistinctSize(nodes);
    assert all == set x | x in nodes;
    assert owners.Values <= all;
    SubsetSize(owners.Values, all);
    WalkEndsIff(ring, owners, start, |nodes|);
    if owners.Values == all {
      forall n: nat | n <= |nodes| ensures CanEnd(ring, owners, start, n) {
        WalkEndsIff(ring, owners, start, n);
      }
    } else if forall n: nat :: n <= |nodes| ==> CanEnd(ring, owners, start, n) {
      EqualSize(owners.Values, all);
    }
  }

  lemma EqualSize(a: set<string>, b: set<string>)
    requires a <= b && |a| >= |b|
    ensures a == b
  {
    assert b == a + (b - a);
  }

  lemma CollidingPair(hash: HashFunc, a: string, b: string)
    requires a != b && hash("0" + a) == hash("0" + b)
    ensures AddNodes(hash, 1, [], map[], [a, b]) == ([a, b], map[hash("0" + a) := b])
  {
    var v := hash("0" + a);
    OneReplica(hash, a);
    OneReplica(hash, b);
    hide Virtual, AddNodes;
    AddNodesStep(hash, 1, [], map[], [a, b]);
    AddNodesStep(hash, 1, [a], map[v := a], [b]);
    AddNodesStep(hash, 1, [a, b], map[v := b], []);
    assert [a, b][1..] == [b] && [b][1..] == [] && [] + [a] == [a] && [a] + [b] == [a, b];
    assert WithNode(map[], {v}, a) == map[v := a];
    assert WithNode(map[v := a], {v}, b) == map[v := b];
  }

  lemma OneReplica(hash: HashFunc, node: string)
    ensures Virtual(hash, 1, node) == {hash("0" + node)}
  {
    VirtualGrows(hash, 0, node);
    assert Itoa(0) == "0";
  }

  /** Two nodes whose one virtual node collides: two are counted, and a lookup of two never ends. */
  lemma CollidingPairNeverEnds(hash: HashFunc, a: string, b: string)
    requires a != b && hash("0" + a) == hash("0" + b)
    ensures var v, r := hash("0" + a), AddNodes(hash, 1, [], map[], [a, b]);
            |r.0| == 2 && Backed([v, v], r.1) && !CanEnd([v, v], r.1, 0, 2)
  {
    var v := hash("0" + a);
    CollidingPair(hash, a, b);
    hide AddNodes, CanEnd;
    var owners: Owners := map[v := b];
    assert owners.Values == {b};
    WalkEndsIff([v, v], owners, 0, 2);
  }
}
