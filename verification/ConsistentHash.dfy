/** The ring object: a sorted list of virtual-node hashes, the owner map, and the node list. */
module ConsistentHash {
  import opened HashRing
  import opened Modular
  import opened Sorting

  ghost function SetOf(s: seq<string>): set<string> {
    set x | x in s
  }

  /** The node list and owner map after one more node is added; a known node changes nothing. */
  ghost function AddNode(hash: HashFunc, replicas: int, nodes: seq<string>, owners: Owners, node: string)
    : (r: (seq<string>, Owners))
  {
    if node in nodes then (nodes, owners)
    else (nodes + [node], WithNode(owners, Virtual(hash, replicas, node), node))
  }

  ghost function AddNodes(hash: HashFunc, replicas: int, nodes: seq<string>, owners: Owners, more: seq<string>)
    : (r: (seq<string>, Owners))
    decreases |more|
  {
    if more == [] then (nodes, owners)
    else
      var next := AddNode(hash, replicas, nodes, owners, more[0]);
      AddNodes(hash, replicas, next.0, next.1, more[1..])
  }

  class Ring {
    const hash: HashFunc
    const replicas: int
    var ring: seq<Hash>
    var owners: Owners
    var nodes: seq<string>

    ghost predicate Valid()
      reads this
    {
      && Distinct(nodes)
      && Ascending(ring)
      && Backed(ring, owners)
      && Genuine(hash, replicas, SetOf(nodes), owners)
    }

    /** Every node has all its virtual nodes; kept by Add, and by Remove while no virtual node is shared. */
    ghost predicate Whole()
      reads this
    {
      Complete(hash, replicas, SetOf(nodes), owners)
    }

    constructor (replicas: int, hash: HashFunc)
      ensures Valid() && Whole() && nodes == [] && owners == map[]
      ensures this.replicas == replicas && this.hash == hash
    {
      this.replicas, this.hash := replicas, hash;
      ring, owners, nodes := [], map[], [];
    }

    method Add(more: seq<string>)
      requires Valid()
      modifies this`ring, this`owners, this`nodes
      ensures Valid() && (old(Whole()) ==> Whole())
      ensures (nodes, owners) == old(AddNodes(hash, replicas, nodes, owners, more))
      ensures SetOf(nodes) == old(SetOf(nodes)) + SetOf(more)
    {
      hide Genuine, Complete, Distinct, AddNodes, Backed;
      for n := 0 to |more|
        invariant Distinct(nodes) && Backed(ring, owners) && Genuine(hash, replicas, SetOf(nodes), owners)
        invariant old(Whole()) ==> Whole()
        invariant AddNodes(hash, replicas, nodes, owners, more[n..]) ==
                  old(AddNodes(hash, replicas, nodes, owners, more))
        invariant SetOf(nodes) == old(SetOf(nodes)) + SetOf(more[..n])
      {
        AddNodesStep(hash, replicas, nodes, owners, more[n..]);
        assert more[n..][1..] == more[n + 1..];
        assert SetOf(more[..n + 1]) == SetOf(more[..n]) + {more[n]};
        var exists' := Contains(more[n]);
        if !exists' {
          Append(more[n]);
        }
      }
      AddNodesStep(hash, replicas, nodes, owners, more[|more|..]);
      assert more[..|more|] == more;
      var sorted := SortBy(ring, (v: Hash) => v as real);
      SortedRing(ring, sorted, owners);
      ring := sorted;
    }

    method Contains(node: string) returns (found: bool)
      ensures found <==> node in nodes
    {
      found := false;
      for i := 0 to |nodes|
        invariant found <==> node in nodes[..i]
      {
        if nodes[i] == node {
          found := true;
          break;
        }
      }
    }

    /** Enters a new node and its virtual nodes; the ring is not sorted yet. */
    method Append(node: string)
      requires node !in nodes
      requires Distinct(nodes) && Backed(ring, owners) && Genuine(hash, replicas, SetOf(nodes), owners)
      modifies this`ring, this`owners, this`nodes
      ensures Distinct(nodes) && Backed(ring, owners) && Genuine(hash, replicas, SetOf(nodes), owners)
      ensures old(Whole()) ==> Whole()
      ensures (nodes, owners) == old(AddNode(hash, replicas, nodes, owners, node))
      ensures SetOf(nodes) == old(SetOf(nodes)) + {node}
    {
      hide Genuine, Complete, Distinct, Backed, WithNode, SetOf, Virtual;
      AddKeeps(hash, replicas, SetOf(nodes), owners, node);
      AppendNode(nodes, node);
      nodes := nodes + [node];
      EnterVirtual(node);
    }

    method EnterVirtual(node: string)
      requires Backed(ring, owners)
      modifies this`ring, this`owners
      ensures Backed(ring, owners)
      ensures owners == old(WithNode(owners, Virtual(hash, replicas, node), node))
    {
      hide Backed, WithNode;
      var i := 0;
      WithNone(owners, Virtual(hash, 0, node), node);
      hide Virtual;
      while i < replicas
        invariant 0 <= i && (i <= replicas || i == 0) && Backed(ring, owners)
        invariant owners == old(WithNode(owners, Virtual(hash, i, node), node))
      {
        var v := hash(Itoa(i) + node);
        VirtualGrows(hash, i, node);
        BackedGrows(ring, owners, v, node);
        WithNodeGrows(old(owners), Virtual(hash, i, node), node, v);
        ring := ring + [v];
        owners := owners[v := node];
        i := i + 1;
      }
      VirtualAll(hash, i, replicas, node);
    }

    method Remove(node: string)
      requires Valid()
      modifies this`ring, this`owners, this`nodes
      ensures Valid()
      ensures node !in old(nodes) ==> nodes == old(nodes) && owners == old(owners) && ring == old(ring)
      ensures node in old(nodes) ==> owners == old(owners) - Virtual(hash, replicas, node)
      ensures SetOf(nodes) == old(SetOf(nodes)) - {node}
      ensures old(Whole()) && NoCollision(hash, replicas, old(SetOf(nodes))) ==> Whole()
    {
      hide Genuine, Complete, NoCollision;
      var idx := 0;
      while idx < |nodes| && nodes[idx] != node
        invariant 0 <= idx <= |nodes| && node !in nodes[..idx]
      {
        idx := idx + 1;
      }
      if idx == |nodes| {
        assert nodes[..idx] == nodes;
        assert SetOf(nodes) == SetOf(nodes) - {node};
        return;
      }
      RemoveKeeps(hash, replicas, SetOf(nodes), owners, node);
      DropNode(nodes, idx);
      nodes := nodes[..idx] + nodes[idx + 1..];
      var i := 0;
      assert owners - Virtual(hash, 0, node) == owners;
      while i < replicas
        invariant 0 <= i && (i <= replicas || i == 0)
        invariant nodes == old(nodes[..idx] + nodes[idx + 1..]) && ring == old(ring)
        invariant owners == old(owners) - Virtual(hash, i, node)
      {
        VirtualGrows(hash, i, node);
        owners := owners - {hash(Itoa(i) + node)};
        i := i + 1;
      }
      VirtualAll(hash, i, replicas, node);
      Rebuild();
    }

    /** Drops the ring entries that have no owner any more. */
    method Rebuild()
      requires Ascending(ring) && forall v :: v in owners ==> v in ring
      modifies this`ring
      ensures Ascending(ring) && Backed(ring, owners)
    {
      var kept := [];
      for j := 0 to |ring|
        invariant Ascending(kept)
        invariant forall v :: v in kept <==> v in ring[..j] && v in owners
        invariant forall i :: 0 <= i < |kept| && j < |ring| ==> kept[i] <= ring[j]
      {
        if ring[j] in owners {
          kept := kept + [ring[j]];
        }
        assert ring[..j + 1] == ring[..j] + [ring[j]];
      }
      assert ring[..|ring|] == ring;
      ring := kept;
    }

    /** The binary search with wraparound shared by both lookups. */
    method Locate(h: Hash) returns (start: nat)
      requires ring != [] && Ascending(ring)
      ensures IsStart(ring, h, start)
    {
      var lo, hi := 0, |ring|;
      while lo < hi
        invariant 0 <= lo <= hi <= |ring|
        invariant forall i :: 0 <= i < lo ==> ring[i] < h
        invariant forall i :: hi <= i < |ring| ==> ring[i] >= h
      {
        var mid := (lo + hi) / 2;
        if ring[mid] >= h {
          hi := mid;
        } else {
          lo := mid + 1;
        }
      }
      start := if lo == |ring| then 0 else lo;
    }

    method Get(key: string) returns (r: Result<string>)
      requires Valid()
      ensures r.Ok? <==> owners != map[]
      ensures r.Ok? ==> Owns(owners, hash(key), r.value)
    {
      if |ring| == 0 {
        assert owners == map[];
        return Err;
      }
      var h := hash(key);
      var start := Locate(h);
      StartIsNearest(ring, owners.Keys, h, start);
      assert ring[start] in owners;
      return Ok(owners[ring[start]]);
    }

    /**
     On a ring that is not empty a negative `n` panics, and the loop ends only if `n` distinct owners
     exist: `RingWalk.WalkEndsIff` shows that it ends on no other count, and `RingWalk.NodeCountEnough`
     when the check against the node count is enough.
     */
    method GetN(key: string, n: int) returns (r: Result<seq<string>>)
      requires Valid()
      requires owners != map[] ==> n >= 0 && (n <= |nodes| ==> n <= |owners.Values|)
      ensures r.Ok? <==> owners != map[] && n <= |nodes|
      ensures r.Ok? ==> |r.value| == n && Distinct(r.value) && forall x :: x in r.value ==> x in owners.Values
      ensures r.Ok? ==> Ranked(owners, hash(key), r.value)
      ensures r.Ok? && n > 0 ==> Owns(owners, hash(key), r.value[0])
    {
      if |ring| == 0 {
        assert owners == map[];
        return Err;
      }
      assert ring[0] in owners;
      if |nodes| < n {
        return Err;
      }
      var h := hash(key);
      var start := Locate(h);
      SeenAll(ring, owners, start);
      StartIsNearest(ring, owners.Keys, h, start);
      ghost var m;
      var result;
      result, m := Collect(start, n);
      SeenDistinct(ring, owners, start, m);
      SeenRanked(ring, owners, start, m, h);
      return Ok(result);
    }

    /** The walk: it needs at most one lap. */
    method Collect(start: nat, n: nat) returns (result: seq<string>, ghost m: nat)
      requires start < |ring| && Backed(ring, owners) && n <= |Seen(ring, owners, start, |ring|)|
      ensures m <= |ring| && result == Seen(ring, owners, start, m) && |result| == n
      ensures n > 0 ==> result[0] == owners[ring[start]]
    {
      hide Seen, Backed, SetOf, Around;
      SetOfNone();
      AroundStart(start, |ring|);
      var visited: set<string> := {};
      var idx := start;
      result, m := [], 0;
      SeenStep(ring, owners, start, 0);
      while |result| < n
        invariant m <= |ring| && result == Seen(ring, owners, start, m) && |result| <= n
        invariant idx == Around(start, m, |ring|)
        invariant visited == SetOf(result)
        invariant m > 0 ==> result != [] && result[0] == owners[ring[start]]
        decreases |ring| - m
      {
        SeenStep(ring, owners, start, m);
        AroundNext(start, m, |ring|);
        var node := owners[ring[idx]];
        SetOfMore(result, node);
        if node !in visited {
          result := result + [node];
          visited := visited + {node};
        }
        idx := (idx + 1) % |ring|;
        m := m + 1;
      }
    }
  }

  /** The place `m` steps on from `start`, round and round a ring of `n`. */
  function Around(start: nat, m: nat, n: nat): (p: nat)
    requires n > 0
    ensures p < n
  {
    (start + m) % n
  }

  lemma AroundStart(start: nat, n: nat)
    requires start < n
    ensures Around(start, 0, n) == start
  {
    DivModUnique(start, n, 0, start);
  }

  lemma AroundNext(start: nat, m: nat, n: nat)
    requires n > 0
    ensures (Around(start, m, n) + 1) % n == Around(start, m + 1, n)
  {
    ModStep(start + m, n);
  }

  lemma SetOfNone()
    ensures SetOf([]) == {}
  {
  }

  lemma SetOfMore(s: seq<string>, x: string)
    ensures SetOf(s + [x]) == SetOf(s) + {x} && (x in SetOf(s) <==> x in s)
  {
  }

  /** What one more step of the walk adds. */
  lemma SeenStep(ring: seq<Hash>, owners: Owners, start: nat, m: nat)
    requires start < |ring| && m <= |ring| && Backed(ring, owners)
    ensures m == 0 ==> Seen(ring, owners, start, m) == []
    ensures ring[start] in owners
    ensures m < |ring| ==>
              var v, prev := ring[Around(start, m, |ring|)], Seen(ring, owners, start, m);
              && v in owners
              && Seen(ring, owners, start, m + 1) == if owners[v] in prev then prev else prev + [owners[v]]
  {
    if m < |ring| {
      assert (start + m) % |ring| == Wrapped(start, m, |ring|) by {
        DivModUnique(start + m, |ring|, if start + m < |ring| then 0 else 1, Wrapped(start, m, |ring|));
      }
      assert ring[Wrapped(start, m, |ring|)] in owners;
    }
  }

  lemma AddNodesStep(hash: HashFunc, replicas: int, nodes: seq<string>, owners: Owners, more: seq<string>)
    ensures more == [] ==> AddNodes(hash, replicas, nodes, owners, more) == (nodes, owners)
    ensures more != [] ==>
              var next := AddNode(hash, replicas, nodes, owners, more[0]);
              AddNodes(hash, replicas, nodes, owners, more) == AddNodes(hash, replicas, next.0, next.1, more[1..])
  {
  }

  lemma SortedRing(ring: seq<Hash>, sorted: seq<Hash>, owners: Owners)
    requires SortedBy(sorted, (v: Hash) => v as real) && multiset(sorted) == multiset(ring) && Backed(ring, owners)
    ensures Ascending(sorted) && Backed(sorted, owners)
  {
    forall i, j | 0 <= i < j < |sorted| ensures sorted[i] <= sorted[j] {
      assert sorted[i] as real <= sorted[j] as real;
    }
    forall v ensures v in sorted <==> v in ring {
      assert v in sorted <==> v in multiset(sorted);
      assert v in ring <==> v in multiset(ring);
    }
  }

  lemma VirtualAll(hash: HashFunc, i: nat, replicas: int, node: string)
    requires i == replicas || (i == 0 && replicas <= 0)
    ensures Virtual(hash, i, node) == Virtual(hash, replicas, node)
  {
  }

  lemma WithNone(owners: Owners, vs: set<Hash>, node: string)
    requires vs == {}
    ensures WithNode(owners, vs, node) == owners
  {
  }

  lemma AppendNode(nodes: seq<string>, node: string)
    requires Distinct(nodes) && node !in nodes
    ensures Distinct(nodes + [node]) && SetOf(nodes + [node]) == SetOf(nodes) + {node}
  {
  }

  lemma VirtualGrows(hash: HashFunc, i: nat, node: string)
    ensures Virtual(hash, i + 1, node) == Virtual(hash, i, node) + {hash(Itoa(i) + node)}
  {
  }

  lemma BackedGrows(ring: seq<Hash>, owners: Owners, v: Hash, node: string)
    requires Backed(ring, owners)
    ensures Backed(ring + [v], owners[v := node])
  {
  }

  lemma WithNodeGrows(owners: Owners, vs: set<Hash>, node: string, v: Hash)
    ensures WithNode(owners, vs, node)[v := node] == WithNode(owners, vs + {v}, node)
  {
  }

  lemma DropNode(nodes: seq<string>, idx: nat)
    requires Distinct(nodes) && idx < |nodes|
    ensures Distinct(nodes[..idx] + nodes[idx + 1..])
    ensures SetOf(nodes[..idx] + nodes[idx + 1..]) == SetOf(nodes) - {nodes[idx]}
  {
    var r := nodes[..idx] + nodes[idx + 1..];
    forall x | x in nodes && x != nodes[idx] ensures x in r {
      var i :| 0 <= i < |nodes| && nodes[i] == x;
      assert x == if i < idx then r[i] else r[i - 1];
    }
  }
}
