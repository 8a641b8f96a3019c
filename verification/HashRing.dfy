/**
 Consistent hashing. `Owners` is the map from virtual-node hash to node that the ring
 keeps; a key belongs to the owner of the first virtual node clockwise from its hash.
 */
module HashRing {
  type Hash = x: int | 0 <= x < 0x1_0000_0000
  type HashFunc = string -> Hash
  type Owners = map<Hash, string>

  datatype Result<+T> = Ok(value: T) | Err

  /** The decimal form of a number. */
  function Itoa(n: nat): string {
    if n < 10 then ["0123456789"[n]] else Itoa(n / 10) + ["0123456789"[n % 10]]
  }

  /** The hashes of a node's virtual nodes. */
  function Virtual(hash: HashFunc, replicas: int, node: string): (r: set<Hash>) {
    set i | 0 <= i < replicas :: hash(Itoa(i) + node)
  }

  /** How far clockwise `v` lies from `h` on the circle of 2^32 hashes. */
  function Clockwise(h: Hash, v: Hash): (d: nat) {
    (v - h) % 0x1_0000_0000
  }

  /** `v` is the virtual node a key of hash `h` meets first. */
  ghost predicate Nearest(keys: set<Hash>, h: Hash, v: Hash) {
    v in keys && forall w :: w in keys ==> Clockwise(h, v) <= Clockwise(h, w)
  }

  /** The node responsible for hash `h`: the reference definition of a lookup. */
  ghost predicate Owns(owners: Owners, h: Hash, node: string) {
    exists v :: Nearest(owners.Keys, h, v) && owners[v] == node
  }

  // ----- Distances -----

  /** Different virtual nodes lie at different distances. */
  lemma ClockwiseInjective(h: Hash, v: Hash, w: Hash)
    ensures Clockwise(h, v) == Clockwise(h, w) <==> v == w
  {
  }

  lemma NearestUnique(keys: set<Hash>, h: Hash, v: Hash, w: Hash)
    requires Nearest(keys, h, v) && Nearest(keys, h, w)
    ensures v == w
  {
    ClockwiseInjective(h, v, w);
  }

  lemma OwnerUnique(owners: Owners, h: Hash, a: string, b: string)
    requires Owns(owners, h, a) && Owns(owners, h, b)
    ensures a == b
  {
    var v :| Nearest(owners.Keys, h, v) && owners[v] == a;
    var w :| Nearest(owners.Keys, h, w) && owners[w] == b;
    NearestUnique(owners.Keys, h, v, w);
  }

  lemma {:induction false} NearestExists(keys: set<Hash>, h: Hash) returns (v: Hash)
    requires keys != {}
    ensures Nearest(keys, h, v)
    decreases |keys|
  {
    var x :| x in keys;
    var rest := keys - {x};
    if rest == {} {
      assert keys == {x};
      return x;
    }
    var w := NearestExists(rest, h);
    v := if Clockwise(h, x) <= Clockwise(h, w) then x else w;
  }

  // ----- Adding and removing a node -----

  /** The owner map after a node's virtual nodes are entered. */
  function WithNode(owners: Owners, vs: set<Hash>, node: string): (r: Owners) {
    owners + map v | v in vs :: node
  }

  /** Adding a node moves a key only to that node. */
  lemma AddDisruption(owners: Owners, vs: set<Hash>, node: string, h: Hash, before: string, after: string)
    requires Owns(owners, h, before) && Owns(WithNode(owners, vs, node), h, after)
    ensures after == before || after == node
  {
    var more := WithNode(owners, vs, node);
    var v :| Nearest(owners.Keys, h, v) && owners[v] == before;
    var w :| Nearest(more.Keys, h, w) && more[w] == after;
    if w !in vs {
      assert w in owners.Keys && Nearest(owners.Keys, h, w);
      NearestUnique(owners.Keys, h, v, w);
    }
  }

  /** Removing a node moves only the keys it owned, provided its virtual nodes are its own. */
  lemma RemoveDisruption(owners: Owners, vs: set<Hash>, node: string, h: Hash, before: string)
    requires Owns(owners, h, before) && before != node
    requires forall v :: v in vs && v in owners ==> owners[v] == node
    ensures Owns(owners - vs, h, before)
  {
    var v :| Nearest(owners.Keys, h, v) && owners[v] == before;
    assert Nearest((owners - vs).Keys, h, v);
  }

  /** A nearer virtual node first met stays ahead: distances from it order the rest as before. */
  lemma ClockwiseBeyond(h: Hash, v: Hash, u: Hash)
    requires Clockwise(h, v) <= Clockwise(h, u)
    ensures Clockwise(h, u) == Clockwise(h, v) + Clockwise(v, u)
  {
  }

  lemma OwnsItself(owners: Owners, v: Hash)
    requires v in owners
    ensures Owns(owners, v, owners[v])
  {
    assert Clockwise(v, v) == 0;
    assert Nearest(owners.Keys, v, v);
  }

  /** The virtual nodes in `vs` were idle: whatever each owned, the next one outside `vs` owns too. */
  ghost predicate Redundant(owners: Owners, vs: set<Hash>) {
    forall v :: v in vs && v in owners ==> Owns(owners - vs, v, owners[v])
  }

  lemma RedundantLookup(owners: Owners, vs: set<Hash>, h: Hash, node: string)
    requires Redundant(owners, vs) && Owns(owners, h, node)
    ensures Owns(owners - vs, h, node)
  {
    var less := owners - vs;
    var v :| Nearest(owners.Keys, h, v) && owners[v] == node;
    if v in vs {
      var w :| Nearest(less.Keys, v, w) && less[w] == node;
      forall u | u in less ensures Clockwise(h, w) <= Clockwise(h, u) {
        ClockwiseBeyond(h, v, u);
        ClockwiseBeyond(h, v, w);
      }
      assert Nearest(less.Keys, h, w);
    } else {
      assert Nearest(less.Keys, h, v);
    }
  }

  ghost predicate SameLookups(a: Owners, b: Owners) {
    forall h, node :: Owns(a, h, node) <==> Owns(b, h, node)
  }

  /** Dropping virtual nodes changes no lookup if and only if each of them was redundant. */
  lemma SameLookupsIff(owners: Owners, vs: set<Hash>)
    ensures SameLookups(owners, owners - vs) <==> Redundant(owners, vs)
  {
    if SameLookups(owners, owners - vs) {
      forall v | v in vs && v in owners ensures Owns(owners - vs, v, owners[v]) {
        OwnsItself(owners, v);
      }
    }
    if Redundant(owners, vs) {
      forall h, node ensures Owns(owners, h, node) <==> Owns(owners - vs, h, node) {
        if Owns(owners, h, node) { RedundantLookup(owners, vs, h, node); }
        if Owns(owners - vs, h, node) {
          var v := NearestExists(owners.Keys, h);
          assert Owns(owners, h, owners[v]);
          RedundantLookup(owners, vs, h, owners[v]);
          OwnerUnique(owners - vs, h, node, owners[v]);
        }
      }
    }
  }

  /**
   Adding a node and removing it again restores every lookup if and only if each virtual node it took
   over was redundant, and the owner map itself if and only if it took over none.
   */
  lemma RestoreIff(owners: Owners, vs: set<Hash>, node: string)
    ensures SameLookups(owners, WithNode(owners, vs, node) - vs) <==> Redundant(owners, vs)
    ensures WithNode(owners, vs, node) - vs == owners <==> vs !! owners.Keys
  {
    var r := WithNode(owners, vs, node) - vs;
    assert r == owners - vs;
    SameLookupsIff(owners, vs);
    hide SameLookups, Redundant;
    if r == owners {
      assert forall v :: v in vs ==> v !in owners;
    }
  }

  /**
   A replica number runs into the node's name: whatever the hash function, a node and the same
   name with "1" in front share a virtual node once there are 12 replicas.
   */
  lemma PrefixedNamesCollide(hash: HashFunc, replicas: int, node: string)
    requires replicas >= 12
    ensures hash("11" + node) in Virtual(hash, replicas, node) * Virtual(hash, replicas, "1" + node)
  {
    assert Itoa(11) == Itoa(1) + "1" == "11";
    assert Itoa(1) + ("1" + node) == "11" + node;
  }

  // ----- The ring as a set of nodes -----

  /** No virtual node belongs to two of the nodes. */
  ghost predicate NoCollision(hash: HashFunc, replicas: int, nodes: set<string>) {
    forall a, b :: a in nodes && b in nodes && a != b ==> Virtual(hash, replicas, a) !! Virtual(hash, replicas, b)
  }

  /** Every entry is a virtual node of the node it names. */
  ghost predicate Genuine(hash: HashFunc, replicas: int, nodes: set<string>, owners: Owners) {
    forall v :: v in owners ==> owners[v] in nodes && v in Virtual(hash, replicas, owners[v])
  }

  /** Every virtual node of every node is entered. */
  ghost predicate Complete(hash: HashFunc, replicas: int, nodes: set<string>, owners: Owners) {
    forall n, v :: n in nodes && v in Virtual(hash, replicas, n) ==> v in owners
  }

  /** Without collisions the owner map, and so every lookup, depends only on the set of nodes. */
  lemma OwnersDetermined(hash: HashFunc, replicas: int, nodes: set<string>, a: Owners, b: Owners)
    requires NoCollision(hash, replicas, nodes)
    requires Genuine(hash, replicas, nodes, a) && Complete(hash, replicas, nodes, a)
    requires Genuine(hash, replicas, nodes, b) && Complete(hash, replicas, nodes, b)
    ensures a == b
  {
    hide Virtual;
    assert a.Keys == b.Keys;
    forall v | v in a ensures a[v] == b[v] {
      assert v in Virtual(hash, replicas, a[v]) && v in Virtual(hash, replicas, b[v]);
    }
  }

  lemma AddKeeps(hash: HashFunc, replicas: int, nodes: set<string>, owners: Owners, node: string)
    requires Genuine(hash, replicas, nodes, owners)
    ensures var r := WithNode(owners, Virtual(hash, replicas, node), node);
            && Genuine(hash, replicas, nodes + {node}, r)
            && (Complete(hash, replicas, nodes, owners) ==> Complete(hash, replicas, nodes + {node}, r))
  {
    hide Virtual;
  }

  /** Removing a node takes only its own entries, and all of the rest stay if it shares none. */
  lemma RemoveKeeps(hash: HashFunc, replicas: int, nodes: set<string>, owners: Owners, node: string)
    requires Genuine(hash, replicas, nodes, owners) && node in nodes
    ensures var r := owners - Virtual(hash, replicas, node);
            && Genuine(hash, replicas, nodes - {node}, r)
            && (Complete(hash, replicas, nodes, owners) && NoCollision(hash, replicas, nodes) ==>
                  Complete(hash, replicas, nodes - {node}, r))
  {
    hide Virtual;
  }

  /** Two rings that differ by one node, however they were built, disagree only on keys that node owns. */
  lemma MinimalDisruption(hash: HashFunc, replicas: int, nodes: set<string>, node: string,
                          a: Owners, b: Owners, h: Hash, before: string, after: string)
    requires node !in nodes && NoCollision(hash, replicas, nodes + {node})
    requires Genuine(hash, replicas, nodes, a) && Complete(hash, replicas, nodes, a)
    requires Genuine(hash, replicas, nodes + {node}, b) && Complete(hash, replicas, nodes + {node}, b)
    requires Owns(a, h, before) && Owns(b, h, after)
    ensures after != node ==> after == before
  {
    hide Owns, Virtual;
    AddKeeps(hash, replicas, nodes, a, node);
    var vs := Virtual(hash, replicas, node);
    OwnersDetermined(hash, replicas, nodes + {node}, WithNode(a, vs, node), b);
    AddDisruption(a, vs, node, h, before, after);
  }

  // ----- The ring in order -----

  ghost predicate Ascending(ring: seq<Hash>) {
    forall i, j :: 0 <= i < j < |ring| ==> ring[i] <= ring[j]
  }

  /** The first position, in ring order with wraparound, that is not before `h`. */
  ghost predicate IsStart(ring: seq<Hash>, h: Hash, start: nat) {
    && start < |ring|
    && if start == 0 && ring[|ring| - 1] < h then true
       else ring[start] >= h && forall i :: 0 <= i < start ==> ring[i] < h
  }

  function Wrapped(start: nat, i: nat, n: nat): (p: nat)
    requires start < n && i < n
    ensures p < n
  {
    if start + i < n then start + i else start + i - n
  }

  /** Walking the ring once from the start, distances never decrease. */
  lemma WalkAscends(ring: seq<Hash>, h: Hash, start: nat, i: nat, j: nat)
    requires Ascending(ring) && IsStart(ring, h, start) && i <= j < |ring|
    ensures Clockwise(h, ring[Wrapped(start, i, |ring|)]) <= Clockwise(h, ring[Wrapped(start, j, |ring|)])
  {
    var p, q := Wrapped(start, i, |ring|), Wrapped(start, j, |ring|);
    assert p <= q ==> ring[p] <= ring[q];
    assert start <= p ==> ring[start] <= ring[p];
    assert start <= q ==> ring[start] <= ring[q];
  }

  /** Every position is met on one lap. */
  lemma WalkCovers(start: nat, p: nat, n: nat) returns (i: nat)
    requires start < n && p < n
    ensures i < n && Wrapped(start, i, n) == p
  {
    i := if p >= start then p - start else p + n - start;
  }

  /** The binary search's answer is the nearest virtual node clockwise. */
  lemma StartIsNearest(ring: seq<Hash>, keys: set<Hash>, h: Hash, start: nat)
    requires Ascending(ring) && IsStart(ring, h, start)
    requires forall v :: v in keys <==> v in ring
    ensures Nearest(keys, h, ring[start])
  {
    forall w | w in keys ensures Clockwise(h, ring[start]) <= Clockwise(h, w) {
      var p :| 0 <= p < |ring| && ring[p] == w;
      var i := WalkCovers(start, p, |ring|);
      WalkAscends(ring, h, start, 0, i);
    }
  }

  // ----- The first nodes met on a lap -----

  ghost predicate Backed(ring: seq<Hash>, owners: Owners) {
    forall v :: v in owners <==> v in ring
  }

  function StepOwner(ring: seq<Hash>, owners: Owners, start: nat, i: nat): string
    requires start < |ring| && i < |ring|
    requires forall p :: 0 <= p < |ring| ==> ring[p] in owners
  {
    owners[ring[Wrapped(start, i, |ring|)]]
  }

  /** The distinct nodes met in the first `m` steps, in the order they are first met. */
  ghost function Seen(ring: seq<Hash>, owners: Owners, start: nat, m: nat): (r: seq<string>)
    requires start < |ring| && m <= |ring| && Backed(ring, owners)
    ensures forall x :: x in r ==> x in owners.Values
  {
    if m == 0 then []
    else
      var prev, node := Seen(ring, owners, start, m - 1), StepOwner(ring, owners, start, m - 1);
      if node in prev then prev else prev + [node]
  }

  ghost predicate Distinct(s: seq<string>) {
    forall i, j :: 0 <= i < j < |s| ==> s[i] != s[j]
  }

  lemma {:induction false} SeenDistinct(ring: seq<Hash>, owners: Owners, start: nat, m: nat)
    requires start < |ring| && m <= |ring| && Backed(ring, owners)
    ensures Distinct(Seen(ring, owners, start, m))
    ensures forall i :: 0 <= i < m ==> StepOwner(ring, owners, start, i) in Seen(ring, owners, start, m)
  {
    if m > 0 { SeenDistinct(ring, owners, start, m - 1); }
  }

  /** One lap meets every owner. */
  lemma SeenAll(ring: seq<Hash>, owners: Owners, start: nat)
    requires start < |ring| && Backed(ring, owners)
    ensures |Seen(ring, owners, start, |ring|)| == |owners.Values|
  {
    var r := Seen(ring, owners, start, |ring|);
    SeenDistinct(ring, owners, start, |ring|);
    forall x | x in owners.Values ensures x in r {
      var v :| v in owners && owners[v] == x;
      var p :| 0 <= p < |ring| && ring[p] == v;
      var i := WalkCovers(start, p, |ring|);
      assert StepOwner(ring, owners, start, i) == x;
    }
    assert owners.Values == set x | x in r;
    DistinctSize(r);
  }

  lemma {:induction false} DistinctSize(s: seq<string>)
    requires Distinct(s)
    ensures |set x | x in s| == |s|
  {
    if s != [] {
      var last, init := s[|s| - 1], s[..|s| - 1];
      DistinctSize(init);
      assert (set x | x in s) == (set x | x in init) + {last};
      assert last !in init;
    }
  }

  /** Some virtual node of `a` comes before all those of `b`. */
  ghost predicate Closer(owners: Owners, h: Hash, a: string, b: string) {
    exists v :: v in owners && owners[v] == a &&
                forall w :: w in owners && owners[w] == b ==> Clockwise(h, v) < Clockwise(h, w)
  }

  /** Each node listed is closer than every node not listed up to it. */
  ghost predicate Ranked(owners: Owners, h: Hash, r: seq<string>) {
    forall i, b :: 0 <= i < |r| && b in owners.Values && b !in r[..i + 1] ==> Closer(owners, h, r[i], b)
  }

  /** A node met for the first time at step `m` is closer than every node not met by then. */
  lemma FirstMetIsCloser(ring: seq<Hash>, owners: Owners, start: nat, m: nat, h: Hash, b: string)
    requires Ascending(ring) && IsStart(ring, h, start) && m < |ring| && Backed(ring, owners)
    requires b != StepOwner(ring, owners, start, m) && b !in Seen(ring, owners, start, m)
    ensures Closer(owners, h, StepOwner(ring, owners, start, m), b)
  {
    var v := ring[Wrapped(start, m, |ring|)];
    SeenDistinct(ring, owners, start, m);
    forall w | w in owners && owners[w] == b ensures Clockwise(h, v) < Clockwise(h, w) {
      var p :| 0 <= p < |ring| && ring[p] == w;
      var i := WalkCovers(start, p, |ring|);
      assert StepOwner(ring, owners, start, i) == b;
      WalkAscends(ring, h, start, m, i);
      ClockwiseInjective(h, v, w);
    }
  }

  lemma RankedGrows(owners: Owners, h: Hash, prev: seq<string>, node: string)
    requires Ranked(owners, h, prev)
    requires forall b :: b in owners.Values && b != node && b !in prev ==> Closer(owners, h, node, b)
    ensures Ranked(owners, h, prev + [node])
  {
    hide Closer;
    var r := prev + [node];
    forall i, b | 0 <= i < |r| && b in owners.Values && b !in r[..i + 1] ensures Closer(owners, h, r[i], b) {
      if i < |prev| {
        assert r[..i + 1] == prev[..i + 1];
      } else {
        assert r[..i + 1] == r;
        assert node in r && forall x :: x in prev ==> x in r;
      }
    }
  }

  lemma {:induction false} SeenRanked(ring: seq<Hash>, owners: Owners, start: nat, m: nat, h: Hash)
    requires Ascending(ring) && IsStart(ring, h, start) && m <= |ring| && Backed(ring, owners)
    ensures Ranked(owners, h, Seen(ring, owners, start, m))
    decreases m
  {
    hide Ascending, Closer, Ranked;
    if m == 0 {
      RankedNone(owners, h);
    } else {
      SeenRanked(ring, owners, start, m - 1, h);
      var prev, node := Seen(ring, owners, start, m - 1), StepOwner(ring, owners, start, m - 1);
      forall b | b in owners.Values && b != node && b !in prev ensures Closer(owners, h, node, b) {
        FirstMetIsCloser(ring, owners, start, m - 1, h, b);
      }
      RankedGrows(owners, h, prev, node);
    }
  }

  lemma RankedNone(owners: Owners, h: Hash)
    ensures Ranked(owners, h, [])
  {
  }

  /** With a virtual node for every node and none shared, there are as many owners as nodes. */
  lemma OwnersAreNodes(hash: HashFunc, replicas: int, nodes: set<string>, owners: Owners)
    requires NoCollision(hash, replicas, nodes) && replicas >= 1
    requires Genuine(hash, replicas, nodes, owners) && Complete(hash, replicas, nodes, owners)
    ensures owners.Values == nodes
  {
    forall n | n in nodes ensures n in owners.Values {
      var v := hash(Itoa(0) + n);
      assert v in Virtual(hash, replicas, n);
      assert owners[v] == n;
    }
  }
}
