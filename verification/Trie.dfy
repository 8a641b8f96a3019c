/**
 The prefix tree: mutable nodes linked by child maps. A path is the sequence of runes from
 the root; the ghost map `nodes` names the node of every path, which keeps the reasoning flat.
 */
module Trie {

  datatype Value = Nil | Val(data: string)

  class Node {
    var children: map<char, Node>
    var isEnd: bool
    var value: Value

    constructor ()
      ensures children == map[] && !isEnd && value == Nil
    {
      children, isEnd, value := map[], false, Nil;
    }
  }

  /** The bytes of a rune's UTF-8 form, each read as a rune of its own. */
  function Utf8(r: char): (b: string)
    ensures |b| >= 1 && (|b| == 1 <==> r as int < 0x80)
    ensures |b| == 1 ==> b == [r]
  {
    var c := r as int;
    if c < 0x80 then [r]
    else if c < 0x800 then [(0xC0 + c / 0x40) as char, (0x80 + c % 0x40) as char]
    else if c < 0x10000 then
      [(0xE0 + c / 0x1000) as char, (0x80 + c / 0x40 % 0x40) as char, (0x80 + c % 0x40) as char]
    else
      [(0xF0 + c / 0x40000) as char, (0x80 + c / 0x1000 % 0x40) as char,
       (0x80 + c / 0x40 % 0x40) as char, (0x80 + c % 0x40) as char]
  }

  /** A longer form starts with a byte that tells its length, goes on with bytes 80..BF, and gives the rune back. */
  lemma Utf8Form(r: char)
    ensures var c, b := r as int, Utf8(r);
            && |b| == (if c < 0x80 then 1 else if c < 0x800 then 2 else if c < 0x10000 then 3 else 4)
            && (forall i :: 0 < i < |b| ==> 0x80 <= b[i] as int < 0xC0)
            && (|b| == 2 ==> 0xC0 <= b[0] as int < 0xE0 && c == (b[0] as int - 0xC0) * 0x40 + (b[1] as int - 0x80))
            && (|b| == 3 ==>
                  && 0xE0 <= b[0] as int < 0xF0
                  && c == (b[0] as int - 0xE0) * 0x1000 + (b[1] as int - 0x80) * 0x40 + (b[2] as int - 0x80))
            && (|b| == 4 ==>
                  && 0xF0 <= b[0] as int < 0xF8
                  && c == (b[0] as int - 0xF0) * 0x40000 + (b[1] as int - 0x80) * 0x1000 +
                          (b[2] as int - 0x80) * 0x40 + (b[3] as int - 0x80))
  {
    var c := r as int;
    assert c / 0x40 / 0x40 == c / 0x1000 && c / 0x1000 / 0x40 == c / 0x40000;
  }

  /** The path that `Delete` follows: it goes byte by byte. */
  function ByteWalk(key: string): (b: string) {
    if key == "" then "" else Utf8(key[0]) + ByteWalk(key[1..])
  }

  predicate Ascii(key: string) {
    forall i :: 0 <= i < |key| ==> key[i] as int < 0x80
  }

  lemma {:induction false} ByteWalkLength(key: string)
    ensures |ByteWalk(key)| >= |key|
    ensures Ascii(key) <==> |ByteWalk(key)| == |key|
    ensures Ascii(key) ==> ByteWalk(key) == key
  {
    if key != "" {
      ByteWalkLength(key[1..]);
      assert key == [key[0]] + key[1..];
      assert Ascii(key) <==> key[0] as int < 0x80 && Ascii(key[1..]);
    }
  }

  /** Byte by byte and rune by rune are the same walk exactly on ASCII keys. */
  lemma ByteWalkIsRuneWalk(key: string)
    ensures ByteWalk(key) == key <==> Ascii(key)
  {
    ByteWalkLength(key);
  }

  type Words = map<string, Value>

  /**
   Dropping the word the byte walk spells is dropping the key exactly when the key is ASCII or neither of
   the two is a word: deleting an absent key that is not ASCII can drop another word.
   */
  lemma DeletePromise(words: Words, key: string)
    ensures words - {ByteWalk(key)} == words - {key} <==> Ascii(key) || (key !in words && ByteWalk(key) !in words)
  {
    ByteWalkIsRuneWalk(key);
    hide ByteWalk;
    var other := ByteWalk(key);
    if other != key {
      assert key in words ==> key in words - {other} && key !in words - {key};
      assert other in words ==> other in words - {key} && other !in words - {other};
    }
  }

  /** The fields of a node. */
  datatype Fields = Fields(children: map<char, Node>, isEnd: bool, value: Value)

  /** The fields of the node at every path. */
  type Picture = map<string, Fields>

  /** A child hangs one rune below its parent. */
  ghost predicate Down(nodes: map<string, Node>, pic: Picture, p: string, c: char) {
    p in pic && c in pic[p].children ==> p + [c] in nodes && pic[p].children[c] == nodes[p + [c]]
  }

  /** A node other than the root is a child of its parent. */
  ghost predicate Up(pic: Picture, p: string) {
    p in pic && p != "" ==> p[..|p| - 1] in pic && p[|p| - 1] in pic[p[..|p| - 1]].children
  }

  ghost predicate Apart(nodes: map<string, Node>, p: string, q: string) {
    p in nodes && q in nodes && p != q ==> nodes[p] != nodes[q]
  }

  /** Nodes sit at distinct paths, and children are exactly the one-rune extensions. */
  ghost predicate Tree(nodes: map<string, Node>, pic: Picture) {
    && pic.Keys == nodes.Keys && "" in nodes
    && (forall p, c :: Down(nodes, pic, p, c))
    && (forall p :: Up(pic, p))
    && (forall p, q :: Apart(nodes, p, q))
  }

  /** Some word starts with this path. */
  ghost predicate Used(pic: Picture, p: string) {
    exists k :: k in pic && pic[k].isEnd && p <= k
  }

  ghost predicate UsedUnless(pic: Picture, key: string, p: string) {
    p in pic && !(p <= key) ==> Used(pic, p)
  }

  /** Every node has a word at or below it, but for prefixes of `key`; the root is a prefix of every key. */
  ghost predicate PrunedBut(pic: Picture, key: string) {
    forall p :: UsedUnless(pic, key, p)
  }

  ghost function WordsOf(pic: Picture): (w: Words) {
    map k | k in pic && pic[k].isEnd :: pic[k].value
  }

  // ----- The ways a node changes -----

  /** The picture with a new leaf `c` below `p`. */
  function Grown(pic: Picture, p: string, c: char, child: Node): Picture
    requires p in pic
  {
    pic[p := pic[p].(children := pic[p].children[c := child])][p + [c] := Fields(map[], false, Nil)]
  }

  lemma NoSuchPath(nodes: map<string, Node>, pic: Picture, p: string, c: char)
    requires Tree(nodes, pic) && p in pic
    ensures p + [c] in pic <==> c in pic[p].children
  {
    var q := p + [c];
    assert q[..|q| - 1] == p && q[|q| - 1] == c;
    assert Up(pic, q) && Down(nodes, pic, p, c);
  }

  lemma GrowTree(nodes: map<string, Node>, pic: Picture, p: string, c: char, child: Node)
    requires Tree(nodes, pic) && p in pic && c !in pic[p].children && child !in nodes.Values
    ensures p + [c] !in pic && Tree(nodes[p + [c] := child], Grown(pic, p, c, child))
    ensures WordsOf(Grown(pic, p, c, child)) == WordsOf(pic)
  {
    NoSuchPath(nodes, pic, p, c);
    var q := p + [c];
    var nodes', pic' := nodes[q := child], Grown(pic, p, c, child);
    forall r, d ensures Down(nodes', pic', r, d) {
      assert (r + [d])[..|r|] == r && (r + [d])[|r|] == d;
      assert Down(nodes, pic, r, d);
    }
    forall r ensures Up(pic', r) {
      assert q[..|q| - 1] == p && q[|q| - 1] == c;
      assert Up(pic, r);
    }
    forall r, t ensures Apart(nodes', r, t) {
      assert Apart(nodes, r, t);
    }
  }

  /** The picture without the leaf `c` below `p`. */
  function Shrunk(pic: Picture, p: string, c: char): Picture
    requires p in pic
  {
    pic[p := pic[p].(children := pic[p].children - {c})] - {p + [c]}
  }

  lemma ShrinkTree(nodes: map<string, Node>, pic: Picture, p: string, c: char)
    requires Tree(nodes, pic) && p in pic && c in pic[p].children && p + [c] in pic
    requires pic[p + [c]].children == map[] && !pic[p + [c]].isEnd
    ensures Tree(nodes - {p + [c]}, Shrunk(pic, p, c))
    ensures WordsOf(Shrunk(pic, p, c)) == WordsOf(pic)
  {
    var q := p + [c];
    var nodes', pic' := nodes - {q}, Shrunk(pic, p, c);
    forall r, d ensures Down(nodes', pic', r, d) {
      assert (r + [d])[..|r|] == r && (r + [d])[|r|] == d;
      assert q[..|p|] == p && q[|p|] == c;
      assert Down(nodes, pic, r, d);
    }
    forall r ensures Up(pic', r) {
      assert Up(pic, r);
      if r != "" { assert r == r[..|r| - 1] + [r[|r| - 1]]; }
    }
    forall r, t ensures Apart(nodes', r, t) {
      assert Apart(nodes, r, t);
    }
  }

  lemma LabelTree(nodes: map<string, Node>, pic: Picture, p: string, f: Fields)
    requires Tree(nodes, pic) && p in pic && f.children == pic[p].children
    ensures Tree(nodes, pic[p := f])
    ensures WordsOf(pic[p := f]) == if f.isEnd then WordsOf(pic)[p := f.value] else WordsOf(pic) - {p}
  {
    var pic' := pic[p := f];
    forall r, d ensures Down(nodes, pic', r, d) {
      assert Down(nodes, pic, r, d);
    }
    forall r ensures Up(pic', r) {
      assert Up(pic, r);
    }
  }

  lemma ChildAt(nodes: map<string, Node>, pic: Picture, p: string, c: char)
    requires Tree(nodes, pic) && p in pic && c in pic[p].children
    ensures p + [c] in nodes && pic[p].children[c] == nodes[p + [c]]
  {
    assert Down(nodes, pic, p, c);
  }

  lemma UsedBy(pic: Picture, p: string, k: string)
    requires k in pic && pic[k].isEnd && p <= k
    ensures Used(pic, p)
  {
  }

  lemma UserOf(pic: Picture, p: string) returns (k: string)
    requires Used(pic, p)
    ensures k in pic && pic[k].isEnd && p <= k
  {
    k :| k in pic && pic[k].isEnd && p <= k;
  }

  lemma PrunedLess(pic: Picture, key: string)
    requires PrunedBut(pic, "")
    ensures PrunedBut(pic, key)
  {
    hide Used;
    forall p ensures UsedUnless(pic, key, p) {
      assert UsedUnless(pic, "", p);
    }
  }

  /** A leaf on the way to `key` leaves every other path used. */
  lemma GrowPruned(pic: Picture, key: string, i: nat, child: Node)
    requires i < |key| && key[..i] in pic && key[..i] + [key[i]] !in pic && PrunedBut(pic, key)
    ensures PrunedBut(Grown(pic, key[..i], key[i], child), key)
  {
    hide Used;
    var q, pic' := key[..i] + [key[i]], Grown(pic, key[..i], key[i], child);
    assert q == key[..i + 1];
    forall p ensures UsedUnless(pic', key, p) {
      if p in pic' && !(p <= key) {
        assert UsedUnless(pic, key, p);
        var k := UserOf(pic, p);
        UsedBy(pic', p, k);
      }
    }
  }

  lemma InsertPruned(pic: Picture, key: string, f: Fields)
    requires key in pic && PrunedBut(pic, key) && f.isEnd
    ensures PrunedBut(pic[key := f], "")
  {
    hide Used;
    var pic' := pic[key := f];
    forall p ensures UsedUnless(pic', "", p) {
      if p in pic' {
        if p <= key {
          UsedBy(pic', p, key);
        } else {
          assert UsedUnless(pic, key, p);
          var k := UserOf(pic, p);
          UsedBy(pic', p, k);
        }
      }
    }
  }

  /** With a node, all nodes above it are there. */
  lemma {:induction false} PrefixClosed(nodes: map<string, Node>, pic: Picture, p: string, i: nat)
    requires Tree(nodes, pic) && p in pic && i <= |p|
    ensures p[..i] in pic
    decreases |p|
  {
    if i == |p| {
      assert p[..i] == p;
    } else {
      assert Up(pic, p);
      PrefixClosed(nodes, pic, p[..|p| - 1], i);
      assert p[..|p| - 1][..i] == p[..i];
    }
  }

  /** Clearing a word can only leave prefixes of it unused. */
  lemma ClearPruned(pic: Picture, key: string, f: Fields)
    requires key in pic && PrunedBut(pic, "") && !f.isEnd
    ensures PrunedBut(pic[key := f], key)
  {
    hide Used;
    var pic' := pic[key := f];
    forall p ensures UsedUnless(pic', key, p) {
      if p in pic' && !(p <= key) {
        assert UsedUnless(pic, "", p);
        var k := UserOf(pic, p);
        UsedBy(pic', p, k);
      }
    }
  }

  /** If a path is used, so is everything above it. */
  lemma UsedPruned(pic: Picture, key: string)
    requires PrunedBut(pic, key) && Used(pic, key)
    ensures PrunedBut(pic, "")
  {
    hide Used;
    var k := UserOf(pic, key);
    forall p ensures UsedUnless(pic, "", p) {
      assert UsedUnless(pic, key, p);
      if p <= key { UsedBy(pic, p, k); }
    }
  }

  lemma ShrinkPruned(pic: Picture, key: string, c: char)
    requires key in pic && key + [c] in pic && !pic[key + [c]].isEnd && PrunedBut(pic, key + [c])
    ensures PrunedBut(Shrunk(pic, key, c), key)
  {
    hide Used;
    var pic' := Shrunk(pic, key, c);
    forall p ensures UsedUnless(pic', key, p) {
      if p in pic' && !(p <= key) {
        ShorterPrefix(p, key, c);
        assert UsedUnless(pic, key + [c], p);
        var k := UserOf(pic, p);
        UsedBy(pic', p, k);
      }
    }
  }

  lemma ShorterPrefix(p: string, key: string, c: char)
    ensures p <= key + [c] <==> p <= key || p == key + [c]
  {
    if p <= key + [c] && |p| <= |key| {
      assert p == (key + [c])[..|p|] == key[..|p|];
    }
  }

  /** A node that is a word or has a child is used. */
  lemma BusyIsUsed(nodes: map<string, Node>, pic: Picture, p: string)
    requires Tree(nodes, pic) && p in pic && PrunedBut(pic, p)
    requires pic[p].isEnd || pic[p].children != map[]
    ensures Used(pic, p)
  {
    hide Used, Tree;
    if pic[p].isEnd {
      UsedBy(pic, p, p);
    } else {
      var c :| c in pic[p].children;
      NoSuchPath(nodes, pic, p, c);
      var q := p + [c];
      assert UsedUnless(pic, p, q);
      var k := UserOf(pic, q);
      UsedBy(pic, p, k);
    }
  }

  /** An empty node has no word at or below it. */
  lemma EmptyIsUnused(nodes: map<string, Node>, pic: Picture, p: string)
    requires Tree(nodes, pic) && p in pic && pic[p].children == map[] && !pic[p].isEnd
    ensures !Used(pic, p)
  {
    hide Used, Tree;
    if Used(pic, p) {
      var k := UserOf(pic, p);
      assert k != p;
      PrefixClosed(nodes, pic, k, |p| + 1);
      assert k[..|p| + 1] == p + [k[|p|]];
      NoSuchPath(nodes, pic, p, k[|p|]);
    }
  }

  /** Some word of the map starts with `p`. */
  ghost predicate Begins(words: Words, p: string) {
    exists k :: k in words && p <= k
  }

  lemma BeginsMeans(words: Words, p: string)
    ensures Begins(words, p) <==> exists k :: k in words && p <= k
  {
  }

  lemma UsedIsWord(pic: Picture, p: string)
    ensures Used(pic, p) <==> Begins(WordsOf(pic), p)
  {
    if Used(pic, p) {
      var k := UserOf(pic, p);
      assert k in WordsOf(pic);
    }
  }

  /** In a pruned tree a path other than the root exists exactly when some word starts with it. */
  lemma PathIffWord(nodes: map<string, Node>, pic: Picture, p: string)
    requires Tree(nodes, pic) && PrunedBut(pic, "")
    ensures p in pic <==> p == "" || Begins(WordsOf(pic), p)
  {
    UsedIsWord(pic, p);
    assert UsedUnless(pic, "", p);
    assert "" in pic;
    hide Used, Tree, WordsOf;
    if Used(pic, p) {
      var k := UserOf(pic, p);
      PrefixClosed(nodes, pic, k, |p|);
      assert k[..|p|] == p;
    }
  }

  class Trie {
    var root: Node
    ghost var nodes: map<string, Node>

    /** What the nodes hold, path by path. */
    ghost function Pic(): (pic: Picture)
      reads this, nodes.Values
      ensures pic.Keys == nodes.Keys
    {
      map p | p in nodes :: Fields(nodes[p].children, nodes[p].isEnd, nodes[p].value)
    }

    ghost predicate Valid()
      reads this, nodes.Values
    {
      Tree(nodes, Pic()) && nodes[""] == root && PrunedBut(Pic(), "")
    }

    /** The map the trie stands for. */
    ghost function Contents(): (w: Words)
      reads this, nodes.Values
    {
      WordsOf(Pic())
    }

    constructor ()
      ensures Valid() && Contents() == map[] && fresh(nodes.Values)
    {
      root := new Node();
      new;
      nodes := map["" := root];
    }

    method AddChild(node: Node, c: char, ghost p: string)
      requires Tree(nodes, Pic()) && p in nodes && node == nodes[p] && c !in node.children
      modifies this`nodes, node`children
      ensures c in node.children && fresh(node.children[c])
      ensures nodes == old(nodes)[p + [c] := node.children[c]]
      ensures Pic() == Grown(old(Pic()), p, c, node.children[c])
    {
      NoSuchPath(nodes, Pic(), p, c);
      ghost var before, pic := nodes, Pic();
      var child := new Node();
      node.children := node.children[c := child];
      nodes := nodes[p + [c] := child];
      forall r | r in nodes ensures Pic()[r] == Grown(pic, p, c, child)[r] {
        assert Apart(before, r, p);
      }
      hide Tree, Pic;
    }

    method DropChild(node: Node, c: char, ghost p: string)
      requires Tree(nodes, Pic()) && p in nodes && node == nodes[p] && c in node.children
      modifies this`nodes, node`children
      ensures nodes == old(nodes) - {p + [c]}
      ensures Pic() == Shrunk(old(Pic()), p, c)
    {
      ghost var before, pic := nodes, Pic();
      node.children := node.children - {c};
      nodes := nodes - {p + [c]};
      forall r | r in nodes ensures Pic()[r] == Shrunk(pic, p, c)[r] {
        assert Apart(before, r, p);
      }
      hide Tree, Pic;
    }

    method SetWord(node: Node, isEnd: bool, value: Value, ghost p: string)
      requires Tree(nodes, Pic()) && p in nodes && node == nodes[p]
      modifies node`isEnd, node`value
      ensures node.isEnd == isEnd && node.value == value
      ensures Pic() == old(Pic())[p := old(Pic())[p].(isEnd := isEnd, value := value)]
    {
      ghost var pic := Pic();
      node.isEnd := isEnd;
      node.value := value;
      forall r | r in nodes ensures Pic()[r] == if r == p then pic[p].(isEnd := isEnd, value := value) else pic[r] {
        assert Apart(nodes, r, p);
      }
      hide Tree, Pic;
    }

    /** `node` is where the first `i` runes of `key` lead. */
    ghost predicate At(key: string, i: nat, node: Node)
      requires i <= |key|
      reads this, nodes.Values
    {
      && Tree(nodes, Pic()) && "" in nodes && nodes[""] == root
      && key[..i] in nodes && nodes[key[..i]] == node
    }

    /** The first `i` runes of `key` are in place, and `words` is untouched. */
    ghost predicate Underway(key: string, i: nat, node: Node, words: Words)
      requires i <= |key|
      reads this, nodes.Values
    {
      At(key, i, node) && node in nodes.Values && WordsOf(Pic()) == words && PrunedBut(Pic(), key)
    }

    /** One step of the walk of `Insert`: make the child if it is missing, and go there. */
    method Extend(node: Node, key: string, i: nat, ghost words: Words)
      returns (child: Node, ghost made: set<Node>)
      requires i < |key| && Underway(key, i, node, words)
      modifies this`nodes, node`children
      ensures Underway(key, i + 1, child, words) && root == old(root)
      ensures fresh(made) && nodes.Values <= old(nodes.Values) + made
    {
      var ch := key[i];
      ghost var before, pic, p := nodes, Pic(), key[..i];
      assert key[..i + 1] == p + [ch];
      NoSuchPath(nodes, pic, p, ch);
      hide PrunedBut, WordsOf;
      made := {};
      if ch !in node.children {
        assert pic[p].children == node.children;
        AddChild(node, ch, p);
        made := {node.children[ch]};
        GrowTree(before, pic, p, ch, node.children[ch]);
        GrowPruned(pic, key, i, node.children[ch]);
      }
      hide Tree, Grown;
      ChildAt(nodes, Pic(), p, ch);
      child := node.children[ch];
    }

    method Insert(key: string, value: Value)
      requires Valid()
      modifies this`nodes, nodes.Values
      ensures Valid() && fresh(nodes.Values - old(nodes.Values)) && root == old(root)
      ensures Contents() == old(Contents())[key := value]
    {
      ghost var words := Contents();
      Start(key);
      var node := root;
      ghost var before, made: set<Node> := nodes.Values, {};
      hide Underway, Valid, Contents;
      for i := 0 to |key|
        invariant Underway(key, i, node, words) && root == old(root)
        invariant fresh(made) && nodes.Values <= before + made
      {
        UnderwayNode(key, i, node, words);
        ghost var more;
        node, more := Extend(node, key, i, words);
        made := made + more;
      }
      UnderwayNode(key, |key|, node, words);
      Finish(node, key, value, words);
    }

    lemma Start(key: string)
      requires Valid()
      ensures Underway(key, 0, root, Contents())
    {
      PrunedLess(Pic(), key);
      assert key[..0] == "";
    }

    lemma UnderwayNode(key: string, i: nat, node: Node, words: Words)
      requires i <= |key| && Underway(key, i, node, words)
      ensures node in nodes.Values
    {
    }

    /** The end of the walk: the node becomes a word. */
    method Finish(node: Node, key: string, value: Value, ghost words: Words)
      requires Underway(key, |key|, node, words)
      modifies node`isEnd, node`value
      ensures Valid() && Contents() == words[key := value]
    {
      assert key[..|key|] == key;
      hide Tree, PrunedBut, WordsOf;
      ghost var pic := Pic();
      SetWord(node, true, value, key);
      LabelTree(nodes, pic, key, Pic()[key]);
      InsertPruned(pic, key, Pic()[key]);
    }

    /** The walk shared by the lookups: the node of a path, if the path exists. */
    method Find(path: string) returns (found: bool, node: Node)
      requires Valid()
      ensures found <==> path in nodes
      ensures found ==> node == nodes[path]
    {
      node := root;
      assert path[..0] == "";
      ghost var pic := Pic();
      for i := 0 to |path|
        invariant path[..i] in nodes && node == nodes[path[..i]]
      {
        assert path[..i + 1] == path[..i] + [path[i]];
        NoSuchPath(nodes, pic, path[..i], path[i]);
        if path[i] !in node.children {
          if path in nodes { PrefixClosed(nodes, pic, path, i + 1); }
          return false, node;
        }
        ChildAt(nodes, pic, path[..i], path[i]);
        node := node.children[path[i]];
      }
      assert path[..|path|] == path;
      return true, node;
    }

    method Search(key: string) returns (value: Value, found: bool)
      requires Valid()
      ensures found <==> key in Contents()
      ensures found ==> value == Contents()[key]
    {
      var there, node := Find(key);
      if !there {
        return Nil, false;
      }
      return node.value, node.isEnd;
    }

    /** For the empty prefix the answer is always yes. */
    method StartsWith(prefix: string) returns (found: bool)
      requires Valid()
      ensures found <==> prefix == "" || exists k :: k in Contents() && prefix <= k
    {
      var node;
      found, node := Find(prefix);
      hide Tree, PrunedBut, WordsOf, Begins;
      PathIffWord(nodes, Pic(), prefix);
      BeginsMeans(Contents(), prefix);
    }

    /** The end of the walk of `Delete`: the word is cleared; an empty node may go. */
    method ClearWord(node: Node, key: string) returns (prune: bool)
      requires Tree(nodes, Pic()) && key in nodes && nodes[key] == node && PrunedBut(Pic(), "")
      modifies node`isEnd, node`value
      ensures Tree(nodes, Pic()) && PrunedBut(Pic(), if prune then key else "")
      ensures WordsOf(Pic()) == old(WordsOf(Pic())) - {key}
      ensures prune <==> key in old(WordsOf(Pic())) && node.children == map[] && !node.isEnd
    {
      ghost var pic := Pic();
      assert key in WordsOf(pic) <==> node.isEnd;
      if !node.isEnd {
        assert WordsOf(pic) == WordsOf(pic) - {key};
        return false;
      }
      hide Tree, PrunedBut, WordsOf;
      SetWord(node, false, Nil, key);
      LabelTree(nodes, pic, key, Pic()[key]);
      ClearPruned(pic, key, Pic()[key]);
      prune := |node.children| == 0;
      if !prune {
        BusyIsUsed(nodes, Pic(), key);
        UsedPruned(Pic(), key);
      }
    }

    /** Drops an empty child; the node itself may go if it is now empty too. */
    method DropLeaf(node: Node, c: char, ghost path: string) returns (prune: bool)
      requires Tree(nodes, Pic()) && path in nodes && nodes[path] == node && c in node.children
      requires path + [c] in nodes && nodes[path + [c]].children == map[] && !nodes[path + [c]].isEnd
      requires PrunedBut(Pic(), path + [c])
      modifies this`nodes, node`children
      ensures Tree(nodes, Pic()) && PrunedBut(Pic(), if prune then path else "")
      ensures nodes == old(nodes) - {path + [c]} && path in nodes
      ensures WordsOf(Pic()) == old(WordsOf(Pic()))
      ensures prune <==> node.children == map[] && !node.isEnd
    {
      hide Tree, PrunedBut, WordsOf;
      ghost var before, pic := nodes, Pic();
      DropChild(node, c, path);
      ShrinkTree(before, pic, path, c);
      ShrinkPruned(pic, path, c);
      prune := !node.isEnd && |node.children| == 0;
      if !prune {
        BusyIsUsed(nodes, Pic(), path);
        UsedPruned(Pic(), path);
      }
    }

    /** The recursion of `Delete`: true when the caller should drop the node it was given. */
    method DeleteFrom(node: Node, key: string, depth: nat) returns (prune: bool)
      requires depth <= |key| && At(key, depth, node) && PrunedBut(Pic(), "")
      modifies this`nodes, nodes.Values
      ensures At(key, depth, node) && root == old(root) && Kept(old(nodes), nodes)
      ensures WordsOf(Pic()) == old(WordsOf(Pic())) - {key}
      ensures PrunedBut(Pic(), if prune then key[..depth] else "")
      ensures prune <==> key in old(WordsOf(Pic())) && node.children == map[] && !node.isEnd
      decreases |key| - depth, 1
    {
      hide Tree, PrunedBut, WordsOf, Pic;
      if depth == |key| {
        assert key[..depth] == key;
        prune := ClearWord(node, key);
      } else if key[depth] !in node.children {
        Missing(key, depth, node);
        prune := false;
      } else {
        prune := DeleteBelow(node, key, depth);
      }
    }

    lemma Missing(key: string, depth: nat, node: Node)
      requires depth < |key| && At(key, depth, node) && key[depth] !in node.children
      ensures key !in WordsOf(Pic()) && WordsOf(Pic()) - {key} == WordsOf(Pic())
    {
      hide Tree, WordsOf;
      assert key[..depth + 1] == key[..depth] + [key[depth]];
      NoSuchPath(nodes, Pic(), key[..depth], key[depth]);
      AbsentBelow(nodes, Pic(), key, depth + 1);
    }

    /** The child on the way to the key is there. */
    method DeleteBelow(node: Node, key: string, depth: nat) returns (prune: bool)
      requires depth < |key| && At(key, depth, node) && PrunedBut(Pic(), "") && key[depth] in node.children
      modifies this`nodes, nodes.Values
      ensures At(key, depth, node) && root == old(root) && Kept(old(nodes), nodes)
      ensures WordsOf(Pic()) == old(WordsOf(Pic())) - {key}
      ensures PrunedBut(Pic(), if prune then key[..depth] else "")
      ensures prune <==> key in old(WordsOf(Pic())) && node.children == map[] && !node.isEnd
      decreases |key| - depth, 0
    {
      hide Tree, PrunedBut, WordsOf, Pic, At;
      StepDown(key, depth, node);
      ghost var before := nodes;
      var child := node.children[key[depth]];
      var pruneChild := DeleteFrom(child, key, depth + 1);
      StepUp(key, depth, node, child, before);
      if pruneChild {
        ghost var middle := nodes;
        prune := DropBelow(node, key, depth, child);
        KeptTwice(before, middle, nodes);
      } else {
        prune := false;
      }
    }

    lemma StepDown(key: string, depth: nat, node: Node)
      requires depth < |key| && At(key, depth, node) && key[depth] in node.children
      ensures At(key, depth + 1, node.children[key[depth]]) && key[..depth] in nodes && nodes[key[..depth]] == node
    {
      hide Tree;
      assert key[..depth + 1] == key[..depth] + [key[depth]];
      ChildAt(nodes, Pic(), key[..depth], key[depth]);
    }

    lemma StepUp(key: string, depth: nat, node: Node, child: Node, before: map<string, Node>)
      requires depth < |key| && At(key, depth + 1, child) && Kept(before, nodes)
      requires key[..depth] in before && before[key[..depth]] == node
      ensures At(key, depth, node) && key[depth] in node.children && node.children[key[depth]] == child
    {
      hide Tree;
      assert key[..depth + 1] == key[..depth] + [key[depth]];
      ParentOf(nodes, Pic(), key[..depth], key[depth]);
      ChildAt(nodes, Pic(), key[..depth], key[depth]);
    }

    method DropBelow(node: Node, key: string, depth: nat, child: Node) returns (prune: bool)
      requires depth < |key| && At(key, depth, node) && At(key, depth + 1, child)
      requires key[depth] in node.children && child.children == map[] && !child.isEnd
      requires PrunedBut(Pic(), key[..depth + 1])
      modifies this`nodes, node`children
      ensures At(key, depth, node) && root == old(root) && Kept(old(nodes), nodes)
      ensures PrunedBut(Pic(), if prune then key[..depth] else "")
      ensures WordsOf(Pic()) == old(WordsOf(Pic()))
      ensures prune <==> node.children == map[] && !node.isEnd
    {
      hide Tree, PrunedBut, WordsOf, Pic;
      assert key[..depth + 1] == key[..depth] + [key[depth]];
      prune := DropLeaf(node, key[depth], key[..depth]);
    }

    /**
     Removes the word the byte walk spells. The answer tells whether the trie held that word and nothing
     else, not whether a word was removed.
     */
    method Delete(key: string) returns (emptied: bool)
      requires Valid()
      modifies this`nodes, nodes.Values
      ensures Valid() && root == old(root) && Kept(old(nodes), nodes)
      ensures Contents() == old(Contents()) - {ByteWalk(key)}
      ensures emptied <==> old(Contents()).Keys == {ByteWalk(key)}
    {
      ghost var walk := ByteWalk(key);
      assert walk[..0] == "";
      emptied := DeleteFrom(root, ByteWalk(key), 0);
      RootEmpty(nodes, Pic());
      hide Tree, WordsOf;
      WordGone(old(Contents()), walk);
      if emptied { EmptyIsPruned(Pic()); }
    }

    /** What the children of a node look like from above. */
    lemma NodeFacts(p: string, node: Node)
      requires Valid() && p in nodes && nodes[p] == node
      ensures Part(Contents(), p, {}) == if node.isEnd then map[p := node.value] else map[]
      ensures Part(Contents(), p, node.children.Keys) == Below(Contents(), p)
      ensures forall c :: c in node.children ==> p + [c] in nodes && nodes[p + [c]] == node.children[c]
    {
      PartStart(Pic(), p);
      PartAll(nodes, Pic(), p);
      hide Part, Below;
      forall c | c in node.children ensures p + [c] in nodes && nodes[p + [c]] == node.children[c] {
        ChildAt(nodes, Pic(), p, c);
      }
    }

    method CollectWords(node: Node, prefix: string, result: Words) returns (r: Words)
      requires Valid() && prefix in nodes && nodes[prefix] == node
      ensures r == result + Below(Contents(), prefix)
      decreases PathsBelow(nodes.Keys, prefix)
    {
      hide Valid, Contents, Part, Below, PathsBelow;
      NodeFacts(prefix, node);
      ghost var words := Contents();
      r := result;
      if node.isEnd {
        r := r[prefix := node.value];
      }
      assert r == result + Part(words, prefix, {});
      var todo := node.children.Keys;
      ghost var done: set<char> := {};
      while todo != {}
        invariant done !! todo && done + todo == node.children.Keys
        invariant r == result + Part(words, prefix, done)
        decreases todo
      {
        var c :| c in todo;
        PathsShrink(nodes.Keys, prefix, c);
        PartStep(words, prefix, done, c);
        MapAssoc(result, Part(words, prefix, done), Below(words, prefix + [c]));
        r := CollectWords(node.children[c], prefix + [c], r);
        todo, done := todo - {c}, done + {c};
      }
      assert done == node.children.Keys;
    }

    method FindAllWithPrefix(prefix: string) returns (r: Words)
      requires Valid()
      ensures r == Below(Contents(), prefix)
      ensures forall k :: k in r <==> k in Contents() && prefix <= k
      ensures forall k :: k in r ==> r[k] == Contents()[k]
    {
      var found, node := Find(prefix);
      if !found {
        PathIffWord(nodes, Pic(), prefix);
        return map[];
      }
      r := CollectWords(node, prefix, map[]);
    }

    method CountWords(node: Node, ghost path: string) returns (count: nat)
      requires Valid() && path in nodes && nodes[path] == node
      ensures count == BelowSize(Contents(), path) == |set k | k in Contents() && path <= k|
      decreases PathsBelow(nodes.Keys, path)
    {
      hide Valid, Contents, PartSize, BelowSize, PathsBelow;
      NodeSizes(path, node);
      ghost var words := Contents();
      count := if node.isEnd then 1 else 0;
      var todo := node.children.Keys;
      ghost var done: set<char> := {};
      while todo != {}
        invariant done !! todo && done + todo == node.children.Keys
        invariant count == PartSize(words, path, done)
        decreases todo
      {
        var c :| c in todo;
        PathsShrink(nodes.Keys, path, c);
        PartSizeStep(words, path, done, c);
        var below := CountWords(node.children[c], path + [c]);
        count := count + below;
        todo, done := todo - {c}, done + {c};
      }
      assert done == node.children.Keys;
      SizeOfKeys(words, path);
    }

    lemma NodeSizes(p: string, node: Node)
      requires Valid() && p in nodes && nodes[p] == node
      ensures PartSize(Contents(), p, {}) == if node.isEnd then 1 else 0
      ensures PartSize(Contents(), p, node.children.Keys) == BelowSize(Contents(), p)
      ensures forall c :: c in node.children ==> p + [c] in nodes && nodes[p + [c]] == node.children[c]
    {
      hide Valid, Contents, Part, Below;
      NodeFacts(p, node);
    }
  }

  // ----- Collecting -----

  /** The words that start with `p`. */
  ghost function Below(words: Words, p: string): (w: Words) {
    map k | k in words && p <= k :: words[k]
  }

  /** Of those, `p` itself and the ones that go on with a rune in `done`. */
  ghost function Part(words: Words, p: string, done: set<char>): (w: Words) {
    map k | k in words && p <= k && (|k| == |p| || k[|p|] in done) :: words[k]
  }

  ghost function PathsBelow(paths: set<string>, p: string): set<string> {
    set q | q in paths && p <= q
  }

  lemma PathsShrink(paths: set<string>, p: string, c: char)
    requires p in paths
    ensures PathsBelow(paths, p + [c]) < PathsBelow(paths, p)
  {
    assert p in PathsBelow(paths, p) && p !in PathsBelow(paths, p + [c]);
    forall q | q in PathsBelow(paths, p + [c]) ensures q in PathsBelow(paths, p) {
      assert p <= p + [c] <= q;
    }
  }

  lemma PartStart(pic: Picture, p: string)
    requires p in pic
    ensures Part(WordsOf(pic), p, {}) == if pic[p].isEnd then map[p := pic[p].value] else map[]
  {
    forall k | k in Part(WordsOf(pic), p, {}) ensures k == p {
    }
  }

  lemma PartStep(words: Words, p: string, done: set<char>, c: char)
    requires c !in done
    ensures Part(words, p, done + {c}) == Part(words, p, done) + Below(words, p + [c])
    ensures Part(words, p, done).Keys !! Below(words, p + [c]).Keys
  {
    forall k | k in words ensures p + [c] <= k <==> p <= k && |k| > |p| && k[|p|] == c {
      NextRune(p, c, k);
    }
  }

  lemma NextRune(p: string, c: char, k: string)
    ensures p + [c] <= k <==> p <= k && |k| > |p| && k[|p|] == c
  {
    if p + [c] <= k {
      assert k[..|p| + 1] == p + [c];
      assert k[..|p|] == k[..|p| + 1][..|p|] == p;
    }
    if p <= k && |k| > |p| && k[|p|] == c {
      assert k[..|p| + 1] == k[..|p|] + [k[|p|]];
    }
  }

  /** Once all children are done, so are all words below. */
  lemma PartAll(nodes: map<string, Node>, pic: Picture, p: string)
    requires Tree(nodes, pic) && p in pic
    ensures Part(WordsOf(pic), p, pic[p].children.Keys) == Below(WordsOf(pic), p)
  {
    forall k | k in WordsOf(pic) && p <= k && |k| > |p| ensures k[|p|] in pic[p].children {
      PrefixClosed(nodes, pic, k, |p| + 1);
      assert k[..|p| + 1] == p + [k[|p|]];
      NoSuchPath(nodes, pic, p, k[|p|]);
    }
  }

  ghost function PartSize(words: Words, p: string, done: set<char>): nat {
    |Part(words, p, done)|
  }

  ghost function BelowSize(words: Words, p: string): nat {
    |Below(words, p)|
  }

  lemma SizeOfKeys(words: Words, p: string)
    ensures BelowSize(words, p) == |set k | k in words && p <= k|
  {
    var below := Below(words, p);
    assert below.Keys == set k | k in words && p <= k;
    assert |below| == |below.Keys|;
  }

  lemma PartSizeStep(words: Words, p: string, done: set<char>, c: char)
    requires c !in done
    ensures PartSize(words, p, done + {c}) == PartSize(words, p, done) + BelowSize(words, p + [c])
  {
    PartStep(words, p, done, c);
    hide Part, Below;
    UnionSize(Part(words, p, done), Below(words, p + [c]));
  }

  lemma MapAssoc(a: Words, b: Words, c: Words)
    ensures a + b + c == a + (b + c)
  {
  }

  lemma UnionSize(a: Words, b: Words)
    requires a.Keys !! b.Keys
    ensures |a + b| == |a| + |b|
  {
    assert (a + b).Keys == a.Keys + b.Keys;
  }

  /** Some nodes may have gone; the others are the same objects. */
  ghost predicate Kept(before: map<string, Node>, after: map<string, Node>) {
    after.Keys <= before.Keys && forall p :: p in after ==> after[p] == before[p]
  }

  lemma KeptTwice(a: map<string, Node>, b: map<string, Node>, c: map<string, Node>)
    requires Kept(a, b) && Kept(b, c)
    ensures Kept(a, c)
  {
  }

  /** A key with a missing prefix is no word. */
  lemma AbsentBelow(nodes: map<string, Node>, pic: Picture, key: string, i: nat)
    requires Tree(nodes, pic) && i <= |key| && key[..i] !in pic
    ensures key !in WordsOf(pic) && WordsOf(pic) - {key} == WordsOf(pic)
  {
    if key in pic { PrefixClosed(nodes, pic, key, i); }
  }

  lemma ParentOf(nodes: map<string, Node>, pic: Picture, p: string, c: char)
    requires Tree(nodes, pic) && p + [c] in pic
    ensures p in pic && c in pic[p].children
  {
    var q := p + [c];
    assert q[..|q| - 1] == p && q[|q| - 1] == c;
    assert Up(pic, q);
  }

  /** The root is empty exactly when there are no words. */
  lemma RootEmpty(nodes: map<string, Node>, pic: Picture)
    requires Tree(nodes, pic) && PrunedBut(pic, "")
    ensures "" in pic
    ensures pic[""].children == map[] && !pic[""].isEnd <==> WordsOf(pic) == map[]
  {
    UsedIsWord(pic, "");
    assert Begins(WordsOf(pic), "") <==> WordsOf(pic) != map[] by {
      if WordsOf(pic) != map[] {
        var k :| k in WordsOf(pic);
        assert "" <= k;
      }
    }
    hide Used, WordsOf;
    if pic[""].children == map[] && !pic[""].isEnd {
      EmptyIsUnused(nodes, pic, "");
    } else {
      BusyIsUsed(nodes, pic, "");
    }
  }

  lemma WordGone(words: Words, key: string)
    ensures key in words && words - {key} == map[] <==> words.Keys == {key}
  {
    var rest := words - {key};
    assert rest.Keys == words.Keys - {key};
    assert rest == map[] <==> rest.Keys == {};
  }

  lemma EmptyIsPruned(pic: Picture)
    requires PrunedBut(pic, ""[..0])
    ensures PrunedBut(pic, "")
  {
    assert ""[..0] == "";
  }
}
