/**
 The names that virtual nodes are hashed from: the replica number and then the node's name.
 Here is exactly when two nodes share one, and so collide under every hash function.
 */
module NodeNames {
  import opened HashRing

  // ----- Decimal numerals -----

  predicate IsDigit(c: char) {
    '0' <= c <= '9'
  }

  predicate Digits(s: string) {
    forall i :: 0 <= i < |s| ==> IsDigit(s[i])
  }

  function Pow10(k: nat): (p: nat)
    ensures p >= 1
  {
    if k == 0 then 1 else 10 * Pow10(k - 1)
  }

  /** The number a string of digits reads as. */
  function Val(s: string): nat
    requires Digits(s)
  {
    if s == [] then 0 else 10 * Val(s[..|s| - 1]) + (s[|s| - 1] - '0') as nat
  }

  lemma DigitOf(n: nat)
    requires n < 10
    ensures IsDigit("0123456789"[n]) && ("0123456789"[n] - '0') as nat == n
  {
  }

  lemma {:induction false} ItoaValue(n: nat)
    ensures Digits(Itoa(n)) && Itoa(n) != [] && Val(Itoa(n)) == n
    ensures n > 0 ==> Itoa(n)[0] != '0'
  {
    if n < 10 {
      DigitOf(n);
      assert Itoa(n)[..0] == [];
    } else {
      ItoaValue(n / 10);
      DigitOf(n % 10);
      assert Itoa(n)[..|Itoa(n)| - 1] == Itoa(n / 10);
    }
  }

  lemma {:induction false} ValConcat(s: string, t: string)
    requires Digits(s) && Digits(t)
    ensures Digits(s + t) && Val(s + t) == Val(s) * Pow10(|t|) + Val(t)
    decreases |t|
  {
    if t == [] {
      assert s + t == s;
    } else {
      var front, last := t[..|t| - 1], t[|t| - 1];
      ValConcat(s, front);
      assert (s + t)[..|s + t| - 1] == s + front && (s + t)[|s + t| - 1] == last;
      TenTimes(Val(s), Pow10(|front|), Val(front), (last - '0') as nat);
    }
  }

  lemma TenTimes(v: nat, p: nat, w: nat, d: nat)
    ensures 10 * (v * p + w) + d == v * (10 * p) + (10 * w + d)
  {
  }

  /** A numeral without a leading zero is the decimal form of its number. */
  lemma {:induction false} ItoaOfVal(s: string)
    requires Digits(s) && s != [] && s[0] != '0'
    ensures Itoa(Val(s)) == s && Val(s) > 0
    decreases |s|
  {
    var front, last := s[..|s| - 1], s[|s| - 1];
    var d := (last - '0') as nat;
    assert s == front + [last] && [last] == ["0123456789"[d]] by { LastDigit(last, d); }
    if front == [] {
      assert Val(s) == d;
    } else {
      ItoaOfVal(front);
      assert Val(s) / 10 == Val(front) && Val(s) % 10 == d;
    }
  }

  lemma LastDigit(c: char, d: nat)
    requires IsDigit(c) && d == (c - '0') as nat
    ensures d < 10 && "0123456789"[d] == c
  {
  }

  // ----- Shared names -----

  /** Replica `i` of `a` and replica `j` of `b` are hashed from the same name. */
  predicate SameName(a: string, b: string, i: nat, j: nat) {
    Itoa(i) + a == Itoa(j) + b
  }

  ghost predicate ShareName(a: string, b: string, replicas: int) {
    exists i: nat, j: nat :: i < replicas && j < replicas && SameName(a, b, i, j)
  }

  /** One name is the other with the digits `s` in front, and there are enough replicas to make them up. */
  ghost predicate Prefixes(a: string, b: string, s: string, replicas: int) {
    s != [] && Digits(s) && (b == s + a || a == s + b) && Pow10(|s|) + Val(s) < replicas
  }

  /** What the longer of two heads has over the other starts the other's tail. */
  lemma Overhang(x: string, a: string, y: string, b: string)
    requires x + a == y + b && |x| >= |y|
    ensures x == y + x[|y|..] && b == x[|y|..] + a
  {
    assert (x + a)[..|y|] == x[..|y|] && (x + a)[|y|..] == x[|y|..] + a;
    assert (y + b)[..|y|] == y && (y + b)[|y|..] == b;
  }

  lemma ItoaSmall()
    ensures Itoa(0) == "0" && Itoa(1) == "1"
  {
  }

  /** Only the numeral 0 starts with a zero. */
  lemma NotFromZero(i: nat, j: nat, s: string)
    requires Itoa(i) == Itoa(j) + s && s != []
    ensures j >= 1
  {
    ItoaSmall();
    ItoaValue(i);
    ItoaValue(j);
    hide Itoa, Val;
    assert Itoa(i)[0] == Itoa(j)[0] && |Itoa(i)| >= 2;
  }

  lemma AtLeastOnce(j: nat, p: nat)
    requires j >= 1
    ensures j * p >= p
  {
  }

  lemma LongerNumeral(a: string, b: string, i: nat, j: nat, replicas: int)
    requires SameName(a, b, i, j) && |Itoa(i)| > |Itoa(j)| && i < replicas
    ensures Prefixes(a, b, Itoa(i)[|Itoa(j)|..], replicas)
  {
    var x, y := Itoa(i), Itoa(j);
    ItoaValue(i);
    ItoaValue(j);
    Overhang(x, a, y, b);
    var s := x[|y|..];
    assert Digits(s);
    NotFromZero(i, j, s);
    hide Val, Itoa, Pow10;
    ValConcat(y, s);
    AtLeastOnce(j, Pow10(|s|));
  }

  lemma One() returns (one: string)
    ensures Digits(one) && Val(one) == 1 && one != [] && one[0] != '0' && Itoa(1) == one
  {
    one := "1";
    assert one[..0] == [];
  }

  /** A 1 and some digits are the decimal form of the number they read as. */
  lemma OneThen(one: string, s: string)
    requires one != [] && one[0] != '0' && Digits(one) && Val(one) == 1 && Digits(s)
    ensures Itoa(Pow10(|s|) + Val(s)) == one + s
  {
    hide Val, Itoa, Pow10;
    ValConcat(one, s);
    ItoaOfVal(one + s);
  }

  lemma PrefixShares(a: string, b: string, s: string, replicas: int)
    requires s != [] && Digits(s) && b == s + a && Pow10(|s|) + Val(s) < replicas
    ensures 1 < replicas && SameName(a, b, Pow10(|s|) + Val(s), 1)
  {
    hide Val, Itoa, Pow10, Digits, SameName;
    var one := Numeral(s);
    var i := Pow10(|s|) + Val(s);
    Behind(a, b, s, one, i, 1);
  }

  lemma Numeral(s: string) returns (one: string)
    requires s != [] && Digits(s)
    ensures Itoa(1) == one && Itoa(Pow10(|s|) + Val(s)) == one + s && Pow10(|s|) >= 10
  {
    hide Val, Itoa, Pow10;
    one := One();
    OneThen(one, s);
    TenAtLeast(|s|);
  }

  lemma TenAtLeast(k: nat)
    requires k > 0
    ensures Pow10(k) >= 10
  {
  }

  lemma Behind(a: string, b: string, s: string, head: string, i: nat, j: nat)
    requires Itoa(j) == head && Itoa(i) == head + s && b == s + a
    ensures SameName(a, b, i, j)
  {
    hide Itoa;
    assert head + s + a == head + (s + a);
  }

  lemma DifferentLengths(x: string, a: string, y: string, b: string)
    requires x + a == y + b && a != b
    ensures |x| != |y|
  {
    assert (x + a)[|x|..] == a && (y + b)[|y|..] == b;
  }

  /** Two nodes share a name if and only if one is the other behind digits that few enough replicas make up. */
  lemma ShareNameIff(a: string, b: string, replicas: int)
    requires a != b
    ensures ShareName(a, b, replicas) <==> exists s :: Prefixes(a, b, s, replicas)
  {
    hide Itoa, Val, Pow10;
    if ShareName(a, b, replicas) {
      var i: nat, j: nat :| i < replicas && j < replicas && SameName(a, b, i, j);
      DifferentLengths(Itoa(i), a, Itoa(j), b);
      if |Itoa(i)| > |Itoa(j)| {
        LongerNumeral(a, b, i, j, replicas);
      } else {
        LongerNumeral(b, a, j, i, replicas);
        assert Prefixes(a, b, Itoa(j)[|Itoa(i)|..], replicas);
      }
    }
    if s :| Prefixes(a, b, s, replicas) {
      var i := Pow10(|s|) + Val(s);
      if b == s + a {
        PrefixShares(a, b, s, replicas);
      } else {
        PrefixShares(b, a, s, replicas);
        assert SameName(a, b, 1, i);
      }
    }
  }

  // ----- Collisions -----

  /** The two nodes have a virtual node in common. */
  ghost predicate Collide(hash: HashFunc, a: string, b: string, replicas: int) {
    exists v :: v in Virtual(hash, replicas, a) && v in Virtual(hash, replicas, b)
  }

  function Names(node: string, replicas: int): set<string> {
    set i | 0 <= i < replicas :: Itoa(i) + node
  }

  /** A hash function that tells the first node's names from all others. */
  function Telling(names: set<string>): HashFunc {
    x => if x in names then 0 else 1
  }

  lemma ToldApart(a: string, b: string, replicas: int)
    requires !ShareName(a, b, replicas)
    ensures !Collide(Telling(Names(a, replicas)), a, b, replicas)
  {
    var hash := Telling(Names(a, replicas));
    forall v | v in Virtual(hash, replicas, a) ensures v == 0 {
      var i :| 0 <= i < replicas && v == hash(Itoa(i) + a);
      assert Itoa(i) + a in Names(a, replicas);
    }
    forall v | v in Virtual(hash, replicas, b) ensures v == 1 {
      var j :| 0 <= j < replicas && v == hash(Itoa(j) + b);
      NotNamed(a, b, j, replicas);
    }
  }

  lemma NotNamed(a: string, b: string, j: nat, replicas: int)
    requires !ShareName(a, b, replicas) && j < replicas
    ensures Itoa(j) + b !in Names(a, replicas)
  {
    hide Itoa;
    forall i | 0 <= i < replicas ensures Itoa(i) + a != Itoa(j) + b {
      assert !SameName(a, b, i, j);
    }
  }

  /** Two nodes collide under every hash function if and only if one name is the other behind such digits. */
  lemma AlwaysCollideIff(a: string, b: string, replicas: int)
    requires a != b
    ensures (forall hash :: Collide(hash, a, b, replicas)) <==> exists s :: Prefixes(a, b, s, replicas)
  {
    ShareNameIff(a, b, replicas);
    if ShareName(a, b, replicas) {
      var i: nat, j: nat :| i < replicas && j < replicas && SameName(a, b, i, j);
      forall hash ensures Collide(hash, a, b, replicas) {
        var v := hash(Itoa(i) + a);
        assert v in Virtual(hash, replicas, a) && v in Virtual(hash, replicas, b);
      }
    } else {
      ToldApart(a, b, replicas);
    }
  }

  /** With a "1" in front, twelve replicas are needed and enough. */
  lemma OneInFront(node: string, replicas: int)
    ensures ShareName(node, "1" + node, replicas) <==> replicas >= 12
  {
    assert Digits("1") && Pow10(1) == 10 && Val("1") == 1 by {
      assert "1"[..0] == [];
      assert Pow10(1) == 10 * Pow10(0);
    }
    ShareNameIff(node, "1" + node, replicas);
    if replicas >= 12 {
      assert Prefixes(node, "1" + node, "1", replicas);
    }
    if s :| Prefixes(node, "1" + node, s, replicas) {
      assert "1" + node == s + node;
      assert |s| == 1 && s == ("1" + node)[..1] == "1";
    }
  }
}
