/**
 Bit-level writing and reading. A 64-bit word is the sequence of its bits, least
 significant first, which is also the order in which they go on the stream.
 */
module BitStream {
  import Modular

  type Word = w: seq<bool> | |w| == 64 witness Zeros(64)

  function Zeros(n: nat): (r: seq<bool>) {
    seq(n, _ => false)
  }

  function Pow2(n: nat): (r: nat)
    ensures r >= 1
  {
    if n == 0 then 1 else 2 * Pow2(n - 1)
  }

  /** The `n` lowest bits of a number. */
  function ToBits(v: nat, n: nat): (r: seq<bool>)
    ensures |r| == n
    decreases n, v
  {
    if n == 0 then [] else [v % 2 == 1] + ToBits(v / 2, n - 1)
  }

  function FromBits(b: seq<bool>): (v: nat) {
    if b == [] then 0 else (if b[0] then 1 else 0) + 2 * FromBits(b[1..])
  }

  /** The first `n` bits of a stream, a missing bit read as 0, as a word. */
  function Take(s: seq<bool>, n: nat): (w: Word)
    requires n <= 64
  {
    if n <= |s| then s[..n] + Zeros(64 - n) else s + Zeros(64 - |s|)
  }

  function Drop(s: seq<bool>, n: nat): (r: seq<bool>) {
    if n <= |s| then s[n..] else []
  }

  // ----- Numbers and bits -----

  lemma {:induction false} FromBitsBound(b: seq<bool>)
    ensures FromBits(b) < Pow2(|b|)
  {
    if b != [] { FromBitsBound(b[1..]); }
  }

  lemma {:induction false} FromBitsPadded(b: seq<bool>, n: nat)
    ensures FromBits(b + Zeros(n)) == FromBits(b)
    decreases |b| + n
  {
    if b != [] {
      FromBitsPadded(b[1..], n);
      assert (b + Zeros(n))[1..] == b[1..] + Zeros(n);
    } else if n > 0 {
      FromBitsPadded([], n - 1);
      assert (b + Zeros(n))[1..] == [] + Zeros(n - 1);
    }
  }

  lemma {:induction false} Pow2Monotone(m: nat, n: nat)
    requires m <= n
    ensures Pow2(m) <= Pow2(n)
    decreases n
  {
    if m < n { Pow2Monotone(m, n - 1); }
  }

  lemma {:induction false} TakeBound(s: seq<bool>, n: nat)
    requires n <= 64
    ensures FromBits(Take(s, n)) < Pow2(n)
  {
    var b := if n <= |s| then s[..n] else s;
    FromBitsPadded(b, 64 - |b|);
    FromBitsBound(b);
    Pow2Monotone(|b|, n);
  }

  /** A number that fits its width comes back from its bits. */
  lemma {:induction false} FromToBits(v: nat, n: nat)
    requires v < Pow2(n)
    ensures FromBits(ToBits(v, n)) == v
    decreases n
  {
    if n > 0 { FromToBits(v / 2, n - 1); }
  }

  /** The low bits do not depend on how many more are taken. */
  lemma {:induction false} ToBitsPrefix(v: nat, m: nat, n: nat)
    requires m <= n
    ensures ToBits(v, n)[..m] == ToBits(v, m)
    decreases m
  {
    if m > 0 {
      ToBitsPrefix(v / 2, m - 1, n - 1);
      assert ToBits(v, n)[..m] == [v % 2 == 1] + ToBits(v / 2, n - 1)[..m - 1];
    }
  }

  /** Cutting a word to its low bits is taking the number modulo a power of two. */
  lemma {:induction false} LowBitsAreRemainder(b: seq<bool>, n: nat)
    requires n <= |b|
    ensures FromBits(b[..n]) == FromBits(b) % Pow2(n)
    decreases n
  {
    if n > 0 {
      LowBitsAreRemainder(b[1..], n - 1);
      assert b[..n][1..] == b[1..][..n - 1];
      var x, d, p := FromBits(b[1..]), if b[0] then 1 else 0, Pow2(n - 1);
      DoubledRemainder(x, d, p);
    }
  }

  lemma DoubledRemainder(x: nat, d: nat, p: nat)
    requires p >= 1 && d < 2
    ensures (d + 2 * x) % (2 * p) == d + 2 * (x % p)
  {
    var q, r := x / p, x % p;
    assert x == p * q + r;
    assert d + 2 * x == (2 * p) * q + (d + 2 * r);
    Modular.DivModUnique(d + 2 * x, 2 * p, q, d + 2 * r);
  }

  // ----- Bytes -----

  /** The bit `1 << i` of a byte. */
  function Mask(i: nat): bv8
    requires i < 8
  {
    [1, 2, 4, 8, 16, 32, 64, 128][i]
  }

  function BitOf(b: bv8, i: nat): bool
    requires i < 8
  {
    b & Mask(i) != 0
  }

  function Unpack(bytes: seq<bv8>): (r: seq<bool>)
    ensures |r| == 8 * |bytes|
  {
    seq(8 * |bytes|, i requires 0 <= i < 8 * |bytes| => BitOf(bytes[i / 8], i % 8))
  }

  /** The bytes hold exactly these bits, in as few bytes as possible, the rest of the last byte 0. */
  ghost predicate Packs(bytes: seq<bv8>, bits: seq<bool>) {
    |bytes| == (|bits| + 7) / 8 && Unpack(bytes) == bits + Zeros(8 * |bytes| - |bits|)
  }

  /** Every bit from `p` on is 0. */
  ghost predicate Blank(bytes: seq<bv8>, p: nat) {
    forall i :: p <= i < 8 * |bytes| ==> !Unpack(bytes)[i]
  }

  lemma SetBit(b: bv8, i: nat, j: nat)
    requires i < 8 && j < 8
    ensures BitOf(b | Mask(i), j) == (i == j || BitOf(b, j))
  {
  }

  lemma ClearByte(j: nat)
    requires j < 8
    ensures !BitOf(0, j)
  {
  }

  // ----- Bytes as numbers -----

  /** The number some bytes stand for, the first weighing least. */
  function LittleEndian(bytes: seq<bv8>): nat {
    if bytes == [] then 0 else bytes[0] as int + 256 * LittleEndian(bytes[1..])
  }

  function Weight(bit: bool, w: nat): nat {
    if bit then w else 0
  }

  /** The number the bits from `i` on make. */
  function NumberFrom(x: seq<bool>, i: nat): nat
    requires i <= |x|
  {
    FromBits(x[i..])
  }

  lemma NumberEnds(x: seq<bool>)
    ensures NumberFrom(x, 0) == FromBits(x) && NumberFrom(x, |x|) == 0
  {
    assert x[0..] == x && x[|x|..] == [];
  }

  lemma NumberAt(x: seq<bool>, i: nat)
    requires i < |x|
    ensures NumberFrom(x, i) == Weight(x[i], 1) + 2 * NumberFrom(x, i + 1)
  {
    assert x[i..][1..] == x[i + 1..];
  }

  lemma WeightAt(x: seq<bool>, i: nat, w: nat)
    requires i < |x|
    ensures w * NumberFrom(x, i) == Weight(x[i], w) + 2 * w * NumberFrom(x, i + 1)
  {
    NumberAt(x, i);
    Twice(w, NumberFrom(x, i + 1));
    hide NumberFrom;
  }

  lemma EightBits(x: seq<bool>)
    requires |x| == 8
    ensures FromBits(x) == Weight(x[0], 1) + Weight(x[1], 2) + Weight(x[2], 4) + Weight(x[3], 8) +
                           Weight(x[4], 16) + Weight(x[5], 32) + Weight(x[6], 64) + Weight(x[7], 128)
  {
    NumberEnds(x);
    hide NumberFrom, FromBits, Weight;
    WeightAt(x, 0, 1);
    WeightAt(x, 1, 2);
    WeightAt(x, 2, 4);
    WeightAt(x, 3, 8);
    WeightAt(x, 4, 16);
    WeightAt(x, 5, 32);
    WeightAt(x, 6, 64);
    WeightAt(x, 7, 128);
  }

  lemma ByteBits(b: bv8)
    ensures b as int == Weight(BitOf(b, 0), 1) + Weight(BitOf(b, 1), 2) + Weight(BitOf(b, 2), 4) +
                        Weight(BitOf(b, 3), 8) + Weight(BitOf(b, 4), 16) + Weight(BitOf(b, 5), 32) +
                        Weight(BitOf(b, 6), 64) + Weight(BitOf(b, 7), 128)
  {
  }

  /** A byte is the number its eight bits of the stream make, the first bit weighing 1. */
  lemma ByteIsNumber(bytes: seq<bv8>, j: nat)
    requires j < |bytes|
    ensures bytes[j] as int == FromBits(Unpack(bytes)[8 * j..8 * j + 8])
  {
    var x := Unpack(bytes)[8 * j..8 * j + 8];
    forall i | 0 <= i < 8 ensures x[i] == BitOf(bytes[j], i) {
      Modular.DivModUnique(8 * j + i, 8, j, i);
    }
    hide BitOf, Unpack, FromBits;
    EightBits(x);
    ByteBits(bytes[j]);
  }

  lemma {:induction false} FromBitsConcat(a: seq<bool>, b: seq<bool>)
    ensures FromBits(a + b) == FromBits(a) + Pow2(|a|) * FromBits(b)
  {
    if a == [] {
      assert a + b == b;
    } else {
      assert (a + b)[1..] == a[1..] + b;
      FromBitsConcat(a[1..], b);
      assert Pow2(|a|) == 2 * Pow2(|a| - 1);
      Twice(Pow2(|a| - 1), FromBits(b));
    }
  }

  lemma Twice(p: nat, x: nat)
    ensures 2 * (p * x) == 2 * p * x
  {
  }

  lemma BitInSlice(bytes: seq<bv8>, a: nat, b: nat, i: nat)
    requires a <= b <= |bytes| && i < 8 * (b - a)
    ensures Unpack(bytes[a..b])[i] == Unpack(bytes)[8 * a + i]
  {
    hide BitOf;
    Modular.DivModUnique(8 * a + i, 8, a + i / 8, i % 8);
  }

  lemma UnpackSlice(bytes: seq<bv8>, a: nat, b: nat)
    requires a <= b <= |bytes|
    ensures Unpack(bytes[a..b]) == Unpack(bytes)[8 * a..8 * b]
  {
    forall i | 0 <= i < 8 * (b - a) ensures Unpack(bytes[a..b])[i] == Unpack(bytes)[8 * a..8 * b][i] {
      BitInSlice(bytes, a, b, i);
    }
  }

  lemma FirstByteSlices(bytes: seq<bv8>)
    requires bytes != []
    ensures bytes[0] as int == FromBits(Unpack(bytes)[..8]) && Unpack(bytes)[8..] == Unpack(bytes[1..])
  {
    ByteIsNumber(bytes, 0);
    UnpackSlice(bytes, 1, |bytes|);
    hide Unpack, FromBits;
    assert bytes[1..|bytes|] == bytes[1..];
    assert Unpack(bytes)[0..8] == Unpack(bytes)[..8];
  }

  lemma FirstByteApart(bytes: seq<bv8>)
    requires bytes != []
    ensures FromBits(Unpack(bytes)) == bytes[0] as int + 256 * FromBits(Unpack(bytes[1..]))
  {
    hide Unpack, FromBits, Pow2;
    var s := Unpack(bytes);
    FirstByteSlices(bytes);
    FromBitsConcat(s[..8], s[8..]);
    assert s[..8] + s[8..] == s;
    EightDoublings();
  }

  /** The bits of a stream, lowest first, are the number its bytes make, lowest first. */
  lemma {:induction false} StreamIsNumber(bytes: seq<bv8>)
    ensures FromBits(Unpack(bytes)) == LittleEndian(bytes)
  {
    if bytes != [] {
      hide Unpack, FromBits;
      FirstByteApart(bytes);
      StreamIsNumber(bytes[1..]);
    }
  }

  lemma EightDoublings()
    ensures Pow2(8) == 256
  {
    assert Pow2(4) == 16;
  }

  /** Cut to a width, the bits of a number are its remainder. */
  lemma {:induction false} ToBitsRemainder(v: nat, n: nat)
    ensures FromBits(ToBits(v, n)) == v % Pow2(n)
    decreases n
  {
    if n > 0 {
      ToBitsRemainder(v / 2, n - 1);
      DoubledRemainder(v / 2, v % 2, Pow2(n - 1));
      assert v == v % 2 + 2 * (v / 2);
    }
  }

  class BitWriter {
    var buffer: seq<bv8>
    var position: nat

    ghost predicate Valid()
      reads this
    {
      |buffer| == (position + 7) / 8 && Blank(buffer, position)
    }

    /** The bits written so far. */
    ghost function Bits(): (r: seq<bool>)
      requires Valid()
      reads this
      ensures |r| == position && Packs(buffer, r)
    {
      assert Unpack(buffer) == Unpack(buffer)[..position] + Zeros(8 * |buffer| - position);
      Unpack(buffer)[..position]
    }

    constructor ()
      ensures Valid() && Bits() == []
    {
      buffer, position := [], 0;
    }

    method WriteBit(bit: bool)
      requires Valid()
      modifies this
      ensures Valid() && Bits() == old(Bits()) + [bit]
    {
      WriteOne(buffer, position, bit);
      ghost var before := Bits();
      var bytePos, offset := position / 8, position % 8;
      if bytePos >= |buffer| {
        buffer := buffer + [0];
      }
      if bit {
        buffer := buffer[bytePos := buffer[bytePos] | Mask(offset)];
      }
      assert buffer == Written(old(buffer), position, bit);
      position := position + 1;
      assert Bits() == before + [bit];
    }

    method WriteBits(value: Word, bits: nat)
      requires Valid() && bits <= 64
      modifies this
      ensures Valid() && Bits() == old(Bits()) + value[..bits]
    {
      for i := 0 to bits
        invariant Valid() && Bits() == old(Bits()) + value[..i]
      {
        WriteBit(value[i]);
        assert value[..i + 1] == value[..i] + [value[i]];
      }
    }
  }

  /** A fresh zero byte adds eight zero bits. */
  lemma Grow(bytes: seq<bv8>)
    ensures Unpack(bytes + [0]) == Unpack(bytes) + Zeros(8)
  {
    forall i | 0 <= i < 8 * |bytes| + 8
      ensures Unpack(bytes + [0])[i] == (Unpack(bytes) + Zeros(8))[i]
    {
      ClearByte(i % 8);
    }
  }

  /** Setting one bit of one byte sets that bit of the stream and no other. */
  lemma Mark(bytes: seq<bv8>, p: nat)
    requires p < 8 * |bytes|
    ensures Unpack(bytes[p / 8 := bytes[p / 8] | Mask(p % 8)]) == Unpack(bytes)[p := true]
  {
    var after := bytes[p / 8 := bytes[p / 8] | Mask(p % 8)];
    forall i | 0 <= i < 8 * |bytes|
      ensures Unpack(after)[i] == Unpack(bytes)[p := true][i]
    {
      SetBit(bytes[p / 8], p % 8, i % 8);
      hide BitOf, Mask;
      assert i == p <==> i / 8 == p / 8 && i % 8 == p % 8;
    }
  }

  /** The byte buffer after `writeBit`. */
  function Written(bytes: seq<bv8>, p: nat, bit: bool): seq<bv8>
    requires |bytes| == (p + 7) / 8
  {
    var grown := if p / 8 >= |bytes| then bytes + [0] else bytes;
    if bit then grown[p / 8 := grown[p / 8] | Mask(p % 8)] else grown
  }

  lemma GrowAsNeeded(bytes: seq<bv8>, p: nat)
    requires |bytes| == (p + 7) / 8 && Blank(bytes, p)
    ensures var g := Written(bytes, p, false);
            |g| == (p + 8) / 8 && Blank(g, p) && Unpack(g)[..p] == Unpack(bytes)[..p]
  {
    Grow(bytes);
  }

  lemma WriteOne(bytes: seq<bv8>, p: nat, bit: bool)
    requires |bytes| == (p + 7) / 8 && Blank(bytes, p)
    ensures var w := Written(bytes, p, bit);
            |w| == (p + 8) / 8 && Blank(w, p + 1) && Unpack(w)[..p + 1] == Unpack(bytes)[..p] + [bit]
  {
    GrowAsNeeded(bytes, p);
    var g := Written(bytes, p, false);
    if bit { Mark(g, p); }
    var u := Unpack(g)[p := bit];
    assert Unpack(Written(bytes, p, bit)) == u;
    assert u[..p + 1] == u[..p] + [bit] && u[..p] == Unpack(g)[..p];
  }

  lemma TakeNone(s: seq<bool>)
    ensures Take(s, 0) == Zeros(64) && Drop(s, 0) == s
  {
  }

  /** One more bit read. */
  lemma TakeStep(s: seq<bool>, i: nat)
    requires i < 64
    ensures var rest := Drop(s, i);
            && Drop(rest, 1) == Drop(s, i + 1)
            && Take(s, i + 1) == if rest != [] && rest[0] then Take(s, i)[i := true] else Take(s, i)
  {
  }

  class BitReader {
    const buffer: seq<bv8>
    var position: nat

    ghost predicate Valid()
      reads this
    {
      position <= 8 * |buffer|
    }

    /** The bits not read yet. */
    ghost function Remaining(): (r: seq<bool>)
      requires Valid()
      reads this
    {
      Unpack(buffer)[position..]
    }

    constructor (data: seq<bv8>)
      ensures Valid() && buffer == data && Remaining() == Unpack(data)
    {
      buffer, position := data, 0;
    }

    method ReadBit() returns (bit: bool)
      requires Valid()
      modifies this`position
      ensures Valid() && Remaining() == Drop(old(Remaining()), 1)
      ensures bit == (old(Remaining()) != [] && old(Remaining())[0])
    {
      if position / 8 >= |buffer| {
        return false;
      }
      bit := BitOf(buffer[position / 8], position % 8);
      position := position + 1;
    }

    method ReadBits(bits: nat) returns (value: Word)
      requires Valid() && bits <= 64
      modifies this`position
      ensures Valid() && Remaining() == Drop(old(Remaining()), bits)
      ensures value == Take(old(Remaining()), bits)
    {
      value := Zeros(64);
      TakeNone(Remaining());
      hide Take, Drop;
      for i := 0 to bits
        invariant Valid() && Remaining() == Drop(old(Remaining()), i)
        invariant value == Take(old(Remaining()), i)
      {
        TakeStep(old(Remaining()), i);
        var bit := ReadBit();
        if bit {
          value := value[i := true];
        }
      }
    }
  }

  // ----- Writing, then reading -----

  datatype Write = Write(value: Word, bits: nat)

  ghost predicate Widths(ops: seq<Write>) {
    forall i :: 0 <= i < |ops| ==> ops[i].bits <= 64
  }

  /** The stream a list of `writeBits` calls produces. */
  function WriteAll(ops: seq<Write>): (r: seq<bool>)
    requires forall i :: 0 <= i < |ops| ==> ops[i].bits <= 64
  {
    if ops == [] then [] else ops[0].value[..ops[0].bits] + WriteAll(ops[1..])
  }

  /** The numbers that `readBits` calls of the same widths return. */
  function ReadAll(s: seq<bool>, ops: seq<Write>): (r: seq<nat>)
    requires forall i :: 0 <= i < |ops| ==> ops[i].bits <= 64
    decreases |ops|
  {
    if ops == [] then [] else [FromBits(Take(s, ops[0].bits))] + ReadAll(Drop(s, ops[0].bits), ops[1..])
  }

  /** Taking back what was written at the front of a stream. */
  lemma {:induction false} TakeWritten(b: seq<bool>, rest: seq<bool>)
    requires |b| <= 64
    ensures Take(b + rest, |b|) == b + Zeros(64 - |b|)
    ensures FromBits(Take(b + rest, |b|)) == FromBits(b)
    ensures Drop(b + rest, |b|) == rest
  {
    var s, z := b + rest, Zeros(64 - |b|);
    assert s[..|b|] == b && s[|b|..] == rest;
    FromBitsPadded(b, |z|);
  }

  /** Whatever follows on the stream, each value comes back modulo two to its width. */
  lemma {:induction false} ReadsBack(ops: seq<Write>, rest: seq<bool>)
    requires Widths(ops)
    ensures ReadAll(WriteAll(ops) + rest, ops) ==
            seq(|ops|, i requires 0 <= i < |ops| => FromBits(ops[i].value) % Pow2(ops[i].bits))
  {
    if ops != [] {
      var b, tail := ops[0].value[..ops[0].bits], WriteAll(ops[1..]);
      assert WriteAll(ops) + rest == b + (tail + rest);
      TakeWritten(b, tail + rest);
      LowBitsAreRemainder(ops[0].value, ops[0].bits);
      ReadsBack(ops[1..], rest);
    }
  }

  /** The packed bytes of any writes give every value back; their number is the bit count over 8, rounded up. */
  lemma PackedWritesReadBack(ops: seq<Write>, bytes: seq<bv8>)
    requires Widths(ops) && Packs(bytes, WriteAll(ops))
    ensures |bytes| == (|WriteAll(ops)| + 7) / 8
    ensures ReadAll(Unpack(bytes), ops) ==
            seq(|ops|, i requires 0 <= i < |ops| => FromBits(ops[i].value) % Pow2(ops[i].bits))
  {
    ReadsBack(ops, Zeros(8 * |bytes| - |WriteAll(ops)|));
  }
}
