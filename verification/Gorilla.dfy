/**
 The Gorilla time-series codec: delta-of-delta timestamps and XOR-ed values on a bit
 stream. Signed 64-bit arithmetic is two's complement and wraps; a value is the 64 bits
 of its `double`.
 */
module Gorilla {
  import opened BitStream
  import opened Wrappers


  datatype Point = Point(timestamp: Int64, value: Word)

  datatype Result<+T> = Ok(value: T) | Err(status: int)

  /** A decoded item and the rest of the stream. */
  datatype Read<+T> = Read(value: T, rest: seq<bool>)

  /** What both sides remember of the previous point. */
  datatype State = State(timestamp: Int64, delta: Int64, value: Word)

  /** An integer cut to 64 bits and read as signed. */
  function Wrap(x: int): Int64 {
    (x + 0x8000_0000_0000_0000) % 0x1_0000_0000_0000_0000 - 0x8000_0000_0000_0000
  }

  /** The 64 bits of an integer, as the cast to `uint64_t` yields them. */
  function Bits64(x: int): Word {
    ToBits(x % 0x1_0000_0000_0000_0000, 64)
  }

  // ----- Timestamps -----

  /** The control codes of the four non-zero ranges, in the order their bits go on the stream. */
  datatype Tags = Tags(t7: seq<bool>, t9: seq<bool>, t12: seq<bool>, t64: seq<bool>)

  /** The codes 10, 110, 1110 and 1111 as `compress` writes them: least significant bit first. */
  const WRITTEN_TAGS := Tags(ToBits(2, 2), ToBits(6, 3), ToBits(14, 4), ToBits(15, 4))

  /** The codes in the order `decompress` tests for them. */
  const READING_TAGS := Tags(Unary(1) + [false], Unary(2) + [false], Unary(3) + [false], Unary(4))

  function Unary(n: nat): seq<bool> {
    seq(n, _ => true)
  }

  function EncodeDelta(tags: Tags, d: Int64): (r: seq<bool>) {
    if d == 0 then [false]
    else if -63 <= d <= 64 then tags.t7 + ToBits(d + 63, 7)
    else if -255 <= d <= 256 then tags.t9 + ToBits(d + 255, 9)
    else if -2047 <= d <= 2048 then tags.t12 + ToBits(d + 2047, 12)
    else tags.t64 + Bits64(d)
  }

  /** `readBit` on the rest of a stream. */
  function Bit(s: seq<bool>): bool {
    s != [] && s[0]
  }

  /** How many of at most `limit` control bits are 1 before the first 0, which is consumed too. */
  function ReadTag(s: seq<bool>, limit: nat): (r: Read<nat>)
    decreases |s|
  {
    if limit == 0 then Read(0, s)
    else if !Bit(s) then Read(0, Drop(s, 1))
    else
      var r := ReadTag(Drop(s, 1), limit - 1);
      Read(r.value + 1, r.rest)
  }

  /** The payload behind a control code of `ones` ones. */
  function DecodePayload(ones: nat, b: seq<bool>): (r: Read<Int64>) {
    match ones
    case 0 => Read(0, b)
    case 1 => Read(Wrap(FromBits(Take(b, 7)) - 63), Drop(b, 7))
    case 2 => Read(Wrap(FromBits(Take(b, 9)) - 255), Drop(b, 9))
    case 3 => Read(Wrap(FromBits(Take(b, 12)) - 2047), Drop(b, 12))
    case _ => Read(Wrap(FromBits(Take(b, 64))), Drop(b, 64))
  }

  function DecodeDelta(s: seq<bool>): (r: Read<Int64>) {
    var t := ReadTag(s, 4);
    DecodePayload(t.value, t.rest)
  }

  // ----- Values -----

  function Xor(a: Word, b: Word): (r: Word) {
    seq(64, i requires 0 <= i < 64 => a[i] != b[i])
  }

  /** Trailing zeros: false bits at the least significant end. */
  function Trailing(b: seq<bool>): (n: nat)
    ensures n <= |b|
  {
    if b == [] || b[0] then 0 else 1 + Trailing(b[1..])
  }

  /** Leading zeros: false bits at the most significant end. */
  function Leading(b: seq<bool>): (n: nat)
    ensures n <= |b|
  {
    if b == [] || b[|b| - 1] then 0 else 1 + Leading(b[..|b| - 1])
  }

  /** A left shift; the count is taken modulo 64, as the machine does where the language leaves it open. */
  function ShiftLeft(w: Word, k: int): (r: Word) {
    Zeros(k % 64) + w[..64 - k % 64]
  }

  function Significant(x: Word): int {
    64 - Leading(x) - Trailing(x)
  }

  /** The significant bits of a non-zero word. */
  function Core(x: Word): (r: seq<bool>)
    requires x != Zeros(64)
    ensures |r| == Significant(x) > 0
  {
    NonZero(x);
    x[Trailing(x)..64 - Leading(x)]
  }

  function EncodeXor(x: Word): (r: seq<bool>) {
    if x == Zeros(64) then [false]
    else
      var core := Core(x);
      if |core| <= 5 then [true, false] + ToBits(|core| - 1, 3) + core
      else [true, true] + ToBits(Leading(x), 6) + ToBits(|core|, 6) + core
  }

  function DecodeShortForm(b: seq<bool>): (r: Read<Word>) {
    TakeBound(b, 3);
    var significant := FromBits(Take(b, 3)) + 1;
    Read(Take(Drop(b, 3), significant), Drop(Drop(b, 3), significant))
  }

  function DecodeLongForm(b: seq<bool>): (r: Read<Word>) {
    TakeBound(Drop(b, 6), 6);
    var leading, significant, c := FromBits(Take(b, 6)), FromBits(Take(Drop(b, 6), 6)), Drop(Drop(b, 6), 6);
    Read(ShiftLeft(Take(c, significant), 64 - leading - significant), Drop(c, significant))
  }

  function DecodeXor(s: seq<bool>): (r: Read<Word>) {
    if !Bit(s) then Read(Zeros(64), Drop(s, 1)) else
    var s1 := Drop(s, 1);
    if !Bit(s1) then DecodeShortForm(Drop(s1, 1)) else DecodeLongForm(Drop(s1, 1))
  }

  // ----- Points -----

  function Next(st: State, p: Point): State {
    State(p.timestamp, Wrap(p.timestamp - st.timestamp), p.value)
  }

  function DeltaOfDelta(st: State, p: Point): Int64 {
    Wrap(Wrap(p.timestamp - st.timestamp) - st.delta)
  }

  function EncodePoint(tags: Tags, st: State, p: Point): (r: seq<bool>) {
    EncodeDelta(tags, DeltaOfDelta(st, p)) + EncodeXor(Xor(p.value, st.value))
  }

  function EncodeRest(tags: Tags, st: State, ps: seq<Point>): (r: seq<bool>)
    decreases |ps|
  {
    if ps == [] then []
    else EncodePoint(tags, st, ps[0]) + EncodeRest(tags, Next(st, ps[0]), ps[1..])
  }

  function Assemble(st: State, d: Int64, x: Word): Point {
    Point(Wrap(st.timestamp + Wrap(st.delta + d)), Xor(st.value, x))
  }

  function DecodePoint(s: seq<bool>, st: State): (r: Read<Point>) {
    var d := DecodeDelta(s);
    var x := DecodeXor(d.rest);
    Read(Assemble(st, d.value, x.value), x.rest)
  }

  function DecodeRest(s: seq<bool>, n: nat, st: State): (r: seq<Point>)
    ensures |r| == n
    decreases n
  {
    if n == 0 then []
    else
      var p := DecodePoint(s, st);
      [p.value] + DecodeRest(p.rest, n - 1, Next(st, p.value))
  }

  /** The stream for a non-empty list of points already in time order. */
  function Encode(tags: Tags, ps: seq<Point>): (r: seq<bool>)
    requires ps != []
  {
    Header(ps) + EncodeRest(tags, First(ps[0]), ps[1..])
  }

  /** The count and the first point, stored in full. */
  function Header(ps: seq<Point>): (r: seq<bool>)
    requires ps != []
  {
    ToBits(|ps|, 32) + Bits64(ps[0].timestamp) + ps[0].value
  }

  function First(p: Point): State {
    State(p.timestamp, 0, p.value)
  }

  function Decode(bytes: seq<bv8>): (r: Result<seq<Point>>) {
    if bytes == [] then Err(1)
    else
      var s := Unpack(bytes);
      var count, s1 := FromBits(Take(s, 32)), Drop(s, 32);
      var first := Point(Wrap(FromBits(Take(s1, 64))), Take(Drop(s1, 64), 64));
      var more := if count == 0 then 0 else count - 1;
      Ok([first] + DecodeRest(Drop(Drop(s1, 64), 64), more, First(first)))
  }

  /** How many points a stream is read as: its first four bytes, lowest first, but never none. */
  lemma DecodeLength(bytes: seq<bv8>)
    ensures Decode(bytes) == Err(1) <==> bytes == []
    ensures |bytes| >= 4 ==>
              var count := LittleEndian(bytes[0..4]);
              Decode(bytes).Ok? && |Decode(bytes).value| == if count == 0 then 1 else count
  {
    if |bytes| >= 4 {
      var s := Unpack(bytes);
      UnpackSlice(bytes, 0, 4);
      StreamIsNumber(bytes[0..4]);
      TakeWritten(s[0..32], s[32..]);
      assert s == s[0..32] + s[32..];
      hide Unpack, FromBits, Take, Drop, LittleEndian, Wrap, Zeros;
    }
  }

  lemma Fields(a: seq<bool>, b: seq<bool>, c: seq<bool>, d: seq<bool>)
    requires |a| == 32 && |b| == |c| == 64
    ensures var s := a + b + c + d; s[0..32] == a && s[32..96] == b && s[96..160] == c
  {
  }

  lemma {:induction false} HeaderBits(tags: Tags, ps: seq<Point>, bytes: seq<bv8>)
    requires ps != [] && Packs(bytes, Encode(tags, ps))
    ensures |bytes| >= 20
    ensures var s := Unpack(bytes);
            s[0..32] == ToBits(|ps|, 32) && s[32..96] == Bits64(ps[0].timestamp) && s[96..160] == ps[0].value
  {
    hide EncodeRest, First, ToBits, Bits64, Unpack, Zeros;
    var more, blank := EncodeRest(tags, First(ps[0]), ps[1..]), Zeros(8 * |bytes| - |Encode(tags, ps)|);
    Assoc(Header(ps), more, blank);
    Fields(ToBits(|ps|, 32), Bits64(ps[0].timestamp), ps[0].value, more + blank);
  }

  lemma FieldNumber(bytes: seq<bv8>, a: nat, b: nat, bits: seq<bool>)
    requires a <= b <= |bytes| && Unpack(bytes)[8 * a..8 * b] == bits
    ensures LittleEndian(bytes[a..b]) == FromBits(bits)
  {
    hide Unpack, FromBits, LittleEndian;
    UnpackSlice(bytes, a, b);
    StreamIsNumber(bytes[a..b]);
  }

  /** What the bytes of a list begin with: its length, the first time and the first value, lowest bytes first. */
  lemma {:induction false} FirstBytes(tags: Tags, ps: seq<Point>, bytes: seq<bv8>)
    requires ps != [] && Packs(bytes, Encode(tags, ps))
    ensures |bytes| >= 20
    ensures LittleEndian(bytes[0..4]) == |ps| % 0x1_0000_0000
    ensures LittleEndian(bytes[4..12]) == ps[0].timestamp % 0x1_0000_0000_0000_0000
    ensures LittleEndian(bytes[12..20]) == FromBits(ps[0].value)
  {
    hide Packs, Encode, Unpack, FromBits, ToBits, LittleEndian;
    HeaderBits(tags, ps, bytes);
    FieldNumber(bytes, 0, 4, ToBits(|ps|, 32));
    FieldNumber(bytes, 4, 12, Bits64(ps[0].timestamp));
    FieldNumber(bytes, 12, 20, ps[0].value);
    SixtyFour();
    ToBitsRemainder(|ps|, 32);
    ToBitsRemainder(ps[0].timestamp % 0x1_0000_0000_0000_0000, 64);
  }

  // ----- The shape of a non-zero word -----

  lemma {:induction false} TrailingShape(b: seq<bool>)
    ensures Trailing(b) < |b| ==> b[Trailing(b)]
    ensures forall i :: 0 <= i < Trailing(b) ==> !b[i]
  {
    if b != [] && !b[0] {
      TrailingShape(b[1..]);
      forall i | 0 <= i < Trailing(b) ensures !b[i] {
        if i > 0 { assert b[i] == b[1..][i - 1]; }
      }
    }
  }

  lemma {:induction false} LeadingShape(b: seq<bool>)
    ensures Leading(b) < |b| ==> b[|b| - 1 - Leading(b)]
    ensures forall i :: |b| - Leading(b) <= i < |b| ==> !b[i]
  {
    if b != [] && !b[|b| - 1] {
      LeadingShape(b[..|b| - 1]);
    }
  }

  lemma NonZero(x: Word)
    requires x != Zeros(64)
    ensures Trailing(x) + Leading(x) < 64
    ensures x == Zeros(Trailing(x)) + x[Trailing(x)..64 - Leading(x)] + Zeros(Leading(x))
    ensures x[Trailing(x)] && x[63 - Leading(x)]
  {
    hide Trailing, Leading, Zeros;
    var i := SomeBit(x);
    TrailingShape(x);
    LeadingShape(x);
    Framed(x, Trailing(x), Leading(x));
  }

  lemma SomeBit(x: Word) returns (i: nat)
    requires x != Zeros(64)
    ensures i < 64 && x[i]
  {
    i :| 0 <= i < 64 && x[i] != Zeros(64)[i];
  }

  lemma Framed(x: Word, t: nat, l: nat)
    requires t + l <= 64
    requires forall i :: 0 <= i < t ==> !x[i]
    requires forall i :: 64 - l <= i < 64 ==> !x[i]
    ensures x == Zeros(t) + x[t..64 - l] + Zeros(l)
  {
  }

  // ----- Which codes come back -----

  /** The deltas of deltas whose code the reader understands: no change, or the 64-bit form. */
  predicate FaithfulDelta(d: Int64) {
    d == 0 || d < -2047 || d > 2048
  }

  /** The XORs whose code carries them whole. */
  predicate FaithfulXor(x: Word) {
    || x == Zeros(64)
    || (Significant(x) <= 5 && Trailing(x) == 0)
    || 6 <= Significant(x) <= 63
  }

  lemma {:induction false} WrapInRange(x: Int64)
    ensures Wrap(x) == x && Wrap(x % 0x1_0000_0000_0000_0000) == x
  {
  }

  lemma {:induction false} WrapSum(x: int, y: int)
    ensures Wrap(x + Wrap(y)) == Wrap(x + y)
  {
  }

  lemma {:induction false} SixtyFour()
    ensures Pow2(32) == 0x1_0000_0000 && Pow2(64) == 0x1_0000_0000_0000_0000
  {
    assert Pow2(8) == 256;
    hide Pow2;
    Pow2Double(8, 256);
    Pow2Double(16, 0x1_0000);
    Pow2Double(32, 0x1_0000_0000);
  }

  lemma {:induction false} Pow2Double(n: nat, v: nat)
    requires Pow2(n) == v
    ensures Pow2(2 * n) == v * v
  {
    Pow2Add(n, n);
  }

  lemma {:induction false} Pow2Add(m: nat, n: nat)
    ensures Pow2(m + n) == Pow2(m) * Pow2(n)
    decreases m
  {
    if m > 0 { Pow2Add(m - 1, n); }
  }

  lemma {:induction false} TakeBits64(x: Int64, rest: seq<bool>)
    ensures Wrap(FromBits(Take(Bits64(x) + rest, 64))) == x
    ensures Drop(Bits64(x) + rest, 64) == rest
  {
    TakeWritten(Bits64(x), rest);
    SixtyFour();
    FromToBits(x % 0x1_0000_0000_0000_0000, 64);
    WrapInRange(x);
  }

  /** A number written in `n` bits is read back, and the stream goes on after it. */
  lemma {:induction false} TakeNumber(v: nat, n: nat, rest: seq<bool>)
    requires n <= 64 && v < Pow2(n)
    ensures FromBits(Take(ToBits(v, n) + rest, n)) == v
    ensures Drop(ToBits(v, n) + rest, n) == rest
  {
    TakeWritten(ToBits(v, n), rest);
    FromToBits(v, n);
  }

  lemma {:induction false} ReadTagOne(s: seq<bool>, limit: nat)
    ensures ReadTag([true] + s, limit + 1) == Read(ReadTag(s, limit).value + 1, ReadTag(s, limit).rest)
    ensures ReadTag([false] + s, limit + 1) == Read(0, s)
  {
    assert Drop([true] + s, 1) == s == Drop([false] + s, 1);
  }

  function TagOf(tags: Tags, ones: nat): seq<bool> {
    match ones case 1 => tags.t7 case 2 => tags.t9 case 3 => tags.t12 case _ => tags.t64
  }

  lemma {:induction false} ReadUnary(ones: nat, limit: nat, s: seq<bool>)
    requires ones <= limit
    ensures ReadTag(Unary(ones) + s, limit) ==
            Read(ones + ReadTag(s, limit - ones).value, ReadTag(s, limit - ones).rest)
    decreases ones
  {
    if ones == 0 {
      assert Unary(0) + s == s;
    } else {
      assert Unary(ones) == [true] + Unary(ones - 1);
      hide ReadTag, Unary;
      Assoc([true], Unary(ones - 1), s);
      ReadUnary(ones - 1, limit - 1, s);
      ReadTagOne(Unary(ones - 1) + s, limit - 1);
    }
  }

  lemma {:induction false} ReadTagOf(ones: nat, b: seq<bool>)
    requires 1 <= ones <= 4
    ensures ReadTag(TagOf(READING_TAGS, ones) + b, 4) == Read(ones, b)
  {
    if ones < 4 {
      ReadUnary(ones, 4, [false] + b);
      ReadTagOne(b, 3 - ones);
      hide ReadTag, Unary;
      Assoc(Unary(ones), [false], b);
    } else {
      ReadUnary(4, 4, b);
    }
  }

  lemma Assoc(a: seq<bool>, b: seq<bool>, c: seq<bool>)
    ensures a + b + c == a + (b + c)
  {
  }

  /** How many ones the code of a delta of delta has in reading order. */
  function Ones(d: Int64): nat {
    if d == 0 then 0 else if -63 <= d <= 64 then 1 else if -255 <= d <= 256 then 2
    else if -2047 <= d <= 2048 then 3 else 4
  }

  function Payload(d: Int64): seq<bool> {
    match Ones(d)
    case 0 => []
    case 1 => ToBits(d + 63, 7)
    case 2 => ToBits(d + 255, 9)
    case 3 => ToBits(d + 2047, 12)
    case _ => Bits64(d)
  }

  lemma {:induction false} PayloadRoundTrip(d: Int64, rest: seq<bool>)
    ensures DecodePayload(Ones(d), Payload(d) + rest) == Read(d, rest)
  {
    WrapInRange(d);
    hide FromBits, ToBits, Take, Drop, Wrap, Bits64;
    match Ones(d)
    case 0 => assert [] + rest == rest;
    case 1 => TakeNumber(d + 63, 7, rest);
    case 2 => TakeNumber(d + 255, 9, rest);
    case 3 => TakeNumber(d + 2047, 12, rest);
    case _ => TakeBits64(d, rest);
  }

  /** The control code of a non-zero delta of delta, then its payload. */
  lemma {:induction false} EncodeIsTagged(tags: Tags, d: Int64)
    requires d != 0
    ensures EncodeDelta(tags, d) == TagOf(tags, Ones(d)) + Payload(d)
  {
    hide ToBits, Bits64;
  }

  lemma {:induction false} TagBack(d: Int64, rest: seq<bool>)
    requires d != 0
    ensures ReadTag(EncodeDelta(READING_TAGS, d) + rest, 4) == Read(Ones(d), Payload(d) + rest)
  {
    EncodeIsTagged(READING_TAGS, d);
    hide EncodeDelta, Payload, ReadTag, TagOf;
    ReadTagOf(Ones(d), Payload(d) + rest);
    Assoc(TagOf(READING_TAGS, Ones(d)), Payload(d), rest);
  }

  /** With the codes emitted in the order they are read, every delta of delta comes back. */
  lemma {:induction false} ReadingTagsRoundTrip(d: Int64, rest: seq<bool>)
    ensures DecodeDelta(EncodeDelta(READING_TAGS, d) + rest) == Read(d, rest)
  {
    var s, b := EncodeDelta(READING_TAGS, d) + rest, Payload(d) + rest;
    if d == 0 {
      assert [] + rest == rest == Drop([false] + rest, 1);
    } else {
      EncodeIsTagged(READING_TAGS, d);
      TagBack(d, rest);
    }
    hide ReadTag, DecodePayload, Payload, EncodeDelta;
    PayloadRoundTrip(d, rest);
  }

  /** The written codes 10, 110 and 1110 all start with a 0, so the reader stops there and sees "no change". */
  lemma {:induction false} DeltaRoundTrip(d: Int64, rest: seq<bool>)
    ensures var r := DecodeDelta(EncodeDelta(WRITTEN_TAGS, d) + rest);
            if FaithfulDelta(d) then r == Read(d, rest) else r.value != d
  {
    if FaithfulDelta(d) {
      assert WRITTEN_TAGS.t64 == READING_TAGS.t64;
      ReadingTagsRoundTrip(d, rest);
    } else {
      assert !Bit(EncodeDelta(WRITTEN_TAGS, d) + rest);
    }
  }

  lemma {:induction false} ShortForm(x: Word, rest: seq<bool>)
    requires x != Zeros(64) && Significant(x) <= 5
    ensures EncodeXor(x) + rest == [true, false] + (ToBits(|Core(x)| - 1, 3) + (Core(x) + rest))
  {
    hide ToBits, Leading, Trailing;
    Regroup([], [true, false], ToBits(|Core(x)| - 1, 3), Core(x), rest);
  }

  lemma {:induction false} DecodeShort(width: nat, c: seq<bool>)
    requires 1 <= width <= 8
    ensures DecodeXor([true, false] + (ToBits(width - 1, 3) + c)) == Read(Take(c, width), Drop(c, width))
  {
    hide ToBits, FromBits, Take;
    var b := ToBits(width - 1, 3) + c;
    assert Drop(Drop([true, false] + b, 1), 1) == b;
    TakeNumber(width - 1, 3, c);
  }

  /** The short form forgets the trailing zeros. */
  lemma {:induction false} ShortXor(x: Word, rest: seq<bool>)
    requires x != Zeros(64) && Significant(x) <= 5
    ensures var r := DecodeXor(EncodeXor(x) + rest);
            r == Read(Core(x) + Zeros(64 - |Core(x)|), rest)
  {
    ShortForm(x, rest);
    hide EncodeXor, DecodeXor, ToBits, FromBits, Take, Leading, Trailing;
    DecodeShort(|Core(x)|, Core(x) + rest);
    TakeWritten(Core(x), rest);
  }

  lemma {:induction false} DecodeLong(lead: nat, width: nat, c: seq<bool>)
    requires lead < 64 && width < 64
    ensures DecodeXor([true, true] + (ToBits(lead, 6) + (ToBits(width, 6) + c))) ==
            Read(ShiftLeft(Take(c, width), 64 - lead - width), Drop(c, width))
  {
    hide ToBits, FromBits, Take, ShiftLeft;
    var b := ToBits(lead, 6) + (ToBits(width, 6) + c);
    assert Drop(Drop([true, true] + b, 1), 1) == b;
    TakeNumber(lead, 6, ToBits(width, 6) + c);
    TakeNumber(width, 6, c);
  }

  lemma {:induction false} SixBits()
    ensures ToBits(64, 6) == ToBits(0, 6)
  {
    assert ToBits(64, 6) == [false, false, false, false, false, false];
    assert ToBits(0, 6) == [false, false, false, false, false, false];
  }

  lemma Regroup(a: seq<bool>, b: seq<bool>, c: seq<bool>, d: seq<bool>, e: seq<bool>)
    ensures a + b + c + d + e == a + (b + (c + (d + e)))
  {
    assert a + b + c + d + e == a + b + c + (d + e);
    assert a + b + c + (d + e) == a + b + (c + (d + e));
    assert a + b + (c + (d + e)) == a + (b + (c + (d + e)));
  }

  lemma {:induction false} LongForm(x: Word, rest: seq<bool>)
    requires x != Zeros(64) && Significant(x) > 5
    ensures EncodeXor(x) + rest ==
            [true, true] + (ToBits(Leading(x), 6) + (ToBits(|Core(x)|, 6) + (Core(x) + rest)))
  {
    hide ToBits;
    Regroup([true, true], ToBits(Leading(x), 6), ToBits(|Core(x)|, 6), Core(x), rest);
  }

  lemma {:induction false} NarrowXor(x: Word, rest: seq<bool>)
    requires x != Zeros(64) && 5 < Significant(x) < 64
    ensures DecodeXor(EncodeXor(x) + rest) == Read(x, rest)
  {
    hide ToBits, FromBits, Take, Drop, EncodeXor, DecodeXor, ShiftLeft;
    var core, lead := Core(x), Leading(x);
    var c := core + rest;
    LongForm(x, rest);
    DecodeLong(lead, |core|, c);
    assert ShiftLeft(Take(c, |core|), 64 - lead - |core|) == x && Drop(c, |core|) == rest by {
      TakeWritten(core, rest);
      Shifted(x);
    }
  }

  /** A width of 64 does not fit its 6 bits and is read as 0. */
  lemma {:induction false} FullXor(x: Word, rest: seq<bool>)
    requires x != Zeros(64) && Significant(x) == 64
    ensures DecodeXor(EncodeXor(x) + rest).value == Zeros(64)
  {
    hide ToBits, FromBits, EncodeXor, DecodeXor;
    LongForm(x, rest);
    SixBits();
    var c := Core(x) + rest;
    DecodeLong(0, 0, c);
    assert c[..0] + Zeros(64) == Zeros(64);
    assert Zeros(0) + Zeros(64)[..64] == Zeros(64);
  }

  lemma ShiftCore(core: seq<bool>, t: nat, lead: nat)
    requires t + |core| + lead == 64 && t < 64
    ensures ShiftLeft(core + Zeros(64 - |core|), t) == Zeros(t) + core + Zeros(lead)
  {
    var w := core + Zeros(64 - |core|);
    assert w[..64 - t] == core + Zeros(lead);
  }

  lemma {:induction false} Shifted(x: Word)
    requires x != Zeros(64) && Significant(x) < 64
    ensures ShiftLeft(Core(x) + Zeros(64 - |Core(x)|), Trailing(x)) == x
  {
    hide Trailing, Leading, ShiftLeft, Zeros;
    NonZero(x);
    ShiftCore(Core(x), Trailing(x), Leading(x));
  }

  lemma {:induction false} XorRoundTrip(x: Word, rest: seq<bool>)
    ensures var r := DecodeXor(EncodeXor(x) + rest);
            if FaithfulXor(x) then r == Read(x, rest) else r.value != x
  {
    hide DecodeXor, EncodeXor, Core, Trailing, Leading;
    if x == Zeros(64) {
      ZeroXor(rest);
    } else if Significant(x) <= 5 {
      ShortXor(x, rest);
      ShortCore(x);
    } else if Significant(x) < 64 {
      NarrowXor(x, rest);
    } else {
      NonZero(x);
      FullXor(x, rest);
    }
  }

  lemma ZeroXor(rest: seq<bool>)
    ensures DecodeXor(EncodeXor(Zeros(64)) + rest) == Read(Zeros(64), rest)
  {
    assert Drop(EncodeXor(Zeros(64)) + rest, 1) == rest;
  }

  /** The significant bits alone are the word exactly if it has no trailing zero. */
  lemma ShortCore(x: Word)
    requires x != Zeros(64)
    ensures Core(x) + Zeros(64 - |Core(x)|) == x <==> Trailing(x) == 0
  {
    NonZero(x);
    hide Trailing, Leading;
    var c := Core(x);
    if Trailing(x) == 0 {
      assert Zeros(0) + c == c;
    } else {
      assert c[0] && !x[0];
    }
  }

  // ----- What is encoded -----

  /** A non-zero delta of deltas takes the first form whose payload can hold it. */
  lemma ShortestForm(d: Int64)
    ensures var size := |EncodeDelta(WRITTEN_TAGS, d)|;
            if d == 0 then EncodeDelta(WRITTEN_TAGS, d) == [false]
            else if 0 <= d + 63 < 128 then size == 2 + 7
            else if 0 <= d + 255 < 512 then size == 3 + 9
            else if 0 <= d + 2047 < 4096 then size == 4 + 12
            else size == 4 + 64
  {
  }

  lemma WrapDifference(x: int, y: int)
    ensures Wrap(Wrap(x) - Wrap(y)) == Wrap(x - y)
  {
  }

  lemma SecondDifference(st: State, p: Point, q: Point)
    ensures DeltaOfDelta(Next(st, p), q) == Wrap(q.timestamp - 2 * p.timestamp + st.timestamp)
    ensures DeltaOfDelta(First(p), q) == Wrap(q.timestamp - p.timestamp)
  {
    WrapInRange(0);
    hide Wrap;
    var a, b := q.timestamp - p.timestamp, p.timestamp - st.timestamp;
    WrapDifference(a, b);
    WrapDifference(a, 0);
    assert a - b == q.timestamp - 2 * p.timestamp + st.timestamp;
  }

  /** A point is coded by the second difference of its time and by how its value differs from the one before. */
  lemma PointCode(tags: Tags, st: State, p: Point, q: Point)
    ensures EncodePoint(tags, Next(st, p), q) ==
            EncodeDelta(tags, Wrap(q.timestamp - 2 * p.timestamp + st.timestamp)) + EncodeXor(Xor(q.value, p.value))
    ensures EncodePoint(tags, First(p), q) ==
            EncodeDelta(tags, Wrap(q.timestamp - p.timestamp)) + EncodeXor(Xor(q.value, p.value))
  {
    hide Wrap, EncodeDelta, EncodeXor, Xor, DeltaOfDelta;
    SecondDifference(st, p, q);
  }

  lemma XorZero(a: Word, b: Word)
    ensures Xor(a, b) == Zeros(64) <==> a == b
  {
    if Xor(a, b) == Zeros(64) {
      forall i | 0 <= i < 64 ensures a[i] == b[i] {
        assert Xor(a, b)[i] == Zeros(64)[i];
      }
    }
  }

  /** A value is coded by a single 0 exactly if it is the one before. */
  lemma UnchangedValue(a: Word, b: Word)
    ensures EncodeXor(Xor(a, b)) == [false] <==> a == b
  {
    hide Xor, Core, Leading, Trailing, ToBits;
    XorZero(a, b);
  }

  // ----- The round trip -----

  /** The timestamp code of `d` survives: always in reading order, else on the faithful fragment. */
  predicate DeltaSurvives(tags: Tags, d: Int64) {
    tags == READING_TAGS || FaithfulDelta(d)
  }

  predicate Survives(tags: Tags, st: State, p: Point) {
    DeltaSurvives(tags, DeltaOfDelta(st, p)) && FaithfulXor(Xor(p.value, st.value))
  }

  predicate AllSurvive(tags: Tags, st: State, ps: seq<Point>)
    decreases |ps|
  {
    ps == [] || (Survives(tags, st, ps[0]) && AllSurvive(tags, Next(st, ps[0]), ps[1..]))
  }

  /** The point lists the codec brings back. */
  predicate Faithful(tags: Tags, ps: seq<Point>)
    requires ps != []
  {
    |ps| < 0x1_0000_0000 && AllSurvive(tags, First(ps[0]), ps[1..])
  }

  lemma WrapInjective(a: int, x: Int64, y: Int64)
    ensures Wrap(a + x) == Wrap(a + y) <==> x == y
  {
  }

  /** The reader's timestamp is right exactly when its delta of delta is. */
  lemma TimestampDetermined(st: State, p: Point, d: Int64)
    ensures Wrap(st.timestamp + Wrap(st.delta + d)) == p.timestamp <==> d == DeltaOfDelta(st, p)
  {
    hide Wrap;
    var delta := Wrap(p.timestamp - st.timestamp);
    var right := DeltaOfDelta(st, p);
    WrapSum(st.delta, delta - st.delta);
    WrapInRange(delta);
    WrapSum(st.timestamp, p.timestamp - st.timestamp);
    WrapInRange(p.timestamp);
    WrapInjective(st.timestamp, Wrap(st.delta + d), Wrap(st.delta + right));
    WrapInjective(st.delta, d, right);
  }

  lemma ValueDetermined(a: Word, b: Word, x: Word)
    ensures Xor(a, x) == b <==> x == Xor(b, a)
  {
    if Xor(a, x) == b {
      assert forall i :: 0 <= i < 64 ==> Xor(a, x)[i] == b[i];
      assert forall i :: 0 <= i < 64 ==> x[i] == Xor(b, a)[i];
    }
    if x == Xor(b, a) {
      assert forall i :: 0 <= i < 64 ==> Xor(a, x)[i] == b[i];
    }
  }

  lemma {:induction false} DeltaBack(tags: Tags, d: Int64, rest: seq<bool>)
    requires tags == WRITTEN_TAGS || tags == READING_TAGS
    ensures var r := DecodeDelta(EncodeDelta(tags, d) + rest);
            if DeltaSurvives(tags, d) then r == Read(d, rest) else r.value != d
  {
    DeltaRoundTrip(d, rest);
    ReadingTagsRoundTrip(d, rest);
  }

  lemma AssembleDetermined(st: State, p: Point, d: Int64, x: Word)
    ensures Assemble(st, d, x) == p <==> d == DeltaOfDelta(st, p) && x == Xor(p.value, st.value)
  {
    hide Wrap, Xor, DeltaOfDelta;
    TimestampDetermined(st, p, d);
    ValueDetermined(st.value, p.value, x);
  }

  lemma {:induction false} PointRoundTrip(tags: Tags, st: State, p: Point, rest: seq<bool>)
    requires tags == WRITTEN_TAGS || tags == READING_TAGS
    ensures var r := DecodePoint(EncodePoint(tags, st, p) + rest, st);
            if Survives(tags, st, p) then r == Read(p, rest) else r.value != p
  {
    hide DecodeDelta, DecodeXor, EncodeDelta, EncodeXor, DeltaOfDelta, Xor, DeltaSurvives, FaithfulXor, Assemble;
    var dod, x := DeltaOfDelta(st, p), Xor(p.value, st.value);
    var s, s1 := EncodePoint(tags, st, p) + rest, EncodeXor(x) + rest;
    Assoc(EncodeDelta(tags, dod), EncodeXor(x), rest);
    DeltaBack(tags, dod, s1);
    XorRoundTrip(x, rest);
    AssembleDetermined(st, p, DecodeDelta(s).value, DecodeXor(DecodeDelta(s).rest).value);
  }

  lemma {:induction false} RestRoundTrip(tags: Tags, st: State, ps: seq<Point>, rest: seq<bool>)
    requires tags == WRITTEN_TAGS || tags == READING_TAGS
    ensures DecodeRest(EncodeRest(tags, st, ps) + rest, |ps|, st) == ps <==> AllSurvive(tags, st, ps)
    decreases |ps|
  {
    hide EncodePoint, DecodePoint, Survives, Next;
    if ps != [] {
      var more := EncodeRest(tags, Next(st, ps[0]), ps[1..]);
      Assoc(EncodePoint(tags, st, ps[0]), more, rest);
      PointRoundTrip(tags, st, ps[0], more + rest);
      RestRoundTrip(tags, Next(st, ps[0]), ps[1..], rest);
      DecodeRestStep(EncodeRest(tags, st, ps) + rest, |ps|, st);
      hide DecodeRest, EncodeRest;
      assert ps == [ps[0]] + ps[1..];
      var p := DecodePoint(EncodePoint(tags, st, ps[0]) + (more + rest), st);
      SameHeads(p.value, DecodeRest(p.rest, |ps| - 1, Next(st, p.value)), ps[0], ps[1..]);
    }
  }

  lemma DecodeRestStep(s: seq<bool>, n: nat, st: State)
    requires n > 0
    ensures var p := DecodePoint(s, st);
            DecodeRest(s, n, st) == [p.value] + DecodeRest(p.rest, n - 1, Next(st, p.value))
  {
    hide DecodePoint, Next;
  }

  lemma SameHeads(a: Point, s: seq<Point>, b: Point, t: seq<Point>)
    ensures [a] + s == [b] + t <==> a == b && s == t
  {
    if [a] + s == [b] + t {
      assert a == ([a] + s)[0] == b && s == ([a] + s)[1..] == t;
    }
  }

  /** What the reader finds in the header of an encoded list. */
  lemma {:induction false} HeaderBack(ps: seq<Point>, tail: seq<bool>)
    requires ps != []
    ensures var s := Header(ps) + tail;
            && |Header(ps)| == 160
            && (|ps| < 0x1_0000_0000 ==> FromBits(Take(s, 32)) == |ps|)
            && FromBits(Take(s, 32)) < 0x1_0000_0000
            && Wrap(FromBits(Take(Drop(s, 32), 64))) == ps[0].timestamp
            && Take(Drop(Drop(s, 32), 64), 64) == ps[0].value
            && Drop(Drop(Drop(s, 32), 64), 64) == tail
  {
    var ts, v := Bits64(ps[0].timestamp), ps[0].value;
    assert Header(ps) + tail == ToBits(|ps|, 32) + (ts + (v + tail));
    SixtyFour();
    TakeBound(Header(ps) + tail, 32);
    TakeWritten(ToBits(|ps|, 32), ts + (v + tail));
    if |ps| < 0x1_0000_0000 { FromToBits(|ps|, 32); }
    TakeBits64(ps[0].timestamp, v + tail);
    TakeWritten(v, tail);
    assert v + Zeros(0) == v;
  }

  /**
   Decompressing what was compressed returns the time-ordered points bit for bit if and only
   if the list is faithful. With the tags as they are written that excludes every delta of
   delta in -2047..2048 but 0; in reading order only the value codes and the count restrict it.
   */
  lemma {:induction false} RoundTrip(tags: Tags, ps: seq<Point>, bytes: seq<bv8>)
    requires tags == WRITTEN_TAGS || tags == READING_TAGS
    requires ps != [] && Packs(bytes, Encode(tags, ps))
    ensures Decode(bytes) == Ok(ps) <==> Faithful(tags, ps)
  {
    hide EncodeRest, DecodeRest, AllSurvive, Header, Wrap, FromBits, Take, Drop;
    var st, pad := First(ps[0]), Zeros(8 * |bytes| - |Encode(tags, ps)|);
    var tail := EncodeRest(tags, st, ps[1..]) + pad;
    assert Unpack(bytes) == Header(ps) + tail;
    HeaderBack(ps, tail);
    RestRoundTrip(tags, st, ps[1..], pad);
    var count := FromBits(Take(Unpack(bytes), 32));
    var more := if count == 0 then 0 else count - 1;
    assert Decode(bytes) == Ok([ps[0]] + DecodeRest(tail, more, st));
    assert ps == [ps[0]] + ps[1..];
    assert |DecodeRest(tail, more, st)| == more;
    assert |ps| < 0x1_0000_0000 ==> more == |ps| - 1;
    if Decode(bytes) == Ok(ps) {
      assert ([ps[0]] + DecodeRest(tail, more, st))[1..] == ps[1..];
    }
  }

  /** Points whose first two times are one apart do not come back. */
  lemma {:induction false} SteadySecondsAreLost(ps: seq<Point>, bytes: seq<bv8>)
    requires |ps| >= 2 && ps[1].timestamp == ps[0].timestamp + 1
    requires Packs(bytes, Encode(WRITTEN_TAGS, ps))
    ensures Decode(bytes) != Ok(ps)
  {
    RoundTrip(WRITTEN_TAGS, ps, bytes);
    assert ps[1..][0] == ps[1];
    assert DeltaOfDelta(First(ps[0]), ps[1]) == 1;
    assert !WRITTEN_TAGS.t7[0] && READING_TAGS.t7[0];
  }
}
