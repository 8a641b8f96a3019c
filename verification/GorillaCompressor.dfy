/** The compressor's two operations, working on a bit writer and a bit reader as the library does. */
module GorillaCompressor {
  import opened BitStream
  import opened Wrappers
  import opened Gorilla
  import opened Sorting

  ghost predicate Ordered(ps: seq<Point>) {
    forall i, j :: 0 <= i < j < |ps| ==> ps[i].timestamp <= ps[j].timestamp
  }

  /** A time-ordered arrangement of the points; which of several with equal times is left to the sort. */
  ghost predicate SortOf(points: seq<Point>, sorted: seq<Point>) {
    Ordered(sorted) && multiset(sorted) == multiset(points)
  }

  lemma SortedIsOrdered(ps: seq<Point>)
    requires SortedBy(ps, (p: Point) => p.timestamp as real)
    ensures Ordered(ps)
  {
    forall i, j | 0 <= i < j < |ps| ensures ps[i].timestamp <= ps[j].timestamp {
      assert ps[i].timestamp as real <= ps[j].timestamp as real;
    }
  }

  method WriteDelta(writer: BitWriter, d: Int64)
    requires writer.Valid()
    modifies writer
    ensures writer.Valid() && writer.Bits() == old(writer.Bits()) + EncodeDelta(WRITTEN_TAGS, d)
  {
    hide BitWriter.Valid, BitWriter.Bits, ToBits;
    if d == 0 {
      writer.WriteBit(false);
    } else if -63 <= d <= 64 {
      WriteTagged(writer, 2, 2, d + 63, 7);
    } else if -255 <= d <= 256 {
      WriteTagged(writer, 6, 3, d + 255, 9);
    } else if -2047 <= d <= 2048 {
      WriteTagged(writer, 14, 4, d + 2047, 12);
    } else {
      WriteTagged(writer, 15, 4, d % 0x1_0000_0000_0000_0000, 64);
    }
  }

  /** Two `writeBits` calls: a control code, then a number. */
  method WriteTagged(writer: BitWriter, tag: nat, tagBits: nat, v: nat, bits: nat)
    requires writer.Valid() && tagBits <= 64 && bits <= 64
    modifies writer
    ensures writer.Valid() && writer.Bits() == old(writer.Bits()) + (ToBits(tag, tagBits) + ToBits(v, bits))
  {
    hide BitWriter.Valid, BitWriter.Bits, ToBits;
    ToBitsPrefix(tag, tagBits, 64);
    ToBitsPrefix(v, bits, 64);
    writer.WriteBits(ToBits(tag, 64), tagBits);
    writer.WriteBits(ToBits(v, 64), bits);
    Assoc(old(writer.Bits()), ToBits(tag, tagBits), ToBits(v, bits));
  }

  /** Shifting the trailing zeros out leaves the significant bits in front. */
  lemma CoreShifted(x: Word)
    requires x != Zeros(64)
    ensures Leading(x) + Trailing(x) < 64
    ensures (x[Trailing(x)..] + Zeros(Trailing(x)))[..Significant(x)] == Core(x)
  {
    NonZero(x);
    hide Leading, Trailing;
  }

  method WriteXor(writer: BitWriter, x: Word)
    requires writer.Valid()
    modifies writer
    ensures writer.Valid() && writer.Bits() == old(writer.Bits()) + EncodeXor(x)
  {
    hide BitWriter.Valid, BitWriter.Bits, ToBits, Leading, Trailing;
    if x == Zeros(64) {
      writer.WriteBit(false);
      return;
    }
    CoreShifted(x);
    var leading, trailing := Leading(x), Trailing(x);
    var significant, shifted := Significant(x), x[trailing..] + Zeros(trailing);
    hide Significant, Core;
    ghost var before := writer.Bits();
    writer.WriteBit(true);
    if significant <= 5 {
      writer.WriteBit(false);
      assert writer.Bits() == before + [true, false];
      WriteShort(writer, significant, shifted);
      Assoc(before, [true, false], ToBits(significant - 1, 3) + Core(x));
      Assoc([true, false], ToBits(significant - 1, 3), Core(x));
    } else {
      writer.WriteBit(true);
      assert writer.Bits() == before + [true, true];
      WriteLong(writer, leading, significant, shifted);
      Assoc(before, [true, true], ToBits(leading, 6) + ToBits(significant, 6) + Core(x));
      Assoc([true, true], ToBits(leading, 6) + ToBits(significant, 6), Core(x));
      Assoc([true, true], ToBits(leading, 6), ToBits(significant, 6));
    }
  }

  method WriteShort(writer: BitWriter, significant: nat, shifted: Word)
    requires writer.Valid() && 1 <= significant <= 64
    modifies writer
    ensures writer.Valid()
    ensures writer.Bits() == old(writer.Bits()) + (ToBits(significant - 1, 3) + shifted[..significant])
  {
    hide BitWriter.Valid, BitWriter.Bits, ToBits;
    ToBitsPrefix(significant - 1, 3, 64);
    writer.WriteBits(ToBits(significant - 1, 64), 3);
    writer.WriteBits(shifted, significant);
    Assoc(old(writer.Bits()), ToBits(significant - 1, 3), shifted[..significant]);
  }

  method WriteLong(writer: BitWriter, leading: nat, significant: nat, shifted: Word)
    requires writer.Valid() && significant <= 64
    modifies writer
    ensures writer.Valid()
    ensures writer.Bits() == old(writer.Bits()) + (ToBits(leading, 6) + ToBits(significant, 6) + shifted[..significant])
  {
    hide BitWriter.Valid, BitWriter.Bits, ToBits;
    WriteTagged(writer, leading, 6, significant, 6);
    writer.WriteBits(shifted, significant);
    Assoc(old(writer.Bits()), ToBits(leading, 6) + ToBits(significant, 6), shifted[..significant]);
  }

  method Compress(points: seq<Point>) returns (r: Result<seq<bv8>>, ghost sorted: seq<Point>)
    ensures points == [] <==> r == Err(1)
    ensures SortOf(points, sorted)
    ensures points != [] ==> sorted != [] && r.Ok? && Packs(r.value, Encode(WRITTEN_TAGS, sorted))
    ensures points != [] ==> |r.value| >= 20 && LittleEndian(r.value[0..4]) == |points| % 0x1_0000_0000
  {
    var ps := SortBy(points, (p: Point) => p.timestamp as real);
    assert Ordered(ps) by { SortedIsOrdered(ps); }
    sorted := ps;
    if points == [] {
      return Err(1), ps;
    }
    assert |multiset(ps)| == |multiset(points)|;
    var writer := new BitWriter();
    hide BitWriter.Valid, BitWriter.Bits, ToBits, SortOf, Bits64, Packs;
    WriteHeader(writer, ps);
    var st := First(ps[0]);
    hide Header, EncodeXor, EncodeDelta, DeltaOfDelta, Xor, EncodeRest;
    for i := 1 to |ps|
      invariant writer.Valid()
      invariant writer.Bits() + EncodeRest(WRITTEN_TAGS, st, ps[i..]) == Encode(WRITTEN_TAGS, ps)
    {
      ghost var before := writer.Bits();
      WritePoint(writer, st, ps[i]);
      EncodeRestCons(st, ps[i..]);
      assert ps[i..][1..] == ps[i + 1..];
      Assoc(before, EncodePoint(WRITTEN_TAGS, st, ps[i]),
            EncodeRest(WRITTEN_TAGS, Next(st, ps[i]), ps[i + 1..]));
      st := Next(st, ps[i]);
    }
    EncodeRestNil(st, ps[|ps|..]);
    assert writer.Bits() + [] == writer.Bits();
    FirstBytes(WRITTEN_TAGS, ps, writer.buffer);
    return Ok(writer.buffer), ps;
  }

  lemma EncodeRestCons(st: State, ps: seq<Point>)
    requires ps != []
    ensures EncodeRest(WRITTEN_TAGS, st, ps) ==
            EncodePoint(WRITTEN_TAGS, st, ps[0]) + EncodeRest(WRITTEN_TAGS, Next(st, ps[0]), ps[1..])
  {
  }

  lemma EncodeRestNil(st: State, ps: seq<Point>)
    requires ps == []
    ensures EncodeRest(WRITTEN_TAGS, st, ps) == []
  {
  }

  method WriteHeader(writer: BitWriter, ps: seq<Point>)
    requires writer.Valid() && writer.Bits() == [] && ps != []
    modifies writer
    ensures writer.Valid() && writer.Bits() == Header(ps)
  {
    hide BitWriter.Valid, BitWriter.Bits, ToBits, Bits64;
    ToBitsPrefix(|ps|, 32, 64);
    writer.WriteBits(ToBits(|ps|, 64), 32);
    writer.WriteBits(Bits64(ps[0].timestamp), 64);
    writer.WriteBits(ps[0].value, 64);
    assert Bits64(ps[0].timestamp)[..64] == Bits64(ps[0].timestamp);
    assert ps[0].value[..64] == ps[0].value;
    assert [] + ToBits(|ps|, 32) == ToBits(|ps|, 32);
  }

  /** The body of the loop: one point after the first. */
  method WritePoint(writer: BitWriter, st: State, p: Point)
    requires writer.Valid()
    modifies writer
    ensures writer.Valid() && writer.Bits() == old(writer.Bits()) + EncodePoint(WRITTEN_TAGS, st, p)
  {
    hide BitWriter.Valid, BitWriter.Bits, EncodeDelta, EncodeXor, DeltaOfDelta, Xor;
    var dod, x := DeltaOfDelta(st, p), Xor(p.value, st.value);
    WriteDelta(writer, dod);
    WriteXor(writer, x);
    Assoc(old(writer.Bits()), EncodeDelta(WRITTEN_TAGS, dod), EncodeXor(x));
  }

  lemma {:induction false} ReadTagStep(s: seq<bool>, limit: nat)
    ensures limit == 0 ==> ReadTag(s, limit) == Read(0, s)
    ensures limit > 0 && !Bit(s) ==> ReadTag(s, limit) == Read(0, Drop(s, 1))
    ensures limit > 0 && Bit(s) ==>
              var r := ReadTag(Drop(s, 1), limit - 1); ReadTag(s, limit) == Read(r.value + 1, r.rest)
  {
  }

  method ReadDelta(reader: BitReader) returns (d: Int64)
    requires reader.Valid()
    modifies reader`position
    ensures reader.Valid() && Read(d, reader.Remaining()) == DecodeDelta(old(reader.Remaining()))
  {
    hide BitReader.Valid, BitReader.Remaining, ReadTag, Drop, Take, FromBits, Wrap;
    ghost var s := reader.Remaining();
    ReadTagStep(s, 4);
    ReadTagStep(Drop(s, 1), 3);
    ReadTagStep(Drop(Drop(s, 1), 1), 2);
    ReadTagStep(Drop(Drop(Drop(s, 1), 1), 1), 1);
    ReadTagStep(Drop(Drop(Drop(Drop(s, 1), 1), 1), 1), 0);
    var b0 := reader.ReadBit();
    if !b0 {
      return 0;
    }
    var b1 := reader.ReadBit();
    if !b1 {
      var w := reader.ReadBits(7);
      return Wrap(FromBits(w) - 63);
    }
    var b2 := reader.ReadBit();
    if !b2 {
      var w := reader.ReadBits(9);
      return Wrap(FromBits(w) - 255);
    }
    var b3 := reader.ReadBit();
    if !b3 {
      var w := reader.ReadBits(12);
      return Wrap(FromBits(w) - 2047);
    }
    var w := reader.ReadBits(64);
    return Wrap(FromBits(w));
  }

  method ReadXor(reader: BitReader) returns (x: Word)
    requires reader.Valid()
    modifies reader`position
    ensures reader.Valid() && Read(x, reader.Remaining()) == DecodeXor(old(reader.Remaining()))
  {
    hide BitReader.Valid, BitReader.Remaining, Drop, DecodeShortForm, DecodeLongForm;
    var b0 := reader.ReadBit();
    if !b0 {
      return Zeros(64);
    }
    var b1 := reader.ReadBit();
    if !b1 {
      x := ReadShort(reader);
    } else {
      x := ReadLong(reader);
    }
  }

  method ReadShort(reader: BitReader) returns (x: Word)
    requires reader.Valid()
    modifies reader`position
    ensures reader.Valid() && Read(x, reader.Remaining()) == DecodeShortForm(old(reader.Remaining()))
  {
    assert Pow2(3) == 8;
    hide BitReader.Valid, BitReader.Remaining, Drop, Take, FromBits, Pow2;
    TakeBound(reader.Remaining(), 3);
    var w := reader.ReadBits(3);
    x := reader.ReadBits(FromBits(w) + 1);
  }

  lemma {:induction false} LongFormIs(b: seq<bool>, leading: int, significant: int, c: seq<bool>)
    requires leading == FromBits(Take(b, 6)) && significant == FromBits(Take(Drop(b, 6), 6)) < 64
    requires c == Drop(Drop(b, 6), 6)
    ensures DecodeLongForm(b) ==
            Read(ShiftLeft(Take(c, significant), 64 - leading - significant), Drop(c, significant))
  {
    hide FromBits, Take, Drop, ShiftLeft;
  }

  method ReadLong(reader: BitReader) returns (x: Word)
    requires reader.Valid()
    modifies reader`position
    ensures reader.Valid() && Read(x, reader.Remaining()) == DecodeLongForm(old(reader.Remaining()))
  {
    assert Pow2(6) == 64;
    hide BitReader.Valid, BitReader.Remaining, Drop, Take, FromBits, ShiftLeft, Pow2, DecodeLongForm;
    ghost var b := reader.Remaining();
    var lead := reader.ReadBits(6);
    var leading: int := FromBits(lead);
    TakeBound(reader.Remaining(), 6);
    var width := reader.ReadBits(6);
    var significant: int := FromBits(width);
    LongFormIs(b, leading, significant, reader.Remaining());
    var raw := reader.ReadBits(significant);
    return ShiftLeft(raw, 64 - leading - significant);
  }

  method Decompress(data: seq<bv8>) returns (r: Result<seq<Point>>)
    ensures r == Decode(data)
    ensures r == Err(1) <==> data == []
    ensures |data| >= 4 ==>
              var count := LittleEndian(data[0..4]); r.Ok? && |r.value| == if count == 0 then 1 else count
  {
    DecodeLength(data);
    if data == [] {
      return Err(1);
    }
    hide LittleEndian;
    var reader := new BitReader(data);
    hide BitReader.Valid, BitReader.Remaining, Drop, Take, FromBits, Wrap, DecodeRest, DecodeDelta, DecodeXor, Unpack;
    var header := reader.ReadBits(32);
    var count := FromBits(header);
    var timestamp := reader.ReadBits(64);
    var value := reader.ReadBits(64);
    var first := Point(Wrap(FromBits(timestamp)), value);
    var points := ReadRest(reader, count, First(first));
    return Ok([first] + points);
  }

  /** What the codec is for: the points come back, in time order, if and only if they are faithful in that order. */
  method CompressAndBack(points: seq<Point>) returns (back: Result<seq<Point>>, ghost sorted: seq<Point>)
    ensures SortOf(points, sorted)
    ensures points == [] ==> back == Err(1)
    ensures points != [] ==> sorted != [] && (back == Ok(sorted) <==> Faithful(WRITTEN_TAGS, sorted))
  {
    hide Decode, Encode, Faithful, Packs, SortOf;
    var packed: Result<seq<bv8>>;
    packed, sorted := Compress(points);
    if packed.Err? {
      return Err(1), sorted;
    }
    RoundTrip(WRITTEN_TAGS, sorted, packed.value);
    back := Decompress(packed.value);
  }

  /** The loop: `hasMore` counts the points read, the first included. */
  method ReadRest(reader: BitReader, count: nat, start: State) returns (points: seq<Point>)
    requires reader.Valid()
    modifies reader`position
    ensures points == DecodeRest(old(reader.Remaining()), if count == 0 then 0 else count - 1, start)
  {
    hide BitReader.Valid, BitReader.Remaining, DecodeDelta, DecodeXor, DecodeRest, Assemble, Next;
    ghost var more := if count == 0 then 0 else count - 1;
    var st, read := start, 1;
    points := [];
    while read < count
      invariant reader.Valid() && 1 <= read <= more + 1
      invariant points + DecodeRest(reader.Remaining(), more + 1 - read, st) ==
                DecodeRest(old(reader.Remaining()), more, start)
    {
      ghost var s := reader.Remaining();
      DecodeRestCons(s, more + 1 - read, st);
      var d := ReadDelta(reader);
      var x := ReadXor(reader);
      var p := Assemble(st, d, x);
      assert DecodePoint(s, st) == Read(p, reader.Remaining());
      ghost var rest := DecodeRest(reader.Remaining(), more - read, Next(st, p));
      assert points + [p] + rest == points + ([p] + rest);
      points := points + [p];
      st := Next(st, p);
      read := read + 1;
    }
    assert |DecodeRest(reader.Remaining(), more + 1 - read, st)| == 0;
    assert points + [] == points;
  }

  lemma {:induction false} DecodeRestCons(s: seq<bool>, n: nat, st: State)
    requires n > 0
    ensures var p := DecodePoint(s, st);
            DecodeRest(s, n, st) == [p.value] + DecodeRest(p.rest, n - 1, Next(st, p.value))
  {
    hide DecodePoint;
  }
}
