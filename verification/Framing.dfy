/**
 The binary framing of messages on a QUIC stream: a header of fifteen bytes, the id, then the
 data. What one end writes, the other reads back, message by message.
 */
module Framing {
  import opened Modular
  import opened Wrappers

  type Byte = x: int | 0 <= x < 256

  datatype Message = Message(kind: Byte, id: seq<Byte>, timestamp: Int64, data: seq<Byte>)

  datatype Error = BadHeader | BadVersion | TooLarge | BadId | BadData

  datatype Result = Ok(message: Message) | Err(error: Error)

  // ----- Numbers as bytes -----

  function Radix(n: nat): (r: nat)
    ensures r > 0
  {
    if n == 0 then 1 else 256 * Radix(n - 1)
  }

  /** The n low bytes of a number, the highest first. */
  function BigEndian(v: nat, n: nat): (r: seq<Byte>)
    ensures |r| == n
    decreases n, v
  {
    if n == 0 then [] else BigEndian(v / 256, n - 1) + [v % 256]
  }

  function Number(s: seq<Byte>): (v: nat)
    ensures v < Radix(|s|)
  {
    if s == [] then 0 else 256 * Number(s[..|s| - 1]) + s[|s| - 1]
  }

  lemma {:induction false} NumberBack(v: nat, n: nat)
    requires v < Radix(n)
    ensures Number(BigEndian(v, n)) == v
    decreases n
  {
    if n > 0 {
      var s := BigEndian(v, n);
      NumberBack(v / 256, n - 1);
      assert s[..n - 1] == BigEndian(v / 256, n - 1);
    }
  }

  lemma {:induction false} BytesBack(s: seq<Byte>)
    ensures BigEndian(Number(s), |s|) == s
    decreases |s|
  {
    if s != [] {
      var front, last := s[..|s| - 1], s[|s| - 1];
      BytesBack(front);
      assert Number(s) / 256 == Number(front) && Number(s) % 256 == last;
      assert s == front + [last];
    }
  }

  /** The first byte weighs most. */
  lemma {:induction false} FirstWeighsMost(b: Byte, s: seq<Byte>)
    ensures Number([b] + s) == b * Radix(|s|) + Number(s)
    decreases |s|
  {
    if s == [] {
      assert [b] + s == [b] && [b][..0] == [];
    } else {
      var front, last := s[..|s| - 1], s[|s| - 1];
      FirstWeighsMost(b, front);
      assert ([b] + s)[..|s|] == [b] + front && ([b] + s)[|s|] == last;
      Scale(b, Radix(|front|));
    }
  }

  lemma Scale(b: nat, p: nat)
    ensures 256 * (b * p) == b * (256 * p)
  {
  }

  /** Byte `i` of a number written in `n` bytes. */
  lemma {:induction false} BigEndianAt(v: nat, n: nat, i: nat)
    requires i < n
    ensures BigEndian(v, n)[i] == v / Radix(n - 1 - i) % 256
    decreases n
  {
    if i < n - 1 {
      BigEndianAt(v / 256, n - 1, i);
      DivDiv(v, 256, Radix(n - 2 - i));
    }
  }

  lemma Radixes()
    ensures Radix(4) == 0x1_0000_0000 && Radix(8) == 0x1_0000_0000_0000_0000
  {
    assert Radix(2) == 0x1_0000;
    assert Radix(4) == 0x1_0000_0000;
    assert Radix(6) == 0x1_0000_0000_0000;
  }

  /** The conversions between signed and unsigned 64-bit numbers keep the bits. */
  function Unsigned(t: Int64): (u: nat)
    ensures u < 0x1_0000_0000_0000_0000
  {
    if t < 0 then t + 0x1_0000_0000_0000_0000 else t
  }

  function Signed(u: nat): (t: Int64)
    requires u < 0x1_0000_0000_0000_0000
    ensures Unsigned(t) == u
  {
    if u < 0x8000_0000_0000_0000 then u else u - 0x1_0000_0000_0000_0000
  }

  // ----- Frames -----

  function Head(kind: Byte, length: nat, timestamp: Int64, idLength: Byte): (h: seq<Byte>)
    ensures |h| == 15
  {
    [1, kind] + BigEndian(length, 4) + BigEndian(Unsigned(timestamp), 8) + [idLength]
  }

  /** What is written for a message; the two lengths are cut to their fields. */
  function Frame(m: Message): seq<Byte> {
    Head(m.kind, |m.data| % 0x1_0000_0000, m.timestamp, |m.id| % 256) + m.id + m.data
  }

  /** What reading once from some bytes gives, and what is left after it. */
  function Read(bytes: seq<Byte>, max: int): (Result, seq<Byte>) {
    if |bytes| < 15 then (Err(BadHeader), []) else ReadBody(bytes[..15], bytes[15..], max)
  }

  function ReadBody(h: seq<Byte>, rest: seq<Byte>, max: int): (Result, seq<Byte>)
    requires |h| == 15
  {
    Radixes();
    var length, idLength := Number(h[2..6]), h[14];
    if h[0] != 1 then (Err(BadVersion), rest)
    else if length > max then (Err(TooLarge), rest)
    else if |rest| < idLength then (Err(BadId), [])
    else
      var body := rest[idLength..];
      if |body| < length then (Err(BadData), [])
      else (Ok(Message(h[1], rest[..idLength], Signed(Number(h[6..14])), body[..length])), body[length..])
  }

  /** The messages whose lengths fit their fields. */
  predicate Fits(m: Message) {
    |m.id| < 256 && |m.data| < 0x1_0000_0000
  }

  lemma HeadFields(kind: Byte, length: nat, timestamp: Int64, idLength: Byte)
    requires length < 0x1_0000_0000
    ensures var h := Head(kind, length, timestamp, idLength);
            && h[0] == 1 && h[1] == kind && h[14] == idLength
            && Number(h[2..6]) == length
            && Number(h[6..14]) == Unsigned(timestamp)
  {
    var h := Head(kind, length, timestamp, idLength);
    Radixes();
    NumberBack(length, 4);
    NumberBack(Unsigned(timestamp), 8);
    hide BigEndian, Number, Radix;
    assert h[2..6] == BigEndian(length, 4);
    assert h[6..14] == BigEndian(Unsigned(timestamp), 8);
  }

  lemma UnsignedIsRemainder(t: Int64)
    ensures Unsigned(t) == t % 0x1_0000_0000_0000_0000
  {
  }

  lemma HeadBytes(kind: Byte, length: nat, timestamp: Int64, idLength: Byte, i: nat)
    ensures i < 4 ==> Head(kind, length, timestamp, idLength)[2 + i] == length / Radix(3 - i) % 256
    ensures i < 8 ==>
              Head(kind, length, timestamp, idLength)[6 + i] ==
              timestamp % 0x1_0000_0000_0000_0000 / Radix(7 - i) % 256
  {
    UnsignedIsRemainder(timestamp);
    hide BigEndian, Radix, Unsigned;
    if i < 4 { BigEndianAt(length, 4, i); }
    if i < 8 { BigEndianAt(Unsigned(timestamp), 8, i); }
  }

  /** The wire format, byte by byte: both numbers with the highest byte first, the time in two's complement. */
  lemma FrameBytes(m: Message, i: nat)
    ensures var f := Frame(m);
            && |f| == 15 + |m.id| + |m.data| && f[0] == 1 && f[1] == m.kind && f[14] == |m.id| % 256
            && (i < 4 ==> f[2 + i] == |m.data| % 0x1_0000_0000 / Radix(3 - i) % 256)
            && (i < 8 ==> f[6 + i] == m.timestamp % 0x1_0000_0000_0000_0000 / Radix(7 - i) % 256)
            && f[15..15 + |m.id|] == m.id && f[15 + |m.id|..] == m.data
  {
    var h := Head(m.kind, |m.data| % 0x1_0000_0000, m.timestamp, |m.id| % 256);
    HeadBytes(m.kind, |m.data| % 0x1_0000_0000, m.timestamp, |m.id| % 256, i);
    assert h[0] == 1 && h[1] == m.kind && h[14] == |m.id| % 256;
    hide Head, Radix;
    assert forall j :: 0 <= j < 15 ==> Frame(m)[j] == h[j];
  }

  lemma SignedBack(t: Int64)
    ensures Signed(Unsigned(t)) == t
  {
  }

  /** A header whose version is 1 is the header of what it says. */
  lemma HeadBack(h: seq<Byte>)
    requires |h| == 15 && h[0] == 1
    ensures Number(h[2..6]) < 0x1_0000_0000 && Number(h[6..14]) < 0x1_0000_0000_0000_0000
    ensures h == Head(h[1], Number(h[2..6]), Signed(Number(h[6..14])), h[14])
  {
    Radixes();
    BytesBack(h[2..6]);
    BytesBack(h[6..14]);
    hide BigEndian, Number, Radix;
    assert h == [h[0], h[1]] + h[2..6] + h[6..14] + [h[14]];
  }

  // ----- Round trips -----

  lemma Split(h: seq<Byte>, id: seq<Byte>, data: seq<Byte>, rest: seq<Byte>)
    requires |h| == 15
    ensures var bytes := h + id + data + rest;
            && bytes[..15] == h && bytes[15..] == id + data + rest
            && (id + data + rest)[..|id|] == id && (id + data + rest)[|id|..] == data + rest
            && (data + rest)[..|data|] == data && (data + rest)[|data|..] == rest
  {
  }

  /** Whatever message is read, its frame is exactly the bytes that were used up. */
  lemma ReadInverts(bytes: seq<Byte>, max: int)
    requires Read(bytes, max).0.Ok?
    ensures var (r, rest) := Read(bytes, max);
            Fits(r.message) && |r.message.data| <= max && bytes == Frame(r.message) + rest
  {
    var h, tail := bytes[..15], bytes[15..];
    HeadBack(h);
    hide Head, Number, Signed;
    Rejoin(bytes, h[14], Number(h[2..6]));
    var m := Read(bytes, max).0.message;
    assert |m.data| % 0x1_0000_0000 == |m.data| && |m.id| % 256 == |m.id|;
    assert Frame(m) == h + m.id + m.data;
  }

  lemma Rejoin(bytes: seq<Byte>, k: nat, n: nat)
    requires 15 + k + n <= |bytes|
    ensures var tail := bytes[15..];
            bytes == bytes[..15] + tail[..k] + tail[k..][..n] + tail[k..][n..]
  {
  }

  /** A frame, followed by anything, is read back just when the lengths fit and the data is within the limit. */
  lemma RoundTrip(m: Message, rest: seq<Byte>, max: int)
    ensures Read(Frame(m) + rest, max) == (Ok(m), rest) <==> Fits(m) && |m.data| <= max
  {
    if Fits(m) {
      FrameRead(m, rest, max);
    } else if Read(Frame(m) + rest, max).0.Ok? {
      ReadInverts(Frame(m) + rest, max);
    }
  }

  lemma FrameRead(m: Message, rest: seq<Byte>, max: int)
    requires Fits(m)
    ensures Read(Frame(m) + rest, max) ==
            if |m.data| <= max then (Ok(m), rest) else (Err(TooLarge), m.id + m.data + rest)
  {
    var h := Head(m.kind, |m.data|, m.timestamp, |m.id|);
    HeadFields(m.kind, |m.data|, m.timestamp, |m.id|);
    SignedBack(m.timestamp);
    hide Head, Number, Unsigned, Signed;
    assert |m.data| % 0x1_0000_0000 == |m.data| && |m.id| % 256 == |m.id|;
    Split(h, m.id, m.data, rest);
    assert Frame(m) + rest == h + m.id + m.data + rest;
  }

  /** Reading a message looks at no byte past its frame. */
  lemma ReadExtends(bytes: seq<Byte>, more: seq<Byte>, max: int)
    requires Read(bytes, max).0.Ok?
    ensures Read(bytes + more, max) == (Read(bytes, max).0, Read(bytes, max).1 + more)
  {
    var (r, rest) := Read(bytes, max);
    ReadInverts(bytes, max);
    hide Read, Frame;
    FrameRead(r.message, rest + more, max);
    Assoc(Frame(r.message), rest, more);
  }

  lemma Assoc(a: seq<Byte>, b: seq<Byte>, c: seq<Byte>)
    ensures (a + b) + c == a + (b + c)
  {
  }

  /** A frame that breaks off is never taken for a message: where it breaks decides the error. */
  lemma Truncated(m: Message, k: nat, max: int)
    requires Fits(m) && k < |Frame(m)|
    ensures Read(Frame(m)[..k], max) ==
            if k < 15 then (Err(BadHeader), [])
            else if |m.data| > max then (Err(TooLarge), Frame(m)[15..k])
            else if k < 15 + |m.id| then (Err(BadId), [])
            else (Err(BadData), [])
  {
    var h := Head(m.kind, |m.data|, m.timestamp, |m.id|);
    HeadFields(m.kind, |m.data|, m.timestamp, |m.id|);
    hide Head, Number, Signed, Unsigned;
    assert |m.data| % 0x1_0000_0000 == |m.data| && |m.id| % 256 == |m.id|;
    var cut := Frame(m)[..k];
    if k >= 15 {
      assert cut[..15] == h && cut[15..] == Frame(m)[15..k];
    }
  }

  /** A frame of another version is refused once its header is read. */
  lemma WrongVersion(bytes: seq<Byte>, max: int)
    requires |bytes| >= 15 && bytes[0] != 1
    ensures Read(bytes, max) == (Err(BadVersion), bytes[15..])
  {
  }

  // ----- Streams -----

  function Frames(ms: seq<Message>): seq<Byte> {
    if ms == [] then [] else Frame(ms[0]) + Frames(ms[1..])
  }

  /** Reading a number of messages, up to the first error. */
  function ReadMany(bytes: seq<Byte>, max: int, n: nat): (seq<Message>, seq<Byte>) {
    if n == 0 then ([], bytes)
    else
      var (r, rest) := Read(bytes, max);
      if r.Err? then ([], rest)
      else
        var (ms, left) := ReadMany(rest, max, n - 1);
        ([r.message] + ms, left)
  }

  predicate Sendable(m: Message, max: int) {
    15 + |m.id| + |m.data| <= max
  }

  /** Messages written one after another are read in order, each once, and nothing else with them. */
  lemma {:induction false} StreamRoundTrip(ms: seq<Message>, rest: seq<Byte>, max: int)
    requires forall i :: 0 <= i < |ms| ==> Fits(ms[i]) && Sendable(ms[i], max)
    ensures ReadMany(Frames(ms) + rest, max, |ms|) == (ms, rest)
    decreases |ms|
  {
    hide Read, Frame;
    if ms == [] {
      assert Frames(ms) + rest == rest;
    } else {
      FrameRead(ms[0], Frames(ms[1..]) + rest, max);
      StreamRoundTrip(ms[1..], rest, max);
      Assoc(Frame(ms[0]), Frames(ms[1..]), rest);
      hide Fits, Sendable;
      assert ms == [ms[0]] + ms[1..];
    }
  }

  /** The reader bounds the data alone, so it accepts frames the writer refuses to send. */
  lemma ReaderIsLaxer(m: Message, rest: seq<Byte>, max: int)
    requires Fits(m)
    ensures !Sendable(m, max) && Read(Frame(m) + rest, max) == (Ok(m), rest) <==>
            |m.data| <= max < 15 + |m.id| + |m.data|
  {
    RoundTrip(m, rest, max);
  }

  /** A stream: the bytes written and not yet read. */
  class Stream {
    var bytes: seq<Byte>

    constructor ()
      ensures bytes == []
    {
      bytes := [];
    }

    method Write(buf: seq<Byte>)
      modifies this
      ensures bytes == old(bytes) + buf
    {
      bytes := bytes + buf;
    }

    /** `io.ReadFull`: a stream that ends early is used up. */
    method ReadFull(n: nat) returns (ok: bool, buf: seq<Byte>)
      modifies this
      ensures ok <==> |old(bytes)| >= n
      ensures ok ==> buf == old(bytes)[..n] && bytes == old(bytes)[n..]
      ensures !ok ==> bytes == []
    {
      ok := |bytes| >= n;
      if ok {
        buf, bytes := bytes[..n], bytes[n..];
      } else {
        buf, bytes := bytes, [];
      }
    }
  }

  method WriteMessage(stream: Stream, m: Message, max: int) returns (ok: bool)
    modifies stream
    ensures ok <==> Sendable(m, max)
    ensures stream.bytes == if ok then old(stream.bytes) + Frame(m) else old(stream.bytes)
  {
    if 15 + |m.id| + |m.data| > max {
      return false;
    }
    var buf: seq<Byte> := [1];
    buf := buf + [m.kind];
    buf := buf + BigEndian(|m.data| % 0x1_0000_0000, 4);
    buf := buf + BigEndian(Unsigned(m.timestamp), 8);
    buf := buf + [|m.id| % 256];
    assert buf == Head(m.kind, |m.data| % 0x1_0000_0000, m.timestamp, |m.id| % 256);
    hide Head;
    if |m.id| > 0 {
      buf := buf + m.id;
    }
    if |m.data| > 0 {
      buf := buf + m.data;
    }
    stream.Write(buf);
    return true;
  }

  method ReadMessage(stream: Stream, max: int) returns (r: Result)
    modifies stream
    ensures (r, stream.bytes) == Read(old(stream.bytes), max)
  {
    var ok, header := stream.ReadFull(15);
    if !ok {
      return Err(BadHeader);
    }
    if header[0] != 1 {
      return Err(BadVersion);
    }
    hide Number;
    Radixes();
    var length := Number(header[2..6]);
    var timestamp := Signed(Number(header[6..14]));
    var idLength := header[14];
    if length > max {
      return Err(TooLarge);
    }
    var id, data := [], [];
    if idLength > 0 {
      ok, id := stream.ReadFull(idLength);
      if !ok {
        return Err(BadId);
      }
    }
    if length > 0 {
      ok, data := stream.ReadFull(length);
      if !ok {
        return Err(BadData);
      }
    }
    return Ok(Message(header[1], id, timestamp, data));
  }
}
