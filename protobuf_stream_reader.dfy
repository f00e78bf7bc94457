/**
 * The length-delimited frame decoder (src/protobuf_stream_reader.rs).
 *
 * A frame is a base-128 varint giving the payload length (little-endian
 * 7-bit groups, the high bit of each byte set while more groups follow),
 * followed by exactly that many payload bytes. `ProtobufStreamReader`
 * accumulates raw bytes and hands out one payload at a time.
 */
module ProtobufStream {
  import opened Wrappers

  newtype byte = x: int | 0 <= x < 0x100

  /** The seven value bits of a varint byte, `b & 0x7F`: the byte modulo 128. */
  function Low7(b: byte): nat { b as int % 0x80 }

  /** The continuation bit of a varint byte, `b & 0x80 != 0`: the byte is at least 128. */
  predicate Continues(b: byte) { b >= 0x80 }

  function Pow2(i: nat): nat { if i == 0 then 1 else 2 * Pow2(i - 1) }

  function Pow128(k: nat): nat { if k == 0 then 1 else 128 * Pow128(k - 1) }

  /** `x << i` on unbounded naturals. */
  function Shl(x: nat, i: nat): nat { if i == 0 then x else 2 * Shl(x, i - 1) }

  /** Bitwise or on unbounded naturals, bit by bit from the lowest. */
  function Or(a: nat, b: nat): nat
    decreases a + b
  {
    if a == 0 then b
    else if b == 0 then a
    else (if a % 2 == 1 || b % 2 == 1 then 1 else 0) + 2 * Or(a / 2, b / 2)
  }

  /** The varint value of a group sequence: the sum over k of `(s[k] & 0x7F) * 128^k`. */
  function GroupSum(s: seq<byte>): nat
  {
    if s == [] then 0 else GroupSum(s[..|s| - 1]) + Low7(s[|s| - 1]) * Pow128(|s| - 1)
  }

  /** The index of the first byte whose continuation bit is clear, if any. */
  function FirstClear(s: seq<byte>): (r: Option<nat>)
    ensures r.None? <==> forall k :: 0 <= k < |s| ==> Continues(s[k])
    ensures r.Some? ==> r.value < |s| && !Continues(s[r.value])
    ensures r.Some? ==> forall k :: 0 <= k < r.value ==> Continues(s[k])
  {
    if s == [] then None
    else if !Continues(s[0]) then Some(0)
    else match FirstClear(s[1..])
      case None => None
      case Some(k) => Some(k + 1)
  }

  /**
   * What `read_length` computes: `Some((offset, length))` where `offset` is one
   * past the first byte with the high bit clear and `length` is the value of
   * the groups `s[..offset]`; `None` if every buffered byte has the high bit set.
   */
  function VarintPrefix(s: seq<byte>): Option<(nat, nat)>
  {
    match FirstClear(s)
    case None => None
    case Some(k) => Some((k + 1, GroupSum(s[..k + 1])))
  }

  /**
   * What `get_message` computes on a buffer: the payload and the bytes left
   * behind, or `None` when the prefix is unterminated or the payload is short.
   */
  function Extract(buf: seq<byte>): (r: Option<(seq<byte>, seq<byte>)>)
    ensures r.Some? ==> |r.value.0| + |r.value.1| < |buf|
  {
    match VarintPrefix(buf)
    case None => None
    case Some((offset, length)) =>
      if offset + length > |buf| then None
      else Some((buf[offset..offset + length], buf[offset + length..]))
  }

  /** The varint encoding of `n` with the fewest bytes. */
  function Encode(n: nat): (e: seq<byte>)
    ensures 1 <= |e|
    decreases n
  {
    if n < 128 then [n as byte] else [(n % 128 + 0x80) as byte] + Encode(n / 128)
  }

  /** One frame on the wire: the varint length followed by the payload. */
  function Frame(p: seq<byte>): seq<byte> { Encode(|p|) + p }

  function Frames(ps: seq<seq<byte>>): seq<byte>
  {
    if ps == [] then [] else Frame(ps[0]) + Frames(ps[1..])
  }

  function Concat(chunks: seq<seq<byte>>): seq<byte>
  {
    if chunks == [] then [] else chunks[0] + Concat(chunks[1..])
  }

  /** Every payload that repeated `get_message` calls hand out, and the bytes they leave. */
  function DrainAll(buf: seq<byte>): (seq<seq<byte>>, seq<byte>)
    decreases |buf|
  {
    match Extract(buf)
    case None => ([], buf)
    case Some((p, rest)) =>
      var (ps, left) := DrainAll(rest);
      ([p] + ps, left)
  }

  /** Push each chunk in turn, draining every complete frame after each push. */
  function Feed(buf: seq<byte>, chunks: seq<seq<byte>>): (seq<seq<byte>>, seq<byte>)
    decreases |chunks|
  {
    if chunks == [] then ([], buf)
    else
      var (ps, left) := DrainAll(buf + chunks[0]);
      var (ps', left') := Feed(left, chunks[1..]);
      (ps + ps', left')
  }

  // ---------------------------------------------------------------------------
  // Arithmetic of the groups

  lemma Pow2Plus7(i: nat)
    ensures Pow2(i + 7) == 128 * Pow2(i)
  {
    assert Pow2(i + 7) == 2 * Pow2(i + 6) == 4 * Pow2(i + 5) == 8 * Pow2(i + 4);
    assert Pow2(i + 4) == 2 * Pow2(i + 3) == 4 * Pow2(i + 2) == 8 * Pow2(i + 1) == 16 * Pow2(i);
  }

  /** Shifting by `7 * k` bits is multiplying by `128^k`. */
  lemma {:induction false} ShiftIsPow128(k: nat)
    ensures Pow2(7 * k) == Pow128(k)
  {
    if k > 0 {
      ShiftIsPow128(k - 1);
      Pow2Plus7(7 * (k - 1));
    }
  }

  lemma Low7Facts(b: byte)
    ensures Low7(b) < 128
    ensures !Continues(b) ==> Low7(b) == b as int
  {
  }

  lemma MulLeft(a: nat, b: nat, c: nat)
    requires a <= b
    ensures a * c <= b * c
  {
  }

  /** `k` groups hold a value below `128^k`: the bits above them are clear. */
  lemma {:induction false} GroupSumBound(s: seq<byte>)
    ensures GroupSum(s) < Pow128(|s|)
  {
    if s != [] {
      var n := |s| - 1;
      GroupSumBound(s[..n]);
      var g, l, p := GroupSum(s[..n]), Low7(s[n]), Pow128(n);
      Low7Facts(s[n]);
      MulLeft(l, 127, p);
      assert GroupSum(s) == g + l * p;
    }
  }

  lemma ConsArith(x: nat, y: nat, z: nat, lb: nat, g: nat, l: nat, p: nat)
    requires x == lb + 128 * g
    requires y == x + l * (128 * p)
    requires z == g + l * p
    ensures y == lb + 128 * z
  {
  }

  lemma GroupSumSnoc(s: seq<byte>)
    requires s != []
    ensures GroupSum(s) == GroupSum(s[..|s| - 1]) + Low7(s[|s| - 1]) * Pow128(|s| - 1)
  {
  }

  /** Reading the groups front to back: the first group is the low seven bits. */
  lemma {:induction false} GroupSumCons(b: byte, s: seq<byte>)
    ensures GroupSum([b] + s) == Low7(b) + 128 * GroupSum(s)
    decreases |s|
  {
    if s == [] {
      assert [b] + s == [b];
      assert [b][..0] == [];
    } else {
      var n := |s| - 1;
      var bs := [b] + s;
      var init := s[..n];
      assert bs[..|bs| - 1] == [b] + init;
      assert bs[|bs| - 1] == s[n];
      GroupSumCons(b, init);
      GroupSumSnoc(bs);
      GroupSumSnoc(s);
      ConsArith(GroupSum([b] + init), GroupSum(bs), GroupSum(s), Low7(b), GroupSum(init), Low7(s[n]), Pow128(n));
    }
  }

  /** One step of `read_length`: the next group lands above the bits read so far. */
  lemma GroupStep(s: seq<byte>, offset: nat, length: nat)
    requires offset < |s|
    requires length == GroupSum(s[..offset])
    ensures length < Pow2(7 * offset)
    ensures length + Low7(s[offset]) * Pow2(7 * offset) == GroupSum(s[..offset + 1])
    ensures length + Low7(s[offset]) * Pow2(7 * offset) < Pow2(7 * offset + 7)
    ensures Or(length, Shl(Low7(s[offset]), 7 * offset)) == GroupSum(s[..offset + 1])
  {
    var l, p := Low7(s[offset]), Pow2(7 * offset);
    ShiftIsPow128(offset);
    GroupSumBound(s[..offset]);
    Low7Facts(s[offset]);
    MulLeft(l, 127, p);
    Pow2Plus7(7 * offset);
    assert s[..offset + 1][..offset] == s[..offset];
    assert GroupSum(s[..offset + 1]) == length + l * Pow128(offset);
    OrDisjoint(length, l, 7 * offset);
    ShlIsMul(l, 7 * offset);
  }

  lemma {:induction false} ShlIsMul(x: nat, i: nat)
    ensures Shl(x, i) == x * Pow2(i)
  {
    if i > 0 {
      ShlIsMul(x, i - 1);
      assert x * Pow2(i) == 2 * (x * Pow2(i - 1));
    }
  }

  /** Or-ing in `x << i` over a value below `2^i` adds it: the bits do not overlap. */
  lemma {:induction false} OrDisjoint(a: nat, x: nat, i: nat)
    requires a < Pow2(i)
    ensures Or(a, x * Pow2(i)) == a + x * Pow2(i)
    decreases i
  {
    var b := x * Pow2(i);
    if a != 0 && b != 0 {
      var q := x * Pow2(i - 1);
      assert b == 2 * q;
      OrDisjoint(a / 2, x, i - 1);
      assert Or(a, b) == a % 2 + 2 * Or(a / 2, q);
    }
  }

  lemma FirstClearExtends(s: seq<byte>, more: seq<byte>)
    requires FirstClear(s).Some?
    ensures FirstClear(s + more) == FirstClear(s)
  {
    var k := FirstClear(s).value;
    assert forall j :: 0 <= j <= k ==> (s + more)[j] == s[j];
  }

  /** A varint byte of a group that more groups follow: the group with the high bit set. */
  lemma GroupByte(x: nat)
    requires x < 128
    ensures Low7((x + 0x80) as byte) == x && Continues((x + 0x80) as byte)
  {
  }

  // ---------------------------------------------------------------------------
  // The encoding and the round trips

  /** Every byte of `Encode(n)` but the last carries the continuation bit. */
  lemma {:induction false} EncodeBits(n: nat)
    ensures !Continues(Encode(n)[|Encode(n)| - 1])
    ensures forall k :: 0 <= k < |Encode(n)| - 1 ==> Continues(Encode(n)[k])
    decreases n
  {
    if n < 128 {
      Low7Facts(n as byte);
    } else {
      var x := n % 128;
      GroupByte(x);
      EncodeBits(n / 128);
    }
  }

  /** The groups of `Encode(n)` add up to `n`. */
  lemma {:induction false} EncodeValue(n: nat)
    ensures GroupSum(Encode(n)) == n
    decreases n
  {
    if n < 128 {
      var b := n as byte;
      assert Low7(b) == n by { Low7Facts(b); }
      assert GroupSum([b]) == Low7(b) by {
        GroupSumSnoc([b]);
        assert [b][..0] == [];
      }
    } else {
      var x, q := n % 128, n / 128;
      var b: byte := (x + 0x80) as byte;
      var e := Encode(q);
      assert Encode(n) == [b] + e;
      assert GroupSum(e) == q by { EncodeValue(q); }
      assert Low7(b) == x by { GroupByte(x); }
      assert GroupSum([b] + e) == Low7(b) + 128 * GroupSum(e) by { GroupSumCons(b, e); }
      assert n == x + 128 * q;
    }
  }

  /** `read_length` on an encoded length reads back that length and the width of its prefix. */
  lemma VarintRoundTrip(n: nat, rest: seq<byte>)
    ensures VarintPrefix(Encode(n) + rest) == Some((|Encode(n)|, n))
  {
    var e := Encode(n);
    EncodeBits(n);
    EncodeValue(n);
    assert forall j :: 0 <= j < |e| ==> (e + rest)[j] == e[j];
    assert FirstClear(e + rest) == Some(|e| - 1);
    assert (e + rest)[..|e|] == e;
  }

  /** Round trip: a frame followed by anything yields its payload and leaves the rest. */
  lemma FrameRoundTrip(p: seq<byte>, rest: seq<byte>)
    ensures Extract(Frame(p) + rest) == Some((p, rest))
  {
    var e := Encode(|p|);
    assert Frame(p) + rest == e + (p + rest);
    VarintRoundTrip(|p|, p + rest);
    var buf := e + (p + rest);
    assert buf[|e|..|e| + |p|] == p;
    assert buf[|e| + |p|..] == rest;
  }

  lemma EncodeTwoBytes()
    ensures Encode(128) == [0x80, 0x01] && Encode(16383) == [0xFF, 0x7F]
  {
    assert Encode(128) == [(0 + 0x80) as byte] + Encode(1);
    assert Encode(16383) == [(127 + 0x80) as byte] + Encode(127);
  }

  lemma EncodeThreeBytes()
    ensures Encode(16384) == [0x80, 0x80, 0x01]
  {
    EncodeTwoBytes();
    assert Encode(16384) == [(0 + 0x80) as byte] + Encode(128);
  }

  /** The widest lengths a one- and a two-byte prefix hold, and the first lengths that need one more byte. */
  lemma EncodeBoundaries()
    ensures Encode(0) == [0x00] && Encode(1) == [0x01] && Encode(127) == [0x7F]
    ensures Encode(128) == [0x80, 0x01] && Encode(16383) == [0xFF, 0x7F]
    ensures Encode(16384) == [0x80, 0x80, 0x01]
  {
    EncodeTwoBytes();
    EncodeThreeBytes();
  }

  /** The frame round trip at the boundaries of the prefix width, with the prefix bytes written out. */
  lemma BoundaryRoundTrips(p: seq<byte>, rest: seq<byte>)
    requires |p| in {0, 1, 127, 128, 16384}
    ensures |p| < 128 ==> Extract([|p| as byte] + p + rest) == Some((p, rest))
    ensures |p| == 128 ==> Extract([0x80, 0x01] + p + rest) == Some((p, rest))
    ensures |p| == 16384 ==> Extract([0x80, 0x80, 0x01] + p + rest) == Some((p, rest))
  {
    FrameRoundTrip(p, rest);
    EncodeBoundaries();
  }

  /** The first clear byte is determined by the bytes up to it. */
  lemma FirstClearIs(t: seq<byte>, k: nat)
    requires k < |t| && !Continues(t[k])
    requires forall j :: 0 <= j < k ==> Continues(t[j])
    ensures FirstClear(t) == Some(k)
  {
  }

  /** A successful extraction splits the buffer into a length prefix, the payload and the rest. */
  lemma ExtractDecomposes(buf: seq<byte>)
    requires Extract(buf).Some?
    ensures var (p, rest) := Extract(buf).value;
      var prefix := buf[..|buf| - |p| - |rest|];
      buf == prefix + p + rest && VarintPrefix(prefix) == Some((|prefix|, |p|))
  {
    var k := FirstClear(buf).value;
    var prefix := buf[..k + 1];
    assert forall j :: 0 <= j <= k ==> prefix[j] == buf[j];
    FirstClearIs(prefix, k);
    assert prefix[..k + 1] == prefix;
    var (p, rest) := Extract(buf).value;
    var stop := k + 1 + GroupSum(prefix);
    assert p == buf[k + 1..stop] && rest == buf[stop..];
    assert buf == buf[..k + 1] + buf[k + 1..stop] + buf[stop..];
  }

  /**
   * The converse: any terminated prefix whose value is the payload's length
   * frames the payload, also an over-long one such as `80 00`.
   */
  lemma ExtractFromPrefix(prefix: seq<byte>, p: seq<byte>, rest: seq<byte>)
    requires VarintPrefix(prefix) == Some((|prefix|, |p|))
    ensures Extract(prefix + p + rest) == Some((p, rest))
  {
    var buf := prefix + p + rest;
    assert buf == prefix + (p + rest);
    FirstClearExtends(prefix, p + rest);
    assert prefix[..|prefix|] == prefix && buf[..|prefix|] == prefix;
    assert buf[|prefix|..|prefix| + |p|] == p;
    assert buf[|prefix| + |p|..] == rest;
  }

  /** A two-byte prefix for an empty payload: the source accepts non-minimal varints. */
  lemma OverlongPrefix(rest: seq<byte>)
    ensures Extract([0x80, 0x00] + rest) == Some(([], rest))
  {
    var prefix: seq<byte> := [0x80, 0x00];
    assert prefix[..1] == [0x80];
    assert FirstClear(prefix) == Some(1);
    assert GroupSum(prefix) == 0;
    ExtractFromPrefix(prefix, [], rest);
    assert prefix + [] + rest == [0x80, 0x00] + rest;
  }

  /** More bytes arriving behind a complete frame do not change what is extracted. */
  lemma ExtractExtends(buf: seq<byte>, more: seq<byte>)
    requires Extract(buf).Some?
    ensures Extract(buf + more) == Some((Extract(buf).value.0, Extract(buf).value.1 + more))
  {
    FirstClearExtends(buf, more);
    var k := FirstClear(buf).value;
    assert (buf + more)[..k + 1] == buf[..k + 1];
    var (offset, length) := VarintPrefix(buf).value;
    assert (buf + more)[offset..offset + length] == buf[offset..offset + length];
    assert (buf + more)[offset + length..] == buf[offset + length..] + more;
  }

  /** Draining `buf + more` drains `buf` first, then what its leftover and `more` make up. */
  lemma {:induction false} DrainAllAppend(buf: seq<byte>, more: seq<byte>)
    ensures DrainAll(buf + more).0 == DrainAll(buf).0 + DrainAll(DrainAll(buf).1 + more).0
    ensures DrainAll(buf + more).1 == DrainAll(DrainAll(buf).1 + more).1
    decreases |buf|
  {
    match Extract(buf)
    case None =>
    case Some((p, rest)) =>
      ExtractExtends(buf, more);
      DrainAllAppend(rest, more);
  }

  lemma ConsAppend<T>(xs: seq<T>, ys: seq<T>)
    requires xs != []
    ensures xs + ys == [xs[0]] + (xs[1..] + ys)
  {
  }

  /** One extraction step of `DrainAll`. */
  lemma DrainAllStep(buf: seq<byte>)
    requires Extract(buf).Some?
    ensures DrainAll(buf).0 == [Extract(buf).value.0] + DrainAll(Extract(buf).value.1).0
    ensures DrainAll(buf).1 == DrainAll(Extract(buf).value.1).1
  {
  }

  /** After draining, no complete frame is left in the buffer. */
  lemma {:induction false} DrainAllLeavesNoFrame(buf: seq<byte>)
    ensures Extract(DrainAll(buf).1).None?
    decreases |buf|
  {
    if Extract(buf).Some? {
      DrainAllLeavesNoFrame(Extract(buf).value.1);
    }
  }

  /** One push of `Feed`: drain after the first chunk, then feed the others. */
  lemma FeedStep(buf: seq<byte>, chunks: seq<seq<byte>>)
    requires chunks != []
    ensures Feed(buf, chunks).0 == DrainAll(buf + chunks[0]).0 + Feed(DrainAll(buf + chunks[0]).1, chunks[1..]).0
    ensures Feed(buf, chunks).1 == Feed(DrainAll(buf + chunks[0]).1, chunks[1..]).1
  {
  }

  lemma ConcatStep(buf: seq<byte>, chunks: seq<seq<byte>>)
    requires chunks != []
    ensures buf + Concat(chunks) == (buf + chunks[0]) + Concat(chunks[1..])
  {
  }

  /**
   * Chunking independence: starting from a buffer holding no complete frame,
   * pushing the chunks one at a time and draining after each push yields the
   * same payloads, and leaves the same bytes, as pushing their concatenation at once.
   */
  lemma {:induction false} ChunkingIndependence(buf: seq<byte>, chunks: seq<seq<byte>>)
    requires Extract(buf).None?
    ensures Feed(buf, chunks).0 == DrainAll(buf + Concat(chunks)).0
    ensures Feed(buf, chunks).1 == DrainAll(buf + Concat(chunks)).1
    decreases |chunks|
  {
    if chunks == [] {
      assert buf + Concat(chunks) == buf;
    } else {
      var first := buf + chunks[0];
      FeedStep(buf, chunks);
      ConcatStep(buf, chunks);
      DrainAllLeavesNoFrame(first);
      ChunkingIndependence(DrainAll(first).1, chunks[1..]);
      DrainAllAppend(first, Concat(chunks[1..]));
    }
  }

  /** Consecutive valid frames drain to exactly their payloads, in order. */
  lemma {:induction false} DrainFrames(ps: seq<seq<byte>>, rest: seq<byte>)
    ensures DrainAll(Frames(ps) + rest).0 == ps + DrainAll(rest).0
    ensures DrainAll(Frames(ps) + rest).1 == DrainAll(rest).1
    decreases |ps|
  {
    if ps == [] {
      assert Frames(ps) + rest == rest;
      assert ps + DrainAll(rest).0 == DrainAll(rest).0;
    } else {
      var tail := Frames(ps[1..]) + rest;
      var buf := Frames(ps) + rest;
      assert buf == Frame(ps[0]) + tail;
      FrameRoundTrip(ps[0], tail);
      DrainAllStep(buf);
      DrainFrames(ps[1..], rest);
      ConsAppend(ps, DrainAll(rest).0);
    }
  }

  /** However N valid frames are split into chunks, decoding yields exactly the N payloads. */
  lemma ChunkedFrames(ps: seq<seq<byte>>, chunks: seq<seq<byte>>)
    requires Concat(chunks) == Frames(ps)
    ensures Feed([], chunks).0 == ps && Feed([], chunks).1 == []
  {
    assert FirstClear([]) == None;
    ChunkingIndependence([], chunks);
    assert [] + Concat(chunks) == Frames(ps) + [];
    DrainFrames(ps, []);
    assert ps + [] == ps;
  }

  // ---------------------------------------------------------------------------
  // The reader

  /** `ProtobufStreamReader`: the bytes received so far and not yet handed out. */
  class ProtobufStreamReader {
    var buffer: seq<byte>

    constructor ()
      ensures buffer == []
    {
      buffer := [];
    }

    /** `push_chunk`: append the chunk behind the buffered bytes. */
    method PushChunk(chunk: seq<byte>)
      modifies this
      ensures buffer == old(buffer) + chunk
    {
      buffer := buffer + chunk;
    }

    /** `read_length`: decode the varint at the front of the buffer without consuming it. */
    method ReadLength() returns (r: Option<(nat, nat)>)
      ensures r == VarintPrefix(buffer)
      ensures r.None? <==> forall k :: 0 <= k < |buffer| ==> Continues(buffer[k])
      ensures r.Some? ==> var (offset, length) := r.value;
        && 1 <= offset <= |buffer|
        && !Continues(buffer[offset - 1])
        && (forall k :: 0 <= k < offset - 1 ==> Continues(buffer[k]))
        && length == GroupSum(buffer[..offset])
    {
      var offset: nat := 0;
      var length: nat := 0;
      var i: nat := 0;
      while true
        invariant offset <= |buffer| && i == 7 * offset
        invariant forall k :: 0 <= k < offset ==> Continues(buffer[k])
        invariant length == GroupSum(buffer[..offset])
        decreases |buffer| - offset
      {
        if offset >= |buffer| {
          return None;
        }
        var current := buffer[offset];
        // `length |= (current & 0x7F) << i`; length < 2^i, so the or is a sum
        GroupStep(buffer, offset, length);
        length := Or(length, Shl(Low7(current), i));
        offset := offset + 1;
        i := i + 7;
        if !Continues(current) {  // `current & 0x80 == 0`
          break;
        }
      }
      assert FirstClear(buffer) == Some(offset - 1);
      r := Some((offset, length));
    }

    /**
     * `get_message`: hand out the next payload and drop its frame from the
     * buffer, or report that more bytes are needed and leave the buffer as it is.
     */
    method GetMessage() returns (r: Option<seq<byte>>)
      modifies this
      ensures match Extract(old(buffer))
        case None => r == None && buffer == old(buffer)
        case Some((payload, rest)) => r == Some(payload) && buffer == rest
    {
      var prefix := ReadLength();
      if prefix.None? {
        return None;
      }
      var (offset, length) := prefix.value;
      if offset + length > |buffer| {
        return None;
      }
      var bytes := buffer[..offset + length];
      buffer := buffer[offset + length..];
      bytes := bytes[offset..];
      r := Some(bytes);
    }
  }
}
