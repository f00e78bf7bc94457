# ndgr-client core, modelled in Dafny

This project models the sequential core of an NDGR chat client. A live
program's comments arrive as a stream of length-delimited protobuf messages.
The client walks an entry stream with a cursor, and keeps the most recent
comments word-wrapped for display.

- `ProtobufStream` (`protobuf_stream_reader.dfy`) models the frame decoder
  `ProtobufStreamReader`. It is a class whose `buffer: seq<byte>` is appended
  to by `PushChunk` and consumed by `GetMessage`. `ReadLength` decodes the
  base-128 varint length prefix with a loop.
  - `ReadLength` is proved against the specification function `VarintPrefix`
    and `GetMessage` against `Extract`. `DrainAll` is repeated `Extract`,
    that is, repeated `get_message`; the draining and chunking lemmas are
    about these functions.
  - The properties proved about those functions cover the varint encoding
    (`Encode`), frame round-trips, boundary lengths, and independence from
    chunking.
- `CommentBuffers` (`comment_buffer.dfy`) models `CommentBuffer`. It is a
  class whose `comments: seq<string>` is extended by the wrapping loop of
  `Push` and trimmed from the front to `height` lines.
  - `Push` is proved against the greedy wrapping function `Wrap` and the
    suffix function `KeepLast`.
  - The lemmas state what wrapping guarantees: the lines spell the comment
    out, every line fits, and lines are broken greedily.
- `EntryTraversal` (`entry_traversal.dfy`) models the polling loop of
  `src/main.rs`:
  - the cursor `ViewQuery`, which starts at `Now` and moves to `At(at)` on each `Next` entry;
  - stopping at the first error item;
  - draining each segment's message stream completely, in entry order;
  - repeated polls from the cursor reached so far.
- `Wrappers` (`wrappers.dfy`) holds `Option` and `Result`.

## Model

Most methods are proved equal to reference functions.
- `ReadLength`'s loop is proved equal to `VarintPrefix` (src/protobuf_stream_reader.rs:13-34).
- `GetMessage` is proved equal to `Extract`.
- `Push`'s character loop is proved equal to `Wrap` through `WrapFrom` (src/comment_buffer.rs:24-39), and its trim to `KeepLast`.
- `Poll`'s loop is proved equal to `CursorAfter`, `SegmentUris` and `Drained` (src/main.rs:27-43), with `Advance` as one step of `CursorAfter`.
- The messages `Follow` receives are proved equal to `AllDrained`, which concatenates the `Drained` messages of each poll in turn.

`DrainAll` and `Feed` are repeated `Extract`, that is, repeated `get_message`. They appear only in the draining and chunking lemmas. The rows below state what these functions satisfy. Only `Extract` has a row of its own, for its consumption bound.

| member | source | states |
|---|---|---|
| ProtobufStream.ProtobufStreamReader.constructor | src/protobuf_stream_reader.rs:3-6 | a new reader has an empty buffer |
| ProtobufStream.ProtobufStreamReader.PushChunk | src/protobuf_stream_reader.rs:9-11 | the buffer becomes its old bytes followed by the chunk; the old bytes are unchanged |
| ProtobufStream.ProtobufStreamReader.ReadLength | src/protobuf_stream_reader.rs:13-34 | returns `VarintPrefix(buffer)`: `None` exactly when every buffered byte has the high bit set (so also on an empty buffer); otherwise `offset` is one past the first byte with the high bit clear, every earlier byte has it set, and `length` is the sum of `(b[k] & 0x7F) * 128^k` over the prefix |
| ProtobufStream.FirstClear | src/protobuf_stream_reader.rs:18-31 | `None` iff every byte continues; otherwise the index of a byte with the high bit clear, before which every byte has it set |
| ProtobufStream.GroupStep | src/protobuf_stream_reader.rs:24-26 | one loop step: the value read so far is below `2^i`; or-ing in `(current & 0x7F) << i` gives the value of the groups up to and including the current byte, which equals the plain sum and stays below `2^(i+7)` |
| ProtobufStream.OrDisjoint | src/protobuf_stream_reader.rs:24 | for `a < 2^i`, `Or(a, x * Pow2(i)) == a + x * Pow2(i)`: or-ing in a group above the bits already set is a sum (`GroupStep` turns `x * Pow2(i)` into `Shl(x, i)`, that is, `x << i`) |
| ProtobufStream.GroupSumBound | src/protobuf_stream_reader.rs:24 | the value of k groups is below `128^k` |
| ProtobufStream.ProtobufStreamReader.GetMessage | src/protobuf_stream_reader.rs:36-46 | if the prefix is unterminated or fewer than `offset + length` bytes are buffered, returns `None` and leaves the buffer unchanged; otherwise returns exactly the `length` bytes after the prefix and the buffer loses its first `offset + length` bytes |
| ProtobufStream.Extract | src/protobuf_stream_reader.rs:37-45 | a successful extraction consumes at least one byte more than it hands out (a prefix byte at least), so repeated extraction ends |
| ProtobufStream.ExtractDecomposes | src/protobuf_stream_reader.rs:37-45 | a successful extraction splits the buffer into a prefix whose varint is the payload's length, the payload, and the rest |
| ProtobufStream.ExtractFromPrefix | src/protobuf_stream_reader.rs:37-45 | the converse: after any terminated prefix whose value is the payload's length, minimal or not, the payload is extracted and the rest is left |
| ProtobufStream.OverlongPrefix | src/protobuf_stream_reader.rs:37-45 | the non-minimal prefix `80 00` frames an empty payload |
| ProtobufStream.EncodeBits | src/protobuf_stream_reader.rs:28 | in the varint encoding of n, every byte but the last has the continuation bit set and the last has it clear |
| ProtobufStream.EncodeValue | src/protobuf_stream_reader.rs:24 | the encoding's groups sum back to n |
| ProtobufStream.VarintRoundTrip | src/protobuf_stream_reader.rs:13-34 | reading the length of `Encode(n) + rest` gives as offset the length of `Encode(n)` and as length n, whatever follows |
| ProtobufStream.FrameRoundTrip | src/protobuf_stream_reader.rs:36-46 | from the varint of the length of `p`, then `p`, then `rest`, the payload `p` is extracted and `rest` is left |
| ProtobufStream.EncodeBoundaries | src/protobuf_stream_reader.rs:24-28 | the encodings of 0, 1, 127, 128, 16383 and 16384 are 00, 01, 7F, 80 01, FF 7F and 80 80 01 |
| ProtobufStream.BoundaryRoundTrips | src/protobuf_stream_reader.rs:36-46 | for payload lengths 0, 1, 127, 128 and 16384, the frame written with its literal prefix bytes extracts to the payload and leaves the rest |
| ProtobufStream.ExtractExtends | src/protobuf_stream_reader.rs:9-46 | bytes pushed behind a complete frame change neither the payload extracted nor the bytes before them that are left |
| ProtobufStream.DrainAllAppend | src/protobuf_stream_reader.rs:9-46 | draining `buf + more` yields `buf`'s payloads, then the payloads of its leftover followed by `more` |
| ProtobufStream.DrainAllLeavesNoFrame | src/protobuf_stream_reader.rs:36-46 | draining until `get_message` gives `None` leaves no complete frame |
| ProtobufStream.ChunkingIndependence | src/protobuf_stream_reader.rs:9-46 | from a buffer holding no complete frame, pushing chunks one at a time and draining after each yields the same payloads and leftover bytes as pushing their concatenation once |
| ProtobufStream.DrainFrames | src/protobuf_stream_reader.rs:36-46 | consecutive valid frames drain to exactly their payloads, in order |
| ProtobufStream.ChunkedFrames | src/protobuf_stream_reader.rs:9-46 | however a sequence of valid frames is cut into chunks, feeding the chunks yields exactly the payloads and leaves nothing |
| CommentBuffers.CommentBuffer.constructor | src/comment_buffer.rs:12-18 | `new(width, height)` holds no lines and keeps the given width and height |
| CommentBuffers.CommentBuffer.Push | src/comment_buffer.rs:20-44 | width and height are unchanged; at most `height` lines remain; the lines are the longest suffix of at most `height` lines of the old lines followed by `Wrap(comment)` |
| CommentBuffers.CommentBuffer.DropOldest | src/comment_buffer.rs:41-43 | popping from the front until at most `height` lines remain leaves `KeepLast(old lines, height)` |
| CommentBuffers.CommentBuffer.Comments | src/comment_buffer.rs:46-48 | the lines returned number at most `height` |
| CommentBuffers.KeepLast | src/comment_buffer.rs:41-43 | the result is a suffix of the lines, at most `height` long, and all of them or exactly `height` of them |
| CommentBuffers.SuffixIsKeepLast | src/comment_buffer.rs:41-43 | a suffix that is all of the lines or exactly `height` of them is the one trimming leaves |
| CommentBuffers.WrapFromStep | src/comment_buffer.rs:24-35 | unfolding helper for the loop invariant of `Push`: the wrapping of `comment[i..]` is one recursive step of `WrapFrom` on `comment[i]` (close the current line when the character would overflow `width`, otherwise join it); the wrapping guarantees themselves are `WrapConcatFits`, `WrapGreedy` and `WrapShape` |
| CommentBuffers.WrapFromConcat | src/comment_buffer.rs:24-39 | the lines produced, concatenated, are the current line followed by the rest of the comment |
| CommentBuffers.WrapFromFits | src/comment_buffer.rs:25-34 | if the current line fits, so does every line produced |
| CommentBuffers.WrapFromGreedy | src/comment_buffer.rs:27-31 | a line is closed only when the next line's first character would overflow it |
| CommentBuffers.WrapFromHead | src/comment_buffer.rs:32-39 | with a non-empty current line, the first line produced starts with its first character |
| CommentBuffers.WrapFromNonEmpty | src/comment_buffer.rs:32-39 | with a non-empty current line, no empty line is produced |
| CommentBuffers.WrapConcatFits | src/comment_buffer.rs:24-39 | the appended lines concatenate to the comment; each has width at most `width` or is a single character wider than `width` |
| CommentBuffers.WrapGreedy | src/comment_buffer.rs:27-31 | every appended line after the first is non-empty, and its first character would have overflowed the line before it |
| CommentBuffers.WrapShape | src/comment_buffer.rs:24-39 | no line is appended iff the comment is empty; the last line flushed is non-empty; only the first line can be empty, and it is empty iff the comment's first character is wider than `width` |
| CommentBuffers.LineWidthSnoc | src/comment_buffer.rs:33-34 | adding a character adds its width to the line's width |
| EntryTraversal.Accepted | src/main.rs:27 | the entries taken are the items before the first error item, or all of them |
| EntryTraversal.StopsAtFirstError | src/main.rs:27 | items from the first error on have no effect on the entries taken |
| EntryTraversal.CursorWithoutNext | src/main.rs:30-46 | entries that are not `Next` (segments, other kinds, absent entries) leave the cursor unchanged |
| EntryTraversal.CursorIsLastNext | src/main.rs:32-35 | after a run of entries the cursor is `At(at)` of the last `Next` among them |
| EntryTraversal.SegmentUrisAppend | src/main.rs:36-43 | segment URIs come out in entry order |
| EntryTraversal.DrainedSnoc | src/main.rs:36-43 | the messages received after one more segment are those before, then the whole stream of that segment |
| EntryTraversal.DrainSegment | src/main.rs:37-42 | every item of a segment's stream, error items included, is received, to its end |
| EntryTraversal.Poll | src/main.rs:24-47 | a poll's cursor is the cursor after the accepted entries; its segments are the accepted segment URIs in order; its messages are each segment's full stream, in that order |
| EntryTraversal.Follow | src/main.rs:21-48 | the first poll asks for `Now`; each later poll asks from the cursor the previous poll reached; the final cursor is the one the last poll reached; the messages received are every poll's segment streams, poll after poll, each poll's in entry order |
| EntryTraversal.AllDrainedAppend | src/main.rs:23-47 | the messages of a run of polls followed by another run are the first run's messages, then the second's |
| EntryTraversal.ScriptedPoll | src/main.rs:24-47 | entries segment `a`, `Next(100)`, segment `b` give cursor `At(100)`, segments `[a, b]` and `a`'s messages followed by `b`'s |

## Left out

- Networking is not part of this model. This covers `src/websocket.rs` (the view-URI lookup), `src/lib.rs` (the HTTP page scrape and JSON decoding) and the real `fetch_chunked_entry` / `fetch_chunked_message` streams. A poll receives the entry stream's items as a sequence. A segment's items are a function of its URI, so a segment refetched later is assumed to answer the same way.
- `src/program_info.rs` holds data only. `protobuf/src/lib.rs` and `protobuf/build.rs` are generated code and a build script. Message payloads stay undecoded byte sequences, and entry kinds other than `Next` and `Segment` are collapsed into `Other`.
- The tokio runtime, command-line arguments, stream pinning and every `println!` are left out.
- `src/main.rs` polls forever. `Follow` covers as many polls as its `responses` input holds.
- `unicode_width`'s `width_cjk().unwrap_or(0)` is not part of this model. `Push` and the wrapping functions take character width as a parameter `cw: char -> nat`.
- ProtobufStream.ProtobufStreamReader.ReadLength: does not model the 64-bit `usize` arithmetic of `length` and `i`. It diverges from the 10th prefix byte on. At that byte `i == 63`, so `(current & 0x7F) << 63` silently drops the group's upper six bits. From the 11th byte `i >= 64`, where the shift panics in debug builds and its amount is masked in release builds. Here `length` is an unbounded `nat` and `Shl` loses no bits. The code sets no 10-byte limit, so the model sets none either.
- ProtobufStream.ProtobufStreamReader.GetMessage: does not model the `usize` overflow of `offset + length`. A prefix such as `FF FF FF FF FF FF FF FF FF 01` has offset 10 and length `2^64 - 1`. There the sum overflows: a debug build panics, and a release build wraps it to 9, after which `split_to(9)` and `advance(10)` panic. The model instead returns `None` and keeps the buffer, since the unbounded sum exceeds any buffer length. The truncation in `ReadLength` also has a silent effect, with no panic. For the buffer `80 80 80 80 80 80 80 80 80 02`, `2 << 63` loses its bit, so the source reads length 0 at offset 10: `get_message` returns an empty payload and consumes the 10 bytes. The model reads length `2^64`: it returns `None` and keeps the buffer.
- Bytes are modelled as a newtype `0 <= x < 256`. `b & 0x7F` is written `b % 128` and `b & 0x80 != 0` is written `b >= 128`. `|=` is the bitwise or `Or` on naturals and `<<` is `Shl`; `OrDisjoint` proves that or-ing in a group above the bits already set is a sum.
- `BytesMut` and `VecDeque<String>` are modelled as sequences. This covers neither their capacity nor their sharing of storage.
