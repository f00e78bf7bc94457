/**
 * The entry traversal loop of src/main.rs.
 *
 * The client polls the entry endpoint with a cursor (`ViewQuery`). Each entry
 * either moves the cursor (`Next`), points at a segment of chat messages whose
 * stream is drained completely before the next entry is read (`Segment`), or
 * is ignored. A poll ends at the first error item or at the end of the
 * response, and the next poll starts from the cursor reached so far.
 *
 * The network fetches are inputs: a poll receives the item sequence the entry
 * endpoint answered with, and `fetchMessages` gives the item sequence a
 * segment's endpoint answers with.
 */
module EntryTraversal {
  import opened Wrappers
  import ProtobufStream

  /** The cursor: the latest position, or an explicit timestamp. */
  datatype ViewQuery = Now | At(at: int)

  /** The entry kinds; `Other` stands for the kinds the loop ignores. */
  datatype Entry = Next(at: int) | Segment(uri: string) | Other

  /** One item of the entry stream; its `entry` may be absent. */
  datatype ChunkedEntry = ChunkedEntry(entry: Option<Entry>)

  /** One chat message of a segment, kept as its undecoded bytes. */
  datatype ChunkedMessage = ChunkedMessage(payload: seq<ProtobufStream.byte>)

  type MessageFetch = string -> seq<Result<ChunkedMessage>>

  predicate IsNext(e: ChunkedEntry)
  {
    e.entry.Some? && e.entry.value.Next?
  }

  /** The entries `while let Some(Ok(message))` takes: every item before the first error. */
  function Accepted(items: seq<Result<ChunkedEntry>>): (es: seq<ChunkedEntry>)
    ensures |es| <= |items|
    ensures forall j :: 0 <= j < |es| ==> items[j] == Ok(es[j])
    ensures |es| < |items| ==> items[|es|].Err?
  {
    if items == [] || items[0].Err? then [] else [items[0].value] + Accepted(items[1..])
  }

  /** The cursor after one entry. */
  function Advance(cursor: ViewQuery, e: ChunkedEntry): ViewQuery
  {
    match e.entry
    case Some(Next(at)) => At(at)
    case _ => cursor
  }

  /** The cursor after a run of entries. */
  function CursorAfter(cursor: ViewQuery, es: seq<ChunkedEntry>): ViewQuery
  {
    if es == [] then cursor else Advance(CursorAfter(cursor, es[..|es| - 1]), es[|es| - 1])
  }

  /** The segment URIs of a run of entries, in entry order. */
  function SegmentUris(es: seq<ChunkedEntry>): seq<string>
  {
    if es == [] then []
    else
      SegmentUris(es[..|es| - 1]) +
        match es[|es| - 1].entry
        case Some(Segment(uri)) => [uri]
        case _ => []
  }

  /** Every message item of the given segments, each segment's stream in full, in order. */
  function Drained(uris: seq<string>, fetchMessages: MessageFetch): seq<Result<ChunkedMessage>>
  {
    if uris == [] then [] else Drained(uris[..|uris| - 1], fetchMessages) + fetchMessages(uris[|uris| - 1])
  }

  /** Every message item received over a run of polls: each poll's segments in turn, poll after poll. */
  function AllDrained(responses: seq<seq<Result<ChunkedEntry>>>, fetchMessages: MessageFetch): seq<Result<ChunkedMessage>>
  {
    if responses == [] then []
    else
      AllDrained(responses[..|responses| - 1], fetchMessages) +
        Drained(SegmentUris(Accepted(responses[|responses| - 1])), fetchMessages)
  }

  // ---------------------------------------------------------------------------
  // What a poll promises

  /** Processing stops at the first error item: nothing from that item on has an effect. */
  lemma {:induction false} StopsAtFirstError(items: seq<Result<ChunkedEntry>>, i: nat)
    requires i < |items| && items[i].Err?
    ensures Accepted(items) == Accepted(items[..i])
  {
    if i > 0 && items[0].Ok? {
      assert items[1..][..i - 1] == items[..i][1..];
      StopsAtFirstError(items[1..], i - 1);
    }
  }

  /** Entries other than `Next` leave the cursor where it was. */
  lemma {:induction false} CursorWithoutNext(cursor: ViewQuery, es: seq<ChunkedEntry>)
    requires forall j :: 0 <= j < |es| ==> !IsNext(es[j])
    ensures CursorAfter(cursor, es) == cursor
  {
    if es != [] {
      CursorWithoutNext(cursor, es[..|es| - 1]);
    }
  }

  /** After a run of entries the cursor is `At(at)` of the last `Next` among them. */
  lemma {:induction false} CursorIsLastNext(cursor: ViewQuery, es: seq<ChunkedEntry>, k: nat, at: int)
    requires k < |es| && es[k].entry == Some(Next(at))
    requires forall j :: k < j < |es| ==> !IsNext(es[j])
    ensures CursorAfter(cursor, es) == At(at)
  {
    if k < |es| - 1 {
      CursorIsLastNext(cursor, es[..|es| - 1], k, at);
    }
  }

  /** Segment URIs come out in entry order: the URIs of a concatenation are the concatenated URIs. */
  lemma {:induction false} SegmentUrisAppend(a: seq<ChunkedEntry>, b: seq<ChunkedEntry>)
    ensures SegmentUris(a + b) == SegmentUris(a) + SegmentUris(b)
    decreases |b|
  {
    if b == [] {
      assert a + b == a;
    } else {
      var n := |b| - 1;
      assert (a + b)[..|a + b| - 1] == a + b[..n];
      assert (a + b)[|a + b| - 1] == b[n];
      SegmentUrisAppend(a, b[..n]);
    }
  }

  lemma DrainedSnoc(uris: seq<string>, uri: string, fetchMessages: MessageFetch)
    ensures Drained(uris + [uri], fetchMessages) == Drained(uris, fetchMessages) + fetchMessages(uri)
  {
    assert (uris + [uri])[..|uris|] == uris;
  }

  /** The inner `while let`: every item of a segment's stream, error items included, to its end. */
  method DrainSegment(uri: string, fetchMessages: MessageFetch) returns (received: seq<Result<ChunkedMessage>>)
    ensures received == fetchMessages(uri)
  {
    var stream := fetchMessages(uri);
    received := [];
    var j := 0;
    while j < |stream|
      invariant j <= |stream|
      invariant received == stream[..j]
    {
      assert stream[..j + 1] == stream[..j] + [stream[j]];
      received := received + [stream[j]];
      j := j + 1;
    }
    assert stream[..j] == stream;
  }

  /** One poll: read entries up to the first error or the end, draining each segment as it comes. */
  method Poll(cursor: ViewQuery, entries: seq<Result<ChunkedEntry>>, fetchMessages: MessageFetch)
    returns (next: ViewQuery, segments: seq<string>, received: seq<Result<ChunkedMessage>>)
    ensures next == CursorAfter(cursor, Accepted(entries))
    ensures segments == SegmentUris(Accepted(entries))
    ensures received == Drained(segments, fetchMessages)
  {
    next, segments, received := cursor, [], [];
    ghost var accepted := Accepted(entries);
    var k := 0;
    while k < |entries| && entries[k].Ok?
      invariant k <= |accepted|
      invariant next == CursorAfter(cursor, accepted[..k])
      invariant segments == SegmentUris(accepted[..k])
      invariant received == Drained(segments, fetchMessages)
    {
      var message := entries[k].value;
      assert accepted[..k + 1] == accepted[..k] + [message];
      assert accepted[..k + 1][..k] == accepted[..k];
      if message.entry.Some? {
        match message.entry.value
        case Next(at) =>
          next := At(at);
        case Segment(uri) =>
          var stream := DrainSegment(uri, fetchMessages);
          received := received + stream;
          DrainedSnoc(segments, uri, fetchMessages);
          segments := segments + [uri];
        case Other =>
      }
      k := k + 1;
    }
    assert accepted[..k] == accepted;
  }

  /**
   * The outer loop, for as many polls as `responses` holds: the first poll
   * asks for `Now`, and every later poll asks from the cursor the previous one
   * reached. `responses[k]` is what the entry endpoint answered to `queries[k]`.
   */
  method Follow(responses: seq<seq<Result<ChunkedEntry>>>, fetchMessages: MessageFetch)
    returns (queries: seq<ViewQuery>, cursor: ViewQuery, received: seq<Result<ChunkedMessage>>)
    ensures |queries| == |responses|
    ensures |queries| > 0 ==> queries[0] == Now
    ensures forall k :: 1 <= k < |queries| ==> queries[k] == CursorAfter(queries[k - 1], Accepted(responses[k - 1]))
    ensures cursor == if queries == [] then Now else CursorAfter(queries[|queries| - 1], Accepted(responses[|queries| - 1]))
    ensures received == AllDrained(responses, fetchMessages)
  {
    cursor, queries, received := Now, [], [];
    for k := 0 to |responses|
      invariant |queries| == k
      invariant k > 0 ==> queries[0] == Now
      invariant forall j :: 1 <= j < k ==> queries[j] == CursorAfter(queries[j - 1], Accepted(responses[j - 1]))
      invariant cursor == if k == 0 then Now else CursorAfter(queries[k - 1], Accepted(responses[k - 1]))
      invariant received == AllDrained(responses[..k], fetchMessages)
    {
      queries := queries + [cursor];
      var segments, polled;
      cursor, segments, polled := Poll(cursor, responses[k], fetchMessages);
      assert responses[..k + 1][..k] == responses[..k];
      AllDrainedStep(responses[..k + 1], fetchMessages);
      received := received + polled;
    }
    assert responses[..|responses|] == responses;
  }

  lemma AppendAssoc<T>(a: seq<T>, b: seq<T>, c: seq<T>)
    ensures (a + b) + c == a + (b + c)
  {
  }

  lemma AllDrainedStep(rs: seq<seq<Result<ChunkedEntry>>>, fetchMessages: MessageFetch)
    requires rs != []
    ensures AllDrained(rs, fetchMessages) ==
      AllDrained(rs[..|rs| - 1], fetchMessages) + Drained(SegmentUris(Accepted(rs[|rs| - 1])), fetchMessages)
  {
  }

  /**
   * Polls are drained in order: the messages of a run of polls followed by
   * another run are the first run's messages, then the second's.
   */
  lemma {:induction false} AllDrainedAppend(r1: seq<seq<Result<ChunkedEntry>>>, r2: seq<seq<Result<ChunkedEntry>>>, fetchMessages: MessageFetch)
    ensures AllDrained(r1 + r2, fetchMessages) == AllDrained(r1, fetchMessages) + AllDrained(r2, fetchMessages)
    decreases |r2|
  {
    if r2 == [] {
      assert r1 + r2 == r1;
    } else {
      var n := |r2| - 1;
      var all := r1 + r2;
      var d := Drained(SegmentUris(Accepted(r2[n])), fetchMessages);
      assert AllDrained(all, fetchMessages) == AllDrained(r1 + r2[..n], fetchMessages) + d by {
        assert all[..|all| - 1] == r1 + r2[..n];
        assert all[|all| - 1] == r2[n];
        AllDrainedStep(all, fetchMessages);
      }
      assert AllDrained(r2, fetchMessages) == AllDrained(r2[..n], fetchMessages) + d by {
        AllDrainedStep(r2, fetchMessages);
      }
      AllDrainedAppend(r1, r2[..n], fetchMessages);
      AppendAssoc(AllDrained(r1, fetchMessages), AllDrained(r2[..n], fetchMessages), d);
    }
  }

  lemma ScriptedEntries(es: seq<ChunkedEntry>)
    requires |es| == 3
    ensures Accepted([Ok(es[0]), Ok(es[1]), Ok(es[2])]) == es
  {
    var items := [Ok(es[0]), Ok(es[1]), Ok(es[2])];
    assert items[1..][1..][1..] == [];
  }

  lemma ScriptedSegments(a: string, b: string, es: seq<ChunkedEntry>)
    requires es == [ChunkedEntry(Some(Segment(a))), ChunkedEntry(Some(Next(100))), ChunkedEntry(Some(Segment(b)))]
    ensures SegmentUris(es) == [a, b]
  {
    assert [es[0]][..0] == [];
    assert SegmentUris([es[0]]) == [a];
    assert SegmentUris(es[..2]) == SegmentUris(es[..2][..1]) + [] by {
      assert es[..2][1] == es[1];
    }
    assert es[..2][..1] == [es[0]];
    assert SegmentUris(es) == SegmentUris(es[..2]) + [b];
  }

  lemma ScriptedDrain(fetchMessages: MessageFetch, a: string, b: string, m1: ChunkedMessage, m2: ChunkedMessage, m3: ChunkedMessage)
    requires fetchMessages(a) == [Ok(m1), Ok(m2)] && fetchMessages(b) == [Ok(m3)]
    ensures Drained([a, b], fetchMessages) == [Ok(m1), Ok(m2), Ok(m3)]
  {
    DrainedSnoc([], a, fetchMessages);
    assert [] + [a] == [a];
    DrainedSnoc([a], b, fetchMessages);
    assert [a] + [b] == [a, b];
  }

  /**
   * A scripted poll: segment `a`, then `Next(100)`, then segment `b`, yields
   * `a`'s messages then `b`'s, and leaves the cursor at `At(100)`.
   */
  lemma ScriptedPoll(cursor: ViewQuery, fetchMessages: MessageFetch, a: string, b: string, m1: ChunkedMessage, m2: ChunkedMessage, m3: ChunkedMessage)
    requires fetchMessages(a) == [Ok(m1), Ok(m2)] && fetchMessages(b) == [Ok(m3)]
    ensures var entries := [Ok(ChunkedEntry(Some(Segment(a)))), Ok(ChunkedEntry(Some(Next(100)))), Ok(ChunkedEntry(Some(Segment(b))))];
      && CursorAfter(cursor, Accepted(entries)) == At(100)
      && SegmentUris(Accepted(entries)) == [a, b]
      && Drained(SegmentUris(Accepted(entries)), fetchMessages) == [Ok(m1), Ok(m2), Ok(m3)]
  {
    var es := [ChunkedEntry(Some(Segment(a))), ChunkedEntry(Some(Next(100))), ChunkedEntry(Some(Segment(b)))];
    ScriptedEntries(es);
    CursorIsLastNext(cursor, es, 1, 100);
    ScriptedSegments(a, b, es);
    ScriptedDrain(fetchMessages, a, b, m1, m2, m3);
  }
}
