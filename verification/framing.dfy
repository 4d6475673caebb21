/** The server's request framing (the inner `while True` of server.py's main
    loop): chunks of at most READ_LENGTH bytes are received and appended until
    the first chunk shorter than READ_LENGTH. The socket is abstracted as the
    sequence of chunks `recv(READ_LENGTH)` would return one after another; an
    empty chunk is the peer closing its side. */
module Framing {
  import opened Wrappers
  import opened Arith

  newtype byte = x: int | 0 <= x < 256

  type Chunk = seq<byte>

  /** `READ_LENGTH`, the argument of every `recv`. */
  const READ_LENGTH: nat := 1024

  /** A chunk that ends the request. */
  predicate IsShort(c: Chunk) {
    |c| < READ_LENGTH
  }

  /** What a socket can deliver: `recv(READ_LENGTH)` never returns more. */
  ghost predicate WellFormed(chunks: seq<Chunk>) {
    forall k :: 0 <= k < |chunks| ==> |chunks[k]| <= READ_LENGTH
  }

  function Concat(chunks: seq<Chunk>): seq<byte> {
    if |chunks| == 0 then [] else chunks[0] + Concat(chunks[1..])
  }

  /** `k` is the position of the first short chunk. */
  ghost predicate FirstShortAt(chunks: seq<Chunk>, k: int) {
    && 0 <= k < |chunks|
    && IsShort(chunks[k])
    && forall j :: 0 <= j < k ==> !IsShort(chunks[j])
  }

  /** The request the read loop assembles from the chunks it is given, or
      `None` when none of them is short: the loop is then still waiting in
      `recv` for a chunk that ends the request. */
  function Frame(chunks: seq<Chunk>): (r: Option<seq<byte>>)
    ensures r.Some? <==> exists k :: 0 <= k < |chunks| && IsShort(chunks[k])
    decreases |chunks|
  {
    if |chunks| == 0 then None
    else if IsShort(chunks[0]) then Some(chunks[0])
    else
      assert forall k :: 1 <= k < |chunks| ==> chunks[1..][k - 1] == chunks[k];
      match Frame(chunks[1..])
      case None => None
      case Some(rest) => Some(chunks[0] + rest)
  }

  /** A completed request is the concatenation of the chunks up to and
      including the first short one. */
  lemma {:induction false} FrameIsPrefix(chunks: seq<Chunk>, k: nat)
    requires FirstShortAt(chunks, k)
    ensures Frame(chunks) == Some(Concat(chunks[..k + 1]))
    decreases k
  {
    if k == 0 {
      assert chunks[..1] == [chunks[0]];
      assert Concat(chunks[..1]) == chunks[0] + Concat(chunks[..1][1..]);
      assert chunks[..1][1..] == [];
      assert chunks[0] + [] == chunks[0];
    } else {
      var tail := chunks[1..];
      assert FirstShortAt(tail, k - 1);
      FrameIsPrefix(tail, k - 1);
      assert chunks[..k + 1][1..] == tail[..k];
    }
  }

  /** The read loop as server.py writes it: `data += parte` until a short
      `parte`. `complete` is false when the chunks run out first, that is,
      when the server would still be blocked in `recv`. */
  method ReadRequest(chunks: seq<Chunk>) returns (data: seq<byte>, complete: bool)
    ensures complete <==> Frame(chunks).Some?
    ensures complete ==> Frame(chunks) == Some(data)
  {
    data := [];
    var i := 0;
    assert chunks[i..] == chunks;
    assert Frame(chunks).Some? ==> data + Frame(chunks).value == Frame(chunks).value;
    while i < |chunks|
      invariant 0 <= i <= |chunks|
      invariant Frame(chunks).Some? <==> Frame(chunks[i..]).Some?
      invariant Frame(chunks).Some? ==> Frame(chunks) == Some(data + Frame(chunks[i..]).value)
    {
      var parte := chunks[i];
      assert chunks[i..][1..] == chunks[i + 1..];
      if !IsShort(parte) && Frame(chunks[i + 1..]).Some? {
        assert Frame(chunks[i..]).value == parte + Frame(chunks[i + 1..]).value;
        assert data + Frame(chunks[i..]).value == (data + parte) + Frame(chunks[i + 1..]).value;
      }
      data := data + parte;
      i := i + 1;
      if IsShort(parte) {
        return data, true;
      }
    }
    complete := false;
  }

  /** Every chunk before the terminating one is full, so a complete request of
      `k` full chunks and a short one is `READ_LENGTH * k + |last|` bytes long. */
  lemma {:induction false} FrameLength(chunks: seq<Chunk>, k: nat)
    requires WellFormed(chunks)
    requires FirstShortAt(chunks, k)
    ensures Frame(chunks).Some?
    ensures |Frame(chunks).value| == READ_LENGTH * k + |chunks[k]|
    ensures |Frame(chunks).value| / READ_LENGTH == k
    ensures |Frame(chunks).value| % READ_LENGTH == |chunks[k]|
    decreases k
  {
    if k > 0 {
      var tail := chunks[1..];
      assert FirstShortAt(tail, k - 1);
      assert WellFormed(tail);
      FrameLength(tail, k - 1);
      assert |Frame(chunks).value| == READ_LENGTH + |Frame(tail).value|;
    }
    DivModOf(|Frame(chunks).value|, READ_LENGTH, k, |chunks[k]|);
  }

  /** Chunks after the terminating one are never read: whatever the peer
      sends after a short chunk is not part of the request. */
  lemma {:induction false} FrameIgnoresLaterChunks(chunks: seq<Chunk>, later: seq<Chunk>)
    requires Frame(chunks).Some?
    ensures Frame(chunks + later) == Frame(chunks)
    decreases |chunks|
  {
    var all := chunks + later;
    if !IsShort(chunks[0]) {
      assert all[1..] == chunks[1..] + later;
      FrameIgnoresLaterChunks(chunks[1..], later);
    }
  }

  /** How a stream of `payload` bytes arrives when every `recv` is filled as
      far as the data allows: full chunks, then the remainder. When the
      payload is a whole number of chunks the remainder is the empty chunk of
      the peer closing its side. */
  function Segments(payload: seq<byte>): (chunks: seq<Chunk>)
    ensures WellFormed(chunks)
    ensures |chunks| == |payload| / READ_LENGTH + 1
    ensures Concat(chunks) == payload
    ensures forall k :: 0 <= k < |chunks| - 1 ==> |chunks[k]| == READ_LENGTH
    ensures |chunks[|chunks| - 1]| == |payload| % READ_LENGTH
    decreases |payload|
  {
    if |payload| < READ_LENGTH then [payload]
    else
      var rest := Segments(payload[READ_LENGTH..]);
      assert ([payload[..READ_LENGTH]] + rest)[1..] == rest;
      assert (|payload| - READ_LENGTH) / READ_LENGTH == |payload| / READ_LENGTH - 1;
      assert (|payload| - READ_LENGTH) % READ_LENGTH == |payload| % READ_LENGTH;
      [payload[..READ_LENGTH]] + rest
  }

  /** A payload delivered in full chunks followed by its remainder (or the
      peer's close) is framed back exactly, whatever the peer sends after. */
  lemma {:induction false} FrameSegments(payload: seq<byte>, later: seq<Chunk>)
    ensures Frame(Segments(payload) + later) == Some(payload)
    decreases |payload|
  {
    var chunks := Segments(payload);
    if |payload| < READ_LENGTH {
      assert (chunks + later)[0] == payload;
    } else {
      var rest := Segments(payload[READ_LENGTH..]);
      assert (chunks + later)[1..] == rest + later;
      FrameSegments(payload[READ_LENGTH..], later);
      assert payload == payload[..READ_LENGTH] + payload[READ_LENGTH..];
    }
  }

  /** The framing defect: a non-empty payload that is a whole number of
      chunks, sent by a peer that keeps the connection open (as client.py
      does while it waits for the answer), never completes the request. */
  lemma FullChunksNeverComplete(payload: seq<byte>)
    requires |payload| % READ_LENGTH == 0
    ensures Frame(Segments(payload)[..|payload| / READ_LENGTH]) == None
  {
    var chunks := Segments(payload);
    var n := |payload| / READ_LENGTH;
    assert |chunks| == n + 1;
    var prefix := chunks[..n];
    forall k | 0 <= k < n
      ensures !IsShort(prefix[k])
    {
      assert prefix[k] == chunks[k] && k < |chunks| - 1;
    }
    assert !exists k :: 0 <= k < |prefix| && IsShort(prefix[k]);
  }
}
