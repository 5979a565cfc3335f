/**
 * Bytes and chunked byte storage.
 *
 * The stream keeps the bytes it has accepted as a queue of chunks, one chunk
 * per accepted write; the logical byte sequence is their concatenation.
 */
module Bytes {

  /** One octet, the element type of the stream's strings. */
  newtype byte = b: int | 0 <= b < 256

  function Min(a: nat, b: nat): (m: nat)
    ensures m <= a && m <= b
    ensures m == a || m == b
  {
    if a < b then a else b
  }

  /** The concatenation of a queue of chunks, front chunk first. */
  function Flatten(chunks: seq<seq<byte>>): seq<byte>
  {
    if chunks == [] then [] else chunks[0] + Flatten(chunks[1..])
  }

  /** Every stored chunk holds at least one byte. */
  predicate ChunksNonEmpty(chunks: seq<seq<byte>>)
  {
    [] !in chunks
  }

  /** Concatenation distributes over appending queues of chunks. */
  lemma {:induction false} FlattenAppend(a: seq<seq<byte>>, b: seq<seq<byte>>)
    ensures Flatten(a + b) == Flatten(a) + Flatten(b)
  {
    if a == [] {
      assert a + b == b;
    } else {
      assert (a + b)[0] == a[0];
      assert (a + b)[1..] == a[1..] + b;
      FlattenAppend(a[1..], b);
    }
  }

  /** Appending one chunk at the back appends its bytes at the back. */
  lemma FlattenPushBack(chunks: seq<seq<byte>>, c: seq<byte>)
    ensures Flatten(chunks + [c]) == Flatten(chunks) + c
  {
    FlattenAppend(chunks, [c]);
    assert Flatten([c]) == c + Flatten([]);
  }

  /** The chunk deque with `off` bytes consumed from its front chunk holds
      `n` unconsumed bytes: no chunk is empty and the offset lies inside the
      front chunk whenever there is one. */
  predicate Rep(chunks: seq<seq<byte>>, off: nat, n: nat)
  {
    && ChunksNonEmpty(chunks)
    && (if chunks == [] then off == 0 else off < |chunks[0]|)
    && off + n == |Flatten(chunks)|
  }

  /** Dropping the front chunk drops its bytes from the front of the
      concatenation. */
  lemma FlattenDropFront(chunks: seq<seq<byte>>, i: nat)
    requires chunks != [] && |chunks[0]| <= i <= |Flatten(chunks)|
    ensures |Flatten(chunks)| == |chunks[0]| + |Flatten(chunks[1..])|
    ensures Flatten(chunks)[i..] == Flatten(chunks[1..])[i - |chunks[0]|..]
    ensures ChunksNonEmpty(chunks) ==> ChunksNonEmpty(chunks[1..])
  {
    assert Flatten(chunks) == chunks[0] + Flatten(chunks[1..]);
  }

  /** Storing a further non-empty chunk at the back keeps the representation
      and appends the chunk's bytes to the unconsumed ones. */
  lemma RepPushBack(chunks: seq<seq<byte>>, off: nat, n: nat, c: seq<byte>)
    requires Rep(chunks, off, n) && c != []
    ensures Rep(chunks + [c], off, n + |c|)
    ensures Flatten(chunks + [c])[off..] == Flatten(chunks)[off..] + c
  {
    FlattenPushBack(chunks, c);
    if chunks != [] {
      assert (chunks + [c])[0] == chunks[0];
    }
  }
}
