/**
 * The bounded byte stream as the source stores it: a deque of chunks, one per
 * accepted write, an offset of already consumed bytes into the front chunk,
 * three counters and two flags. The writer and reader facets of the source are
 * two groups of members of the one class below, so there is one copy of the
 * state and of each counter.
 *
 * Every member is proved against the abstract stream of module StreamSpec
 * through `Abs()`.
 */
module ByteStreams {
  import opened Bytes
  import StreamSpec

  class ByteStream {
    const capacity: nat
    var bytesPushed: nat
    var bytesPopped: nat
    var bytesBuffered: nat
    var closed: bool
    var error: bool
    var chunks: seq<seq<byte>>
    var removedOnFront: nat

    // history of accepted and of removed bytes; not stored by the source
    ghost var written: seq<byte>
    ghost var read: seq<byte>

    /** The representation invariant of the chunk deque. */
    ghost predicate RepOk()
      reads this
    {
      Rep(chunks, removedOnFront, bytesBuffered)
    }

    /** The logical contents: the chunks concatenated, minus the bytes already
        consumed from the front chunk. */
    ghost function Contents(): (c: seq<byte>)
      reads this
      requires RepOk()
      ensures |c| == bytesBuffered
    {
      Flatten(chunks)[removedOnFront..]
    }

    ghost function Abs(): StreamSpec.State
      reads this
      requires RepOk()
    {
      StreamSpec.State(capacity, Contents(), bytesPushed, bytesPopped, closed, error, written, read)
    }

    ghost predicate Valid()
      reads this
    {
      RepOk() && StreamSpec.Inv(Abs())
    }

    /** A capacity of zero is accepted: such a stream stays full and rejects
        every write. */
    constructor (capacity: nat)
      ensures Valid()
      ensures Abs() == StreamSpec.Init(capacity)
    {
      this.capacity := capacity;
      bytesPushed, bytesPopped, bytesBuffered := 0, 0, 0;
      closed, error := false, false;
      chunks, removedOnFront := [], 0;
      written, read := [], [];
    }

    // -------------------------------------------------------------------------
    // Writer facet

    /** Appends as much of `data` as fits and silently drops the rest. */
    method Push(data: seq<byte>)
      requires Valid()
      modifies this
      ensures Valid()
      ensures Abs() == StreamSpec.Push(old(Abs()), data)
    {
      ghost var s := old(Abs());
      if closed || |data| == 0 || error {
        StreamSpec.PushNoOp(s, data);
        return;
      }
      var canWrite := AvailableCapacity();
      if canWrite == 0 {
        StreamSpec.PushNoOp(s, data);
        return;
      }
      var accepted := data;
      if |accepted| > canWrite {
        accepted := accepted[..canWrite];
      }
      ghost var t := StreamSpec.Push(s, data);
      assert accepted == data[..StreamSpec.Accepted(s, data)];
      assert t.buffer == s.buffer + accepted && t.written == s.written + accepted;
      var writeLen := |accepted|;
      RepPushBack(chunks, removedOnFront, bytesBuffered, accepted);
      bytesPushed := bytesPushed + writeLen;
      bytesBuffered := bytesBuffered + writeLen;
      chunks := chunks + [accepted];
      written := t.written;
      assert Contents() == t.buffer;
    }

    method Close()
      requires Valid()
      modifies this
      ensures Valid()
      ensures Abs() == StreamSpec.Close(old(Abs()))
    {
      closed := true;
    }

    function IsClosed(): (b: bool)
      reads this
      requires Valid()
      ensures b == Abs().closed
    {
      closed
    }

    /** Free room; a `nat`, so the source's unsigned subtraction never wraps. */
    function AvailableCapacity(): (n: nat)
      reads this
      requires Valid()
      ensures n == capacity - |Contents()|
      ensures n == StreamSpec.Available(Abs())
    {
      capacity - bytesBuffered
    }

    function BytesPushed(): (n: nat)
      reads this
      requires Valid()
      ensures n == |written|
      ensures n == bytesPopped + |Contents()|
    {
      bytesPushed
    }

    // -------------------------------------------------------------------------
    // Reader facet

    /** The unconsumed rest of the front chunk: a prefix of the contents that is
        empty exactly when nothing is buffered. */
    function Peek(): (v: seq<byte>)
      reads this
      requires Valid()
      ensures v <= Contents()
      ensures v == [] <==> chunks == []
      ensures v == [] <==> bytesBuffered == 0
    {
      if chunks == [] then [] else chunks[0][removedOnFront..]
    }

    /** Removes `min(len, bytesBuffered)` bytes from the front, walking the
        chunk deque: a chunk is dropped once all of it has been consumed,
        otherwise the front offset advances. */
    method Pop(len: nat)
      requires Valid()
      modifies this
      ensures Valid()
      ensures Abs() == StreamSpec.Pop(old(Abs()), len)
    {
      ghost var s := old(Abs());
      ghost var t := StreamSpec.Pop(s, len);
      if len == 0 || error {
        assert t.buffer == s.buffer[0..] == s.buffer;
        assert t.read == s.read + [] == s.read;
        return;
      }
      var actualPopLen: nat := if len < bytesBuffered then len else bytesBuffered;
      assert actualPopLen == StreamSpec.Removed(s, len);
      assert t.buffer == s.buffer[actualPopLen..];
      assert t.read == s.read + s.buffer[..actualPopLen];
      bytesPopped := bytesPopped + actualPopLen;
      bytesBuffered := bytesBuffered - actualPopLen;
      chunks, removedOnFront := PopChunks(chunks, removedOnFront, s.buffer, actualPopLen);
      read := t.read;
      assert Contents() == t.buffer;
    }

    function IsFinished(): (b: bool)
      reads this
      requires Valid()
      ensures b <==> closed && Contents() == []
      ensures b == StreamSpec.Finished(Abs())
    {
      closed && bytesBuffered == 0
    }

    function BytesBuffered(): (n: nat)
      reads this
      requires Valid()
      ensures n == |Contents()|
      ensures n == bytesPushed - bytesPopped
    {
      bytesBuffered
    }

    function BytesPopped(): (n: nat)
      reads this
      requires Valid()
      ensures n == |read|
      ensures n <= bytesPushed
    {
      bytesPopped
    }

    // -------------------------------------------------------------------------
    // Entry point of the layer that drives the stream

    /** Raises the abort flag; afterwards every push and pop is a no-op. */
    method SetError()
      requires Valid()
      modifies this
      ensures Valid()
      ensures Abs() == StreamSpec.SetError(old(Abs()))
    {
      error := true;
    }
  }

  /** The chunk walk of the reader's pop: removes `k` bytes from the front of
      the deque `chunks` whose front chunk has `off` bytes consumed already. A
      chunk whose unconsumed rest is shorter than or as long as what remains
      to remove is dropped and the offset reset; otherwise the offset
      advances within it and the walk stops. */
  method PopChunks(chunks: seq<seq<byte>>, off: nat, ghost contents: seq<byte>, k: nat)
    returns (rest: seq<seq<byte>>, restOff: nat)
    requires Rep(chunks, off, |contents|) && Flatten(chunks)[off..] == contents
    requires k <= |contents|
    ensures Rep(rest, restOff, |contents| - k)
    ensures Flatten(rest)[restOff..] == contents[k..]
  {
    var remaining: nat := k;
    rest, restOff := chunks, off;
    while remaining > 0
      invariant ChunksNonEmpty(rest)
      invariant rest == [] ==> restOff == 0
      invariant rest != [] ==> restOff < |rest[0]|
      invariant restOff + remaining + (|contents| - k) == |Flatten(rest)|
      invariant Flatten(rest)[restOff + remaining..] == contents[k..]
    {
      var currentBlockLen := |rest[0]| - restOff;
      if remaining < currentBlockLen {
        restOff := restOff + remaining;
        break;
      } else {
        FlattenDropFront(rest, restOff + remaining);
        remaining := remaining - currentBlockLen;
        rest := rest[1..];
        restOff := 0;
      }
    }
  }

  /** A client that relies on the contracts alone: the chunk boundary left by
      a partial pop is invisible in the logical contents, and peek starts at the
      oldest unconsumed byte. */
  method ChunkBoundaryClient()
  {
    var s := new ByteStream(10);
    s.Push([97, 98]);
    assert s.Contents() == [97, 98];
    s.Pop(1);
    assert s.Contents() == [98];
    s.Push([99, 100]);
    assert s.Contents() == [98] + [99, 100];
    var v := s.Peek();
    assert v != [] && v[0] == 98;
    s.Close();
    s.Pop(3);
    assert s.IsFinished();
  }
}
