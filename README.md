# Bounded byte stream

A model of the byte stream of `src/byte_stream.cc`: a single-producer,
single-consumer FIFO of bytes whose capacity bounds how many bytes may be
buffered (pushed and not yet popped) at any moment. The writer facet pushes,
closes and reports the free room and the number of bytes pushed; the reader
facet peeks at the front, pops, and reports whether the stream is finished and
how many bytes are buffered and were popped. An external error flag, checked
by push and pop and never set by them, turns both into no-ops.

The project has three modules.

- `Bytes` (`bytes.dfy`): the `byte` type and the chunk deque. `Flatten`
  concatenates the chunks. `Rep(chunks, off, n)` is the deque's representation
  invariant: no chunk is empty, the front offset lies inside the front chunk
  whenever there is one (and is 0 otherwise), and `off + n` is the total length.
- `StreamSpec` (`stream_spec.dfy`): the abstract stream. A `State` holds the
  buffered bytes as one sequence, the counters and the flags. It also holds two
  histories that the source does not store: `written` (every accepted byte) and
  `read` (every popped byte). Each operation is one function. `Inv` is the
  invariant of every reachable state: `|buffer| <= capacity`, the counters are
  the history lengths, and `written == read + buffer`. `Run` replays any
  sequence of operations, and lemmas state the laws over single operations and
  whole runs.
- `ByteStreams` (`byte_stream.dfy`): class `ByteStream`, with the source's
  fields (chunk deque as `seq<seq<byte>>`, front offset, three counters, two
  flags). The `Reader` and `Writer` views of the source are one class with two
  groups of members. Each method is proved against `StreamSpec` through the
  ghost `Abs()`, whose buffer is `Contents()`: the chunks concatenated, minus
  the consumed prefix of the front chunk. `PopChunks` is the chunk walk of
  `pop`, on the deque's value.

A capacity of zero is allowed, as in the source, which does not check it. Such
a stream is always full and rejects every push.

Peek returns only the rest of the front chunk: after pushing "ab", popping 1
and pushing "cd" the contents are "bcd" but peek returns "b"
(src/byte_stream.cc:64). `Peek` is therefore specified to return a prefix of
the contents that is non-empty whenever bytes are buffered, not all of them;
`ChunkBoundaryClient` walks through this case.

## Model

| member | source | states |
|---|---|---|
| `StreamSpec.Init` | src/byte_stream.cc:6 | a new stream has the given capacity, is empty, open and healthy, and both counters are 0 |
| `StreamSpec.Available` | src/byte_stream.cc:43-46 | free room plus buffered bytes equals the capacity, so the unsigned subtraction never wraps |
| `StreamSpec.Accepted` | src/byte_stream.cc:11-22 | a push accepts at most the data length and at most the free room; it accepts nothing exactly when the stream is closed, the data empty, the error flag set or the room zero; otherwise it accepts all the data or fills the room |
| `StreamSpec.Push` | src/byte_stream.cc:9-28 | a push keeps the invariant (buffer within capacity, counters match histories, written = read + buffer) |
| `StreamSpec.Removed` | src/byte_stream.cc:70-71 | a pop removes at most `len` and at most what is buffered; nothing exactly when `len` is 0, the error flag is set or the buffer is empty; otherwise `len` or everything |
| `StreamSpec.Pop` | src/byte_stream.cc:68-88 | a pop keeps the invariant |
| `StreamSpec.Close` | src/byte_stream.cc:31-34 | closing sets the closed flag, keeps the invariant, and finishes the stream exactly when nothing is buffered |
| `StreamSpec.SetError` | src/byte_stream.cc:70 | raising the error flag keeps the invariant |
| `StreamSpec.InvCounters` | src/byte_stream.cc:25-26 | in every reachable state bytes popped <= bytes pushed, bytes buffered = pushed - popped, and what was read is a prefix of what was written |
| `StreamSpec.PushNoOp` | src/byte_stream.cc:11-18 | a push leaves the state unchanged exactly when the stream is closed, the data is empty, the error flag is set or there is no room |
| `StreamSpec.PushTruncates` | src/byte_stream.cc:15-27 | on an open, healthy stream a push keeps the old bytes, appends a prefix of the data of length `min(|data|, room)`, grows bytes pushed and bytes buffered by that length, and either takes all the data or fills the stream |
| `StreamSpec.PopFront` | src/byte_stream.cc:71-87 | a pop takes bytes from the front only: the removed bytes followed by the remaining ones are the old buffer; bytes popped grows and bytes buffered shrinks by `min(len, buffered)` unless the error flag is set |
| `StreamSpec.PopPop` | src/byte_stream.cc:71 | because pop clamps, popping `a` then `b` bytes is the same as popping `a + b` |
| `StreamSpec.CloseIdempotent` | src/byte_stream.cc:31-34 | closing twice is closing once; close changes neither contents nor counters |
| `StreamSpec.Step` | src/byte_stream.cc:9-88 | every operation keeps the invariant |
| `StreamSpec.Run` | src/byte_stream.cc:9-88 | every state reached by any sequence of operations keeps the invariant and the capacity |
| `StreamSpec.StepMonotone` | src/byte_stream.cc:11-34 | over one operation the counters and histories only grow; closed, error and finished are never cleared; a closed stream accepts no byte; a stream in error changes no byte |
| `StreamSpec.RunMonotone` | src/byte_stream.cc:11-88 | the same over any sequence of operations, and what was read is always a prefix of what was written, so bytes are never reordered or duplicated |
| `StreamSpec.RunAppend` | src/byte_stream.cc:9-88 | running two sequences of operations in turn is running their concatenation |
| `StreamSpec.RunPushesFit` | src/byte_stream.cc:15-27 | pushes whose total fits the room are accepted whole and in order: the buffer and the written history grow by the concatenated data |
| `StreamSpec.RoundTrip` | src/byte_stream.cc:9-88 | on a fresh stream, pushes whose total fits the capacity followed by a pop that drains it read out exactly the bytes written, in order, and leave the counters equal |
| `Bytes.FlattenAppend` | src/byte_stream.cc:27 | the bytes of two chunk queues in turn are the bytes of their concatenation |
| `Bytes.FlattenPushBack` | src/byte_stream.cc:27 | storing a chunk at the back of the deque appends its bytes to the deque's bytes |
| `Bytes.FlattenDropFront` | src/byte_stream.cc:83-85 | dropping the front chunk drops exactly its bytes from the front and keeps every remaining chunk non-empty |
| `Bytes.RepPushBack` | src/byte_stream.cc:24-27 | storing a non-empty chunk keeps the deque representation and appends the chunk to the unconsumed bytes |
| `ByteStreams.ByteStream.constructor` | src/byte_stream.cc:6 | the new object is valid and its abstract state is `Init(capacity)` |
| `ByteStreams.ByteStream.Push` | src/byte_stream.cc:9-28 | the object stays valid and its abstract state becomes `StreamSpec.Push` of the old one |
| `ByteStreams.ByteStream.Close` | src/byte_stream.cc:31-34 | the object stays valid and its abstract state becomes `StreamSpec.Close` of the old one |
| `ByteStreams.ByteStream.IsClosed` | src/byte_stream.cc:37-40 | returns the abstract closed flag |
| `ByteStreams.ByteStream.AvailableCapacity` | src/byte_stream.cc:43-46 | returns capacity minus the length of the contents, a natural number |
| `ByteStreams.ByteStream.BytesPushed` | src/byte_stream.cc:49-52 | returns the number of bytes ever accepted, which is bytes popped plus the length of the contents |
| `ByteStreams.ByteStream.Peek` | src/byte_stream.cc:58-65 | returns a prefix of the contents, empty exactly when the deque holds no chunk and exactly when nothing is buffered |
| `ByteStreams.ByteStream.Pop` | src/byte_stream.cc:68-88 | the object stays valid and its abstract state becomes `StreamSpec.Pop` of the old one |
| `ByteStreams.PopChunks` | src/byte_stream.cc:76-87 | walking the deque removes exactly `k` bytes from the front: the remaining chunks minus the new offset are the old contents without their first `k` bytes, and the deque stays valid (no empty chunk, offset inside the front chunk) |
| `ByteStreams.ByteStream.IsFinished` | src/byte_stream.cc:91-94 | true exactly when closed and the contents are empty |
| `ByteStreams.ByteStream.BytesBuffered` | src/byte_stream.cc:97-100 | returns the length of the contents, which is bytes pushed minus bytes popped |
| `ByteStreams.ByteStream.BytesPopped` | src/byte_stream.cc:103-106 | returns the number of bytes ever popped, which is at most bytes pushed |
| `ByteStreams.ByteStream.SetError` | src/byte_stream.cc:70 | the object stays valid and its abstract state becomes `StreamSpec.SetError` of the old one |

## Left out

- The counters are unbounded naturals; the 64-bit wrap-around of `bytes_pushed_` and `bytes_popped_` after 2^64 bytes is not modelled.
- `peek` returns a `seq<byte>` value. That the source's `string_view` is valid only until the next mutation is not modelled.
- `debug.hh` and `byte_stream.hh` are not part of this model. The class fields follow their use in `src/byte_stream.cc`.
- The code that sets `error_` is not part of this model. It is stood in for by `SetError`.
- `std::move` and the allocation done by `resize` are not modelled; truncating the data becomes taking a prefix.
- `ByteStreams.PopChunks`: the `while` loop of `pop` is a separate method on the deque's value, called by `Pop`, instead of being written inline.
