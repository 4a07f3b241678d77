/** Cronet's buffered request-body stream: the whole body is kept in one
    ByteBuffer, of exactly the declared content length when one is given,
    or starting at 16384 bytes and growing when it is not. Once the stream
    is connected no more bytes may be written; the upload then reads the
    buffer from a cursor that can be rewound. Java exceptions are error
    values. */
module CronetBufferedOutputStream {
  import opened Wrappers
  import opened JavaByteBuffer

  /** Initial capacity when the content length is unknown. */
  const InitialBufferSize: int := 16384

  /** The content length recorded when none was given. */
  const UnknownLength: int := -1

  datatype StreamError =
    | NullConnection          // NullPointerException, no connection given
    | ContentLengthTooLarge   // IllegalArgumentException, length > Integer.MAX_VALUE
    | NegativeContentLength   // IllegalArgumentException, length < 0
    | ExceededContentLength   // ProtocolException on write
    | WriteAfterConnect       // IllegalStateException
    | ContentTooShort         // ProtocolException on connect
    | NegativeBufferSize      // IllegalArgumentException from allocating the grown buffer
    | SliceOutOfBounds        // IndexOutOfBoundsException from the buffer put
    | Overflow                // BufferOverflowException from a buffer put

  datatype Stream = Stream(initialContentLength: int, buffer: ByteBuffer, connected: bool) {

    /** What every constructor establishes and every operation keeps: the
        buffer is a Java array, a fixed-length buffer has exactly the
        declared capacity, and until the stream is connected the limit is
        the capacity. */
    ghost predicate Valid() {
      && UnknownLength <= initialContentLength <= IntMaxValue
      && buffer.Valid()
      && buffer.Capacity() <= IntMaxValue
      && (initialContentLength != UnknownLength ==> buffer.Capacity() == initialContentLength)
      && (!connected ==> buffer.limit == buffer.Capacity())
    }

    function IsFixedLength(): bool {
      initialContentLength != UnknownLength
    }

    /** The bytes written so far (meaningful until the stream connects). */
    function Written(): seq<Byte>
      requires buffer.Valid()
    {
      buffer.data[..buffer.position]
    }
  }

  /** The outcome of an operation that may throw after changing state. */
  datatype Outcome = Outcome(stream: Stream, error: Option<StreamError>)

  /** Constructor for a known content length. The connection must be
      present (it is otherwise never read, so only its presence is kept);
      then the length must lie in [0, Integer.MAX_VALUE], and the buffer
      holds exactly that many bytes. */
  function NewFixedLength(hasConnection: bool, contentLength: int): (r: Result<Stream, StreamError>)
    ensures r == Failure(NullConnection) <==> !hasConnection
    ensures r == Failure(ContentLengthTooLarge) <==> hasConnection && contentLength > IntMaxValue
    ensures r == Failure(NegativeContentLength) <==> hasConnection && contentLength < 0
    ensures r.Success? ==>
      && r.value.Valid()
      && r.value.initialContentLength == contentLength
      && r.value.buffer.Capacity() == contentLength
      && r.value.Written() == []
      && !r.value.connected
  {
    if !hasConnection then Failure(NullConnection)
    else if contentLength > IntMaxValue then Failure(ContentLengthTooLarge)
    else if contentLength < 0 then Failure(NegativeContentLength)
    else
      var b := Allocate(contentLength);
      Success(Stream(contentLength, b.value, false))
  }

  /** Constructor for an unknown content length; the connection must be
      present. */
  function NewUnknownLength(hasConnection: bool): (r: Result<Stream, StreamError>)
    ensures r.Failure? <==> !hasConnection
    ensures r.Failure? ==> r.error == NullConnection
    ensures r.Success? ==>
      && r.value.Valid() && !r.value.IsFixedLength()
      && r.value.buffer.Capacity() == InitialBufferSize
      && r.value.Written() == [] && !r.value.connected
  {
    if !hasConnection then Failure(NullConnection)
    else Success(Stream(UnknownLength, Allocate(InitialBufferSize).value, false))
  }

  /** The length check of ensureCanWrite as Java evaluates it: the sum of
      position and count is an int and wraps past Integer.MAX_VALUE. */
  predicate ExceedsLength(s: Stream, count: int) {
    s.IsFixedLength() && Int32(s.buffer.position + count) > s.initialContentLength
  }

  /** The size an unknown-length buffer grows to, max(2 * capacity,
      capacity + count), with both the product and the sum evaluated as
      ints. */
  function GrownSize(s: Stream, count: int): int {
    Max(Int32(s.buffer.Capacity() * 2), Int32(s.buffer.Capacity() + count))
  }

  /** An unknown-length stream must grow and the grown size has wrapped to a
      negative int, which ByteBuffer.allocate refuses. */
  predicate GrowthFails(s: Stream, count: int) {
    !s.IsFixedLength() && s.buffer.Remaining() <= count && GrownSize(s, count) < 0
  }

  /** The room the put finds once ensureCanWrite has returned. */
  function RoomAfter(s: Stream, count: int): int {
    if s.IsFixedLength() || s.buffer.Remaining() > count then s.buffer.Remaining()
    else GrownSize(s, count) - s.buffer.position
  }

  /** None of the int sums that ensureCanWrite forms wraps. */
  predicate NoWrap(s: Stream, count: int) {
    if s.IsFixedLength() then s.buffer.position + count <= IntMaxValue
    else s.buffer.Remaining() > count || s.buffer.Capacity() + count <= IntMaxValue
  }

  /** The slice `src[offset..offset + count]` exists. */
  predicate SliceInBounds(src: seq<Byte>, offset: int, count: int) {
    0 <= offset && 0 <= count && offset + count <= |src|
  }

  /** Makes room for `count` more bytes. A fixed-length stream refuses to go
      past its length (checked before the connected flag) and never grows;
      an unknown-length stream grows to max(2 * capacity, capacity + count)
      unless more than `count` bytes remain. As long as no int sum wraps,
      at least `count` bytes remain afterwards; a wrapped length sum lets
      the write through and a wrapped growth size is refused by the
      allocation. The written bytes are kept in every case. */
  function EnsureCanWrite(s: Stream, count: int): (r: Result<Stream, StreamError>)
    requires s.Valid() && IntMinValue <= count <= IntMaxValue
    ensures r == Failure(ExceededContentLength) <==> ExceedsLength(s, count)
    ensures r == Failure(WriteAfterConnect) <==> s.connected && !ExceedsLength(s, count)
    ensures r == Failure(NegativeBufferSize) <==>
      !ExceedsLength(s, count) && !s.connected && GrowthFails(s, count)
    ensures NoWrap(s, count) ==>
      && (ExceedsLength(s, count) <==>
            s.IsFixedLength() && s.buffer.position + count > s.initialContentLength)
      && !GrowthFails(s, count)
    ensures r.Success? ==>
      && r.value.Valid()
      && r.value.initialContentLength == s.initialContentLength
      && !r.value.connected
      && r.value.Written() == s.Written()
      && r.value.buffer.Remaining() == RoomAfter(s, count)
    ensures r.Success? && NoWrap(s, count) ==> r.value.buffer.Remaining() >= count
    ensures r.Success? && s.IsFixedLength() ==> r.value == s
    ensures r.Success? && !s.IsFixedLength() && s.buffer.Remaining() > count ==> r.value == s
    ensures r.Success? && !s.IsFixedLength() && s.buffer.Remaining() <= count
            && 2 * s.buffer.Capacity() <= IntMaxValue && NoWrap(s, count) ==>
      r.value.buffer.Capacity() == Max(2 * s.buffer.Capacity(), s.buffer.Capacity() + count)
  {
    if ExceedsLength(s, count) then
      Failure(ExceededContentLength)
    else if s.connected then
      Failure(WriteAfterConnect)
    else if s.IsFixedLength() then
      Success(s)
    else if s.buffer.Remaining() > count then
      Success(s)
    else
      var afterSize := GrownSize(s, count);
      if afterSize < 0 then
        Failure(NegativeBufferSize)
      else
        GrownSizeCoversCapacity(s, count);
        var grown := Allocate(afterSize).value;
        var moved := PutBuffer(grown, Flip(s.buffer)).value.0;
        assert moved.data[..moved.position] == s.buffer.data[..s.buffer.position];
        Success(Stream(s.initialContentLength, moved, false))
  }

  /** Whenever the grown size is a valid allocation size it is at least the
      old capacity, so moving the written bytes over cannot overflow: each
      of the two int expressions either does not wrap, and then is at least
      the capacity, or wraps to a negative value. */
  lemma GrownSizeCoversCapacity(s: Stream, count: int)
    requires s.Valid() && count <= IntMaxValue && s.buffer.Remaining() <= count
    ensures GrownSize(s, count) >= 0 ==> GrownSize(s, count) >= s.buffer.Capacity()
    ensures GrownSize(s, count) >= 0 ==> s.buffer.Capacity() + count <= IntMaxValue || 2 * s.buffer.Capacity() <= IntMaxValue
  {
    var c := s.buffer.Capacity();
    assert 0 <= c * 2 <= IntMaxValue + IntModulus;
    assert 0 <= c + count <= IntMaxValue + IntModulus;
  }

  function Max(a: int, b: int): int {
    if a < b then b else a
  }

  /** write(byte[] buffer, int offset, int count): after ensureCanWrite the
      slice is put, which checks the slice bounds before the room. Without
      int wrap-around the put never finds the buffer full; with it, the
      length check can be passed by a write that then fails in the put. */
  function Write(s: Stream, src: seq<Byte>, offset: int, count: int): (r: Outcome)
    requires s.Valid() && IntMinValue <= count <= IntMaxValue
    ensures r.stream.Valid()
    ensures r.stream.initialContentLength == s.initialContentLength
    ensures r.error == Some(ExceededContentLength) <==> ExceedsLength(s, count)
    ensures r.error == Some(WriteAfterConnect) <==> s.connected && !ExceedsLength(s, count)
    ensures r.error == Some(NegativeBufferSize) <==>
      !ExceedsLength(s, count) && !s.connected && GrowthFails(s, count)
    ensures r.error == Some(SliceOutOfBounds) <==>
      !ExceedsLength(s, count) && !s.connected && !GrowthFails(s, count)
      && !SliceInBounds(src, offset, count)
    ensures r.error == Some(Overflow) <==>
      !ExceedsLength(s, count) && !s.connected && !GrowthFails(s, count)
      && SliceInBounds(src, offset, count) && count > RoomAfter(s, count)
    ensures NoWrap(s, count) ==>
      && r.error != Some(Overflow)
      && r.error != Some(NegativeBufferSize)
      && (r.error.None? <==>
            && !(s.IsFixedLength() && s.buffer.position + count > s.initialContentLength)
            && !s.connected
            && SliceInBounds(src, offset, count))
    ensures r.error.None? ==> r.stream.Written() == s.Written() + src[offset..offset + count]
    ensures r.error in {Some(ExceededContentLength), Some(WriteAfterConnect), Some(NegativeBufferSize)} ==>
      r.stream == s
    ensures r.error in {Some(SliceOutOfBounds), Some(Overflow)} ==>
      r.stream.Written() == s.Written() && !r.stream.connected
  {
    match EnsureCanWrite(s, count)
    case Failure(e) => Outcome(s, Some(e))
    case Success(ready) =>
      match PutBytes(ready.buffer, src, offset, count)
      case Failure(e) => Outcome(ready, Some(if e == IndexOutOfBounds then SliceOutOfBounds else Overflow))
      case Success(b) =>
        assert b.data[..b.position] == ready.buffer.data[..ready.buffer.position] + src[offset..offset + count] by {
          assert b.data[..b.position] == b.data[..ready.buffer.position] + b.data[ready.buffer.position..b.position];
        }
        Outcome(ready.(buffer := b), None)
  }

  /** write(int oneByte): the low eight bits of `oneByte` are appended. A
      stream that cannot take the byte is left as it was: past the declared
      length, after connecting, when a full fixed-length stream of
      Integer.MAX_VALUE bytes wraps its position sum, or when a full
      unknown-length buffer of Integer.MAX_VALUE bytes cannot grow. */
  function WriteByte(s: Stream, oneByte: int): (r: Outcome)
    requires s.Valid()
    ensures r.stream.Valid()
    ensures r.error == Some(ExceededContentLength) <==>
      s.IsFixedLength() && s.buffer.position == s.initialContentLength < IntMaxValue
    ensures r.error == Some(WriteAfterConnect) <==> s.connected && !ExceedsLength(s, 1)
    ensures r.error == Some(Overflow) <==>
      s.IsFixedLength() && !s.connected && s.buffer.position == IntMaxValue
    ensures r.error == Some(NegativeBufferSize) <==>
      !s.IsFixedLength() && !s.connected && s.buffer.Remaining() <= 1
      && s.buffer.Capacity() == IntMaxValue
    ensures r.error.None? <==>
      && !s.connected
      && (s.IsFixedLength() ==> s.buffer.position < s.initialContentLength)
      && (!s.IsFixedLength() ==> s.buffer.Remaining() > 1 || s.buffer.Capacity() < IntMaxValue)
    ensures r.error.None? ==> r.stream.Written() == s.Written() + [oneByte % 256]
    ensures r.error.Some? ==> r.stream == s
  {
    match EnsureCanWrite(s, 1)
    case Failure(e) => Outcome(s, Some(e))
    case Success(ready) =>
      match PutByte(ready.buffer, oneByte % 256)
      case Failure(_) => Outcome(ready, Some(Overflow))
      case Success(b) => Outcome(ready.(buffer := b), None)
  }

  /** setConnected: the stream is marked connected first; then a
      fixed-length stream that received fewer bytes than declared throws,
      and otherwise the buffer is flipped for reading. */
  function SetConnected(s: Stream): (r: Outcome)
    requires s.Valid()
    ensures r.stream.Valid() && r.stream.connected
    ensures r.stream.initialContentLength == s.initialContentLength
    ensures r.error.Some? <==> s.buffer.position < s.initialContentLength
    ensures r.error.Some? ==> r.error == Some(ContentTooShort) && r.stream.buffer == s.buffer
    ensures r.error.None? ==>
      && r.stream.buffer.data == s.buffer.data
      && r.stream.buffer.position == 0
      && r.stream.buffer.limit == s.buffer.position
  {
    var marked := s.(connected := true);
    if s.buffer.position < s.initialContentLength then Outcome(marked, Some(ContentTooShort))
    else Outcome(marked.(buffer := Flip(s.buffer)), None)
  }

  /** getLength: the declared length of a fixed-length stream, otherwise the
      buffer position, which is the number of bytes written as long as the
      stream has not connected. */
  function GetLength(s: Stream): (n: int)
    requires s.Valid()
    ensures s.IsFixedLength() ==> n == s.initialContentLength
    ensures !s.IsFixedLength() ==> n == s.buffer.position
    ensures !s.IsFixedLength() && !s.connected ==> n == |s.Written()|
  {
    if s.initialContentLength == UnknownLength then s.buffer.position
    else s.initialContentLength
  }

  /** read: copies min(room in the destination, bytes left) bytes from the
      cursor into `dst` and advances the cursor by that amount. Room is
      measured up to the destination's capacity; a destination whose limit
      is below its capacity can therefore overflow. */
  function Read(s: Stream, dst: ByteBuffer): (r: Result<(Stream, ByteBuffer), StreamError>)
    requires s.Valid() && dst.Valid()
    ensures dst.limit == dst.Capacity() ==> r.Success?
    ensures r.Success? ==>
      var (s', dst') := r.value;
      var n := if dst.Capacity() - dst.position < s.buffer.Remaining()
               then dst.Capacity() - dst.position else s.buffer.Remaining();
      && s'.Valid() && dst'.Valid()
      && s' == s.(buffer := s.buffer.(position := s.buffer.position + n))
      && dst'.Capacity() == dst.Capacity() && dst'.limit == dst.limit
      && dst'.position == dst.position + n
      && dst'.data[..dst.position] == dst.data[..dst.position]
      && dst'.data[dst.position..dst'.position] == s.buffer.data[s.buffer.position..s.buffer.position + n]
      && dst'.data[dst'.position..] == dst.data[dst'.position..]
  {
    var availableSpace := dst.Capacity() - dst.position;
    if availableSpace < s.buffer.Remaining() then
      match PutBytes(dst, s.buffer.data, s.buffer.position, availableSpace)
      case Failure(_) => Failure(Overflow)
      case Success(dst') =>
        var moved := SetPosition(s.buffer, s.buffer.position + availableSpace).value;
        Success((s.(buffer := moved), dst'))
    else
      match PutBuffer(dst, s.buffer)
      case Failure(_) => Failure(Overflow)
      case Success((dst', src')) => Success((s.(buffer := src'), dst'))
  }

  /** rewind: the read cursor returns to the start of the body. */
  function Rewind(s: Stream): (r: Stream)
    requires s.Valid()
    ensures r.Valid()
    ensures r.buffer.position == 0
    ensures r.buffer.data == s.buffer.data && r.buffer.limit == s.buffer.limit
    ensures r.initialContentLength == s.initialContentLength && r.connected == s.connected
  {
    s.(buffer := SetPosition(s.buffer, 0).value)
  }

  // ---------------------------------------------------------------------
  // Properties relating several operations.
  // ---------------------------------------------------------------------

  /** Once setConnected has run, whether it threw or not, every later write
      throws: past the declared length first, otherwise because the stream
      is connected. */
  lemma NoWriteAfterConnect(s: Stream, src: seq<Byte>, offset: int, count: int)
    requires s.Valid() && IntMinValue <= count <= IntMaxValue
    ensures
      var c := SetConnected(s).stream;
      && Write(c, src, offset, count).error.Some?
      && Write(c, src, offset, count).error in {Some(ExceededContentLength), Some(WriteAfterConnect)}
  {
  }

  /** The length check as written wraps: with 10 bytes declared and 5
      written, a write of Integer.MAX_VALUE bytes sums to a negative int, so
      it is not reported as exceeding the content length. It fails later, in
      the slice check of the put, or as a write after connecting. */
  lemma WrappedLengthCheckLetsWriteThrough(s: Stream, src: seq<Byte>)
    requires s.Valid() && s.initialContentLength == 10 && s.buffer.position == 5
    requires |src| == 3
    ensures s.buffer.position + IntMaxValue > s.initialContentLength
    ensures !ExceedsLength(s, IntMaxValue)
    ensures !s.connected ==> Write(s, src, 0, IntMaxValue).error == Some(SliceOutOfBounds)
    ensures s.connected ==> Write(s, src, 0, IntMaxValue).error == Some(WriteAfterConnect)
  {
    assert Int32(5 + IntMaxValue) == 5 + IntMaxValue - IntModulus;
  }

  /** In fixed-length mode the buffer never grows: every write leaves the
      capacity at the declared length. */
  lemma FixedLengthNeverGrows(s: Stream, src: seq<Byte>, offset: int, count: int)
    requires s.Valid() && s.IsFixedLength() && IntMinValue <= count <= IntMaxValue
    ensures Write(s, src, offset, count).stream.buffer.Capacity() == s.initialContentLength
  {
  }

  /** The body round trip: after connecting, one read into an empty
      destination with room for the body delivers exactly the bytes that
      were written, and after a rewind the same read delivers them again. */
  lemma ConnectThenReadDeliversBody(s: Stream, dst: ByteBuffer)
    requires s.Valid() && !s.connected
    requires SetConnected(s).error.None?
    requires dst.Valid() && dst.position == 0 && dst.limit == dst.Capacity()
    requires dst.Capacity() >= |s.Written()|
    ensures
      var c := SetConnected(s).stream;
      && Read(c, dst).Success?
      && Read(c, dst).value.1.data[..|s.Written()|] == s.Written()
      && Read(c, dst).value.0.buffer.Remaining() == 0
      && Read(Rewind(Read(c, dst).value.0), dst).Success?
      && Read(Rewind(Read(c, dst).value.0), dst).value.1.data[..|s.Written()|] == s.Written()
  {
    var c := SetConnected(s).stream;
    var n := |s.Written()|;
    assert c.buffer.Remaining() == n;
    var (c1, d1) := Read(c, dst).value;
    assert d1.data[..n] == d1.data[dst.position..d1.position];
    var rewound := Rewind(c1);
    assert rewound.buffer == c.buffer;
    var (c2, d2) := Read(rewound, dst).value;
    assert d2.data[..n] == d2.data[dst.position..d2.position];
  }

  /** Writing bytes one chunk at a time into an unknown-length stream keeps
      every chunk, in order, whatever growth happened in between, as long as
      twice the whole body fits in an int: growth only happens once the
      capacity is at most the bytes written plus the next chunk, so the
      capacity-plus-count sum then cannot wrap. */
  lemma {:induction false} UnknownLengthKeepsEveryChunk(s: Stream, chunks: seq<seq<Byte>>)
    requires s.Valid() && !s.IsFixedLength() && !s.connected
    requires 2 * (|s.Written()| + |Concat(chunks)|) <= IntMaxValue
    ensures JavaArrays(chunks)
    ensures WriteAll(s, chunks).error.None?
    ensures WriteAll(s, chunks).stream.Written() == s.Written() + Concat(chunks)
    decreases |chunks|
  {
    ChunksWithinConcat(chunks);
    if |chunks| > 0 {
      var next := Write(s, chunks[0], 0, |chunks[0]|);
      WholeChunkIsKept(s, chunks[0]);
      assert |next.stream.Written()| + |Concat(chunks[1..])| == |s.Written()| + |Concat(chunks)|;
      UnknownLengthKeepsEveryChunk(next.stream, chunks[1..]);
      assert WriteAll(s, chunks) == WriteAll(next.stream, chunks[1..]);
      assert s.Written() + chunks[0] + Concat(chunks[1..]) == s.Written() + Concat(chunks);
    }
  }

  /** One step of the above: a whole chunk written to an unknown-length
      stream whose capacity-plus-count sum cannot wrap is appended. */
  lemma WholeChunkIsKept(s: Stream, chunk: seq<Byte>)
    requires s.Valid() && !s.IsFixedLength() && !s.connected
    requires 2 * (|s.Written()| + |chunk|) <= IntMaxValue
    ensures
      var next := Write(s, chunk, 0, |chunk|);
      && next.error.None?
      && next.stream.Valid() && !next.stream.IsFixedLength() && !next.stream.connected
      && next.stream.Written() == s.Written() + chunk
  {
    assert chunk[0..|chunk|] == chunk;
    assert NoWrap(s, |chunk|);
    assert SliceInBounds(chunk, 0, |chunk|);
  }

  /** Every chunk is a Java array, so its length is at most
      Integer.MAX_VALUE. */
  ghost predicate JavaArrays(chunks: seq<seq<Byte>>) {
    forall i :: 0 <= i < |chunks| ==> |chunks[i]| <= IntMaxValue
  }

  /** A body that fits in an int is made of chunks that do. */
  lemma {:induction false} ChunksWithinConcat(chunks: seq<seq<Byte>>)
    requires |Concat(chunks)| <= IntMaxValue
    ensures JavaArrays(chunks)
    decreases |chunks|
  {
    if |chunks| > 0 {
      ChunksWithinConcat(chunks[1..]);
      forall i | 0 <= i < |chunks|
        ensures |chunks[i]| <= IntMaxValue
      {
        if i > 0 { assert chunks[i] == chunks[1..][i - 1]; }
      }
    }
  }

  /** Writes the chunks in order, stopping at the first error. */
  function WriteAll(s: Stream, chunks: seq<seq<Byte>>): (r: Outcome)
    requires s.Valid() && JavaArrays(chunks)
    ensures r.stream.Valid()
    decreases |chunks|
  {
    if |chunks| == 0 then Outcome(s, None)
    else
      var next := Write(s, chunks[0], 0, |chunks[0]|);
      if next.error.Some? then next else WriteAll(next.stream, chunks[1..])
  }

  function Concat(chunks: seq<seq<Byte>>): seq<Byte>
    decreases |chunks|
  {
    if |chunks| == 0 then [] else chunks[0] + Concat(chunks[1..])
  }
}
