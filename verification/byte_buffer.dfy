/** The java.nio.ByteBuffer operations the buffered output stream uses, on a
    heap buffer: a backing array (whose length is the capacity), a position
    and a limit. */
module JavaByteBuffer {
  import opened Wrappers

  /** A Java byte, kept as its unsigned bit pattern. */
  type Byte = b: int | 0 <= b < 256

  /** Integer.MAX_VALUE and Integer.MIN_VALUE. */
  const IntMaxValue: int := 0x7fff_ffff
  const IntMinValue: int := -0x8000_0000

  /** The number of values of a Java int. */
  const IntModulus: int := 0x1_0000_0000

  /** What a Java int expression yields for the mathematical value `x`: the
      one int that agrees with `x` modulo 2^32 (two's-complement
      wrap-around). */
  function Int32(x: int): (r: int)
    ensures IntMinValue <= r <= IntMaxValue
    ensures IntMinValue <= x <= IntMaxValue ==> r == x
    ensures IntMaxValue < x <= IntMaxValue + IntModulus ==> r == x - IntModulus
    ensures (r - x) % IntModulus == 0
  {
    (x - IntMinValue) % IntModulus + IntMinValue
  }

  datatype BufferError = BufferOverflow | IndexOutOfBounds | IllegalArgument

  datatype ByteBuffer = ByteBuffer(data: seq<Byte>, position: int, limit: int) {

    ghost predicate Valid() {
      0 <= position <= limit <= |data|
    }

    function Capacity(): nat {
      |data|
    }

    function Remaining(): int {
      limit - position
    }
  }

  /** A zero-filled buffer of the given capacity, positioned at 0 with the
      limit at the capacity; a negative capacity is refused. */
  function Allocate(capacity: int): (r: Result<ByteBuffer, BufferError>)
    ensures r.Failure? <==> capacity < 0
    ensures r.Success? ==>
      && r.value.Valid()
      && r.value.Capacity() == capacity
      && r.value.position == 0
      && r.value.limit == capacity
  {
    if capacity < 0 then Failure(IllegalArgument)
    else Success(ByteBuffer(seq(capacity, _ => 0), 0, capacity))
  }

  /** Relative bulk put of `src[offset..offset + length]`: the slice bounds
      are checked first, then the room left before the limit. */
  function PutBytes(b: ByteBuffer, src: seq<Byte>, offset: int, length: int): (r: Result<ByteBuffer, BufferError>)
    requires b.Valid()
    ensures r == Failure(IndexOutOfBounds) <==> offset < 0 || length < 0 || offset + length > |src|
    ensures r == Failure(BufferOverflow) <==>
      0 <= offset && 0 <= length && offset + length <= |src| && length > b.Remaining()
    ensures r.Success? ==>
      && r.value.Valid()
      && r.value.Capacity() == b.Capacity()
      && r.value.limit == b.limit
      && r.value.position == b.position + length
      && r.value.data[..b.position] == b.data[..b.position]
      && r.value.data[b.position..r.value.position] == src[offset..offset + length]
      && r.value.data[r.value.position..] == b.data[r.value.position..]
  {
    if offset < 0 || length < 0 || offset + length > |src| then Failure(IndexOutOfBounds)
    else if length > b.Remaining() then Failure(BufferOverflow)
    else
      var data := b.data[..b.position] + src[offset..offset + length] + b.data[b.position + length..];
      Success(ByteBuffer(data, b.position + length, b.limit))
  }

  /** Relative single-byte put. */
  function PutByte(b: ByteBuffer, x: Byte): (r: Result<ByteBuffer, BufferError>)
    requires b.Valid()
    ensures r.Failure? <==> b.Remaining() < 1
    ensures r.Success? ==>
      && r.value.Valid()
      && r.value.Capacity() == b.Capacity()
      && r.value.limit == b.limit
      && r.value.position == b.position + 1
      && r.value.data[..r.value.position] == b.data[..b.position] + [x]
      && r.value.data[r.value.position..] == b.data[r.value.position..]
  {
    if b.Remaining() < 1 then Failure(BufferOverflow)
    else Success(b.(data := b.data[b.position := x], position := b.position + 1))
  }

  /** Relative bulk put of another buffer's remaining bytes into `dst`;
      both positions advance by the number of bytes moved. */
  function PutBuffer(dst: ByteBuffer, src: ByteBuffer): (r: Result<(ByteBuffer, ByteBuffer), BufferError>)
    requires dst.Valid() && src.Valid()
    ensures r.Failure? <==> src.Remaining() > dst.Remaining()
    ensures r.Success? ==>
      var (dst', src') := r.value;
      && dst'.Valid() && src'.Valid()
      && dst'.Capacity() == dst.Capacity() && dst'.limit == dst.limit
      && dst'.position == dst.position + src.Remaining()
      && dst'.data[..dst.position] == dst.data[..dst.position]
      && dst'.data[dst.position..dst'.position] == src.data[src.position..src.limit]
      && dst'.data[dst'.position..] == dst.data[dst'.position..]
      && src' == src.(position := src.limit)
  {
    var n := src.Remaining();
    if n > dst.Remaining() then Failure(BufferOverflow)
    else
      var data := dst.data[..dst.position] + src.data[src.position..src.limit] + dst.data[dst.position + n..];
      Success((ByteBuffer(data, dst.position + n, dst.limit), src.(position := src.limit)))
  }

  /** Flip: the limit becomes the position and the position becomes 0, so
      that what was written can be read back. */
  function Flip(b: ByteBuffer): (r: ByteBuffer)
    requires b.Valid()
    ensures r.Valid() && r.data == b.data
    ensures r.position == 0 && r.Remaining() == b.position
  {
    ByteBuffer(b.data, 0, b.position)
  }

  /** Absolute positioning; a position outside [0, limit] is refused. */
  function SetPosition(b: ByteBuffer, newPosition: int): (r: Result<ByteBuffer, BufferError>)
    requires b.Valid()
    ensures r.Failure? <==> newPosition < 0 || newPosition > b.limit
    ensures r.Success? ==> r.value.Valid() && r.value == b.(position := newPosition)
  {
    if newPosition < 0 || newPosition > b.limit then Failure(IllegalArgument)
    else Success(b.(position := newPosition))
  }
}
