/** dendrite's `MemoryOutputStream`: a growable byte buffer. The backing
    array doubles whenever it runs out of room; only its first `position`
    bytes are content. Every encoder of the model describes its output by
    that content alone (`Contents`), so this module is also where the
    content view is shown to match what the buffer operations do. */
module MemoryOutputStreams {
  import opened Words

  const DEFAULT_BUFFER_LENGTH: nat := 1024

  /** The backing array and the number of bytes written to it. */
  datatype Stream = Stream(buffer: seq<byte>, position: nat) {

    /** A stream as its constructors leave it: a non-empty backing array
        (every constructor call in the library passes a positive length)
        and a position inside it. */
    predicate Valid() {
      0 < |buffer| && position <= |buffer|
    }

    /** The bytes written so far. */
    function Contents(): seq<byte>
      requires Valid()
    {
      buffer[..position]
    }
  }

  /** `new MemoryOutputStream(length)`. */
  function New(length: nat): (s: Stream)
    requires length > 0
    ensures s.Valid() && s.Contents() == [] && |s.buffer| == length
  {
    Stream(seq(length, _ => 0), 0)
  }

  /** `reset`: forgets the content and keeps the backing array. */
  function Reset(s: Stream): (r: Stream)
    requires s.Valid()
    ensures r.Valid() && r.Contents() == [] && r.buffer == s.buffer
  {
    s.(position := 0)
  }

  /** `getLength` (and `getEstimatedLength`). */
  function GetLength(s: Stream): (n: nat)
    requires s.Valid()
    ensures n == |s.Contents()|
  {
    s.position
  }

  /** `writeTo(mos)`: appends this stream's content to `target`. */
  method WriteTo(s: Stream, target: Stream) returns (r: Stream)
    requires s.Valid() && target.Valid()
    ensures r.Valid() && r.Contents() == target.Contents() + s.Contents()
  {
    r := WriteBytes(target, s.buffer, 0, s.position);
  }

  /** `grow`: a backing array twice as long, with the old one copied to its
      front and zeros after it. */
  function Grow(s: Stream): (r: Stream)
    requires s.Valid()
    ensures r.Valid() && r.position == s.position
    ensures |r.buffer| == 2 * |s.buffer| && r.buffer[..|s.buffer|] == s.buffer
    ensures r.Contents() == s.Contents()
  {
    Stream(s.buffer + seq(|s.buffer|, _ => 0), s.position)
  }

  /** `ensureRemainingCapacity`: grows until `capacity` more bytes fit. The
      bytes already in the buffer are untouched. */
  method EnsureRemainingCapacity(s: Stream, capacity: int) returns (r: Stream)
    requires s.Valid()
    ensures r.Valid() && r.position == s.position
    ensures |r.buffer| - r.position >= capacity
    ensures |r.buffer| >= |s.buffer| && r.buffer[..|s.buffer|] == s.buffer
    ensures r.Contents() == s.Contents()
  {
    r := s;
    while |r.buffer| - r.position < capacity
      invariant r.Valid() && r.position == s.position
      invariant |r.buffer| >= |s.buffer| && r.buffer[..|s.buffer|] == s.buffer
      decreases capacity - (|r.buffer| - r.position)
    {
      r := Grow(r);
    }
  }

  /** `write(int)`: appends the low byte of `b`, growing a full buffer
      first. */
  function Write(s: Stream, b: int): (r: Stream)
    requires s.Valid()
    ensures r.Valid() && r.Contents() == s.Contents() + [b % 0x100]
    ensures |r.buffer| == if s.position == |s.buffer| then 2 * |s.buffer| else |s.buffer|
  {
    if s.position == |s.buffer| then
      var g := Grow(s);
      Stream(g.buffer[g.position := b % 0x100], g.position + 1)
    else
      Stream(s.buffer[s.position := b % 0x100], s.position + 1)
  }

  /** `write(bytes, offset, length)`: appends exactly
      `bytes[offset..offset+length]` and advances the position by
      `length`. */
  method WriteBytes(s: Stream, bytes: seq<byte>, offset: nat, length: nat) returns (r: Stream)
    requires s.Valid() && offset + length <= |bytes|
    ensures r.Valid() && r.Contents() == s.Contents() + bytes[offset..offset + length]
    ensures r.position == s.position + length
  {
    var room := EnsureRemainingCapacity(s, length);
    var p := room.position;
    var buffer := room.buffer[..p] + bytes[offset..offset + length] + room.buffer[p + length..];
    r := Stream(buffer, p + length);
    assert r.Contents() == room.buffer[..p] + bytes[offset..offset + length];
  }

  /** `write(ByteBuffer)`: appends the buffer's remaining bytes (its own
      position is restored afterwards). */
  method WriteBuffer(s: Stream, remaining: seq<byte>) returns (r: Stream)
    requires s.Valid()
    ensures r.Valid() && r.Contents() == s.Contents() + remaining
  {
    r := WriteBytes(s, remaining, 0, |remaining|);
    assert remaining[0..|remaining|] == remaining;
  }
}
