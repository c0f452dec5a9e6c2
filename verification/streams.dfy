/**
 * The stream helpers of `Extensions`: reading and writing an `int` and a
 * string, and reading a whole stream into one array. A stream is its bytes,
 * a position and whether it can be read; a read returns any non-empty
 * chunk of what is left, so nothing is assumed about how data arrives.
 */
module StreamExtensions {

  import opened DotNet
  import opened Maths
  import BitConverter

  function Max(a: int, b: int): int
  {
    if a < b then b else a
  }

  /**
   * `data` after writing `bs` at `pos`: bytes under the write are replaced,
   * the stream grows when the write runs past its end, and a gap left by a
   * position past the end reads as zeros. Writing nothing changes nothing.
   */
  function Placed(data: seq<byte>, pos: nat, bs: seq<byte>): (r: seq<byte>)
    ensures |r| == if bs == [] then |data| else Max(|data|, pos + |bs|)
  {
    if bs == [] then data
    else
    var padded := if pos <= |data| then data else data + seq(pos - |data|, _ => 0 as byte);
    padded[..pos] + bs + (if pos + |bs| < |padded| then padded[pos + |bs|..] else [])
  }

  lemma PlacedElements(data: seq<byte>, pos: nat, bs: seq<byte>)
    ensures var r := Placed(data, pos, bs);
      forall i :: 0 <= i < |r| ==>
        r[i] == if pos <= i < pos + |bs| then bs[i - pos] else if i < |data| then data[i] else 0
  {
  }

  /** The written bytes are where they were written. */
  lemma PlacedSlice(data: seq<byte>, pos: nat, bs: seq<byte>)
    requires bs != []
    ensures Placed(data, pos, bs)[pos..pos + |bs|] == bs
  {
    PlacedElements(data, pos, bs);
  }

  /** Two writes in a row are one write of both. */
  lemma PlacedTwice(data: seq<byte>, pos: nat, a: seq<byte>, b: seq<byte>)
    ensures Placed(Placed(data, pos, a), pos + |a|, b) == Placed(data, pos, a + b)
  {
    var left := Placed(Placed(data, pos, a), pos + |a|, b);
    var right := Placed(data, pos, a + b);
    assert |left| == |right|;
    PlacedElements(data, pos, a);
    PlacedElements(Placed(data, pos, a), pos + |a|, b);
    PlacedElements(data, pos, a + b);
    forall i | 0 <= i < |left|
      ensures left[i] == right[i]
    {
    }
  }

  class Stream {
    var data: seq<byte>
    var position: nat
    var canRead: bool

    constructor (data: seq<byte>, canRead: bool)
      ensures this.data == data && position == 0 && this.canRead == canRead
    {
      this.data := data;
      position := 0;
      this.canRead := canRead;
    }

    /** Stream.ReadByte: the next byte, or -1 at the end. */
    method ReadByte() returns (b: int)
      modifies this
      ensures data == old(data) && canRead == old(canRead)
      ensures old(position) < |data| ==> b == data[old(position)] as int && position == old(position) + 1
      ensures old(position) >= |data| ==> b == -1 && position == old(position)
    {
      if position < |data| {
        b := data[position] as int;
        position := position + 1;
      } else {
        b := -1;
      }
    }

    /**
     * Stream.Read: copies some of the bytes left into buffer[offset..]; none
     * only when nothing is left or nothing was asked for.
     */
    method Read(buffer: array<byte>, offset: int, count: int) returns (n: int)
      requires 0 <= offset && 0 <= count && offset + count <= buffer.Length
      modifies this, buffer
      ensures data == old(data) && canRead == old(canRead)
      ensures count == 0 || old(position) >= |data| ==> n == 0
      ensures count > 0 && old(position) < |data| ==> 1 <= n <= count && old(position) + n <= |data|
      ensures position == old(position) + n
      ensures buffer[..offset] == old(buffer[..offset])
      ensures buffer[offset + n..] == old(buffer[offset + n..])
      ensures n > 0 ==> buffer[offset..offset + n] == data[old(position)..old(position) + n]
    {
      var available := if position < |data| then |data| - position else 0;
      var most := if count < available then count else available;
      if most == 0 {
        return 0;
      }
      n :| 1 <= n <= most;
      forall i | 0 <= i < n {
        buffer[offset + i] := data[position + i];
      }
      position := position + n;
    }

    /** Stream.Write of a block at the position. */
    method Write(bs: seq<byte>)
      modifies this
      ensures data == Placed(old(data), old(position), bs) && position == old(position) + |bs|
      ensures canRead == old(canRead)
    {
      data := Placed(data, position, bs);
      position := position + |bs|;
    }

    method WriteByte(b: byte)
      modifies this
      ensures data == Placed(old(data), old(position), [b]) && position == old(position) + 1
      ensures canRead == old(canRead)
    {
      Write([b]);
    }

    /** Stream.Seek(offset, SeekOrigin.Begin). */
    method Seek(offset: nat)
      modifies this
      ensures data == old(data) && canRead == old(canRead) && position == offset
    {
      position := offset;
    }
  }

  const CannotRead := "Stream cannot be read."
  const EndOfStream := "Unable to read beyond the end of the stream."

  /**
   * BinaryReader.ReadInt32 on the stream: four little-endian bytes. A
   * stream that cannot be read is refused by the reader's constructor; fewer
   * than four bytes left end the stream.
   */
  function ReadInt32Spec(data: seq<byte>, pos: nat, canRead: bool): (r: (Result<int>, nat))
    ensures r.0.Ok? ==> IsInt32(r.0.value) && r.1 == pos + 4
  {
    if !canRead then (Throws(Argument), pos)
    else if pos + 4 > |data| then (Throws(IOError(EndOfStream)), Max(pos, |data|))
    else (BitConverter.MachineDecode(BitConverter.Int32, data, pos), pos + 4)
  }

  method ReadInt32FromStream(stream: Stream) returns (r: Result<int>)
    modifies stream
    ensures stream.data == old(stream.data) && stream.canRead == old(stream.canRead)
    ensures (r, stream.position) == ReadInt32Spec(stream.data, old(stream.position), stream.canRead)
  {
    if !stream.canRead {
      return Throws(Argument);
    }
    if stream.position + 4 > |stream.data| {
      if stream.position < |stream.data| {
        stream.Seek(|stream.data|);
      }
      return Throws(IOError(EndOfStream));
    }
    r := BitConverter.MachineDecode(BitConverter.Int32, stream.data, stream.position);
    stream.Seek(stream.position + 4);
  }

  /** BinaryWriter.Write(int): four little-endian bytes. */
  method WriteInt32ToStream(stream: Stream, value: int)
    requires IsInt32(value)
    modifies stream
    ensures stream.canRead == old(stream.canRead)
    ensures stream.data == Placed(old(stream.data), old(stream.position), Int32Bytes(value))
    ensures stream.position == old(stream.position) + 4
  {
    stream.Write(Int32Bytes(value));
  }

  function Int32Bytes(value: int): (bs: seq<byte>)
    requires IsInt32(value)
    ensures |bs| == 4
  {
    BitConverter.MachineBytes(BitConverter.Int32, value)
  }

  /** `(byte)c`: the low eight bits of a character. */
  function LowByte(c: char): byte
  {
    (c as int % 256) as byte
  }

  function LowBytes(s: string): (bs: seq<byte>)
    ensures |bs| == |s|
    ensures forall i :: 0 <= i < |s| ==> bs[i] == LowByte(s[i])
  {
    if |s| == 0 then [] else [LowByte(s[0])] + LowBytes(s[1..])
  }

  /** What WriteStringToStream writes: the optional length, each char's low byte, then a zero. */
  function StringBytes(str: string, writeLength: bool): (bs: seq<byte>)
    requires IsInt32(|str|)
    ensures |bs| == (if writeLength then 4 else 0) + |str| + 1
  {
    (if writeLength then Int32Bytes(|str|) else []) + LowBytes(str) + [0]
  }

  method WriteStringToStream(stream: Stream, str: string, writeLength: bool)
    requires IsInt32(|str|)
    modifies stream
    ensures stream.canRead == old(stream.canRead)
    ensures stream.data == Placed(old(stream.data), old(stream.position), StringBytes(str, writeLength))
    ensures stream.position == old(stream.position) + |StringBytes(str, writeLength)|
  {
    ghost var data0, start := stream.data, stream.position;
    if writeLength {
      WriteInt32ToStream(stream, |str|);
    }
    WriteLowBytes(stream, str);
    stream.WriteByte(0);
    ghost var header := if writeLength then Int32Bytes(|str|) else [];
    PlacedThrice(data0, start, header, LowBytes(str), [0]);
    assert StringBytes(str, writeLength) == header + LowBytes(str) + [0];
  }

  /** Three consecutive writes make up one write of their concatenation. */
  lemma PlacedThrice(data: seq<byte>, pos: nat, a: seq<byte>, b: seq<byte>, c: seq<byte>)
    ensures Placed(Placed(Placed(data, pos, a), pos + |a|, b), pos + |a| + |b|, c) == Placed(data, pos, a + b + c)
  {
    PlacedTwice(data, pos, a, b);
    PlacedTwice(data, pos, a + b, c);
  }

  /** The loop of WriteStringToStream: one WriteByte per char. */
  method WriteLowBytes(stream: Stream, str: string)
    modifies stream
    ensures stream.canRead == old(stream.canRead)
    ensures stream.data == Placed(old(stream.data), old(stream.position), LowBytes(str))
    ensures stream.position == old(stream.position) + |str|
  {
    ghost var start := stream.position;
    assert LowBytes(str[..0]) == [];
    for i := 0 to |str|
      invariant stream.data == Placed(old(stream.data), start, LowBytes(str[..i]))
      invariant stream.position == start + i
      invariant stream.canRead == old(stream.canRead)
    {
      WrittenStep(old(stream.data), start, str, i);
      stream.WriteByte(LowByte(str[i]));
    }
    assert str[..|str|] == str;
  }

  lemma WrittenStep(data: seq<byte>, start: nat, str: string, i: nat)
    requires i < |str|
    ensures Placed(Placed(data, start, LowBytes(str[..i])), start + i, [LowByte(str[i])])
      == Placed(data, start, LowBytes(str[..i + 1]))
  {
    PlacedTwice(data, start, LowBytes(str[..i]), [LowByte(str[i])]);
    assert LowBytes(str[..i + 1]) == LowBytes(str[..i]) + [LowByte(str[i])];
  }

  /** The outcome of ReadStringFromStream. */
  datatype StringRead =
    | Done(s: string)
    | Failed(error: Exception)
      /** No zero byte follows: past the end ReadByte gives -1, which is not '\0' as a char, so the loop adds U+FFFF until memory runs out. */
    | Endless

  /** `(char)stream.ReadByte()`: -1 becomes U+FFFF. */
  function ByteChar(b: int): char
    requires -1 <= b < 256
  {
    if b == -1 then 0xFFFF as char else b as char
  }

  /** Reading up to a zero byte: the chars before it and the position after it. */
  function ReadUntilZero(data: seq<byte>, pos: nat): (r: Option<(string, nat)>)
    ensures r.Some? ==> pos + |r.value.0| < |data| && r.value.1 == pos + |r.value.0| + 1
    decreases |data| - pos
  {
    if pos >= |data| then None
    else if data[pos] == 0 then Some(("", pos + 1))
    else
      match ReadUntilZero(data, pos + 1)
      case None => None
      case Some((s, after)) => Some(([ByteChar(data[pos] as int)] + s, after))
  }

  /** `length` chars read one byte at a time from `start`. */
  function CountedChars(data: seq<byte>, start: nat, length: nat): (s: string)
    ensures |s| == length
  {
    seq(length, i requires 0 <= i < length => ByteChar(if start + i < |data| then data[start + i] as int else -1))
  }

  /** ReadStringFromStream on a readable stream: the result and the new position. */
  function ReadStringSpec(data: seq<byte>, pos: nat, hasLengthWritten: bool): (StringRead, nat)
  {
    if hasLengthWritten then
      match ReadInt32Spec(data, pos, true)
      case (Throws(e), after) => (Failed(e), after)
      case (Ok(length), start) =>
        if length <= 0 then (Done(""), start)
        else (Done(CountedChars(data, start, length)), if start + length <= |data| then start + length else Max(start, |data|))
    else
      match ReadUntilZero(data, pos)
      case None => (Endless, Max(pos, |data|))
      case Some((s, after)) => (Done(s), after)
  }

  function Prepend(prefix: string, r: Option<(string, nat)>): Option<(string, nat)>
  {
    match r
    case None => None
    case Some((s, after)) => Some((prefix + s, after))
  }

  lemma PrependTwice(a: string, b: string, r: Option<(string, nat)>)
    ensures Prepend(a, Prepend(b, r)) == Prepend(a + b, r)
    ensures Prepend([], r) == r
  {
    if r.Some? {
      assert a + (b + r.value.0) == (a + b) + r.value.0;
      assert [] + r.value.0 == r.value.0;
    }
  }

  method ReadStringFromStream(stream: Stream?, hasLengthWritten: bool) returns (r: StringRead)
    modifies stream
    ensures stream == null || !old(stream.canRead) ==> r == Failed(IOError(CannotRead))
    ensures stream != null && !old(stream.canRead) ==> unchanged(stream)
    ensures stream != null && old(stream.canRead) ==>
      stream.data == old(stream.data) && stream.canRead &&
      (r, stream.position) == ReadStringSpec(stream.data, old(stream.position), hasLengthWritten)
  {
    if stream == null || !stream.canRead {
      return Failed(IOError(CannotRead));
    }
    var chars: seq<char> := [];
    PrependTwice([], [], ReadUntilZero(stream.data, stream.position));
    if hasLengthWritten {
      var length := ReadInt32FromStream(stream);
      if length.Throws? {
        return Failed(length.error);
      }
      var start := stream.position;
      if length.value > 0 {
        for i := 0 to length.value
          invariant stream.data == old(stream.data) && stream.canRead
          invariant chars == CountedChars(stream.data, start, i)
          invariant stream.position == if start + i <= |stream.data| then start + i else Max(start, |stream.data|)
        {
          var b := stream.ReadByte();
          chars := chars + [ByteChar(b)];
        }
      }
    } else {
      while true
        invariant stream.data == old(stream.data) && stream.canRead
        invariant stream.position == old(stream.position) + |chars|
        invariant chars == [] || stream.position <= |stream.data|
        invariant ReadUntilZero(stream.data, old(stream.position))
          == Prepend(chars, ReadUntilZero(stream.data, stream.position))
        decreases |stream.data| - stream.position
      {
        ghost var before := stream.position;
        var b := stream.ReadByte();
        if b == -1 {
          return Endless;
        }
        var c := ByteChar(b);
        if c == 0 as char {
          assert ReadUntilZero(stream.data, before) == Some(("", before + 1));
          assert chars + "" == chars;
          break;
        }
        PrependTwice(chars, [c], ReadUntilZero(stream.data, stream.position));
        chars := chars + [c];
      }
    }
    return Done(chars);
  }

  /**
   * Without a length, a string whose chars are all in 1..255 reads back
   * after being written, and the read consumes every byte written,
   * terminator included.
   */
  lemma UnprefixedRoundTrip(data: seq<byte>, pos: nat, str: string)
    requires IsInt32(|str|)
    requires forall i :: 0 <= i < |str| ==> 1 <= str[i] as int <= 255
    ensures ReadStringSpec(Placed(data, pos, StringBytes(str, false)), pos, false) == (Done(str), pos + |str| + 1)
  {
    var bytes := Placed(data, pos, StringBytes(str, false));
    PlacedSlice(data, pos, StringBytes(str, false));
    assert bytes[pos + |str|] == bytes[pos..pos + |str| + 1][|str|];
    forall i | 0 <= i < |str|
      ensures bytes[pos + i] == LowByte(str[i])
    {
      assert bytes[pos + i] == bytes[pos..pos + |str| + 1][i];
    }
    ReadsZeroTerminated(bytes, pos, str);
  }

  lemma {:induction false} ReadsZeroTerminated(data: seq<byte>, pos: nat, str: string)
    requires forall i :: 0 <= i < |str| ==> 1 <= str[i] as int <= 255
    requires pos + |str| < |data| && data[pos + |str|] == 0
    requires forall i :: 0 <= i < |str| ==> data[pos + i] == LowByte(str[i])
    ensures ReadUntilZero(data, pos) == Some((str, pos + |str| + 1))
    decreases |str|
  {
    if |str| > 0 {
      ReadsZeroTerminated(data, pos + 1, str[1..]);
      assert data[pos] as int == str[0] as int;
      assert ByteChar(data[pos] as int) == str[0];
      assert [str[0]] + str[1..] == str;
    }
  }

  /**
   * With a length, a string whose chars are all below 256 reads back after
   * being written, but the terminating zero is left unread.
   */
  lemma PrefixedRoundTrip(data: seq<byte>, pos: nat, str: string)
    requires IsInt32(|str|)
    requires forall i :: 0 <= i < |str| ==> str[i] as int <= 255
    ensures ReadStringSpec(Placed(data, pos, StringBytes(str, true)), pos, true) == (Done(str), pos + 4 + |str|)
  {
    var written := StringBytes(str, true);
    var bytes := Placed(data, pos, written);
    PlacedSlice(data, pos, written);
    assert bytes[pos..pos + 4] == written[..4] == Int32Bytes(|str|);
    BitConverter.MachineDecodeAt(BitConverter.Int32, |str|, bytes, pos);
    if |str| > 0 {
      var chars := CountedChars(bytes, pos + 4, |str|);
      forall i | 0 <= i < |str|
        ensures chars[i] == str[i]
      {
        assert pos + 4 + i < |bytes|;
        assert bytes[pos + 4 + i] == written[4 + i] == LowByte(str[i]);
        assert LowByte(str[i]) as int == str[i] as int;
        assert chars[i] == ByteChar(bytes[pos + 4 + i] as int);
      }
      assert chars == str;
    }
  }

  lemma PrefixGrows(buffer: seq<byte>, data: seq<byte>, before: nat, after: nat)
    requires before <= after <= |buffer| && after <= |data|
    requires buffer[..before] == data[..before]
    requires buffer[before..after] == data[before..after]
    ensures buffer[..after] == data[..after]
  {
    assert buffer[..after] == buffer[..before] + buffer[before..after];
    assert data[..after] == data[..before] + data[before..after];
  }

  /** The doubling step of ReadStreamFully: a copy twice as long, with one more byte after the old contents. */
  method Grow(buffer: array<byte>, next: byte) returns (newBuffer: array<byte>)
    ensures fresh(newBuffer) && newBuffer.Length == 2 * buffer.Length
    ensures newBuffer.Length > buffer.Length ==> newBuffer[..buffer.Length + 1] == buffer[..] + [next]
  {
    newBuffer := new byte[buffer.Length * 2];
    forall i | 0 <= i < buffer.Length {
      newBuffer[i] := buffer[i];
    }
    if buffer.Length > 0 {
      newBuffer[buffer.Length] := next;
      assert newBuffer[..buffer.Length + 1] == buffer[..] + [next];
    }
  }

  /** The trimming copy of ReadStreamFully. */
  method Prefix(buffer: array<byte>, length: nat) returns (r: array<byte>)
    requires length <= buffer.Length
    ensures fresh(r) && r[..] == buffer[..length]
  {
    r := new byte[length];
    forall i | 0 <= i < length {
      r[i] := buffer[i];
    }
  }

  function Min(a: int, b: int): int
  {
    if a < b then a else b
  }

  /** The buffer size ReadStreamFully starts with. */
  function StartLength(initialLength: int): nat
  {
    if initialLength < 1 then 32768 else initialLength
  }

  /**
   * What ReadStreamFully returns for a stream holding `data`: all of it,
   * except with a starting buffer of one byte. Then the first doubling
   * leaves the buffer full, the next read is asked for no bytes, returns 0,
   * and ends the loop after two bytes.
   */
  function ReadFullyResult(initialLength: int, data: seq<byte>): (r: seq<byte>)
    ensures r <= data
  {
    if StartLength(initialLength) == 1 then data[..Min(|data|, 2)] else data
  }

  /** The truncation: a one-byte start loses everything after the second byte. */
  lemma ReadFullyTruncates()
    ensures ReadFullyResult(1, [1, 2, 3]) == [1, 2]
    ensures forall data: seq<byte>, n :: |data| > 2 && StartLength(n) == 1 ==> ReadFullyResult(n, data) != data
  {
  }

  /** Every other starting size returns the whole stream. */
  lemma ReadFullyWhole(initialLength: int, data: seq<byte>)
    ensures ReadFullyResult(initialLength, data) == data <==> StartLength(initialLength) != 1 || |data| <= 2
  {
  }

  /**
   * The read loop of ReadStreamFully, from a buffer of `length` bytes: reads
   * until a read returns nothing, doubling the buffer whenever it fills
   * while bytes remain, and returns the bytes read.
   */
  method ReadLoop(stream: Stream, length: nat) returns (r: array<byte>)
    requires length >= 1 && stream.canRead && stream.position == 0
    modifies stream
    ensures stream.data == old(stream.data) && stream.canRead
    ensures fresh(r) && r[..] == ReadFullyResult(length, stream.data)
  {
    var buffer := new byte[length];
    var position := 0;
    while true
      invariant stream.data == old(stream.data) && stream.canRead
      invariant fresh(buffer)
      invariant position == stream.position <= |stream.data|
      invariant position < buffer.Length || (length == 1 && position == 2 == buffer.Length)
      invariant buffer[..position] == stream.data[..position]
      invariant length <= buffer.Length && (length == 1 ==> buffer.Length <= 2)
      invariant length == 1 && buffer.Length == 2 ==> position == 2
      decreases |stream.data| - position
    {
      ghost var before := position;
      var chunk := stream.Read(buffer, position, buffer.Length - position);
      if chunk <= 0 {
        break;
      }
      position := position + chunk;
      PrefixGrows(buffer[..], stream.data, before, position);
      if position == buffer.Length {
        var nextByte := stream.ReadByte();
        if nextByte == -1 {
          assert buffer[..] == buffer[..position];
          return buffer;
        }
        assert nextByte as byte == stream.data[position];
        assert stream.data[..position + 1] == stream.data[..position] + [stream.data[position]];
        buffer := Grow(buffer, nextByte as byte);
        position := position + 1;
      }
    }
    r := Prefix(buffer, position);
  }

  /**
   * ReadStreamFully: seeks to 0 and reads to the end. A stream that cannot
   * be read fails at its first read.
   */
  method ReadStreamFully(stream: Stream, initialLength: int) returns (r: Result<array<byte>>)
    modifies stream
    ensures stream.data == old(stream.data) && stream.canRead == old(stream.canRead)
    ensures r.Ok? <==> stream.canRead
    ensures r.Ok? ==> fresh(r.value) && r.value[..] == ReadFullyResult(initialLength, stream.data)
  {
    stream.Seek(0);
    var length := initialLength;
    if length < 1 {
      length := 32768;
    }
    if !stream.canRead {
      return Throws(NotSupported);
    }
    var bytes := ReadLoop(stream, length);
    return Ok(bytes);
  }

  /** ReadStreamFully with a one-byte start treated as invalid too: always the whole stream. */
  method ReadStreamFullyCorrected(stream: Stream, initialLength: int) returns (r: Result<array<byte>>)
    modifies stream
    ensures stream.data == old(stream.data) && stream.canRead == old(stream.canRead)
    ensures r.Ok? <==> stream.canRead
    ensures r.Ok? ==> fresh(r.value) && r.value[..] == stream.data
  {
    stream.Seek(0);
    var length := initialLength;
    if length < 2 {
      length := 32768;
    }
    if !stream.canRead {
      return Throws(NotSupported);
    }
    var bytes := ReadLoop(stream, length);
    return Ok(bytes);
  }
}
