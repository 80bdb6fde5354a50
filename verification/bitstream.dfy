/** The bit stream (bitstream.c) as pure state.

    A stream is opened either for writing or for reading, never both. It
    keeps a one-byte buffer and the number of bits held in it. Bits are
    stored most-significant first: the first bit of a byte is its bit 7.

    The file is a byte sequence. For a write stream `bytes` is what has been
    written to the file so far; for a read stream it is what is still unread.
    Two abstractions describe a stream as a bit sequence: `Written`, the bits
    a write stream has been given, and `Unread`, the bits a read stream can
    still deliver.
 */
module BitStream {
  import opened Results
  import opened Bit

  /** A byte of the file. */
  type Byte = x: nat | x < 256

  /** A number of bits held in the one-byte buffer (0 to NB_BITS = 8). */
  type Fill = x: nat | x <= 8

  datatype Stream = Stream(bytes: seq<Byte>, buffer: Byte, count: Fill, writing: bool)

  /** The eight bits of a byte, in file order (bit 7 first). */
  function ByteBits(b: Byte): (r: seq<bool>)
    ensures |r| == 8
  {
    seq(8, i requires 0 <= i < 8 => PrendBit(b, 7 - i) == 1)
  }

  /** The bits of a byte sequence, in file order. */
  function BytesBits(bytes: seq<Byte>): (r: seq<bool>)
    ensures |r| == 8 * |bytes|
  {
    if |bytes| == 0 then [] else ByteBits(bytes[0]) + BytesBits(bytes[1..])
  }

  /** The bits a write stream has been given: the bytes already written and
      the `count` bits filled in the buffer. */
  function Written(s: Stream): seq<bool>
  {
    BytesBits(s.bytes) + ByteBits(s.buffer)[..s.count]
  }

  /** The bits a read stream can still deliver: the `count` low bits of the
      buffer, then the unread bytes. */
  function Unread(s: Stream): seq<bool>
  {
    ByteBits(s.buffer)[8 - s.count..] + BytesBits(s.bytes)
  }

  /** The unfilled low bits of a write stream's buffer are zero. */
  predicate WriterOk(s: Stream)
  {
    forall i | s.count <= i < 8 :: !ByteBits(s.buffer)[i]
  }

  /** `n` zero bits. */
  function ZeroBits(n: nat): (r: seq<bool>)
    ensures |r| == n
    ensures forall i | 0 <= i < n :: !r[i]
  {
    seq(n, i => false)
  }

  /** The number of zero bits that pad a buffer holding `count` bits. */
  function Padding(count: Fill): nat
  {
    if count == 0 then 0 else 8 - count
  }

  /** open_bitstream: the buffer is empty; the stream reads when the mode
      starts with 'r' and writes otherwise (the empty mode starts with NUL).
      `contents` is the file to read; a written file starts empty. */
  function Open(mode: string, contents: seq<Byte>): (s: Stream)
    ensures s.buffer == 0 && s.count == 0
    ensures s.writing <==> !(|mode| > 0 && mode[0] == 'r')
    ensures s.writing ==> WriterOk(s) && Written(s) == []
    ensures !s.writing ==> Unread(s) == BytesBits(contents)
  {
    var writing := !(|mode| > 0 && mode[0] == 'r');
    ZeroByteBits();
    Stream(if writing then [] else contents, 0, 0, writing)
  }

  /** flush_bitstream: nothing on a read stream; on a write stream, a
      non-empty buffer is written as one byte and emptied. */
  function Flush(s: Stream): (r: Stream)
    ensures !s.writing ==> r == s
    ensures s.writing ==> r.writing && r.count == 0
    ensures s.writing && s.count != 0 ==> r.buffer == 0
    ensures s.writing ==> r.bytes == if s.count != 0 then s.bytes + [s.buffer] else s.bytes
  {
    if !s.writing then s
    else if s.count != 0 then s.(bytes := s.bytes + [s.buffer], buffer := 0, count := 0)
    else s
  }

  /** Flushing a write stream pads its bits with zeros up to a whole byte. */
  lemma FlushPads(s: Stream)
    requires s.writing && WriterOk(s)
    ensures WriterOk(Flush(s))
    ensures Written(Flush(s)) == Written(s) + ZeroBits(Padding(s.count))
    ensures |Written(Flush(s))| % 8 == 0
  {
    ZeroByteBits();
    var b := ByteBits(s.buffer);
    if s.count != 0 {
      BytesBitsAppend(s.bytes, [s.buffer]);
      assert b == b[..s.count] + ZeroBits(8 - s.count);
    }
  }

  /** close_bitstream, file closing aside: a write stream is flushed first. */
  function Close(s: Stream): (r: Stream)
    ensures r.writing == s.writing
    ensures r.writing ==> r.count == 0
    ensures r.writing ==> r.bytes == if s.count != 0 then s.bytes + [s.buffer] else s.bytes
    ensures !s.writing ==> r == s
  {
    if s.writing then Flush(s) else s
  }

  /** put_bit: refused on a read stream; otherwise a full buffer is flushed
      first, then the bit goes to position 7 - count and count grows. */
  function PutBit(s: Stream, bit: bool): (r: Result<Stream>)
    ensures r.Ok? <==> s.writing
    ensures r.Err? ==> r.error == WriteOnReadStream
    ensures r.Ok? ==> r.value.writing && r.value.count == (if s.count == 8 then 1 else s.count + 1)
    ensures r.Ok? ==> r.value.bytes == if s.count == 8 then s.bytes + [s.buffer] else s.bytes
  {
    if !s.writing then Err(WriteOnReadStream)
    else
      var t := if s.count == 8 then Flush(s) else s;
      var position := 7 - t.count;
      var bitValue := if bit then 1 else 0;
      PoseBitBelow(t.buffer, position, bitValue, 8);
      Ok(t.(buffer := PoseBit(t.buffer, position, bitValue), count := t.count + 1))
  }

  /** put_bit appends exactly its bit to the written bits and keeps the
      unfilled part of the buffer zero. */
  lemma PutBitAppends(s: Stream, bit: bool)
    requires s.writing && WriterOk(s)
    ensures PutBit(s, bit).Ok?
    ensures WriterOk(PutBit(s, bit).value)
    ensures Written(PutBit(s, bit).value) == Written(s) + [bit]
  {
    var t := if s.count == 8 then Flush(s) else s;
    if s.count == 8 {
      FlushPads(s);
      ZeroByteBits();
    }
    var position := 7 - t.count;
    var r := PutBit(s, bit).value;
    assert t.writing && WriterOk(t) && Written(t) == Written(s);
    assert r.buffer == PoseBit(t.buffer, position, if bit then 1 else 0);
    var before, after := ByteBits(t.buffer), ByteBits(r.buffer);
    forall i | 0 <= i < 8 && i != t.count
      ensures after[i] == before[i]
    {
      assert 7 - i != position;
    }
    assert after[t.count] == bit;
    assert after[..r.count] == before[..t.count] + [bit];
    assert Written(r) == BytesBits(t.bytes) + after[..r.count];
  }

  /** get_bit: refused on a write stream; an empty buffer is refilled from
      the next byte (end of file is a read error) and holds 8 bits; then the
      count drops by one and the bit at that position is returned. */
  function GetBit(s: Stream): (r: Result<(bool, Stream)>)
    ensures r.Ok? <==> !s.writing && (s.count != 0 || s.bytes != [])
    ensures r.Err? ==> r.error == if s.writing then ReadOnWriteStream else EndOfInput
    ensures r.Ok? ==> !r.value.1.writing && r.value.1.count == (if s.count == 0 then 7 else s.count - 1)
  {
    if s.writing then Err(ReadOnWriteStream)
    else if s.count == 0 && |s.bytes| == 0 then Err(EndOfInput)
    else
      var t := if s.count == 0 then s.(buffer := s.bytes[0], bytes := s.bytes[1..], count := 8) else s;
      var count := t.count - 1;
      Ok((PrendBit(t.buffer, count) == 1, t.(count := count)))
  }

  /** get_bit delivers the first unread bit and leaves the rest unread; it
      fails with a read error exactly when nothing is left. */
  lemma GetBitTakesFirst(s: Stream)
    requires !s.writing
    ensures GetBit(s).Ok? <==> Unread(s) != []
    ensures GetBit(s).Ok? ==> GetBit(s).value.0 == Unread(s)[0]
    ensures GetBit(s).Ok? ==> Unread(GetBit(s).value.1) == Unread(s)[1..]
  {
    if s.count == 0 && |s.bytes| > 0 {
      Refill(s);
      GetBitFromBuffer(s.(buffer := s.bytes[0], bytes := s.bytes[1..], count := 8));
    } else if s.count > 0 {
      GetBitFromBuffer(s);
    }
  }

  /** With an empty buffer, get_bit loads the next byte: the unread bits
      are unchanged and the result is that of get_bit on the loaded stream. */
  lemma Refill(s: Stream)
    requires !s.writing && s.count == 0 && |s.bytes| > 0
    ensures var t := s.(buffer := s.bytes[0], bytes := s.bytes[1..], count := 8);
      && Unread(t) == Unread(s)
      && GetBit(s) == GetBit(t)
  {
    var t := s.(buffer := s.bytes[0], bytes := s.bytes[1..], count := 8);
    assert Unread(s) == BytesBits(s.bytes);
    assert Unread(t) == ByteBits(t.buffer) + BytesBits(t.bytes);
  }

  /** With bits in the buffer, get_bit returns the first unread one. */
  lemma GetBitFromBuffer(t: Stream)
    requires !t.writing && t.count > 0
    ensures GetBit(t) == Ok((Unread(t)[0], t.(count := t.count - 1)))
    ensures Unread(t.(count := t.count - 1)) == Unread(t)[1..]
  {
    var b := ByteBits(t.buffer);
    assert Unread(t) == b[8 - t.count..] + BytesBits(t.bytes);
    assert b[8 - t.count..][1..] == b[8 - (t.count - 1)..];
  }

  /** Successive put_bit calls, one per bit. */
  function WriteBits(s: Stream, bits: seq<bool>): (r: Result<Stream>)
    ensures r.Ok? <==> s.writing || bits == []
    ensures r.Ok? ==> r.value.writing == s.writing
    decreases |bits|
  {
    if |bits| == 0 then Ok(s)
    else
      var s1 :- PutBit(s, bits[0]);
      WriteBits(s1, bits[1..])
  }

  /** `n` successive get_bit calls, returning the bits read. */
  function ReadBits(s: Stream, n: nat): Result<(seq<bool>, Stream)>
    decreases n
  {
    if n == 0 then Ok(([], s))
    else
      var (bit, s1) :- GetBit(s);
      var (rest, s2) :- ReadBits(s1, n - 1);
      Ok(([bit] + rest, s2))
  }

  /** Writing appends the bits to those already written. */
  lemma {:induction false} WriteBitsAppends(s: Stream, bits: seq<bool>)
    requires s.writing && WriterOk(s)
    ensures WriteBits(s, bits).Ok?
    ensures WriterOk(WriteBits(s, bits).value)
    ensures Written(WriteBits(s, bits).value) == Written(s) + bits
    decreases |bits|
  {
    if |bits| > 0 {
      WriteBitsStep(s, bits);
      var s1 := PutBit(s, bits[0]).value;
      WriteBitsAppends(s1, bits[1..]);
      ConsStep(Written(s), bits);
    }
  }

  /** One step of WriteBits: put_bit of the first bit, then the others. */
  lemma WriteBitsStep(s: Stream, bits: seq<bool>)
    requires s.writing && WriterOk(s) && |bits| > 0
    ensures PutBit(s, bits[0]).Ok?
    ensures var s1 := PutBit(s, bits[0]).value;
      && s1.writing && WriterOk(s1)
      && Written(s1) == Written(s) + [bits[0]]
      && WriteBits(s, bits) == WriteBits(s1, bits[1..])
  {
    PutBitAppends(s, bits[0]);
  }

  /** Reading n bits delivers the first n unread bits, or fails with a read
      error when fewer are left. */
  lemma {:induction false} ReadBitsTakes(s: Stream, n: nat)
    requires !s.writing
    ensures ReadBits(s, n).Ok? <==> n <= |Unread(s)|
    ensures ReadBits(s, n).Err? ==> ReadBits(s, n).error == EndOfInput
    ensures ReadBits(s, n).Ok? ==> ReadBits(s, n).value.0 == Unread(s)[..n]
    ensures ReadBits(s, n).Ok? ==> Unread(ReadBits(s, n).value.1) == Unread(s)[n..]
    decreases n
  {
    if n > 0 {
      GetBitTakesFirst(s);
      if GetBit(s).Ok? {
        var (bit, s1) := GetBit(s).value;
        ReadBitsStep(s, n, bit, s1);
        ReadBitsTakes(s1, n - 1);
        if n <= |Unread(s)| {
          TakeStep(Unread(s), n);
        }
      }
    }
  }

  /** One step of ReadBits: get_bit, then the other n - 1 reads. */
  lemma ReadBitsStep(s: Stream, n: nat, bit: bool, s1: Stream)
    requires n > 0 && GetBit(s) == Ok((bit, s1))
    ensures ReadBits(s, n) ==
      if ReadBits(s1, n - 1).Ok? then Ok(([bit] + ReadBits(s1, n - 1).value.0, ReadBits(s1, n - 1).value.1))
      else Err(ReadBits(s1, n - 1).error)
  {
  }

  /** Bits put on a fresh write stream, closed, then read back from the
      resulting file by a fresh read stream, come back in order; what
      follows them in the file is zero padding shorter than a byte. */
  lemma WriteCloseReadBack(bits: seq<bool>)
    ensures WriteBits(Open("w", []), bits).Ok?
    ensures
      var file := Close(WriteBits(Open("w", []), bits).value).bytes;
      && ReadBits(Open("r", file), |bits|).Ok?
      && ReadBits(Open("r", file), |bits|).value.0 == bits
      && var left := Unread(ReadBits(Open("r", file), |bits|).value.1);
         |left| < 8 && forall i | 0 <= i < |left| :: !left[i]
  {
    var w := Open("w", []);
    WriteBitsAppends(w, bits);
    var s := WriteBits(w, bits).value;
    FlushPads(s);
    var c := Close(s);
    assert Written(c) == bits + ZeroBits(Padding(s.count));
    assert BytesBits(c.bytes) == Written(c);
    var reader := Open("r", c.bytes);
    ReadBitsTakes(reader, |bits|);
    assert Unread(reader)[..|bits|] == bits;
    assert Unread(reader)[|bits|..] == ZeroBits(Padding(s.count));
  }

  // ---------------------------------------------------------------------
  // Helpers.

  lemma ConsStep(a: seq<bool>, bits: seq<bool>)
    requires |bits| > 0
    ensures a + [bits[0]] + bits[1..] == a + bits
  {
    assert bits == [bits[0]] + bits[1..];
  }

  lemma TakeStep(a: seq<bool>, n: nat)
    requires 0 < n <= |a|
    ensures a[..n] == [a[0]] + a[1..][..n - 1]
    ensures a[n..] == a[1..][n - 1..]
  {
  }

  lemma ZeroByteBits()
    ensures forall i | 0 <= i < 8 :: !ByteBits(0)[i]
  {
    forall i | 0 <= i < 8
      ensures !ByteBits(0)[i]
    {
      ShrOfZero(7 - i);
    }
  }

  lemma {:induction false} BytesBitsAppend(a: seq<Byte>, b: seq<Byte>)
    ensures BytesBits(a + b) == BytesBits(a) + BytesBits(b)
  {
    if |a| == 0 {
      assert a + b == b;
    } else {
      assert (a + b)[1..] == a[1..] + b;
      BytesBitsAppend(a[1..], b);
    }
  }
}
