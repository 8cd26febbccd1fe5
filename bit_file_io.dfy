/** The bit-level wrapper around a file stream (bit_file_io): bits are packed
    most significant first into an 8-bit accumulator, whole bytes go through
    a byte buffer to the file, and reading refills a byte buffer and hands
    the bits back out in the same order. */
module BitIO {
  import opened Common

  // ---------------------------------------------------------------------
  // Bits of a byte, most significant first

  /** The mask of bit k of a byte, counting from the most significant bit. */
  function Mask(k: nat): bv8
    requires k < 8
  {
    if k == 0 then 0x80 else if k == 1 then 0x40 else if k == 2 then 0x20 else if k == 3 then 0x10
    else if k == 4 then 0x08 else if k == 5 then 0x04 else if k == 6 then 0x02 else 0x01
  }

  lemma MaskShift(k: nat)
    requires k < 8
    ensures Mask(k) == (1 as bv8) << (7 - k)
  {
  }

  /** Bit k of x, counting from the most significant bit. */
  function BitAt(x: bv8, k: nat): Bit
    requires k < 8
  {
    if x & Mask(k) == 0 then 0 else 1
  }

  /** The eight bits of x, most significant first. */
  function BitsOf(x: bv8): (bits: seq<Bit>)
    ensures |bits| == 8
    ensures forall k :: 0 <= k < 8 ==> bits[k] == BitAt(x, k)
  {
    seq(8, k requires 0 <= k < 8 => BitAt(x, k))
  }

  /** The eight bits of a byte value, most significant first, by
      arithmetic; BitsOfValue relates them to the bit operations. */
  function Bits(b: Byte): seq<Bit>
  {
    [b / 128, b / 64 % 2, b / 32 % 2, b / 16 % 2, b / 8 % 2, b / 4 % 2, b / 2 % 2, b % 2]
  }

  lemma Bit0(x: bv8) ensures x as int / 128 == BitAt(x, 0) {}
  lemma Bit1(x: bv8) ensures x as int / 64 % 2 == BitAt(x, 1) {}
  lemma Bit2(x: bv8) ensures x as int / 32 % 2 == BitAt(x, 2) {}
  lemma Bit3(x: bv8) ensures x as int / 16 % 2 == BitAt(x, 3) {}
  lemma Bit4(x: bv8) ensures x as int / 8 % 2 == BitAt(x, 4) {}
  lemma Bit5(x: bv8) ensures x as int / 4 % 2 == BitAt(x, 5) {}
  lemma Bit6(x: bv8) ensures x as int / 2 % 2 == BitAt(x, 6) {}
  lemma Bit7(x: bv8) ensures x as int % 2 == BitAt(x, 7) {}

  /** The arithmetic bits of a byte are the bits the masks pick out. */
  lemma BitsOfValue(x: bv8)
    ensures Bits(x as int) == BitsOf(x)
  {
    Bit0(x); Bit1(x); Bit2(x); Bit3(x);
    Bit4(x); Bit5(x); Bit6(x); Bit7(x);
  }

  /** The bits of a byte string, byte by byte. */
  function Unpack(bytes: seq<Byte>): (bits: seq<Bit>)
    ensures |bits| == 8 * |bytes|
  {
    if bytes == [] then [] else Bits(bytes[0]) + Unpack(bytes[1..])
  }

  /** The accumulator after the bits p were written into an empty one: bit k
      of p at bit k of the byte, the rest zero. */
  function PackBits(p: seq<Bit>): bv8
    requires |p| <= 8
    decreases |p|
  {
    if p == [] then 0
    else PackBits(p[..|p| - 1]) | (if p[|p| - 1] == 1 then Mask(|p| - 1) else 0)
  }

  /** A bit string as bytes, eight bits at a time; a last short group is
      filled with zero bits, as flushing the accumulator does. */
  function Pack(bits: seq<Bit>): (bytes: seq<Byte>)
    ensures |bytes| == (|bits| + 7) / 8
    decreases |bits|
  {
    if bits == [] then []
    else if |bits| <= 8 then [PackBits(bits) as int]
    else [PackBits(bits[..8]) as int] + Pack(bits[8..])
  }

  /** w_bit_buf_ |= 1 << (7 - k): set bit k, counting from the top. */
  function SetBit(w: bv8, k: nat): (r: bv8)
    requires k < 8
    ensures r == w | Mask(k)
  {
    MaskShift(k);
    w | (1 << (7 - k))
  }

  function Pow2(s: nat): (p: nat)
    ensures p > 0
  {
    if s == 0 then 1 else 2 * Pow2(s - 1)
  }

  /** (r_bit_buf_ & (1 << s)) >> s on an unsigned byte: the bit s places
      above the lowest, that is bit 7 - s counting from the top. */
  function GetBit(r: Byte, s: nat): (bit: Bit)
    requires s < 8
    ensures bit == Bits(r)[7 - s]
  {
    GetBitSpec(r, s);
    r / Pow2(s) % 2
  }

  lemma GetBitSpec(r: Byte, s: nat)
    requires s < 8
    ensures r / Pow2(s) % 2 == Bits(r)[7 - s]
  {
    assert Pow2(0) == 1 && Pow2(1) == 2 && Pow2(2) == 4 && Pow2(3) == 8;
    assert Pow2(4) == 16 && Pow2(5) == 32 && Pow2(6) == 64 && Pow2(7) == 128;
  }

  /** A suffix of a bit string is its first bit followed by the rest. */
  lemma SliceHead(bits: seq<Bit>, n: nat)
    requires 0 < n <= |bits|
    ensures bits[|bits| - n..] == [bits[|bits| - n]] + bits[|bits| - n + 1..]
  {
  }

  /** The unread bits of the accumulator are its next bit followed by the
      ones after it. */
  lemma TakeFirst(b: Byte, n: nat, tail: seq<Bit>)
    requires 0 < n <= 8
    ensures Bits(b)[8 - n..] + tail == [Bits(b)[8 - n]] + (Bits(b)[8 - (n - 1)..] + tail)
  {
    SliceHead(Bits(b), n);
  }

  lemma PackBitsPush(p: seq<Bit>, b: Bit)
    requires |p| < 8
    ensures PackBits(p + [b]) == PackBits(p) | (if b == 1 then Mask(|p|) else 0)
  {
    assert (p + [b])[..|p|] == p;
  }

  lemma MaskDisjoint(x: bv8, j: nat, k: nat)
    requires j < 8 && k < 8 && j != k
    ensures (x | Mask(j)) & Mask(k) == x & Mask(k)
  {
  }

  /** Setting bit j, or not, leaves every other bit as it was. */
  lemma PushAt(x: bv8, b: Bit, j: nat, k: nat)
    requires j < 8 && k < 8
    ensures BitAt(x | (if b == 1 then Mask(j) else 0), k) == if k == j && b == 1 then 1 else BitAt(x, k)
  {
    if b == 1 && k != j {
      MaskDisjoint(x, j, k);
    }
  }

  /** The accumulator holds the bits written into it and zeros below them. */
  lemma {:induction false} PackBitsAt(p: seq<Bit>, k: nat)
    requires |p| <= 8 && k < 8
    ensures BitAt(PackBits(p), k) == if k < |p| then p[k] else 0
  {
    if p != [] {
      var q, j := p[..|p| - 1], |p| - 1;
      PackBitsAt(q, k);
      PushAt(PackBits(q), p[j], j, k);
      assert k < j ==> q[k] == p[k];
    }
  }

  lemma ByteOfBv(x: bv8)
    ensures 0 <= x as int < 256 && (x as int) as bv8 == x
  {
  }

  /** The byte a flush writes reads back as the bits written, then zeros. */
  lemma {:induction false} BitsOfPackBits(p: seq<Bit>)
    requires |p| <= 8
    ensures Bits(PackBits(p) as int) == p + ZeroBits(8 - |p|)
  {
    ByteOfBv(PackBits(p));
    BitsOfValue(PackBits(p));
    var z := p + ZeroBits(8 - |p|);
    forall k | 0 <= k < 8 ensures BitsOf(PackBits(p))[k] == z[k] {
      PackBitsAt(p, k);
    }
  }

  /** Completing the accumulator's bits with zeros into one more byte. */
  lemma FlushedBits(c: seq<Byte>, p: seq<Bit>)
    requires |p| <= 8
    ensures Unpack(c + [PackBits(p) as int]) + [] == Unpack(c) + p + ZeroBits(8 - |p|)
  {
    var b := PackBits(p) as int;
    BitsOfPackBits(p);
    UnpackAppend(c, [b]);
    assert Unpack([b]) == Bits(b) + Unpack([]);
    Assoc(Unpack(c), p, ZeroBits(8 - |p|));
  }

  /** A byte is determined by its eight bits. */
  lemma {:induction false} UnpackAppend(a: seq<Byte>, b: seq<Byte>)
    ensures Unpack(a + b) == Unpack(a) + Unpack(b)
  {
    if a == [] {
      assert a + b == b;
    } else {
      assert (a + b)[0] == a[0] && (a + b)[1..] == a[1..] + b;
      UnpackAppend(a[1..], b);
      assert Unpack(a + b) == Bits(a[0]) + Unpack(a[1..] + b);
    }
  }

  lemma SplitAt8(x: seq<Bit>, y: seq<Bit>)
    requires |x| == 8
    ensures (x + y)[..8] == x && (x + y)[8..] == y
  {
  }

  /** Packing at least a byte's worth of bits: the first eight make the
      first byte. */
  lemma PackFront(bits: seq<Bit>)
    requires |bits| >= 8
    ensures Pack(bits) == [PackBits(bits[..8]) as int] + Pack(bits[8..])
  {
    if |bits| == 8 {
      assert bits[..8] == bits && bits[8..] == [];
    }
  }

  /** Unpacking a whole number of packed bytes gives the bits back. */
  lemma {:induction false} UnpackPack(bits: seq<Bit>)
    requires |bits| % 8 == 0
    ensures Unpack(Pack(bits)) == bits
    decreases |bits|
  {
    if bits != [] {
      PackFront(bits);
      BitsOfPackBits(bits[..8]);
      assert ZeroBits(0) == [];
      UnpackPack(bits[8..]);
      var packed := Pack(bits);
      assert packed[0] == PackBits(bits[..8]) as int && packed[1..] == Pack(bits[8..]);
      assert Unpack(packed) == Bits(packed[0]) + Unpack(packed[1..]);
      assert bits == bits[..8] + bits[8..];
    }
  }

  /** Each quotient by a power of two is twice the next one plus its low bit. */
  lemma Halve1(x: nat) ensures x == 2 * (x / 2) + x % 2 {}
  lemma Halve2(x: nat) ensures x / 2 == 2 * (x / 4) + x / 2 % 2 {}
  lemma Halve4(x: nat) ensures x / 4 == 2 * (x / 8) + x / 4 % 2 {}
  lemma Halve8(x: nat) ensures x / 8 == 2 * (x / 16) + x / 8 % 2 {}
  lemma Halve16(x: nat) ensures x / 16 == 2 * (x / 32) + x / 16 % 2 {}
  lemma Halve32(x: nat) ensures x / 32 == 2 * (x / 64) + x / 32 % 2 {}
  lemma Halve64(x: nat) ensures x / 64 == 2 * (x / 128) + x / 64 % 2 {}

  /** A byte is the sum of its bits, weighted from 128 down to 1. */
  lemma ValueOfBits(b: Byte)
    ensures b == 128 * (Bits(b)[0] as int) + 64 * (Bits(b)[1] as int) + 32 * (Bits(b)[2] as int)
               + 16 * (Bits(b)[3] as int) + 8 * (Bits(b)[4] as int) + 4 * (Bits(b)[5] as int)
               + 2 * (Bits(b)[6] as int) + Bits(b)[7] as int
  {
    Halve1(b); Halve2(b); Halve4(b); Halve8(b);
    Halve16(b); Halve32(b); Halve64(b);
  }

  lemma BitsInjective(a: Byte, b: Byte)
    requires Bits(a) == Bits(b)
    ensures a == b
  {
    ValueOfBits(a);
    ValueOfBits(b);
  }

  /** Packing the eight bits of a byte gives the byte. */
  lemma PackBitsOf(b: Byte)
    ensures PackBits(Bits(b)) as int == b
  {
    var v := PackBits(Bits(b));
    ByteOfBv(v);
    BitsOfValue(v);
    forall k | 0 <= k < 8 ensures BitsOf(v)[k] == Bits(b)[k] {
      PackBitsAt(Bits(b), k);
    }
    BitsInjective(v as int, b);
  }

  /** Packing the bits of whole bytes followed by more bits gives the bytes
      back, followed by the packed rest. */
  lemma {:induction false} PackAppend(bytes: seq<Byte>, rest: seq<Bit>)
    ensures Pack(Unpack(bytes) + rest) == bytes + Pack(rest)
  {
    if bytes == [] {
      assert Unpack(bytes) + rest == rest;
    } else {
      var head, tail := Bits(bytes[0]), Unpack(bytes[1..]) + rest;
      assert Unpack(bytes) == Bits(bytes[0]) + Unpack(bytes[1..]);
      Assoc(head, Unpack(bytes[1..]), rest);
      SplitAt8(head, tail);
      PackFront(head + tail);
      PackBitsOf(bytes[0]);
      PackAppend(bytes[1..], rest);
      assert bytes == [bytes[0]] + bytes[1..];
    }
  }

  /** Packing the bits of a byte string gives the bytes back. */
  lemma PackUnpack(bytes: seq<Byte>)
    ensures Pack(Unpack(bytes)) == bytes
  {
    PackAppend(bytes, []);
    assert Unpack(bytes) + [] == Unpack(bytes);
  }

  // ---------------------------------------------------------------------
  // The file stream

  /** std::fstream as the codec uses it: the file's bytes and a read
      position. Writes append; a read returns what is left up to the size
      asked for. A read that comes up short leaves the position at the end,
      so every later read returns nothing, as a stream with its fail bit set
      does. */
  class FileStream {
    var data: seq<Byte>
    var pos: nat

    ghost predicate Valid()
      reads this
    {
      pos <= |data|
    }

    constructor (contents: seq<Byte>)
      ensures Valid() && data == contents && pos == 0
    {
      data := contents;
      pos := 0;
    }

    /** read(buf, n) followed by gcount(): the next n bytes or what is left. */
    method Read(n: nat) returns (chunk: seq<Byte>)
      requires Valid()
      modifies this
      ensures Valid() && data == old(data)
      ensures chunk == old(data[pos..Min(pos + n, |data|)])
      ensures pos == old(pos) + |chunk|
      ensures |chunk| < n ==> pos == |data|
    {
      var end := Min(pos + n, |data|);
      chunk := data[pos..end];
      pos := end;
    }

    /** read into a byte array, filling it from the start; the count is
        gcount(). */
    method ReadInto(buf: array<Byte>) returns (count: nat)
      requires Valid()
      modifies this, buf
      ensures Valid() && data == old(data)
      ensures count <= buf.Length
      ensures buf[..count] == old(data[pos..Min(pos + buf.Length, |data|)])
      ensures pos == old(pos) + count
      ensures count < buf.Length ==> pos == |data|
    {
      var chunk := Read(buf.Length);
      count := |chunk|;
      ghost var after := pos;
      var i := 0;
      while i < count
        invariant 0 <= i <= count
        invariant buf[..i] == chunk[..i]
        invariant data == old(data) && pos == after
      {
        buf[i] := chunk[i];
        i := i + 1;
      }
    }

    /** write(bytes, n): append. */
    method Write(bytes: seq<Byte>)
      requires Valid()
      modifies this
      ensures Valid() && data == old(data) + bytes && pos == old(pos)
    {
      data := data + bytes;
    }
  }

  /** An empty bit accumulator contributes nothing to the unread bits. */
  lemma EmptyHead(b: Byte, x: seq<Bit>, y: seq<Bit>)
    ensures Bits(b)[8..] + x + y == x + y
  {
    assert Bits(b)[8..] == [];
  }

  // ---------------------------------------------------------------------
  // bit_file_io

  class BitFileIO {
    const stream: FileStream
    var rBitBuf: Byte
    var rBitBufSize: nat
    var wBitBuf: bv8
    var wBitBufSize: nat
    const rBuff: array<Byte>
    var rBuffCnt: nat
    const rBuffSize: nat
    const wBuff: array<Byte>
    var wBuffCnt: nat
    const wBuffSize: nat
    /** The read position in rBuff, a static local of read_bit in the source. */
    var rBuffPos: nat
    /** The bits in the write accumulator, in the order written. */
    ghost var pending: seq<Bit>

    /** The shape every method relies on, including the moment inside
        write_bit when the accumulator has just been filled. */
    ghost predicate Shape()
      reads this, stream
    {
      && stream.Valid()
      && rBuff != wBuff
      && rBuff.Length == rBuffSize >= 1
      && wBuff.Length == wBuffSize >= 1
      && rBitBufSize <= 8
      && rBuffCnt <= rBuffSize
      && wBuffCnt <= wBuffSize
      && |pending| == wBitBufSize <= 8
      && wBitBuf == PackBits(pending)
    }

    /** Between calls: the accumulators hold fewer than 8 bits, the write
        buffer is never full and the read position never passes the count. */
    ghost predicate Valid()
      reads this, stream
    {
      && Shape()
      && wBitBufSize < 8
      && wBuffCnt < wBuffSize
      && rBuffPos <= rBuffCnt
    }

    /** The completed bytes: those in the file followed by those buffered. */
    ghost function Committed(): seq<Byte>
      reads this, stream, wBuff
      requires wBuffCnt <= wBuff.Length
    {
      stream.data + wBuff[..wBuffCnt]
    }

    /** Every bit written so far, including those still in the accumulator. */
    ghost function Written(): seq<Bit>
      reads this, stream, wBuff
      requires wBuffCnt <= wBuff.Length
    {
      Unpack(Committed()) + pending
    }

    /** The bits still to be read: the rest of the current byte, the rest of
        the read buffer, then the rest of the file. */
    ghost function Unread(): seq<Bit>
      reads this, stream, rBuff
      requires rBitBufSize <= 8 && rBuffPos <= rBuffCnt <= rBuff.Length && stream.pos <= |stream.data|
    {
      Bits(rBitBuf)[8 - rBitBufSize..] + Unpack(rBuff[rBuffPos..rBuffCnt]) + Unpack(stream.data[stream.pos..])
    }

    /** Both buffers get at least one byte, whatever size is asked for. */
    constructor (fileStream: FileStream, readBuffSize: nat, writeBuffSize: nat)
      requires fileStream.Valid()
      ensures Valid() && stream == fileStream && fresh(rBuff) && fresh(wBuff)
      ensures rBuffSize == Max(readBuffSize, 1) && wBuffSize == Max(writeBuffSize, 1)
      ensures Written() == Unpack(fileStream.data)
      ensures Unread() == Unpack(fileStream.data[fileStream.pos..])
      ensures rBitBufSize == 0 && rBuffCnt == 0 && rBuffPos == 0
      ensures wBitBufSize == 0 && wBuffCnt == 0 && pending == []
    {
      stream := fileStream;
      rBuffSize := Max(readBuffSize, 1);
      wBuffSize := Max(writeBuffSize, 1);
      rBitBuf, rBitBufSize, wBitBuf, wBitBufSize := 0, 0, 0, 0;
      rBuffCnt, wBuffCnt, rBuffPos := 0, 0, 0;
      pending := [];
      rBuff := new Byte[Max(readBuffSize, 1)];
      wBuff := new Byte[Max(writeBuffSize, 1)];
      new;
      assert Committed() == fileStream.data;
      assert rBuff[0..0] == [] && Unpack([]) == [];
    }

    /** write_bit: only the low bit of the argument counts; it goes into the
        accumulator at position 7 - (bits already there), and a full
        accumulator is flushed. */
    method WriteBit(bit: Byte)
      requires Valid()
      modifies this, stream, wBuff
      ensures Valid() && Written() == old(Written()) + [bit % 2]
      ensures stream.pos == old(stream.pos)
      ensures unchanged(rBuff) && rBitBuf == old(rBitBuf) && rBitBufSize == old(rBitBufSize)
      ensures rBuffCnt == old(rBuffCnt) && rBuffPos == old(rBuffPos)
    {
      var low := bit % 2;
      ghost var written := Written() + [low];
      PushBit(low);
      assert Written() == written;
      if wBitBufSize == 8 {
        FlushBitBuffer();
        assert Written() == written + ZeroBits(0);
        assert ZeroBits(0) == [];
      }
    }

    /** The accumulator step of write_bit: set the next bit from the top when
        the bit is 1, and count it. */
    method PushBit(low: Bit)
      requires Valid()
      modifies this
      ensures Shape() && wBuffCnt < wBuffSize && rBuffPos <= rBuffCnt
      ensures pending == old(pending) + [low] && wBitBufSize == old(wBitBufSize) + 1
      ensures Committed() == old(Committed())
      ensures rBitBuf == old(rBitBuf) && rBitBufSize == old(rBitBufSize)
      ensures rBuffCnt == old(rBuffCnt) && rBuffPos == old(rBuffPos) && wBuffCnt == old(wBuffCnt)
    {
      PackBitsPush(pending, low);
      if low != 0 {
        wBitBuf := SetBit(wBitBuf, wBitBufSize);
      }
      pending := pending + [low];
      wBitBufSize := wBitBufSize + 1;
    }

    /** flush_bit_buffer: nothing when the accumulator is empty; otherwise it
        becomes one more completed byte, its unwritten low bits zero, and
        the accumulator is emptied. A full write buffer goes to the file. */
    method FlushBitBuffer()
      requires Shape() && wBuffCnt < wBuffSize
      modifies this, stream, wBuff
      ensures Shape() && wBitBufSize == 0 && pending == [] && wBuffCnt < wBuffSize
      ensures old(wBitBufSize) == 0 ==> Committed() == old(Committed())
      ensures old(wBitBufSize) > 0 ==> Committed() == old(Committed()) + [PackBits(old(pending)) as int]
      ensures Written() == old(Written()) + ZeroBits(if old(wBitBufSize) == 0 then 0 else 8 - old(wBitBufSize))
      ensures stream.pos == old(stream.pos)
      ensures unchanged(rBuff) && rBitBuf == old(rBitBuf) && rBitBufSize == old(rBitBufSize)
      ensures rBuffCnt == old(rBuffCnt) && rBuffPos == old(rBuffPos)
      ensures rBuffPos <= rBuffCnt ==> Valid()
    {
      if wBitBufSize == 0 {
        assert ZeroBits(0) == [];
        return;
      }
      ghost var flushed := old(pending);
      wBuff[wBuffCnt] := wBitBuf as int;
      wBuffCnt := wBuffCnt + 1;
      wBitBufSize := 0;
      wBitBuf := 0;
      pending := [];
      assert Committed() == old(Committed()) + [PackBits(flushed) as int];
      FlushedBits(old(Committed()), flushed);
      if wBuffCnt == wBuffSize {
        FlushBuffer();
      }
    }

    /** flush_buffer: the buffered bytes go to the file in order and the
        buffer is emptied; nothing happens when it is empty. */
    method FlushBuffer()
      requires Shape()
      modifies this, stream
      ensures Shape() && wBuffCnt == 0
      ensures stream.data == old(stream.data) + old(wBuff[..wBuffCnt])
      ensures Committed() == old(Committed()) && pending == old(pending)
      ensures stream.pos == old(stream.pos)
      ensures rBitBuf == old(rBitBuf) && rBitBufSize == old(rBitBufSize)
      ensures rBuffCnt == old(rBuffCnt) && rBuffPos == old(rBuffPos)
      ensures wBitBufSize == old(wBitBufSize)
    {
      if wBuffCnt == 0 {
        return;
      }
      stream.Write(wBuff[..wBuffCnt]);
      wBuffCnt := 0;
    }

    /** read_bit, with the read position reset on every refill: the next bit
        of the file, most significant bit of each byte first, or false once
        the file is used up. */
    method ReadBit() returns (ok: bool, bit: Bit)
      requires Valid()
      modifies this, stream, rBuff
      ensures Valid()
      ensures ok <==> old(Unread()) != []
      ensures ok ==> bit == old(Unread())[0] && Unread() == old(Unread())[1..]
      ensures !ok ==> Unread() == []
      ensures stream.data == old(stream.data) && Committed() == old(Committed()) && pending == old(pending)
      ensures wBitBufSize == old(wBitBufSize) && wBuffCnt == old(wBuffCnt)
    {
      if rBitBufSize == 0 {
        if rBuffPos == rBuffCnt {
          Refill();
          if rBuffCnt == 0 {
            return false, 0;
          }
        }
        NextByte();
      }
      bit := TakeBit();
      return true, bit;
    }

    /** The end of read_bit: the next bit of the accumulator, highest first. */
    method TakeBit() returns (bit: Bit)
      requires Valid() && rBitBufSize > 0
      modifies this
      ensures Valid()
      ensures old(Unread()) != [] && bit == old(Unread())[0] && Unread() == old(Unread())[1..]
      ensures Committed() == old(Committed()) && pending == old(pending)
      ensures wBitBufSize == old(wBitBufSize) && wBuffCnt == old(wBuffCnt) && wBitBuf == old(wBitBuf)
    {
      ghost var buffered, rest := Unpack(rBuff[rBuffPos..rBuffCnt]), Unpack(stream.data[stream.pos..]);
      Assoc(Bits(rBitBuf)[8 - rBitBufSize..], buffered, rest);
      TakeFirst(rBitBuf, rBitBufSize, buffered + rest);
      rBitBufSize := rBitBufSize - 1;
      bit := GetBit(rBitBuf, rBitBufSize);
      Assoc(Bits(rBitBuf)[8 - rBitBufSize..], buffered, rest);
    }

    /** The refill of read_bit once the buffer is used up: read up to a
        buffer of bytes and start over at its beginning. The bits still to
        be read do not change. */
    method Refill()
      requires Valid() && rBitBufSize == 0 && rBuffPos == rBuffCnt
      modifies this, stream, rBuff
      ensures Valid() && rBitBufSize == 0 && rBuffPos == 0
      ensures Unread() == old(Unread())
      ensures rBuffCnt == 0 <==> old(Unread()) == []
      ensures stream.data == old(stream.data) && Committed() == old(Committed()) && pending == old(pending)
      ensures wBitBufSize == old(wBitBufSize) && wBuffCnt == old(wBuffCnt) && wBitBuf == old(wBitBuf)
    {
      ghost var rest := stream.data[stream.pos..];
      assert rBuff[rBuffPos..rBuffCnt] == [];
      EmptyHead(rBitBuf, Unpack([]), Unpack(rest));
      ghost var before := Unread();
      assert before == Unpack(rest);
      rBuffCnt := stream.ReadInto(rBuff);
      rBuffPos := 0;
      ghost var chunk, tail := rBuff[..rBuffCnt], stream.data[stream.pos..];
      assert rBuff[0..rBuffCnt] == chunk;
      assert rest == chunk + tail;
      UnpackAppend(chunk, tail);
      EmptyHead(rBitBuf, Unpack(chunk), Unpack(tail));
    }

    /** Take the next byte of the read buffer into the bit accumulator. */
    method NextByte()
      requires Valid() && rBitBufSize == 0 && rBuffPos < rBuffCnt
      modifies this
      ensures Valid() && rBitBufSize == 8
      ensures Unread() == old(Unread())
      ensures Committed() == old(Committed()) && pending == old(pending)
      ensures wBitBufSize == old(wBitBufSize) && wBuffCnt == old(wBuffCnt) && wBitBuf == old(wBitBuf)
    {
      ghost var remaining := rBuff[rBuffPos..rBuffCnt];
      rBitBuf := rBuff[rBuffPos];
      rBuffPos := rBuffPos + 1;
      rBitBufSize := 8;
      assert remaining[1..] == rBuff[rBuffPos..rBuffCnt];
    }

    /** read_bit as written: when a refill gets no bytes it returns false
        before the read position is reset, so the position stays where the
        last buffer ended while the count drops to 0. The next call then
        skips the refill and reads a stale byte of the buffer. The access
        past the end of the buffer that follows is undefined and is excluded
        by the second precondition. */
    method ReadBitAsWritten() returns (ok: bool, bit: Bit)
      requires Shape()
      requires rBitBufSize == 0 && rBuffPos != rBuffCnt ==> rBuffPos < rBuffSize
      modifies this, stream, rBuff
      ensures Shape() && stream.data == old(stream.data)
      ensures old(rBitBufSize) > 0 ==>
        ok && rBitBufSize == old(rBitBufSize) - 1 && rBuffPos == old(rBuffPos) && rBuffCnt == old(rBuffCnt)
        && stream.pos == old(stream.pos)
      ensures old(rBitBufSize) == 0 && old(rBuffPos) == old(rBuffCnt) ==>
        && rBuffCnt == Min(rBuffSize, |stream.data| - old(stream.pos))
        && stream.pos == old(stream.pos) + rBuffCnt
        && (ok <==> rBuffCnt > 0)
      ensures !ok ==> old(rBitBufSize) == 0 && rBitBufSize == 0 && rBuffCnt == 0 && rBuffPos == old(rBuffPos)
                      && stream.pos == |stream.data|
      ensures ok && old(rBitBufSize) == 0 ==> rBitBufSize == 7
      ensures ok && old(rBitBufSize) == 0 && old(rBuffPos) == old(rBuffCnt) ==> rBuffPos == 1
      ensures old(rBitBufSize) == 0 && old(rBuffPos) != old(rBuffCnt) ==>
        ok && rBuffPos == old(rBuffPos) + 1 && rBuffCnt == old(rBuffCnt) && stream.pos == old(stream.pos)
        && bit == Bits(old(rBuff[rBuffPos]))[0]
    {
      if rBitBufSize == 0 {
        if rBuffPos == rBuffCnt {
          rBuffCnt := stream.ReadInto(rBuff);
          if rBuffCnt == 0 {
            return false, 0;
          }
          rBuffPos := 0;
        }
        rBitBuf := rBuff[rBuffPos];
        rBuffPos := rBuffPos + 1;
        rBitBufSize := 8;
      }
      rBitBufSize := rBitBufSize - 1;
      bit := GetBit(rBitBuf, rBitBufSize);
      return true, bit;
    }
  }

  /** A one-byte file read through a two-byte read buffer with read_bit as
      written: eight bits come back, the ninth call reports the end of the
      file, and the tenth call reports a bit again, taken from the unused
      second byte of the buffer. */
  method StaleReadAfterEnd() returns (firstEight: bool, ninth: bool, tenth: bool, pos: nat, cnt: nat)
    ensures firstEight && !ninth && tenth
    ensures pos == 2 && cnt == 0
  {
    var file := new FileStream([0xFF]);
    var io := new BitFileIO(file, 2, 1);
    var ok, bit := io.ReadBitAsWritten();
    firstEight := ok;
    var i := 1;
    while i < 8
      invariant 1 <= i <= 8
      invariant io.Shape() && io.stream == file && io.rBuffSize == 2
      invariant file.data == [0xFF] && file.pos == 1
      invariant io.rBitBufSize == 8 - i && io.rBuffPos == 1 && io.rBuffCnt == 1
      invariant firstEight
    {
      ok, bit := io.ReadBitAsWritten();
      firstEight := firstEight && ok;
      i := i + 1;
    }
    ninth, bit := io.ReadBitAsWritten();
    tenth, bit := io.ReadBitAsWritten();
    pos, cnt := io.rBuffPos, io.rBuffCnt;
  }
}
