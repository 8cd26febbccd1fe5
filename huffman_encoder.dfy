/** The compressed file format and the compress/decompress driver
    (huffman_encoder): a two-byte header, one nine-byte entry per byte that
    occurs, then the padding bits and the codes of the input, packed most
    significant bit first. */
module Codec {
  import opened Common
  import opened FreqTable
  import opened Huffman
  import opened BitIO

  // ---------------------------------------------------------------------
  // Counts as 8 little-endian bytes

  const Two64: nat := 0x1_0000_0000_0000_0000

  function Pow256(n: nat): nat
  {
    if n == 0 then 1 else 256 * Pow256(n - 1)
  }

  /** The n low bytes of x, least significant first. */
  function LE(x: nat, n: nat): (bytes: seq<Byte>)
    ensures |bytes| == n
  {
    if n == 0 then [] else [x % 256] + LE(x / 256, n - 1)
  }

  /** The value of a little-endian byte string. */
  function FromLE(bytes: seq<Byte>): nat
  {
    if bytes == [] then 0 else bytes[0] + 256 * FromLE(bytes[1..])
  }

  /** A count as the 8 bytes of a uint64_t in little-endian order. */
  function LE64(x: nat): seq<Byte>
  {
    LE(x % Two64, 8)
  }

  lemma {:induction false} FromLEOfLE(x: nat, n: nat)
    requires x < Pow256(n)
    ensures FromLE(LE(x, n)) == x
  {
    if n > 0 {
      assert x / 256 < Pow256(n - 1);
      FromLEOfLE(x / 256, n - 1);
      assert LE(x, n)[1..] == LE(x / 256, n - 1);
    }
  }

  /** Reading back the 8 bytes written for a count below 2^64 gives the count. */
  lemma FromLE64(x: nat)
    requires x < Two64
    ensures FromLE(LE64(x)) == x
  {
    assert Pow256(1) == 0x100;
    assert Pow256(2) == 0x1_0000;
    assert Pow256(3) == 0x100_0000;
    assert Pow256(4) == 0x1_0000_0000;
    assert Pow256(5) == 0x100_0000_0000;
    assert Pow256(6) == 0x1_0000_0000_0000;
    assert Pow256(7) == 0x100_0000_0000_0000;
    assert Pow256(8) == Two64;
    assert x % Two64 == x;
    FromLEOfLE(x, 8);
  }

  // ---------------------------------------------------------------------
  // The header

  /** One table entry: the byte, then its count. */
  function PairBytes(t: seq<nat>, b: Byte): seq<Byte>
    requires |t| == Slots
  {
    [b] + LE64(t[b])
  }

  function Pairs(t: seq<nat>, bytes: seq<Byte>): (r: seq<Byte>)
    requires |t| == Slots
    ensures |r| == 9 * |bytes|
  {
    if bytes == [] then [] else PairBytes(t, bytes[0]) + Pairs(t, bytes[1..])
  }

  lemma {:induction false} PairsAppend(t: seq<nat>, bytes: seq<Byte>, b: Byte)
    requires |t| == Slots
    ensures Pairs(t, bytes + [b]) == Pairs(t, bytes) + PairBytes(t, b)
  {
    if bytes == [] {
      assert [b][1..] == [];
    } else {
      assert (bytes + [b])[1..] == bytes[1..] + [b];
      PairsAppend(t, bytes[1..], b);
    }
  }

  /** The entries of the bytes below chr + 1: those below chr, then chr's own
      entry when its count is nonzero. */
  lemma PairsStep(t: seq<nat>, chr: Byte)
    requires |t| == Slots
    ensures Pairs(t, PresentBelow(t, chr + 1))
         == Pairs(t, PresentBelow(t, chr)) + (if t[chr] != 0 then PairBytes(t, chr) else [])
  {
    if t[chr] != 0 {
      PairsAppend(t, PresentBelow(t, chr), chr);
    } else {
      assert PresentBelow(t, chr + 1) == PresentBelow(t, chr);
    }
  }

  /** The header write_file_header produces: the number of distinct bytes
      minus one as a byte, the padding, then an entry per present byte in
      ascending order. */
  function HeaderBytes(t: seq<nat>, padding: Byte): seq<Byte>
    requires |t| == Slots
  {
    [(|Present(t)| + 255) % 256, padding] + Pairs(t, Present(t))
  }

  /** The table read_file_header builds: entries are read while fewer than k
      have been read and both reads of the next entry succeed; a short read
      ends the loop and leaves the stream at the end of the file. */
  function ReadPairs(file: seq<Byte>, pos: nat, k: nat, table: seq<nat>): (r: (seq<nat>, nat))
    requires pos <= |file| && |table| == Slots
    ensures |r.0| == Slots && pos <= r.1 <= |file|
    decreases k
  {
    if k == 0 then (table, pos)
    else if pos + 9 > |file| then (table, |file|)
    else ReadPairs(file, pos + 9, k - 1, table[file[pos] := FromLE(file[pos + 1..pos + 9])])
  }

  /** One entry of the header, read in full. */
  lemma ReadPairsStep(file: seq<Byte>, pos: nat, k: nat, table: seq<nat>)
    requires pos + 9 <= |file| && |table| == Slots && k > 0
    ensures ReadPairs(file, pos, k, table)
            == ReadPairs(file, pos + 9, k - 1, table[file[pos] := FromLE(file[pos + 1..pos + 9])])
  {
  }

  /** A table with no byte present. */
  function Zeros(): (t: seq<nat>)
    ensures |t| == Slots && forall b: Byte :: t[b] == 0
  {
    seq(Slots, _ => 0)
  }

  datatype Header = Header(table: seq<nat>, padding: Byte, bodyStart: nat)

  /** read_file_header up to the tree: the table, the padding and where the
      code bits begin. A one-byte file has no padding byte; it is taken as 0,
      which makes no difference since no bits follow. */
  function ParseHeader(file: seq<Byte>): (h: Header)
    requires |file| > 0
    ensures |h.table| == Slots && h.bodyStart <= |file|
  {
    var (table, end) := ReadPairs(file, Min(2, |file|), file[0] as nat + 1, Zeros());
    Header(table, if |file| >= 2 then file[1] else 0, end)
  }

  /** The table t with the entries of bytes overwritten by their counts in u. */
  function Apply(t: seq<nat>, u: seq<nat>, bytes: seq<Byte>): (r: seq<nat>)
    requires |t| == Slots && |u| == Slots
    ensures |r| == Slots
    decreases |bytes|
  {
    if bytes == [] then t else Apply(t[bytes[0] := u[bytes[0]]], u, bytes[1..])
  }

  lemma {:induction false} ApplySpec(t: seq<nat>, u: seq<nat>, bytes: seq<Byte>)
    requires |t| == Slots && |u| == Slots
    ensures forall b: Byte :: Apply(t, u, bytes)[b] == if b in bytes then u[b] else t[b]
    decreases |bytes|
  {
    if bytes != [] {
      ApplySpec(t[bytes[0] := u[bytes[0]]], u, bytes[1..]);
      assert forall b :: b in bytes <==> b == bytes[0] || b in bytes[1..];
    }
  }

  /** Reading the entries written for bytes recovers their counts. */
  lemma {:induction false} ReadPairsOfPairs(file: seq<Byte>, pos: nat, t: seq<nat>, u: seq<nat>, bytes: seq<Byte>)
    requires |t| == Slots && |u| == Slots
    requires forall b: Byte :: u[b] < Two64
    requires pos + 9 * |bytes| <= |file| && file[pos..pos + 9 * |bytes|] == Pairs(u, bytes)
    ensures ReadPairs(file, pos, |bytes|, t) == (Apply(t, u, bytes), pos + 9 * |bytes|)
    decreases |bytes|
  {
    if bytes != [] {
      var b := bytes[0];
      var entry := file[pos..pos + 9 * |bytes|];
      assert entry[..9] == PairBytes(u, b) && entry[9..] == Pairs(u, bytes[1..]);
      assert file[pos] == entry[0] == b;
      var pair := entry[..9];
      assert pair[1..] == LE64(u[b]);
      assert forall i :: 1 <= i < 9 ==> entry[i] == file[pos + i];
      assert entry[1..9] == file[pos + 1..pos + 9];
      assert pair[1..] == entry[1..9];
      FromLE64(u[b]);
      assert file[pos + 9..pos + 9 + 9 * |bytes[1..]|] == entry[9..];
      ReadPairsOfPairs(file, pos + 9, t[b := u[b]], u, bytes[1..]);
    }
  }

  /** read_file_header applied to what write_file_header wrote recovers the
      table and the padding, and the code bits begin right after the header. */
  lemma HeaderRoundTrip(t: seq<nat>, padding: Byte, rest: seq<Byte>)
    requires |t| == Slots
    requires forall b: Byte :: t[b] < Two64
    requires exists b: Byte :: t[b] != 0
    ensures ParseHeader(HeaderBytes(t, padding) + rest) == Header(t, padding, |HeaderBytes(t, padding)|)
  {
    var file := HeaderBytes(t, padding) + rest;
    var present := Present(t);
    PresentSpec(t);
    var b: Byte :| t[b] != 0;
    assert b in present;
    assert file[0] as nat + 1 == |present|;
    assert file[2..2 + 9 * |present|] == Pairs(t, present);
    ReadPairsOfPairs(file, 2, Zeros(), t, present);
    ApplySpec(Zeros(), t, present);
    assert Apply(Zeros(), t, present) == t;
  }

  // ---------------------------------------------------------------------
  // Padding

  /** The number of code bits of an input with counts t: each byte's code
      length times its count. */
  function CodeBits(t: seq<nat>, root: Tree): nat
    requires |t| == Slots
  {
    CodeBitsBelow(t, root, Slots)
  }

  function CodeBitsBelow(t: seq<nat>, root: Tree, n: nat): nat
    requires n <= Slots && |t| == Slots
  {
    if n == 0 then 0 else CodeBitsBelow(t, root, n - 1) + |CodeOf(root, n - 1)| * t[n - 1]
  }

  /** The zero bits written before the codes so that the two together fill
      whole bytes. */
  function PaddingFor(codeBits: nat): (p: nat)
    ensures p < 8 && (p + codeBits) % 8 == 0
  {
    if codeBits % 8 == 0 then 0 else 8 - codeBits % 8
  }

  lemma {:induction false} CodeBitsInc(t: seq<nat>, root: Tree, b: Byte, n: nat)
    requires |t| == Slots && n <= Slots
    ensures CodeBitsBelow(t[b := t[b] + 1], root, n)
            == CodeBitsBelow(t, root, n) + (if b < n then |CodeOf(root, b)| else 0)
  {
    if n > 0 {
      CodeBitsInc(t, root, b, n - 1);
      if n - 1 == b {
        var c := |CodeOf(root, b)|;
        assert c * (t[b] + 1) == c * t[b] + c;
      }
    }
  }

  lemma CountsAppend(s: seq<Byte>, b: Byte)
    ensures Counts(s + [b]) == Counts(s)[b := Counts(s)[b] + 1]
  {
    assert multiset(s + [b]) == multiset(s) + multiset{b};
  }

  /** The codes of an input take as many bits as its counts say. */
  lemma {:induction false} EncodeLength(root: Tree, s: seq<Byte>)
    ensures |EncodeBits(root, s)| == CodeBits(Counts(s), root)
    decreases |s|
  {
    if s == [] {
      CodeBitsZero(Counts(s), root, Slots);
    } else {
      var init, b := s[..|s| - 1], s[|s| - 1];
      assert s == init + [b];
      EncodeLength(root, init);
      EncodeBitsAppend(root, init, b);
      CountsAppend(init, b);
      CodeBitsInc(Counts(init), root, b, Slots);
    }
  }

  lemma {:induction false} CodeBitsZero(t: seq<nat>, root: Tree, n: nat)
    requires |t| == Slots && n <= Slots
    requires forall b: Byte :: t[b] == 0
    ensures CodeBitsBelow(t, root, n) == 0
  {
    if n > 0 {
      CodeBitsZero(t, root, n - 1);
      var c, k := |CodeOf(root, n - 1)|, t[n - 1];
      assert k == 0;
      assert c * k == 0;
    }
  }

  // ---------------------------------------------------------------------
  // The two directions

  /** The tree compress_file builds for an input. */
  function RootFor(input: seq<Byte>): (root: Tree)
    requires |input| > 0
    ensures HuffmanRoot(Counts(input)) == Ok(root)
    ensures root.Node?
  {
    var t := Counts(input);
    HuffmanRootSpec(t);
    assert input[0] in multiset(input);
    assert t[input[0]] != 0;
    HuffmanRoot(t).value
  }

  /** The file compress_file writes for a non-empty input: the header, then
      the padding bits and the input's codes, packed into bytes. */
  function CompressImage(input: seq<Byte>): seq<Byte>
    requires |input| > 0
  {
    ImageOf(Counts(input), RootFor(input), input)
  }

  /** What decompress_file writes for a file, or the error it reports. The
      padding bits are skipped as far as there are bits; the rest is decoded. */
  function DecompressImage(file: seq<Byte>): Result<seq<Byte>>
  {
    if |file| == 0 then Err(InputMissingOrEmpty)
    else
      var root := HuffmanRoot(ParseHeader(file).table);
      if root.Err? then Err(root.error)
      else Decode(root.value, Some(root.value), PayloadBits(file))
  }

  /** The bits after the header once the padding bits are skipped, as far
      as there are bits to skip. */
  function PayloadBits(file: seq<Byte>): seq<Bit>
    requires |file| > 0
  {
    var h := ParseHeader(file);
    var bits := Unpack(file[h.bodyStart..]);
    bits[Min(h.padding, |bits|)..]
  }

  /** A header followed by whole bytes of packed bits parses back to the
      table and padding, with the packed bits right after it. */
  lemma {:induction false} Layout(t: seq<nat>, padding: Byte, body: seq<Bit>)
    requires |t| == Slots
    requires forall b: Byte :: t[b] < Two64
    requires exists b: Byte :: t[b] != 0
    requires |body| % 8 == 0
    ensures ParseHeader(HeaderBytes(t, padding) + Pack(body)) == Header(t, padding, |HeaderBytes(t, padding)|)
    ensures Unpack((HeaderBytes(t, padding) + Pack(body))[|HeaderBytes(t, padding)|..]) == body
  {
    HeaderRoundTrip(t, padding, Pack(body));
    UnpackPack(body);
    assert (HeaderBytes(t, padding) + Pack(body))[|HeaderBytes(t, padding)|..] == Pack(body);
  }

  /** No count of an input exceeds its length. */
  lemma {:induction false} CountsBound(s: seq<Byte>)
    ensures forall b: Byte :: Counts(s)[b] <= |s|
    decreases |s|
  {
    if s != [] {
      var init := s[..|s| - 1];
      assert s == init + [s[|s| - 1]];
      CountsBound(init);
      CountsAppend(init, s[|s| - 1]);
    }
  }

  /** The file written for counts t, tree root and input bytes: the header,
      then the padding bits and the codes, packed into bytes. */
  function ImageOf(t: seq<nat>, root: Tree, input: seq<Byte>): seq<Byte>
    requires |t| == Slots
  {
    var padding := PaddingFor(CodeBits(t, root));
    HeaderBytes(t, padding) + Pack(ZeroBits(padding) + EncodeBits(root, input))
  }

  /** The padding and the codes of an input fill whole bytes. */
  lemma WholeBytes(root: Tree, input: seq<Byte>)
    ensures (PaddingFor(CodeBits(Counts(input), root)) + |EncodeBits(root, input)|) % 8 == 0
  {
    EncodeLength(root, input);
  }

  /** The file for a table with counts below 2^64 and at least one byte
      parses back to the table and padding, and the bits after the header are
      the padding bits followed by the codes. */
  lemma ImageLayout(t: seq<nat>, root: Tree, input: seq<Byte>)
    requires |t| == Slots
    requires forall b: Byte :: t[b] < Two64
    requires exists b: Byte :: t[b] != 0
    requires |EncodeBits(root, input)| == CodeBits(t, root)
    ensures ParseHeader(ImageOf(t, root, input)).table == t
    ensures ParseHeader(ImageOf(t, root, input)).padding == PaddingFor(CodeBits(t, root))
    ensures Unpack(ImageOf(t, root, input)[ParseHeader(ImageOf(t, root, input)).bodyStart..])
            == ZeroBits(PaddingFor(CodeBits(t, root))) + EncodeBits(root, input)
  {
    var padding := PaddingFor(CodeBits(t, root));
    Layout(t, padding, ZeroBits(padding) + EncodeBits(root, input));
  }

  /** Every byte of an input has a code in the tree built from it. */
  lemma {:induction false} InputHasCodes(input: seq<Byte>)
    requires |input| > 0
    ensures forall i :: 0 <= i < |input| ==> input[i] in Codes(RootFor(input))
  {
    var root := RootFor(input);
    RootCodes(Counts(input));
    forall i | 0 <= i < |input| ensures input[i] in Codes(RootFor(input)) {
      assert input[i] in multiset(input);
    }
  }

  /** DecompressImage of a file whose header builds `root` and whose body is
      padding bits followed by `code` decodes `code`. */
  lemma DecompressOf(file: seq<Byte>, root: Tree, code: seq<Bit>)
    requires |file| > 0
    requires HuffmanRoot(ParseHeader(file).table) == Ok(root)
    requires Unpack(file[ParseHeader(file).bodyStart..]) == ZeroBits(ParseHeader(file).padding) + code
    ensures DecompressImage(file) == Decode(root, Some(root), code)
  {
    var h := ParseHeader(file);
    var bits := Unpack(file[h.bodyStart..]);
    assert PayloadBits(file) == bits[Min(h.padding, |bits|)..] == code;
  }

  /** Decompressing the compressed form of a non-empty input whose length
      fits in 64 bits gives the input back. */
  lemma RoundTrip(input: seq<Byte>)
    requires 0 < |input| < Two64
    ensures DecompressImage(CompressImage(input)) == Ok(input)
  {
    var root := RootFor(input);
    var code := EncodeBits(root, input);
    var t := Counts(input);
    var file := ImageOf(t, root, input);
    CountsBound(input);
    assert input[0] in multiset(input);
    assert t[input[0]] != 0;
    EncodeLength(root, input);
    ImageLayout(t, root, input);
    DecompressOf(file, root, code);
    InputHasCodes(input);
    DecodeEncode(root, input);
  }

  // ---------------------------------------------------------------------
  // The driver

  /** The write buffer size of the output wrapper when compressing and the
      read buffer size of the input wrapper when decompressing. */
  const Size16Mb: nat := 16777216

  /** A product modulo 8 depends only on its factors modulo 8. */
  lemma MulMod8(x: nat, y: nat)
    ensures (x * y) % 8 == ((x % 8) * (y % 8)) % 8
  {
    var q, r := x / 8, x % 8;
    var s, u := y / 8, y % 8;
    Split(x, y, q, r, s, u);
    MultipleOf8(q * y + r * s, r * u);
  }

  lemma Split(x: nat, y: nat, q: nat, r: nat, s: nat, u: nat)
    requires x == 8 * q + r && y == 8 * s + u
    ensures x * y == 8 * (q * y + r * s) + r * u
  {
    calc {
      x * y;
      (8 * q + r) * y;
      8 * q * y + r * y;
      8 * q * y + r * (8 * s + u);
      8 * (q * y + r * s) + r * u;
    }
  }

  lemma MultipleOf8(k: int, m: int)
    ensures (8 * k + m) % 8 == m % 8
  {
  }

  lemma ModStep(a: nat, x: nat, y: nat)
    ensures (a % 8 + ((x % 8) * (y % 8)) % 8) % 8 == (a + x * y) % 8
  {
    MulMod8(x, y);
    AddMod8(a, x * y);
  }

  lemma AddMod8(a: int, b: int)
    ensures (a + b) % 8 == (a % 8 + b % 8) % 8
  {
    var q, r := a / 8, a % 8;
    var s, u := b / 8, b % 8;
    assert a + b == 8 * (q + s) + (r + u);
    MultipleOf8(q + s, r + u);
  }

  /** One more byte value's code bits, added modulo 8. */
  lemma PaddingStep(t: seq<nat>, root: Tree, i: nat, p: nat, c: nat, f: nat)
    requires |t| == Slots && i < Slots && p == CodeBitsBelow(t, root, i) % 8
    requires c == |CodeOf(root, i)| % 8 && f == t[i] % 8
    ensures (p + (c * f) % 8) % 8 == CodeBitsBelow(t, root, i + 1) % 8
  {
    ModStep(CodeBitsBelow(t, root, i), |CodeOf(root, i)|, t[i]);
  }

  /** The counting pass: one inc per input byte. */
  method CountBytes(input: seq<Byte>) returns (table: FreqMap)
    ensures table.Valid() && table.freq == Counts(input)
  {
    table := new FreqMap();
    assert table.freq == Counts([]);
    var i := 0;
    while i < |input|
      invariant 0 <= i <= |input| && table.Valid()
      invariant table.freq == Counts(input[..i])
    {
      table.Inc(input[i]);
      CountsAppend(input[..i], input[i]);
      assert input[..i + 1] == input[..i] + [input[i]];
      i := i + 1;
    }
    assert input[..|input|] == input;
  }

  /** The padding computation over the copied code table: the code bits, summed modulo 8 one byte value
      at a time, and the number of bits that complete the last byte. */
  method ComputePadding(ghost root: Tree, codes: seq<seq<Bit>>, table: FreqMap) returns (padding: Byte)
    requires |codes| == Slots && forall b: Byte :: codes[b] == CodeOf(root, b)
    requires table.Valid()
    ensures padding == PaddingFor(CodeBits(table.freq, root))
  {
    var p := 0;
    var i := 0;
    while i < Slots
      invariant 0 <= i <= Slots
      invariant p == CodeBitsBelow(table.freq, root, i) % 8
    {
      var c, f := |codes[i]| % 8, table.Get(i) % 8;
      assert codes[i] == CodeOf(root, i);
      PaddingStep(table.freq, root, i, p, c, f);
      p := (p + (c * f) % 8) % 8;
      i := i + 1;
    }
    padding := if p > 0 then 8 - p else 0;
  }

  /** The byte part of write_file_header: the count of distinct bytes less
      one, the padding, then one entry per present byte in ascending order,
      straight to the file. */
  method WriteTable(table: FreqMap, padding: Byte, out: FileStream)
    requires table.Valid() && out.Valid()
    modifies out
    ensures out.Valid() && out.data == old(out.data) + HeaderBytes(table.freq, padding)
  {
    ghost var start := out.data;
    var size := table.Size();
    ghost var head: seq<Byte> := [(size + 255) % 256, padding];
    out.Write([(size + 255) % 256, padding]);
    var chr := 0;
    while chr < Slots
      invariant 0 <= chr <= Slots && out.Valid()
      invariant out.data == start + head + Pairs(table.freq, PresentBelow(table.freq, chr))
    {
      ghost var done := Pairs(table.freq, PresentBelow(table.freq, chr));
      var frq := table.Get(chr);
      if frq != 0 {
        ghost var before := out.data;
        out.Write([chr]);
        out.Write(LE64(frq));
        Assoc(before, [chr], LE64(frq));
      }
      PairsStep(table.freq, chr);
      Assoc(start + head, done, if frq != 0 then PairBytes(table.freq, chr) else []);
      chr := chr + 1;
    }
    Assoc(start, head, Pairs(table.freq, Present(table.freq)));
  }

  /** n zero bits through the wrapper. */
  method WriteZeros(n: nat, wrapper: BitFileIO)
    requires wrapper.Valid()
    modifies wrapper, wrapper.stream, wrapper.wBuff
    ensures wrapper.Valid()
    ensures wrapper.Written() == old(wrapper.Written()) + ZeroBits(n)
  {
    ghost var before := wrapper.Written();
    var i := 0;
    while i < n
      invariant 0 <= i <= n && wrapper.Valid()
      invariant wrapper.Written() == before + ZeroBits(i)
    {
      wrapper.WriteBit(0);
      assert ZeroBits(i + 1) == ZeroBits(i) + [0];
      Assoc(before, ZeroBits(i), [0]);
      i := i + 1;
    }
  }

  /** write_file_header: the table goes straight to the file, the padding
      bits through the wrapper, whose buffers are still empty. */
  method WriteFileHeader(table: FreqMap, padding: Byte, out: FileStream, wrapper: BitFileIO)
    requires table.Valid() && wrapper.Valid() && wrapper.stream == out
    requires wrapper.wBuffCnt == 0 && wrapper.wBitBufSize == 0
    modifies out, wrapper, wrapper.wBuff
    ensures wrapper.Valid()
    ensures wrapper.Written() == old(wrapper.Written()) + Unpack(HeaderBytes(table.freq, padding)) + ZeroBits(padding)
  {
    ghost var start := out.data;
    assert wrapper.wBuff[..0] == [] && wrapper.pending == [];
    assert wrapper.Committed() == start;
    assert wrapper.Written() == Unpack(start);
    WriteTable(table, padding, out);
    UnpackAppend(start, HeaderBytes(table.freq, padding));
    assert wrapper.Committed() == out.data;
    assert wrapper.Written() == Unpack(start) + Unpack(HeaderBytes(table.freq, padding));
    WriteZeros(padding, wrapper);
  }

  /** The bits of one code, in order, through the wrapper. */
  method WriteCode(code: seq<Bit>, wrapper: BitFileIO)
    requires wrapper.Valid()
    modifies wrapper, wrapper.stream, wrapper.wBuff
    ensures wrapper.Valid()
    ensures wrapper.Written() == old(wrapper.Written()) + code
  {
    ghost var before := wrapper.Written();
    var j := 0;
    while j < |code|
      invariant 0 <= j <= |code| && wrapper.Valid()
      invariant wrapper.Written() == before + code[..j]
    {
      assert code[j] % 2 == code[j];
      wrapper.WriteBit(code[j]);
      assert code[..j + 1] == code[..j] + [code[j]];
      Assoc(before, code[..j], [code[j]]);
      j := j + 1;
    }
    assert code[..|code|] == code;
  }

  /** One more input byte adds its code to the encoding of the prefix. */
  lemma EncodePrefix(root: Tree, input: seq<Byte>, i: nat)
    requires i < |input|
    ensures EncodeBits(root, input[..i + 1]) == EncodeBits(root, input[..i]) + CodeOf(root, input[i])
  {
    EncodeBitsAppend(root, input[..i], input[i]);
    assert input[..i + 1] == input[..i] + [input[i]];
  }

  /** The encoding pass over the code table compress_file copied out of
      the tree: the code of every input byte, in order, through the wrapper. */
  method EncodeInput(ghost root: Tree, codes: seq<seq<Bit>>, input: seq<Byte>, wrapper: BitFileIO)
    requires |codes| == Slots && forall b: Byte :: codes[b] == CodeOf(root, b)
    requires wrapper.Valid()
    modifies wrapper, wrapper.stream, wrapper.wBuff
    ensures wrapper.Valid()
    ensures wrapper.Written() == old(wrapper.Written()) + EncodeBits(root, input)
  {
    ghost var before := wrapper.Written();
    var i := 0;
    while i < |input|
      invariant 0 <= i <= |input| && wrapper.Valid()
      invariant wrapper.Written() == before + EncodeBits(root, input[..i])
    {
      ghost var done := EncodeBits(root, input[..i]);
      var code := codes[input[i]];
      WriteCode(code, wrapper);
      EncodePrefix(root, input, i);
      Assoc(before, done, code);
      i := i + 1;
    }
    assert input[..|input|] == input;
  }

  /** The byte part of read_file_header: the two header bytes, then entries
      while fewer than the announced number have been read and both reads of
      the next one succeed, straight from the file. */
  method ReadTable(stream: FileStream) returns (table: FreqMap, padding: Byte)
    requires stream.Valid() && stream.pos == 0 && |stream.data| > 0
    modifies stream
    ensures fresh(table) && table.Valid() && stream.Valid() && stream.data == old(stream.data)
    ensures table.freq == ParseHeader(stream.data).table
    ensures padding == ParseHeader(stream.data).padding
    ensures stream.pos == ParseHeader(stream.data).bodyStart
  {
    ghost var file := stream.data;
    ghost var target := ReadPairs(file, Min(2, |file|), file[0] as nat + 1, Zeros());
    var header := stream.Read(2);
    var unique := header[0] as nat + 1;
    padding := if |header| == 2 then header[1] else 0;
    table := new FreqMap();
    assert table.freq == Zeros() && stream.pos == Min(2, |file|);
    var bytesRead := 2;
    ghost var k := unique;
    while bytesRead < unique * 9 + 2
      invariant stream.Valid() && stream.data == file && table.Valid() && fresh(table)
      invariant 0 <= k <= unique && bytesRead == 2 + 9 * (unique - k)
      invariant ReadPairs(file, stream.pos, k, table.freq) == target
      decreases k
    {
      ghost var pos, before := stream.pos, table.freq;
      var ok := ReadEntry(stream, table);
      if !ok {
        assert target == (table.freq, stream.pos);
        break;
      }
      ReadPairsStep(file, pos, k, before);
      bytesRead := bytesRead + 9;
      k := k - 1;
    }
  }

  /** One pass of the entry loop of read_file_header: a byte and its count
      are read and stored, unless either read comes up short, which leaves
      the table as it was and the stream at the end. */
  method ReadEntry(stream: FileStream, table: FreqMap) returns (ok: bool)
    requires stream.Valid() && table.Valid()
    modifies stream, table
    ensures stream.Valid() && stream.data == old(stream.data) && table.Valid()
    ensures ok <==> old(stream.pos) + 9 <= |stream.data|
    ensures ok ==> && stream.pos == old(stream.pos) + 9
                   && table.freq == old(table.freq)[stream.data[old(stream.pos)] :=
                                                     FromLE(stream.data[old(stream.pos) + 1..old(stream.pos) + 9])]
    ensures !ok ==> stream.pos == |stream.data| && table.freq == old(table.freq)
  {
    var b := stream.Read(1);
    if |b| < 1 {
      return false;
    }
    var c := stream.Read(8);
    if |c| < 8 {
      return false;
    }
    table.Set(b[0], FromLE(c));
    return true;
  }

  /** The padding loop of read_file_header: up to n bits are read and
      dropped, fewer when the bits run out. */
  method SkipBits(n: nat, wrapper: BitFileIO)
    requires wrapper.Valid()
    modifies wrapper, wrapper.stream, wrapper.rBuff
    ensures wrapper.Valid() && wrapper.stream.data == old(wrapper.stream.data)
    ensures wrapper.Unread() == old(wrapper.Unread())[Min(n, |old(wrapper.Unread())|)..]
  {
    ghost var bits := wrapper.Unread();
    var i := 0;
    while i < n
      invariant 0 <= i <= n && i <= |bits| && wrapper.Valid()
      invariant wrapper.stream.data == old(wrapper.stream.data)
      invariant wrapper.Unread() == bits[i..]
    {
      ghost var before := wrapper.Unread();
      var ok, bit := wrapper.ReadBit();
      if !ok {
        assert before == bits[i..] == [];
        return;
      }
      assert wrapper.Unread() == before[1..] == bits[i + 1..];
      i := i + 1;
    }
  }

  /** read_file_header: the table and the padding bits are read, then the
      tree is built from the table. */
  method ReadFileHeader(stream: FileStream, wrapper: BitFileIO) returns (r: Result<HuffmanTree>)
    requires wrapper.Valid() && wrapper.stream == stream
    requires stream.pos == 0 && |stream.data| > 0
    requires wrapper.rBitBufSize == 0 && wrapper.rBuffPos == wrapper.rBuffCnt
    modifies stream, wrapper, wrapper.rBuff
    ensures wrapper.Valid() && stream.data == old(stream.data)
    ensures r.Err? <==> HuffmanRoot(ParseHeader(old(stream.data)).table).Err?
    ensures r.Err? ==> r.error == ZeroUniqueBytes
    ensures r.Ok? ==> && fresh(r.value) && fresh(r.value.codes) && r.value.Valid()
                      && r.value.root == HuffmanRoot(ParseHeader(old(stream.data)).table).value
                      && r.value.cursor == Some(r.value.root)
    ensures wrapper.Unread() == PayloadBits(old(stream.data))
  {
    var table := ReadHeaderBits(stream, wrapper);
    r := HuffmanTree.Build(table);
  }

  /** read_file_header up to the tree: the table is read straight from the
      file, then the padding bits are skipped through the wrapper, whose
      buffers are still empty. */
  method ReadHeaderBits(stream: FileStream, wrapper: BitFileIO) returns (table: FreqMap)
    requires wrapper.Valid() && wrapper.stream == stream
    requires stream.pos == 0 && |stream.data| > 0
    requires wrapper.rBitBufSize == 0 && wrapper.rBuffPos == wrapper.rBuffCnt
    modifies stream, wrapper, wrapper.rBuff
    ensures fresh(table) && table.Valid() && table.freq == ParseHeader(old(stream.data)).table
    ensures wrapper.Valid() && stream.data == old(stream.data)
    ensures wrapper.Unread() == PayloadBits(old(stream.data))
  {
    ghost var file := stream.data;
    var padding;
    table, padding := ReadTable(stream);
    ghost var rest := file[stream.pos..];
    assert wrapper.Unread() == Unpack(rest) by {
      assert Bits(wrapper.rBitBuf)[8..] == [];
      assert wrapper.rBuff[wrapper.rBuffPos..wrapper.rBuffCnt] == [];
    }
    SkipBits(padding, wrapper);
  }

  /** The reading side of decompress_file up to the payload: a bit reader
      with a 16 MiB buffer over the file, and the tree rebuilt from its
      header. */
  method OpenImage(file: seq<Byte>) returns (wrapper: BitFileIO, r: Result<HuffmanTree>)
    requires |file| > 0
    ensures fresh(wrapper) && fresh(wrapper.stream) && fresh(wrapper.rBuff) && wrapper.Valid()
    ensures r.Err? <==> HuffmanRoot(ParseHeader(file).table).Err?
    ensures r.Err? ==> r.error == ZeroUniqueBytes
    ensures r.Ok? ==> && fresh(r.value) && r.value.Valid()
                      && r.value.root == HuffmanRoot(ParseHeader(file).table).value
                      && r.value.cursor == Some(r.value.root)
    ensures wrapper.Unread() == PayloadBits(file)
  {
    var stream := new FileStream(file);
    wrapper := new BitFileIO(stream, Size16Mb, 1);
    r := ReadFileHeader(stream, wrapper);
  }

  /** decompress_file in terms of the header's tree: the error the tree
      builder reports, or the decoding of the payload. */
  lemma DecompressImageOf(file: seq<Byte>, root: Result<Tree>)
    requires |file| > 0 && root == HuffmanRoot(ParseHeader(file).table)
    ensures DecompressImage(file)
         == if root.Err? then Err(ZeroUniqueBytes) else Decode(root.value, Some(root.value), PayloadBits(file))
  {
  }

  /** One bit of the decode loop: the bytes emitted so far followed by the
      decoding of the rest stay the same result. */
  lemma Advance(root: Tree, cursor: Option<Tree>, bits: seq<Bit>, next: Option<Tree>, found: Option<Byte>,
                done: seq<Byte>, goal: Result<seq<Byte>>)
    requires bits != [] && cursor.Some? && (next, found) == Step(root, cursor.value, bits[0])
    requires Prepend(done, Decode(root, cursor, bits)) == goal
    ensures Prepend(done + (if found.Some? then [found.value] else []), Decode(root, next, bits[1..])) == goal
  {
    PrependPrepend(done, if found.Some? then [found.value] else [], Decode(root, next, bits[1..]));
  }

  lemma PrependPrepend(a: seq<Byte>, b: seq<Byte>, r: Result<seq<Byte>>)
    ensures Prepend(a, Prepend(b, r)) == Prepend(a + b, r)
  {
    if r.Ok? {
      Assoc(a, b, r.value);
    }
  }

  /** The last step of compress_file: the accumulator and the write buffer
      are flushed. The bits written make whole bytes, so the accumulator is
      empty and the file holds exactly the bytes written. */
  method Finish(wrapper: BitFileIO, ghost header: seq<Byte>, ghost body: seq<Bit>)
    requires wrapper.Valid() && wrapper.Written() == Unpack(header) + body && |body| % 8 == 0
    modifies wrapper, wrapper.stream, wrapper.wBuff
    ensures wrapper.stream.data == header + Pack(body)
  {
    assert |wrapper.pending| == 0;
    wrapper.FlushBitBuffer();
    wrapper.FlushBuffer();
    assert ZeroBits(0) == [] && wrapper.pending == [];
    assert Unpack(wrapper.stream.data) == Unpack(header) + body;
    PackUnpack(wrapper.stream.data);
    PackAppend(header, body);
  }

  /** compress_file once both files are open: count, build the tree, copy
      its code table, compute the padding, write the header and the codes,
      and flush. */
  method Compress(data: seq<Byte>) returns (image: seq<Byte>)
    requires 0 < |data| < Two64
    ensures image == CompressImage(data)
  {
    var table := CountBytes(data);
    ghost var expected := RootFor(data);
    var built := HuffmanTree.Build(table);
    var tree := built.value;
    assert tree.root == expected;
    var codes := tree.codes[..];
    var padding := ComputePadding(tree.root, codes, table);
    image := WriteImage(tree.root, codes, table, padding, data);
  }

  /** The output side of compress_file: the header, the padding bits and
      the code of every input byte go through the bit writer, which is
      flushed at the end. */
  method WriteImage(ghost root: Tree, codes: seq<seq<Bit>>, table: FreqMap, padding: Byte, data: seq<Byte>)
    returns (image: seq<Byte>)
    requires |codes| == Slots && forall b: Byte :: codes[b] == CodeOf(root, b)
    requires table.Valid() && table.freq == Counts(data)
    requires padding == PaddingFor(CodeBits(table.freq, root))
    ensures image == ImageOf(table.freq, root, data)
  {
    var wrapper := OpenOutput(table, padding);
    WriteBody(root, codes, data, padding, wrapper, HeaderBytes(table.freq, padding));
    image := wrapper.stream.data;
  }

  /** The output file with its bit writer (16 MiB write buffer), once the
      header and the padding bits are written. */
  method OpenOutput(table: FreqMap, padding: Byte) returns (wrapper: BitFileIO)
    requires table.Valid()
    ensures fresh(wrapper) && fresh(wrapper.stream) && fresh(wrapper.wBuff) && wrapper.Valid()
    ensures wrapper.Written() == Unpack(HeaderBytes(table.freq, padding)) + ZeroBits(padding)
  {
    var out := new FileStream([]);
    wrapper := new BitFileIO(out, 1, Size16Mb);
    assert wrapper.Written() == [] by {
      assert Unpack([]) == [];
    }
    ghost var header := HeaderBytes(table.freq, padding);
    WriteFileHeader(table, padding, out, wrapper);
    assert [] + Unpack(header) == Unpack(header);
  }

  /** The encode loop of compress_file and the final flush, after a header
      and the padding bits. */
  method WriteBody(ghost root: Tree, codes: seq<seq<Bit>>, data: seq<Byte>, padding: Byte, wrapper: BitFileIO,
                   ghost header: seq<Byte>)
    requires |codes| == Slots && forall b: Byte :: codes[b] == CodeOf(root, b)
    requires padding == PaddingFor(CodeBits(Counts(data), root))
    requires wrapper.Valid() && wrapper.Written() == Unpack(header) + ZeroBits(padding)
    modifies wrapper, wrapper.stream, wrapper.wBuff
    ensures wrapper.stream.data == header + Pack(ZeroBits(padding) + EncodeBits(root, data))
  {
    EncodeInput(root, codes, data, wrapper);
    ghost var body := ZeroBits(padding) + EncodeBits(root, data);
    Assoc(Unpack(header), ZeroBits(padding), EncodeBits(root, data));
    WholeBytes(root, data);
    assert |body| == padding + |EncodeBits(root, data)|;
    Finish(wrapper, header, body);
  }

  /** The driver of one compression or decompression: its transfer buffer
      and how many bytes of it are in use. */
  class HuffmanEncoder {
    const buffer: array<Byte>
    const bufferSize: nat
    var bufferCnt: nat

    ghost predicate Valid()
      reads this
    {
      buffer.Length == bufferSize && bufferCnt < bufferSize
    }

    constructor (size: nat)
      requires size > 0
      ensures Valid() && bufferSize == size && bufferCnt == 0 && fresh(buffer)
    {
      buffer := new Byte[size];
      bufferSize := size;
      bufferCnt := 0;
    }

    /** compress_file on the input file's contents (None when it cannot be
        opened): reject a missing or empty input, then an output that cannot
        be written; otherwise count, build the tree, compute the padding,
        write the header and the codes and flush. */
    method CompressFile(input: Option<seq<Byte>>, outputWritable: bool) returns (r: Result<seq<Byte>>)
      requires input.Some? ==> |input.value| < Two64
      ensures input.None? || |input.value| == 0 ==> r == Err(InputMissingOrEmpty)
      ensures input.Some? && |input.value| > 0 && !outputWritable ==> r == Err(OutputUnwritable)
      ensures input.Some? && |input.value| > 0 && outputWritable ==> r == Ok(CompressImage(input.value))
    {
      if input.None? || |input.value| == 0 {
        return Err(InputMissingOrEmpty);
      }
      if !outputWritable {
        return Err(OutputUnwritable);
      }
      var image := Compress(input.value);
      return Ok(image);
    }

    /** decompress_file on the compressed file's contents: reject a missing
        or empty input, then an output that cannot be written; read the
        header and rebuild the tree, then feed every remaining bit to the
        tree, collecting each byte found in the buffer and writing the
        buffer out whenever it fills and once at the end. Bytes already in
        the buffer are written first. */
    method DecompressFile(file: Option<seq<Byte>>, outputWritable: bool) returns (r: Result<seq<Byte>>)
      requires Valid()
      modifies this, buffer
      ensures Valid()
      ensures file.None? || |file.value| == 0 ==> r == Err(InputMissingOrEmpty)
      ensures file.Some? && |file.value| > 0 && !outputWritable ==> r == Err(OutputUnwritable)
      ensures file.Some? && |file.value| > 0 && outputWritable ==>
                r == Prepend(old(buffer[..bufferCnt]), DecompressImage(file.value))
      ensures r.Ok? ==> bufferCnt == 0
    {
      if file.None? || |file.value| == 0 {
        return Err(InputMissingOrEmpty);
      }
      if !outputWritable {
        return Err(OutputUnwritable);
      }
      r := Decompress(file.value);
    }

    /** decompress_file once both files are open: read the header, rebuild
        the tree, decode the payload into the buffer and flush it. */
    method Decompress(file: seq<Byte>) returns (r: Result<seq<Byte>>)
      requires Valid() && |file| > 0
      modifies this, buffer
      ensures Valid()
      ensures r == Prepend(old(buffer[..bufferCnt]), DecompressImage(file))
      ensures r.Ok? ==> bufferCnt == 0
    {
      var wrapper, built := OpenImage(file);
      DecompressImageOf(file, HuffmanRoot(ParseHeader(file).table));
      if built.Err? {
        return Err(built.error);
      }
      r := DecodeImage(file, built.value, wrapper);
    }

    /** The decoding half of decompress_file: the payload bits go through
        the rebuilt tree into a new output file. */
    method DecodeImage(ghost file: seq<Byte>, tree: HuffmanTree, wrapper: BitFileIO) returns (r: Result<seq<Byte>>)
      requires Valid() && tree.Valid() && tree.cursor == Some(tree.root) && wrapper.Valid()
      requires buffer != wrapper.rBuff
      requires DecompressImage(file) == Decode(tree.root, Some(tree.root), wrapper.Unread())
      modifies this, buffer, tree, wrapper, wrapper.stream, wrapper.rBuff
      ensures Valid()
      ensures r == Prepend(old(buffer[..bufferCnt]), DecompressImage(file))
      ensures r.Ok? ==> bufferCnt == 0
    {
      var out := new FileStream([]);
      assert out.data + buffer[..bufferCnt] == old(buffer[..bufferCnt]);
      r := DecodeAll(tree, wrapper, out);
    }

    /** One decoded byte into the buffer; a full buffer is written out and
        emptied. */
    method Emit(byte: Byte, out: FileStream)
      requires Valid() && out.Valid()
      modifies this, buffer, out
      ensures Valid() && out.Valid()
      ensures out.data + buffer[..bufferCnt] == old(out.data + buffer[..bufferCnt]) + [byte]
    {
      buffer[bufferCnt] := byte;
      bufferCnt := bufferCnt + 1;
      assert buffer[..bufferCnt] == old(buffer[..bufferCnt]) + [byte];
      if bufferCnt == bufferSize {
        out.Write(buffer[..bufferSize]);
        bufferCnt := 0;
        assert buffer[..0] == [];
      }
    }

    /** The final flush of decompress_file: what the buffer holds is
        written out. */
    method FlushOut(out: FileStream)
      requires Valid() && out.Valid()
      modifies this, out
      ensures Valid() && bufferCnt == 0
      ensures out.data == old(out.data + buffer[..bufferCnt])
    {
      if bufferCnt > 0 {
        out.Write(buffer[..bufferCnt]);
        bufferCnt := 0;
      } else {
        assert buffer[..bufferCnt] == [];
      }
    }

    /** One pass of the decode loop of decompress_file: a bit is read and, if
        there was one, the cursor follows it (a cursor that already stepped
        off the tree is a fault) and a byte found goes to the output buffer.
        What is output followed by what the rest decodes to is unchanged. */
    method DecodeStep(tree: HuffmanTree, wrapper: BitFileIO, out: FileStream) returns (more: bool, fault: bool)
      requires Valid() && tree.Valid() && wrapper.Valid() && out.Valid()
      requires out != wrapper.stream && buffer != wrapper.rBuff
      modifies this, buffer, tree, wrapper, wrapper.stream, wrapper.rBuff, out
      ensures Valid() && tree.Valid() && wrapper.Valid() && out.Valid()
      ensures more <==> old(wrapper.Unread()) != []
      ensures fault ==> more && old(tree.cursor).None?
      ensures !more ==> wrapper.Unread() == [] && out.data + buffer[..bufferCnt] == old(out.data + buffer[..bufferCnt])
      ensures more && !fault ==> |wrapper.Unread()| < |old(wrapper.Unread())|
      ensures more && !fault ==>
        Prepend(out.data + buffer[..bufferCnt], Decode(tree.root, tree.cursor, wrapper.Unread()))
        == Prepend(old(out.data + buffer[..bufferCnt]), Decode(tree.root, old(tree.cursor), old(wrapper.Unread())))
    {
      ghost var bits := wrapper.Unread();
      ghost var done := out.data + buffer[..bufferCnt];
      ghost var goal := Prepend(done, Decode(tree.root, tree.cursor, bits));
      var ok, bit := wrapper.ReadBit();
      if !ok {
        return false, false;
      }
      if tree.cursor.None? {
        return true, true;
      }
      ghost var cursor, rest := tree.cursor, wrapper.Unread();
      assert rest == bits[1..];
      var found := Feed(tree, bit, out);
      assert wrapper.Unread() == rest;
      Advance(tree.root, cursor, bits, tree.cursor, found, done, goal);
      return true, false;
    }

    /** The body of the decode loop once a bit is read: the tree takes the
        bit and a byte found goes to the output buffer. */
    method Feed(tree: HuffmanTree, bit: Bit, out: FileStream) returns (ghost found: Option<Byte>)
      requires Valid() && tree.Valid() && tree.cursor.Some? && out.Valid()
      modifies this, buffer, tree, out
      ensures Valid() && tree.Valid() && out.Valid()
      ensures (tree.cursor, found) == Step(tree.root, old(tree.cursor).value, bit)
      ensures out.data + buffer[..bufferCnt]
              == old(out.data + buffer[..bufferCnt]) + (if found.Some? then [found.value] else [])
    {
      var hit, byte := tree.TryGetByte(bit);
      found := if hit then Some(byte) else None;
      if hit {
        Emit(byte, out);
      }
    }

    /** The decode loop of decompress_file and the final flush: every bit
        the wrapper yields goes to the tree, every byte found to the buffer.
        Bytes already in the buffer come first in the output. */
    method DecodeAll(tree: HuffmanTree, wrapper: BitFileIO, out: FileStream) returns (r: Result<seq<Byte>>)
      requires Valid() && tree.Valid() && tree.cursor.Some? && wrapper.Valid() && out.Valid()
      requires out != wrapper.stream && buffer != wrapper.rBuff
      modifies this, buffer, tree, wrapper, wrapper.stream, wrapper.rBuff, out
      ensures Valid()
      ensures r == Prepend(old(out.data + buffer[..bufferCnt]), Decode(tree.root, old(tree.cursor), old(wrapper.Unread())))
      ensures r.Ok? ==> bufferCnt == 0
    {
      ghost var goal := Prepend(out.data + buffer[..bufferCnt], Decode(tree.root, tree.cursor, wrapper.Unread()));
      while true
        invariant Valid() && tree.Valid() && wrapper.Valid() && out.Valid()
        invariant Prepend(out.data + buffer[..bufferCnt], Decode(tree.root, tree.cursor, wrapper.Unread())) == goal
        decreases |wrapper.Unread()|
      {
        var more, fault := DecodeStep(tree, wrapper, out);
        if !more {
          break;
        }
        if fault {
          return Err(NullChildDereference);
        }
      }
      ghost var done := out.data + buffer[..bufferCnt];
      assert Decode(tree.root, tree.cursor, wrapper.Unread()) == Ok([]);
      assert done + [] == done;
      FlushOut(out);
      return Ok(out.data);
    }
  }
}
