# Huffman file codec, modelled in Dafny

This project models the core of a small C++ Huffman file compressor. The
compressor:

- counts how often each byte value occurs in the input (`freq_map`);
- builds a Huffman tree from those counts with a min-priority queue and a
  tie-breaking comparator (`huffman_tree`), and derives one code per byte;
- writes a header, some padding bits and the input's codes through a
  bit-level writer (`bit_file_io`).

Decompression reads the header back, rebuilds the same tree, skips the
padding bits and walks the tree one bit at a time, emitting a byte at every
leaf.

The model has five modules:

- `Common`: `Option`/`Result`, the error cases, `Byte` and `Bit`.
- `FreqTable`: `freq_map` as a class over a sequence of 256 counters.
- `Huffman`:
  - the tree as a datatype, the queue order and tree construction;
  - the code table and the decoder's cursor;
  - the `huffman_tree` class, which holds the root, an array of 256 codes
    and the cursor.
- `BitIO`:
  - a `FileStream` standing in for `std::fstream`;
  - `bit_file_io` as a class with its accumulators, byte buffers and counters.
- `Codec`:
  - the file format as functions;
  - `compress_file` and `decompress_file` as methods on the same state, each
    proved against those functions;
  - the round trip `DecompressImage(CompressImage(x)) == Ok(x)` for every
    non-empty input shorter than 2^64 bytes.

The priority queue is a sequence. Its top is the entry no other entry
precedes under the comparator. The tree built by the merge loop is
therefore a function of the queue's contents. `TopIsUnique` shows this does
not depend on how a heap breaks ties: among disjoint trees the comparator
is a strict total order, so exactly one entry can be on top.

The padding bits come right after the header, before the first code, so
the padding and the codes together fill whole bytes. The decoder skips
them while reading the header.

## Model

| member | source | states |
|---|---|---|
| FreqTable.FreqMap.constructor | inc/huffman_tree.h:16 | a new table has 256 slots, all zero |
| FreqTable.FreqMap.Get | inc/huffman_tree.h:24 | defines `get`: the count held in a byte's slot, which the tree builder and the header writer read |
| FreqTable.FreqMap.Set | inc/huffman_tree.h:32 | the slot of the byte takes the value; every other slot keeps its count |
| FreqTable.FreqMap.Inc | inc/huffman_tree.h:39 | the slot of the byte goes up by one; every other slot keeps its count |
| FreqTable.FreqMap.Size | inc/huffman_tree.h:46-53 | the scan returns the number of bytes with a nonzero count, which is at most 256 |
| FreqTable.PresentSpec | inc/huffman_tree.h:46-53 | the present bytes are exactly those with a nonzero count, strictly ascending, at most 256 of them |
| FreqTable.Counts | src/huffman_encoder.cpp:57-71 | slot b of the counted table is the number of occurrences of b in the input |
| Huffman.GetLeftMostLeaf | src/huffman_tree.cpp:133-146 | following left children from a node ends at a leaf of that node |
| Huffman.LeftmostLeafIsLeaf | src/huffman_tree.cpp:133-146 | the leftmost leaf of a tree is one of its leaves |
| Huffman.Comp | src/huffman_tree.cpp:14-42 | n2 goes before n1 exactly when its key is smaller in (count, leaf before node, leftmost byte) order |
| Huffman.MinIndex | src/huffman_tree.cpp:43-45 | the top of a non-empty queue is an entry that no other entry goes before |
| Huffman.DistinctKeys | src/huffman_tree.cpp:14-42 | two entries of a queue of disjoint trees have different keys, and the comparator orders them one way only |
| Huffman.TopIsUnique | src/huffman_tree.cpp:62-72 | in a queue of disjoint trees, any entry that no other entry goes before is the top; the build does not depend on heap tie-breaking |
| Huffman.HuffmanRoot | src/huffman_tree.cpp:47-75 | defines the tree the constructor builds from a table: one leaf per present byte in ascending order, `ZeroUniqueBytes` when there is none, a lone leaf wrapped in a node, then the merge loop down to one root |
| Huffman.Seed | src/huffman_tree.cpp:55-60 | defines the queue the merge loop starts from: a lone entry is replaced by a node with the same count, that entry on the left and no right child |
| Huffman.MergeAll | src/huffman_tree.cpp:62-75 | defines the merge loop: merge rounds until one entry remains, and that entry is the root |
| Huffman.MergeOnce | src/huffman_tree.cpp:64-71 | defines one round of the merge loop: pop the top entry, pop the next top entry, push their parent |
| Huffman.Parent | src/huffman_tree.cpp:69-70 | defines the node pushed for two popped entries: the sum of their counts, the first popped on the left, the second on the right |
| Huffman.SeedQueue | src/huffman_tree.cpp:47-50 | the scan of all 256 slots queues a leaf for each present byte, in ascending order |
| Huffman.InitialQueueSpec | src/huffman_tree.cpp:47-50 | the seeded queue holds each present byte's leaf exactly once with its count, totals the table, and every entry is well formed |
| Huffman.SeedSpec | src/huffman_tree.cpp:55-60 | wrapping a lone leaf in a node keeps the leaves and the total and leaves a node on top |
| Huffman.MergeLoop | src/huffman_tree.cpp:62-75 | the loop that pops two and pushes their parent ends with the merged root, an internal node |
| Huffman.MergeOnceSpec | src/huffman_tree.cpp:64-71 | one merge keeps the queue's leaves and total count and keeps every entry well formed |
| Huffman.MergeAllSpec | src/huffman_tree.cpp:62-75 | the merged root is well formed and holds every leaf of the queue and its total count |
| Huffman.BuildRoot | src/huffman_tree.cpp:47-75 | building fails with the zero-unique-bytes error exactly when no byte is present; otherwise the root is an internal node |
| Huffman.HuffmanRootSpec | src/huffman_tree.cpp:47-75 | the build fails exactly when every count is zero; otherwise the root is a well-formed node whose leaves are exactly the present bytes, each once with its count, and whose count is the table's total |
| Huffman.OneSymbolRoot | src/huffman_tree.cpp:55-60 | with one distinct byte, the root is a node with that leaf on the left and no right child |
| Huffman.Codes | src/huffman_tree.cpp:104-120 | defines the code of each leaf value: its root-to-leaf path, 0 for a left step and 1 for a right step |
| Huffman.CodeOf | src/huffman_tree.cpp:77-78 | defines `codes_[b]`: the code of b, and the empty code for a byte that is not in the tree |
| Huffman.CodesKeys | src/huffman_tree.cpp:104-120 | the bytes with a code are exactly the values of the tree's leaves |
| Huffman.CodesPrefixFree | src/huffman_tree.cpp:104-120 | no byte's code is a prefix of another byte's code |
| Huffman.RootCodes | src/huffman_tree.cpp:77-78 | a byte has a code in the built tree exactly when its count is nonzero |
| Huffman.OneSymbolCodes | src/huffman_tree.cpp:55-60 | the tree of a single byte gives it the one-bit code 0 |
| Huffman.EncodeBits | src/huffman_encoder.cpp:105-118 | defines the bits the encode loop writes for an input: the codes of its bytes, in order |
| Huffman.Step | src/huffman_tree.cpp:87-102 | defines `try_get_byte` on a cursor: move to the child the bit picks; at a leaf, yield its value and go back to the root; a missing child leaves no cursor |
| Huffman.Decode | src/huffman_encoder.cpp:175-189 | defines the decode loop over a bit string: every byte found, in order; a step from a missing cursor is `NullChildDereference`; bits after the last complete code yield nothing |
| Huffman.EncodeBitsAppend | src/huffman_encoder.cpp:111-117 | encoding one more byte appends that byte's code |
| Huffman.DecodeCode | src/huffman_tree.cpp:87-102 | feeding a byte's code from a subtree yields that byte and puts the cursor back at the root |
| Huffman.DecodeCodePrefix | src/huffman_tree.cpp:87-102 | a proper prefix of a code yields no byte and no error |
| Huffman.DecodeEncode | src/huffman_tree.cpp:87-102 | decoding the codes of a byte string whose bytes all have codes gives the string back |
| Huffman.HuffmanTree.Build | src/huffman_tree.cpp:10-79 | the constructor fails with the zero-unique-bytes error exactly when no byte is present; otherwise it yields the built root, its code table and a cursor at the root |
| Huffman.HuffmanTree.constructor | src/huffman_tree.cpp:77-78 | the 256-entry table holds every byte's root-to-leaf path, and the empty code for an absent byte |
| Huffman.HuffmanTree.FillCodes | src/huffman_tree.cpp:104-120 | every leaf below the node gets its path after the current prefix (0 left, 1 right); every other entry keeps its value |
| Huffman.HuffmanTree.TryGetByte | src/huffman_tree.cpp:87-102 | the cursor moves to the child the bit picks; at a leaf it yields the byte and returns to the root |
| BitIO.SetBit | src/bit_file_io.cpp:25-26 | shifting 1 left by 7 minus the bit count sets that bit counted from the top |
| BitIO.GetBit | src/bit_file_io.cpp:87-88 | shifting and masking by s picks bit 7 - s of the byte counted from the top |
| BitIO.BitsOfPackBits | src/bit_file_io.cpp:37-44 | the byte a flush stores reads back as the accumulated bits followed by zeros |
| BitIO.UnpackAppend | src/bit_file_io.cpp:67-90 | the bits of two byte strings are the bits of the first, then those of the second |
| BitIO.UnpackPack | src/bit_file_io.cpp:21-48 | a bit string of whole bytes, packed and read back, is unchanged |
| BitIO.PackUnpack | src/bit_file_io.cpp:21-48 | the bits of a byte string, packed, give the bytes back |
| BitIO.PackAppend | src/bit_file_io.cpp:21-48 | packing whole bytes' bits followed by more bits gives those bytes, then the packed rest |
| BitIO.FileStream.Read | src/bit_file_io.cpp:74-77 | a read returns the next n bytes or what is left, and a short read leaves the position at the end |
| BitIO.FileStream.ReadInto | src/bit_file_io.cpp:74-77 | the buffer's first gcount bytes are those the read returned, and gcount is at most the buffer size |
| BitIO.FileStream.Write | src/bit_file_io.cpp:59-60 | a write appends the bytes |
| BitIO.BitFileIO.constructor | src/bit_file_io.cpp:5-13 | both buffers get at least one byte, everything is empty, and the bits to read are those of the file from its position |
| BitIO.BitFileIO.WriteBit | src/bit_file_io.cpp:21-31 | the bits written grow by the low bit of the argument, and nothing on the read side changes |
| BitIO.BitFileIO.PushBit | src/bit_file_io.cpp:23-27 | the accumulator holds one more bit, set from the top, and nothing is committed yet |
| BitIO.BitFileIO.FlushBitBuffer | src/bit_file_io.cpp:37-48 | an empty accumulator changes nothing; otherwise its bits become one more committed byte filled with zeros, and the accumulator is emptied |
| BitIO.BitFileIO.FlushBuffer | src/bit_file_io.cpp:54-62 | the buffered bytes are appended to the file in order, and the buffer is emptied |
| BitIO.BitFileIO.ReadBit | src/bit_file_io.cpp:67-90 | read_bit with the read position reset on every refill: it succeeds exactly when bits remain, returns the first and drops it; at the end nothing remains |
| BitIO.BitFileIO.TakeBit | src/bit_file_io.cpp:87-89 | the bit handed out is the first unread bit, and it is consumed |
| BitIO.BitFileIO.Refill | src/bit_file_io.cpp:72-81 | refilling the buffer does not change the bits still to read, and it gets no bytes exactly when none remain |
| BitIO.BitFileIO.NextByte | src/bit_file_io.cpp:83-84 | moving the next buffered byte into the accumulator does not change the bits still to read |
| BitIO.BitFileIO.ReadBitAsWritten | src/bit_file_io.cpp:67-90 | read_bit as written: on a failed refill the read position is not reset, so a later call reads a byte of the buffer again |
| BitIO.StaleReadAfterEnd | src/bit_file_io.cpp:71-80 | on a one-byte file with a two-byte buffer, read_bit as written returns eight bits, then false, then a ninth bit |
| Codec.FromLEOfLE | src/huffman_encoder.cpp:224 | n little-endian bytes of a value below 256^n read back as that value |
| Codec.FromLE64 | src/huffman_encoder.cpp:256 | a count below 2^64 written as 8 little-endian bytes reads back unchanged |
| Codec.Pairs | src/huffman_encoder.cpp:219-226 | defines the table entries of the given bytes: each byte, then its count as 8 little-endian bytes |
| Codec.HeaderBytes | src/huffman_encoder.cpp:207-226 | defines the header: the number of distinct bytes minus one (modulo 256), the padding, then one entry per present byte in ascending order |
| Codec.ReadPairs | src/huffman_encoder.cpp:250-260 | defines the entry-reading loop: at most k entries, each a byte whose slot gets the count after it, ending at the end of the file when an entry is cut short |
| Codec.ParseHeader | src/huffman_encoder.cpp:236-260 | defines what `read_file_header` reads: the table, the padding byte (0 when the file is one byte long) and the position where the code bits start |
| Codec.ReadPairsOfPairs | src/huffman_encoder.cpp:251-260 | reading entries that were written from a table sets exactly those bytes' counts and ends right after them |
| Codec.HeaderRoundTrip | src/huffman_encoder.cpp:207-260 | the header written for a table with a present byte and counts below 2^64 reads back as the same table and padding, and the body starts right after it |
| Codec.PaddingFor | src/huffman_encoder.cpp:94 | the padding is below 8 and brings the code length to a multiple of 8 |
| Codec.EncodeLength | src/huffman_encoder.cpp:84-91 | the encoded input is as long as the sum over bytes of code length times count |
| Codec.WholeBytes | src/huffman_encoder.cpp:81-94 | the padding and the codes fill whole bytes |
| Codec.ImageOf | src/huffman_encoder.cpp:84-122 | defines the compressed file for given counts, tree and input: the header, then the padding zeros and the codes packed into bytes, the last byte zero-filled |
| Codec.CompressImage | src/huffman_encoder.cpp:26-130 | defines what `compress_file` writes for a non-empty input: that file for the input's counts and the tree built from them |
| Codec.RootFor | src/huffman_encoder.cpp:77 | a non-empty input always builds an internal-node root |
| Codec.InputHasCodes | src/huffman_encoder.cpp:111-116 | every byte of a non-empty input has a code in its tree |
| Codec.ImageLayout | src/huffman_encoder.cpp:97-122 | the compressed file parses back to the counts and the padding, and the bits after the header are the padding bits followed by the codes |
| Codec.PayloadBits | src/huffman_encoder.cpp:262-265 | defines the bits the decode loop gets: the bits after the table, less the first `padding` bits, as far as there are bits |
| Codec.DecompressImage | src/huffman_encoder.cpp:132-205 | defines what `decompress_file` writes: `InputMissingOrEmpty` for an empty file, the tree builder's error, or the decoding of the payload bits from the root |
| Codec.DecompressOf | src/huffman_encoder.cpp:175-189 | when the bits after the header are the padding bits and a code string, decompressing decodes that code string |
| Codec.RoundTrip | src/huffman_encoder.cpp:26-205 | decompressing the compressed image of a non-empty input shorter than 2^64 bytes gives the input back |
| Codec.CountBytes | src/huffman_encoder.cpp:57-71 | counting yields the occurrence table of the input |
| Codec.ComputePadding | src/huffman_encoder.cpp:84-94 | the mod-8 accumulation loop yields the padding for the total code length |
| Codec.WriteTable | src/huffman_encoder.cpp:210-226 | the stream grows by the header bytes: the distinct count minus one as a byte, the padding, and one 9-byte entry per present byte in ascending order |
| Codec.WriteZeros | src/huffman_encoder.cpp:229-230 | n zero bits are written |
| Codec.WriteFileHeader | src/huffman_encoder.cpp:207-234 | the bits written grow by the header bytes' bits, then the padding zero bits |
| Codec.WriteCode | src/huffman_encoder.cpp:114-116 | the code's bits are written in order |
| Codec.EncodeInput | src/huffman_encoder.cpp:105-118 | the bits written grow by the codes of the input's bytes, in order |
| Codec.Finish | src/huffman_encoder.cpp:121-122 | after both flushes the file is the header followed by the body bits packed into bytes |
| Codec.OpenOutput | src/huffman_encoder.cpp:52-97 | a fresh output with a one-byte read buffer and a 16 MB write buffer holds the header's bits, then the padding bits |
| Codec.WriteBody | src/huffman_encoder.cpp:100-122 | the file ends up as the header followed by the packed padding bits and codes |
| Codec.WriteImage | src/huffman_encoder.cpp:97-122 | the written file is the image for the counts, the tree and the input |
| Codec.Compress | src/huffman_encoder.cpp:52-122 | the written file is the compressed image of the input |
| Codec.ReadTable | src/huffman_encoder.cpp:243-260 | the table, the padding and the stream position are those the header parse gives |
| Codec.ReadEntry | src/huffman_encoder.cpp:254-259 | an entry is read and stored exactly when nine bytes remain; a short read leaves the table unchanged and the stream at its end |
| Codec.SkipBits | src/huffman_encoder.cpp:263-265 | n bits are skipped, or as many as remain |
| Codec.ReadFileHeader | src/huffman_encoder.cpp:236-269 | the tree fails with the zero-unique-bytes error exactly when the parsed table has no present byte; otherwise it is the tree for that table; the bits left to read are the payload |
| Codec.ReadHeaderBits | src/huffman_encoder.cpp:243-265 | the table is the one the header parse gives, and once the padding bits are skipped the bits left to read are the payload |
| Codec.OpenImage | src/huffman_encoder.cpp:146-169 | opening a 16 MB-buffered reader and reading the header gives the parsed tree or its error, and leaves the payload bits to read |
| Codec.HuffmanEncoder.constructor | src/huffman_encoder.cpp:16-22 | the buffer has the requested size and is empty |
| Codec.HuffmanEncoder.CompressFile | src/huffman_encoder.cpp:26-125 | a missing or empty input and an unwritable output are reported in that order; otherwise the output is the compressed image |
| Codec.HuffmanEncoder.DecompressFile | src/huffman_encoder.cpp:132-205 | a missing or empty input and an unwritable output are reported in that order; otherwise the output is the decompressed file after the bytes already buffered, and a successful run leaves the buffer empty |
| Codec.HuffmanEncoder.Decompress | src/huffman_encoder.cpp:158-198 | the result is the bytes already buffered followed by the decompression of the file, or its error; on success the buffer is empty |
| Codec.HuffmanEncoder.DecodeImage | src/huffman_encoder.cpp:172-198 | decoding the payload into a new output gives the bytes already buffered followed by the decompression of the file; on success the buffer is empty |
| Codec.HuffmanEncoder.Emit | src/huffman_encoder.cpp:180-187 | the bytes written plus those buffered grow by one byte; a full buffer goes to the file |
| Codec.HuffmanEncoder.FlushOut | src/huffman_encoder.cpp:192-198 | the buffered bytes are appended to the output and the buffer is emptied |
| Codec.HuffmanEncoder.DecodeStep | src/huffman_encoder.cpp:176-188 | one turn of the loop: it goes on exactly while bits remain, consumes one, and keeps the output plus the decoding of the rest equal to the goal |
| Codec.HuffmanEncoder.Feed | src/huffman_encoder.cpp:178-188 | the cursor takes the step the bit picks, and the byte it finds, if any, is appended to the bytes written plus those buffered |
| Codec.HuffmanEncoder.DecodeAll | src/huffman_encoder.cpp:175-198 | the loop and the final flush give the bytes so far followed by the decoding of the remaining bits from the cursor; on success the buffer is empty |

## Left out

- The user-interface messages, the command-line parser and `main` are not modelled. They print progress, choose the mode and the file names (the output defaults to the input's name plus `.out`), and end the process with a failure status on an error. The model's `Err` results stand for those error exits.
- File I/O is modelled on byte sequences. An input file is `None` when it cannot be opened. Whether the output can be written is a boolean. The result of a run is the output file's contents or an error.
- Reading the input in buffer-sized chunks is modelled as one pass over the whole input. Chunking does not change the counts or the order of the codes.
- Codec.HuffmanEncoder.CompressFile: does not model the encoder's buffer, which the source leaves holding the last chunk of the input (`buffer_cnt_` is the input length modulo the buffer size). A later `decompress_file` on the same object writes those bytes first. `DecompressFile` takes the buffered bytes as its starting point (`Prepend`).
- Codec.HuffmanEncoder.CompressFile: requires the input to be shorter than 2^64 bytes. The source keeps counts in `uint64_t`; larger inputs would wrap.
- Counts are written and read as 8 little-endian bytes, and each entry's symbol is the low byte of the 16-bit loop counter. The source does both only on a little-endian host; on a big-endian host it writes the counter's high byte, which is 0, as the symbol.
- Huffman.HuffmanRoot: counts and the sums of merged counts are unbounded. The source adds them as `uint64_t`, so a parent's count wraps when its children's counts total 2^64 or more. No file that `compress_file` writes can reach this, since its input is shorter than 2^64 bytes. A crafted compressed file whose header declares such counts can, and for it the source builds a different tree.
- Codec.DecompressImage: inherits that unbounded sum from `Huffman.HuffmanRoot`. For a compressed file whose header counts total 2^64 or more, it can differ from what `decompress_file` writes, and so can `Codec.HuffmanEncoder.DecompressFile`, which is proved equal to it.
- The decoder's cursor and `read_bit`'s read position are static locals in the source, shared by every object. Here each object has its own. The shared cursor starts at the root of the first tree ever used.
- Huffman.HuffmanTree.TryGetByte: requires a cursor. In a one-symbol tree, a 1 bit from a corrupt file moves the source's cursor to the missing right child, and the next call dereferences it, which is undefined behaviour. The model reports `NullChildDereference` on that next bit. When the 1 bit is the file's last bit, decoding ends normally.
- The `logic_error` thrown for a table with no present byte is the `ZeroUniqueBytes` error. `get_left_most_leaf`'s throw on a null node cannot happen, because the comparator only calls it on internal nodes.
- Codec.HuffmanEncoder.constructor: requires a buffer size above zero. With a zero-size buffer, `compress_file`'s counting loop never ends, because a read of zero bytes never sets end-of-file. `decompress_file` would write the first decoded byte out of bounds.
- The `<<` and `>>` operators of `bit_file_io` are modelled by `WriteBit` and `ReadBit`, which they forward to.
- A one-byte compressed file has no padding byte; the source's uninitialised byte is taken as 0. No bits follow the header in that case, so the value does not matter.
- Codec.HuffmanEncoder.DecompressFile: uses the corrected `read_bit` (`BitIO.BitFileIO.ReadBit`). On a corrupt file where at least one byte follows the header and the padding byte exceeds 8 times that count, the source's decode loop goes on to take buffer bytes that were never filled and then reads past the end of the buffer. The model decodes only the file's own bits.
- BitIO.BitFileIO.ReadBitAsWritten: requires the read position to be inside the buffer. After the stale read, the source can read past the end of the buffer, which is undefined behaviour.
- The read side takes bits by arithmetic on byte values. The write side uses 8-bit vectors, as `w_bit_buf_` does.
- Destructors and `delete` are not modelled.
- `get_codes()` is a copy of the code table (`codes[..]`).

## Findings

| source | as written | input that shows it | evidently intended | confidence | as-written member | corrected member |
|---|---|---|---|---|---|---|
| src/bit_file_io.cpp:71-80 | When a refill reads no bytes, `read_bit` returns false before resetting `r_buff_pos`. The position stays at the old buffer's end while `r_buff_cnt_` is 0, so the next call skips the refill and hands out a stale byte of the buffer, or reads past it. `decompress_file` reaches this only on a corrupt file: at least one byte follows the header, and the padding byte exceeds 8 times the number of those bytes, so the padding is at least 9, which `compress_file` never writes. When no byte follows the header, the failed refill leaves the position at 0, equal to the count, and no stale read happens. | A one-byte file `[0xFF]` read through a two-byte buffer: eight bits come back, the ninth call returns false, and the tenth returns a bit again. | Reset the read position on every refill, so that once the file is exhausted every later call returns false. | not executed | BitIO.BitFileIO.ReadBitAsWritten (witness BitIO.StaleReadAfterEnd) | BitIO.BitFileIO.ReadBit |
