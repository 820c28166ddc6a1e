# Verified models of the decoders, locks and containers

This project models eight components of the emulator's native runtime in Dafny and proves what
they are for. Code that works in place stays imperative: classes with fields, arrays and loops, each
method proved against a specification function or relation. Two components are protocols between
threads, and they are state machines over atomic steps. Run `dafny verify dfyconfig.toml` to check everything.

- **Inflate** (`BitStream`, `Canonical`, `Huffman`, `ZlibBuffer`, `Lz77`, `InflateBlock`, `Deflate`,
  `DynamicHeader`, `Inflate`, `Zlib`, `Encoder`, `DynamicEncoder`; arithmetic in `Binary` and `Reversal`). RFC 1951 is
  stated as a relation between bits and blocks: the data is a sequence of bits, continued with zeros, and
  predicates say which tokens, headers and blocks stand at a bit position and what bytes they expand to.
  The decoder is proved against this relation in both directions. Two encoders, one for the default codes and
  one for any codes with all their headers, are written from the RFC on their own and proved to be read back, so
  that the relation is pinned to the format. What the bit reader notices of the end of the input is a small machine of
  its own (`BitRefill`, `TokenRefill`, `BlockRefill`): the number of bytes fetched and one flag. With it the
  decoder is proved to return an output if and only if a stream is accepted; `Truncation` and
  `TruncatedStreams` say what that means for streams that end too early.
- **PNG reconstruction** (`PngFilter`, `PngPixels`, `PngBits`, `PngImage`, `Adam7`, `Interlace`, `Packing`,
  `Deinterlace`). The filters of the specification define when rows are encoded by data; the decoder succeeds
  exactly on such data and its output is the image. Interlacing is proved to be a bijection between the pixels
  of the seven passes and those of the image, and an interlaced image to decode to the same bytes as the image
  it was split from. Sixteen-bit output is stored least significant byte first, as on the target machines.
- **LockRange**. Threads have a stack of frames for the recursion and a program counter inside each of the
  two branches; try-locks may fail spuriously. A caller's release of its range is part of the model, so that
  threads enter and leave any number of times.
- **SpscQueue**. Index loads, predicate tests, sleeping, waking, slot accesses, increments and notifications
  are separate steps of the producer, the consumer and a thread that requests a stop. Sleepers may wake up
  at any time. The lists of all values pushed and popped are kept as history.
- **AES** (`GaloisField`, `AesTables`, `AesCipher`, `AesState`, `AesAccess`, `AesCbc`, `AesBounds`). The
  inverse steps are proved to invert the steps, with the column matrices treated in GF(2^8); the in-place code is
  proved equal to the functions, up to buffers and error codes of CBC with padding. `AesField`, `AesSbox` and
  `AesBytes` pin these functions to FIPS 197: multiplication to that of polynomials, the table to inverses in the
  field, and cipher, key schedule and chaining to a second definition on bytes. `AesAccess` lists the reads and writes of
  the chained modes, which log them as they go, and `AesBounds` says exactly when the checks on the sizes keep
  them in bounds.
- **BitArray** with **WordBits**, **LruCache**, **SlotVector** and **Uint128** (with `Division`).

Findings that the contracts record:

- An inflate buffer that is empty at first can never grow by doubling (`InflateBlock.GrowthEndsExactly`); the
  callers always pass a non-empty one, which is a precondition here.
- The end-of-input flag of the Huffman decoder does not catch every truncated stream, because filling the bit
  buffer for extra bits or flags fetches zeros without setting it: `TruncatedStreams.ShortStreamAccepted` is such a
  stream of two bytes, and `TruncatedStreams.CutStreamAccepted` one that lacks 19 bits. Which streams are
  accepted is proved exactly (`Zlib.DecodeMalloc`): every complete one, and an incomplete one only if its last
  block is compressed and at most 22 bits of it are missing with the default codes, at most 136 with codes of
  its own (`Truncation.AcceptedEnd`).
- The comment on encrypt_cbc asks for a multiple of sixteen bytes when padding is off. The code accepts empty
  data and then writes one block, whatever the size of the buffer (`AesBounds.EncryptOverrun`).
- decrypt_cbc decrypts the first block directly in the output buffer, so a single block needs sixteen bytes
  of room even when padding is removed, and its checks do not ask for them (`AesBounds.DecryptOverrun`).
- decrypt_cbc accepts empty data when padding is kept; it then reads a block that is not there, and its number
  of blocks wraps around (`AesBounds.DecryptEmpty`). These three are the only inputs that pass the checks and
  leave the buffers (`AesBounds.EncryptBounds`, `AesBounds.DecryptBounds`), up to sizes near 2^64.
- SlotVector hands out ids twice once it grows beyond 2^32 slots, and at 2^32 slots iteration sees nothing.
- The capacity test of the queue also lets 0 pass (`SpscQueue.CapacityTestExact`); the model takes positive
  capacities.
- The product-and-quotient fallback is wrong exactly when the product of the two remainders overflows, as at
  the input of `Uint128.MultiplyAndDivideInexact`.

## Model

| member | source | states |
|---|---|---|
| `Reversal.BitReverseIsRev` | runtime/sources/shadps4/externals/stb/stb_image.h:4107-4122 | The four exchanges under masks, followed by the shift, reverse the low n bits of a code. |
| `Reversal.BitReverse16IsRev` | runtime/sources/shadps4/externals/stb/stb_image.h:4107-4114 | The four mask-and-shift exchanges reverse all sixteen bits, for every argument. |
| `BitStream.RevBits` | runtime/sources/shadps4/externals/stb/stb_image.h:4229-4229 | A field read least significant bit first and reversed is the same field read as a Huffman code. |
| `BitStream.BitsConsume` | runtime/sources/shadps4/externals/stb/stb_image.h:4214-4222 | The mask returns the first bits of the buffered field and the shift keeps exactly the others. |
| `Canonical.KraftInequality` | runtime/sources/shadps4/externals/stb/stb_image.h:4135-4149 | The per-length test of the builder holds if and only if the lengths satisfy the Kraft inequality. |
| `Canonical.CodeOrder` | runtime/sources/shadps4/externals/stb/stb_image.h:4138-4149 | The windows that begin with the codes lie in code order: shorter codes first, equal lengths in symbol order. |
| `Canonical.PrefixFree` | runtime/sources/shadps4/externals/stb/stb_image.h:4124-4169 | At most one symbol has a code that is a prefix of a given window. |
| `Canonical.MatchBelow` | runtime/sources/shadps4/externals/stb/stb_image.h:4230-4232 | A window below maxcode[s] begins with a code of at most s bits. |
| `Canonical.MatchIsBelow` | runtime/sources/shadps4/externals/stb/stb_image.h:4230-4232 | A window that begins with a code of length t is below maxcode[s] for every s from t on; with MatchBelow, the search stops at the right length. |
| `Canonical.SlotInjective` | runtime/sources/shadps4/externals/stb/stb_image.h:4151-4167 | Different symbols get different positions in the sorted symbol table. |
| `Canonical.SlotBound` | runtime/sources/shadps4/externals/stb/stb_image.h:4235-4236 | Every position in the sorted symbol table is below the number of symbols, so the guard on b never fires. |
| `Huffman.SymbolUnique` | runtime/sources/shadps4/externals/stb/stb_image.h:4124-4169 | At most one symbol stands at a position of the stream. |
| `Huffman.FastEntryHits` | runtime/sources/shadps4/externals/stb/stb_image.h:4158-4164 | The nine-bit table has an entry for a window whenever a code of at most nine bits is a prefix of it. |
| `Huffman.FastHitIsSymbol` | runtime/sources/shadps4/externals/stb/stb_image.h:4155-4164 | An entry of the nine-bit table holds the length and the symbol of the one code that is a prefix of the window. |
| `Huffman.ZHuffman.Build` | runtime/sources/shadps4/externals/stb/stb_image.h:4124-4169 | Building succeeds exactly when the lengths satisfy the Kraft inequality, and then all tables represent the canonical code of the lengths. |
| `ZlibBuffer.ZBuf.ZGet8` | runtime/sources/shadps4/externals/stb/stb_image.h:4192-4200 | The next input byte, or zero once the input is used up. |
| `ZlibBuffer.ZBuf.FillByte` | runtime/sources/shadps4/externals/stb/stb_image.h:4202-4212 | One turn of the refill: the buffer stays the next bits of the stream, and the guard against stray bits never fires. |
| `ZlibBuffer.ZBuf.FillBits` | runtime/sources/shadps4/externals/stb/stb_image.h:4202-4212 | At least 25 and at most 32 bits are buffered afterwards, and they are the next bits of the stream. |
| `ZlibBuffer.ZBuf.ZReceive` | runtime/sources/shadps4/externals/stb/stb_image.h:4214-4222 | Returns the next n bits of the zero-extended stream and consumes exactly those. |
| `ZlibBuffer.ZBuf.SlowPath` | runtime/sources/shadps4/externals/stb/stb_image.h:4224-4241 | The search over maxcode finds the symbol whose code comes next, or -1 when no code matches; the guards on b and size[b] never fire. |
| `ZlibBuffer.ZBuf.FastLookup` | runtime/sources/shadps4/externals/stb/stb_image.h:4263-4269 | A hit in the nine-bit table is the symbol that comes next, consuming its length; a miss changes nothing. |
| `ZlibBuffer.ZBuf.Ensure16` | runtime/sources/shadps4/externals/stb/stb_image.h:4246-4262 | Sixteen bits become available, zero bits being appended once at the end of the input; failure means that bits past the end were already consumed. |
| `ZlibBuffer.ZBuf.HuffmanDecode` | runtime/sources/shadps4/externals/stb/stb_image.h:4243-4271 | Returns the one symbol whose code comes next in the stream and consumes exactly its length; -1 only when no code matches or the stream was read past its end. |
| `ZlibBuffer.ZBuf.EndCheck` | runtime/sources/shadps4/externals/stb/stb_image.h:4324-4334 | The check at the end of a block, on the buffer and the flag, is the one on the bytes fetched and the position read. |
| `BitRefill.LookSound` | runtime/sources/shadps4/externals/stb/stb_image.h:4246-4262 | Decoding a symbol is refused only when bits past the end of the input were consumed; otherwise sixteen bits are available. |
| `BitRefill.EndSound` | runtime/sources/shadps4/externals/stb/stb_image.h:4324-4334 | The check at the end of a block fails only when bits past the end of the input were consumed. |
| `TokenRefill.BlockInside` | runtime/sources/shadps4/externals/stb/stb_image.h:4309-4357 | Inside the input the bit reader refuses no token and no end of block. |
| `BlockRefill.ReadingInside` | runtime/sources/shadps4/externals/stb/stb_image.h:4481-4508 | Blocks that lie inside the input are all read without refusal. |
| `BlockRefill.ReadingIsBlocks` | runtime/sources/shadps4/externals/stb/stb_image.h:4481-4508 | What is read without refusal are blocks of the stream, continued with zeros. |
| `InflateBlock.ZExpand` | runtime/sources/shadps4/externals/stb/stb_image.h:4273-4293 | Growth ends, keeps the earlier bytes and makes room for n more; it fails exactly when the buffer is fixed or the size limit would be passed. |
| `InflateBlock.GrowthEndsExactly` | runtime/sources/shadps4/externals/stb/stb_image.h:4282-4285 | The growth loop leaves at some turn, with enough room or because the capacity cannot double, if and only if the buffer is not empty or nothing is needed. |
| `InflateBlock.DoublingEmpty` | runtime/sources/shadps4/externals/stb/stb_image.h:4282-4285 | From an empty buffer every turn of the growth loop starts from capacity zero again. |
| `InflateBlock.LengthTable` | runtime/sources/shadps4/externals/stb/stb_image.h:4295-4301 | The literal tables of length bases and extra bits are those of the format, entry by entry. |
| `InflateBlock.DistTable` | runtime/sources/shadps4/externals/stb/stb_image.h:4303-4307 | The literal tables of distance bases and extra bits are those of the format, entry by entry. |
| `InflateBlock.CopyBack` | runtime/sources/shadps4/externals/stb/stb_image.h:4348-4354 | Every new byte is the old byte found dist - i % dist places before the end of the old output, for distances below the length and for the run of one repeated byte as well; the bytes before stay, and the whole is the LZ77 copy. |
| `InflateBlock.ReadLength` | runtime/sources/shadps4/externals/stb/stb_image.h:4336-4338 | The length of a copy: base of its symbol plus the extra bits that follow. |
| `InflateBlock.ParseToken` | runtime/sources/shadps4/externals/stb/stb_image.h:4313-4355 | One turn of the block loop: either the next token is read and applied to the output, or the block ends, or no block that fits can stand at its start. |
| `InflateBlock.ParseHuffmanBlock` | runtime/sources/shadps4/externals/stb/stb_image.h:4309-4357 | On success the tokens read are those encoded at the start position and the output is their LZ77 expansion; on failure no block stands there that the bit reader would not refuse and whose output fits. Every write is in bounds and the loop ends. |
| `Lz77.BlockUnique` | runtime/sources/shadps4/externals/stb/stb_image.h:4309-4357 | A position of the stream starts at most one block of tokens. |
| `Lz77.ExpandPrefix` | runtime/sources/shadps4/externals/stb/stb_image.h:4309-4357 | If a list of tokens can be applied, so can each of its beginnings, with shorter output: the output never shrinks. |
| `Lz77.CopyRunAt` | runtime/sources/shadps4/externals/stb/stb_image.h:4348-4354 | A copy repeats the last dist bytes of the output over and over: byte i of it is byte i % dist of them. |
| `Deflate.FixedCodesUsable` | runtime/sources/shadps4/externals/stb/stb_image.h:4452-4479 | The default code lengths give codes that are complete: their Kraft sums are exactly one. |
| `Deflate.FixedCodeTable` | runtime/sources/shadps4/externals/stb/stb_image.h:4452-4479 | The canonical codes of the default lengths are the ones that section 3.2.6 of RFC 1951 lists, for all 288 symbols. |
| `Deflate.HeaderUnique` | runtime/sources/shadps4/externals/stb/stb_image.h:4359-4407 | The header of a dynamic block determines its operations and its two codes. |
| `Deflate.OneBlockUnique` | runtime/sources/shadps4/externals/stb/stb_image.h:4481-4508 | At most one block, final or not, stands at a position. |
| `Deflate.NoBlockPastEnd` | runtime/sources/shadps4/externals/stb/stb_image.h:4409-4436 | No block stands in the zeros past the end of the input. |
| `DynamicHeader.ReadOp` | runtime/sources/shadps4/externals/stb/stb_image.h:4381-4397 | One code length operation: a single length, a repetition of the previous one, or a run of zeros, with its extra bits. |
| `DynamicHeader.ComputeHuffmanCodes` | runtime/sources/shadps4/externals/stb/stb_image.h:4359-4407 | On success the header announces exactly the codes for which the tables are built, and the reader stands behind it; on failure no header stands there that the bit reader would not refuse. What a header announces is pinned by DynamicEncoder.HeaderStands. |
| `Inflate.ParseUncompressedBlock` | runtime/sources/shadps4/externals/stb/stb_image.h:4409-4436 | The header is taken from the buffered bytes after the alignment and then from the input; on success the stored bytes are appended to the output; on failure no stored block that fits stands there. |
| `Inflate.DrainBuffer` | runtime/sources/shadps4/externals/stb/stb_image.h:4416-4422 | After the alignment at most four whole bytes are buffered, and they are the first header bytes. |
| `Inflate.ComplementIsXor` | runtime/sources/shadps4/externals/stb/stb_image.h:4428-4428 | The test of the complemented length is the exclusive or with 0xffff. |
| `Zlib.ParseZlibHeader` | runtime/sources/shadps4/externals/stb/stb_image.h:4438-4450 | The two header bytes are accepted exactly when they pass the check, no dictionary is preset and the method is DEFLATE. |
| `Zlib.HeaderFields` | runtime/sources/shadps4/externals/stb/stb_image.h:4438-4450 | In the fields of RFC 1950: exactly method 8 without a preset dictionary and with a check that makes the number a multiple of 31 is accepted, for every window size and level. |
| `Zlib.BuildFixed` | runtime/sources/shadps4/externals/stb/stb_image.h:4497-4500 | Building the tables of the default codes never fails. |
| `Zlib.ParseBlock` | runtime/sources/shadps4/externals/stb/stb_image.h:4490-4505 | One block with its flags: read completely and expanded, or no block that fits stands there. |
| `Zlib.BlockProgress` | runtime/sources/shadps4/externals/stb/stb_image.h:4481-4508 | Every block starts inside the input and ends later, so the loop over blocks ends. |
| `Zlib.ParseBlocks` | runtime/sources/shadps4/externals/stb/stb_image.h:4481-4508 | On success the blocks read are those of the stream up to the final one and the output is their expansion; on failure the stream has no blocks that would be read without refusal and whose output fits. |
| `Zlib.DecodingUnique` | runtime/sources/shadps4/externals/stb/stb_image.h:4520-4555 | A stream decodes to at most one output. |
| `Zlib.DecodeMalloc` | runtime/sources/shadps4/externals/stb/stb_image.h:4520-4555 | Returns an output if and only if the stream is accepted as its encoding and it fits in the largest buffer, for every input; Encoder.RoundTrip and DynamicEncoder.DynamicRoundTrip say what comes out for every encoded list of tokens. |
| `Zlib.AcceptedIsDecoding` | runtime/sources/shadps4/externals/stb/stb_image.h:4520-4555 | Whatever is accepted is what the stream, continued with zeros, stands for. |
| `Zlib.CompleteIsAccepted` | runtime/sources/shadps4/externals/stb/stb_image.h:4520-4555 | Every complete encoding is accepted. |
| `TruncatedStreams.ShortStreamAccepted` | runtime/sources/shadps4/externals/stb/stb_image.h:4246-4262 | The headerless stream 4B 04, which lacks the last two bits of its end of block, is accepted as the letter a and is a complete encoding of nothing. |
| `TruncatedStreams.DecodeShortStream` | runtime/sources/shadps4/externals/stb/stb_image.h:4520-4555 | The decoder returns the letter a for it, with every initial buffer size. |
| `Truncation.LastTokenInside` | runtime/sources/shadps4/externals/stb/stb_image.h:4309-4357 | The last token of a block starts inside the input, because past its end every symbol is the same one. |
| `Truncation.FixedTokenTail` | runtime/sources/shadps4/externals/stb/stb_image.h:4309-4357 | A token of the default codes that starts inside the input ends at most 15 bits past it. |
| `Truncation.FixedBlockEnd` | runtime/sources/shadps4/externals/stb/stb_image.h:4309-4357 | A block with the default codes ends at most 22 bits past the end of the input. |
| `Truncation.FixedBlockReaches` | runtime/sources/shadps4/externals/stb/stb_image.h:4309-4357 | The bound of 22 bits is exact: a block whose last real bits begin the code of a copy reaches it. |
| `Truncation.HeaderEndBound` | runtime/sources/shadps4/externals/stb/stb_image.h:4359-4407 | The header of a dynamic block that is not refused ends at most 121 bits past the end of the input. |
| `Truncation.AcceptedEnd` | runtime/sources/shadps4/externals/stb/stb_image.h:4481-4508 | A stream that is accepted ends inside its input if the last block is stored, and otherwise at most 22 or 136 bits past it; streams that lack more are rejected. |
| `Truncation.AcceptedCompletes` | runtime/sources/shadps4/externals/stb/stb_image.h:4520-4555 | Whatever is accepted is what blocks stand for that end at most 136 bits past the input. |
| `TruncatedStreams.CutStreamAccepted` | runtime/sources/shadps4/externals/stb/stb_image.h:4481-4508 | The stream 00 01 00 FE FF 61 1B is accepted as 116 letters although the last 19 bits of its encoding are missing. |
| `Truncation.StoredLastIsComplete` | runtime/sources/shadps4/externals/stb/stb_image.h:4409-4436 | An accepted stream whose last block is stored is a complete encoding. |
| `Encoder.BlockStands` | runtime/sources/shadps4/externals/stb/stb_image.h:4309-4357 | For every usable pair of codes and every list of encodable tokens, the encoded block is read back as these tokens. |
| `Encoder.FixedStreamIsComplete` | runtime/sources/shadps4/externals/stb/stb_image.h:4481-4508 | Every list of tokens with the default codes has a complete encoding of its expansion. |
| `Encoder.EveryStringEncodes` | runtime/sources/shadps4/externals/stb/stb_image.h:4520-4555 | Every string of bytes has a complete encoding, so the acceptance result speaks about every output. |
| `Encoder.RoundTrip` | runtime/sources/shadps4/externals/stb/stb_image.h:4520-4555 | Encoding any list of tokens and decoding the stream gives the LZ77 expansion of the tokens. |
| `Encoder.EveryCopyEncodes` | runtime/sources/shadps4/externals/stb/stb_image.h:4295-4307 | Every copy of a length from 3 to 258 over a distance from 1 to 32768 can be written as a token. |
| `DynamicEncoder.LengthOrderIs` | runtime/sources/shadps4/externals/stb/stb_image.h:4361-4361 | The order of the code length fields, without the table: 16, 17, 18, 0, then from 8 upwards and from 7 downwards in turn. |
| `DynamicEncoder.MetaRead` | runtime/sources/shadps4/externals/stb/stb_image.h:4374-4377 | The code lengths that the encoder writes, each into the field of its symbol, are read back; fields left out are zero. |
| `DynamicEncoder.RunsApply` | runtime/sources/shadps4/externals/stb/stb_image.h:4381-4401 | The operations read back stand for the code lengths that were written: repetitions of 3 to 6, and runs of 3 to 10 and of 11 to 138 zeros. |
| `DynamicEncoder.HeaderStands` | runtime/sources/shadps4/externals/stb/stb_image.h:4359-4407 | An encoded header is read back, in its length, its counts and the two codes that it announces. |
| `DynamicEncoder.EveryCodeIsAnnounced` | runtime/sources/shadps4/externals/stb/stb_image.h:4359-4407 | Any two usable codes, of any sizes that the counts can name, have a header. |
| `DynamicEncoder.DynamicStreamIsComplete` | runtime/sources/shadps4/externals/stb/stb_image.h:4481-4508 | For any two usable codes and any tokens that they encode, the stream, with or without the zlib wrapper, is a complete encoding of the expansion of the tokens. |
| `DynamicEncoder.DynamicRoundTrip` | runtime/sources/shadps4/externals/stb/stb_image.h:4520-4555 | Decoding such a stream gives the expansion of its tokens. |
| `PngFilter.Paeth` | runtime/sources/shadps4/externals/stb/stb_image.h:4657-4668 | The branch-free predictor equals the Paeth predictor of the specification, for all arguments. |
| `PngFilter.PaethNearest` | runtime/sources/shadps4/externals/stb/stb_image.h:4657-4668 | The prediction is the neighbour nearest to left + above - above left; of equally near ones the left, then the upper one. |
| `PngFilter.AverageRounds` | runtime/sources/shadps4/externals/stb/stb_image.h:4766-4773 | The average of left and above is taken in full precision and rounded down, for all bytes. |
| `PngFilter.FirstRowFilterCorrect` | runtime/sources/shadps4/externals/stb/stb_image.h:4648-4655 | The filter substituted in the first row predicts what the original filter predicts below a row of zeros. |
| `PngFilter.Workspace.ReconstructRow` | runtime/sources/shadps4/externals/stb/stb_image.h:4755-4785 | Every byte of the current row becomes its filtered byte plus the prediction from its already reconstructed neighbours, for each of the six filter types; what is predicted is pinned by PngFilter.AverageRounds and PngFilter.PaethNearest. |
| `PngFilter.RefilterRow` | runtime/sources/shadps4/externals/stb/stb_image.h:4755-4785 | Filtering a reconstructed row again gives back the filtered bytes it came from. |
| `PngFilter.FirstRow` | runtime/sources/shadps4/externals/stb/stb_image.h:4751-4752 | A first row reconstructed with the substituted type is the row that the original type gives below zeros, whatever the other workspace row holds. |
| `PngFilter.FilterRowInjective` | runtime/sources/shadps4/externals/stb/stb_image.h:4755-4785 | A filtered row has only one source. |
| `PngFilter.EncodeInjective` | runtime/sources/shadps4/externals/stb/stb_image.h:4737-4787 | Filtered data of a given shape has only one list of filter types and rows. |
| `PngPixels.ShiftedTop` | runtime/sources/shadps4/externals/stb/stb_image.h:4798-4817 | The top bits of the shifted byte are the next sample. |
| `PngPixels.UnpackBits` | runtime/sources/shadps4/externals/stb/stb_image.h:4790-4817 | Samples of one, two or four bits are expanded to the scaled bytes, all reads inside the row. |
| `PngPixels.AlphaExpandGrey` | runtime/sources/shadps4/externals/stb/stb_image.h:4675-4683 | The backward loop adds an opaque alpha byte to every grey sample, also in place. |
| `PngPixels.AlphaExpandRgb` | runtime/sources/shadps4/externals/stb/stb_image.h:4684-4692 | The backward loop adds an opaque alpha byte to every RGB pixel, also in place. |
| `PngPixels.ExpandWords` | runtime/sources/shadps4/externals/stb/stb_image.h:4827-4851 | Sixteen-bit samples change byte order and get an opaque alpha where asked, in each of the three loops. |
| `PngPixels.OutSampleAt` | runtime/sources/shadps4/externals/stb/stb_image.h:4789-4852 | Each component of each output pixel is the sample of the file at that place, scaled, or the opaque value. |
| `PngPixels.ExpandRow` | runtime/sources/shadps4/externals/stb/stb_image.h:4789-4852 | A reconstructed row is expanded to exactly its output bytes; earlier rows of the output stay. |
| `PngBits.SampleIsNumber` | runtime/sources/shadps4/externals/stb/stb_image.h:4790-4817 | Sample i of a row is the number in its bits from depth * i on, high bits first, for all five depths. |
| `PngBits.RowBytesRounds` | runtime/sources/shadps4/externals/stb/stb_image.h:4718-4718 | A row has the smallest number of bytes that holds its bits. |
| `PngBits.FilterBytesRounds` | runtime/sources/shadps4/externals/stb/stb_image.h:4708-4735 | With eight bits or more, or one component, the filters look back by the bytes of one pixel, rounded up. |
| `PngBits.ScaledRange` | runtime/sources/shadps4/externals/stb/stb_image.h:4670-4670 | A grey sample of low depth is scaled in proportion, the largest to 255; other samples are not scaled. |
| `PngBits.WordsRead` | runtime/sources/shadps4/externals/stb/stb_image.h:4827-4851 | The two output bytes of a sixteen-bit sample are the number, least significant byte first. |
| `PngImage.Mul2SizesValid` | runtime/sources/shadps4/externals/stb/stb_image.h:1014-1021 | The test by division is the test that the product fits. |
| `PngImage.Mad2SizesValid` | runtime/sources/shadps4/externals/stb/stb_image.h:1024-1027 | The test by division is the test that product and sum fit. |
| `PngImage.Mad3SizesValid` | runtime/sources/shadps4/externals/stb/stb_image.h:1031-1035 | The test by division is the test that the double product and sum fit. |
| `PngImage.DecodeRow` | runtime/sources/shadps4/externals/stb/stb_image.h:4737-4853 | One row: its reconstruction filters back to the data, and its output bytes follow those of the rows before. |
| `PngImage.ImageUnique` | runtime/sources/shadps4/externals/stb/stb_image.h:4696-4859 | At most one image can be read from the data. |
| `PngImage.CreateImageRaw` | runtime/sources/shadps4/externals/stb/stb_image.h:4696-4859 | Succeeds if and only if the sizes fit and the data starts with a filtered image of these dimensions; the output is then that image. |
| `PngImage.RoundTrip` | runtime/sources/shadps4/externals/stb/stb_image.h:4737-4853 | Rows filtered with any choice of types come back unchanged, whatever data follows. |
| `Adam7.PassSizeCounts` | runtime/sources/shadps4/externals/stb/stb_image.h:4879-4881 | The unsigned computation of a pass size, which may wrap around, counts exactly the lattice positions inside the image. |
| `Adam7.PassPattern` | runtime/sources/shadps4/externals/stb/stb_image.h:4870-4873 | The pass that holds a pixel is the one in the eight by eight pattern of the specification. |
| `Adam7.HeldOnce` | runtime/sources/shadps4/externals/stb/stb_image.h:4874-4895 | Each pixel is written by one pass at one place of it, and by no other. |
| `Adam7.InBounds` | runtime/sources/shadps4/externals/stb/stb_image.h:4888-4895 | A place inside a pass is a pixel inside the image, and the other way round. |
| `Adam7.PassesCover` | runtime/sources/shadps4/externals/stb/stb_image.h:4874-4882 | The sizes of the seven passes add up to width times height. |
| `Interlace.PutPixel` | runtime/sources/shadps4/externals/stb/stb_image.h:4890-4893 | Copying a pixel changes that pixel of the image and no other. |
| `Interlace.Scatter` | runtime/sources/shadps4/externals/stb/stb_image.h:4888-4895 | After the two loops every pixel of the pass holds the pixel of the decoded pass, and all other pixels are unchanged. |
| `Interlace.PassUnique` | runtime/sources/shadps4/externals/stb/stb_image.h:4882-4899 | The data determines the rows of every pass that has pixels. |
| `Packing.PackedSample` | runtime/sources/shadps4/externals/stb/stb_image.h:4790-4817 | A row packed from samples, of any depth, reads back as these samples. |
| `Deinterlace.SamePixelBytes` | runtime/sources/shadps4/externals/stb/stb_image.h:4789-4852 | Pixels with the same samples have the same bytes in the output, wherever they stand in their rows. |
| `Deinterlace.SplitPixel` | runtime/sources/shadps4/externals/stb/stb_image.h:4888-4895 | Every pixel of an image is the pixel of the pass that holds it, when the passes are split off from the image. |
| `Deinterlace.SplitPassesAt` | runtime/sources/shadps4/externals/stb/stb_image.h:4882-4899 | The filtered passes of an image, one after the other, hold its seven passes, and their sizes fit if those of the image do. |
| `Deinterlace.RoundTrip` | runtime/sources/shadps4/externals/stb/stb_image.h:4861-4904 | Any image, split into its seven passes and filtered with any types, decodes to the output of the image without interlacing, whatever data follows. |
| `Interlace.CreateInterlaced` | runtime/sources/shadps4/externals/stb/stb_image.h:4861-4904 | Succeeds if and only if the sizes fit and the data holds all seven passes; then every pixel of the final image is the pixel of the pass that holds it. |
| `LockRange.StepEffect` | runtime/sources/shadps4/src/common/range_lock.h:14-99 | Each step takes at most one mutex, which was free, or gives back one that the thread holds, and what a thread holds is a function of its control state. |
| `LockRange.NextInv` | runtime/sources/shadps4/src/common/range_lock.h:33-99 | Every step of every thread keeps the invariant: a mutex is owned by the thread whose control state says so, and by nobody else. |
| `LockRange.ReachableInv` | runtime/sources/shadps4/src/common/range_lock.h:33-99 | The invariant holds in every reachable state, for any number of threads, ranges and interleavings. |
| `LockRange.LocksAreUsedCorrectly` | runtime/sources/shadps4/src/common/range_lock.h:14-99 | No step locks a mutex that is owned, by its own thread either, or unlocks one that it does not own. |
| `LockRange.BlockedOwnsNothing` | runtime/sources/shadps4/src/common/range_lock.h:54-99 | A thread that is about to block inside LockRange, at any recursion depth, owns no mutex. |
| `LockRange.NoWaitChain` | runtime/sources/shadps4/src/common/range_lock.h:54-99 | Nobody waits for a waiting thread. |
| `LockRange.NoWaitCycle` | runtime/sources/shadps4/src/common/range_lock.h:54-99 | No cycle of waiting threads is reachable. |
| `LockRange.SomeoneCanStep` | runtime/sources/shadps4/src/common/range_lock.h:54-99 | As long as some thread is between its call and the end of its unlocking, such a thread can take a step. |
| `LockRange.SoloReturns` | runtime/sources/shadps4/src/common/range_lock.h:54-99 | From every state inside LockRange, a thread that finds the mutexes of its range free or its own returns by its own steps. |
| `LockRange.ReturnsWithAll` | runtime/sources/shadps4/src/common/range_lock.h:54-99 | When LockRange returns, the thread owns exactly the mutexes of its range. |
| `LockRange.TryLockRangeTakesAll` | runtime/sources/shadps4/src/common/range_lock.h:33-52 | TryLockRange that reaches the end leaves the thread with its whole range. |
| `LockRange.TryLockRangeGivesBack` | runtime/sources/shadps4/src/common/range_lock.h:33-52 | TryLockRange that fails leaves the thread with exactly what it owned before the call; which position it reports is LockRange.FailsAtFirst. |
| `LockRange.FailsAtFirst` | runtime/sources/shadps4/src/common/range_lock.h:40-46 | When TryLockRange turns back at position f, the thread owns the mutexes of the call before f and not the one at f: f is the first it could not take. |
| `LockRange.FailureIsReported` | runtime/sources/shadps4/src/common/range_lock.h:46-96 | That position stays the same while the guards are released, and the next turn of LockRange starts from it. |
| `SpscQueue.CapacityTestExact` | runtime/sources/shadps4/src/common/bounded_threadsafe_queue.h:21-21 | The compile-time test, in unsigned 64-bit arithmetic, accepts exactly the powers of two and zero. |
| `SpscQueue.PowerOfTwoOk` | runtime/sources/shadps4/src/common/bounded_threadsafe_queue.h:21-21 | A power of two that is an index divides the range of the indices. |
| `SpscQueue.SlotOfWrapped` | runtime/sources/shadps4/src/common/bounded_threadsafe_queue.h:91-92 | Because the capacity divides 2^64, the slot of a wrapped index is the slot of the unbounded index. |
| `SpscQueue.IndexTests` | runtime/sources/shadps4/src/common/bounded_threadsafe_queue.h:78-86 | The tests on wrapped indices are tests on the number of queued values. |
| `SpscQueue.WriteSlot` | runtime/sources/shadps4/src/common/bounded_threadsafe_queue.h:91-98 | Writing the next slot overwrites no value that is still to be read. |
| `SpscQueue.ProducerStepInv` | runtime/sources/shadps4/src/common/bounded_threadsafe_queue.h:72-105 | Every step of the producer, in both modes, keeps the invariant. |
| `SpscQueue.ConsumerStepInv` | runtime/sources/shadps4/src/common/bounded_threadsafe_queue.h:107-149 | Every step of the consumer, in all three modes, keeps the invariant. |
| `SpscQueue.StopStepInv` | runtime/sources/shadps4/src/common/bounded_threadsafe_queue.h:122-130 | Requesting a stop and waking the waiters keeps the invariant. |
| `SpscQueue.ReachableInv` | runtime/sources/shadps4/src/common/bounded_threadsafe_queue.h:72-149 | The invariant holds in every reachable state. |
| `SpscQueue.FirstInFirstOut` | runtime/sources/shadps4/src/common/bounded_threadsafe_queue.h:72-149 | The popped values are a prefix of the pushed values, and between 0 and Capacity values are in flight. |
| `SpscQueue.NoOverwrite` | runtime/sources/shadps4/src/common/bounded_threadsafe_queue.h:91-98 | The slot about to be written is not the slot of any value that is still to be read. |
| `SpscQueue.PopsOldest` | runtime/sources/shadps4/src/common/bounded_threadsafe_queue.h:135-142 | The value handed out is the oldest one that was not yet popped. |
| `SpscQueue.TryRefusals` | runtime/sources/shadps4/src/common/bounded_threadsafe_queue.h:76-115 | TryEmplace is refused exactly when the queue is full, TryPop exactly when it is empty. |
| `SpscQueue.EmplaceOnce` | runtime/sources/shadps4/src/common/bounded_threadsafe_queue.h:72-105 | Over the steps of all threads: a call of Emplace keeps its value, appends it exactly once before it returns, and returns without appending only if it is a refused try. |
| `SpscQueue.PopOnce` | runtime/sources/shadps4/src/common/bounded_threadsafe_queue.h:107-149 | Over the steps of all threads: a call of Pop takes the oldest value exactly once before it returns, and returns without taking only if it is a refused try or a stopped wait. |
| `SpscQueue.EmplaceAdvances` | runtime/sources/shadps4/src/common/bounded_threadsafe_queue.h:72-105 | While there is room, every step of the producer brings its call nearer to the end, so that eleven of its own steps finish it. |
| `SpscQueue.PopAdvances` | runtime/sources/shadps4/src/common/bounded_threadsafe_queue.h:107-149 | While values are queued, every step of the consumer brings its call nearer to the end, so that twelve of its own steps finish it. |
| `SpscQueue.ProducerCanStep` | runtime/sources/shadps4/src/common/bounded_threadsafe_queue.h:72-105 | A producer inside a call has a step unless it waits for a mutex. |
| `SpscQueue.ConsumerCanStep` | runtime/sources/shadps4/src/common/bounded_threadsafe_queue.h:107-149 | A consumer inside a call has a step unless it waits for a mutex. |
| `SpscQueue.NoLostWakeup` | runtime/sources/shadps4/src/common/bounded_threadsafe_queue.h:81-146 | A sleeper whose condition holds has a notification under way: the other side is between its increment and its notify, or the stop request has still to notify. |
| `SpscQueue.NeverBothAsleep` | runtime/sources/shadps4/src/common/bounded_threadsafe_queue.h:81-127 | Producer and consumer never sleep at the same time. |
| `SpscQueue.NoMutexDeadlock` | runtime/sources/shadps4/src/common/bounded_threadsafe_queue.h:81-146 | A side that is blocked on a mutex waits for one that is neither blocked nor asleep. |
| `SpscQueue.StoppedPopConsumesNothing` | runtime/sources/shadps4/src/common/bounded_threadsafe_queue.h:122-131 | A waiting pop returns without a value if and only if it has a stop token and a stop is requested; then indices and contents are as they were when it began. |
| `AesTables.SboxInverse` | runtime/sources/shadps4/src/common/aes.h:42-76 | The second table undoes the first on every byte. |
| `AesSbox.SboxIsAffineInverse` | runtime/sources/shadps4/src/common/aes.h:42-58 | Each of the 256 entries is the inverse of its index in the field of FIPS 197, followed by the affine map. |
| `GaloisField.Mul2Linear` | runtime/sources/shadps4/src/common/aes.h:122-129 | Doubling in GF(2^8) is linear. |
| `GaloisField.Mul` | runtime/sources/shadps4/src/common/aes.h:131-143 | The loop over the bits of the constant computes the product, as a sum of doublings. |
| `AesField.MulIsProduct` | runtime/sources/shadps4/src/common/aes.h:122-143 | For every two bytes, their product as polynomials is a multiple of x^8 + x^4 + x^3 + x + 1 plus the byte computed: stated without the doubling. |
| `GaloisField.MulConstants` | runtime/sources/shadps4/src/common/aes.h:131-143 | For the constants 9, 11, 13 and 14 the product is the sum of the doublings that their bits name. |
| `GaloisField.MixInverse` | runtime/sources/shadps4/src/common/aes.h:145-179 | The row of the inverse matrix applied to a mixed column gives back its first byte. |
| `AesCipher.SubBytesInverse` | runtime/sources/shadps4/src/common/aes.h:78-98 | inv_sub_bytes undoes sub_bytes. |
| `AesCipher.ShiftRowsInverse` | runtime/sources/shadps4/src/common/aes.h:100-120 | inv_shift_rows undoes shift_rows. |
| `AesCipher.MixColumnsInverse` | runtime/sources/shadps4/src/common/aes.h:145-179 | inv_mix_columns undoes mix_columns. |
| `AesCipher.RoundsInverse` | runtime/sources/shadps4/src/common/aes.h:275-302 | The inverse rounds undo the rounds, for every number of rounds. |
| `AesCipher.DecryptEncrypt` | runtime/sources/shadps4/src/common/aes.h:270-310 | Decryption undoes encryption on every state, for every list of at least two round keys. |
| `AesCipher.DecryptEncryptBlock` | runtime/sources/shadps4/src/common/aes.h:239-310 | The same on blocks of sixteen bytes. |
| `AesState.SubBytesOf` | runtime/sources/shadps4/src/common/aes.h:88-92 | The loop substitutes every byte of the state. |
| `AesState.ShiftRowsOf` | runtime/sources/shadps4/src/common/aes.h:100-109 | The masked assignments rotate row r left by r columns. |
| `AesState.InvShiftRowsOf` | runtime/sources/shadps4/src/common/aes.h:111-120 | The masked assignments rotate row r right by r columns. |
| `AesState.MixColumnsOf` | runtime/sources/shadps4/src/common/aes.h:145-165 | The loop multiplies every column by the matrix of the transformation. |
| `AesState.InvMixColumnsOf` | runtime/sources/shadps4/src/common/aes.h:167-179 | The loop multiplies every column by the inverse matrix. |
| `AesState.EncryptState` | runtime/sources/shadps4/src/common/aes.h:270-289 | The in-place rounds write the encrypted block into the buffer and change nothing else; AesBytes.EncryptIsCipher says what the block is, byte by byte. |
| `AesState.DecryptState` | runtime/sources/shadps4/src/common/aes.h:291-310 | The in-place inverse rounds write the decrypted block into the buffer and change nothing else. |
| `AesState.RotWordBytes` | runtime/sources/shadps4/src/common/aes.h:181-183 | The rotation moves every byte of a word down by one. |
| `AesState.ExpandKey` | runtime/sources/shadps4/src/common/aes.h:206-237 | Keys of other sizes are refused; otherwise the round keys are those of the key schedule, which AesBytes.ScheduleBytes and AesBytes.RoundKeyBytes give byte by byte. |
| `AesState.ScheduleRecurrence` | runtime/sources/shadps4/src/common/aes.h:213-231 | The schedule begins with the key, and each later word is the exclusive or of the word nk before and the previous word as transformed; AesBytes.ScheduleBytes says what the transformation does. |
| `AesBytes.RoundAt` | runtime/sources/shadps4/src/common/aes.h:276-284 | One round, for each byte: two and three times a substituted byte and its lower neighbour, plus the two below, plus the key byte, the rows being rotated. |
| `AesBytes.EncryptIsCipher` | runtime/sources/shadps4/src/common/aes.h:270-289 | For all round keys and blocks, encryption on words gives the block of the cipher written byte by byte from FIPS 197. |
| `AesBytes.RconPowers` | runtime/sources/shadps4/src/common/aes.h:211-211 | The round constants are the powers of x in the field, from 1 on. |
| `AesBytes.ScheduleBytes` | runtime/sources/shadps4/src/common/aes.h:213-231 | Each byte of the schedule: at multiples of nk the substituted next byte of the word before, plus a power of x in row 0; the substituted byte halfway for long keys; the plain byte otherwise; always added to the byte nk words before. The first nk words are the key. |
| `AesBytes.RoundKeyBytes` | runtime/sources/shadps4/src/common/aes.h:233-234 | The round keys are the bytes of the schedule in order, nk + 7 of them. |
| `AesCbc.CbcInverse` | runtime/sources/shadps4/src/common/aes.h:908-1027 | Decrypting a chain of blocks undoes encrypting it, for every key list and every initial block. |
| `AesBytes.ChainedBlock` | runtime/sources/shadps4/src/common/aes.h:908-960 | Each block of the chain is the cipher applied to the sum of the data block and the block before. |
| `AesCbc.XorData` | runtime/sources/shadps4/src/common/aes.h:253-257 | The buffer is combined with the other block byte by byte. |
| `AesCbc.EncryptCbc` | runtime/sources/shadps4/src/common/aes.h:908-960 | The error codes in their order; on success the buffer starts with the chained encryption of the padded data, the rest is unchanged, and the logged accesses are exactly those of AesAccess.Encrypts. |
| `AesBounds.EncryptBounds` | runtime/sources/shadps4/src/common/aes.h:908-960 | Once the checks pass, every access stays in its buffer if and only if not: padding is off, the data is empty and the buffer has fewer than sixteen bytes. |
| `AesBounds.EncryptOverrun` | runtime/sources/shadps4/src/common/aes.h:697-721 | Without padding the checks accept empty data for a buffer of any size, and below sixteen bytes the first block overruns it. |
| `AesBounds.EncryptErrors` | runtime/sources/shadps4/src/common/aes.h:697-721 | The errors of encrypt_cbc in their order; the room asked for is that of the padded message, and none for empty data without padding. |
| `AesBounds.DecryptBounds` | runtime/sources/shadps4/src/common/aes.h:976-1027 | Once the checks pass, every access stays in its buffer if and only if the data is not empty and not: one block, padding removed, fewer than sixteen bytes of room. |
| `AesBounds.DecryptOverrun` | runtime/sources/shadps4/src/common/aes.h:723-748 | For one block with padding to be removed the checks accept a buffer of any size, and below sixteen bytes the first block overruns it. |
| `AesBounds.DecryptErrors` | runtime/sources/shadps4/src/common/aes.h:723-748 | The errors of decrypt_cbc in their order; the room asked for is that of the data, one block less if padding is removed, and more than any buffer has if there is none to remove. |
| `AesBounds.DecryptEmpty` | runtime/sources/shadps4/src/common/aes.h:976-999 | Empty data with padding kept passes the checks; then the first block is read from it and the number of blocks wraps around. |
| `AesCbc.CheckPadding` | runtime/sources/shadps4/src/common/aes.h:750-762 | Padding is accepted exactly when the last bytes all name their number, at most sixteen. |
| `AesCbc.DecryptCbc` | runtime/sources/shadps4/src/common/aes.h:976-1027 | The error codes in their order, the reported padding, and on success the decrypted data without its padding; what happens to the rest of the buffer, which is cleared for a single block; the logged accesses are exactly those of AesAccess.Decrypts. |
| `AesCbc.PaddingRecognised` | runtime/sources/shadps4/src/common/aes.h:921-932 | The padding of a message is always found right, and names its own length. |
| `AesBounds.PaddingErrors` | runtime/sources/shadps4/src/common/aes.h:1011-1022 | Padding that was put on is never refused when it is taken off; what can fail is the room for the data itself. |
| `AesCbc.RoundTrip` | runtime/sources/shadps4/src/common/aes.h:908-1027 | Data of every length comes back from encryption and decryption with kErrorOk and the right padding count, given buffers as long as the ciphertext. |
| `BitArray.BitArray.constructor` | runtime/sources/shadps4/src/common/bit_array.h:68-68 | A new array stands for the empty set. |
| `BitArray.BitArray.Set` | runtime/sources/shadps4/src/common/bit_array.h:114-116 | Adds one element to the set and changes nothing else. |
| `BitArray.BitArray.Unset` | runtime/sources/shadps4/src/common/bit_array.h:118-120 | Removes one element from the set and changes nothing else. |
| `BitArray.BitArray.Get` | runtime/sources/shadps4/src/common/bit_array.h:122-124 | Tells whether the index is an element. |
| `BitArray.SetMasks` | runtime/sources/shadps4/src/common/bit_array.h:130-139 | The masks select exactly the bits of the first and of the last word that lie in the range. |
| `BitArray.BitArray.SetRange` | runtime/sources/shadps4/src/common/bit_array.h:126-152 | Adds exactly the interval to the set; an empty range or one that passes N is ignored. |
| `BitArray.BitArray.UnsetRange` | runtime/sources/shadps4/src/common/bit_array.h:154-180 | Removes exactly the interval from the set; an empty range or one that passes N is ignored. |
| `WordBits.LowestRun` | runtime/sources/shadps4/src/common/bit_array.h:234-242 | The counts of trailing zeros and of the ones after them give the lowest run of a word. |
| `BitArray.BitArray.FindEndBit` | runtime/sources/shadps4/src/common/bit_array.h:214-232 | The first zero from a word on, or N. |
| `BitArray.BitArray.RunFromWord` | runtime/sources/shadps4/src/common/bit_array.h:234-242 | The run that starts with the first one of a word, going on in later words if it reaches the top. |
| `BitArray.BitArray.FirstRangeFrom` | runtime/sources/shadps4/src/common/bit_array.h:210-267 | The first maximal stretch of ones at or after start, or (N, N) if there is none. |
| `BitArray.Iterator.Increment` | runtime/sources/shadps4/src/common/bit_array.h:35-38 | Moves to the first run after the end of the current one. |
| `BitArray.Iterate` | runtime/sources/shadps4/src/common/bit_array.h:107-112 | Iterating from begin to end ends and yields exactly the maximal runs of the set: ascending, disjoint, not adjacent. |
| `BitArray.RunsUnique` | runtime/sources/shadps4/src/common/bit_array.h:29-60 | Only one list of ranges is the list of the maximal runs. |
| `LruCache.LeastRecentlyUsedCache.Insert` | runtime/sources/shadps4/src/common/lru_cache.h:26-33 | Returns the id that was freed first, or a new one if none is free; appends it to the list and stores object and tick; all other objects stay. |
| `LruCache.LeastRecentlyUsedCache.Touch` | runtime/sources/shadps4/src/common/lru_cache.h:35-46 | A later tick is stored and moves the item to the end of the list; otherwise nothing changes. |
| `LruCache.LeastRecentlyUsedCache.Free` | runtime/sources/shadps4/src/common/lru_cache.h:48-54 | Removes the item from the list and puts its id at the end of the free list. |
| `LruCache.LeastRecentlyUsedCache.ForEachItemBelow` | runtime/sources/shadps4/src/common/lru_cache.h:56-75 | Visits exactly the leading items of the list whose tick is at most the bound as a signed number, oldest first, also when the callback frees the item it visits; the ids and the ticks that remain. |
| `LruCache.LeadingAreAllBelow` | runtime/sources/shadps4/src/common/lru_cache.h:60-63 | In a sorted list the leading items are all the items with a tick at most the bound, and none if the bound was subtracted from below zero. |
| `LruCache.StaysSorted` | runtime/sources/shadps4/src/common/lru_cache.h:26-54 | Whatever the operations, ticks that never decrease keep the list sorted. |
| `LruCache.VisitIsFreeing` | runtime/sources/shadps4/src/common/lru_cache.h:56-75 | What a visit does to the ticks is what freeing operations do one after the other, after any operations before it. |
| `LruCache.VisitStaysSorted` | runtime/sources/shadps4/src/common/lru_cache.h:56-75 | The list is still sorted after a visit that frees items. |
| `LruCache.LeastRecentlyUsedCache.Build` | runtime/sources/shadps4/src/common/lru_cache.h:78-92 | Returns a new id or the id that was freed first, with cleared pointers; live and free ids still partition the pool. |
| `LruCache.LeastRecentlyUsedCache.Attach` | runtime/sources/shadps4/src/common/lru_cache.h:94-106 | The pointers form the list with the item appended, in both directions. |
| `LruCache.LeastRecentlyUsedCache.Detach` | runtime/sources/shadps4/src/common/lru_cache.h:108-127 | The pointers form the list without the item, in both directions. |
| `LruCache.BypassedIsLinked` | runtime/sources/shadps4/src/common/lru_cache.h:108-127 | Pointers that go round one item form the list of the others. |
| `SlotVector.SlotVector.constructor` | runtime/sources/shadps4/src/common/slot_vector.h:91-93 | A new vector has no live ids. |
| `SlotVector.NewIdsExact` | runtime/sources/shadps4/src/common/slot_vector.h:248-252 | The ids that growth hands out are the new indices if and only if all of them fit in 32 bits. |
| `SlotVector.GrowthRepeatsIds` | runtime/sources/shadps4/src/common/slot_vector.h:248-252 | From 2^32 slots on, growth would hand out id 0 again. |
| `SlotVector.SlotVector.Reserve` | runtime/sources/shadps4/src/common/slot_vector.h:230-257 | The live ids and their values survive, and the new indices join the free list, the lowest last. |
| `SlotVector.SlotVector.MoveWord` | runtime/sources/shadps4/src/common/slot_vector.h:233-244 | The inner loop moves the value of every set bit of a word, and no value is missed when it stops early. |
| `SlotVector.SlotVector.FreeValueIndex` | runtime/sources/shadps4/src/common/slot_vector.h:220-228 | Takes the id that was freed last, or, growing the array when there is none, the first of the new ones; it is not in use. |
| `SlotVector.SlotVector.Insert` | runtime/sources/shadps4/src/common/slot_vector.h:122-129 | Returns the id freed last, or the old capacity if none is free, and stores the value there; values under all other live ids stay. |
| `SlotVector.SlotVector.Erase` | runtime/sources/shadps4/src/common/slot_vector.h:131-135 | The id is no longer live and joins the free list. |
| `SlotVector.SlotVector.Count` | runtime/sources/shadps4/src/common/slot_vector.h:137-139 | The capacity minus the length of the free list is the number of live ids. |
| `SlotVector.SlotVector.ReadStorageBit` | runtime/sources/shadps4/src/common/slot_vector.h:210-212 | Tells whether an id is live. |
| `SlotVector.SlotVector.AdvanceToValid` | runtime/sources/shadps4/src/common/slot_vector.h:76-80 | Stops at the first live id from the slot on, or at the end. |
| `SlotVector.SlotVector.Iterate` | runtime/sources/shadps4/src/common/slot_vector.h:141-159 | Iteration visits exactly the live ids in ascending order while the capacity fits in an id, and nothing at 2^32 slots. |
| `Uint128.MultiplyHigh` | runtime/sources/shadps4/src/common/uint128.h:68-93 | The fallback on 32-bit limbs returns the high word of the product; no intermediate result overflows. |
| `Uint128.ScaledError` | runtime/sources/shadps4/src/common/uint128.h:54-74 | Scaling with the fixed-point factor gives the exact quotient or one less, and the exact one if and only if a condition on two remainders holds. |
| `Uint128.ScaledMonotone` | runtime/sources/shadps4/src/common/uint128.h:54-74 | Later ticks never scale to smaller values. |
| `Uint128.ScaledInexact` | runtime/sources/shadps4/src/common/uint128.h:54-74 | The error does occur: three ticks at one third are scaled to zero. |
| `Uint128.ScaleTicks` | runtime/sources/shadps4/src/common/uint128.h:54-93 | The factor and the limb-wise high product together give the exact quotient or one less. |
| `Uint128.SplitQuotient` | runtime/sources/shadps4/src/common/uint128.h:33-37 | The quotient of a product, from the quotients and remainders of its factors. |
| `Uint128.MultiplyAndDivideExact` | runtime/sources/shadps4/src/common/uint128.h:26-39 | The fallback is right, up to wrap-around, if and only if the product of the two remainders fits in 64 bits. |
| `Uint128.MultiplyAndDivideInexact` | runtime/sources/shadps4/src/common/uint128.h:26-39 | It is wrong for 2^32 times 2^32 divided by 2^33: 0 instead of 2^31. |
| `Uint128.Divide128On32` | runtime/sources/shadps4/src/common/uint128.h:97-114 | The remainder is exact and the quotient is exact modulo 2^64. |

## Left out

- Truncation.AcceptedEnd: the bound of 136 bits for a last block with codes of its own is not shown to be reached.
- Zlib.DecodeMalloc: takes an initial size from 1 to 2^32 - 1; with 0 the growth loop of the source would not end.
- InflateBlock.ZExpand: takes a non-empty buffer, because the growth loop of the source does not end on an empty one (InflateBlock.GrowthEndsExactly).
- AesCbc.EncryptCbc: states nothing where the checks pass and a write leaves the buffer; AesBounds.EncryptBounds says where that is.
- AesCbc.DecryptCbc: states nothing where the checks pass and an access leaves its buffer; AesBounds.DecryptBounds says where that is.
- SlotVector.SlotVector.Reserve: takes capacities up to 2^32, beyond which the new ids repeat old ones (SlotVector.NewIdsExact, SlotVector.GrowthRepeatsIds).
- SlotVector.SlotVector.FreeValueIndex: does not model growth beyond 2^32 slots, for the same reason.
- SlotVector.SlotVector.Insert: does not model growth beyond 2^32 slots, for the same reason.
- LruCache.LeastRecentlyUsedCache.ForEachItemBelow: takes ticks whose signed difference with the bound does not overflow, which would be undefined in the source, and a callback that frees only the item it is called with.
- LockRange.SoloReturns: states return for a thread that runs unobstructed; under contention, try-locks that keep failing can make LockRange retry for ever, in the source as well.
- BitArray.BitArray.FirstRangeFrom: models the scalar path only; the AVX2 blocks are not modelled.
- SpscQueue.NoLostWakeup: the stop wait is the one of std::condition_variable_any; the replacement in polyfill_thread.h is not modelled.
- Uint128.ScaleTicks: models the 128-bit computation of the factor; the less accurate fallback of GetFixedPoint64Factor and the compiler intrinsics are not modelled.
- Interlace.CreateInterlaced: buffers of output bytes are arrays of their own; freeing the buffer of each pass is not modelled.
- Allocation failure other than the size checks, and realloc failure in the growing output buffer.
- The chunk layer of PNG, palettes, transparency and the iPhone variant; all other image formats of stb_image (not compiled).
- The SIMD kernels of every component.
- Weak memory orders of the queue and the internals of mutexes and condition variables: steps are sequentially consistent.
- MPSCQueue and MPMCQueue, which wrap the queue in mutexes.
- ECB, CTR and GCM, and any statement about the strength of the cipher.
- The early exit of ForEachItemBelow: its type test never selects it. The callback is modelled as doing nothing or freeing the item it is called with.
- Construction and destruction of the stored objects in SlotVector, and references into it.
- LastRangeFrom and the bitwise operators of BitArray.
- The ring buffer, slot array and slab heap containers, and the helpers for alignment, bit fields and byte order in src/common.
