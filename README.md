# LLVM bitstream writer (DXIL encoder) in Dafny

This project models the LLVM bitstream writer that RenderDoc uses to emit DXIL
(`renderdoc/driver/shaders/dxil/llvm_encoder.cpp`), and proves properties of the model. It covers four parts:

- **The block-width table.** `GetBlockAbbrevSize` gives the width of abbreviation ids in each block kind.
- **The abbreviation tables.** These are the static tables for the VALUE_SYMTAB, CONSTANTS and FUNCTION
  blocks. Each definition has eight zero-filled slots and ends at its first `Unknown` slot. `GetAbbrevs`
  and `GetNumAbbrevs` look them up.
- **The block framer.** `BitcodeWriter::BeginBlock` writes ENTER_SUBBLOCK, padding and a zero length word,
  and pushes a frame. `EndBlock` writes END_BLOCK and padding, patches the length word and pops the frame.
- **The record emitters.** `ModuleBlockInfo(numTypes)` writes the BLOCKINFO block: SETBID plus the
  DEFINE_ABBREV records, with the type-width substitution. The `Unabbrev` overloads write UNABBREV_RECORD.

The bit primitives the writer calls are modelled too: `fixed`, `vbr`, `svbr`, `c6`, `align32bits`,
`Write<T>`, `WriteBlob`, `PatchLengthWord` and `GetByteOffset`. Their behaviour is the one the unit tests
at the end of the source file fix. The layout follows the LLVM Bitcode File Format: the sections
"Abbreviation IDs", "ENTER_SUBBLOCK Encoding", "END_BLOCK Encoding", "DEFINE_ABBREV Encoding",
"UNABBREV_RECORD Encoding" and "BLOCKINFO Block", and the primitives section.

The stream is a `seq<bool>` of bits, least significant bit first.

| file | module | what it holds |
|---|---|---|
| `bitstream.dfy` | `Bitstream` | The encodings of the primitives as functions. A decoder for each, and round-trip lemmas: what a primitive wrote at a position reads back there. |
| `bitwriter.dfy` | `BitWriters` | `class BitWriter` over the bit sequence. Each write method is proved to append exactly the encoding function's bits. `PatchLengthWord` overwrites 32 bits in place. |
| `blocks.dfy` | `Blocks` | The block kinds and `GetBlockAbbrevSize`. |
| `abbrevs.dfy` | `Abbrevs` | The three tables, `GetAbbrevs`, `GetNumAbbrevs`, the terminator scan, and the substitution of the reserved width 99. |
| `fields.dfy` | `Fields` | A record as a run of fixed and VBR fields, with a reader told the kinds of the fields. |
| `records.dfy` | `Records` | The field runs of ENTER_SUBBLOCK, END_BLOCK, UNABBREV_RECORD, DEFINE_ABBREV and the BLOCKINFO contents, and the proof that every fixed field of the BLOCKINFO contents fits its width. |
| `framer.dfy` | `Framer` | What each writer operation does to the state (bits, `abbrevSize`, `curBlock`, `blockStack`), as functions. The invariant `Valid`, and the framing properties. |
| `bitcodewriter.dfy` | `Writer` | `class BitcodeWriter`. Each method is proved to take the state to its `Framer` function's result. `ModuleBlockInfo` has the source's nested loops, with their invariants. |
| `readers.dfy` | `Readers` | Readers for an UNABBREV_RECORD and a whole block. They prove that what the writer's operations emit reads back, with a length word that matches. |

The block ids, the record codes and the magic number are declared in headers that are not part of this
model. They are unspecified constants, so every property holds whatever their values are.

The width that replaces 99 is `32 - clz(numTypes)` (line 308), the bit length of `numTypes`, not
`ceil(log2(numTypes))`: for `2^k` types it is `k + 1` bits, not `k` (`Abbrevs.BitLengthOfPowerOfTwo`).

## Model

| member | source | states |
|---|---|---|
| Blocks.GetBlockAbbrevSize | renderdoc/driver/shaders/dxil/llvm_encoder.cpp:30-52 | The width is 0 exactly for the `Count` sentinel, and 2..4 for every real block. It is 2 exactly for BLOCKINFO, and 4 exactly for CONSTANTS, FUNCTION, VALUE_SYMTAB and TYPE; every other kind gets 3. |
| Abbrevs.EncodingCode | renderdoc/driver/shaders/dxil/llvm_encoder.cpp:319 | The tag of a non-literal encoding fits in the 3 bits it is written in, and is 0 exactly for `Unknown`, the terminator. |
| Abbrevs.EncodingCodesDistinct | renderdoc/driver/shaders/dxil/llvm_encoder.cpp:319 | Two non-literal encodings get the same 3-bit tag exactly when they are the same encoding, so the tag decides the encoding. |
| Abbrevs.Definition | renderdoc/driver/shaders/dxil/llvm_encoder.cpp:79-82 | A definition has 8 slots. The listed parameters come first and every remaining slot is the zero-filled `Unknown` slot. |
| Abbrevs.Definitions | renderdoc/driver/shaders/dxil/llvm_encoder.cpp:91-182 | A table has one definition per initialiser, in order, each zero-filled as `Definition` says. |
| Abbrevs.GetAbbrevs | renderdoc/driver/shaders/dxil/llvm_encoder.cpp:184-197 | There is a table exactly for VALUE_SYMTAB, CONSTANTS and FUNCTION; every other block kind gets none (null). |
| Abbrevs.GetNumAbbrevs | renderdoc/driver/shaders/dxil/llvm_encoder.cpp:199-212 | The count is the length of the table `GetAbbrevs` returns: 8 for FUNCTION, 4 for VALUE_SYMTAB and CONSTANTS. It is 0 where there is no table. |
| Abbrevs.ParamCount | renderdoc/driver/shaders/dxil/llvm_encoder.cpp:296-298 | The number of parameters is the position of the first `Unknown` slot: every slot before it is a real parameter. |
| Abbrevs.DefinitionParams | renderdoc/driver/shaders/dxil/llvm_encoder.cpp:294-298 | In a zero-filled definition of fewer than 8 parameters, the scan for `Unknown` stops exactly after the listed parameters and recovers them. |
| Abbrevs.DefinitionsWellFormed | renderdoc/driver/shaders/dxil/llvm_encoder.cpp:81-82 | In a table built from lists of 1 to 5 parameters, every definition has 8 slots and the scan stops inside it after 1 to 5 parameters. |
| Abbrevs.AbbrevTablesWellFormed | renderdoc/driver/shaders/dxil/llvm_encoder.cpp:91-212 | All three tables are well formed, so the scan at line 297 never runs past a definition. Each table's length is its `GetNumAbbrevs` count. |
| Abbrevs.Substitute | renderdoc/driver/shaders/dxil/llvm_encoder.cpp:304-309 | The encoding is kept. A value of 99 becomes the bit length of `numTypes`, whatever the encoding. Any other parameter is unchanged. |
| Abbrevs.BitLengthBounds | renderdoc/driver/shaders/dxil/llvm_encoder.cpp:308 | For `n >= 1`, `32 - clz(n)` (the bit length `L`) satisfies `2^(L-1) <= n < 2^L`. |
| Abbrevs.TypeIndexFits | renderdoc/driver/shaders/dxil/llvm_encoder.cpp:306-309 | For `1 <= numTypes < 2^32`, every type index below `numTypes` fits the substituted width, and that width is between 1 and 32. |
| Abbrevs.BitLengthOfPowerOfTwo | renderdoc/driver/shaders/dxil/llvm_encoder.cpp:308 | For `2^k` types the substituted width is `k + 1`, one more than `ceil(log2)`. |
| Records.SubstituteAll | renderdoc/driver/shaders/dxil/llvm_encoder.cpp:302-309 | Every parameter of a definition goes through the substitution, in order, and none is dropped. |
| Records.EndBlockIsFixed | renderdoc/driver/shaders/dxil/llvm_encoder.cpp:253 | END_BLOCK written as `vbr(abbrevSize, 0)` is the same bits as `fixed(abbrevSize, 0)`: `abbrevSize` zero bits. |
| Records.AbbrevTable | renderdoc/driver/shaders/dxil/llvm_encoder.cpp:287-290 | The definitions the loop visits for a block kind are `GetNumAbbrevs` of them. |
| Framer.InitialValid | renderdoc/driver/shaders/dxil/llvm_encoder.cpp:214-220 | The constructor's state satisfies the writer invariant, and the stream starts with the magic number as a 32-bit word. |
| Framer.ValidWidth | renderdoc/driver/shaders/dxil/llvm_encoder.cpp:264-273 | In every state the writer reaches, the current width is between 2 and 4. |
| Framer.AppendValid | renderdoc/driver/shaders/dxil/llvm_encoder.cpp:330-362 | Writing any records in a valid state keeps the invariant. |
| Framer.BeginBlockValid | renderdoc/driver/shaders/dxil/llvm_encoder.cpp:226-249 | A block kind of width 0 leaves the whole state unchanged. Any other kind keeps the invariant, keeps the old frames and pushes exactly one frame for the block, and makes the block and its width current. The new frame's length word is a zero word at a 4-byte-aligned offset past everything written before, and it ends the stream. |
| Framer.BeginBlockOpens | renderdoc/driver/shaders/dxil/llvm_encoder.cpp:236-248 | Opening a real block keeps the old frames, pushes one for the block, and places its length word after everything written before. |
| Framer.EndBlockValid | renderdoc/driver/shaders/dxil/llvm_encoder.cpp:251-274 | `EndBlock` keeps the invariant and pops exactly the innermost frame. Width and block become the parent's, or 2 and `Count` at top level. The stream grows and ends 32-bit aligned. |
| Framer.EndBlockLengthWord | renderdoc/driver/shaders/dxil/llvm_encoder.cpp:256-261 | The length word reads back as the exact number of 32-bit words from after the length word to the end of the block, taken mod 2^32 as `uint32_t` does. |
| Framer.WordCount | renderdoc/driver/shaders/dxil/llvm_encoder.cpp:258-261 | Between 32-bit aligned ends, `(byteOffset - offs - 4) / 4` is exactly the number of 32-bit words after the length word, with no rounding. |
| Framer.PatchedLengthWord | renderdoc/driver/shaders/dxil/llvm_encoder.cpp:259-261 | The word patched in at `offs` reads back as the word count of the rest of the stream. |
| Framer.EndBlockPatchesOnlyLengthWord | renderdoc/driver/shaders/dxil/llvm_encoder.cpp:253-261 | `EndBlock` leaves every bit outside the 32 bits of the length word as END_BLOCK and its padding left it. END_BLOCK sits at the old end of the stream as `abbrevSize` zero bits. |
| Framer.BlockRestoresState | renderdoc/driver/shaders/dxil/llvm_encoder.cpp:226-274 | Opening a block, writing any records and closing it restores the enclosing width, block and open frames. Everything written before stays in place, and the invariant holds. |
| Writer.BitcodeWriter.constructor | renderdoc/driver/shaders/dxil/llvm_encoder.cpp:214-220 | The writer starts with the magic number written, at top level (`Count`), at width 2, with no open block. |
| Writer.BitcodeWriter.BeginBlock | renderdoc/driver/shaders/dxil/llvm_encoder.cpp:226-249 | The new state is `BeginBlockSpec` of the old one, and the invariant is kept. |
| Writer.BitcodeWriter.EndBlock | renderdoc/driver/shaders/dxil/llvm_encoder.cpp:251-274 | The new state is `EndBlockSpec` of the old one, and the invariant is kept. |
| Writer.BitcodeWriter.Unabbrev | renderdoc/driver/shaders/dxil/llvm_encoder.cpp:330-344 | The new state is the old one plus UNABBREV_RECORD with a count of 1 and the one operand. The stack, width and block are unchanged. |
| Writer.BitcodeWriter.UnabbrevArray | renderdoc/driver/shaders/dxil/llvm_encoder.cpp:346-362 | The new state is the old one plus UNABBREV_RECORD with a count of `vals.size()` and every operand in order. The stack, width and block are unchanged. |
| Writer.BitcodeWriter.WriteUnabbrevHeader | renderdoc/driver/shaders/dxil/llvm_encoder.cpp:332-334 | It appends exactly id 3 at the current width, vbr6 of the code and vbr6 of the count. |
| Writer.BitcodeWriter.ModuleBlockInfo | renderdoc/driver/shaders/dxil/llvm_encoder.cpp:276-328 | The new state is one BLOCKINFO block around the definitions of the three tables (`ModuleBlockInfoSpec`), and the invariant is kept. |
| Writer.BitcodeWriter.WriteBlockInfoBody | renderdoc/driver/shaders/dxil/llvm_encoder.cpp:281-325 | It appends the part for each of VALUE_SYMTAB, CONSTANTS and FUNCTION, in that order. |
| Writer.BitcodeWriter.WriteBlockAbbrevs | renderdoc/driver/shaders/dxil/llvm_encoder.cpp:286-324 | It appends SETBID naming the block, then the block's definitions. |
| Writer.BitcodeWriter.WriteDefines | renderdoc/driver/shaders/dxil/llvm_encoder.cpp:287-324 | It appends one DEFINE_ABBREV for each of the `GetNumAbbrevs` table entries, in order. |
| Writer.BitcodeWriter.WriteDefineAbbrev | renderdoc/driver/shaders/dxil/llvm_encoder.cpp:292-323 | It appends id 2 at the current width, vbr5 of the count of parameters before the first `Unknown`, then each substituted parameter. |
| Writer.BitcodeWriter.WriteAbbrevParam | renderdoc/driver/shaders/dxil/llvm_encoder.cpp:304-322 | A literal is a 1 bit and vbr8 of the value. Anything else is a 0 bit and the 3-bit tag, then vbr5 of the width for Fixed and VBR only. All of this applies after the substitution of 99. |
| BitWriters.BitWriter.constructor | renderdoc/driver/shaders/dxil/llvm_encoder.cpp:377 | A new bit writer has written nothing. |
| BitWriters.BitWriter.GetByteOffset | renderdoc/driver/shaders/dxil/llvm_encoder.cpp:241 | The result is the number of whole bytes written. |
| BitWriters.BitWriter.Fixed | renderdoc/driver/shaders/dxil/llvm_encoder.cpp:400-421 | It appends exactly the low `w` bits of `v`, least significant first. |
| BitWriters.BitWriter.Vbr | renderdoc/driver/shaders/dxil/llvm_encoder.cpp:423-470 | It appends exactly the VBR encoding of `v` in `w`-bit chunks. |
| BitWriters.BitWriter.C6 | renderdoc/driver/shaders/dxil/llvm_encoder.cpp:511-530 | It appends the 6-bit code of an alphabet character. |
| BitWriters.BitWriter.Align32 | renderdoc/driver/shaders/dxil/llvm_encoder.cpp:239 | It pads with zero bits to the next multiple of 32, and pads nothing when already aligned. |
| BitWriters.BitWriter.WriteByte | renderdoc/driver/shaders/dxil/llvm_encoder.cpp:379-383 | `Write<byte>` appends the byte's 8 bits. |
| BitWriters.BitWriter.Write32 | renderdoc/driver/shaders/dxil/llvm_encoder.cpp:244 | `Write<uint32_t>` appends the word's 32 bits. |
| BitWriters.BitWriter.WriteBlob | renderdoc/driver/shaders/dxil/llvm_encoder.cpp:532-560 | It appends the byte count as vbr6, padding to 32 bits, each byte, and padding to 32 bits. |
| BitWriters.BitWriter.PatchLengthWord | renderdoc/driver/shaders/dxil/llvm_encoder.cpp:261 | It overwrites exactly the 32 bits at byte `offs` with the word, and nothing else. |
| Bitstream.AlignUp32 | renderdoc/driver/shaders/dxil/llvm_encoder.cpp:239 | The aligned position is the first multiple of 32 at or after the position. |
| Bitstream.IsAtAligned | renderdoc/driver/shaders/dxil/llvm_encoder.cpp:239 | Padding keeps every field already written where it is. |
| Bitstream.PatchAt | renderdoc/driver/shaders/dxil/llvm_encoder.cpp:261 | After a patch the new word sits at the position, and every other bit is unchanged. |
| Bitstream.FixedRoundTrip | renderdoc/driver/shaders/dxil/llvm_encoder.cpp:400-421 | `fixed(w, v)` reads back as `v & (2^w - 1)`, for every width, and the reader stops after `w` bits. |
| Bitstream.VbrRoundTrip | renderdoc/driver/shaders/dxil/llvm_encoder.cpp:423-470 | `vbr(w, v)` reads back as `v`, for every width of at least 2 and every value (32- and 64-bit alike), and the reader stops at its end. |
| Bitstream.VbrSmallIsFixed | renderdoc/driver/shaders/dxil/llvm_encoder.cpp:253 | A value below `2^(w-1)` is one chunk, laid out like `fixed(w, v)`. |
| Bitstream.VbrChunksExact | renderdoc/driver/shaders/dxil/llvm_encoder.cpp:423-470 | `vbr(w, v)` takes exactly `k` chunks when `v` needs more payload bits than `k - 1` chunks carry and no more than `k` carry. |
| Bitstream.SvbrEncode | renderdoc/driver/shaders/dxil/llvm_encoder.cpp:476-486 | `svbr(x)` holds the magnitude of `x` shifted left by one, with the lowest bit set exactly for negative `x`. |
| Bitstream.SvbrFits64 | renderdoc/driver/shaders/dxil/llvm_encoder.cpp:476-486 | A value of magnitude below 2^63 encodes into 64 bits. |
| Bitstream.SvbrFieldsRoundTrip | renderdoc/driver/shaders/dxil/llvm_encoder.cpp:472-509 | Signed values written as `vbr(w, svbr(x))` read back, decoded, as the same values in order. |
| Bitstream.SvbrSampleSize | renderdoc/driver/shaders/dxil/llvm_encoder.cpp:476-490 | ±0x12, ±0x1234, ±0x12345678 and ±INT_MAX as `vbr(4, svbr(x))` fill exactly 28 bytes, already 32-bit aligned. |
| Bitstream.Char6Code | renderdoc/driver/shaders/dxil/llvm_encoder.cpp:511-530 | The code of an alphabet character is below 64 and names that character. |
| Bitstream.Char6AlphabetCodes | renderdoc/driver/shaders/dxil/llvm_encoder.cpp:515 | The alphabet `a-z A-Z 0-9 . _` has 64 characters, and each one's code is its position. |
| Bitstream.Char6StringRoundTrip | renderdoc/driver/shaders/dxil/llvm_encoder.cpp:511-530 | A string of alphabet characters written with `c6` reads back as itself, 6 bits per character. |
| Bitstream.Char6AlphabetRoundTrip | renderdoc/driver/shaders/dxil/llvm_encoder.cpp:511-530 | The whole alphabet written with `c6` reads back as itself in 384 bits. |
| Bitstream.BytesRoundTrip | renderdoc/driver/shaders/dxil/llvm_encoder.cpp:375-398 | Bytes written with `Write<byte>` read back as the same bytes. |
| Bitstream.BlobBitsIsBlob | renderdoc/driver/shaders/dxil/llvm_encoder.cpp:532-546 | `WriteBlob` puts the length at the old end of the stream and the bytes at the next 32-bit boundary, and leaves the stream 32-bit aligned. |
| Bitstream.BlobRoundTrip | renderdoc/driver/shaders/dxil/llvm_encoder.cpp:532-560 | A blob reads back as the same bytes, of any number, and the reader stops at the aligned end of the stream. |
| Fields.FieldsRoundTrip | renderdoc/driver/shaders/dxil/llvm_encoder.cpp:330-362 | A run of fixed and VBR fields whose fixed values fit their widths reads back as the values written. The reader stops right after the run. |
| Readers.UnabbrevRoundTrip | renderdoc/driver/shaders/dxil/llvm_encoder.cpp:330-362 | An UNABBREV_RECORD written at width 2 or more reads back as its code and all its operands, ending where it ends. |
| Readers.UnabbrevReadsBack | renderdoc/driver/shaders/dxil/llvm_encoder.cpp:330-362 | What any `Unabbrev` overload writes in a valid state reads back, at the current width and the old end of the stream, as the same record. |
| Readers.BlockRoundTrip | renderdoc/driver/shaders/dxil/llvm_encoder.cpp:226-274 | A whole block reads back from the old end of the stream, at the old width. It is opened in a valid state, holds any records, and is closed. The reader recovers the block id, the block's width and the contents. END_BLOCK is found after the contents. The length word counts exactly the 32-bit words up to the block's end. |
| Readers.BlockAtReads | renderdoc/driver/shaders/dxil/llvm_encoder.cpp:236-261 | A block laid out as header, length word, contents and END_BLOCK with padding reads back. |
| Records.BlockInfoEncodable | renderdoc/driver/shaders/dxil/llvm_encoder.cpp:276-328 | Every fixed field of the BLOCKINFO contents holds its value within its width: the ids 2 and 3 at width 2, the 1-bit literal flags and the 3-bit tags. |
| Readers.ModuleBlockInfoReadsBack | renderdoc/driver/shaders/dxil/llvm_encoder.cpp:276-328 | The BLOCKINFO block `ModuleBlockInfo` writes in a valid state reads back from the old end of the stream: its block id, width 2, every SETBID and DEFINE_ABBREV field value in order, and a length word that matches. |

## Left out

- The block ids, record codes (`SETBID`, the symbol table, constants and function record codes) and the bitcode magic are unspecified constants: their headers are not part of this model.
- `RDCERR` logging at line 232 has no effect on the output and is not modelled; `BeginBlock` for a block kind of width 0 leaves the state unchanged.
- The destructor and the Catch unit-test framework are not modelled.
- `llvm_encoder.h` (the `BitWriter` primitives) is not part of this model. The primitives are modelled from the encodings the unit tests fix. `BitReader` (`llvm_decoder.h`) is not part of this model either; the readers in `Readers` and `Bitstream` are reference readers written from the LLVM Bitcode File Format.
- Writer.BitcodeWriter.constructor: the source appends to a caller's `bytebuf`, which could already hold bytes; the model starts from an empty buffer.
- BitWriters.BitWriter.WriteByte and BitWriters.BitWriter.Write32: `Write<T>` is modelled only for a byte and a 32-bit word, the two instances the core uses, as `fixed(8 * sizeof(T), x)`; growth and allocation of `bytebuf` are left out.
- Writer.BitcodeWriter.Unabbrev: the two scalar overloads (`uint32_t` and `uint64_t` operand) are one method on 64-bit operands, since a 32-bit value writes the same bits; likewise Writer.BitcodeWriter.UnabbrevArray for the two array overloads.
- Abbrevs.BitLength: `32 - Bits::CountLeadingZeroes(numTypes)` is modelled as the bit length of a 32-bit value. The model accepts `numTypes = 0` and gives width 0 (taking `clz(0)` as 32), where the source leaves it undefined.
- Abbrevs.Substitute: as in the source, the substitution applies to any parameter whose value is 99, whatever its encoding, a literal included.
- Bitstream.SvbrEncode: the encoding is defined on unbounded integers. `INT64_MIN` is not modelled: the source's `int64_t` negation cannot produce `2^63`, and `Bitstream.SvbrFits64` covers only magnitudes below `2^63`.
- BitWriters.BitWriter.C6 requires a character of the 6-bit alphabet; what `c6` does with any other character is not modelled.
- Writer.BitcodeWriter.WriteDefineAbbrev requires a terminating `Unknown` slot in the definition, which every table has (`Abbrevs.AbbrevTablesWellFormed`); the source would read past the definition otherwise.
- Writer.BitcodeWriter.EndBlock requires an open block, since `blockStack.back()` on an empty stack is undefined in the source.
- Abbreviated records (records written with the defined abbreviations) are never emitted by this writer, so they are not modelled. The BLOCKINFO contents are read back as a run of fields of known kinds (`Readers.ModuleBlockInfoReadsBack`), not by a parser that decodes DEFINE_ABBREV from its own count and tags.
- Concurrency and aliasing of the shared `bytebuf` between writers are not modelled; the bit writer is owned by one `BitcodeWriter`.
