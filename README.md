# Hash-based block matching and coefficient context arithmetic

This project models two parts of a VVC video encoder.

**The hash-based block matcher** (`source/Lib/CommonLib/Hash.cpp`):
- **Fingerprints.** It fingerprints every square or 1:2 / 2:1 block of a picture with two 24-bit CRCs. A 2x2 block is hashed from its serialised samples. A larger block is hashed from the hashes of its quarters, or of its two squares.
- **Bulk pass.** It runs over the whole picture with frame-sized arrays, one level after another. Each level also records whether every row and every column of the block is constant.
- **Index.** It feeds a bucket table keyed by size class and truncated primary hash.
- **Single block.** It can also hash a single block on demand (`getBlockHashValue`), and the encoder looks that block up with `hasExactMatch`.

**Context-index arithmetic of residual coding** (`CoeffCodingContext` in `source/Lib/CommonLib/ContextModelling.h`). From the already coded neighbours of a coefficient, it chooses the context offsets, the Rice parameters and the transform-skip level remapping. It also keeps a budget of context-coded bins and a set of significant coefficient groups.

The model is imperative where the code is:
- The CRC engine is a class with a 256-entry table array and a remainder field.
- The pyramid levels write frame-sized arrays in the code's nested loops, with the running `pos` counter.
- The single-block hasher swaps two grid buffers at every level.
- The bucket table is a class whose `lookupTable` map its methods update.
- `CoeffCodingContext` is a class whose template summary, bin budget and group set are fields.

Each method is proved against a specification written as functions:
- `CrcOf` is the checksum.
- `BlockHashOf` is the hash of any block.
- `RowConst` / `ColConst` are the uniformity flags, stated on the picture.
- `Addable` is the insertion flag.
- `Applied` / `Scan` describe the bulk insertions.
- `Template`, `CappedSum` and `NonZero` describe the neighbourhood sums.

The main results:
- **CRC.** The table-driven CRC equals bit-serial polynomial division (`Crc.CrcIsSerial`).
- **Bulk pass.** Every level of the bulk pass stores exactly `BlockHashOf`, `RowConst`, `ColConst` and `Addable` at every position where the block fits.
  - The code's overlapping combination of six child flags decides exactly "every row constant" (`HashSpec.SquareRowIff`).
- **Single-block hasher.** `getBlockHashValue` returns the same key and secondary hash that bulk insertion files for that block (`Agreement.OnDemandMatchesBulk`).
- **Bulk insertion.**
  - It is complete: every eligible block is in its bucket (`Agreement.BulkFindsBlock`), so the encoder's lookup always finds it (`Agreement.BulkThenLookup`).
  - It is sound: everything in a bucket is an eligible block with that key (`Agreement.BulkSound`).
- **Constant frame.** In a constant W x H frame, bulk insertion files exactly floor(W/w) * floor(H/h) entries per size (`FlatFrame.FlatFrameCount`).
- **Level remapping.** The transform-skip remapping round-trips (`CoeffContext.DeriveModCoeffRoundTrip`).
- **Context ranges.** The context offsets lie in the ranges the coding engine expects.

Files:
- `bits.dfy`: 32-bit words as bit sequences, LSB first.
- `crc.dfy`: the CRC engine.
- `picture.dfy`: samples and 2x2 serialisation.
- `hashspec.dfy`: the hash and flag specification.
- `pyramid.dfy`: the bulk pass.
- `ondemand.dfy`: the single-block hasher.
- `hashtable.dfy`: the size-class table, keys and the bucket table.
- `agreement.dfy`: bulk against on-demand, completeness and soundness.
- `flatframe.dfy`: the constant-frame count.
- `coeffcontext.dfy`: `CoeffCodingContext`.

## Model

| member | source | states |
|---|---|---|
| Crc.CrcCalculator.constructor | source/Lib/CommonLib/Hash.cpp:52-60 | a new engine has the given width and polynomial, a zero remainder and a fresh, filled table |
| Crc.CrcCalculator.XInitTable | source/Lib/CommonLib/Hash.cpp:67-95 | entry v of the table is byte v fed MSB first, bit by bit, into a zero register |
| Crc.CrcCalculator.DivideByte | source/Lib/CommonLib/Hash.cpp:69-93 | the mask loop (0x80 down to 1, XOR in the high bit, shift, subtract the polynomial) computes the table entry of the byte |
| Crc.CrcCalculator.ProcessData | source/Lib/CommonLib/Hash.cpp:97-105 | after the loop the remainder is the table-driven fold of the old remainder with all the bytes |
| Crc.CrcCalculator.Reset | source/Lib/CommonLib/Hash.cpp:721 | the remainder is zero afterwards |
| Crc.CrcCalculator.GetCrc | source/Lib/CommonLib/Hash.cpp:723 | the result is the remainder with every bit at or above `bits` cleared |
| Crc.GetCrcValue | source/Lib/CommonLib/Hash.cpp:719-731 | reset, process and read give `CrcOf(engine, bytes)`: the result depends only on the bytes |
| Crc.ProcessIsSerial | source/Lib/CommonLib/Hash.cpp:97-105 | from any start register, the table-driven fold and bit-serial division agree on the low `bits` bits |
| Crc.CrcIsSerial | source/Lib/CommonLib/Hash.cpp:67-105 | the checksum is the bit-serial CRC of the bytes modulo 2^bits |
| Crc.ByteStep | source/Lib/CommonLib/Hash.cpp:101-103 | one table step (index from the top byte XOR the data byte, shift by 8, XOR the entry) equals eight bit-serial steps on the low bits |
| Crc.ProcessConcat | source/Lib/CommonLib/Hash.cpp:97-105 | processing a concatenation is processing its two parts in turn |
| Crc.TableZero | source/Lib/CommonLib/Hash.cpp:72-94 | the table entry of byte 0 is 0 |
| Crc.CrcBound | source/Lib/CommonLib/Hash.cpp:57 | the checksum is below 2^bits |
| Crc.EnginesAre24Bit | source/Lib/CommonLib/Hash.cpp:49-50 | both engines (24 bits, 0x5D6DCB and 0x864CFB) are supported widths and yield checksums below 2^24 |
| Crc.DivideLinear | source/Lib/CommonLib/Hash.cpp:82-90 | one division step is linear over XOR |
| Crc.MaskNext | source/Lib/CommonLib/Hash.cpp:75 | `mask >>= 1` visits bits 7 down to 0 and then reaches zero, ending the loop |
| Picture.GetPixelsIn1DCharArrayByBlock2x2 | source/Lib/CommonLib/Hash.cpp:429-503 | the array holds the 2x2 block serialised in raster order, Y or Y Cb Cr per pixel (chroma only for 4:4:4), in both the 8-bit branch and the shifting branch |
| Picture.PixelBytesAt | source/Lib/CommonLib/Hash.cpp:437-502 | the 8-bit branch and the `>> (depth - 8)` branch give the same pixel bytes |
| Picture.SampleByteTopBits | source/Lib/CommonLib/Hash.cpp:488-492 | for a sample below 2^depth, the byte is the sample's eight most significant bits |
| Picture.RowSameIff | source/Lib/CommonLib/Hash.cpp:505-531 | `isBlock2x2RowSameValue` on the serialised block holds exactly when both rows of the block are constant, in all components read |
| Picture.ColSameIff | source/Lib/CommonLib/Hash.cpp:533-559 | `isBlock2x2ColSameValue` on the serialised block holds exactly when both columns are constant |
| Picture.Block2x2At | source/Lib/CommonLib/Hash.cpp:449-467 | pixel (j, i) of the block occupies bytes k*(2i+j) .. k*(2i+j)+k-1 of the serialisation, k the component count |
| HashSpec.Bytes4Join | source/Lib/CommonLib/Hash.cpp:354 | the four little-endian bytes of a word put together give the word |
| HashSpec.SerialiseInjective | source/Lib/CommonLib/Hash.cpp:350-354 | two hash arrays with the same byte image are equal |
| HashSpec.SquareJoin | source/Lib/CommonLib/Hash.cpp:350-360 | a square's hash is the CRC of its four quarter hashes, TL TR BL BR |
| HashSpec.WideJoin | source/Lib/CommonLib/Hash.cpp:277-283 | a 2:1 rectangle's hash is the CRC of its left and right square hashes |
| HashSpec.TallJoin | source/Lib/CommonLib/Hash.cpp:298-304 | a 1:2 rectangle's hash is the CRC of its top and bottom square hashes |
| HashSpec.BlockHashBound | source/Lib/CommonLib/Hash.cpp:244-245 | every block hash is below 2^bits |
| HashSpec.SquareHashByContent | source/Lib/CommonLib/Hash.cpp:219-392 | two squares with the same serialised samples hash alike, wherever they lie |
| HashSpec.SquareRowIff | source/Lib/CommonLib/Hash.cpp:362-363 | the AND of the six overlapping row flags (four quarters, two middle squares) holds exactly when every row of the square is constant |
| HashSpec.SquareColIff | source/Lib/CommonLib/Hash.cpp:365-366 | the AND of the six overlapping column flags holds exactly when every column of the square is constant |
| HashSpec.WideRowIff | source/Lib/CommonLib/Hash.cpp:285 | a 2:1 rectangle has constant rows exactly when its two squares and the square half a side in do |
| HashSpec.WideColIff | source/Lib/CommonLib/Hash.cpp:286 | a 2:1 rectangle has constant columns exactly when its two squares do |
| HashSpec.TallRowIff | source/Lib/CommonLib/Hash.cpp:306 | a 1:2 rectangle has constant rows exactly when its two squares do |
| HashSpec.TallColIff | source/Lib/CommonLib/Hash.cpp:307 | a 1:2 rectangle has constant columns exactly when its two squares and the square half a side down do |
| HashSpec.RowJoin | source/Lib/CommonLib/Hash.cpp:362-363 | two horizontally overlapping blocks with constant rows make one block with constant rows |
| HashSpec.ColJoin | source/Lib/CommonLib/Hash.cpp:365-366 | two vertically overlapping blocks with constant columns make one block with constant columns |
| Pyramid.GenerateBlock2x2HashValue | source/Lib/CommonLib/Hash.cpp:219-253 | at every position where a 2x2 block fits, the four arrays hold its two hashes, its row flag and its column flag |
| Pyramid.Block2x2Cell | source/Lib/CommonLib/Hash.cpp:240-245 | one position: the flags are RowConst and ColConst and the hashes are BlockHashOf of the 2x2 block under each engine |
| Pyramid.GenerateBlockHashValue | source/Lib/CommonLib/Hash.cpp:332-392 | given a level of side s/2, every fitting position of the s x s level holds both hashes, both flags and the insertion flag of its square |
| Pyramid.GenerateRectangleHashValue | source/Lib/CommonLib/Hash.cpp:254-330 | a 2:1 or 1:2 rectangle level is built from its square level; the code's CHECK fails (ok is false) exactly for any other proportion, and then no level array and neither engine changes |
| Pyramid.AddPass | source/Lib/CommonLib/Hash.cpp:315-327 | every fitting position holds `(!row && !col) \|\| (x mod w == 0 && y mod h == 0)` |
| Pyramid.MaskIsMod | source/Lib/CommonLib/Hash.cpp:323 | for a power of two m, `x & (m - 1)` is `x mod m` |
| Pyramid.PosRowEnd | source/Lib/CommonLib/Hash.cpp:247-249 | `pos++` after the last fitting column, then `pos += width - 1`, reaches column 0 of the next row |
| Pyramid.SquareHashCell | source/Lib/CommonLib/Hash.cpp:350-354 | the four source cells at pos, pos + s/2, pos + (s/2)W and pos + (s/2)W + s/2 hold the square's quarter hashes |
| Pyramid.SquareRowCell | source/Lib/CommonLib/Hash.cpp:362-363 | the six row flags the loop reads AND to the square's row flag |
| Pyramid.SquareColCell | source/Lib/CommonLib/Hash.cpp:365-366 | the six column flags the loop reads AND to the square's column flag |
| Pyramid.WideRowCell | source/Lib/CommonLib/Hash.cpp:285 | the three row flags a 2:1 pass reads AND to the rectangle's row flag |
| Pyramid.TallColCell | source/Lib/CommonLib/Hash.cpp:307 | the three column flags a 1:2 pass reads AND to the rectangle's column flag |
| Pyramid.TailUnfit | source/Lib/CommonLib/Hash.cpp:223-224 | positions past the last fitting column of a row hold no fitting block, so the loops skip nothing |
| OnDemand.GetBlockHashValue | source/Lib/CommonLib/Hash.cpp:561-698 | an unsupported size fails the CHECK (ok is false) and leaves both engines unchanged. A supported one gives hashValue1 == Key(crcBits, size index, BlockHashOf under engine 1) and hashValue2 == BlockHashOf under engine 2 |
| OnDemand.BlockHashes | source/Lib/CommonLib/Hash.cpp:577-683 | the two final cells are the block's two hashes |
| OnDemand.Sample2x2 | source/Lib/CommonLib/Hash.cpp:591-604 | the first grids hold the hash of every 2x2 square of the block, in raster order |
| OnDemand.LevelPass | source/Lib/CommonLib/Hash.cpp:616-648 | one level turns the grids of side s into the grids of side 2s |
| OnDemand.LevelLoop | source/Lib/CommonLib/Hash.cpp:606-648 | when `subWidth` passes the shorter side, the current grids hold squares of that side, swapped between buffers at each level |
| OnDemand.FinalStep | source/Lib/CommonLib/Hash.cpp:650-683 | for a square the only cell, and for a 2:1 or 1:2 block the CRC of its two cells, is the block hash under each engine |
| OnDemand.LevelCell | source/Lib/CommonLib/Hash.cpp:626-633 | the four source cells at 2y*srcW + 2x, +1, +srcW and +srcW+1 hash to the cell of the larger square |
| OnDemand.FinalGrid | source/Lib/CommonLib/Hash.cpp:615-648 | the loop stops with one cell for a square and two along the longer side of a rectangle |
| OnDemand.KeyIs | source/Lib/CommonLib/Hash.cpp:563-568 | the key is `(h & ((1 << crcBits) - 1)) + (index << crcBits)` |
| HashTable.InitBlockSizeToIndex | source/Lib/CommonLib/Hash.cpp:700-717 | the 65 x 65 table holds -1 except at the seven supported shapes, which get 0 to 6 |
| HashTable.SizeIndexOf | source/Lib/CommonLib/Hash.cpp:710-716 | a size index is -1 or one of 0 to 6 |
| HashTable.SizeIndexShape | source/Lib/CommonLib/Hash.cpp:710-716 | every supported shape is a square or a 2:1 / 1:2 rectangle of power-of-two sides from 4 to 64 |
| HashTable.SizeIndexInjective | source/Lib/CommonLib/Hash.cpp:710-716 | distinct supported shapes have distinct indices |
| HashTable.SizeIndexOnto | source/Lib/CommonLib/Hash.cpp:710-716 | every index 0 to 6 belongs to some shape |
| HashTable.Key | source/Lib/CommonLib/Hash.cpp:420 | a key divided by 2^crcBits is the size index, and its remainder is the hash modulo 2^crcBits |
| HashTable.KeyInjective | source/Lib/CommonLib/Hash.cpp:402-420 | two keys are equal exactly when their size indices and truncated hashes are |
| HashTable.KeyBound | source/Lib/CommonLib/Hash.cpp:131 | a key of an index below 2^blockSizeBits is below `maxAddr` |
| HashTable.BlockHashTable.constructor | source/Lib/CommonLib/Hash.cpp:108-112 | no table is allocated and there is no content |
| HashTable.BlockHashTable.Create | source/Lib/CommonLib/Hash.cpp:124-135 | the table is allocated and every bucket is null, whether or not it existed before |
| HashTable.BlockHashTable.ClearAll | source/Lib/CommonLib/Hash.cpp:137-153 | every bucket is null afterwards, and the content flag is cleared |
| HashTable.BlockHashTable.AddToTable | source/Lib/CommonLib/Hash.cpp:155-166 | the entry is appended to its bucket, and nothing else changes |
| HashTable.BlockHashTable.Count | source/Lib/CommonLib/Hash.cpp:168-190 | the size of the bucket, which is 0 exactly for a null bucket |
| HashTable.BlockHashTable.HasExactMatch | source/Lib/CommonLib/Hash.cpp:202-217 | true exactly when some entry of the bucket carries the secondary hash |
| HashTable.BlockHashTable.AddToHashMapByRowWithPrecalData | source/Lib/CommonLib/Hash.cpp:394-427 | an unsupported size fails the CHECK and changes nothing. Otherwise the table is the old one with the scan's insertions applied, column by column, each column top to bottom |
| HashTable.BlockHashTable.AddAt | source/Lib/CommonLib/Hash.cpp:412-424 | the block at (x, y) is filed exactly when its flag is set, under its key and carrying its secondary hash |
| HashTable.AddThenCount | source/Lib/CommonLib/Hash.cpp:155-178 | add then count: the count grows by one, the bucket gains the entry at its end, and other buckets are unchanged |
| HashTable.AppendedIsFound | source/Lib/CommonLib/Hash.cpp:155-217 | an appended entry meets `hasExactMatch`'s test in its bucket |
| HashTable.BucketOfApplied | source/Lib/CommonLib/Hash.cpp:408-426 | after a run of insertions, each bucket is its old contents followed by the entries filed under its key, in order |
| HashTable.AppliedAppend | source/Lib/CommonLib/Hash.cpp:408-426 | applying a concatenation of insertions is applying the parts in turn |
| HashTable.AppliedKeys | source/Lib/CommonLib/Hash.cpp:155-166 | when the table's keys and the insertions' keys are below a bound, so are the keys afterwards, and no non-null bucket is empty |
| Agreement.BulkEntry | source/Lib/CommonLib/Hash.cpp:412-424 | over the bulk arrays, a fitting block files one entry exactly when it is eligible, keyed by its primary hash and carrying its secondary hash |
| Agreement.OnDemandMatchesBulk | source/Lib/CommonLib/Hash.cpp:561-698 | `getBlockHashValue` returns the key of the bulk pass's primary hash at the block's position and the bulk secondary hash there, and so exactly the entry bulk insertion files for that block when it is eligible (none when it is not) |
| Agreement.BulkFindsBlock | source/Lib/CommonLib/Hash.cpp:394-427 | after bulk insertion, every eligible block is in the bucket of its key |
| Agreement.BulkSound | source/Lib/CommonLib/Hash.cpp:394-427 | from an empty table, every entry under key k is an eligible, fitting block whose key is k and whose secondary hash is stored |
| Agreement.BulkThenLookup | source/Lib/CommonLib/Hash.cpp:202-217 | building the table, hashing an eligible block on demand and asking `hasExactMatch` always finds it |
| Agreement.ScanHas | source/Lib/CommonLib/Hash.cpp:408-426 | the entry of every scanned position is among the scan's insertions |
| Agreement.ScanFrom | source/Lib/CommonLib/Hash.cpp:408-426 | every insertion of the scan is the entry of its own position inside the scanned range |
| FlatFrame.FlatFrameCount | source/Lib/CommonLib/Hash.cpp:315-327 | in a constant W x H frame, bulk insertion of a supported w x h size files exactly floor(W/w) * floor(H/h) entries |
| FlatFrame.FlatAddable | source/Lib/CommonLib/Hash.cpp:323 | in a constant frame, a block is eligible exactly when it lies on the block-size grid |
| FlatFrame.FlatScan | source/Lib/CommonLib/Hash.cpp:408-426 | the first c columns of a constant frame's scan file one entry per grid point among them |
| FlatFrame.MultiplesCount | source/Lib/CommonLib/Hash.cpp:323 | below n there are ceil(n/h) multiples of h |
| CoeffContext.CoeffCodingContext.constructor | source/Lib/CommonLib/ContextModelling.h:54 | a context records no template, grants no context-coded bins and has no significant group |
| CoeffContext.CoeffCodingContext.SigCtxIdAbs | source/Lib/CommonLib/ContextModelling.h:102-140 | the offset is min(sumAbs, 5) plus the diagonal classes (at most 17 for luma, 11 for chroma); `m_tmplCpDiag` is the diagonal and `m_tmplCpSum1` is sumAbs - numPos, within 0 to 4 * numPos; the context set is max(0, state - 1) |
| CoeffContext.CoeffCodingContext.TemplateStats | source/Lib/CommonLib/ContextModelling.h:110-130 | the guarded `UPDATE` steps give the capped sum and the non-zero count over the template |
| CoeffContext.CoeffCodingContext.Update | source/Lib/CommonLib/ContextModelling.h:110 | one `UPDATE` adds min(4 + (a & 1), a) to sumAbs and one to numPos when the neighbour is non-zero |
| CoeffContext.CoeffCodingContext.CtxOffsetAbs | source/Lib/CommonLib/ContextModelling.h:142-151 | 0 when no template was recorded; otherwise 1 to 20 for luma and 1 to 10 for chroma |
| CoeffContext.CoeffCodingContext.TemplateAbsSum | source/Lib/CommonLib/ContextModelling.h:156-183 | the template's sum of magnitudes less 5 * baseLevel, clipped, is within 0 to 31 |
| CoeffContext.TemplateAbsSumLocal | source/Lib/CommonLib/ContextModelling.h:156-183 | `templateAbsSum` depends only on the coefficients of the template |
| CoeffContext.TemplateAbsSumMonotone | source/Lib/CommonLib/ContextModelling.h:156-183 | larger template magnitudes, or a smaller baseLevel, never lower the result |
| CoeffContext.TemplateAbsSumZero | source/Lib/CommonLib/ContextModelling.h:182 | the result is 0 exactly when the template's magnitudes sum to at most 5 * baseLevel |
| CoeffContext.TemplateIff | source/Lib/CommonLib/ContextModelling.h:111-130 | the template is exactly the in-block cells at the five displacements (right, two right, below-right, below, two below) |
| CoeffContext.TemplateInBlock | source/Lib/CommonLib/ContextModelling.h:162-181 | every neighbour the guards let through is inside the block, at most five |
| CoeffContext.TsNeighboursInBlock | source/Lib/CommonLib/ContextModelling.h:192-199 | the transform-skip neighbours are inside the block, at most two |
| CoeffContext.Capped | source/Lib/CommonLib/ContextModelling.h:110 | one neighbour's term is at most its magnitude and at most 5, keeps its parity, and is positive when the neighbour is non-zero |
| CoeffContext.CappedSumBounds | source/Lib/CommonLib/ContextModelling.h:110-132 | numPos <= sumAbs <= 5 * numPos, and numPos is at most the number of neighbours |
| CoeffContext.SumsLocal | source/Lib/CommonLib/ContextModelling.h:110-130 | the neighbourhood sums depend only on the coefficients at the neighbourhood's cells |
| CoeffContext.NonZeroIff | source/Lib/CommonLib/ContextModelling.h:110 | the non-zero count is 0 exactly when every neighbour is zero, and full exactly when none is |
| CoeffContext.CoeffCodingContext.NeighTS | source/Lib/CommonLib/ContextModelling.h:279-295 | the left and above coefficients, 0 where the neighbour does not exist |
| CoeffContext.CoeffCodingContext.SigCtxIdAbsTS | source/Lib/CommonLib/ContextModelling.h:185-203 | the result is at most 2 |
| CoeffContext.SigCtxIdAbsTSCounts | source/Lib/CommonLib/ContextModelling.h:185-203 | `sigCtxIdAbsTS` is the number of non-zero left / above neighbours |
| CoeffContext.CoeffCodingContext.Lrg1CtxIdAbsTS | source/Lib/CommonLib/ContextModelling.h:209-236 | at most 3, and 3 exactly under bdpcm; without bdpcm it is the neighbour count given by its partner `Lrg1IsCount` |
| CoeffContext.Lrg1IsCount | source/Lib/CommonLib/ContextModelling.h:209-236 | 3 under bdpcm, and otherwise the number of non-zero left and above neighbours, as `sigCtxIdAbsTS` counts them |
| CoeffContext.CoeffCodingContext.SignCtxIdAbsTS | source/Lib/CommonLib/ContextModelling.h:240-275 | the sign context is at most 5 |
| CoeffContext.SignCtxOfNeighTS | source/Lib/CommonLib/ContextModelling.h:240-295 | `signCtxIdAbsTS` is the sign context of the pair `neighTS` returns |
| CoeffContext.SignCtxCases | source/Lib/CommonLib/ContextModelling.h:258-273 | 0 exactly when both are zero or the signs differ, 1 exactly when both are >= 0 and not both zero, 2 exactly when both are <= 0 and not both zero; 3 to 5 exactly under bdpcm |
| CoeffContext.SignCtxSymmetric | source/Lib/CommonLib/ContextModelling.h:258-273 | the sign context does not depend on which neighbour is which |
| CoeffContext.SignCtxNegated | source/Lib/CommonLib/ContextModelling.h:258-268 | negating both neighbours swaps contexts 1 and 2 and keeps 0 |
| CoeffContext.OppositeSigns | source/Lib/CommonLib/ContextModelling.h:258 | `rightSign * belowSign < 0` is the opposite-sign test |
| CoeffContext.CoeffCodingContext.TemplateAbsSumTS | source/Lib/CommonLib/ContextModelling.h:339-363 | the Rice parameter is at most 2 |
| CoeffContext.TemplateAbsSumTSOfNeighTS | source/Lib/CommonLib/ContextModelling.h:339-363 | `templateAbsSumTS` is the Rice parameter of the summed magnitudes of the `neighTS` pair |
| CoeffContext.RiceParTS | source/Lib/CommonLib/ContextModelling.h:353-362 | 0 for a sum up to 11, 1 for 12 to 24, 2 from 25 |
| CoeffContext.RiceParTSMonotone | source/Lib/CommonLib/ContextModelling.h:339-363 | a larger sum never gives a smaller Rice parameter |
| CoeffContext.DeriveModCoeff | source/Lib/CommonLib/ContextModelling.h:297-318 | identity under bdpcm; otherwise a non-zero level stays non-zero |
| CoeffContext.DecDeriveModCoeff | source/Lib/CommonLib/ContextModelling.h:320-336 | a non-zero level stays non-zero |
| CoeffContext.DeriveModCoeffRoundTrip | source/Lib/CommonLib/ContextModelling.h:297-336 | decoding a remapped non-zero level gives the level back |
| CoeffContext.DecDeriveModCoeffRoundTrip | source/Lib/CommonLib/ContextModelling.h:297-336 | remapping a decoded non-zero level gives it back, so the remapping is a bijection on the positive levels |
| CoeffContext.DeriveModCoeffZero | source/Lib/CommonLib/ContextModelling.h:303-317 | level 0 and the predicted level remap to the same value, which is why only non-zero levels are remapped |
| CoeffContext.CoeffCodingContext.IsSigGroup | source/Lib/CommonLib/ContextModelling.h:85 | true exactly when the current group's bit is set |
| CoeffContext.CoeffCodingContext.SetSigGroup | source/Lib/CommonLib/ContextModelling.h:59 | sets the current group's bit and no other |
| CoeffContext.CoeffCodingContext.ResetSigGroup | source/Lib/CommonLib/ContextModelling.h:58 | clears the current group's bit and no other |
| CoeffContext.SigGroupToggle | source/Lib/CommonLib/ContextModelling.h:58-59 | set then reset: the flag was set in between, ends cleared, and every other bit is as before |
| CoeffContext.CoeffCodingContext.LastSubSet | source/Lib/CommonLib/ContextModelling.h:61 | the coefficient group that holds position maxNumCoeff - 1 |
| CoeffContext.CoeffCodingContext.IsLast | source/Lib/CommonLib/ContextModelling.h:82 | true exactly when the last position lies in the current group |
| CoeffContext.AsrGroup | source/Lib/CommonLib/ContextModelling.h:61 | `v >> k == g` exactly when v lies in group g of 2^k positions |
| CoeffContext.CoeffCodingContext.SetScanPosLast | source/Lib/CommonLib/ContextModelling.h:64 | records the last position |
| CoeffContext.CoeffCodingContext.HideSign | source/Lib/CommonLib/ContextModelling.h:87-88 | true only with sign hiding enabled, and then exactly when posLast - posFirst >= 4 |
| CoeffContext.CoeffCodingContext.IsContextCoded | source/Lib/CommonLib/ContextModelling.h:97 | the budget, as `numCtxBins()` reads it, drops by exactly one, and the answer is true exactly when a bin was left |
| CoeffContext.CoeffCodingContext.SetNumCtxBins | source/Lib/CommonLib/ContextModelling.h:99 | `numCtxBins()` reads back n afterwards, and nothing else changes |
| CoeffContext.ContextCodedRun | source/Lib/CommonLib/ContextModelling.h:97-99 | after `setNumCtxBins(n)`, k calls answer true exactly for the first n of them, and `numCtxBins()` then reports n - k |

## Left out

- Picture buffers: `PelUnitBuf`, plane buffers, strides and `getComponentScaleX/Y` are not modelled. A picture is a sample function over (component, x, y). Chroma is read only for 4:4:4, where its planes have the luma size.
- Bit depths below 8 and empty pictures are excluded by `Picture.Valid`. The code's shift by `depth - 8` needs a depth of at least 8.
- Byte order: the `unsigned int` arrays that are hashed are serialised explicitly as little-endian words, the same way on both paths. The code depends on the host's byte order.
- Static shared state: the two static CRC engines and the static size-index table become values passed in. `Crc.EnginesAre24Bit` states the engines' constants.
- `reset`, `getCRC`, `m_CRCBits` and `m_blockSizeBits` come from `Hash.h`, which is not part of this model. The first two are modelled from their use at `source/Lib/CommonLib/Hash.cpp:719-731`, and the constants are parameters.
- Memory management: `new`/`delete` of the buffers and buckets is not modelled. The destructor is not modelled, and a null bucket is a key missing from the map.
- `getFirstIterator` (`source/Lib/CommonLib/Hash.cpp:192-200`) is not modelled. It dereferences a null bucket when the bucket is empty, and buckets are exposed as sequences instead.
- `tableHasContent` is only reset by the code shown and never read. The model keeps it as a field without drawing conclusions from it.
- The `toHash` and `p` scratch buffers of the hashers are modelled as sequences built in place of the array writes. The ping-pong of `hashValueBuffer[.][srcIdx/dstIdx]` is modelled by swapping the two buffer references at every level.
- CHECK macros: a failing `CHECK` is modelled as a result `ok == false`, not as an abort. Each method that returns `ok` ensures that then nothing it may modify has changed.
- Integer widths:
  - The keys are mathematical integers. The size index is required to be below 2^blockSizeBits, which keeps them inside the table.
  - Words are 32-bit bit sequences.
  - `int` overflow of coefficient magnitudes is not modelled. This covers `abs(INT_MIN)` and `rightSign * belowSign`, whose sign is taken as the sign comparison.
- Pyramid.GenerateBlockHashValue requires a square of side greater than 2. This is an assumption about the picture-level hash-map builder, which lives outside `Hash.cpp` and is not part of this model: it is taken to call this level only for the squares 4x4 up to 64x64. The code's `width >= 4` test is then always true.
- Pyramid.GenerateRectangleHashValue requires power-of-two sides. This is the same assumption about the picture-level hash-map builder outside `Hash.cpp`: it is taken to pass only the 2:1 and 1:2 rectangles built from those squares, such as 8x4 and 4x8.
- Scan tables and the constructor: the `CoeffCodingContext` constructor and `initSubblock` are defined in `ContextModelling.cpp`, which is not part of this model. So are `CtxSet::operator()` and the scan tables `m_scan` / `m_scanCG`.
  - The constructor is modelled by the state it must establish.
  - `(posX, posY)` are inputs instead of `m_scan[scanPos]`.
  - The functions return context offsets, not context ids.
- The one-line getters of `CoeffCodingContext` are not modelled beyond the members listed above. This covers the geometry and `lastXCtxId`/`lastYCtxId`, whose context sets live elsewhere, and `noneSigGroup`/`only1stSigGroup`.
- The significant-group bitset has `groupCapacity` bits, standing for `MLS_GRP_NUM`. Setting a bit outside it throws in the code, and the model excludes that by a precondition.
- Only the `JVET_O0122_TS_SIGN_LEVEL` variant of the transform-skip functions is modelled.
- `SBH_THRESHOLD` is defined outside the files modelled here. It is the constant 4.
- `CUCtx`, `MergeCtx`, `AffineMergeCtx` and the free `Ctx*` declarations carry no logic in this header and are not modelled.
- Eligibility: the code computes the add flag as `(!row && !col) || aligned` (`source/Lib/CommonLib/Hash.cpp:323, 383`). So a block that is constant along its rows only, or along its columns only, is inserted only at grid-aligned positions. The model states exactly this.
