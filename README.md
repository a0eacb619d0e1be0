# QR symbol encoder of droplink, in Dafny

droplink shares a local file by printing a QR symbol for its URL in the terminal. The encoder
behind that symbol is `internal/qr/qr.go`, and this project models it. It is a `QRCode` value
holding two parallel `Size`-by-`Size` grids. `Modules` holds the dark/light value of each
module. `IsFunction` marks the modules that belong to a fixed pattern. Both are indexed
`[y][x]`, row first. A fixed pipeline fills them:

1. `NewQRCode` sizes the symbol. It picks the smallest version (1 to 10), and at that version
   the strongest error level, whose byte capacity holds the URL plus 3 bytes of overhead. It
   then allocates both grids, all light.
2. `Generate` first draws the function patterns: three finder blocks, their separator rings, the
   two timing lines and the alignment blocks.
3. It then encodes the URL in byte mode: the mode nibble `0100`, an 8-bit count, the payload
   bytes most significant bit first, a 4-bit terminator, and `0xEC`/`0x11` pad bytes up to the
   capacity.
4. It places the bits in a zigzag walk over the free modules.
5. It tries the eight mask patterns and keeps the one whose row-run penalty is lowest.
6. It applies that mask and writes the format word and the dark module.

The encoder follows the code as written, not the QR standard (ISO/IEC 18004):
- it adds no Reed-Solomon codewords;
- it scores only horizontal runs;
- it takes its format words from a table of constants.

The model does the same. The largest symbol is version 10, which is 57 by 57 modules. The size
is `21 + 4 * (version - 1)`; a 41-by-41 symbol is version 6.

## Layout

| file | module | contents |
|---|---|---|
| `wrappers.dfy` | `QrWrappers` | `Option` and `Result` |
| `bits.dfy` | `QrBits` | `intToBits`, bit tests, `\|= 1 << k`, `min` |
| `tables.dfy` | `QrTables` | `versionCapacity`, `formatInfos`, `finderPattern`, alignment positions |
| `sizer.dfy` | `QrSizer` | `determineVersionAndErrorLevel` and the search it performs |
| `stream.dfy` | `QrStream` | the bit stream `encodeData` builds, and a decoder for it |
| `mask.dfy` | `QrMask` | `shouldMask`, with Go's truncating `%` and `/`, and what `applyMask` does to a grid |
| `penalty.dfy` | `QrPenalty` | `calculatePenalty` as runs of equal modules in each row |
| `zigzag.dfy` | `QrZigzag` | the visiting order of `addData` and the bit index each free module receives |
| `patterns.dfy` | `QrPatterns` | which modules each pattern drawer and `addFormatInfo` write, and with what |
| `qrcode.dfy` | `QrCode` | the `QRCode` class, `NewQRCode`, `Generate` and every grid-changing step |

### Modelling choices

- **Grids.** Each grid is an `array2<bool>` field of the class, indexed `[y, x]`. Every method
  that writes a grid states the whole new grid in terms of the old one. Ghost snapshots
  `Grid(a)` (a sequence of rows) carry these states into the functions the contracts are stated with.
- **Loops.** The loops of `addData`, `calculatePenalty`, `applyMask`, `findBestMask`,
  `encodeData` and the pattern drawers are `while`/`for` loops with invariants. Where a Go loop
  body is long, its body is a separate method, for example `FillPass`, `FillRow`, `Visit` and
  `PlaceModule` for `addData`.
- **Pure code.** `determineVersionAndErrorLevel`, `shouldMask`, `intToBits`,
  `getDataCapacity` and `min` are functions. Where Go loops, a method computes the function too.

### What the proofs show

- **Sizing.** The sizer is minimal:
  - no earlier version fits at any level;
  - no stronger level fits at the chosen version;
  - it fails exactly when the length plus 3 exceeds 271.
- **Encoded length and layout.** The encoded stream is exactly `getDataCapacity()` bytes
  whenever the payload fits. The payload is always followed by exactly four zero bits. Usually
  the terminator loop writes them and the byte-boundary loop adds nothing. When the capacity is
  too small, the terminator loop writes none and the byte-boundary loop adds the four.
- **Round trip.** An independent decoder reads the payload back from the stream for every
  payload shorter than 256 bytes.
- **Count-field wrap.** The count field is `intToBits(len, 8)`, so it wraps. A 256-byte URL
  fits version 10 (259 ≤ 271), its count field is `00000000`, and the stream decodes as the
  empty payload (`QrStream.CountFieldWraps`). This is how the code behaves; the model keeps it.
- **Zigzag walk.** It visits every module off column 6 exactly once. Distinct free modules
  receive distinct bit indices, and every bit index below the number of free modules lands in
  some module.
- **Masking.**
  - Masking is an involution, and it never touches a function module.
  - `findBestMask` returns the first mask of lowest penalty, and it leaves the grid as it was.
  - The penalty is the sum over rows of `3 + (run - 5)` for each maximal run of at least 5.
    Columns are never scored.
- **Patterns.** The drawers agree where they overlap: an alignment block that crosses a timing
  line writes the value the timing line wrote, and no later drawer touches a finder block.
  Every module of the pattern area is marked as a function module, so data placement and
  masking leave it alone. Only the format positions and the dark module are written over it.
- **Generate.** `Generate` ends in a symbol that satisfies all of these at once.

## Model

| member | source | states |
|---|---|---|
| QrBits.IntToBits | internal/qr/qr.go:540-546 | the result has `length` bits, and the bit `i` places from the right is bit `i` of `value` (`(value >> i) & 1`) |
| QrBits.IntToBitsLoop | internal/qr/qr.go:540-546 | the fill loop of `intToBits` produces exactly `IntToBits(value, length)` |
| QrBits.FromIntToBits | internal/qr/qr.go:540-546 | reading the bits of `intToBits` back as a binary number gives the value back whenever it fits in `length` bits |
| QrBits.SetClearBit | internal/qr/qr.go:360-361 | setting a clear bit `k` of a byte (adding `2^k`) sets bit `k`, keeps every other bit and stays below `2^n` |
| QrBits.OrBit | internal/qr/qr.go:361 | `b \|= 1 << k` sets bit `k` and leaves every other bit of `b` as it was |
| QrBits.ZeroHasNoBits | internal/qr/qr.go:357 | a freshly made byte (0) has no bit set |
| QrBits.Min | internal/qr/qr.go:548-553 | the result is one of the two arguments and no greater than either |
| QrTables.CapacityTableShape | internal/qr/qr.go:32-44 | the capacity table has ten versions of four levels each |
| QrTables.CapacityOrdering | internal/qr/qr.go:32-44 | within a version a stronger level holds fewer bytes, a later version holds more at every level, and the maximum, 271, is version 10 at level Low |
| QrTables.FinderPatternShape | internal/qr/qr.go:56-64 | the finder pattern is 7 by 7 |
| QrTables.AlignmentPositionsShape | internal/qr/qr.go:231-251 | version 1 has no alignment centres and every other version has some; each centre is even, at least 6 and leaves the block inside the symbol; centres other than 6 are at least 18 and consecutive centres are at least 12 apart |
| QrTables.Capacity | internal/qr/qr.go:32-44 | `versionCapacity[version - 1][level]` lies between 7 (version 1, High) and 271 (version 10, Low), both of which it reaches |
| QrTables.FormatInfo | internal/qr/qr.go:47-53 | `formatInfos[level][mask]` fits in the 15 bits `addFormatInfo` writes, and no other mask of the same level has the same word |
| QrTables.AlignmentPositions | internal/qr/qr.go:236-251 | versions 2 to 10 have two centres (three from version 7), the first 6 and the last 7 modules in from the far edge; any other version has no entry, so nothing is drawn |
| QrTables.LevelIndex | internal/qr/qr.go:21-29 | the four levels are numbered below 4, the row index into both tables |
| QrSizer.FitLevel | internal/qr/qr.go:132-136 | the inner loop stops at the first level, in the order High, Quartile, Medium, Low, whose capacity reaches the requirement, and every level tried before it falls short |
| QrSizer.FitLevelByLevel | internal/qr/qr.go:132-136 | when the inner loop finds no level, no level of that version holds the requirement; when it stops at a level, no stronger level holds it |
| QrSizer.SearchOrderLists | internal/qr/qr.go:132 | the order High, Quartile, Medium, Low lists every level once, strongest first |
| QrSizer.SearchFrom | internal/qr/qr.go:130-138 | from a given version on, the search returns a fitting (version, level) with no earlier version fitting and no stronger level fitting at that version, or -1 and Low when nothing fits |
| QrSizer.SmallestFit | internal/qr/qr.go:125-139 | the result is -1 exactly when `len + 3 > 271`; otherwise the version is in 1..10 and its capacity holds `len + 3`, no smaller version fits at any level and no stronger level fits at that version |
| QrSizer.DetermineVersionAndErrorLevel | internal/qr/qr.go:125-139 | the nested loops return `SmallestFit(dataLen)` |
| QrSizer.LocalhostUrlSizing | internal/qr/qr.go:125-139 | the 21-byte URL `http://localhost:` plus a 4-digit port, as the server builds it, gets version 2 at level Medium |
| QrStream.EncodedLength | internal/qr/qr.go:335-354 | the stream is `8 * max(capacity, len + 2)` bits long, so exactly `8 * capacity` bits when `len + 3 <= capacity` |
| QrStream.EncodedWhole | internal/qr/qr.go:342-345 | the stream is a whole number of bytes |
| QrStream.PadsMissing | internal/qr/qr.go:350-354 | the pad loop runs exactly `PadCount` times: it goes on exactly while the stream is shorter than the capacity |
| QrStream.PadStep | internal/qr/qr.go:348-353 | each pad iteration appends `0xEC` and `0x11` alternately, starting with `0xEC` |
| QrStream.PayloadUpToAt | internal/qr/qr.go:331-333 | bit `8i + j` of the payload bits is bit `j`, most significant first, of payload byte `i` |
| QrStream.PayloadBitsAt | internal/qr/qr.go:331-333 | the same for the whole payload |
| QrStream.PayloadSlice | internal/qr/qr.go:331-333 | the eight bits of byte `i` sit at positions `8i` to `8i + 7` of the payload bits |
| QrStream.FromByteBits | internal/qr/qr.go:332 | `intToBits(b, 8)` read back gives `b` for every byte |
| QrStream.PayloadByteReadsBack | internal/qr/qr.go:331-333 | every payload byte can be read back from its eight bits |
| QrStream.DecodeBits | internal/qr/qr.go:322-333 | a decoder for the header and payload: what it returns has fewer than 256 bytes and fits in the stream |
| QrStream.DecodeFields | internal/qr/qr.go:322-333 | a stream with the mode nibble, a count `n` and `n` readable bytes decodes to those bytes |
| QrStream.StreamFields | internal/qr/qr.go:322-333 | in `mode + count + payload + tail` the mode, count and each payload byte sit at their fixed positions |
| QrStream.DecodeLayout | internal/qr/qr.go:322-333 | the header and payload decode to the payload whatever follows them, when the payload is shorter than 256 bytes |
| QrStream.DecodeEncoded | internal/qr/qr.go:316-367 | round trip: decoding the stream `encodeData` builds gives the payload back for every payload shorter than 256 bytes |
| QrStream.CountFieldWraps | internal/qr/qr.go:326-327 | for a 256-byte payload the 8-bit count field is all zero, and the stream decodes as the empty payload |
| QrStream.ByteOf256 | internal/qr/qr.go:327 | `intToBits(256, 8)` is eight zero bits |
| QrMask.GoRem | internal/qr/qr.go:441-455 | Go's `%`: the remainder lies strictly between `-m` and `m`, and matches the mathematical remainder for non-negative operands |
| QrMask.GoQuot | internal/qr/qr.go:449 | Go's `/` matches the mathematical quotient for non-negative operands |
| QrMask.ShouldMask | internal/qr/qr.go:438-459 | a mask number outside 0..7 selects no module |
| QrMask.Masked | internal/qr/qr.go:427-435 | the grid after `applyMask(m)`: a module is flipped exactly when it is not a function module and the pattern selects it |
| QrMask.MaskedTwice | internal/qr/qr.go:413-415 | masking twice with the same mask restores the grid, which is what lets `findBestMask` undo each trial |
| QrMask.MaskedChanges | internal/qr/qr.go:430-431 | masking never changes a function module, and changes any other module exactly where the pattern selects it |
| QrPenalty.ScanShape | internal/qr/qr.go:466-476 | after the inner loop reaches `x`, the closed runs are positive and, with the open run `count`, cover exactly `x` modules |
| QrPenalty.ScanNext | internal/qr/qr.go:467-474 | one step of the inner loop: an equal module extends `count`, a different one closes the run and restarts at 1 |
| QrPenalty.Runs | internal/qr/qr.go:465-480 | the runs of a row are positive and add up to its length; an empty row has none |
| QrPenalty.RunsExpand | internal/qr/qr.go:465-480 | the runs are the maximal runs: writing them out with alternating values, from the row's first value, gives the row back |
| QrPenalty.RowPenaltyOfRuns | internal/qr/qr.go:465-480 | a row's penalty is the sum over its runs of `3 + (run - 5)` for runs of 5 or more |
| QrPenalty.RowsPenaltyNext | internal/qr/qr.go:465-481 | each pass of the outer loop adds the penalty of one row |
| QrPenalty.RowPenaltyBound | internal/qr/qr.go:462-484 | a row's penalty is between 0 and the row's length |
| QrPenalty.GridPenaltyBound | internal/qr/qr.go:462-484 | a grid's penalty is non-negative and at most 57 per row, far below `math.MaxInt32` |
| QrPenalty.ConstantRowPenalty | internal/qr/qr.go:470-480 | a one-coloured row of `n` modules scores `3 + (n - 5)` when `n >= 5` and 0 otherwise |
| QrPenalty.PenaltyOfInverse | internal/qr/qr.go:462-484 | inverting every module of a row keeps its penalty |
| QrPenalty.AlternatingPenalty | internal/qr/qr.go:462-484 | an alternating row scores 0 |
| QrPenalty.ColumnsNotScored | internal/qr/qr.go:465 | a grid whose columns are each one colour, and as long as the grid, scores 0: only rows are scored |
| QrPenalty.ZeroRowsPenalty | internal/qr/qr.go:465-481 | a grid of rows that each score 0 scores 0 |
| QrPenalty.SumScoresBound | internal/qr/qr.go:470-479 | the scores of a list of runs add up to at most the modules they cover |
| QrZigzag.ColumnWalk | internal/qr/qr.go:375-380 | the outer loop's columns: each pass starts in the symbol, column 6 is replaced by 5, the next pass starts two columns further left, and the loop ends exactly after the last pass |
| QrZigzag.CellOf | internal/qr/qr.go:382-391 | every module the walk names is inside the symbol and off column 6 |
| QrZigzag.CellOfParts | internal/qr/qr.go:383-390 | the module the loop counters name, `x = col - c` and `y = row` with `row` reversed on upward passes, is the module of that step |
| QrZigzag.StepOf | internal/qr/qr.go:375-391 | every module of the symbol off column 6 is visited at some step |
| QrZigzag.ColumnPass | internal/qr/qr.go:375-380 | the pass that visits column `x` exists and has `x` as its right or left column |
| QrZigzag.VisitsAreOneToOne | internal/qr/qr.go:375-391 | no step visits a module that another step visits: the walk is one-to-one |
| QrZigzag.FreeBeforeGrows | internal/qr/qr.go:392-399 | `bitIndex` only grows along the walk, by one at each free module |
| QrZigzag.DistinctBitIndices | internal/qr/qr.go:392-399 | two different free modules receive different bit indices, so no data bit is placed twice |
| QrZigzag.EveryIndexPlaced | internal/qr/qr.go:392-399 | every bit index below the number of free modules seen so far was given to one of them |
| QrZigzag.EveryIndexHasModule | internal/qr/qr.go:392-399 | every bit index below the number of free modules lands in some free module off column 6 |
| QrPatterns.CoverUpTo | internal/qr/qr.go:185-195 | the last of the first `n` blocks that covers a module, or none exactly when none covers it |
| QrPatterns.Cover | internal/qr/qr.go:185-195 | the last drawn block that covers a module is one of the blocks and covers it; there is none exactly when no block covers it |
| QrPatterns.CoverUpToPrefix | internal/qr/qr.go:185-195 | which block covers a module depends only on the blocks drawn so far |
| QrPatterns.CoverSnoc | internal/qr/qr.go:253-273 | drawing one more block makes it the cover of its own modules and leaves every other module's cover as it was |
| QrPatterns.FinderCover | internal/qr/qr.go:179-195 | each module in a finder block takes its value from the last block drawn over it, in the order top-left, top-right, bottom-left |
| QrPatterns.FinderBlocksDrawn | internal/qr/qr.go:179-195 | in a symbol of side 21 or more the three finder blocks do not overlap, so each block's 7 by 7 modules all show that block |
| QrPatterns.SeparatorsAvoidFinders | internal/qr/qr.go:199-217 | the separator rings never cut into a finder block |
| QrPatterns.SkipAlignment | internal/qr/qr.go:256-258 | a centre with both coordinates at most 10 is skipped; a skipped centre has a coordinate at most 10; a centre with a coordinate strictly between 10 and `Size - 10`, or with both above 10, is drawn |
| QrPatterns.TimingAvoidsFinders | internal/qr/qr.go:220-226 | the timing lines touch neither a finder block nor a separator |
| QrPatterns.AlignmentRowNotSkipped | internal/qr/qr.go:254-260 | no alignment block drawn in a row has a centre in a finder corner |
| QrPatterns.AlignmentRowsNotSkipped | internal/qr/qr.go:253-260 | no alignment block drawn has its centre in a finder corner |
| QrPatterns.AlignmentAvoidsFinders | internal/qr/qr.go:256-260 | the alignment blocks drawn touch neither a finder block nor a separator |
| QrPatterns.AlignmentAgreesWithTiming | internal/qr/qr.go:221-226 | where an alignment block lies on a timing line it writes the value the timing line wrote |
| QrPatterns.CrossingValue | internal/qr/qr.go:262-272 | an alignment block centred on table positions writes, on row 6 or column 6, the timing value of that module |
| QrPatterns.AlignmentRowsCentres | internal/qr/qr.go:253-254 | the blocks drawn are centred on entries of the position table |
| QrPatterns.AlignmentRowCentres | internal/qr/qr.go:254 | the blocks drawn in one row are centred on entries of the position table |
| QrPatterns.FormatWriter | internal/qr/qr.go:282-308 | the last of the first `n` iterations of the format loop that writes a module writes it, and no later one does; -1 when none does |
| QrPatterns.FormatOverwrites | internal/qr/qr.go:286-307 | the writes that survive the loop's overwrites, `(7, 8)` at `i = 8` and the `(14 - i, 8)` writes, are the bit numbers `FormatBitAt` gives |
| QrCode.NewQRCode | internal/qr/qr.go:67-95 | an empty URL fails with `InvalidUrl`; a URL with `len + 3 > 271` fails with `TooLong(len)`; it succeeds exactly otherwise, with the smallest version and strongest level that fit, mask 0, the URL as data, and fresh, distinct, `Size`-by-`Size`, all-false grids |
| QrCode.QRCode.constructor | internal/qr/qr.go:83-89 | the struct literal: the given fields, mask 0 and no grids yet |
| QrCode.QRCode.InitializeGrids | internal/qr/qr.go:98-108 | two fresh, distinct `Size`-by-`Size` grids, all false, with the other fields unchanged |
| QrCode.QRCode.GetDataCapacity | internal/qr/qr.go:533-538 | the table capacity for a version in 1..10, and 0 outside it |
| QrCode.QRCode.EncodeData | internal/qr/qr.go:316-367 | the bytes returned spell out, bit by bit and most significant first, the stream `EncodedBits(data, capacity)` |
| QrCode.QRCode.EncodeBits | internal/qr/qr.go:320-354 | the `append` loops build exactly `mode + count + payload + 4 zero bits + pad bytes` |
| QrCode.QRCode.HeaderBits | internal/qr/qr.go:320-333 | the first three `append` steps give `0100`, the 8-bit count and the payload bits |
| QrCode.QRCode.Terminate | internal/qr/qr.go:335-345 | the terminator loop and the byte-boundary loop together add exactly four zero bits, whether the terminator gets four bits or none |
| QrCode.QRCode.PadToCapacity | internal/qr/qr.go:347-354 | the pad loop appends exactly `PadCount` alternating pad bytes |
| QrCode.QRCode.PackBits | internal/qr/qr.go:356-364 | the packing loop gives `len(bits) / 8` bytes whose bits, most significant first, are the stream |
| QrCode.TerminatorLength | internal/qr/qr.go:336-337 | `min(4, maxBits - len(bits))` is 4 exactly when the capacity exceeds `len + 1`, and is never between 1 and 3 |
| QrCode.ByteBoundary | internal/qr/qr.go:343 | after the header, payload and `z` terminator bits the stream is on a byte boundary exactly when `z = 4` |
| QrCode.SideOfVersion | internal/qr/qr.go:81 | every size `21 + 4 * (version - 1)` is odd and at least 21, a side the zigzag walk covers |
| QrCode.QRCode.AddFinderPatterns | internal/qr/qr.go:178-196 | each module covered by a finder block takes that block's `finderPattern` value and is marked function; every other module keeps its value and mark |
| QrCode.QRCode.DrawFinder | internal/qr/qr.go:186-194 | one 7 by 7 block drawn at its origin, clipped to the symbol |
| QrCode.QRCode.AddSeparators | internal/qr/qr.go:199-217 | every module of the three rings around the finder blocks is light and marked function; nothing else changes |
| QrCode.QRCode.DrawSeparator | internal/qr/qr.go:207-215 | one ring, clipped to the symbol |
| QrCode.QRCode.AddTimingPatterns | internal/qr/qr.go:220-227 | for `8 <= i < Size - 8`, modules `(i, 6)` and `(6, i)` are dark exactly when `i` is even and are marked function; nothing else changes |
| QrCode.QRCode.AddAlignmentPatterns | internal/qr/qr.go:230-275 | each module covered by an alignment block not skipped for a finder corner takes that block's ring-and-centre value and is marked function; nothing else changes |
| QrCode.QRCode.DrawAlignmentRow | internal/qr/qr.go:254-273 | the inner loop draws the blocks of one centre row that are not skipped, in table order |
| QrCode.QRCode.DrawNext | internal/qr/qr.go:262-272 | drawing one more block adds it to the blocks drawn |
| QrCode.QRCode.DrawAlignment | internal/qr/qr.go:263-272 | one 5 by 5 block: dark ring and centre, light between, clipped to the symbol, marked function |
| QrCode.QRCode.AddFormatInfo | internal/qr/qr.go:278-313 | module `(8, Size - 8)` is dark; each format position holds its surviving bit of `formatInfos[level][mask]`; all of these are marked function and nothing else changes |
| QrCode.QRCode.WriteFormatBit | internal/qr/qr.go:283-307 | one iteration of the format loop writes bit `i` at its one or two positions and marks them |
| QrCode.QRCode.CalculatePenalty | internal/qr/qr.go:462-484 | the nested loops compute `GridPenalty` of the grid: the sum over rows of the scores of their maximal runs |
| QrCode.QRCode.ApplyMask | internal/qr/qr.go:427-435 | the grid becomes `Masked(old grid, function map, mask)`, and the function map is not modified |
| QrCode.QRCode.TryMask | internal/qr/qr.go:413-415 | one trial: the penalty of the masked grid, below `math.MaxInt32`, with the grid restored afterwards |
| QrCode.QRCode.FindBestMask | internal/qr/qr.go:408-424 | the mask returned is in 0..7, no mask scores lower, every earlier mask scores strictly higher, and the grid is as before |
| QrCode.LowestStep | internal/qr/qr.go:417-420 | keeping the lower of the best penalty so far and the next one keeps it a lower bound of the penalties seen |
| QrCode.IsValidUrl | internal/qr/qr.go:111-116 | a URL passes exactly when it is not empty |
| QrCode.QRCode.InBounds | internal/qr/qr.go:529-531 | `(x, y)` lies in the symbol exactly when both coordinates are in `0 .. Size - 1` |
| QrCode.PatternValueParts | internal/qr/qr.go:153-157 | the drawers agree where they overlap: in the value the last drawer leaves, every finder module shows its template, every separator module is light, every timing module alternates and every alignment module shows its template |
| QrCode.PatternsSurvive | internal/qr/qr.go:159-172 | a pattern area marked as function modules keeps its pattern values through `addData`, `applyMask` and `addFormatInfo`, except at the format positions and the dark module |
| QrCode.BestMaskUnique | internal/qr/qr.go:408-424 | the mask chosen is determined by the grid: at most one mask is the best one |
| QrCode.QRCode.AddData | internal/qr/qr.go:370-405 | each non-function module off column 6 holds the bit of its index among the free modules, or light once the bits run out; function modules, column 6 and the function map are unchanged |
| QrCode.QRCode.AllPlaced | internal/qr/qr.go:375-404 | once the last pass is done, every free module off column 6 holds its data bit and every other module its old value |
| QrCode.QRCode.NextPass | internal/qr/qr.go:375-403 | one round of the outer loop: `col` skips column 6, the pass places the data bits of its free modules, and `col` moves to the next pass's starting column |
| QrCode.QRCode.FillPass | internal/qr/qr.go:380-403 | one pass over a column pair places the data bits of the free modules in it, in walk order |
| QrCode.QRCode.FillRow | internal/qr/qr.go:382-403 | one row of a pass places the data bits of its two modules |
| QrCode.QRCode.Visit | internal/qr/qr.go:388-401 | one visit advances the placement by one step of the walk |
| QrCode.QRCode.RowDone | internal/qr/qr.go:388 | after both modules of a row, the placement is at the start of the next row |
| QrCode.QRCode.PassDone | internal/qr/qr.go:382 | after the last row, the placement is at the start of the next pass |
| QrCode.QRCode.PlaceModule | internal/qr/qr.go:392-401 | a free module in bounds receives bit `bitIndex`, most significant first, or light once the bits are used up, and the index advances exactly when a bit was used; nothing else changes |
| QrCode.QRCode.SetModule | internal/qr/qr.go:517-521 | a write inside the symbol sets that module, one outside it changes nothing |
| QrCode.QRCode.SetFunction | internal/qr/qr.go:523-527 | the same for the function map |
| QrCode.QRCode.Generate | internal/qr/qr.go:142-175 | missing grids fail with `NotInitialized` and grids of the wrong row count with `SizeMismatch(size, rows, rows)`, both changing nothing; correctly sized grids succeed, and the symbol then marks the pattern area as function, holds every pattern value in the pattern area outside the format positions and the dark module, holds the encoded stream in the free modules, was masked with the best mask and carries that mask's format word and the dark module |
| QrCode.QRCode.Build | internal/qr/qr.go:153-172 | on sized grids the four steps leave the pattern area marked and holding its pattern values outside the format positions and dark module, the stream in the free modules, the best mask applied and the format word and dark module written |
| QrCode.QRCode.DrawFunctionPatterns | internal/qr/qr.go:153-157 | the four drawers together mark exactly the pattern area on top of the old map, and leave in each pattern module the value of the last drawer to write it (alignment over timing over separator over finder) and every other module as it was |
| QrCode.QRCode.PlaceData | internal/qr/qr.go:159-165 | `encodeData` then `addData`: every free module off column 6 holds the stream bit of its index, or light past the end, and function modules and column 6 keep their values |
| QrCode.QRCode.MaskAndFormat | internal/qr/qr.go:167-172 | the mask chosen is the best for the placed grid, and the final grid is the masked grid with the format word and dark module written over it |

## Left out

- `PrintToTerminal` (internal/qr/qr.go:487-513) is terminal output. It only reads `Modules`,
  adds a 4-module quiet zone and prints two characters per module.
- The regular-expression and `strings` checks at the end of `isValidURL` are never reached,
  because the function returns `true` at line 116 for any non-empty URL. `IsValidUrl` is the
  emptiness test alone.
- The URL is taken as its sequence of bytes. The conversion `[]byte(url)` of a Go string is
  not modelled.
- The `fmt.Errorf` messages are left out. Each error is a `QrError` variant that carries the
  numbers its message prints.
- `encodeData` never returns an error. `QrCode.QRCode.EncodeData` returns only the bytes, and
  the "data encoding failed" branch of `Generate` is not modelled.
- QrCode.QRCode.Generate: requires `Sized()`, meaning the version is in 1..10, `Size` matches
  it, and grids that exist are square and distinct. The Go code does not check this. For a
  value outside it, such as a version beyond 10 or a `Size` that does not match the version,
  the Go code still runs: `inBounds` clips every write, `getDataCapacity` returns 0 and
  `addAlignmentPatterns` draws nothing. The model does not cover what `Generate` produces then.
  `Sized()` holds at the only call site, `NewQRCode` followed by `Generate` in
  internal/server/server.go:25-29.
- The grids are rectangular `array2` values, so Go's row slices of different lengths cannot
  arise. Only the row count is compared with `Size`, as the Go check does.
- `math.MaxInt32` is kept as the constant `MAX_INT32`. Every penalty is proved to lie below it.
- Go's `int` is 64 bits wide. Every value here is bounded (sides up to 57, penalties up to
  57 × 57), so no wrap-around is modelled.
- The error-correction codewords, penalty rules 2 to 4 and the BCH computation of the format
  words are absent from the code, and the model adds none of them. The format words are the
  constants of the `formatInfos` table.
- The logger (`internal/log`), the HTTP file server (`internal/server`), the command-line
  parsing (`internal/cli`) and `cmd/droplink/main.go` are left out. They are I/O, concurrency,
  randomness and process wiring, and are not part of this model.
