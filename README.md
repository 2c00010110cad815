# FloPoCo integer core in Dafny

FloPoCo generates VHDL arithmetic operators from C++ classes. Most of each generator prints
VHDL text. Behind that text sit small integer routines, and this project models them and proves
their properties:

- the multiplier tables, guard-bit counts and reference models (`emulate`) of the two integer
  multipliers (`src/IntMult/IntMultiplier.cpp` and the older `src/IntMultiplier.cpp`);
- the Booth recoding of a constant and the balanced shift-and-add tree built from it
  (`src/ConstMult/IntConstMult.cpp`);
- the bit heap's column container: sorted insertion, removal, heights, retirement of the
  already compressed low columns, and the subtraction of a bit vector (`src/BitHeap.cpp`);
- the command-line front end: `key=value` lookup, the typed parsers, argument grouping, the
  global operator list, the factory registry and the factory parameter-string parser
  (`src/UserInterface.cpp`);
- the integer helpers of the two DSP tiling multipliers: the clipped rectangle fill, the overlap
  test, the exchange sorts, coordinate conversion, trial positions, `initTiling`, the Stratix
  DSP count and the reference products (`src/IntMultipliers/IntTilingMult.cpp`,
  `src/IntTruncMultiplier.cpp`);
- width and chunk arithmetic: the adder's chunking and cost (`src/IntAdder.cpp`), the KCM input
  splits (`src/ConstMult/FixRealKCMBH.cpp`, `src/ConstMult/IntIntKCM.cpp`), the logarithm's
  stage-precision recurrence (`src/fplog/LogArch.cpp`), the squarer's slices and bit-heap
  weights (`src/IntSquarerBitheap.cpp`) and the Karatsuba split (`src/Karatsuba.cpp`);
- `zero_generator` (`src/Karatsuba.cpp`) and `unsignedBinary`
  (`src/apps/CoilInductance/CoilSimulation.cpp`).

There is one module per source file. Two helper modules support them: `Bits` (powers of two,
`intlog2` as `BitLen`, two's-complement decoding, digit chunks) and `Text` (ASCII lower case,
`find`, decimal rendering and parsing). `Results` holds the `Option` and `Result` types. Each
C++ exception and each `exit` on an error path becomes an `Err`. Integers are unbounded. Where
the source uses `int` and the width matters (`stoi`, the integer conversion in `parseFloat`),
the 32-bit range is written out.

The C++ code works by updating state, so the model does too:

- `BitHeap`, `LogArch`, `IntConstMultOp`, both `IntMultiplier` classes and the
  user-interface state are classes with `modifies` frames.
- The loops over arrays (`recodeBooth`, the tree reduction, `fillMatrix`, `sortDSPs`, the
  `diSize` split, the adder's `cSize`/`cIndex`) are methods over Dafny arrays. Each has
  invariants and is proved against a specification function.
- Pure arithmetic (`SmallMultTable::function`, `emulate`, the width formulas) stays as
  functions and lemmas.

## Model

| member | source | states |
|---|---|---|
| IntMult.Tabulated | src/IntMult/IntMultiplier.cpp:98-100 | the product is read from one table exactly when wX+wY <= lutInputs+2 |
| IntMult.NeededGuardBits | src/IntMult/IntMultiplier.cpp:102-121 | no guard bits when the output is full width or the multiplier is tabulated (wX+wY <= lutInputs+2); otherwise g = wX+wY-i-wOut, where i is the first index whose truncation error has at least wX+wY-wOut bits |
| IntMult.UlpSearch | src/IntMult/IntMultiplier.cpp:110-117 | the while loop stops at the least i whose accumulated ulp error has a bit length of at least wX+wY-wOut; i < d when d >= 1 |
| IntMult.UlpErrorClosedForm | src/IntMult/IntMultiplier.cpp:110-116 | the error the loop accumulates after i turns is i*2^(i+1)+1 |
| IntMult.UlpErrorBits | src/IntMult/IntMultiplier.cpp:110-117 | after i turns the error has at least i+1 bits, so the loop ends |
| IntMult.IntMultiplier.Initialize | src/IntMult/IntMultiplier.cpp:124-149 | fails with nothing changed exactly when a declared width is negative; otherwise wFullP = wXdecl+wYdecl and (wX, wY) is the declared pair, swapped so that wY <= wX |
| IntMult.OperandValueBound | src/IntMult/IntMultiplier.cpp:1710-1717 | a d-bit table operand, decoded as value-2^d when signed and >= 2^(d-1), lies strictly between -2^d and 2^d |
| IntMult.TableProductBound | src/IntMult/IntMultiplier.cpp:1706-1725 | the (optionally negated) product of the two operands read from index yx lies strictly between -2^(dx+dy) and 2^(dx+dy) |
| IntMult.WrapNegativeIsMod | src/IntMult/IntMultiplier.cpp:1724-1725 | adding 2^(dx+dy) to a negative product in that range gives its residue modulo 2^(dx+dy) |
| IntMult.RoundingShift | src/IntMult/IntMultiplier.cpp:1728-1734 | (v + 2^(tr-1)) >> tr is the nearest integer to v/2^tr (ties up), at most 2^n for v < 2^(n+tr) |
| IntMult.RoundsToNearestUnique | src/IntMult/IntMultiplier.cpp:1728-1734 | the round-to-nearest result is unique |
| IntMult.SmallMultTableEntry | src/IntMult/IntMultiplier.cpp:1704-1740 | a table entry is the two's-complement product modulo 2^(dx+dy) when wOut >= dx+dy, and that pattern rounded to nearest at weight dx+dy-wOut otherwise |
| IntMult.ExpectedOutputs | src/IntMult/IntMultiplier.cpp:1744-1787 | without truncation the single output is the exact product modulo 2^(wX+wY); with truncation the first output is that product shifted down to wOut bits (floor) and the second is the first plus one modulo 2^wOut |
| IntMult.AddUid | src/IntMult/IntMultiplier.cpp:1651-1658 | the name is kept as a prefix, followed by '_' and the uid suffix |
| IntMult.AddUidInjective | src/IntMult/IntMultiplier.cpp:1651-1658 | for one multiplier uid, different (name, blockUid) pairs give different signal names |
| IntMultiplierLegacy.NeededGuardBits | src/IntMultiplier.cpp:96-113 | g is 0 exactly when wX+wY == wOut; the truncation guard bits when wOut < wX+wY; wX+wY-wOut when wOut is wider |
| IntMultiplierLegacy.IntMultiplier.Initialize | src/IntMultiplier.cpp:116-160 | fails exactly on a negative size or wOut > wX+wY; otherwise wOut = 0 becomes the full width, wTruncated = wFull-wOut, g is the guard-bit count and wY <= wX after the swap |
| IntMultiplierLegacy.IntMultiplier.CheckTiling | src/IntMultiplier.cpp:768-812 | the count is horDSP*verDSP, and each of horDSP and verDSP is the number of DSPs covering its dimension (the first DSP full width, the others one bit narrower when signed) |
| IntMultiplierLegacy.CeilDiv | src/IntMultiplier.cpp:789 | the integer ceiling of a/b: the least q with q*b >= a |
| IntMultiplierLegacy.SmallMultTableEntryAsWritten | src/IntMultiplier.cpp:1190-1220 | as written: a negative product is wrapped by 2^wOut before rounding; without rounding the entry is the product modulo 2^wOut |
| IntMultiplierLegacy.SmallMultTableRoundingCounterexample | src/IntMultiplier.cpp:1210-1211 | for dx=dy=2, signed, wOut=3, index 7 (x=-1, y=1) the entry as written is 4, while the rounded residue is 0 modulo 2^3 |
| IntMultiplierLegacy.Emulate | src/IntMultiplier.cpp:1230-1270 | without truncation the output is the decoded (and optionally negated) product modulo 2^wFull; with truncation it is that product shifted down by wTruncated, then that plus one modulo 2^wOut |
| IntConstMult.BinaryDigits | src/ConstMult/IntConstMult.cpp:189-205 | the bits array has intlog2(n) entries, each 0 or 1, and sum bits[i]*2^i = n |
| IntConstMult.CsdValue | src/ConstMult/IntConstMult.cpp:350-357 | the carry recoding keeps the value: sum BoothCode[i]*2^i = sum b[i]*2^i |
| IntConstMult.CsdDigits | src/ConstMult/IntConstMult.cpp:350-357 | every recoded digit of a binary input is -1, 0 or 1 |
| IntConstMult.CsdNonAdjacent | src/ConstMult/IntConstMult.cpp:350-357 | a nonzero recoded digit is followed by a zero digit |
| IntConstMult.BoothDigits | src/ConstMult/IntConstMult.cpp:340-357 | the padded-bit and carry loop fills BoothCode with the recoding of the bits |
| IntConstMult.RewriteKeepsValue | src/ConstMult/IntConstMult.cpp:363-369 | rewriting (-1, 0, 1) to (1, 1, 0) keeps both the value and the number of nonzero digits |
| IntConstMult.RewriteMinusZeroPlus | src/ConstMult/IntConstMult.cpp:363-369 | the rewrite loop keeps the digits in {-1,0,1}, the value and the nonzero count, and leaves no (-1, 0, 1) pattern; the i+2 index stays in bounds |
| IntConstMult.CountNonZero | src/ConstMult/IntConstMult.cpp:371-374 | the count is the number of nonzero digits |
| IntConstMult.RecodeBooth | src/ConstMult/IntConstMult.cpp:337-378 | BoothCode has nsize+1 signed digits of the same value as the bits, no (-1, 0, 1) pattern, and the returned count is its number of nonzero digits |
| IntConstMult.EvalIsConstantTimesInput | src/ConstMult/IntConstMult.cpp:427-482 | every shift-and-add tree computes its constant times the input |
| IntConstMult.TreeDepth | src/ConstMult/IntConstMult.cpp:46-66 | the depth counts one level per adder or negation on the longest path, none for a shift, so it never exceeds the number of adders and negations in the tree |
| IntConstMult.HalvingRoundsIsCeilLog2 | src/ConstMult/IntConstMult.cpp:465-479 | halving k (rounding up) until one operand remains takes ceil(log2 k) rounds |
| IntConstMult.RoundWeighted | src/ConstMult/IntConstMult.cpp:467-476 | one round of pairing keeps the weighted sum of the operands |
| IntConstMult.RoundShape | src/ConstMult/IntConstMult.cpp:467-476 | one round keeps the shifts ascending and raises the tree depth by at most one |
| IntConstMult.HalveLevel | src/ConstMult/IntConstMult.cpp:465-479 | the in-place round leaves (k+1)/2 operands: adjacent pairs added with the shift difference, an odd last operand kept |
| IntConstMult.BuildMultBoothTree | src/ConstMult/IntConstMult.cpp:427-482 | the tree's constant is the value of the Booth code, and its depth is at most ceil(log2 nonZero)+1 |
| IntConstMult.IntConstMultOp.constructor | src/ConstMult/IntConstMult.cpp:182-218 | nsize = intlog2(n), rsize = nsize+xsize, the bits and the Booth code both spell n, and the implementation's constant is n |
| IntConstMult.ProductFits | src/ConstMult/IntConstMult.cpp:189-190 | n*x fits in rsize = intlog2(n)+xsize bits |
| BitHeapModel.InsertSorted | src/BitHeap.cpp:482-498 | inserting before the first greater-or-equal bit keeps the column sorted and adds exactly the new bit |
| BitHeapModel.InsertColumnOk | src/BitHeap.cpp:482-498 | after insertion every bit of the column still has this heap's guid, the column's weight and a uid below the column counter |
| BitHeapModel.FirstTall | src/BitHeap.cpp:1860-1875 | the first column from minWeight on with more than one bit, every column before it holding at most one |
| BitHeapModel.NotBitsValueIsComplement | src/BitHeap.cpp:171-191 | the complemented bits of x are worth 2^size-1-(x mod 2^size) |
| BitHeapModel.SubtractionIsNegation | src/BitHeap.cpp:171-191 | the complemented bits plus one plus the constant ones above add up to -x*2^weight modulo 2^maxWeight |
| BitHeapModel.BitHeap.constructor | src/BitHeap.cpp:34-56 | maxWeight empty columns, each uid counter at 0 |
| BitHeapModel.BitHeap.NewUid | src/BitHeap.cpp:88-90 | returns uid[w] and increments it, nothing else changes |
| BitHeapModel.BitHeap.AddBit | src/BitHeap.cpp:464-498 | a weight >= maxWeight leaves the heap unchanged; otherwise a bit with the next uid is inserted in sorted position and that column's height grows by one |
| BitHeapModel.BitHeap.RemoveBit | src/BitHeap.cpp:516-524 | dir 0 drops the front bit, dir 1 the back bit, other columns unchanged |
| BitHeapModel.BitHeap.RemoveCompressedBits | src/BitHeap.cpp:635-643 | column c loses its first red bits (none when red <= 0), so its height drops by that much; other columns are unchanged |
| BitHeapModel.BitHeap.CurrentHeight | src/BitHeap.cpp:626-631 | the height of column w is the number of bits it holds |
| BitHeapModel.BitHeap.GetMaxHeight | src/BitHeap.cpp:645-656 | the result is the largest column size |
| BitHeapModel.BitHeap.CompressedUpTo | src/BitHeap.cpp:1860-1875 | the scan stops at the first column from minWeight on with more than one bit |
| BitHeapModel.BitHeap.GetLatestBit | src/BitHeap.cpp:1118-1157 | the result is a pickable bit of columns lsb..msb that arrives no earlier, by (cycle, critical path), than every bit there; it is None (null) exactly when no bit there is pickable, that is, arrives after cycle 0 or at cycle 0 with a critical path of at least 0 |
| BitHeapModel.BitHeap.ConcatenateLSBColumns | src/BitHeap.cpp:1856-1914 | an error, with the heap unchanged, exactly when the leading columns of height <= 1 are not none and getLatestBit finds no bit among them (all of them empty, say), where the source dereferences null; otherwise minWeight moves past those columns, they are emptied and their bits form the chunk, most significant first, and chunkDoneIndex counts a non-empty chunk |
| BitHeapModel.BitHeap.SubtractUnsignedBitVector | src/BitHeap.cpp:171-191 | columns weight to weight+size-1 each receive one complemented bit with the next uid, in sorted position; other columns are unchanged; the constant grows by 2^weight plus the ones from weight size+weight up to maxWeight |
| UserInterface.ScanCases | src/UserInterface.cpp:301-318 | the scan fails exactly when it meets an entry without '=' or with '=' first before the key; it returns the value of the first entry whose key matches and removes that entry; it returns "" with the arguments unchanged when no key matches |
| UserInterface.GetVal | src/UserInterface.cpp:295-319 | the loop (keys lower-cased, args[0] skipped) returns the same as the lookup specification |
| UserInterface.Fetch | src/UserInterface.cpp:346-354 | an empty value means "skip" for a generic option; otherwise the value is the default, or "" when no default is looked up; a missing default is an error; a given value is passed on |
| UserInterface.BooleanValue | src/UserInterface.cpp:356-361 | true for 1/yes/true/Yes/True, false for 0/no/false/No/False, an error for anything else |
| UserInterface.IntValueOfString | src/UserInterface.cpp:394-396 | the decimal rendering of any 32-bit int parses back to that int |
| UserInterface.ParseBoolean | src/UserInterface.cpp:346-362 | errors of the lookup propagate, a skipped generic option stays unset, otherwise the value is parsed as a boolean word |
| UserInterface.ParseIntAtLeast | src/UserInterface.cpp:383-451 | the value must be consumed entirely by stoi, and must reach the bound when there is one (none for parseInt, 0 for parsePositiveInt, 1 for parseStrictlyPositiveInt) |
| UserInterface.ZeroIsPositiveNotStrictly | src/UserInterface.cpp:419-446 | parsePositiveInt accepts 0 while parseStrictlyPositiveInt rejects it |
| UserInterface.FloatValueTruncates | src/UserInterface.cpp:375-378 | a decimal numeral a.f of at most 15 digits is stored as the integer a, with its sign: the nearest double lies in [a, a+1), and the conversion to int truncates the fraction |
| UserInterface.ParseFloat | src/UserInterface.cpp:364-379 | errors propagate, a skipped option stays unset, otherwise the value must be consumed entirely by stod and is stored truncated to an int (the exact decimal value is truncated, not its nearest double) |
| UserInterface.GroupArguments | src/UserInterface.cpp:171-196 | the global options start with the tag and hold only '=' entries; every operator spec is a name followed by its '=' entries; together they are the arguments in order |
| UserInterface.LeadingOptions | src/UserInterface.cpp:179-183 | the leading '=' entries are taken off in order, and what remains does not start with one |
| UserInterface.ParseAll | src/UserInterface.cpp:152-196 | one argument gives the full documentation, "BuildHTMLDoc" alone the HTML documentation, anything else the grouping of the arguments |
| UserInterface.SplitCategories | src/UserInterface.cpp:564-577 | the categories are the non-empty ';'-separated fields, in order |
| UserInterface.FieldsOfJoin | src/UserInterface.cpp:564-577 | splitting the ';'-join of non-empty fields without ';' gives the fields back |
| UserInterface.ParseParameters | src/UserInterface.cpp:583-632 | the loop over the ';'-separated parameter descriptions, leading blanks skipped, gives the table of the specification, or the first parse error |
| UserInterface.WithoutNewlines | src/UserInterface.cpp:582 | no newline is left, and every other character occurs as often as in the input |
| UserInterface.NoNewlinesKept | src/UserInterface.cpp:582 | a string without newlines is left as it is |
| UserInterface.WithoutNewlinesAppend | src/UserInterface.cpp:582 | the removal of a concatenation is the concatenation of the removals, so the characters kept stay in order |
| UserInterface.NewOperatorFactory | src/UserInterface.cpp:555-632 | the factory holds the name, description and HTML doc, the split categories and the parsed parameters after newlines are removed |
| UserInterface.ParameterOfWellFormed | src/UserInterface.cpp:590-626 | name(type)=default: doc parses to exactly that name, type, default and doc, leading blanks of the doc dropped |
| UserInterface.ParameterOfWellFormedNoDefault | src/UserInterface.cpp:590-626 | name(type): doc parses with an empty default |
| UserInterface.ParameterOf | src/UserInterface.cpp:590-626 | a parameter is accepted only with type bool, int, real or string |
| UserInterface.WithOperatorNames | src/UserInterface.cpp:59-70 | adding an operator keeps the old list as a prefix and grows it by one exactly when no operator of that name is present; afterwards a name is present exactly when it was before or is the new operator's |
| UserInterface.WithOperatorDistinct | src/UserInterface.cpp:59-70 | the list keeps distinct names, and adding a second operator with the same name changes nothing |
| UserInterface.RegisterKeepsValid | src/UserInterface.cpp:119-125 | registration fails exactly on a name already present; otherwise both indexes stay consistent and the name finds the new factory |
| UserInterface.LookUpKeepsValid | src/UserInterface.cpp:136-139 | a lookup finds a factory exactly when one of that name was registered; an unknown name is inserted as null, after which registering that name is refused |
| UserInterface.UserInterfaceState.AddToGlobalOpList | src/UserInterface.cpp:59-70 | the list becomes the list with the operator added unless its name is present |
| UserInterface.UserInterfaceState.RegisterFactory | src/UserInterface.cpp:119-125 | fails on a duplicate name, leaving the registry unchanged; otherwise appends by index and inserts by name |
| UserInterface.UserInterfaceState.GetFactoryByName | src/UserInterface.cpp:136-139 | the result and the new name map are those of the lookup, which inserts a null entry for an unknown name |
| Tiling.FillMatrix | src/IntMultipliers/IntTilingMult.cpp:564-571 | value lands exactly in the cells of the rectangle that lie on the lw x lh board, and no other cell changes |
| Tiling.OverlapTestIsIntersection | src/IntMultipliers/IntTilingMult.cpp:1316-1338 | for well-formed blocks the ten-case test holds exactly when the rectangles intersect, and it is symmetric |
| Tiling.CheckOverlap | src/IntMultipliers/IntTilingMult.cpp:1306-1342 | true exactly when a non-null block of lower index overlaps block index |
| Tiling.SortDSPs | src/IntMultipliers/IntTilingMult.cpp:1079-1092 | the configuration is permuted so that x+y of the top-right corners is non-decreasing |
| Tiling.ExchangePass | src/IntMultipliers/IntTilingMult.cpp:1081-1091 | one pass of the outer loop extends the sorted prefix by one position and permutes the configuration |
| Tiling.ConvertCoordinatesKeepNeg | src/IntMultipliers/IntTilingMult.cpp:2072-2078 | the extra width and height are subtracted from the corners, keeping the block's size |
| Tiling.ConvertCoordinates | src/IntMultipliers/IntTilingMult.cpp:2061-2070 | the same conversion with the bottom-left corner clamped to wInX-1 and wInY-1 |
| Tiling.Displacements | src/IntMultipliers/IntTilingMult.cpp:1398-1445 | below the predecessor, left of it, and a third displacement that depends on the target |
| Tiling.Candidates | src/IntMultipliers/IntTilingMult.cpp:1446-1452 | every position kept lies strictly inside the board, and there are at most three |
| Tiling.TrialPositions | src/IntMultipliers/IntTilingMult.cpp:1445-1452 | the positions pushed are the displaced corners that lie on the board, at most three, the third one only under the corrected Stratix guard |
| Tiling.StratixIIIDiagonalDropped | src/IntMultipliers/IntTilingMult.cpp:1445 | as written, a square 18x18 predecessor at (30, 30) on StratixIII gets two trial positions; the corrected guard adds the diagonal (12, 48) |
| Tiling.ExtraPositionDifference | src/IntMultipliers/IntTilingMult.cpp:1445 | the written and corrected guards differ only for StratixIII with a square predecessor |
| Tiling.InitTiling | src/IntMultipliers/IntTilingMult.cpp:1518-1546 | nrDSPs entries, null past dspCount; entry i is where block i was placed, or the board corner when no place was found |
| Tiling.Emulate | src/IntMultipliers/IntTilingMult.cpp:1227-1235 | the expected output, the product X*Y, fits in wX+wY bits |
| TruncTiling.ValidPositionStaircase | src/IntTruncMultiplier.cpp:1741-1761 | a valid position is on the board, x <= y for a squarer and x <= y+offset past the truncation line; without those constraints validity is exactly the board bounds |
| TruncTiling.MirrorKeepNeg | src/IntTruncMultiplier.cpp:2427-2434 | the corners are mirrored through vnme/vmme, keeping the block's size and well-formedness |
| TruncTiling.MirrorInvolution | src/IntTruncMultiplier.cpp:2427-2434 | mirroring twice gives the block back |
| TruncTiling.Mirror | src/IntTruncMultiplier.cpp:2402-2424 | the mirrored corners clamped: the bottom-left corner from above to wInX-1 and wInY-1, the top-right corner from below to 0 |
| TruncTiling.MirrorClamp | src/IntTruncMultiplier.cpp:2415-2424 | a mirrored block already inside the input ranges is unchanged by the clamps, and a well-formed one that meets them stays well-formed inside them |
| TruncTiling.SortDSPs | src/IntTruncMultiplier.cpp:1424-1451 | the configuration is permuted into descending order: larger y first, then larger x |
| TruncTiling.ExchangePass | src/IntTruncMultiplier.cpp:1427-1449 | one pass of the outer loop extends the descending prefix by one position and permutes the configuration |
| TruncTiling.EvalMaxValue | src/IntTruncMultiplier.cpp:328-343 | (2^w-1)(2^h-1) bounds every product of a w-bit and an h-bit number and fits in w+h bits |
| TruncTiling.Emulate | src/IntTruncMultiplier.cpp:3340-3351 | two outputs q and q+1 with q*2^k <= X*Y < (q+1)*2^k |
| TruncTiling.CountPlaced | src/IntTruncMultiplier.cpp:2216-2220 | DSPcount is the number of non-null entries |
| TruncTiling.StratixCount | src/IntTruncMultiplier.cpp:2310-2322 | the histogram loop counts how many DSPs have 1, 2 and 3 adders (n1, n2, n3), and the result is DSPcount - n1/2 - 2*n2/3 - 3*n3/4 in integer division |
| TruncTiling.BoundCountRange | src/IntTruncMultiplier.cpp:2305-2322 | the count never exceeds the number of DSPs and is at least a quarter of it |
| LogArch.Stages | src/fplog/LogArch.cpp:61-94 | stages is the last i with 2*p[i] < wF+2, and 2*p[stages+1] >= wF+2 |
| LogArch.StagesBound | src/fplog/LogArch.cpp:61 | no stage with 2*p < wF+2 lies past the last one |
| LogArch.StagesExact | src/fplog/LogArch.cpp:61-94 | the first index with 2*p >= wF+2 is stages+1 |
| LogArch.ChainPrecision | src/fplog/LogArch.cpp:47-63 | p[k] = 0 for k = 0, p[1] = a[0]-1 = 4, then 3 more per stage |
| LogArch.StagesFitTarget | src/fplog/LogArch.cpp:64-84 | s+p never exceeds target_prec; a stage truncates exactly when the untruncated size would pass it, then s+p = target_prec; otherwise s = sbt = s[i-1]+p[i-1]+2 |
| LogArch.TruncationPersists | src/fplog/LogArch.cpp:64-84 | once a stage truncates, the next one does too |
| LogArch.SizesPositive | src/fplog/LogArch.cpp:64-84 | every s is positive, and 0 < psize <= s |
| LogArch.FullSizeBound | src/fplog/LogArch.cpp:47-88 | the full Z size is at least s+5 |
| LogArch.StageTurn | src/fplog/LogArch.cpp:62-87 | one loop turn yields psize[i] and stage i+1 as the recurrence defines them: all of s[i] and no truncation when p[i+1]+sbt[i+1] <= target_prec, else psize = min(target_prec-2p[i], s[i]) and s[i+1] = target_prec-p[i+1] |
| LogArch.LogArch.constructor | src/fplog/LogArch.cpp:41-94 | target_prec = wF+((wF+1)>>1)+3, stages as above, and the stage arrays follow the recurrence up to stages+1 |
| FixRealKcm.Split | src/ConstMult/FixRealKCMBH.cpp:106-137 | the digit sizes are the layout: [wIn] when wIn <= lutWidth; otherwise lutWidth, then lutWidth-1 bits per digit with the last one r taking what is left, except that when r <= lutWidth/2 and a digit precedes it, r goes into digit 1 and the split has one digit fewer (18 bits, lutWidth 6: 6, 7, 5); they also meet the shape: sum wIn, every digit at least one bit |
| FixRealKcm.LayoutShape | src/ConstMult/FixRealKCMBH.cpp:106-137 | every layout sums to wIn, has a first digit of lutWidth bits (or is the single digit wIn), digit 1 of at most lutWidth-1+lutWidth/2 bits, lutWidth-1 bits in between and a last digit of three or more that is full or more than half full |
| FixRealKcm.LayoutExample | src/ConstMult/FixRealKCMBH.cpp:106-137 | 18 bits with 6-input LUTs are cut 6, 7, 5 |
| FixRealKcm.FillDigits | src/ConstMult/FixRealKCMBH.cpp:112-118 | the loop appends lutWidth-1-bit digits until they cover wIn, stopping at the first that does |
| FixRealKcm.SetLast | src/ConstMult/FixRealKCMBH.cpp:120 | the last digit takes what is left, so the digits sum to wIn |
| FixRealKcm.MergeLast | src/ConstMult/FixRealKCMBH.cpp:122-137 | after the merge of the last digit r into digit 1 and the second pass, the digits are the layout |
| FixRealKcm.SecondPass | src/ConstMult/FixRealKCMBH.cpp:126-136 | from digits 0 and 1 after the merge, the second pass ends on the digit c the first pass ended on: c digits, digit 1 of lutWidth-1+r bits and lutWidth-1 bits after it; for c = 1 it adds none and the digits are lutWidth, r; the digits then meet the shape |
| FixRealKcm.UnsetDigitCounted | src/ConstMult/FixRealKCMBH.cpp:122-137 | as written, an input of at most lutWidth/2 bits is counted as two or more tables |
| FixRealKcm.UnsetDigitExample | src/ConstMult/FixRealKCMBH.cpp:122-137 | with 6-input LUTs and a 2-bit input the count as written is 2 or 4, depending on the unset diSize[1] |
| FixRealKcm.NeededGuardBits | src/ConstMult/FixRealKCMBH.cpp:635-684 | for a target error of 1/2 + 2^-k ulps: no guard bits for at most two tables and k = 1 (one ulp), otherwise g = ceil(log2 nbOfTables) + k - 1, whatever lsbOut; nbOfTables is the layout's length; none when wIn < 2*lutWidth and k = 1 |
| FixRealKcm.TableCount | src/ConstMult/FixRealKCMBH.cpp:145-190 | one table exactly when wIn <= lutWidth+1, otherwise at least two |
| FixRealKcm.TableDigitSigned | src/ConstMult/FixRealKCMBH.cpp:734-740 | the decoded digit is the two's-complement value of the address, congruent to it modulo 2^wIn |
| FixRealKcm.TableValue | src/ConstMult/FixRealKCMBH.cpp:705-777 | the entry is the product, plus 2^wOut exactly when the signed digit was negative |
| FixRealKcm.TableValueEncodes | src/ConstMult/FixRealKCMBH.cpp:771-775 | a negative product of at most wOut bits becomes its wOut-bit two's-complement pattern |
| IntIntKcm.NewKcm | src/ConstMult/IntIntKCM.cpp:40-43 | a negative constant is rejected; wOut = intlog2(C)+wIn, so C < 2^(wOut-wIn) |
| IntIntKcm.DigitsCoverInput | src/ConstMult/IntIntKCM.cpp:181-182 | nbOfTables = ceil(wIn/lutWidth) and the full digits plus lastLutWidth make up wIn |
| IntIntKcm.SignExtend | src/ConstMult/IntIntKCM.cpp:199-202 | sign extension keeps the two's-complement value |
| IntIntKcm.TopDigit | src/ConstMult/IntIntKCM.cpp:197-206 | the top digit, sign- or zero-extended to one LUT, is a lutWidth-bit pattern (its value is stated by DigitsRecombine) |
| IntIntKcm.DigitsRecombine | src/ConstMult/IntIntKCM.cpp:193-207 | the low digits plus the top digit at its weight give X back, unsigned or in two's complement |
| IntIntKcm.InputValue | src/ConstMult/IntIntKCM.cpp:300-307 | a signed X above 2^(wIn-1)-1 is decoded as X-2^wIn |
| IntIntKcm.Emulate | src/ConstMult/IntIntKCM.cpp:308-317 | the expected output is congruent to X*C modulo 2^wOut |
| IntIntKcm.EmulateFits | src/ConstMult/IntIntKCM.cpp:300-317 | for a constructed multiplier the output is a wOut-bit pattern: the product fits |
| IntAdder.UpdateParameters | src/IntAdder.cpp:977-988 | wIn == alpha gives k = 1, beta = 0; otherwise (k-1)*alpha + beta = wIn with 0 < beta <= alpha |
| IntAdder.ChunksCover | src/IntAdder.cpp:100-116 | the chunk sizes add up to wIn |
| IntAdder.Chunks | src/IntAdder.cpp:100-122 | cSize is the chunk layout (one chunk of wIn when k <= 1) and cIndex holds its prefix sums |
| IntAdder.RunningSums | src/IntAdder.cpp:119-122 | cIndex[i] is the sum of the sizes of chunks 0 to i |
| IntAdder.Emulate | src/IntAdder.cpp:1113-1123 | for in-range inputs, X+Y+Cin modulo 2^wIn |
| IntAdder.Best | src/IntAdder.cpp:463-474 | the index of a minimal cost among classical, alternative and short-latency; a non-classical choice only when strictly cheaper than classical, short-latency only when strictly cheaper than alternative |
| IntAdder.ImplementationSelector | src/IntAdder.cpp:450-532 | an architecture is chosen only on the Xilinx targets with a known objective; latency selects short-latency |
| IntAdder.SelectionNoWorse | src/IntAdder.cpp:454-514 | the chosen architecture never costs more than the classical one, and a non-classical one costs strictly less |
| IntAdder.LutCostClosedForm | src/IntAdder.cpp:535-548 | wIn LUTs up to two chunks, 4wIn-5alpha-beta beyond, never below wIn |
| IntSquarer.NbSlices | src/IntSquarerBitheap.cpp:393-395 | nbSlices = ceil(wIn/17) |
| IntSquarer.SquareOfTotal | src/IntSquarerBitheap.cpp:429-458 | the square of a sum of slices is the sum of their squares plus all doubled cross products |
| IntSquarer.AddProduct | src/IntSquarerBitheap.cpp:434-441 | the 34 bits of a sub-product placed at offset add v*2^offset to the heap |
| IntSquarer.AddSquares | src/IntSquarerBitheap.cpp:429-442 | the squares at weight 34i sum to the sum of the squared slice terms |
| IntSquarer.AddCrossProducts | src/IntSquarerBitheap.cpp:444-458 | the cross products at weight 17(i+j)+1 add every doubled cross product |
| IntSquarer.AddRow | src/IntSquarerBitheap.cpp:446-457 | the products of slice i with the later slices, at weight 17(i+j)+1, add row i of the doubled cross products |
| IntSquarer.Squarer | src/IntSquarerBitheap.cpp:385-458 | the slices are the 17-bit chunks of X, the heap's bits sum to X*X, and the result equals emulate's X*X |
| IntSquarer.HeapIsSquare | src/IntSquarerBitheap.cpp:398-458 | with the padding of X to 17*nbSlices bits, squares plus cross products give X*X |
| IntSquarer.SquareFits | src/IntSquarerBitheap.cpp:508-513 | X*X of a wIn-bit X fits in the 2wIn-bit output, so emulate's product needs no wrap |
| Karatsuba.ZeroString | src/Karatsuba.cpp:261-283 | n zeros (none for n <= 0): bare for -2, a left quote for -1, a right quote for 1, both quotes otherwise |
| Karatsuba.ZeroGenerator | src/Karatsuba.cpp:261-283 | the loop and switch build the same string |
| Karatsuba.BasisBits | src/Karatsuba.cpp:177-181 | basisBits = ceil(termWidth/2) |
| Karatsuba.SplitShape | src/Karatsuba.cpp:172-235 | the recursion stops exactly when L-R+1 <= multiplierXWidth; otherwise the low half has basisBits bits from R, the high half the rest up to L, the sums basisBits+1 bits, and each recursive call is narrower |
| Karatsuba.ProductCorrect | src/Karatsuba.cpp:160-250 | the three-product construction computes X*Y |
| CoilSimulation.UnsignedBinary | src/apps/CoilInductance/CoilSimulation.cpp:849-872 | a negative x is an error; otherwise size characters of '0'/'1', most significant first, spelling x when x < 2^size |
| CoilSimulation.BinaryValueBits | src/apps/CoilInductance/CoilSimulation.cpp:861-869 | character i of the output is bit size-1-i of the number it spells |

## Left out

- VHDL text emission, signal naming, pipelining and timing (`vhdl <<`, `declare`,
  `nextCycle`, critical paths, delays): these print text and carry no integer semantics.
- The MPFR and double numerics: the KCM tables' constant and rounding (`FixRealKcm.TableValue`
  takes the rounded product as a parameter), `LogArch::simulate`, and the floating-point cost
  models and searches of the tiling multipliers (`tilingAlgorithm`, `computeCost`, simulated
  annealing, `bindDSPs4Virtex`). They depend on floating point, `clock()` or `rand()`.
- Tiling.InitTiling: the `replace` search that places each block is not modelled. Its outcome
  is a parameter, and only the candidate positions it tries are modelled (`Tiling.TrialPositions`).
- TruncTiling.StratixCount: the pairing loop of `bindDSPs4Stratix`, which sets each DSP's adder
  count through its operand links, is not modelled. The counts are a parameter, required to be
  1 to 3, because the source indexes `pair[count-1]`.
- TruncTiling.EvalMaxValue: the source computes with MPFR. The model uses exact integers, so
  the value is the same.
- IntMultiplierLegacy.IntMultiplier.CheckTiling: the source's `ceil` on doubles is modelled as
  exact integer ceiling division.
- IntAdder.ImplementationSelector: the alternative and short-latency cost functions and the
  input-slack variants of `updateParameters` are not modelled. Their costs are parameters. The
  "Error in cost evaluation" branch needs a minimum equal to none of the three costs, which
  cannot happen.
- IntConstMult.BuildMultBoothTree: `provideShiftAddOp` shares equal sub-DAG nodes. The model
  builds a tree with the same constant and depth bound, and the node sharing is not modelled.
  The constant must be at least 1. For 0 the first scan of `buildMultBoothTree` runs past the
  end of `BoothCode`.
- BitHeapModel.BitHeap.constructor: the source never initialises `minWeight`, and the model
  sets it to 0. The bits' cycles and critical paths are parameters of `AddBit` and are not
  computed, and the operator's cycle and critical path that `concatenateLSBColumns` sets from
  `getLatestBit` are not kept.
- BitHeapModel.BitHeap.GetLatestBit: a bit's critical path at its own cycle is taken to be the
  one it was created with; `WeightedBit::getCriticalPath` is not part of this model. Cycles and
  critical paths are integers here, doubles in the source.
- UserInterface.ParseIntAtLeast: the default comes from
  `getFactoryByName(args[0])->getDefaultParamVal(key)` in the source and is a parameter here.
  The same holds for `ParseBoolean` and `ParseFloat`.
- UserInterface.ParseFloat: `stod` is modelled for decimal numerals with an optional exponent.
  Hexadecimal numbers, `inf` and `nan` are not. A value outside the 32-bit `int` range is an
  error, where the C++ conversion is undefined. The rounding of `stod` to the nearest double is
  not modelled: the model truncates the exact decimal value. The two agree on numerals of at
  most 15 digits (`UserInterface.FloatValueTruncates`) and can differ beyond: the source stores
  1 for "0.99999999999999999" and the model 0, and "2147483647.9999999" rounds to 2^31 in the
  source, whose conversion to int is then undefined, while the model gives 2147483647. The
  underflow error is not modelled either: for a nonzero numeral below the smallest normal
  double, such as "1e-400", `stod` throws `out_of_range`, and the model gives 0.
- UserInterface.FloatValueTruncates: stated for numerals of at most 15 digits without an
  exponent, the range where the nearest double cannot reach a + 1.
- UserInterface.ParseAll: `initialize()`, the printing of the documentation and the
  construction of the operators from their specs are not modelled. The result names which of
  these would run.
- LogArch.LogArch.constructor: the table objects are not modelled. The fixed-size stage arrays
  of the header are not modelled either: the model's arrays hold `stages+2` entries.
- FixRealKcm.Split: the source's `diSize` buffer has 714 entries and the model's is sized to
  the input. A larger input would overflow the source's buffer. The second constructor of
  `FixRealKCMBH` repeats the same split and is not modelled separately.
- Karatsuba.ProductCorrect: requires a multiplier width of at least 3. With width 2 or less a
  3-bit term splits into a 3-bit sum again, so the source's recursion does not terminate.
  `Karatsuba.SplitShape` states that case.
- CoilSimulation.UnsignedBinary: for x >= 2^size the contract states only the length and the
  alphabet of the output. The source then produces all ones.
- IntIntKcm: the KCM tables and the adder tree that sums their outputs are not modelled, only
  the widths, the digit split and `emulate`.
- IntSquarer.Squarer: bits carry values rather than signal names. The compression of the bit
  heap is not modelled. The model's heap keeps the bits of weight 2*wIn and above, which the
  source's `addBit` drops; they are all zero, because each weighted sub-product is at most
  X*X < 2^(2*wIn), but the model does not prove this bit by bit.
- FixRealKcm.NeededGuardBits: only a target error of 1/2 + 2^-k ulps is modelled, which covers
  the one-ulp default (k = 1). For other values of `targetUlpError`, such as the ones the IIR
  filters pass, the logarithm is not of a power of two, and the floating-point `ceil(log2(...))`
  is not modelled.
- BitHeapModel.InsertSorted: the order of bits in a column is `WeightedBit::operator<=`, which
  is defined in `WeightedBit.hpp`; that file is not part of this model. The order is taken to be
  lexicographic on (cycle, critical path).
- The regression script `release_test.py` is not part of this model.

## Findings

| source | as written | input that shows it | evidently intended | confidence | as-written member | corrected member |
|---|---|---|---|---|---|---|
| src/IntMultiplier.cpp:1210-1211 | a negative table product is wrapped by adding 2^wOut, and then rounded from dx+dy bits to wOut bits | dx = dy = 2, signed, wOut = 3, index yx = 7 (x = -1, y = 1): the entry is 4 | wrap by 2^(dx+dy) before rounding, as `src/IntMult/IntMultiplier.cpp` does, giving 0 modulo 2^3 | high (not executed) | IntMultiplierLegacy.SmallMultTableRoundingCounterexample | IntMult.SmallMultTableEntry |
| src/IntMultipliers/IntTilingMult.cpp:1445 | the guard for the third trial position names StratixIV twice and StratixIII never | StratixIII, square 18x18 predecessor at (30, 30) on a 100x100 board: the diagonal (12, 48) is never tried | the three Stratix families whose displacement is computed at line 1443 | medium (not executed) | Tiling.StratixIIIDiagonalDropped | Tiling.TrialPositions |
| src/ConstMult/FixRealKCMBH.cpp:122-137 | the merge of a short last digit also runs when the first digit is the only one, adding into the never-written diSize[1] | wIn = 2, lutWidth = 6: nbOfTables is 2 or 4 depending on the garbage in diSize[1] | merge only when a digit precedes the last one; a single table | high (not executed) | FixRealKcm.UnsetDigitExample | FixRealKcm.Split |
