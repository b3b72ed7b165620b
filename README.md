# hashviz in Dafny

hashviz is a browser page that visualises hash digests. It has three tabs:

- **Avalanche.** It flips one bit of the input and shows how many digest bits change.
- **Visualisation.** It draws the bits of one digest as a grid.
- **Collision.** It hashes two inputs and says whether the digests are equal. A shipped ToyHash16 sample is a real collision.

Every tab draws the digest's bits as a 2D grid of cells, or as a 3D block of cubes. Clicking a cell selects or unselects that bit. The two avalanche grids share one selection.

This project models the integer logic under the page and proves what it promises. The modules follow the source files:

| module | file | models |
|---|---|---|
| `Common` | common.dfy | bytes, bits, `Option`/`Result`, `Min`/`Max`, ceiling division, decimal rendering, small arithmetic lemmas |
| `BitArith` | bitarith.dfy | `^`, `&`, `1 << k` and popcount on naturals, defined bit by bit |
| `Utils` | utils.js | `sanitizeInput`, `safeParseInt`, `toHex`, `hexToBytes`, the `base64ToBytes` checks, `bytesToBits`, `countBitDiff` |
| `HashEngines` | hash-engines.js | `algoBitLength`, `toyHash16`, the dispatch of `digest` |
| `Statistics` | js/statistics.js | the integer fields of `calculateHashStatistics` |
| `Canvas2D` | js/canvas-2d.js | grid dimensions, the cell fit, the cell loop, selection marks, `getBitIndexFromClick` |
| `Canvas3D` | js/canvas-3d.js | 3D dimensions, index to (layer, row, column) to (x, y, z), the cube loop, the placeholder loop |
| `Interactions` | js/interactions.js, js/utils.js | the `selectedBits` / `canvasBitData` state as a class. `handleCanvasClick` and the per-run resets are its methods |
| `App` | js/app.js | `decodeInput`, the avalanche flip, `showInputDifferences`, the collision verdict, the three run handlers |
| `Legacy` | script.js | the older single-file version where it differs: prefix-only `countBitDiff`, `highlightCharDiff`, the demo-sample badge rule |

## How the model is built

**Imperative code stays imperative.** Loops in the source are methods with loops here. Each method is proved equal to a specification function, and the properties are lemmas about that function. Examples:

- `Statistics.CalculateHashStatistics` is proved equal to `Statistics.HashStatistics`.
- `Utils.CountBitDiff` runs the `xor &= xor - 1` loop and is proved equal to `Utils.BitDiff`.

**The selection state is a class.** `Interactions.ViewState` maps canvas ids to `Interactions.BitSet` objects. A click changes a `BitSet` in place, as the JavaScript `Set` is changed. The invariant `Valid()` says no two canvases share one `Set` object. That invariant is why a click on one canvas changes no other.

**Integer-only layout.** The layout functions work on integer canvas coordinates:

- `⌈√n⌉` is the least c with c·c ≥ n.
- The 3D fallback's `layers` and `rows` are positive parameters.

**Foreign calls are parameters.** `TextEncoder`, `atob`, the MD5 library and `crypto.subtle.digest` are passed in as functions. `escapeHtml` is an abstract function from a character to a string.

**Duplicate code is modelled once.** In script.js, `hexToBytes` (29-44), `bytesToBits` (62-68), `decodeByEncoding` (279-284) and the avalanche flip (172-185) are the same code as `hexToBytes`, `bytesToBits`, `decodeInput` and the flip in js/. Their models are `Utils.HexToBytes`, `Utils.BytesToBits`, `App.DecodeInput` and `App.AvalanchePair`.

**Two readings of the code:**

- `hexToBytes` strips one leading `0x` and no more. So `hexToBytes("0x" + h)` equals `hexToBytes(h)` only when `h`, trimmed, does not itself start with `0x`. `Utils.HexPrefixIgnored` proves it under that condition. `Utils.DoublePrefixRejected` and `Utils.SinglePrefixDecodes` show the case where it fails.
- The hex round trip needs `2·|b| ≤ 20000000`, which is the code's size limit.

## Model

| member | source | states |
|---|---|---|
| Utils.SanitizeInput | js/utils.js:34-38 | A non-string gives ""; no character of the result is one of the removed control characters |
| Utils.StripControls | js/utils.js:37 | The result is no longer than the input and holds none of the code points 0x00-0x08, 0x0B, 0x0C, 0x0E-0x1F, 0x7F |
| Utils.IsStrippedControl | js/utils.js:37 | The removed class keeps tab, LF and CR and holds only code points below 0x20 and 0x7F |
| Utils.StripControlsCounts | js/utils.js:37 | Exactly those code points are removed: each other character occurs as often as in the input, a removed one never |
| Utils.StripControlsAppend | js/utils.js:37 | The global replace works piece by piece: filtering a + b is filtering a followed by filtering b |
| Utils.StripControlsKeepsClean | js/utils.js:37 | A string without those code points is returned unchanged |
| Utils.SanitizeInputIdempotent | js/utils.js:34-38 | Sanitising twice is sanitising once |
| Utils.TrimStart | js/utils.js:59 | String.prototype.trim's left half never lengthens the string, leaves no leading whitespace and keeps the last character |
| Utils.IsJsWhitespace | js/utils.js:59 | The whitespace of trim() and `\s` includes space, tab, LF and CR, and no hex digit, base64 letter, `+`, `/` or `=` |
| Utils.TrimEnd | js/utils.js:59 | String.prototype.trim's right half never lengthens the string and leaves no trailing whitespace |
| Utils.Trim | js/utils.js:59 | trim() never lengthens the string, its result neither starts nor ends with whitespace, and a string with no whitespace at either end is returned unchanged |
| Utils.RemoveWhitespace | js/utils.js:59 | `replace(/\s+/g, "")` leaves no whitespace and never lengthens the string |
| Utils.RemoveWhitespaceAppend | js/utils.js:59 | Removing whitespace works piece by piece over a concatenation |
| Utils.RemoveWhitespaceTrimStart | js/utils.js:59 | Trimming the start first makes no difference once all whitespace is removed |
| Utils.RemoveWhitespaceTrimEnd | js/utils.js:59 | Trimming the end first makes no difference once all whitespace is removed |
| Utils.RemoveWhitespaceKeepsClean | js/utils.js:59 | A string with no whitespace is unchanged |
| Utils.CleanHex | js/utils.js:59 | The cleaned hex text is never longer than the argument |
| Utils.StripHexPrefix | js/utils.js:59 | `replace(/^0x/, "")` removes one leading `0x` when present and otherwise returns the text unchanged |
| Utils.IsHexChar | js/utils.js:61 | Every lowercase digit toString(16) writes is in `[0-9a-fA-F]`, and no character of that class is whitespace or a removed control character |
| Utils.HexDigit | js/utils.js:55 | A nibble is rendered as a lowercase hex digit |
| Utils.ByteHex | js/utils.js:55 | `toString(16).padStart(2, "0")` is always two characters |
| Utils.ToHex | js/utils.js:53-56 | toHex(b) has length 2·\|b\| and uses lowercase hex digits only |
| Utils.ToHexAt | js/utils.js:53-56 | Characters 2k and 2k+1 of toHex(b) are the high and low nibble of b[k] |
| Utils.HexValue | js/utils.js:71 | parseInt(c, 16) of a hex digit is below 16 |
| Utils.HexDigitValue | js/utils.js:55-71 | parseInt reads back the digit toString(16) wrote |
| Utils.HexPairs | js/utils.js:70-71 | The decoded array has half the cleaned length; entry i is the value of characters 2i and 2i+1 |
| Utils.HexDecode | js/utils.js:58-73 | Invalid-hex error exactly when a cleaned character is not hex; odd-length error exactly on odd cleaned length; success exactly for even, valid text within 20000000 characters, with every byte read from its pair |
| Utils.HexToBytes | js/utils.js:58-73 | The validating, array-filling loop returns HexDecode's result; on success the array is half the cleaned length |
| Utils.HexRoundTrip | js/utils.js:53-73 | hexToBytes(toHex(b)) == b within the size limit |
| Utils.PairsOfHex | js/utils.js:53-71 | toHex's output is valid, even-length hex whose pairs read back as b |
| Utils.CleanOfHexString | js/utils.js:59 | Cleaning leaves toHex's output as it is |
| Utils.ToHexInjective | js/utils.js:53-56 | toHex(a) == toHex(b) exactly when a == b |
| Utils.HexDigitInjective | js/utils.js:55 | Different nibbles give different digits |
| Utils.NibblesDetermineByte | js/utils.js:55 | A byte is determined by its two nibbles |
| Utils.HexPrefixIgnored | js/utils.js:59 | hexToBytes("0x" + h) == hexToBytes(h) when trimmed h does not itself start with 0x |
| Utils.CleanOfPrefixed | js/utils.js:59 | Behind a leading "0x", cleaning strips that prefix and every whitespace character |
| Utils.TrimEndBehindPrefix | js/utils.js:59 | Trimming the end of "0x" + h trims the end of h |
| Utils.DoublePrefixRejected | js/utils.js:59-63 | Only one prefix is removed: "0x0x12" is invalid hex |
| Utils.SinglePrefixDecodes | js/utils.js:59-72 | "0x12", with a single prefix, decodes to [0x12] |
| Utils.HexWhitespaceIgnored | js/utils.js:59 | Two arguments equal up to whitespace, neither trimmed one 0x-prefixed, decode alike |
| Utils.CleanIsRemoveWhitespace | js/utils.js:59 | Without a 0x prefix, cleaning is removing all whitespace |
| Utils.DigitRun | js/utils.js:42 | parseInt reads the longest prefix of decimal digits, stopping at the first non-digit |
| Utils.ParseInt | js/utils.js:42 | parseInt(s, 10): NaN for a blank string; a number ≥ 0 when the trimmed text starts with a digit; a number only when the trimmed text starts with a digit or a sign followed by a digit; a negative number only after a `-` sign |
| Utils.SafeParseInt | js/utils.js:41-47 | defaultVal when parsing fails; otherwise min below min, max above max and the number itself in between, so within [min, max] when min ≤ max |
| Utils.DigitsValueOfDecimal | js/utils.js:42 | The digit value of a decimal rendering is the number rendered |
| Utils.DigitRunAll | js/utils.js:42 | An all-digit string is read to its end |
| Utils.ParseIntOfDecimal | js/utils.js:42 | parseInt reads back the decimal rendering of every natural number |
| Utils.SafeParseIntOfDecimal | js/utils.js:41-47 | A rendered number inside [min, max] comes back unchanged |
| Utils.ParseIntExample | js/utils.js:42 | Leading whitespace is skipped and trailing junk ignored: " 12px" is 12 |
| Utils.ParseIntNegative | js/utils.js:42 | "-7" is -7 |
| Utils.ParseIntNaN | js/utils.js:42-43 | "px" and "" are NaN, so safeParseInt returns the default |
| Utils.Base64Body | js/utils.js:79 | The `[A-Za-z0-9+/]*` part of the pattern is the longest prefix of base64 letters |
| Utils.MatchesBase64Pattern | js/utils.js:79 | A text matching `/^[A-Za-z0-9+/]*={0,2}$/` is base64 letters followed by at most two `=` |
| Utils.Base64Check | js/utils.js:77-83 | On success the trimmed text, at most 13333334 characters, made of base64 letters followed by at most two `=`; the invalid-base64 error exactly when the trimmed text fails `^[A-Za-z0-9+/]*={0,2}$` |
| Utils.Base64ToBytes | js/utils.js:75-91 | Succeeds exactly when the checks pass and atob accepts, with atob's bytes; invalid-base64 and too-large errors exactly in their cases |
| Utils.Base64PatternComplete | js/utils.js:79 | Letters followed by at most two `=` match the pattern |
| Utils.Base64BodyOfShape | js/utils.js:79 | In such a string the letters end where the `=` begin |
| Utils.ByteBits | js/utils.js:96 | The inner loop pushes 8 bits per byte |
| Utils.BitsOf | js/utils.js:93-99 | bytesToBits(b) has length 8·\|b\|; element 8k + j is bit 7 - j of b[k], most significant first |
| Utils.BitsOfAppend | js/utils.js:95-97 | One more byte appends its 8 bits |
| Utils.BytesToBits | js/utils.js:93-99 | The push loop returns BitsOf(bytes) |
| Utils.CountBitDiff | js/utils.js:101-109 | -1 on unequal lengths, else the popcount of every a[i] ^ b[i] summed; the `xor &= xor - 1` loop terminates |
| Utils.HammingSymmetric | js/utils.js:104-107 | The bit distance is symmetric |
| Utils.HammingZeroIff | js/utils.js:104-107 | For equal lengths the distance is 0 exactly when a == b |
| Utils.BitDiff | js/utils.js:101-109 | countBitDiff is -1 exactly on unequal lengths, and otherwise lies between 0 and 8·\|a\| |
| Utils.Hamming | js/utils.js:104-107 | The summed popcounts are at most 8 bits per compared byte |
| Utils.BitDiffProperties | js/utils.js:101-109 | -1 exactly on unequal lengths; symmetric; 0 exactly when a == b; between 0 and 8·\|a\| |
| BitArith.Pow2 | js/app.js:32 | `1 << k` is positive |
| BitArith.BitAt | js/utils.js:96 | `(x >> i) & 1` is 0 or 1 |
| BitArith.Xor | js/utils.js:105 | `x ^ y` is at most x + y and has the parity of x + y |
| BitArith.And | js/utils.js:106 | `x & y` is at most each operand |
| BitArith.Popcount | js/utils.js:106 | The number of set bits is at most x, and at least 1 when x > 0 |
| BitArith.XorCommutes | js/utils.js:105 | `^` commutes |
| BitArith.XorZeroIff | js/utils.js:105-106 | x ^ y is 0 exactly when x == y |
| BitArith.XorBelowPow2 | js/app.js:32 | XOR of two k-bit values is a k-bit value |
| BitArith.XorWithZero | js/utils.js:105 | x ^ 0 == x |
| BitArith.XorCancels | js/app.js:32 | x ^ (x ^ m) == m |
| BitArith.XorBitAt | js/utils.js:105 | Bit i of x ^ y is the exclusive or of the two bits i |
| BitArith.XorHalves | js/utils.js:105 | The low bit and the high bits of x ^ y |
| BitArith.AndSelf | js/utils.js:106 | x & x == x |
| BitArith.ClearLowestSetBit | js/utils.js:106 | For x > 0, x & (x - 1) is smaller and has one set bit fewer, which is why the loop ends and counts the set bits |
| BitArith.PopcountZeroIff | js/utils.js:106 | Popcount is 0 exactly for 0 |
| BitArith.PopcountBelowPow2 | js/utils.js:106 | A k-bit value has at most k set bits |
| BitArith.PopcountPow2 | js/app.js:32 | `1 << k` has one set bit |
| BitArith.XorPow2BitAt | js/app.js:32 | x ^ (1 << k) inverts bit k and keeps every other bit |
| BitArith.XorPow2Changes | js/app.js:32 | Bit m of x ^ (1 << k) differs from bit m of x exactly when m == k |
| BitArith.Pow2BitAt | js/app.js:32 | `1 << k` has bit k set and no other |
| BitArith.Pow2Monotone | js/app.js:32 | Larger shifts give larger powers |
| HashEngines.AlgoBitLength | hash-engines.js:6-15 | Every name gets one of the five widths; an unknown name gets 256 |
| HashEngines.AlgoBitLengthTable | hash-engines.js:6-15 | SHA-1 160, SHA-256 256, SHA-512 512, MD5 128, ToyHash16 16; every width is a whole number of bytes |
| HashEngines.Sum | hash-engines.js:34 | The byte sum is at most 255 per byte, and 0 exactly when every byte is 0 |
| HashEngines.ToyDigest | hash-engines.js:32-37 | Two bytes, big-endian, holding the byte sum mod 65536 |
| HashEngines.ToyHash16 | hash-engines.js:32-37 | The `(sum + b) & 0xFFFF` loop returns ToyDigest(bytes) |
| HashEngines.ToyDigestWidth | hash-engines.js:12-36 | The digest has algoBitLength("ToyHash16") bits |
| HashEngines.ToyCollisionIff | hash-engines.js:32-37 | Two inputs collide exactly when their byte sums agree mod 65536 |
| HashEngines.ToyDigestEmpty | hash-engines.js:33-36 | The empty input gives [0, 0] |
| HashEngines.ToyDigestAppendZero | hash-engines.js:34 | Appending a zero byte does not change the digest |
| HashEngines.ToyDigestOrderIndependent | hash-engines.js:34 | Reordering the bytes does not change the digest |
| HashEngines.SumPermutation | hash-engines.js:34 | The byte sum depends only on the multiset of bytes |
| HashEngines.SumRemove | hash-engines.js:34 | Taking one byte out of the sum |
| HashEngines.ToySampleCollides | js/app.js:118-124 | The sample's bytes 41 42 and 83 have the same digest, 00 83 |
| HashEngines.SampleDecodes | js/app.js:121-123 | The sample's hex texts "4142" and "83" decode to those bytes |
| HashEngines.Digest | hash-engines.js:40-50 | MD5 goes to the MD5 routine and ToyHash16 to toyHash16, both always giving a digest; every other name goes to crypto.subtle.digest, whose rejection (None) is the only way to get no digest |
| HashEngines.DigestToyWidth | hash-engines.js:44-46 | digest("ToyHash16", d) never rejects and has 16 bits |
| Statistics.Ones | js/statistics.js:8 | The reduce counts at most \|bits\| ones |
| Statistics.Runs | js/statistics.js:20-43 | The runs of the bits; none exactly for no bits, and the last run has the last bit's value |
| Statistics.Extend | js/statistics.js:28-36 | A new bit ends up in the last run |
| Statistics.Block | js/statistics.js:28-29 | A block of n equal bits |
| Statistics.HashStatistics | js/statistics.js:6-67 | The record calculateHashStatistics returns: ones + zeros == totalBits == \|bits\| with zeros ≥ 0, runs1 + runs0 == runs, totalBytes == \|hashBytes\| and hexLength == 2·totalBytes |
| Statistics.CalculateHashStatistics | js/statistics.js:6-67 | The left-to-right scan and the 256-bucket tally return HashStatistics(hashBytes, bits) |
| Statistics.ScanRuns | js/statistics.js:21-43 | The run loop's runs, maxRun, runs1 and runs0 are the count, longest length (1 for no bits) and colour counts of Runs(bits) |
| Statistics.RunFinish | js/statistics.js:38-43 | The closing step adds the last run |
| Statistics.CountUniqueBytes | js/statistics.js:46-50 | The byteFreq tally counts the distinct byte values |
| Statistics.RunLengthsPositive | js/statistics.js:21-43 | Every run is non-empty; there are at most \|bits\| runs, none longer than \|bits\| |
| Statistics.RunsMaximal | js/statistics.js:28-36 | No two neighbouring runs have the same value |
| Statistics.RunsExpand | js/statistics.js:27-43 | Writing out the runs gives back the bits |
| Statistics.RunsCountIsChanges | js/statistics.js:27-43 | For non-empty bits, 1 + the number of i ≥ 1 with bits[i] != bits[i-1] |
| Statistics.CountsAddUp | js/statistics.js:31-32 | runs1 + runs0 == runs |
| Statistics.MaxLenIsLongest | js/statistics.js:33-41 | maxRun is at least every run's length and equals one of them |
| Statistics.OnesCounts | js/statistics.js:7-9 | ones is the number of 1 bits and zeros the number of 0 bits |
| Statistics.StatisticsLaws | js/statistics.js:6-67 | ones + zeros == totalBits == \|bits\|; runs1 + runs0 == runs; runs == 1 + changes and 1 ≤ runs, maxRun ≤ \|bits\| for non-empty bits; runs == runs1 == runs0 == 0 and maxRun == 1 for none; totalBytes and hexLength |
| Statistics.UniqueBytesBound | js/statistics.js:46-50 | uniqueBytes ≤ min(256, totalBytes) |
| Statistics.DistinctWithin256 | js/statistics.js:46 | At most 256 bucket values |
| Statistics.DistinctAtMostLength | js/statistics.js:47-49 | At most one new value per byte |
| Statistics.RunsUnique | js/statistics.js:27-43 | Any list of maximal non-empty runs that writes out the bits is Runs(bits) |
| Statistics.RunsSnoc | js/statistics.js:28-36 | Runs of p + [b] extends Runs(p) by b |
| Statistics.ExampleFF00 | js/statistics.js:6-66 | The statistics of [0xFF, 0x00] and bytesToBits([0xFF, 0x00]): 16 bits, 8 ones, 8 zeros, 2 runs, maxRun 8, one run of each colour, 2 unique bytes, hex length 4 |
| Statistics.FF00Bits | js/utils.js:93-99 | bytesToBits([0xFF, 0x00]) is eight 1 bits followed by eight 0 bits |
| Statistics.OnesOfBlock | js/statistics.js:8 | A block of n bits v has n·v ones |
| Statistics.OnesAppend | js/statistics.js:8 | ones adds up over a concatenation |
| Canvas2D.CeilSqrt | js/canvas-2d.js:33 | ⌈√n⌉: the least c with c·c ≥ n |
| Canvas2D.CeilSqrtUnique | js/canvas-2d.js:33 | Any c with c·c ≥ n > (c-1)·(c-1) is ⌈√n⌉ |
| Canvas2D.GridDims | js/canvas-2d.js:10-35 | For n > 0, at least one column and row, cols·rows ≥ n, and no row wholly unused; for any n outside the table, cols = ⌈√n⌉ and rows = ⌈n / cols⌉ |
| Canvas2D.GridDimsTable | js/canvas-2d.js:11-35 | 512 → 32 × 16, 256 → 16 × 16, 160 → 20 × 8, 128 → 16 × 8, 16 → 4 × 4, each filling its grid exactly; 300 bits give 18 × 17 |
| Canvas2D.FitCell | js/canvas-2d.js:38-48 | The largest square cell that fits both ways; offsets ≥ 0 centring the grid to within one pixel |
| Canvas2D.GridLayout | js/canvas-2d.js:10-48 | Uses the same table as drawGrid; the grid lies inside the canvas |
| Canvas2D.GridInsideCanvas | js/canvas-2d.js:38-48 | cell·cols + offsetX ≤ W and cell·rows + offsetY ≤ H |
| Canvas2D.DrawGrid | js/canvas-2d.js:6-68 | No cells for no bits; otherwise rows·cols cells, cell idx showing bits[idx] or 0 past the end |
| Canvas2D.GridCell | js/canvas-2d.js:54-60 | Cell idx is a square of side cell - 1, shows bits[idx] or 0 on padding, and lies inside the grid rectangle when idx < rows·cols |
| Canvas2D.CellLoop | js/canvas-2d.js:54-61 | The nested r/c loop yields cell r·cols + c at index r·cols + c |
| Canvas2D.DrawnBits | js/canvas-2d.js:54-60 | Every drawn cell lies inside the canvas |
| Canvas2D.CellInGrid | js/canvas-2d.js:56-59 | Cell idx's row and column stay inside the grid |
| Canvas2D.DrawSelectionMarks | js/canvas-2d.js:71-88 | Frames exactly the selected indices below bitLength, each once, at its cell |
| Canvas2D.MarkOnDrawnCell | js/canvas-2d.js:80-86 | A selection mark frames the very cell that shows that bit |
| Canvas2D.BitIndexFromClick | js/canvas-2d.js:91-143 | -1 or an index below n |
| Canvas2D.ClickIndex | js/canvas-2d.js:129-142 | -1 or an index below n, for any layout |
| Canvas2D.ClickInverse | js/canvas-2d.js:80-86 | A click inside the cell framed for bit i returns i |
| Canvas2D.ClickIndexInverse | js/canvas-2d.js:136-142 | The same for any layout that covers n |
| Canvas2D.ClickSound | js/canvas-2d.js:129-142 | A returned index's cell contains the click |
| Canvas2D.ClickIndexSound | js/canvas-2d.js:129-142 | The same for any layout |
| Canvas2D.ClickOnPadding | js/canvas-2d.js:142 | A click on a padding cell past the last bit returns -1 |
| Canvas3D.Dims3D | js/canvas-3d.js:75-92 | At least one row and layer, cols·rows·layers ≥ n; the fallback keeps the given layers and rows and uses the fewest columns |
| Canvas3D.Dims3DTable | js/canvas-3d.js:76-86 | 128 → 8 × 4 × 4, 160 → 8 × 5 × 4, 256 → 8 × 8 × 4, 512 → 8 × 8 × 8, 16 → 4 × 2 × 2 (cols × rows × layers), each filling its box exactly |
| Canvas3D.Decompose | js/canvas-3d.js:128-130 | i == zLayer·(cols·rows) + yRow·cols + xCol with xCol < cols, yRow < rows |
| Canvas3D.SlotIndexUnique | js/canvas-3d.js:128-130 | The decomposition of such an index gives back its parts |
| Canvas3D.DecomposeSlotIndex | js/canvas-3d.js:128-130 | Decompose inverts the index formula of the placeholder loop |
| Canvas3D.Remap | js/canvas-3d.js:133-135 | The mirrored coordinates keep the slot's index and map a slot inside the box to integer coordinates inside [0, rows) × [0, cols) × [0, layers) |
| Canvas3D.PlaceInBounds | js/canvas-3d.js:128-135 | For i inside the box, x < rows, y < cols, z < layers |
| Canvas3D.Place | js/canvas-3d.js:128-135 | The position of bit i determines i: undoing the remap gives i back |
| Canvas3D.PlaceInjective | js/canvas-3d.js:128-135 | Two indices share a position exactly when they are equal |
| Canvas3D.FirstBitCorner | js/canvas-3d.js:133-135 | Bit 0 goes to (rows-1, cols-1, layers-1) |
| Canvas3D.LookOf | js/canvas-3d.js:138-143 | The look shows both the selection and the bit |
| Canvas3D.LookOfInjective | js/canvas-3d.js:138-143 | The four (selected, bit) cases get four different looks |
| Canvas3D.Create3DFromBits | js/canvas-3d.js:62-167 | One cube per bit, cube i at Place(i) with the look of (i selected, bits[i]); a canvas without an entry has nothing selected |
| Canvas3D.CubesDistinctInBox | js/canvas-3d.js:122-162 | Every cube is inside the box and no two share a position |
| Canvas3D.CreatePlaceholder3D | js/canvas-3d.js:170-260 | min(bitCount, volume) wireframes, the k-th at index k's position |
| Canvas3D.WireframeLoop | js/canvas-3d.js:204-233 | The triple loop with its break places indices 0, 1, … in order, stopping at bitCount |
| Canvas3D.PlaceOfSlot | js/canvas-3d.js:207-217 | The placeholder's (zLayer, yRow, xCol) lands where create3DFromBits puts that index |
| Interactions.Partner | js/interactions.js:45 | The other avalanche canvas |
| Interactions.Toggle | js/interactions.js:35-39 | has ? delete : add flips i's membership and keeps every other index |
| Interactions.ToggleTwice | js/interactions.js:35-39 | Toggling twice restores the set |
| Interactions.ClickEffect | js/interactions.js:32-48 | No canvas loses its set; the clicked canvas gets the toggled set; after an avalanche click both avalanche sets are equal |
| Interactions.ClickFrame | js/interactions.js:44-65 | No other canvas changes; an avalanche click touches only the two avalanche sets |
| Interactions.ClickTwice | js/interactions.js:32-41 | Clicking a bit twice gives back the canvas's selection |
| Interactions.AfterClick | js/interactions.js:23-48 | No canvas loses its set; only the clicked canvas and the avalanche pair can change; any change means recorded bits and an index ≥ 0, with that index toggled on the clicked canvas |
| Interactions.ClickOnBit | js/interactions.js:29-41 | A click inside bit i's cell toggles exactly i |
| Interactions.BitSet.constructor | js/utils.js:12 | new Set() is empty |
| Interactions.BitSet.Copy | js/interactions.js:48 | new Set(src) has src's members |
| Interactions.BitSet.Add | js/interactions.js:38 | add(i) inserts i |
| Interactions.BitSet.Delete | js/interactions.js:36 | delete(i) removes i |
| Interactions.BitSet.ToggleBit | js/interactions.js:35-39 | The Set, changed in place, holds Toggle(old contents, i) |
| Interactions.ViewState.constructor | js/utils.js:11-20 | Five empty, unshared Sets under the five canvas ids; no bits recorded |
| Interactions.ViewState.DrawGridWithTracking | js/canvas-2d.js:146-149 | Stores bits under the id, replacing any entry, then draws; selections untouched |
| Interactions.ViewState.ClearSelection | js/app.js:41-42 | A fresh empty Set under the id; every other canvas keeps its Set object |
| Interactions.ViewState.HandleCanvasClick | js/interactions.js:23-67 | The selection becomes AfterClick of the old one: unchanged without recorded non-empty bits or with a negative index; otherwise toggled, and the partner given a fresh copy |
| Interactions.ViewState.ToggleSelection | js/interactions.js:32-41 | The canvas's Set, or a new one if missing, is toggled and stored; other canvases keep their Set objects |
| Interactions.ViewState.ToggleInPlace | js/interactions.js:35-39 | Changing the stored Set in place toggles that canvas's selection and changes no other canvas's selection |
| Interactions.ViewState.SyncPartner | js/interactions.js:44-48 | The partner gets a fresh Set equal to the clicked one |
| App.DecodeInput | js/app.js:144-149 | base64, hex or UTF-8 by name; any other name is an error |
| App.DecodeHexRoundTrip | js/app.js:146 | Hex produced by toHex decodes back to the bytes |
| App.Flipped | js/app.js:32 | The flip keeps the length |
| App.FlipStaysByte | js/app.js:32 | b ^ (1 << k) for k < 8 is still a byte |
| App.FlipIsOneBit | js/app.js:22-32 | countBitDiff(a, b) == 1 after the flip |
| App.FlipChangesBit | js/app.js:32 | The only bit of bytesToBits that changes is 8·byteIdx + 7 - bitIdx |
| App.FlipTwice | js/app.js:32 | Flipping the same bit twice restores the input |
| App.HammingPointUpdate | js/app.js:32 | Changing one byte changes the distance by the popcount of old ^ new |
| App.AvalanchePair | js/app.js:11-32 | Too long input, byte index out of range (with the shown bound max(0, \|a\|-1)), or the pair (a, a flipped at byteIdx, bitIdx) with bitIdx in 0..7 |
| App.AvalanchePairOneBit | js/app.js:19-32 | An accepted pair has equal lengths and differs in exactly one bit |
| App.AvalancheInputs | js/app.js:11-32 | Copying a and flipping in place gives AvalanchePair |
| App.ParsedIndicesInRange | js/app.js:19-20 | byteIdx lies in 0..9999 and bitIdx in 0..7, so the bit-range check never rejects |
| App.CellText | js/app.js:205-206 | Every cell is two characters |
| App.Separator | js/app.js:222-228 | At most one character; something exactly after every 4th byte, and a newline exactly after every 16th |
| App.Pieces | js/app.js:200-229 | One piece per position |
| App.PiecesAt | js/app.js:201-228 | Piece i shows its side's byte or `--`, highlighted exactly when the two sides differ at i, followed by a newline after every 16th byte or else a space after every 4th |
| App.Render | js/app.js:208-228 | With two-character cells the markup has at least two characters per piece, exactly two when nothing is highlighted and no separator follows |
| App.Markup | js/app.js:208-218 | A highlighted cell is wrapped in the diff-char span, and the separator comes last; the length counts the cell, the separator and the span tags |
| App.ShowInputDifferences | js/app.js:183-259 | A decoding error is passed on; otherwise both listings, the differences, the count, the total max(\|A\|, \|B\|) and the detail list |
| App.DiffListing | js/app.js:196-229 | The loop builds both listings and the difference list |
| App.DiffStep | js/app.js:201-228 | One loop iteration adds position i |
| App.RenderStep | js/app.js:208-228 | Rendering one more piece appends its markup |
| App.DiffDetails | js/app.js:243-251 | One line for each of the first min(count, 5) differences, with its position and both cells, then a "…他 N 箇所" line with N = count - 5 exactly when count > 5 |
| App.DifferencesExact | js/app.js:200-215 | Position i is listed exactly when i < max(\|A\|, \|B\|) and the bytes differ there, a missing byte counting as different |
| App.Differences | js/app.js:200-215 | At most n entries, every position below n |
| App.DifferencesIncreasing | js/app.js:201-215 | Positions are listed in increasing order |
| App.DifferencesValues | js/app.js:211-215 | Each entry holds both sides' cells at its position, and they differ |
| App.DifferencesGrow | js/app.js:208-215 | One more position extends the list by at most that position |
| App.NoDifferencesIffEqual | js/app.js:200-215 | No differences exactly when the inputs are equal |
| App.PiecesMarkedTogether | js/app.js:208-210 | Both sides highlight the same positions: position i is marked exactly when the bytes at i differ, a missing byte counting as different |
| App.SameDigestIff | js/app.js:331-333 | hexA === hexB exactly when the digests are equal |
| App.SameDigest | js/app.js:331-333 | Equal hex strings imply digests of equal length |
| App.DigestPair | js/app.js:34-35 | Both digests exactly when neither call rejects, and then the two digests in order |
| App.ToySampleVerdict | js/app.js:118-124 | The shipped ToyHash16 sample decodes, both digests are produced, and they get the "same" verdict |
| App.ToyAvalancheBounded | js/app.js:34-51 | Under ToyHash16 both digests are produced; the shown count lies in 0..16 and is 0 exactly when the digests agree |
| App.AvalancheReportOf | js/app.js:37-56 | Hex texts of length 2·\|digest\|, a count of -1 exactly for digests of unequal length, statistics over 8 bits per digest byte |
| App.AvalancheBounded | js/app.js:49-51 | For digests of the algorithm's width the shown count lies between 0 and that width and is 0 exactly when the digests are equal |
| App.Md5AvalancheBounded | js/app.js:34-51 | With 16-byte MD5 output both digests are produced; the count lies in 0..128 and is 0 exactly when the MD5 digests agree |
| App.AvalancheDigests | js/app.js:37-56 | The bit lists are bytesToBits of the digests, and the loop helpers compute AvalancheReportOf |
| App.RunAvalanche | js/app.js:8-63 | A rejected input or a rejected digest changes nothing and reports its error; otherwise the report of the two digests, both avalanche selections reset to empty and both bit lists recorded |
| App.ResetAndDraw | js/app.js:41-47 | Reset then record two canvases |
| App.RunVisualization | js/app.js:68-93 | A too long input changes nothing; otherwise viz-canvas's selection is reset first, and then a rejected digest reports its error with the recorded bits unchanged, while a digest gives hex and statistics and records its bits |
| App.CollisionInputs | js/app.js:284-299 | Missing-input error exactly when a trimmed, sanitised input is empty; success exactly when both decode |
| App.RunCollision | js/app.js:279-351 | An input error or a rejected digest changes nothing and reports its error; otherwise the report of the two digests, both collision selections reset and both bit lists recorded |
| App.CollisionReportOf | js/app.js:307-333 | The "same" badge appears exactly when the two hex texts are equal; statistics over 8 bits per digest byte |
| App.CollisionDigests | js/app.js:307-333 | The bit lists are bytesToBits of the digests, and the loop helpers compute CollisionReportOf |
| Legacy.BinaryString | script.js:73 | toString(2) has at least one digit |
| Legacy.BinaryOnes | script.js:73 | Removing the zeros of toString(2) leaves popcount(x) characters |
| Legacy.WithoutZeros | script.js:73 | replace(/0/g, "") never lengthens the string and leaves no `0` |
| Legacy.WithoutZerosKeepsOnes | script.js:73 | replace(/0/g, "") keeps every `1` |
| Legacy.CountBitDiffLegacy | script.js:69-76 | The loop counts the differing bits of the common prefix only |
| Legacy.PrefixBitDiff | script.js:69-76 | The common-prefix distance is at most 8·min(\|a\|, \|b\|) |
| Legacy.PrefixBitDiffProperties | script.js:69-76 | Symmetric, and equal to countBitDiff of js/utils.js on equal lengths |
| Legacy.PrefixBitDiffOfPrefix | script.js:71-74 | 0 when one digest is a prefix of the other, where js/utils.js gives -1 |
| Legacy.PrefixBitDiffZeroIff | script.js:69-76 | 0 exactly when the common prefixes agree |
| Legacy.CharPieces | script.js:447-461 | One piece per character of text |
| Legacy.CharPiecesAt | script.js:447-461 | Character i is highlighted exactly when i ≥ \|other\| or text[i] != other[i] |
| Legacy.PlainIsText | script.js:443-465 | With the markup removed, the result is the escaped characters of text in order; nothing of other appears |
| Legacy.HighlightCharDiff | script.js:443-465 | The loop over max(\|text\|, \|other\|) skips positions past text and returns the rendered pieces |
| Legacy.AppendPosition | script.js:448-461 | One loop iteration |
| Legacy.HighlightStep | script.js:451-461 | A highlighted character goes in a span with its position in the title |
| Legacy.SpanOpen | script.js:457 | The opening tag starts with `<span`, ends with `>` and is longer than the position it names |
| Legacy.CharMarkup | script.js:457-460 | One character's markup contains its escaped text, and a highlighted character is wrapped in its span and `</span>` |
| Legacy.RenderChars | script.js:451-461 | The accumulated `result` is never shorter than the escaped characters it shows |
| Legacy.ContainsAt | script.js:558 | includes() finds a substring at any offset |
| Legacy.Contains | script.js:558 | includes() is false when sub is longer than s and true for the empty sub |
| Legacy.ContainsFound | script.js:558 | Conversely, includes() is true only when sub occurs at some position |
| Legacy.CollisionBadge | script.js:551-566 | The collision badge exactly when the verdict is "same" |
| Legacy.MockBadgeIff | script.js:556-566 | For different digests, the mock badge exactly for a sample id with demo/wang/flame/shattered and an algorithm other than ToyHash16 |
| Legacy.DemoSamples | script.js:557-558 | Both shipped sample ids count as demo samples; no id or an empty id does not |
| Legacy.IsDemoSample | script.js:557-558 | A demo sample has an id of at least four characters |
| Legacy.ToyDemoNotMock | script.js:560 | Under ToyHash16 a difference is never shown as a mock |

## Left out

- Floating point. Entropy, the percentages and `toFixed` are not modelled (js/statistics.js:10-18, 58; js/app.js:52, 237).
- THREE.js. The scene, camera, lights and materials are not modelled. The cube's look is a four-valued `Look`, not a material. The floating cube coordinates with spacing 1.2 are replaced by the integer (x, y, z) they are computed from.
- The square and cube roots of the fallback layouts. `⌈√n⌉` is computed exactly. The 3D fallback `layers` and `rows` are parameters of at least 1. This is because `Math.sqrt` and `Math.pow(n, 1/3)` are floating point.
- Foreign calls. `crypto.subtle.digest`, the MD5 library, `TextEncoder` and `atob` are function parameters. A rejected `crypto.subtle.digest` is its `None` result. md5Bytes always returns 16 bytes (hash-engines.js:24-28); since the MD5 library is foreign, that width is the requirement of `App.Md5AvalancheBounded` rather than a fact of the model.
- The DOM. Alerts, `innerHTML`, `textContent` and the tab and 3D-toggle handlers are left out, and so are the Japanese message texts. A case that would show an alert returns a `Result` error instead.
- The click scaling. `getBoundingClientRect` and the CSS-to-canvas scaling are floating point. `Canvas2D.BitIndexFromClick` starts from integer canvas coordinates.
- Interactions.ViewState.HandleCanvasClick: it takes getBitIndexFromClick's result as an argument, and does not model the redraws or the 3D updates after a click.
- The bitIdx check. The avalanche check `bitIdx < 0 || bitIdx > 7` cannot fail, because safeParseInt clamps to 0..7. `App.ParsedIndicesInRange` proves this, so this branch of the source is not modelled.
- Loading samples. The fetch of collisions.json and the sample dropdown are left out; they are asynchronous I/O. The two fallback samples appear only as constants.
- Console logging is left out.
- `escapeHtml` is an abstract function from a character to a string, because it goes through the DOM.
- Characters are Dafny characters, not UTF-16 code units.
- `parseInt` reads the digit prefix as an exact integer. JavaScript turns very long digit strings into a float; the model does not, because the value is clamped right after.
- Utils.Hamming: it pairs bytes from the end of the two sequences. Callers only ever pass it prefixes of equal length.
- App.Diff: it keeps the two sides' bytes (or their absence), not their hex texts. The detail lines render them with `App.CellText`.
- App.DiffDetails: the detail list is a sequence of `DetailLine` values, not the HTML it becomes.
- Canvas2D.DrawGrid: the background fill and colours are left out. A cell records its rectangle and its bit value.
- The try/catch blocks. Their rethrown error messages are left out; an error keeps its kind.

## Findings

None: no discrepancy between the source and its documented behaviour was found.
