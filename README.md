# A verified model of the System.Runtime value-type contracts

The repository's conformance tests for System.Runtime pin down, with exact
integer data tables, how the .NET base-class value types behave. This project
is a reference implementation in Dafny of the contracts those tests assert, one module
per type, together with proofs that the model meets the asserted vectors and
the general laws behind them:

- **Arrays** (`ArrayOps`, `ArraySort`, `ArraySegments`, `Comparers`):
  `Array.Clear`, `Copy`/`ConstrainedCopy` with memmove semantics on overlap,
  `Reverse`, `Resize`, `IndexOf`/`LastIndexOf`, `BinarySearch` with the
  complement of the insertion point, `Find*`/`TrueForAll`.
  - The tests' own oracle sort `SimpleSort` and `ArraysAreEqual` are in-place methods on arrays.
  - An `ArraySegment` is a value naming a window of an array it does not own; its indexer setter and `CopyTo` write through to that array.
- **Buffers** (`Buffers`, `Bytes`, `MemoryCopies`): `Buffer.BlockCopy`,
  `ByteLength`, and little-endian `GetByte`/`SetByte` over typed arrays.
  `Buffer.MemoryCopy` is modelled over (array, offset) windows.
- **StringBuilder** (`StringBuilders`, `CompositeFormat`): a class whose
  content, capacity and maximum capacity every edit updates in place, with
  composite formatting for `AppendFormat`.
- **Integers** (`Integers`, `Digits`, `NumberParsing`, `NumberFormatting`,
  `NativeIntegers`):
  - one parser and one formatter for the eight integer widths, parameterised by (min, max);
  - `NumberStyles` handling, with the number-format data as a plain record;
  - `CompareTo`, `GetHashCode`;
  - `IntPtr`/`UIntPtr` on a 64-bit process: wrapping `Add` and checked narrowing.
- **Decimal** (`Decimals`):
  - a sign, a scale 0 to 28 and a 96-bit magnitude;
  - `GetBits` and its round trip;
  - exact `Add`/`Subtract` with rounding to a smaller scale, and `Multiply`;
  - comparison, `Negate`, `Floor`/`Ceiling`/`Truncate`, `Remainder` and `Divide`;
  - range-checked narrowing to every integer width.
- **Guid** (`Guids`): the mixed-endian `ToByteArray` layout and the five text forms.
  - The "D" form is the UUID string representation of section 3 of RFC 4122.
  - Also modelled: `Parse`, `ParseExact`, `TryParse*` and `CompareTo`.
- **Version** (`Versions`): constructors, `CompareTo`, `Equals`, `ToString(n)`, `Parse`/`TryParse`.
- **Time** (`TimeSpans`, `TimeSpanText`, `Calendar`, `DateTimes`, `DateTimeOffsets`, `UnixTimes`): 100-ns ticks on the proleptic Gregorian calendar, years 1 to 9999.
  - `TimeSpan` decomposition, limits and the "c" format.
  - `DateTime` component validation, leap years, day of week and `Add*`.
  - `DateTimeOffset` offset rules: whole minutes, within fourteen hours.
  - Unix-time conversions, with the tests' `TestTime` floor-rounding helper.

Exceptions become the error case of a `Result` (module `Wrappers`). Values
the runtime takes from its environment are parameters:
- the local time zone's offset;
- an array element type's default value.

Each `*_examples` module restates the rows of one test file as lemmas over the general model.

## Model

| member | source | states |
|---|---|---|
| Comparers.IntegerCompareAsWritten | src/System.Runtime/tests/System/Array.cs:1266-1269 | the helper's `x - y` is a 32-bit int congruent to the true difference modulo 2^32 |
| Comparers.IntegerCompareAsWrittenWraps | src/System.Runtime/tests/System/Array.cs:1266-1269 | as written, Compare(int.MinValue, 1) wraps to int.MaxValue, so MinValue compares above 1 |
| Comparers.IntegerCompareAsWrittenNotComparer | src/System.Runtime/tests/System/Array.cs:1266-1269 | as written, the helper is not a comparer: transitivity fails at (MinValue, 0, 1) |
| Comparers.IntegerCompareAsWrittenAgrees | src/System.Runtime/tests/System/Array.cs:1266-1269 | wherever `x - y` does not overflow, the helper's sign agrees with the intended comparison |
| Comparers.IntegerCompare | src/System.Runtime/tests/System/Array.cs:1259-1280 | the intended comparer: negative, zero or positive exactly when x is below, equal to or above y |
| Comparers.IntegerCompareIsComparer | src/System.Runtime/tests/System/Array.cs:1259-1280 | the intended integer comparer is reflexive, antisymmetric and transitive |
| Comparers.OrdinalCompareZero | src/System.Runtime/tests/System/Array.cs:1289-1299 | the string comparison is zero exactly for equal strings |
| Comparers.OrdinalCompareAntisymmetric | src/System.Runtime/tests/System/Array.cs:1289-1299 | a before b exactly when b after a |
| Comparers.OrdinalCompareTransitive | src/System.Runtime/tests/System/Array.cs:1289-1299 | the string order is transitive |
| Comparers.StringCompareIsComparer | src/System.Runtime/tests/System/Array.cs:1282-1300 | StringComparer with null first is a comparer (reflexive, antisymmetric, transitive) |
| Comparers.StringCompareOrder | src/System.Runtime/tests/System/Array.cs:1289-1298 | null sorts before every string, and the comparison is zero exactly for equal values |
| ArrayOps.Spliced | src/System.Runtime/tests/System/Array.cs:343-355 | the destination after a copy: the window at `at` holds the copied elements, every other element is unchanged |
| ArrayOps.MoveRange | src/System.Runtime/tests/System/Array.cs:540-557 | the copy behaves as if through a temporary buffer: the destination becomes the old destination with the old source window spliced in, whichever way the ranges overlap |
| ArrayOps.CopyArgs | src/System.Runtime/tests/System/Array.cs:343-355 | Array.Copy's argument checks: Ok exactly for non-null arrays and a non-negative window inside both; null is ArgumentNullException, a negative index or length ArgumentOutOfRangeException |
| ArrayOps.Copy | src/System.Runtime/tests/System/Array.cs:343-355 | Array.Copy fails exactly as the argument checks say and leaves the destination alone then; otherwise the destination becomes the old one with the source window spliced in |
| ArrayOps.ConstrainedCopy | src/System.Runtime/tests/System/Array.cs:560-637 | ConstrainedCopy does what Copy does, and changes nothing when it fails |
| ArrayOps.CopyOverlapExample | src/System.Runtime/tests/System/Array.cs:540-557 | copying within one array, the window moved down and the window moved up give the two arrays the test expects |
| ArrayOps.ClearArgs | src/System.Runtime/tests/System/Array.cs:327-340 | Array.Clear accepts exactly a non-null array and a window inside it; null is ArgumentNullException, every other bad window IndexOutOfRangeException |
| ArrayOps.Clear | src/System.Runtime/tests/System/Array.cs:224-250 | Array.Clear sets exactly the window to the default value and keeps the rest; on an error nothing changes |
| ArrayOps.ClearExample | src/System.Runtime/tests/System/Array.cs:224-250 | Clear(2, 3) zeroes the middle three elements, Clear(6, 0) changes nothing, and a window past the end is IndexOutOfRangeException |
| ArrayOps.ReversedAt | src/System.Runtime/tests/System/Array.cs:886-912 | element k of the reversal is element length-1-k of the original |
| ArrayOps.ReversedInvolution | src/System.Runtime/tests/System/Array.cs:886-912 | reversing twice gives back the original sequence |
| ArrayOps.RangeArgs | src/System.Runtime/tests/System/Array.cs:914-927 | Array.Reverse accepts exactly a non-null array and a window inside it; null is ArgumentNullException, a negative index or count ArgumentOutOfRangeException, a window past the end ArgumentException |
| ArrayOps.Reverse | src/System.Runtime/tests/System/Array.cs:901-912 | Array.Reverse fails exactly as the argument checks say, changing nothing; otherwise the window holds the reversal of its old contents and the rest is unchanged |
| ArrayOps.ReverseRange | src/System.Runtime/tests/System/Array.cs:901-912 | the in-place swap loop leaves the window reversed and the rest unchanged |
| ArrayOps.ReversedRangeAt | src/System.Runtime/tests/System/Array.cs:901-912 | a sequence mirrored inside the window and equal elsewhere is the window's reversal spliced into the original |
| ArrayOps.ReverseExample | src/System.Runtime/tests/System/Array.cs:886-926 | reversing 1..5 whole gives 5..1 and reversing the range (2, 3) gives 1, 2, 5, 4, 3; of the invalid calls a null array is ArgumentNullException, index -1 or count -1 is ArgumentOutOfRangeException, and the windows (10, 1) and (9, 2) of ten elements are ArgumentException |
| ArrayOps.ReversedSmallExamples | src/System.Runtime/tests/System/Array.cs:886-897 | the reversals the Reverse rows expect |
| ArrayOps.Resized | src/System.Runtime/tests/System/Array.cs:856-876 | the contents after Resize: the old prefix up to the new length, then default values |
| ArrayOps.ResizedGrowShrink | src/System.Runtime/tests/System/Array.cs:856-876 | growing and then shrinking back to the old length gives the original contents |
| ArrayOps.Resize | src/System.Runtime/tests/System/Array.cs:856-884 | a negative size is ArgumentOutOfRangeException; otherwise the result holds the resized contents (null counts as empty), is the same array when the size already matches, and is a fresh array otherwise |
| ArrayOps.FirstWhere | src/System.Runtime/tests/System/Array.cs:639-680 | the first index in the window whose element satisfies the predicate, or -1 exactly when none does |
| ArrayOps.LastWhere | src/System.Runtime/tests/System/Array.cs:639-680 | the last index in the window whose element satisfies the predicate, or -1 exactly when none does |
| ArrayOps.IndexOf | src/System.Runtime/tests/System/Array.cs:702-767 | IndexOf is ArgumentOutOfRangeException exactly for a window outside the array; otherwise it is the first index in the window holding the value, or -1 when the window does not hold it |
| ArrayOps.LastIndexOf | src/System.Runtime/tests/System/Array.cs:769-835 | LastIndexOf scans down from start over count elements; it gives the last index holding the value or -1, accepts an empty array with -1, and is ArgumentOutOfRangeException for a window outside the array |
| ArrayOps.IndexOfExamples | src/System.Runtime/tests/System/Array.cs:702-800 | the integer IndexOf and LastIndexOf rows give the expected indices |
| ArrayOps.IndexOfStringExamples | src/System.Runtime/tests/System/Array.cs:706-780 | the rows over a string array holding nulls give the expected indices, null being found like any value |
| ArrayOps.BinarySearch | src/System.Runtime/tests/System/Array.cs:100-177 | BinarySearch is an error exactly for a bad window; a hit is an index in the window comparing equal to the value; a miss is the complement of the insertion point, with every element before it smaller and every element from it larger when the window is sorted |
| ArrayOps.SearchSampleSorted | src/System.Runtime/tests/System/Array.cs:104 | the integer sample array is sorted under the integer comparer |
| ArrayOps.BinarySearchFound | src/System.Runtime/tests/System/Array.cs:113 | searching for 8 finds index 4 |
| ArrayOps.BinarySearchMissing | src/System.Runtime/tests/System/Array.cs:114 | searching for 99 gives the complement of the array's length |
| ArrayOps.BinarySearchOutsideRange | src/System.Runtime/tests/System/Array.cs:151 | searching the window (1, 5) for 16 gives -7 |
| ArrayOps.SearchSampleBound | src/System.Runtime/tests/System/Array.cs:104 | every element of the sample lies between 1 and 16; against any searched value from 0 to 99 the as-written helper's `x - y` does not wrap, in either argument order, and agrees in sign with IntegerCompare |
| ArrayOps.Find | src/System.Runtime/tests/System/Array.cs:639-680 | Find gives an element of the array that satisfies the predicate when one exists, and the default value when none does |
| ArrayOps.FindLast | src/System.Runtime/tests/System/Array.cs:639-680 | FindLast gives an element of the array that satisfies the predicate when one exists, and the default value when none does |
| ArrayOps.FindIndex | src/System.Runtime/tests/System/Array.cs:639-680 | FindIndex is ArgumentOutOfRangeException exactly for a window outside the array; otherwise it is the first matching index in the window, or -1 when none matches |
| ArrayOps.FindLastIndex | src/System.Runtime/tests/System/Array.cs:639-680 | FindLastIndex gives the last matching index among the count elements ending at start, or -1; it is ArgumentOutOfRangeException for a window outside a non-empty array |
| ArrayOps.Exists | src/System.Runtime/tests/System/Array.cs:639-680 | true exactly when some element satisfies the predicate |
| ArrayOps.TrueForAll | src/System.Runtime/tests/System/Array.cs:982-990 | true exactly when every element satisfies the predicate |
| ArrayOps.FindAll | src/System.Runtime/tests/System/Array.cs:639-680 | FindAll holds every matching element and nothing else |
| ArrayOps.FindExamples | src/System.Runtime/tests/System/Array.cs:639-680 | the Exists, FindAll, FindIndex, FindLastIndex and TrueForAll rows give the expected results |
| ArraySort.SimpleSort | src/System.Runtime/tests/System/Array.cs:1215-1235 | the test's control sort returns a fresh array whose window is sorted under the comparer and a permutation of the original window, with everything outside the window unchanged |
| ArraySort.SortRange | src/System.Runtime/tests/System/Array.cs:1220-1233 | the nested selection loop leaves the window sorted, a permutation of its old contents, and the rest untouched |
| ArraySort.PlaceMinimum | src/System.Runtime/tests/System/Array.cs:1222-1231 | one pass of the inner loop puts an element no larger than any later one at position i, keeping the window a permutation and the sorted prefix below it |
| ArraySort.ArraysAreEqual | src/System.Runtime/tests/System/Array.cs:1237-1250 | the test's equality is true exactly when the arrays have the same length and compare equal element by element |
| ArraySort.SortedPermutationsAgree | src/System.Runtime/tests/System/Array.cs:1202-1213 | two sorted permutations of the same elements compare equal position by position |
| ArraySort.SortAgreesWithSimpleSort | src/System.Runtime/tests/System/Array.cs:1202-1213 | any sort of the window that leaves it sorted, permuted and the rest unchanged agrees element by element with the control sort, which is what TestSortHelper checks |
| ArraySegments.Default | src/System.Runtime/tests/System/ArraySegment.cs:12-19 | the default segment has no array, offset 0 and count 0 |
| ArraySegments.OfArray | src/System.Runtime/tests/System/ArraySegment.cs:21-36 | a segment over a whole array has that array, offset 0 and its length; null is ArgumentNullException |
| ArraySegments.Make | src/System.Runtime/tests/System/ArraySegment.cs:38-59 | the segment constructor is Ok exactly for a non-null array and a window inside it; null is ArgumentNullException and a negative offset or count ArgumentOutOfRangeException |
| ArraySegments.OfArrayIsMake | src/System.Runtime/tests/System/ArraySegment.cs:21-47 | the whole-array constructor is the windowed one with offset 0 and the array's length |
| ArraySegments.Items | src/System.Runtime/tests/System/ArraySegment.cs:86-127 | the segment's elements are its count elements of the array from the offset on |
| ArraySegments.Equals | src/System.Runtime/tests/System/ArraySegment.cs:61-83 | two segments are equal exactly when array, offset and count all agree |
| ArraySegments.EqualsObject | src/System.Runtime/tests/System/ArraySegment.cs:82 | a segment never equals null, and equals a boxed segment exactly when that segment equals it |
| ArraySegments.EqualsSameHash | src/System.Runtime/tests/System/ArraySegment.cs:70-74 | equal segments have equal hash codes |
| ArraySegments.HashCode | src/System.Runtime/tests/System/ArraySegment.cs:70-80 | a segment without an array hashes to 0 (the hash of a segment with an array is a stand-in formula, see "## Left out") |
| ArraySegments.SameArrayHash | src/System.Runtime/tests/System/ArraySegment.cs:76-80 | a law of the model's stand-in hash, not of the runtime's: two windows of one array hash alike exactly when offset + 31 * count agrees, so windows with offsets and counts below 31 hash alike exactly when they are equal, as the test's equal and unequal segments need |
| ArraySegments.Get | src/System.Runtime/tests/System/ArraySegment.cs:100-102 | the indexer reads element i of the segment; an index outside the count is ArgumentOutOfRangeException and a segment without an array InvalidOperationException |
| ArraySegments.Set | src/System.Runtime/tests/System/ArraySegment.cs:101-102 | the indexer's setter writes element offset + i of the array and only it; a bad index changes nothing |
| ArraySegments.IndexOf | src/System.Runtime/tests/System/ArraySegment.cs:104-108 | IndexOf gives the first position in the segment holding the value, or -1 exactly when the segment does not hold it |
| ArraySegments.Contains | src/System.Runtime/tests/System/ArraySegment.cs:104-107 | Contains is true exactly when the segment holds the value |
| ArraySegments.CopyTo | src/System.Runtime/tests/System/ArraySegment.cs:110-112 | CopyTo has Array.Copy's argument checks and splices the segment's elements into the destination at the index |
| ArraySegments.Edit | src/System.Runtime/tests/System/ArraySegment.cs:94-98 | Add, Clear, Remove and RemoveAt on the read-only list are NotSupportedException |
| ArraySegments.ConstructorExamples | src/System.Runtime/tests/System/ArraySegment.cs:21-47 | the segments over 7..11 whole and over (2, 3) have the expected array, offset and count, and null is ArgumentNullException |
| ArraySegments.InvalidConstructorExamples | src/System.Runtime/tests/System/ArraySegment.cs:49-59 | the five invalid constructions raise the expected exceptions in order |
| ArraySegments.EqualsExamples | src/System.Runtime/tests/System/ArraySegment.cs:61-83 | seg1 equals itself and seg2, not seg3, seg4 or null; whatever the array's own hash, seg1 hashes like itself and seg2 and unlike seg3 and seg4 |
| ArraySegments.ListExamples | src/System.Runtime/tests/System/ArraySegment.cs:86-112 | reading, writing 99, searching and CopyTo(dst, 5) give the array the test expects |
| ArraySegments.CopyToExamples | src/System.Runtime/tests/System/ArraySegment.cs:129-151 | copying a segment of an array into the same array, up and down, gives the expected contents |
| Buffers.SizeOf | src/System.Runtime/tests/System/Buffer.cs:58-81 | each primitive element type occupies between one and eight bytes |
| Buffers.TypedArray.constructor | src/System.Runtime/tests/System/Buffer.cs:86-90 | a new primitive array of a given length holds that many zero elements, all its bytes zero |
| Buffers.TypedArray.OfUInt32 | src/System.Runtime/tests/System/Buffer.cs:109 | an array built from uint values holds, as its memory, their four-byte little-endian encodings in order |
| Buffers.TypedArray.UInt32At | src/System.Runtime/tests/System/Buffer.cs:128-139 | element k of a uint array is the 32-bit value its four bytes hold, little-endian |
| Buffers.ByteLength | src/System.Runtime/tests/System/Buffer.cs:84-104 | ByteLength is ArgumentNullException for null, ArgumentException for a non-primitive element type, and otherwise the length times the element size |
| Buffers.GetByte | src/System.Runtime/tests/System/Buffer.cs:106-125 | GetByte reads byte index of the array's memory, fails with ByteLength's error first, and is ArgumentOutOfRangeException exactly for an index outside the byte length |
| Buffers.SetByte | src/System.Runtime/tests/System/Buffer.cs:127-151 | SetByte fails exactly where GetByte does, with the same error and no change; otherwise byte index becomes the value and nothing else changes |
| Buffers.BlockCopyArgs | src/System.Runtime/tests/System/Buffer.cs:38-56 | BlockCopy's arguments are accepted exactly when both arrays exist and are primitive and both byte windows lie inside them; null is ArgumentNullException, a negative offset or count ArgumentOutOfRangeException, anything else ArgumentException |
| Buffers.BlockCopy | src/System.Runtime/tests/System/Buffer.cs:13-36 | BlockCopy copies count bytes as if through a temporary, so overlapping copies read the old source bytes, and a refused call changes nothing |
| Buffers.BlockCopyExample | src/System.Runtime/tests/System/Buffer.cs:15-27 | copying 1a 2b 3c 4d into six bytes of 6f at offset 1 gives 6f 1a 2b 3c 4d 6f |
| Buffers.BlockCopyOverlapExample | src/System.Runtime/tests/System/Buffer.cs:29-35 | copying two bytes of an array one place up within itself gives 1a 2b 2b 3c 5e |
| Buffers.BlockCopyInvalidExample | src/System.Runtime/tests/System/Buffer.cs:39-55 | the eleven invalid BlockCopy calls raise the expected exception types in order |
| Buffers.ByteLengthExample | src/System.Runtime/tests/System/Buffer.cs:58-104 | twenty-five ints, chars and longs take 100, 50 and 200 bytes; decimal and string arrays are ArgumentException and null ArgumentNullException |
| Buffers.GetSetByteExample | src/System.Runtime/tests/System/Buffer.cs:106-151 | on the uint array 01234567, 89abcdef, bytes 0 and 7 read 67 and 89, byte 8 is ArgumentOutOfRangeException, and setting bytes 0 and 7 gives 01234542, a2abcdef |
| Buffers.ExampleLayout | src/System.Runtime/tests/System/Buffer.cs:109-112 | the two words are laid out least significant byte first |
| Buffers.ExampleWordsRead | src/System.Runtime/tests/System/Buffer.cs:131-139 | the bytes left by the two SetByte calls read back as the words 01234542 and a2abcdef |
| Bytes.LittleEndian | src/System.Runtime/tests/System/Buffer.cs:109-112 | the little-endian encoding of a value has the width asked for and starts with its low byte |
| Bytes.FromLittleEndian4 | src/System.Runtime/tests/System/Buffer.cs:131-139 | four little-endian bytes make the value b0 + 256 b1 + 65536 b2 + 16777216 b3 |
| Bytes.LittleEndianRoundTrip | src/System.Runtime/tests/System/Buffer.cs:106-139 | decoding the little-endian encoding of a value that fits gives the value back |
| Bytes.FromLittleEndianRoundTrip | src/System.Runtime/tests/System/Buffer.cs:106-139 | encoding the value of any byte string at its own width gives the bytes back |
| Bytes.Words | src/System.Runtime/tests/System/Buffer.cs:106-139 | the memory of an array of width-byte values is width bytes per element |
| Bytes.WordsAt | src/System.Runtime/tests/System/Buffer.cs:128-139 | element k of an array is read back from bytes k*width to (k+1)*width of its memory |
| MemoryCopies.MemoryCopy | src/System.Runtime/tests/System/Buffer.MemoryCopy.cs:10-130 | MemoryCopy is ArgumentOutOfRangeException exactly when the bytes to copy exceed the destination size, changing nothing; otherwise it copies the bytes as if through a temporary, so overlapping copies read the old source |
| MemoryCopies.FillIdentity | src/System.Runtime/tests/System/Buffer.MemoryCopy.cs:13-17 | the fill loop leaves int g of the new block holding g |
| MemoryCopies.StoreInt | src/System.Runtime/tests/System/Buffer.MemoryCopy.cs:15-16 | storing an int writes its four little-endian bytes at 4g and nothing else |
| MemoryCopies.IdentityInts | src/System.Runtime/tests/System/Buffer.MemoryCopy.cs:13-17 | in the memory of the ints 0..n-1, int g reads g |
| MemoryCopies.CopiedIntAt | src/System.Runtime/tests/System/Buffer.MemoryCopy.cs:24-28 | after copying m ints from int e to int f, int f+j of the destination is int e+j of the source |
| MemoryCopies.CopyToStart | src/System.Runtime/tests/System/Buffer.MemoryCopy.cs:10-29 | copying 25000 ints to the start of the destination makes its first 25000 ints equal the source's, 0 to 24999 |
| MemoryCopies.CopyToOffset | src/System.Runtime/tests/System/Buffer.MemoryCopy.cs:31-50 | copying 25000 ints to int 5000 of the destination puts source int g at destination int g + 5000 |
| MemoryCopies.CopyBetweenOffsets | src/System.Runtime/tests/System/Buffer.MemoryCopy.cs:52-71 | copying 20000 ints from int 5000 to int 6000 puts source int g at destination int g + 1000 for g from 5000 to 24999 |
| MemoryCopies.ShiftedIdentity | src/System.Runtime/tests/System/Buffer.MemoryCopy.cs:73-91 | copying the first count ints of 0..199 up by shift within the same block leaves int g holding g - shift across the copied window |
| MemoryCopies.CopyOverlapping | src/System.Runtime/tests/System/Buffer.MemoryCopy.cs:73-111 | an overlapping copy within one block of 200 ints shifts the identity up by shift over the copied window |
| MemoryCopies.OverlapExamples | src/System.Runtime/tests/System/Buffer.MemoryCopy.cs:73-111 | the copies of 100 ints up by 50 and of 15 ints up by 5 leave int g holding g - 50 and g - 5 in the copied windows |
| MemoryCopies.DestinationTooSmall | src/System.Runtime/tests/System/Buffer.MemoryCopy.cs:113-131 | asking to copy 20000 ints into a 5000-int destination is ArgumentOutOfRangeException |
| StringBuilders.Grown | src/System.Runtime/tests/System/Text/StringBuilder.cs:20-41 | the capacity after growing to n characters holds them, never shrinks, and stays put when n already fits |
| StringBuilders.Removed | src/System.Runtime/tests/System/Text/StringBuilder.cs:91-97 | removing len characters at start keeps the text before start and closes the gap with the text after it |
| StringBuilders.Inserted | src/System.Runtime/tests/System/Text/StringBuilder.cs:99-106 | inserting t at index keeps the text before index, then t, then the rest |
| StringBuilders.InsertThenRemove | src/System.Runtime/tests/System/Text/StringBuilder.cs:91-106 | removing what was just inserted restores the original text |
| StringBuilders.RemoveThenInsert | src/System.Runtime/tests/System/Text/StringBuilder.cs:91-106 | inserting back what was just removed restores the original text |
| StringBuilders.ReplacedChars | src/System.Runtime/tests/System/Text/StringBuilder.cs:82-84 | replacing one character by another changes exactly the positions that held it |
| StringBuilders.ReplacedTextAbsent | src/System.Runtime/tests/System/Text/StringBuilder.cs:86-88 | replacing a string that does not occur leaves the text unchanged |
| StringBuilders.ReplacedTextSelf | src/System.Runtime/tests/System/Text/StringBuilder.cs:86-88 | replacing a string by itself leaves the text unchanged |
| StringBuilders.ReplacedTextOneChar | src/System.Runtime/tests/System/Text/StringBuilder.cs:80-88 | replacing a one-character string by another is the character replacement |
| StringBuilders.InWindow | src/System.Runtime/tests/System/Text/StringBuilder.cs:80-88 | an edit confined to a window keeps the text before and after the window and puts the new window between them |
| StringBuilders.StringBuilder.Init | src/System.Runtime/tests/System/Text/StringBuilder.cs:12-69 | a builder starts with the given text, capacity and maximum capacity, the text fitting the capacity and the capacity the maximum |
| StringBuilders.StringBuilder.Substring | src/System.Runtime/tests/System/Text/StringBuilder.cs:71-77 | ToString(start, len) is the len characters from start, and ArgumentOutOfRangeException exactly when the range is negative or past the end |
| StringBuilders.StringBuilder.CharAt | src/System.Runtime/tests/System/Text/StringBuilder.cs:251-255 | the indexer reads character index, and IndexOutOfRangeException exactly when the index is outside the text |
| StringBuilders.StringBuilder.Equals | src/System.Runtime/tests/System/Text/StringBuilder.cs:108-118 | a builder equals itself; a non-null builder is equal exactly when it holds the same text and has the same capacity and maximum capacity |
| StringBuilders.StringBuilder.Append | src/System.Runtime/tests/System/Text/StringBuilder.cs:201-208 | Append(string) adds the text at the end, growing the capacity; exceeding the maximum capacity is ArgumentOutOfRangeException and changes nothing |
| StringBuilders.StringBuilder.AppendChar | src/System.Runtime/tests/System/Text/StringBuilder.cs:166-174 | Append(char) adds one character at the end, with the same growth and limit |
| StringBuilders.StringBuilder.AppendRepeat | src/System.Runtime/tests/System/Text/StringBuilder.cs:176-185 | Append(c, repeatCount) adds repeatCount copies of c; a negative count or exceeding the maximum is ArgumentOutOfRangeException and changes nothing |
| StringBuilders.StringBuilder.AppendChars | src/System.Runtime/tests/System/Text/StringBuilder.cs:187-199 | Append(char[]) adds the array's characters at the end, with the same growth and limit |
| StringBuilders.StringBuilder.AppendSubstring | src/System.Runtime/tests/System/Text/StringBuilder.cs:210-213 | Append(s, start, count) adds the count characters of s from start; a negative start or count is ArgumentOutOfRangeException, a zero count then appends nothing wherever start points, and otherwise a range past the end of s or exceeding the maximum is ArgumentOutOfRangeException; an exception changes nothing |
| StringBuilders.StringBuilder.AppendFormat | src/System.Runtime/tests/System/Text/StringBuilder.cs:243-249 | AppendFormat succeeds exactly when the format is valid and the expansion fits the maximum, and then adds the formatted text; a bad format is FormatException after the text in front of the failing hole has been appended; exceeding the maximum is ArgumentOutOfRangeException and changes nothing |
| StringBuilders.AppendFormatFailureExample | src/System.Runtime/tests/System/Text/StringBuilder.cs:243-249 | AppendFormat("ab{5}", "x") on an empty builder is FormatException and leaves "ab" in it |
| StringBuilders.StringBuilder.Insert | src/System.Runtime/tests/System/Text/StringBuilder.cs:99-106 | Insert(index, s) is the insertion of s at index; an index outside 0..Length or exceeding the maximum is ArgumentOutOfRangeException and changes nothing |
| StringBuilders.StringBuilder.Remove | src/System.Runtime/tests/System/Text/StringBuilder.cs:91-97 | Remove(start, length) is the removal of that range, keeping the capacity; an invalid range is ArgumentOutOfRangeException and changes nothing |
| StringBuilders.StringBuilder.ReplaceChar | src/System.Runtime/tests/System/Text/StringBuilder.cs:80-84 | Replace(a, b, start, count) replaces a by b inside the window only; an invalid window is ArgumentOutOfRangeException and changes nothing |
| StringBuilders.StringBuilder.ReplaceText | src/System.Runtime/tests/System/Text/StringBuilder.cs:86-88 | Replace(old, new, start, count) replaces the occurrences of old inside the window only; an invalid window is ArgumentOutOfRangeException, an empty old string ArgumentException, and both change nothing |
| StringBuilders.StringBuilder.SetLength | src/System.Runtime/tests/System/Text/StringBuilder.cs:147-160 | setting Length truncates the text or pads it with '\0' to the new length; beyond the maximum capacity is ArgumentOutOfRangeException |
| StringBuilders.StringBuilder.Clear | src/System.Runtime/tests/System/Text/StringBuilder.cs:139-145 | Clear empties the text and keeps the capacity |
| StringBuilders.StringBuilder.SetCharAt | src/System.Runtime/tests/System/Text/StringBuilder.cs:251-260 | the indexer's setter replaces character index and only it; outside the text it is ArgumentOutOfRangeException and changes nothing |
| StringBuilders.StringBuilder.CopyTo | src/System.Runtime/tests/System/Text/StringBuilder.cs:120-137 | CopyTo writes count characters from sourceIndex into the destination at destinationIndex and nothing else; invalid arguments change nothing |
| StringBuilders.CopyToArgs | src/System.Runtime/tests/System/Text/StringBuilder.cs:120-125 | CopyTo's arguments are accepted exactly when the destination exists and both ranges lie inside their texts; a null destination is ArgumentNullException |
| StringBuilders.SubstringCtorArgs | src/System.Runtime/tests/System/Text/StringBuilder.cs:61-69 | the (string, start, length, capacity) constructor accepts exactly a non-negative capacity and a range inside the string |
| StringBuilders.InitialCapacity | src/System.Runtime/tests/System/Text/StringBuilder.cs:51-69 | a builder made from text gets at least the capacity asked for and enough for the text, and exactly the capacity asked for when the text fits |
| StringBuilders.NewSubstring | src/System.Runtime/tests/System/Text/StringBuilder.cs:61-69 | new StringBuilder(s, start, length, capacity) holds that part of s with at least the asked capacity, or raises ArgumentOutOfRangeException exactly when the arguments are refused |
| StringBuilders.NewString | src/System.Runtime/tests/System/Text/StringBuilder.cs:43-49 | new StringBuilder(s) holds s with room for it |
| StringBuilders.NewStringCapacity | src/System.Runtime/tests/System/Text/StringBuilder.cs:51-59 | new StringBuilder(s, capacity) holds s with room for at least capacity characters and maximum capacity int.MaxValue; a negative capacity is ArgumentOutOfRangeException |
| StringBuilders.NewCapacity | src/System.Runtime/tests/System/Text/StringBuilder.cs:20-41 | new StringBuilder(capacity, maxCapacity) is empty with that capacity and maximum, the default capacity for zero, and ArgumentOutOfRangeException exactly when the capacity is negative, exceeds the maximum, or the maximum is below 1 |
| StringBuilders.ConstructorExamples | src/System.Runtime/tests/System/Text/StringBuilder.cs:12-69 | the six constructor rows give the expected text, length, capacity bound and maximum capacity 50 |
| StringBuilders.SubstringExample | src/System.Runtime/tests/System/Text/StringBuilder.cs:71-77 | "Finally" reads back whole and its ToString(2, 3) is "nal" |
| StringBuilders.ReplaceCharExample | src/System.Runtime/tests/System/Text/StringBuilder.cs:82-84 | Replace('a', '!', 2, 3) on "aaaabbbbccccdddd" gives "aa!!bbbbccccdddd" |
| StringBuilders.ReplaceCharWindow | src/System.Runtime/tests/System/Text/StringBuilder.cs:82-84 | the window [2, 5) of that text becomes "!!b" and the rest is kept |
| StringBuilders.ReplaceTextExample | src/System.Runtime/tests/System/Text/StringBuilder.cs:86-88 | Replace("a", "$!", 2, 3) on the same text gives "aa$!$!bbbbccccdddd" |
| StringBuilders.ReplaceWindowExample | src/System.Runtime/tests/System/Text/StringBuilder.cs:86-88 | replacing "a" by "$!" in the window "aab" gives "$!$!b" |
| StringBuilders.RemoveInsertExamples | src/System.Runtime/tests/System/Text/StringBuilder.cs:91-106 | Remove(1, 3) of "Almost" is "Ast" and Insert(2, "!!") into "Hello" is "He!!llo" |
| StringBuilders.EqualsExample | src/System.Runtime/tests/System/Text/StringBuilder.cs:108-118 | sb1 equals itself and sb2 and not sb3 |
| StringBuilders.CopyToExample | src/System.Runtime/tests/System/Text/StringBuilder.cs:120-137 | CopyTo(1, ca, 5, 4) of "Hello" leaves five '\0', then "ello", then '\0' |
| StringBuilders.ClearLengthExamples | src/System.Runtime/tests/System/Text/StringBuilder.cs:139-160 | Clear gives "", Length = 2 gives "He", and Length = 10 then pads with eight '\0' |
| StringBuilders.CharsExample | src/System.Runtime/tests/System/Text/StringBuilder.cs:251-260 | sb[1] of "Hello" is 'e', and after sb[1] = 'X' it is 'X' and the text "HXllo" |
| StringBuilders.AppendCharLoop | src/System.Runtime/tests/System/Text/StringBuilder.cs:166-174 | after each of 500 appends of 'A' + i % 10 the builder holds the string built alongside it |
| StringBuilders.Repeated | src/System.Runtime/tests/System/Text/StringBuilder.cs:178-184 | the text the repeated-character loop builds grows by at most seven characters a step |
| StringBuilders.AppendRepeatLoop | src/System.Runtime/tests/System/Text/StringBuilder.cs:176-185 | 500 appends of i % 8 copies of a letter give the string built alongside |
| StringBuilders.AppendCharsLoop | src/System.Runtime/tests/System/Text/StringBuilder.cs:187-199 | 500 appends of a freshly filled char array give the same string |
| StringBuilders.Filled | src/System.Runtime/tests/System/Text/StringBuilder.cs:193-195 | the fill loop gives a fresh array of n copies of c |
| StringBuilders.AppendStringLoop | src/System.Runtime/tests/System/Text/StringBuilder.cs:201-213 | 500 appends of "ab" give "abab…" of length 1000, and Append("Hello", 2, 3) gives "llo" |
| StringBuilders.AppendFormatExample | src/System.Runtime/tests/System/Text/StringBuilder.cs:243-249 | AppendFormat("Foo {0} Bar {1}", "Red", "Green") gives "Foo Red Bar Green" |
| CompositeFormat.Formatted | src/System.Runtime/tests/System/Text/StringBuilder.cs:243-249 | composite formatting fails only with FormatException |
| CompositeFormat.Expansion | src/System.Runtime/tests/System/Text/StringBuilder.cs:243-249 | the text expanded before formatting stops is the whole formatted text whenever the format is valid |
| CompositeFormat.ExpansionBeforeBadHole | src/System.Runtime/tests/System/Text/StringBuilder.cs:243-249 | "ab{5}" with one argument is FormatException, and "ab" is expanded before the failing hole |
| CompositeFormat.Padded | src/System.Runtime/tests/System/Text/StringBuilder.cs:243-249 | an argument in a field of a given width keeps its text and gains spaces up to the width, behind it when left-justified and in front of it otherwise |
| CompositeFormat.ParseHole | src/System.Runtime/tests/System/Text/StringBuilder.cs:243-249 | a hole that is read starts with an index digit and ends with the `}` that closes it |
| CompositeFormat.FormatEnd | src/System.Runtime/tests/System/Text/StringBuilder.cs:243-249 | the end found for a hole's format part is a `}` at or after the part's start |
| CompositeFormat.FormatEndPlain | src/System.Runtime/tests/System/Text/StringBuilder.cs:243-249 | a format part without braces ends at the next `}` when no second `}` follows it |
| CompositeFormat.FormattedLiteral | src/System.Runtime/tests/System/Text/StringBuilder.cs:247 | text without braces is copied unchanged ahead of the rest of the expansion |
| CompositeFormat.FormattedHole | src/System.Runtime/tests/System/Text/StringBuilder.cs:247 | a hole {k} becomes argument k when there is one, and FormatException otherwise |
| CompositeFormat.FormattedDigitsHole | src/System.Runtime/tests/System/Text/StringBuilder.cs:247 | a hole written with any decimal digits names the argument their value gives, and FormatException beyond the last argument |
| CompositeFormat.HoleOfSpacedIndex | src/System.Runtime/tests/System/Text/StringBuilder.cs:247 | index digits followed by spaces and `}` read as a hole with that index, no width, spanning up to the `}` |
| CompositeFormat.HoleOfFormatPart | src/System.Runtime/tests/System/Text/StringBuilder.cs:247 | index digits followed by `:`, a format part without braces and `}` read as a hole with that index and no width |
| CompositeFormat.HoleOfWidth | src/System.Runtime/tests/System/Text/StringBuilder.cs:247 | index digits followed by `,`, an optional `-` and width digits read as a hole with that index and width, left-justified exactly when the `-` is there |
| CompositeFormat.SpacedHole | src/System.Runtime/tests/System/Text/StringBuilder.cs:247 | spaces between a hole's index and its `}` change nothing |
| CompositeFormat.FormatPartIgnored | src/System.Runtime/tests/System/Text/StringBuilder.cs:247 | a format part after `:` does not change how a string argument is written |
| CompositeFormat.AlignedHole | src/System.Runtime/tests/System/Text/StringBuilder.cs:247 | a hole {k,w} becomes argument k padded to width w with spaces in front, {k,-w} the same with spaces behind, and FormatException beyond the last argument |
| CompositeFormat.FormattedTwoHoles | src/System.Runtime/tests/System/Text/StringBuilder.cs:247 | a format of literal, hole, literal, hole expands to the literals with the named arguments between them |
| CompositeFormat.FormatExample | src/System.Runtime/tests/System/Text/StringBuilder.cs:247-248 | "Foo {0} Bar {1}" over "Red", "Green" expands to "Foo Red Bar Green" |
| Integers.RangeWidth | src/System.Runtime/tests/System/Int32.cs:28-38 | each type's range from MinValue to MaxValue holds exactly 2^bits values and contains 0 |
| Integers.Wrap | src/System.Runtime/tests/System/Int32.cs:34-38 | the unchecked conversion lands in the target type's range, agrees with its argument modulo 2^bits, and leaves a value that already fits unchanged |
| Integers.Unsigned | src/System.Runtime/tests/System/Int32.cs:34-38 | the bit pattern of a value is the non-negative value below 2^bits congruent to it |
| Integers.WrapUnsigned | src/System.Runtime/tests/System/Int32.cs:34-38 | reading a value's bit pattern back as the type gives the value |
| Integers.CompareTo | src/System.Runtime/tests/System/Int32.cs:40-67 | CompareTo(object) is positive for null, has the sign of the comparison for a value of the same type, and is ArgumentException for a string or an integer of another width |
| Integers.CompareValues | src/System.Runtime/tests/System/Int32.cs:49-55 | CompareTo(T) is -1, 0 or 1 |
| Integers.CompareValuesIsComparer | src/System.Runtime/tests/System/Int32.cs:40-59 | CompareTo on one type is reflexive, antisymmetric and transitive, so it orders values as a sort needs |
| Integers.Equals | src/System.Runtime/tests/System/Int32.cs:69-90 | Equals(object) is true exactly for a boxed value of the same type and value, so null, a string or a long never equal an int |
| Integers.HashCode | src/System.Runtime/tests/System/Int32.cs:82 | GetHashCode is a 32-bit int |
| Integers.HashCodeSByte | src/System.Runtime/tests/System/SByte.cs:81 | an sbyte x hashes to x ^ (x << 8), which is 257 * x for x >= 0 and 255 * -x for x < 0 |
| Integers.ShortHash | src/System.Runtime/tests/System/Int16.cs:82 | a short hashes to (ushort)x OR (x << 16): its low 16 bits are x as a ushort and the bits above them are x |
| Integers.SByteHashInjective | src/System.Runtime/tests/System/SByte.cs:81 | two sbytes whose hashes agree are equal, so 78 and -78 hash apart |
| Integers.HashCodeInjective | src/System.Runtime/tests/System/Int32.cs:82 | for the types up to 32 bits equal hash codes mean equal values, so the hash codes in the Equals rows agree exactly when the values do |
| Integers.HashCodeSmallUnsigned | src/System.Runtime/tests/System/Byte.cs:81 | a byte or ushort hashes to its own value |
| Integers.HashCodeUInt32 | src/System.Runtime/tests/System/UInt32.cs:81 | a uint hashes to its bit pattern read as an int |
| Integers.HashCodeSmallUInt64 | src/System.Runtime/tests/System/UInt64.cs:81 | a ulong below 2^31 hashes to itself |
| Integers.XorParity | src/System.Runtime/tests/System/Int64.cs:82 | the XOR that folds a 64-bit hash has the parity of the sum of its operands |
| Integers.XorZero | src/System.Runtime/tests/System/Int64.cs:82 | XOR with zero leaves a value unchanged |
| Integers.FoldHalvesLow | src/System.Runtime/tests/System/Int64.cs:82 | a 64-bit pattern whose high half is zero folds to itself |
| Digits.DigitChar | src/System.Runtime/tests/System/Int32.cs:92-97 | the character written for a digit is a digit of that value |
| Digits.DecimalText | src/System.Runtime/tests/System/Int32.cs:92-97 | the decimal text of a number is a non-empty digit string that starts with 0 only for 0 itself |
| Digits.DecimalTextRoundTrip | src/System.Runtime/tests/System/Int32.cs:92-97 | reading the decimal text of a number gives the number |
| Digits.DecimalValueRoundTrip | src/System.Runtime/tests/System/Int32.cs:171-198 | writing the value of a canonical digit string gives the string back |
| Digits.DecimalValueAppend | src/System.Runtime/tests/System/Int32.cs:171-198 | the value of two digit strings joined is the first scaled by ten per digit of the second, plus the second |
| Digits.LeadingZeros | src/System.Runtime/tests/System/Int32.cs:171-198 | zeros in front of digits do not change their value |
| Digits.ZeroPaddedValue | src/System.Runtime/tests/System/Int32.cs:119-131 | padding a digit string with zeros to a width keeps its value |
| Digits.TrailingZeros | src/System.Runtime/tests/System/Int32.cs:141-154 | zeros after digits multiply their value by a power of ten |
| Digits.HexDigitsValueAppend | src/System.Runtime/tests/System/Int32.cs:186-195 | the value of two hex digit strings joined is the first scaled by sixteen per digit of the second, plus the second |
| Digits.HexZeroPaddedValue | src/System.Runtime/tests/System/Int32.cs:119-131 | padding hex digits with zeros to a width keeps their value |
| Digits.HexFixedRoundTrip | src/System.Runtime/tests/System/Int32.cs:119-131 | the fixed-width hex text of a number reads back as the number, in either letter case |
| Digits.HexFixedSplit | src/System.Runtime/tests/System/Int32.cs:119-131 | the fixed-width hex text of a number made of two parts is the texts of the parts side by side |
| Digits.HexText | src/System.Runtime/tests/System/Int32.cs:119-131 | the shortest hex text of a number is non-empty hex digits that read back as the number |
| NumberParsing.Scaled | src/System.Runtime/tests/System/Int32.cs:251-255 | scaling a mantissa by a power of ten is exact: multiplying for a non-negative exponent, and for a negative one defined exactly when the digits dropped are zeros |
| NumberParsing.ParseDecimal | src/System.Runtime/tests/System/Int32.cs:171-290 | decimal parsing yields a value of the target type, or FormatException or OverflowException |
| NumberParsing.Signed | src/System.Runtime/tests/System/Int32.cs:255-256 | the sign is applied to the magnitude and the result is accepted exactly when it fits the type and is not a zero kept negative by a decimal point in a UInt16, UInt32 or UInt64, OverflowException otherwise |
| NumberParsing.ParseHex | src/System.Runtime/tests/System/Int32.cs:186-195 | hex parsing yields a value of the target type, or FormatException or OverflowException |
| NumberParsing.Parse | src/System.Runtime/tests/System/Int32.cs:171-290 | Parse yields a value of the type or a FormatException or OverflowException, and is ArgumentException exactly for a style that combines AllowHexSpecifier with anything but white space |
| NumberParsing.TryParse | src/System.Runtime/tests/System/Int32.cs:199-230 | TryParse is true with Parse's value exactly when Parse succeeds, and false with 0 when Parse fails |
| NumberParsing.ParseNullable | src/System.Runtime/tests/System/Int32.cs:232-288 | an invalid style is ArgumentException, else a null string is ArgumentNullException; any other string is read exactly as Parse reads it, into the type's range |
| NumberParsing.TryParseNullable | src/System.Runtime/tests/System/Int32.cs:232-288 | TryParse of a string reference is true with ParseNullable's value exactly when it succeeds, false with 0 for a null string or any text Parse refuses, and ArgumentException only for an invalid style |
| NumberParsing.LeadingWhite | src/System.Runtime/tests/System/Int32.cs:184 | leading white space is skipped when the style allows it |
| NumberParsing.LeadingNegative | src/System.Runtime/tests/System/Int32.cs:180-181 | the culture's negative sign in front of digits marks the number negative |
| NumberParsing.LeadingParenthesis | src/System.Runtime/tests/System/Int32.cs:190 | an opening parenthesis in front of digits marks the number negative when the style allows parentheses |
| NumberParsing.LeadingCurrency | src/System.Runtime/tests/System/Int32.cs:196 | the culture's currency symbol in front of digits is skipped when the style allows it |
| NumberParsing.ScanAllDigits | src/System.Runtime/tests/System/Int32.cs:171-198 | a run of digits is appended to the whole part of the number being read |
| NumberParsing.TrailingWhite | src/System.Runtime/tests/System/Int32.cs:184 | trailing white space is skipped when the style allows it |
| NumberParsing.ParseDigits | src/System.Runtime/tests/System/Int32.cs:180-185 | white space, an optional negative sign, digits and white space, each allowed by the style, parse to the signed value of the digits, or OverflowException when it does not fit |
| NumberParsing.ParseParenthesized | src/System.Runtime/tests/System/Int32.cs:190 | digits in parentheses parse to their negated value under AllowParentheses, or OverflowException when that does not fit |
| NumberParsing.ParseCurrencyWhole | src/System.Runtime/tests/System/Int32.cs:196 | a currency text that scans to whole digits parses to their value, or OverflowException |
| NumberParsing.ParseHexDigits | src/System.Runtime/tests/System/Int32.cs:186-195 | hex digits between white space under HexNumber parse to their bit pattern read as the type, or OverflowException when they need more bits than it has |
| NumberParsing.RejectsBlank | src/System.Runtime/tests/System/Int32.cs:240-241 | empty or all-blank text is FormatException |
| NumberParsing.RejectsNoDigits | src/System.Runtime/tests/System/Int32.cs:242-249 | text whose first character after white space is neither a digit nor a sign is FormatException under a plain integer style |
| NumberParsing.RejectsAfterDigits | src/System.Runtime/tests/System/Int32.cs:246-254 | digits followed by a character the style does not allow are FormatException |
| NumberFormatting.ParseFormat | src/System.Runtime/tests/System/Int32.cs:119-169 | a format string is accepted exactly when it is empty or one of G, D, X, N in either case with up to two precision digits; C, E, F and P (outside the model) are NotSupportedException, and any other letter, R included, FormatException |
| NumberFormatting.ToString | src/System.Runtime/tests/System/Int32.cs:92-169 | ToString fails only with FormatException or NotSupportedException, and with FormatException for an unknown specifier such as "Y" |
| NumberFormatting.DefaultIsGeneral | src/System.Runtime/tests/System/Int32.cs:92-117 | the parameterless ToString and the empty format are "G": the sign and the decimal digits |
| NumberFormatting.GeneralIsCanonical | src/System.Runtime/tests/System/Int32.cs:92-97 | "G" writes the culture's negative sign when the value is negative, then the digits of the magnitude with no leading zero |
| NumberFormatting.SpecifierCase | src/System.Runtime/tests/System/Int32.cs:127-131 | G, D and N give the same text in upper and lower case |
| NumberFormatting.HexSpecifier | src/System.Runtime/tests/System/Int32.cs:123 | "X" and "x" write the two's complement hex digits in the letter's case |
| NumberFormatting.GeneralRoundTrip | src/System.Runtime/tests/System/Int32.cs:92-230 | what "G" writes parses back to the value under Integer, in any culture whose signs are sane |
| NumberFormatting.DecimalRoundTrip | src/System.Runtime/tests/System/Int32.cs:92-230 | the "D" text of a value of the type, at any minimum width, parses back to it |
| NumberFormatting.DecimalOverflow | src/System.Runtime/tests/System/Int32.cs:255-256 | the decimal text of a value outside the type parses to OverflowException |
| NumberFormatting.ParseRangeLimits | src/System.Runtime/tests/System/Int32.cs:180-185 | the texts of MinValue and MaxValue parse back to them |
| NumberFormatting.ParseRangeBeyond | src/System.Runtime/tests/System/Int32.cs:255-256 | the texts of MinValue - 1 and MaxValue + 1 parse to OverflowException |
| NumberFormatting.HexRoundTrip | src/System.Runtime/tests/System/Int32.cs:119-131 | the "X" text of a value, at any width and in either case, parses back to it under HexNumber |
| NumberFormatting.ScanGrouped | src/System.Runtime/tests/System/Int32.cs:141-154 | digits written with group separators scan like the digits alone under Number |
| NumberFormatting.ScanNumber | src/System.Runtime/tests/System/Int32.cs:141-154 | the body of an "N" text scans to its whole digits and its zero decimals |
| NumberFormatting.NumberRoundTrip | src/System.Runtime/tests/System/Int32.cs:141-154 | the "N" text of a value, in a culture whose separators differ from its signs and digits, parses back to it under Number |
| NumberFormatting.NegativeZeroWithPoint | src/System.Runtime/tests/System/UInt32.cs:243-271 | a negative zero written with a decimal point under NumberStyles.Number is OverflowException for UInt16, UInt32 and UInt64 and 0 for the other types |
| IntegerParseExamples.ParseSurrounded | src/System.Runtime/tests/System/Int32.cs:184 | "  123  " under Integer is 123 for every type, in every culture |
| IntegerParseExamples.ParsePlain | src/System.Runtime/tests/System/Int32.cs:183-194 | "123" is 123 under Integer and under Any |
| IntegerParseExamples.ParseThousand | src/System.Runtime/tests/System/Int32.cs:189 | "1000" under AllowThousands is 1000 for each type that holds it |
| IntegerParseExamples.ParseTen | src/System.Runtime/tests/System/Byte.cs:170 | "10" under AllowThousands is 10 |
| IntegerParseExamples.ParseZero | src/System.Runtime/tests/System/Int32.cs:182 | "0" under Integer is 0 for every type |
| IntegerParseExamples.ParseNegative | src/System.Runtime/tests/System/Int32.cs:181 | "-123" is -123 for the signed types and OverflowException for the unsigned ones |
| IntegerParseExamples.ParseParentheses | src/System.Runtime/tests/System/Int32.cs:190 | "(123)" under AllowParentheses is -123 for the signed types and OverflowException for the unsigned ones |
| IntegerParseExamples.ParseHex | src/System.Runtime/tests/System/Int32.cs:187-195 | "123", "abc" and "12" under HexNumber are 0x123, 0xabc and 0x12, read as a bit pattern of the type |
| IntegerParseExamples.HexByteValues | src/System.Runtime/tests/System/Byte.cs:176 | "ab" under HexNumber is 0xab as a byte and -85 as an sbyte |
| IntegerParseExamples.RejectsNull | src/System.Runtime/tests/System/Int32.cs:239 | for every width and culture, a null string is ArgumentNullException under Integer, and TryParse gives false and 0 |
| IntegerParseExamples.RejectsEmpty | src/System.Runtime/tests/System/Int32.cs:240-241 | "" and " " are FormatException under Integer |
| IntegerParseExamples.RejectsLetters | src/System.Runtime/tests/System/Int32.cs:242-249 | "Garbage", hex letters, "(123)" and the invariant currency text are FormatException under Integer |
| IntegerParseExamples.RejectsUnderNone | src/System.Runtime/tests/System/Int32.cs:251-252 | NumberStyles.None refuses the white space around "  123  " and the letters of "abc" |
| IntegerParseExamples.RejectsAfterDigitsVectors | src/System.Runtime/tests/System/Int32.cs:246-254 | "1E23", "1,000" and "678.90" and "67.90" are FormatException under Integer |
| IntegerParseExamples.TryParseRejects | src/System.Runtime/tests/System/Int32.cs:258-290 | TryParse reports each of the rejected texts as false with 0 |
| IntegerParseExamples.ScanGroup | src/System.Runtime/tests/System/Int32.cs:196 | a currency group separator after the first digit is skipped |
| IntegerParseExamples.ParseDollars100 | src/System.Runtime/tests/System/Byte.cs:177 | "$100" under Currency with CurrencySymbol "$" is 100 |
| IntegerParseExamples.ParseDollars1000 | src/System.Runtime/tests/System/Int32.cs:196 | "$1,000" under Currency with CurrencySymbol "$" is 1000 |
| IntegerParseExamples.ParseDollarText | src/System.Runtime/tests/System/Int32.cs:196 | a "$" followed by text that scans to whole digits parses to their value under Currency, or OverflowException |
| IntegerParseExamples.ParseDecimalText | src/System.Runtime/tests/System/Int32.cs:180-185 | the decimal text of a value, with or without the negative sign, parses to it under Integer when it fits and to OverflowException otherwise |
| IntegerParseExamples.ByteParseLimits | src/System.Runtime/tests/System/Byte.cs:167 | "255" parses to Byte.MaxValue |
| IntegerParseExamples.ByteParseBeyond | src/System.Runtime/tests/System/Byte.cs:237-238 | "-1" and "256" are OverflowException for Byte |
| IntegerParseExamples.SByteParseLimits | src/System.Runtime/tests/System/SByte.cs:183 | "127" parses to SByte.MaxValue |
| IntegerParseExamples.SByteParseBeyond | src/System.Runtime/tests/System/SByte.cs:253-254 | "-129" and "128" are OverflowException for SByte |
| IntegerParseExamples.Int16ParseLimits | src/System.Runtime/tests/System/Int16.cs:180-185 | "-32768" and "32767" parse to Int16's limits |
| IntegerParseExamples.Int16ParseBeyond | src/System.Runtime/tests/System/Int16.cs:256-257 | "-32769" and "32768" are OverflowException for Int16 |
| IntegerParseExamples.UInt16ParseLimits | src/System.Runtime/tests/System/UInt16.cs:168 | "65535" parses to UInt16.MaxValue |
| IntegerParseExamples.UInt16ParseBeyond | src/System.Runtime/tests/System/UInt16.cs:238-239 | "-1" and "65536" are OverflowException for UInt16 |
| IntegerParseExamples.Int32ParseLimits | src/System.Runtime/tests/System/Int32.cs:180-185 | "-2147483648" and "2147483647" parse to Int32's limits |
| IntegerParseExamples.Int32ParseBeyond | src/System.Runtime/tests/System/Int32.cs:256-257 | "-2147483649" and "2147483648" are OverflowException for Int32 |
| IntegerParseExamples.UInt32ParseLimits | src/System.Runtime/tests/System/UInt32.cs:168 | "4294967295" parses to UInt32.MaxValue |
| IntegerParseExamples.UInt32ParseBeyond | src/System.Runtime/tests/System/UInt32.cs:238-239 | "-1" and "4294967296" are OverflowException for UInt32 |
| IntegerParseExamples.Int64ParseLimits | src/System.Runtime/tests/System/Int64.cs:180-185 | "-9223372036854775808" and "9223372036854775807" parse to Int64's limits |
| IntegerParseExamples.Int64ParseBeyond | src/System.Runtime/tests/System/Int64.cs:256-257 | one beyond either Int64 limit is OverflowException |
| IntegerParseExamples.UInt64ParseLimits | src/System.Runtime/tests/System/UInt64.cs:168 | "18446744073709551615" parses to UInt64.MaxValue |
| IntegerParseExamples.UInt64ParseBeyond | src/System.Runtime/tests/System/UInt64.cs:238-239 | "-1" and "18446744073709551616" are OverflowException for UInt64 |
| IntegerFormatExamples.GeneralText | src/System.Runtime/tests/System/Int32.cs:92-97 | "", "G" and "g" write the culture's negative sign for a negative value and then the canonical digits of the magnitude |
| IntegerFormatExamples.ByteExtremes | src/System.Runtime/tests/System/Byte.cs:87-89 | Byte.MaxValue is written "255" |
| IntegerFormatExamples.SByteExtremes | src/System.Runtime/tests/System/SByte.cs:87-91 | SByte's limits are written "-128" and "127" |
| IntegerFormatExamples.Int16Extremes | src/System.Runtime/tests/System/Int16.cs:88-92 | Int16's limits are written "-32768" and "32767" |
| IntegerFormatExamples.UInt16Extremes | src/System.Runtime/tests/System/UInt16.cs:87-89 | UInt16.MaxValue is written "65535" |
| IntegerFormatExamples.Int32Extremes | src/System.Runtime/tests/System/Int32.cs:88-92 | Int32's limits are written "-2147483648" and "2147483647" |
| IntegerFormatExamples.UInt32Extremes | src/System.Runtime/tests/System/UInt32.cs:87-89 | UInt32.MaxValue is written "4294967295" |
| IntegerFormatExamples.Int64Extremes | src/System.Runtime/tests/System/Int64.cs:88-92 | Int64's limits are written "-9223372036854775808" and "9223372036854775807" |
| IntegerFormatExamples.UInt64Extremes | src/System.Runtime/tests/System/UInt64.cs:87-89 | UInt64.MaxValue is written "18446744073709551615" |
| IntegerFormatExamples.CustomSignText | src/System.Runtime/tests/System/Int32.cs:109-110 | with NegativeSign "#", -6789 is written "#6789" and 6789 "6789" |
| IntegerFormatExamples.CustomSignTextSByte | src/System.Runtime/tests/System/SByte.cs:108 | with NegativeSign "#", (sbyte)-67 is written "#67" |
| IntegerFormatExamples.GeneralVector | src/System.Runtime/tests/System/Int32.cs:121 | "G" and "g" write -6321 as "-6321" |
| IntegerFormatExamples.HexVectorShape | src/System.Runtime/tests/System/Int32.cs:123 | "X" and "x" without precision write the shortest hex digits of a non-negative value in the letter's case |
| IntegerFormatExamples.HexVector | src/System.Runtime/tests/System/Int32.cs:123 | 0x2468 in "X" or "x" is "2468" |
| IntegerFormatExamples.HexVectorByte | src/System.Runtime/tests/System/Byte.cs:111 | (byte)0x24 in "X" or "x" is "24" |
| IntegerFormatExamples.NumberText | src/System.Runtime/tests/System/Int32.cs:141-154 | "N" and "n" write the sign, the grouped digits and NumberDecimalDigits zero decimals |
| IntegerFormatExamples.HashNumberVector | src/System.Runtime/tests/System/Int32.cs:153-154 | with "#", "~" and "*" as sign, decimal and group separator, -2468 in "N" is "#2*468~00" and 2468 is "2*468~00" |
| IntegerFormatExamples.HashNumberVectorSmall | src/System.Runtime/tests/System/SByte.cs:152-153 | the same culture writes 24 as "24~00" and -24 as "#24~00" |
| IntegerFormatExamples.InvariantNumberVector | src/System.Runtime/tests/System/Int32.cs:124 | "N" in the invariant culture writes 2468 as "2,468.00" |
| IntegerFormatExamples.UnknownSpecifier | src/System.Runtime/tests/System/Int32.cs:134-139 | the format "Y" is FormatException |
| NativeIntegers.Zero | src/System.Runtime/tests/System/IntPtr.cs:22-29 | IntPtr.Zero and UIntPtr.Zero hold the value 0 |
| NativeIntegers.New | src/System.Runtime/tests/System/IntPtr.cs:31-55 | a pointer made from a long or ulong holds that value, which ToInt64 and ToUInt64 give back |
| NativeIntegers.FromInteger | src/System.Runtime/tests/System/IntPtr.cs:139-140 | the cast from any integer holds the value congruent to it modulo 2^64 in the pointer's range, and the value itself when it fits |
| NativeIntegers.Add | src/System.Runtime/tests/System/IntPtr.cs:68-86 | Add(p, offset) is p plus the offset modulo 2^64, exactly the sum when it fits, and never OverflowException |
| NativeIntegers.Subtract | src/System.Runtime/tests/System/IntPtr.cs:88-99 | Subtract(p, offset) is p minus the offset modulo 2^64, exactly the difference when it fits |
| NativeIntegers.SubtractUndoesAdd | src/System.Runtime/tests/System/IntPtr.cs:68-99 | subtracting an offset undoes adding it, across the wrap-around too |
| NativeIntegers.Convert | src/System.Runtime/tests/System/IntPtr.cs:147-159 | a checked conversion succeeds with the value exactly when the value fits the target, and is OverflowException otherwise |
| NativeIntegers.ToInt32 | src/System.Runtime/tests/System/IntPtr.cs:151-159 | ToInt32 and ToUInt32 give the value when it fits 32 bits and OverflowException otherwise |
| NativeIntegers.ConvertRoundTrip | src/System.Runtime/tests/System/IntPtr.cs:130-141 | a pointer converted to an integer and cast back is the same pointer |
| NativeIntegers.WideConversion | src/System.Runtime/tests/System/IntPtr.cs:149 | ToInt64 and ToUInt64 succeed on every pointer with its value |
| NativeIntegers.Address | src/System.Runtime/tests/System/IntPtr.cs:57-66 | ToPointer gives a 64-bit address, the value itself for UIntPtr |
| NativeIntegers.FromAddress | src/System.Runtime/tests/System/IntPtr.cs:57-66 | a pointer made from an address is a valid pointer of the kind asked for |
| NativeIntegers.AddressRoundTrip | src/System.Runtime/tests/System/IntPtr.cs:57-66 | a pointer taken through void* and back is unchanged |
| NativeIntegers.Equals | src/System.Runtime/tests/System/IntPtr.cs:101-122 | Equals(object) is true exactly for a boxed pointer of the same kind and value, so a boxed 42 and null are not equal |
| NativeIntegers.HashCode | src/System.Runtime/tests/System/IntPtr.cs:111-121 | GetHashCode is a 32-bit int |
| NativeIntegers.EqualsHashCode | src/System.Runtime/tests/System/IntPtr.cs:113-114 | pointers that are Equals have equal hash codes |
| NativeIntegers.Text | src/System.Runtime/tests/System/IntPtr.cs:161 | ToString() is the text of the value as a long or ulong, and it parses back to the value |
| NativeIntegers.HexText | src/System.Runtime/tests/System/IntPtr.cs:162 | ToString("x") is the "x" text of the value as a long or ulong, and it parses back under HexNumber |
| NativeIntegers.IntPtrArithmetic | src/System.Runtime/tests/System/IntPtr.cs:74-98 | Add(42, 5) is 47, 40 + 2 is 42, Subtract(42, 5) is 37 and 44 - 2 is 42 |
| NativeIntegers.IntPtrAddWraps | src/System.Runtime/tests/System/IntPtr.cs:80-85 | adding 5 to long.MaxValue wraps to the pattern 0x8000000000000004 |
| NativeIntegers.UIntPtrAddWraps | src/System.Runtime/tests/System/UIntPtr.cs:64-95 | adding 5 to ulong.MaxValue wraps to 4, and the UIntPtr rows of Add and Subtract hold |
| NativeIntegers.IntPtrNarrowing | src/System.Runtime/tests/System/IntPtr.cs:143-144 | ToInt32 gives 42 and -1 and is OverflowException on 0x0fffffffffffffff and long.MaxValue |
| NativeIntegers.UIntPtrNarrowing | src/System.Runtime/tests/System/UIntPtr.cs:120-141 | ToUInt32 gives 42 and is OverflowException above uint.MaxValue |
| NativeIntegers.EqualityByValue | src/System.Runtime/tests/System/IntPtr.cs:164-170 | a pointer equals the pointer made from its own value, not the next one, not a boxed int and not null |
| Decimals.FromInteger | src/System.Runtime/tests/System/Decimal.cs:26-48 | the int, long, uint and ulong constructors give a valid decimal at scale 0 whose value is the integer |
| Decimals.Magnitude | src/System.Runtime/tests/System/Decimal.cs:50-58 | the three 32-bit words, read as unsigned, make a magnitude of at most 2^96 - 1 |
| Decimals.FromParts | src/System.Runtime/tests/System/Decimal.cs:50-58 | the five-part constructor succeeds exactly when the scale is at most 28, with the given sign and scale and the words' magnitude, and otherwise raises ArgumentOutOfRangeException |
| Decimals.FromBits | src/System.Runtime/tests/System/Decimal.cs:60-76 | new decimal(int[]) raises ArgumentNullException for null, succeeds exactly on four words with a well-formed flags word, and raises ArgumentException otherwise |
| Decimals.Flags | src/System.Runtime/tests/System/Decimal.cs:780-809 | the flags word of a valid decimal is a 32-bit int |
| Decimals.GetBits | src/System.Runtime/tests/System/Decimal.cs:780-809 | GetBits returns four 32-bit ints |
| Decimals.FlagsFields | src/System.Runtime/tests/System/Decimal.cs:800-806 | the flags word is well formed, negative exactly for a negative decimal (bit 31), and carries the scale in bits 16-23, however it is decoded |
| Decimals.GetBitsRoundTrip | src/System.Runtime/tests/System/Decimal.cs:780-809 | new decimal(GetBits(d)) is d |
| Decimals.GetBitsPartsRoundTrip | src/System.Runtime/tests/System/Decimal.cs:800-806 | decoding GetBits as the test does (sign from bit 31, scale from (flags >> 16) & 0x7F) and calling the five-part constructor gives d back |
| Decimals.FromBitsInverse | src/System.Runtime/tests/System/Decimal.cs:780-809 | whatever four words new decimal(int[]) accepts, GetBits of the result returns those same words: the encoding is one-to-one |
| Decimals.Compare | src/System.Runtime/tests/System/Decimal.cs:116-162 | Compare returns -1, 0 or 1, and 0 exactly when the two values are numerically equal |
| Decimals.CompareAtAnyScale | src/System.Runtime/tests/System/Decimal.cs:116-162 | Compare's sign is the order of the two values counted at any common scale, so trailing zeros do not matter |
| Decimals.CompareIsComparer | src/System.Runtime/tests/System/Decimal.cs:116-162 | Compare is a total order: reflexive, antisymmetric and transitive |
| Decimals.Equals | src/System.Runtime/tests/System/Decimal.cs:78-114 | Equals, == and decimal.Equals hold exactly when Compare gives 0 |
| Decimals.EqualsObject | src/System.Runtime/tests/System/Decimal.cs:78-114 | Equals(object) holds exactly for a boxed decimal of the same value; a boxed int or null is never equal |
| Decimals.CompareTo | src/System.Runtime/tests/System/Decimal.cs:116-170 | CompareTo(object) gives 1 for null and Compare for a boxed decimal, and raises ArgumentException for any other object |
| Decimals.Negate | src/System.Runtime/tests/System/Decimal.cs:464-477 | the negation has the opposite value at the same scale and is valid when its argument is |
| Decimals.NegateReverses | src/System.Runtime/tests/System/Decimal.cs:464-477 | negation reverses Compare, undoes itself, and swaps MaxValue and MinValue |
| Decimals.Truncate | src/System.Runtime/tests/System/Decimal.cs:765-778 | the result is a whole number with d's sign whose magnitude is the greatest whole number not above d's magnitude |
| Decimals.Floor | src/System.Runtime/tests/System/Decimal.cs:354-367 | the result is the whole number r with r <= d < r + 1 |
| Decimals.Ceiling | src/System.Runtime/tests/System/Decimal.cs:213-226 | the result is the whole number r with r - 1 < d <= r |
| Decimals.RoundingsAgree | src/System.Runtime/tests/System/Decimal.cs:213-226 | Truncate is Floor for non-negative values and Ceiling for negative ones, and all three agree on whole numbers |
| Decimals.HashCode | src/System.Runtime/tests/System/Decimal.cs:104 | the hash code is a 32-bit int |
| Decimals.HashCodeRespectsEquality | src/System.Runtime/tests/System/Decimal.cs:104 | decimals that are Equals, whatever their scales, have equal hash codes |
| Decimals.ToInteger | src/System.Runtime/tests/System/Decimal.cs:850-968 | ToSByte through ToUInt64 give the value truncated toward zero when the target type holds it, and raise OverflowException exactly when it does not |
| Decimals.RoundHalfEven | src/System.Runtime/tests/System/Decimal.cs:399-421 | the result is within half a step of n / p, and on a tie it is even |
| Decimals.RoundHalfEvenUnique | src/System.Runtime/tests/System/Decimal.cs:399-421 | any whole number within half a step of n / p that is even on a tie is RoundHalfEven(n, p): banker's rounding leaves no choice |
| Decimals.RoundExact | src/System.Runtime/tests/System/Decimal.cs:399-421 | an exact quotient is its own rounding |
| Decimals.Fit | src/System.Runtime/tests/System/Decimal.cs:172-211 | the result is the magnitude rounded half-even at a scale that fits 96 bits, dropping at least the required digits, and Overflow only when even the whole number is past 2^96 - 1 |
| Decimals.FitFinest | src/System.Runtime/tests/System/Decimal.cs:172-211 | the scale Fit stops at is the finest: every scale that drops fewer digits overflows 96 bits |
| Decimals.FitOverflow | src/System.Runtime/tests/System/Decimal.cs:199-211 | fitting fails exactly when the whole-number rounding is past 2^96 - 1 |
| Decimals.FitExact | src/System.Runtime/tests/System/Decimal.cs:172-197 | a magnitude that already fits at a valid scale is kept unchanged |
| Decimals.Add | src/System.Runtime/tests/System/Decimal.cs:172-211 | the sum is exact at the larger scale when it fits 96 bits, otherwise rounded half-even within half a unit of its last place, and OverflowException exactly when even the whole number is past 2^96 - 1 |
| Decimals.Subtract | src/System.Runtime/tests/System/Decimal.cs:724-763 | the difference is exact at the larger scale when it fits 96 bits, otherwise rounded within half a unit of its last place, and OverflowException exactly when even the whole number is past 2^96 - 1 |
| Decimals.SubtractAddsNegation | src/System.Runtime/tests/System/Decimal.cs:724-763 | d1 - d2 is d1 + (-d2), the sign of a zero difference included |
| Decimals.Increment | src/System.Runtime/tests/System/Decimal.cs:495-509 | when d + 1 fits 96 bits at d's scale, ++ gives exactly d + 1 at that scale |
| Decimals.Decrement | src/System.Runtime/tests/System/Decimal.cs:479-493 | when d - 1 fits 96 bits at d's scale, -- gives exactly d - 1 at that scale |
| Decimals.Multiply | src/System.Runtime/tests/System/Decimal.cs:399-462 | two counts that each fit 32 bits with a product scale past 47 give a positive zero at scale 0; otherwise the product carries the XOR of the signs, is exact when it fits 96 bits at scale 28 or below, is otherwise rounded within half a unit of its last place, and raises OverflowException exactly when its whole number is past 2^96 - 1 |
| Decimals.ShortProductVanishes | src/System.Runtime/tests/System/Decimal.cs:399-420 | in that 32-bit case the product rounded to scale 28 is zero as well, so only the sign and scale of the zero differ from the rounding rule |
| Decimals.DivideAtScale | src/System.Runtime/tests/System/Decimal.cs:228-308 | the quotient is rounded half-even at a scale up to the limit whose count fits 96 bits, and overflow only when the whole quotient does not fit |
| Decimals.DivideAtScaleAbove | src/System.Runtime/tests/System/Decimal.cs:228-308 | the scale the quotient search stops at is the finest: every finer scale up to the limit overflows 96 bits |
| Decimals.DivideAtScaleOverflow | src/System.Runtime/tests/System/Decimal.cs:310-352 | the quotient search fails exactly when the whole-number quotient is past 2^96 - 1 |
| Decimals.StripZeros | src/System.Runtime/tests/System/Decimal.cs:228-308 | dropping trailing zeros keeps the value and sign, stops at the preferred scale, and leaves no trailing zero above it |
| Decimals.Divide | src/System.Runtime/tests/System/Decimal.cs:228-352 | DivideByZeroException exactly for a zero divisor; otherwise a quotient within half a unit of its last place at the finest scale that fits, with no trailing zero above the preferred scale, or OverflowException exactly when the whole quotient is past 2^96 - 1 |
| Decimals.PreferredScale | src/System.Runtime/tests/System/Decimal.cs:228-308 | trailing zeros of a quotient are dropped down to d1.scale - d2.scale (0 when negative) exactly when the quotient is exact at that scale, and down to 0 otherwise |
| Decimals.Quotient | src/System.Runtime/tests/System/Decimal.cs:228-308 | the rounded quotient meets the same rounding, scale and overflow promise as Divide, with no trailing zero above the scale it is asked to keep |
| Decimals.DivideExact | src/System.Runtime/tests/System/Decimal.cs:228-308 | when the quotient is representable, Divide's result times the divisor is exactly the dividend |
| Decimals.ExactQuotientsAgree | src/System.Runtime/tests/System/Decimal.cs:228-308 | two exact quotients with the same sign are the same number, whatever their scales |
| Decimals.DivideRepresentable | src/System.Runtime/tests/System/Decimal.cs:228-308 | when a decimal x is exactly d / e, Divide(d, e) succeeds with x's value |
| Decimals.Remainder | src/System.Runtime/tests/System/Decimal.cs:646-722 | DivideByZeroException exactly for a zero divisor, OverflowException exactly when the whole quotient is past 2^96 - 1, and otherwise, at the larger scale, the remainder of truncated division carrying the dividend's sign |
| Decimals.RemainderValue | src/System.Runtime/tests/System/Decimal.cs:646-709 | the unsigned remainder at the common scale fits 96 bits and, signed as the dividend, is the truncated remainder of the two values |
| DecimalExamples.PartsConstructors | src/System.Runtime/tests/System/Decimal.cs:50-68 | new decimal(1, 1, 1, false, 0) and new decimal(new int[] { 1, 1, 1, 0 }) are both 3 + uint.MaxValue + ulong.MaxValue |
| DecimalExamples.BitsConstructorRejects | src/System.Runtime/tests/System/Decimal.cs:70-76 | a null array raises ArgumentNullException; arrays of 3 and 5 words raise ArgumentException |
| DecimalExamples.GetBitsSmall | src/System.Runtime/tests/System/Decimal.cs:782-791 | the words of small magnitudes |
| DecimalExamples.GetBitsScaled | src/System.Runtime/tests/System/Decimal.cs:784-785 | 10^28 at scales 14 and 28 |
| DecimalExamples.GetBitsExtremes | src/System.Runtime/tests/System/Decimal.cs:792-794 | MaxValue, MinValue and -7.9228162514264337593543950335 |
| DecimalExamples.EqualsVectors | src/System.Runtime/tests/System/Decimal.cs:78-114 | the EqualsTestData rows: Zero and MaxValue and MinValue equal themselves, Zero is not One nor MaxValue MinValue, and One equals neither null, an int nor a string; Zero and One, and MaxValue and MinValue, hash differently |
| DecimalExamples.HashVectors | src/System.Runtime/tests/System/Decimal.cs:104 | the model's stand-in hash gives Zero and One 0 and 1, MaxValue and MinValue -1 and 1, which is what puts the tested pairs apart (the runtime's values differ) |
| DecimalExamples.CompareVectors | src/System.Runtime/tests/System/Decimal.cs:116-170 | the CompareTestData rows and the rejected objects of TestCompare_Invalid |
| DecimalExamples.NegateVectors | src/System.Runtime/tests/System/Decimal.cs:464-477 | NegateTestData |
| DecimalExamples.RoundingVectors | src/System.Runtime/tests/System/Decimal.cs:213-226 | 123.456 and -123.456 under Floor, Ceiling and Truncate |
| DecimalExamples.ToIntegerAtMin | src/System.Runtime/tests/System/Decimal.cs:850-968 | ToSByte through ToUInt64 accept the target's MinValue and raise OverflowException one below it |
| DecimalExamples.ToIntegerAtMax | src/System.Runtime/tests/System/Decimal.cs:850-968 | ToSByte through ToUInt64 accept the target's MaxValue, and all but ToUInt64 raise OverflowException one above it |
| DecimalArithmeticExamples.AddOnes | src/System.Runtime/tests/System/Decimal.cs:174 | 1 + 1 is 2 |
| DecimalArithmeticExamples.AddScales | src/System.Runtime/tests/System/Decimal.cs:182 | 1234.5678 + 0.00009 is 1234.56789, at the larger scale |
| DecimalArithmeticExamples.AddSigns | src/System.Runtime/tests/System/Decimal.cs:183 | -1234.5678 + 0.00009 is -1234.56771 |
| DecimalArithmeticExamples.AddToMax | src/System.Runtime/tests/System/Decimal.cs:178 | 79228162514264337593543950330 + 5 is MaxValue |
| DecimalArithmeticExamples.AddToMin | src/System.Runtime/tests/System/Decimal.cs:181 | -79228162514264337593543950330 + -5 is MinValue |
| DecimalArithmeticExamples.AddFractions | src/System.Runtime/tests/System/Decimal.cs:185 | 0.5555555555555555555555555555 doubled is 1.1111111111111111111111111110 |
| DecimalArithmeticExamples.AddMaxOverflows | src/System.Runtime/tests/System/Decimal.cs:201 | MaxValue + MaxValue raises OverflowException |
| DecimalArithmeticExamples.AddOverflows | src/System.Runtime/tests/System/Decimal.cs:202 | 79228162514264337593543950330 + 6 raises OverflowException |
| DecimalArithmeticExamples.AddUnderflows | src/System.Runtime/tests/System/Decimal.cs:203 | -79228162514264337593543950330 + -6 raises OverflowException |
| DecimalArithmeticExamples.IncrementFraction | src/System.Runtime/tests/System/Decimal.cs:501 | 12345.678 incremented is 12346.678 |
| DecimalArithmeticExamples.IncrementNegative | src/System.Runtime/tests/System/Decimal.cs:502 | -12345.678 incremented is -12344.678 |
| DecimalArithmeticExamples.IncrementMinusOne | src/System.Runtime/tests/System/Decimal.cs:499 | -1 incremented is zero |
| DecimalArithmeticExamples.DecrementFraction | src/System.Runtime/tests/System/Decimal.cs:485 | 12345.678 decremented is 12344.678 |
| DecimalArithmeticExamples.DecrementZero | src/System.Runtime/tests/System/Decimal.cs:482 | 0 decremented is -1 |
| DecimalArithmeticExamples.MultiplyToMax | src/System.Runtime/tests/System/Decimal.cs:402 | 7922816251426433759354395033.5 * 10 rounds its product back to scale 0: MaxValue |
| DecimalArithmeticExamples.MultiplyNineTenths | src/System.Runtime/tests/System/Decimal.cs:408 | MaxValue * 0.9 is ...301.5, which rounds to the even ...302 |
| DecimalArithmeticExamples.MultiplyTiny | src/System.Runtime/tests/System/Decimal.cs:405 | a product below 10^-28 rounds to the smallest unit, at scale 28 |
| DecimalArithmeticExamples.MultiplyExtremesOverflow | src/System.Runtime/tests/System/Decimal.cs:425 | MaxValue * MinValue raises OverflowException |
| DecimalArithmeticExamples.MultiplyOverflows | src/System.Runtime/tests/System/Decimal.cs:427 | MaxValue * 1.1 raises OverflowException |
| DecimalArithmeticExamples.SubtractScales | src/System.Runtime/tests/System/Decimal.cs:738 | 1234.5678 - 0.00009 is 1234.56771 |
| DecimalArithmeticExamples.SubtractToMax | src/System.Runtime/tests/System/Decimal.cs:734 | 79228162514264337593543950330 - -5 is MaxValue |
| DecimalArithmeticExamples.SubtractToMin | src/System.Runtime/tests/System/Decimal.cs:736 | -79228162514264337593543950330 - 5 is MinValue |
| DecimalArithmeticExamples.SubtractOverflows | src/System.Runtime/tests/System/Decimal.cs:754 | 79228162514264337593543950330 - -6 raises OverflowException |
| DecimalArithmeticExamples.SubtractUnderflows | src/System.Runtime/tests/System/Decimal.cs:755 | -79228162514264337593543950330 - 6 raises OverflowException |
| DecimalArithmeticExamples.DivideHalves | src/System.Runtime/tests/System/Decimal.cs:232 | 15 / 2 is 7.5 |
| DecimalArithmeticExamples.DivideByZeroRaises | src/System.Runtime/tests/System/Decimal.cs:312 | 1 / 0 raises DivideByZeroException |
| DecimalArithmeticExamples.DivideOverflows | src/System.Runtime/tests/System/Decimal.cs:318 | MaxValue / 0.1 raises OverflowException |
| DecimalArithmeticExamples.RemainderSmall | src/System.Runtime/tests/System/Decimal.cs:649 | 5 % 3 is 2 |
| DecimalArithmeticExamples.RemainderScaled | src/System.Runtime/tests/System/Decimal.cs:664 | 8.55 % 2.25 is 1.80 |
| DecimalArithmeticExamples.DivideSigns | src/System.Runtime/tests/System/Decimal.cs:235 | 10 / -2 is -5 |
| DecimalArithmeticExamples.DivideMaxByMinusOne | src/System.Runtime/tests/System/Decimal.cs:241 | MaxValue / -1 is MinValue |
| DecimalArithmeticExamples.DivideMinByMax | src/System.Runtime/tests/System/Decimal.cs:242 | MinValue / MaxValue is -1 |
| DecimalArithmeticExamples.DivideMaxByTen | src/System.Runtime/tests/System/Decimal.cs:251 | MaxValue / 10 keeps every digit: 7922816251426433759354395033.5 |
| DecimalArithmeticExamples.DivideZeroByZero | src/System.Runtime/tests/System/Decimal.cs:313-314 | 0 / 0 and 0.0 / 0.0 raise DivideByZeroException too |
| DecimalArithmeticExamples.DivideNegativeOverflows | src/System.Runtime/tests/System/Decimal.cs:342 | MaxValue / -0.1 raises OverflowException |
| DecimalArithmeticExamples.DivideJustOverflows | src/System.Runtime/tests/System/Decimal.cs:319 | 7922816251426433759354395034 / 0.1 is just past MaxValue |
| DecimalArithmeticExamples.RemainderSigns | src/System.Runtime/tests/System/Decimal.cs:650-651 | the remainder takes the dividend's sign: 5 % -3 is 2 and -5 % 3 is -2 |
| DecimalArithmeticExamples.RemainderNegativeZero | src/System.Runtime/tests/System/Decimal.cs:659 | -2.0 % 0.5 is a negative zero |
| DecimalArithmeticExamples.RemainderFraction | src/System.Runtime/tests/System/Decimal.cs:660 | 2.3 % 0.531 is 0.176 |
| DecimalArithmeticExamples.RemainderByFraction | src/System.Runtime/tests/System/Decimal.cs:662 | 3242 % 0.00123 is 0.00044 |
| DecimalArithmeticExamples.RemainderOfMax | src/System.Runtime/tests/System/Decimal.cs:672-673 | MaxValue % 2394713 is 1494647 and MaxValue % -32768 is 32767 |
| DecimalArithmeticExamples.RemainderOfMin | src/System.Runtime/tests/System/Decimal.cs:681 | MinValue % 1 is a negative zero |
| DecimalArithmeticExamples.RemainderRejects | src/System.Runtime/tests/System/Decimal.cs:713-714 | 5 % 0 raises DivideByZeroException and MaxValue % 0.1 raises OverflowException |
| DecimalExamples.ToIntegerOfInteger | src/System.Runtime/tests/System/Decimal.cs:850-968 | an integer-valued decimal converts to every integer type that holds it and raises OverflowException for the others |
| Guids.FromFields | src/System.Runtime/tests/System/Guid.cs:28-33 | new Guid(int, short, short, byte[]) succeeds exactly for eight bytes, keeping them and the fields' bit patterns, and raises ArgumentException otherwise |
| Guids.FromComponents | src/System.Runtime/tests/System/Guid.cs:21-26 | the constructor with eight byte arguments is the byte-array constructor on those bytes in order |
| Guids.ToByteArray | src/System.Runtime/tests/System/Guid.cs:90-97 | sixteen bytes: the 32-bit field little-endian, the two 16-bit fields little-endian, then the eight trailing bytes |
| Guids.FromBytes | src/System.Runtime/tests/System/Guid.cs:14-19 | new Guid(byte[]) succeeds exactly for sixteen bytes, with a Guid whose ToByteArray is those bytes, and raises ArgumentException otherwise |
| Guids.ByteArrayRoundTrip | src/System.Runtime/tests/System/Guid.cs:14-19 | new Guid(g.ToByteArray()) is g |
| Guids.Hex32 | src/System.Runtime/tests/System/Guid.cs:170-179 | the digits every text form writes are 32 hex digits |
| Guids.Hex32RoundTrip | src/System.Runtime/tests/System/Guid.cs:115-130 | reading a Guid's 32 digits gives the Guid back |
| Guids.FromHex32Number | src/System.Runtime/tests/System/Guid.cs:115-130 | the Guid read from 32 hex digits, in either case, has their value as its 128-bit number |
| Guids.Layout | src/System.Runtime/tests/System/Guid.cs:170-179 | the text of a form over 32 digits has the form's width: 32 for N, 36 for D, 38 for B and P, 68 for X |
| Guids.ExtractLayout | src/System.Runtime/tests/System/Guid.cs:115-130 | every form puts the 32 digits exactly where parsing reads them back |
| Guids.ExtractLayouts | src/System.Runtime/tests/System/Guid.cs:115-130 | no text of a form has any digit string but its own at the digit positions |
| Guids.FormOf | src/System.Runtime/tests/System/Guid.cs:170-179 | a format specifier is accepted exactly when it is one of N, D, B, P, X in either case; anything else raises FormatException |
| Guids.ParseForm | src/System.Runtime/tests/System/Guid.cs:124-130 | a text parses under a form exactly when it is that form's layout of some 32 hex digits, and then gives the Guid those digits write; otherwise FormatException |
| Guids.FormRoundTrip | src/System.Runtime/tests/System/Guid.cs:115-130 | every form of a Guid's digits parses under that form back to the Guid |
| Guids.ToString | src/System.Runtime/tests/System/Guid.cs:170-179 | ToString succeeds exactly for "" and the five specifiers, and writes the Guid's digits in that form, "" meaning D; any other specifier raises FormatException |
| Guids.DefaultIsD | src/System.Runtime/tests/System/Guid.cs:173-175 | ToString() and ToString("D") both write the hyphenated form |
| Guids.ParseExact | src/System.Runtime/tests/System/Guid.cs:124-130 | ParseExact raises FormatException for an unknown specifier and otherwise reads the trimmed text under the one form it names |
| Guids.FormForLayout | src/System.Runtime/tests/System/Guid.cs:115-123 | the characters of a text tell which of the five forms wrote it |
| Guids.Parse | src/System.Runtime/tests/System/Guid.cs:115-123 | Parse succeeds exactly on a text that, trimmed of white space, is one of the five forms over some 32 hex digits, giving the Guid those digits write, and raises FormatException otherwise |
| Guids.TrimStart | src/System.Runtime/tests/System/Guid.cs:115-123 | the result is a suffix of the text, what it drops is all white space, and it does not begin with white space |
| Guids.TrimEnd | src/System.Runtime/tests/System/Guid.cs:115-123 | the result is a prefix of the text, what it drops is all white space, and it does not end with white space |
| Guids.Trim | src/System.Runtime/tests/System/Guid.cs:115-123 | the trimmed text has no white space at either end |
| Guids.TrimPadded | src/System.Runtime/tests/System/Guid.cs:115-123 | Trim drops exactly the white space around a text with none at its ends |
| Guids.TrimIdempotent | src/System.Runtime/tests/System/Guid.cs:115-123 | trimming twice is trimming once |
| Guids.LayoutUnpadded | src/System.Runtime/tests/System/Guid.cs:115-123 | every one of the five forms begins and ends with a digit, brace or parenthesis, so Trim keeps it |
| Guids.ParseTrimmed | src/System.Runtime/tests/System/Guid.cs:115-123 | Parse of a text and of its trimmed text agree |
| Guids.ParsePadded | src/System.Runtime/tests/System/Guid.cs:115-123 | any of the five forms with white space of any length around it is read as the Guid its digits write |
| Guids.TryParse | src/System.Runtime/tests/System/Guid.cs:132-148 | TryParse succeeds exactly when Parse does, with the same Guid |
| Guids.TryParseExact | src/System.Runtime/tests/System/Guid.cs:149-161 | TryParseExact succeeds exactly when ParseExact does, with the same Guid |
| Guids.New | src/System.Runtime/tests/System/Guid.cs:35-46 | new Guid(string) raises ArgumentNullException for null and is Parse otherwise |
| Guids.TextRoundTrip | src/System.Runtime/tests/System/Guid.cs:115-179 | every text ToString writes parses back to the Guid, with Parse and with ParseExact under its own specifier |
| Guids.WrongLength | src/System.Runtime/tests/System/Guid.cs:160-161 | a text whose length is not the form's width is refused under that form |
| Guids.Compare | src/System.Runtime/tests/System/Guid.cs:70-76 | CompareTo(Guid) is -1, 0 or 1, 0 exactly for equal Guids, and otherwise orders them as the 128-bit numbers their digits write |
| Guids.CompareOrder | src/System.Runtime/tests/System/Guid.cs:73-76 | that number is ordered by the 32-bit field, then the 16-bit fields, then the trailing bytes, each unsigned |
| Guids.CompareAntisymmetric | src/System.Runtime/tests/System/Guid.cs:70-88 | swapping the operands negates CompareTo |
| Guids.CompareTo | src/System.Runtime/tests/System/Guid.cs:78-87 | IComparable.CompareTo gives 1 for null, raises ArgumentException for a string, and orders boxed Guids as CompareTo(Guid) |
| Guids.Equals | src/System.Runtime/tests/System/Guid.cs:48-67 | Equals(object) holds exactly for a boxed Guid with the same fields, which is exactly when CompareTo gives 0 |
| Guids.HashCode | src/System.Runtime/tests/System/Guid.cs:164-168 | GetHashCode is a 32-bit int |
| Guids.HashCodeEquals | src/System.Runtime/tests/System/Guid.cs:164-168 | equal Guids have equal hash codes |
| GuidExamples.FormD | src/System.Runtime/tests/System/Guid.cs:118 | ToString() and ToString("D"), Parse, ParseExact and TryParse of the D text |
| GuidExamples.FormN | src/System.Runtime/tests/System/Guid.cs:119 | The N form |
| GuidExamples.FormsBP | src/System.Runtime/tests/System/Guid.cs:121-122 | The B and P forms |
| GuidExamples.FormX | src/System.Runtime/tests/System/Guid.cs:123 | The X form |
| GuidExamples.ParseFailures | src/System.Runtime/tests/System/Guid.cs:160-161 | 31 digits are no Guid, nor is a hyphenated text under "N" |
| GuidExamples.CtorString | src/System.Runtime/tests/System/Guid.cs:12 | new Guid(string) reads the D text; a null string raises ArgumentNullException |
| GuidExamples.TestToByteArray | src/System.Runtime/tests/System/Guid.cs:90-97 | ToByteArray: the three fields little-endian, then the eight bytes |
| GuidExamples.CtorByteArray | src/System.Runtime/tests/System/Guid.cs:14-19 | new Guid(byte[]) of ToByteArray gives the Guid back |
| GuidExamples.CtorFields | src/System.Runtime/tests/System/Guid.cs:21-33 | new Guid(int, short, short, byte[]) and the form with eight byte arguments, from the signed values unchecked((int)0xa8a110d5) and unchecked((short)0xfc49) |
| GuidExamples.TestEmpty | src/System.Runtime/tests/System/Guid.cs:99-103 | Guid.Empty is new Guid(0, 0, 0, eight zero bytes) |
| GuidExamples.TestEquals | src/System.Runtime/tests/System/Guid.cs:49-68 | Equals, == and != |
| GuidExamples.TestCompareToLower | src/System.Runtime/tests/System/Guid.cs:74 | CompareTo with 98a110d5-... is positive |
| GuidExamples.TestCompareToSelf | src/System.Runtime/tests/System/Guid.cs:75 | CompareTo with itself is 0 |
| GuidExamples.TestCompareToHigher | src/System.Runtime/tests/System/Guid.cs:76 | CompareTo with e8a110d5-... is negative |
| GuidExamples.TestCompareToObjects | src/System.Runtime/tests/System/Guid.cs:85-87 | IComparable.CompareTo(null) is positive and CompareTo of a string raises ArgumentException |
| GuidExamples.TestGetHashCode | src/System.Runtime/tests/System/Guid.cs:164-168 | the test Guid hashes to an odd number, so not to the empty Guid's 0 |
| GuidExamples.CtorShortArray | src/System.Runtime/tests/System/Guid.cs:14-33 | new Guid(byte[]) refuses the eight trailing bytes alone, and new Guid(int, short, short, byte[]) refuses an empty array, both with ArgumentException |
| GuidExamples.NonGuids | src/System.Runtime/tests/System/Guid.cs:66-87 | null and a string are never equal to a Guid; null compares below it and a string raises ArgumentException |
| Versions.Components | src/System.Runtime/tests/System/Version.cs:82-90 | a version has two to four defined components in order: Major and Minor, then Build and Revision exactly where they are not -1 |
| Versions.ComponentsInjective | src/System.Runtime/tests/System/Version.cs:82-90 | a version is determined by its defined components |
| Versions.New | src/System.Runtime/tests/System/Version.cs:13-80 | the constructors succeed exactly when no argument is negative, and then the arguments are the defined components, an omitted Build or Revision reading -1; otherwise ArgumentOutOfRangeException |
| Versions.MajorRevision | src/System.Runtime/tests/System/Version.cs:88 | MajorRevision is a 16-bit short |
| Versions.MinorRevision | src/System.Runtime/tests/System/Version.cs:89 | MinorRevision is a 16-bit short |
| Versions.RevisionHalves | src/System.Runtime/tests/System/Version.cs:88-89 | MajorRevision times 2^16 plus MinorRevision read unsigned is Revision, defined or -1 |
| Versions.CompareTo | src/System.Runtime/tests/System/Version.cs:92-113 | CompareTo is 1 for null and otherwise -1, 0 or 1 by Major, Minor, Build and Revision in turn, an omitted component below every defined one, 0 exactly for equal versions |
| Versions.KeyOrder | src/System.Runtime/tests/System/Version.cs:92-113 | the order is lexicographic on Major, Minor, Build, Revision |
| Versions.LessTotal | src/System.Runtime/tests/System/Version.cs:92-113 | the order is irreflexive, asymmetric and trichotomous |
| Versions.LessTransitive | src/System.Runtime/tests/System/Version.cs:92-113 | the order is transitive |
| Versions.CompareToAntisymmetric | src/System.Runtime/tests/System/Version.cs:92-113 | swapping the operands negates CompareTo |
| Versions.Equals | src/System.Runtime/tests/System/Version.cs:115-148 | Equals holds exactly for a version with the same four fields, which is exactly when CompareTo gives 0 |
| Versions.HashCode | src/System.Runtime/tests/System/Version.cs:150-155 | GetHashCode is a 32-bit int |
| Versions.HashCodeEquals | src/System.Runtime/tests/System/Version.cs:150-155 | equal versions have equal hash codes |
| Versions.HashCodeApart | src/System.Runtime/tests/System/Version.cs:121-124 | each unequal pair of EqualsData hashes to different codes |
| Versions.Split | src/System.Runtime/tests/System/Version.cs:196-227 | the pieces between the dots contain no dot and join back to the text |
| Versions.SplitJoin | src/System.Runtime/tests/System/Version.cs:196-227 | splitting text joined from dot-free pieces gives the pieces back |
| Versions.Text | src/System.Runtime/tests/System/Version.cs:157-163 | ToString() splits at the dots into the decimal texts of the defined components |
| Versions.TextShape | src/System.Runtime/tests/System/Version.cs:157-163 | ToString() is Major.Minor, then .Build and .Revision where they are defined |
| Versions.TextOf | src/System.Runtime/tests/System/Version.cs:165-194 | ToString(n) succeeds exactly for 0 <= n <= the number of defined components, giving "" for 0 and otherwise the first n components' texts joined with dots, and all of them for n at the count; otherwise ArgumentException |
| Versions.TextOfShape | src/System.Runtime/tests/System/Version.cs:165-194 | ToString(1), (2) and (3) are the first one, two or three components |
| Versions.ParseComponent | src/System.Runtime/tests/System/Version.cs:196-227 | a component parses exactly when Int32.Parse under NumberStyles.Integer gives a non-negative value, with that value; otherwise FormatException, OverflowException or ArgumentOutOfRangeException |
| Versions.ParseComponents | src/System.Runtime/tests/System/Version.cs:196-227 | the components parse exactly when each does, giving each one's value in order |
| Versions.FirstFailureDecides | src/System.Runtime/tests/System/Version.cs:215-227 | the first component that fails decides the exception |
| Versions.ParseComponentDigits | src/System.Runtime/tests/System/Version.cs:196-227 | digits with an optional minus and white space around them give their value in 0..int.MaxValue, OverflowException past Int32 and ArgumentOutOfRangeException below 0 |
| Versions.ParseJoinedOk | src/System.Runtime/tests/System/Version.cs:196-213 | dot-free pieces that read as a version's components parse, joined, to that version |
| Versions.ParseJoinedErr | src/System.Runtime/tests/System/Version.cs:215-227 | two to four dot-free pieces joined raise the exception of the first piece that fails |
| Versions.Parse | src/System.Runtime/tests/System/Version.cs:196-227 | Parse raises ArgumentException exactly for fewer than two or more than four pieces, and otherwise succeeds exactly when every piece parses as a component, with those components |
| Versions.ParseNullable | src/System.Runtime/tests/System/Version.cs:216 | a null string raises ArgumentNullException; any other is Parse |
| Versions.TryParse | src/System.Runtime/tests/System/Version.cs:204-227 | TryParse succeeds exactly when Parse does, with the same version |
| Versions.TryParseNullable | src/System.Runtime/tests/System/Version.cs:216-227 | TryParse of null gives none, and of any other string what TryParse gives |
| Versions.ParseComponentText | src/System.Runtime/tests/System/Version.cs:196-213 | the decimal text of a component in 0..int.MaxValue parses back to it |
| Versions.ParseText | src/System.Runtime/tests/System/Version.cs:157-213 | the text ToString() writes parses back to the same version |
| VersionExamples.ConstructorRejects | src/System.Runtime/tests/System/Version.cs:22-62 | new Version(...) with any negative argument raises ArgumentOutOfRangeException |
| VersionExamples.ConstructorDefaults | src/System.Runtime/tests/System/Version.cs:13-90 | The omitted components read back as -1, so MajorRevision and MinorRevision are -1 too; with revision 7 they are 0 and 7, and with int.MaxValue 32767 and -1 |
| VersionExamples.CompareToVectors | src/System.Runtime/tests/System/Version.cs:92-113 | 1.2 against the CompareToData rows |
| VersionExamples.EqualsVectors | src/System.Runtime/tests/System/Version.cs:115-148 | The EqualsData rows, in both directions |
| VersionExamples.TextVectors | src/System.Runtime/tests/System/Version.cs:157-163 | ToString() of 1.2, 1.2.3 and 1.2.3.4, and Parse of that text |
| VersionExamples.FieldCountTwo | src/System.Runtime/tests/System/Version.cs:168-175 | ToString(n) of 5.3: "", "5", "5.3", then ArgumentException for 3, 4, 5 and -1 |
| VersionExamples.FieldCountThree | src/System.Runtime/tests/System/Version.cs:177-184 | ToString(n) of 10.11.12: up to "10.11.12", then ArgumentException for 4, 5 and -1 |
| VersionExamples.FieldCountFour | src/System.Runtime/tests/System/Version.cs:186-193 | ToString(n) of 1.2.3.4: up to "1.2.3.4", then ArgumentException for 5 and -1 |
| VersionExamples.ParseSpaced | src/System.Runtime/tests/System/Version.cs:201 | "2.3. 4. \t\r\n15 " is 2.3.4.15: white space around each component is skipped |
| VersionExamples.ParseOnePiece | src/System.Runtime/tests/System/Version.cs:216 | A null string raises ArgumentNullException, and TryParse refuses it |
| TimeSpans.FromTime | src/System.Runtime/tests/System/TimeSpan.cs:26-31 | new TimeSpan(h, m, s) succeeds exactly when the total ticks fit 64 bits, with exactly those ticks; otherwise ArgumentOutOfRangeException |
| TimeSpans.FromComponents | src/System.Runtime/tests/System/TimeSpan.cs:33-58 | new TimeSpan(d, h, m, s, ms) succeeds exactly when the total ticks fit 64 bits, with exactly those ticks; otherwise ArgumentOutOfRangeException |
| TimeSpans.FromDayTime | src/System.Runtime/tests/System/TimeSpan.cs:80-85 | new TimeSpan(d, h, m, s) is the five-part constructor with zero milliseconds |
| TimeSpans.Interval | src/System.Runtime/tests/System/TimeSpan.cs:68-78 | a From* factory succeeds exactly when value times its unit in milliseconds lies strictly inside the millisecond range, giving a valid span of exactly that many ticks; otherwise OverflowException |
| TimeSpans.FromDays | src/System.Runtime/tests/System/TimeSpan.cs:73 | FromDays(n) succeeds exactly when n days lie strictly inside the millisecond range, and is then n days of ticks; otherwise OverflowException |
| TimeSpans.FromHours | src/System.Runtime/tests/System/TimeSpan.cs:74 | FromHours(n) succeeds exactly when n hours lie strictly inside the millisecond range, and is then n hours of ticks; otherwise OverflowException |
| TimeSpans.FromMinutes | src/System.Runtime/tests/System/TimeSpan.cs:75 | FromMinutes(n) succeeds exactly when n minutes lie strictly inside the millisecond range, and is then n minutes of ticks; otherwise OverflowException |
| TimeSpans.FromSeconds | src/System.Runtime/tests/System/TimeSpan.cs:76 | FromSeconds(n) succeeds exactly when n seconds lie strictly inside the millisecond range, and is then n seconds of ticks; otherwise OverflowException |
| TimeSpans.FromMilliseconds | src/System.Runtime/tests/System/TimeSpan.cs:77 | FromMilliseconds(n) succeeds exactly when n milliseconds lie strictly inside the millisecond range, and is then n milliseconds of ticks; otherwise OverflowException |
| TimeSpans.Negate | src/System.Runtime/tests/System/TimeSpan.cs:85 | Negate succeeds exactly for every span but MinValue, with a valid span of the opposite ticks; otherwise OverflowException |
| TimeSpans.Days | src/System.Runtime/tests/System/TimeSpan.cs:146 | Days has the span's sign or is 0, and is the number of whole days in the ticks' magnitude |
| TimeSpans.Hours | src/System.Runtime/tests/System/TimeSpan.cs:147 | Hours lies strictly between -24 and 24 and has the span's sign or is 0 |
| TimeSpans.Minutes | src/System.Runtime/tests/System/TimeSpan.cs:148 | Minutes lies strictly between -60 and 60 and has the span's sign or is 0 |
| TimeSpans.Seconds | src/System.Runtime/tests/System/TimeSpan.cs:149 | Seconds lies strictly between -60 and 60 and has the span's sign or is 0 |
| TimeSpans.Milliseconds | src/System.Runtime/tests/System/TimeSpan.cs:150 | Milliseconds lies strictly between -1000 and 1000 and has the span's sign or is 0 |
| TimeSpans.ComponentsReadBack | src/System.Runtime/tests/System/TimeSpan.cs:13-38 | components of one sign within their bounds (hours below 24, minutes and seconds below 60, milliseconds below 1000) read back unchanged from the span they add up to |
| TimeSpans.ComponentsRebuild | src/System.Runtime/tests/System/TimeSpan.cs:144-151 | every span's components are of one sign and within their bounds, and add up, with the ticks below a millisecond, to the span |
| TimeSpans.ConstructorOfComponents | src/System.Runtime/tests/System/TimeSpan.cs:40-58 | a span's components, fed back to the five-part constructor, give the span truncated to whole milliseconds |
| TimeSpans.NegateComponents | src/System.Runtime/tests/System/TimeSpan.cs:60-66 | negating a span negates each component, since components truncate toward zero |
| TimeSpanText.SkipBlanks | src/System.Runtime/tests/System/TimeSpan.cs:80-142 | skipping blanks leaves a suffix that does not start with a blank |
| TimeSpanText.ParseBounded | src/System.Runtime/tests/System/TimeSpan.cs:118-142 | a digit field reads a value no larger than its bound and consumes text; a missing field is FormatException and a value past the bound OverflowException |
| TimeSpanText.ParseConstant | src/System.Runtime/tests/System/TimeSpan.cs:80-142 | ParseExact(s, "c") gives a valid span, and fails only with FormatException or OverflowException |
| TimeSpanText.TryParseConstant | src/System.Runtime/tests/System/TimeSpan.cs:134-142 | TryParseExact(s, "c") is true exactly when ParseExact succeeds, with the same span, and otherwise false with Zero |
| TimeSpanText.TimeThen | src/System.Runtime/tests/System/TimeSpan.cs:83 | hh:mm:ss[.f] followed by text that ends the field reads as its ticks |
| TimeSpanText.HoursOverflow | src/System.Runtime/tests/System/TimeSpan.cs:121 | hours past 23 are OverflowException, whatever follows |
| TimeSpanText.DaysThen | src/System.Runtime/tests/System/TimeSpan.cs:84-85 | digits ending in '.' are read as days followed by a time of day |
| TimeSpanText.ParseConstantText | src/System.Runtime/tests/System/TimeSpan.cs:80-142 | the c form built from fields within their bounds reads back as their ticks with the sign, OverflowException when the ticks cannot hold them and FormatException when anything but blanks follows |
| TimeSpanText.ParseWholeText | src/System.Runtime/tests/System/TimeSpan.cs:99-116 | fields that make up the whole text parse, with ParseExact and TryParseExact, to the span of their signed ticks whenever those fit |
| TimeSpanText.SignStep | src/System.Runtime/tests/System/TimeSpan.cs:85 | the body is read from just after an optional '-' |
| TimeSpanText.PiecesOfFields | src/System.Runtime/tests/System/TimeSpan.cs:80-97 | the fields of the c form are within their bounds and add up to the span's magnitude |
| TimeSpanText.ParseFormatConstant | src/System.Runtime/tests/System/TimeSpan.cs:80-116 | the c-form text of any span, MinValue included, parses back with ParseExact(s, "c") to the same span |
| TimeSpanExamples.EmptyComponents | src/System.Runtime/tests/System/TimeSpan.cs:13-18 | new TimeSpan() and default(TimeSpan) have all-zero components |
| TimeSpanExamples.LongComponents | src/System.Runtime/tests/System/TimeSpan.cs:20-24 | new TimeSpan(999999999999999999) is 1157407 days 09:46:39.999 |
| TimeSpanExamples.TimeComponents | src/System.Runtime/tests/System/TimeSpan.cs:26-31 | new TimeSpan(10, 9, 8) reads 10 hours, 9 minutes and 8 seconds |
| TimeSpanExamples.FullComponents | src/System.Runtime/tests/System/TimeSpan.cs:33-38 | new TimeSpan(10, 9, 8, 7, 6) reads back each argument |
| TimeSpanExamples.MaxValueComponents | src/System.Runtime/tests/System/TimeSpan.cs:63 | MaxValue is 10675199.02:48:05.477 |
| TimeSpanExamples.MinValueComponents | src/System.Runtime/tests/System/TimeSpan.cs:64 | MinValue reads MaxValue's components negated |
| TimeSpanExamples.BelowMinValue | src/System.Runtime/tests/System/TimeSpan.cs:43-49 | one unit below MinValue in any of the five components raises ArgumentOutOfRangeException |
| TimeSpanExamples.AboveMaxValue | src/System.Runtime/tests/System/TimeSpan.cs:51-57 | one unit above MaxValue in any of the five components raises ArgumentOutOfRangeException |
| TimeSpanExamples.FactoriesOfComponents | src/System.Runtime/tests/System/TimeSpan.cs:68-78 | FromDays through FromMilliseconds on a component of 10.09:08:07.006 equal the constructor given only that component |
| TimeSpanExamples.ParseTimeOfDay | src/System.Runtime/tests/System/TimeSpan.cs:83 | "12:24:02" in the c form is 12:24:02 |
| TimeSpanExamples.ParseDayAndTime | src/System.Runtime/tests/System/TimeSpan.cs:84 | "1.12:24:02" is one day and 12:24:02 |
| TimeSpanExamples.ParseNegative | src/System.Runtime/tests/System/TimeSpan.cs:85 | "-01.07:45:16.999" is the negation of 1.07:45:16.999 |
| TimeSpanExamples.ParseHourOverflow | src/System.Runtime/tests/System/TimeSpan.cs:121 | "24:24:02" raises OverflowException, and TryParseExact gives false and Zero |
| TimeSpanExamples.ParseTrailingField | src/System.Runtime/tests/System/TimeSpan.cs:122 | "1:12:24:02" raises FormatException, and TryParseExact gives false and Zero |
| Calendar.DaysToMonth | src/System.Runtime/tests/System/DateTime.cs:198-204 | the cumulative month table of a year increases from 0 and ends at the year's length, 366 in a leap year and 365 otherwise |
| Calendar.SplitDayProper | src/System.Runtime/tests/System/DateTime.cs:14-31 | splitting a day number into 400-, 100- and 4-year periods, years and the day of the year gives a proper split that adds back to it |
| Calendar.SplitDayUnique | src/System.Runtime/tests/System/DateTime.cs:14-31 | a proper split is the split of the day number it adds up to |
| Calendar.SplitYearFacts | src/System.Runtime/tests/System/DateTime.cs:198-204 | the year of a proper split is a leap year exactly when the split says so, and starts at the days of the whole periods before it |
| Calendar.LeapOfPeriods | src/System.Runtime/tests/System/DateTime.cs:198-204 | a year written by periods is a leap year exactly when it closes a 4-year period that is not a century, or closes a 400-year period |
| Calendar.MonthFrom | src/System.Runtime/tests/System/DateTime.cs:14-31 | the month search finds a month whose days hold the day of the year |
| Calendar.MonthFromUnique | src/System.Runtime/tests/System/DateTime.cs:14-31 | the month found is the only one whose days hold the day of the year |
| Calendar.DayNumberOfDate | src/System.Runtime/tests/System/DateTime.cs:14-31 | every day number before 10000-01-01 has a valid date whose day number it is |
| Calendar.DateOfDayNumber | src/System.Runtime/tests/System/DateTime.cs:43-61 | every valid date lies before 10000-01-01 and is the date of its own day number |
| Calendar.YearLengthOfLeap | src/System.Runtime/tests/System/DateTime.cs:198-204 | the next year starts 366 days later exactly when the year is a leap year, otherwise 365 |
| Calendar.DayOfWeek | src/System.Runtime/tests/System/DateTime.cs:232-237 | the day of the week is 0 (Sunday) to 6 |
| DateTimes.KindOf | src/System.Runtime/tests/System/DateTime.cs:33-41 | a DateTimeKind is accepted exactly when it is Unspecified, Utc or Local (0 to 2), else ArgumentException |
| DateTimes.FromTicks | src/System.Runtime/tests/System/DateTime.cs:14-41 | new DateTime(ticks[, kind]) succeeds exactly for ticks from MinValue to MaxValue and a valid kind, keeping both; out-of-range ticks raise ArgumentOutOfRangeException, a bad kind ArgumentException |
| DateTimes.IsLeapYear | src/System.Runtime/tests/System/DateTime.cs:198-204 | IsLeapYear is defined exactly for years 1 to 9999 and holds exactly when the year has 366 days; otherwise ArgumentOutOfRangeException |
| DateTimes.DaysInMonth | src/System.Runtime/tests/System/DateTime.cs:43-61 | DaysInMonth is defined exactly for a valid year and month, lies in 28..31, is 29 exactly for February of a leap year, and bounds exactly the valid days |
| DateTimes.DateToTicks | src/System.Runtime/tests/System/DateTime.cs:43-61 | a date is accepted exactly when it is valid, as its day number times a day of ticks; otherwise ArgumentOutOfRangeException |
| DateTimes.TimeToTicks | src/System.Runtime/tests/System/DateTime.cs:63-90 | a time of day is accepted exactly when hours are 0..23 and minutes and seconds 0..59, as its ticks; otherwise ArgumentOutOfRangeException |
| DateTimes.Create | src/System.Runtime/tests/System/DateTime.cs:43-189 | the component constructors succeed exactly for a valid date, a valid time, milliseconds 0..999 and a valid kind, with the ticks those components add up to; a bad kind alone raises ArgumentException, any bad component ArgumentOutOfRangeException |
| DateTimes.CreateReadBack | src/System.Runtime/tests/System/DateTime.cs:43-189 | a constructed DateTime reads back every component and the kind it was given |
| DateTimes.ReadComponents | src/System.Runtime/tests/System/DateTime.cs:592-603 | Year, Month, Day, Hour, Minute, Second and Millisecond of the ticks of valid components are those components |
| DateTimes.Year | src/System.Runtime/tests/System/DateTime.cs:594 | the year read is 1..9999 |
| DateTimes.Month | src/System.Runtime/tests/System/DateTime.cs:595 | the month read is 1..12 |
| DateTimes.Day | src/System.Runtime/tests/System/DateTime.cs:596 | the day read is one that the year and month read have |
| DateTimes.Hour | src/System.Runtime/tests/System/DateTime.cs:597 | the hour read is 0..23 |
| DateTimes.Minute | src/System.Runtime/tests/System/DateTime.cs:598 | the minute read is 0..59 |
| DateTimes.Second | src/System.Runtime/tests/System/DateTime.cs:599 | the second read is 0..59 |
| DateTimes.Millisecond | src/System.Runtime/tests/System/DateTime.cs:600 | the millisecond read is 0..999 |
| DateTimes.WeekDay | src/System.Runtime/tests/System/DateTime.cs:232-237 | DayOfWeek is 0 (Sunday) to 6 |
| DateTimes.TimeOfDay | src/System.Runtime/tests/System/DateTime.cs:239-248 | the time of day is below one day of ticks, and the DateTime's ticks minus it are whole days |
| DateTimes.DateOnly | src/System.Runtime/tests/System/DateTime.cs:511 | the date part is a valid DateTime of the same kind at a whole day, at most the DateTime and less than a day before it |
| DateTimes.ComponentsRebuild | src/System.Runtime/tests/System/DateTime.cs:592-603 | every DateTime's components are valid and add up, with the ticks below a millisecond, to its ticks |
| DateTimes.ConstructorOfComponents | src/System.Runtime/tests/System/DateTime.cs:43-189 | a DateTime's components and kind fed back to the constructor give it truncated to whole milliseconds |
| DateTimes.DateValid | src/System.Runtime/tests/System/DateTime.cs:191-196 | the date of every DateTime from MinValue to MaxValue is valid and its day number is the DateTime's day |
| DateTimes.AddTicks | src/System.Runtime/tests/System/DateTime.cs:206-230 | AddTicks succeeds exactly when the result stays within MinValue..MaxValue, moving the ticks and keeping the kind; otherwise ArgumentOutOfRangeException |
| DateTimes.AddScaled | src/System.Runtime/tests/System/DateTime.cs:206-230 | AddDays through AddMilliseconds of a whole count succeed exactly when its milliseconds lie strictly inside the millisecond range and the result stays within MinValue..MaxValue, moving the ticks by value times the unit and keeping the kind |
| DateTimes.AddDays | src/System.Runtime/tests/System/DateTime.cs:210-211 | AddDays(n) succeeds exactly when n days in milliseconds lie strictly inside the millisecond range and the result stays within MinValue..MaxValue, and is then n days of ticks later with the kind kept; otherwise ArgumentOutOfRangeException |
| DateTimes.AddHours | src/System.Runtime/tests/System/DateTime.cs:219-220 | AddHours(n) succeeds exactly when n hours in milliseconds lie strictly inside the millisecond range and the result stays within MinValue..MaxValue, and is then n hours of ticks later with the kind kept; otherwise ArgumentOutOfRangeException |
| DateTimes.AddMinutes | src/System.Runtime/tests/System/DateTime.cs:222-223 | AddMinutes(n) succeeds exactly when n minutes in milliseconds lie strictly inside the millisecond range and the result stays within MinValue..MaxValue, and is then n minutes of ticks later with the kind kept; otherwise ArgumentOutOfRangeException |
| DateTimes.AddSeconds | src/System.Runtime/tests/System/DateTime.cs:225-226 | AddSeconds(n) succeeds exactly when n seconds in milliseconds lie strictly inside the millisecond range and the result stays within MinValue..MaxValue, and is then n seconds of ticks later with the kind kept; otherwise ArgumentOutOfRangeException |
| DateTimes.AddMilliseconds | src/System.Runtime/tests/System/DateTime.cs:228-229 | AddMilliseconds(n) succeeds exactly when n milliseconds in milliseconds lie strictly inside the millisecond range and the result stays within MinValue..MaxValue, and is then n milliseconds of ticks later with the kind kept; otherwise ArgumentOutOfRangeException |
| DateTimes.Difference | src/System.Runtime/tests/System/DateTime.cs:291-307 | dt1 - dt2 is the span of their tick difference |
| DateTimes.Add | src/System.Runtime/tests/System/DateTime.cs:239-248 | dt + ts succeeds exactly when the result stays in range, keeping the kind, and the result minus dt is ts |
| DateTimes.SubtractSpan | src/System.Runtime/tests/System/DateTime.cs:276-289 | dt - ts succeeds exactly when the result stays in range, moving the ticks back by ts and keeping the kind |
| DateTimes.ShiftMonth | src/System.Runtime/tests/System/DateTime.cs:213-214 | moving by some months gives a month 1..12 whose year*12 + month moved by exactly that many |
| DateTimes.ClampDay | src/System.Runtime/tests/System/DateTime.cs:213-217 | the day is kept when the target month has it and otherwise becomes the month's last day |
| DateTimes.MoveToMonth | src/System.Runtime/tests/System/DateTime.cs:213-217 | moving a DateTime to another month of years 1..9999 gives a valid DateTime of the same kind |
| DateTimes.AddMonths | src/System.Runtime/tests/System/DateTime.cs:213-214 | AddMonths succeeds exactly for a count within ±120000 whose target year is 1..9999, keeping the kind; otherwise ArgumentOutOfRangeException |
| DateTimes.AddYears | src/System.Runtime/tests/System/DateTime.cs:216-217 | AddYears fails only with ArgumentOutOfRangeException |
| DateTimes.AddMonthsFields | src/System.Runtime/tests/System/DateTime.cs:213-214 | AddMonths moves year*12 + month by the count, keeps the day unless the month is shorter (then its last day), and keeps the time of day and the kind |
| DateTimes.AddYearsFields | src/System.Runtime/tests/System/DateTime.cs:216-217 | AddYears succeeds exactly for a count within ±10000 whose target year is 1..9999, moving the year only, clamping the day as AddMonths does, and keeping the time of day and the kind |
| DateTimes.AddDaysFields | src/System.Runtime/tests/System/DateTime.cs:210-211 | AddDays moves the day number by the count and the day of the week with it, keeping the time of day |
| DateTimes.AddHoursFields | src/System.Runtime/tests/System/DateTime.cs:219-220 | AddHours moves the whole hours by the count and keeps minute, second and millisecond |
| DateTimes.AddMinutesFields | src/System.Runtime/tests/System/DateTime.cs:222-223 | AddMinutes moves the whole minutes by the count and keeps second and millisecond |
| DateTimes.AddSecondsFields | src/System.Runtime/tests/System/DateTime.cs:225-226 | AddSeconds moves the whole seconds by the count and keeps the millisecond |
| DateTimes.AddMillisecondsFields | src/System.Runtime/tests/System/DateTime.cs:228-229 | AddMilliseconds moves the whole milliseconds by the count and keeps the ticks below a millisecond |
| DateTimes.DateOnlyFields | src/System.Runtime/tests/System/DateTime.cs:239-248 | the date part keeps year, month, day and kind and reads midnight |
| DateTimes.TimeOfDayRoundTrip | src/System.Runtime/tests/System/DateTime.cs:239-248 | dt - dt.TimeOfDay is midnight of dt's day, and adding the time of day back gives dt |
| DateTimes.TimeOfDayFields | src/System.Runtime/tests/System/DateTime.cs:239-248 | TimeOfDay has no days and dt's hour, minute, second and millisecond |
| DateTimes.DifferenceRoundTrip | src/System.Runtime/tests/System/DateTime.cs:291-307 | subtracting a - b from a gives b's instant, adding it to b gives a's, and b - a is its negation |
| DateTimes.AddSubtractInverse | src/System.Runtime/tests/System/DateTime.cs:276-289 | adding a span and then subtracting it gives the DateTime back |
| DateTimeExamples.TicksComponents | src/System.Runtime/tests/System/DateTime.cs:14-31 | new DateTime(999999999999999999) and its Utc twin read 3169-11-16 09:46:39.999 |
| DateTimeExamples.TicksInvalid | src/System.Runtime/tests/System/DateTime.cs:20-41 | ticks one outside either limit raise ArgumentOutOfRangeException; a kind outside 0 to 2 raises ArgumentException |
| DateTimeExamples.CtorDate | src/System.Runtime/tests/System/DateTime.cs:43-48 | new DateTime(2012, 6, 11) reads back what it was given |
| DateTimeExamples.CtorDateTime | src/System.Runtime/tests/System/DateTime.cs:63-68 | new DateTime(2012, 12, 31, 13, 50, 10) reads back what it was given |
| DateTimeExamples.CtorDateTimeKind | src/System.Runtime/tests/System/DateTime.cs:92-97 | new DateTime(1986, 8, 15, 10, 20, 5, Local) reads back what it was given |
| DateTimeExamples.CtorMilliseconds | src/System.Runtime/tests/System/DateTime.cs:124-129 | new DateTime(1973, 10, 6, 14, 30, 0, 500) reads back what it was given |
| DateTimeExamples.CtorMillisecondsKind | src/System.Runtime/tests/System/DateTime.cs:156-161 | new DateTime(1986, 8, 15, 10, 20, 5, 600, Local) reads back what it was given |
| DateTimeExamples.ConstructorInvalid | src/System.Runtime/tests/System/DateTime.cs:50-185 | every out-of-range component of the Invalid tests raises ArgumentOutOfRangeException, whatever the kind |
| DateTimeExamples.ConstructorKindInvalid | src/System.Runtime/tests/System/DateTime.cs:120-121 | a kind outside 0 to 2 with valid components raises ArgumentException |
| DateTimeExamples.MaxValueFields | src/System.Runtime/tests/System/DateTime.cs:194 | MaxValue reads 9999-12-31 23:59:59.999, Unspecified |
| DateTimeExamples.MinValueFields | src/System.Runtime/tests/System/DateTime.cs:195 | MinValue reads 0001-01-01 00:00:00.000, Unspecified |
| DateTimeExamples.LeapYears | src/System.Runtime/tests/System/DateTime.cs:198-204 | 2004 is a leap year and 2005 is not |
| DateTimeExamples.StartFields | src/System.Runtime/tests/System/DateTime.cs:209 | new DateTime(1986, 8, 15, 10, 20, 5, 70) reads back what it was given |
| DateTimeExamples.AddDaysRows | src/System.Runtime/tests/System/DateTime.cs:210-211 | AddDays(2) reads day 17 and AddDays(-2) day 13 |
| DateTimeExamples.AddMonthsRows | src/System.Runtime/tests/System/DateTime.cs:213-214 | AddMonths(2) reads month 10 and AddMonths(-2) month 6 |
| DateTimeExamples.AddYearsRows | src/System.Runtime/tests/System/DateTime.cs:216-217 | AddYears(10) reads year 1996 and AddYears(-10) year 1976 |
| DateTimeExamples.AddHoursRows | src/System.Runtime/tests/System/DateTime.cs:219-220 | AddHours(3) reads hour 13 and AddHours(-3) hour 7 |
| DateTimeExamples.AddMinutesRows | src/System.Runtime/tests/System/DateTime.cs:222-223 | AddMinutes(5) reads minute 25 and AddMinutes(-5) minute 15 |
| DateTimeExamples.AddSecondsRows | src/System.Runtime/tests/System/DateTime.cs:225-226 | AddSeconds(30) reads second 35 and AddSeconds(-3) second 2 |
| DateTimeExamples.AddMillisecondsRows | src/System.Runtime/tests/System/DateTime.cs:228-229 | AddMilliseconds(10) reads millisecond 80 and AddMilliseconds(-10) millisecond 60 |
| DateTimeExamples.MondayRow | src/System.Runtime/tests/System/DateTime.cs:232-237 | 2012-06-18 is a Monday |
| DateTimeExamples.TimeOfDayRow | src/System.Runtime/tests/System/DateTime.cs:239-248 | 2012-06-18 10:05:01 less its time of day is midnight of that day, and adding the time of day back restores it |
| DateTimeExamples.SubtractSpanRows | src/System.Runtime/tests/System/DateTime.cs:276-289 | 2012-06-18 10:05:01 Utc less 10:05:01 is midnight, and less -10:05:01 is 20:10:02, both Utc |
| DateTimeExamples.DifferenceRows | src/System.Runtime/tests/System/DateTime.cs:291-307 | 1996-12-06 13:02 less 1996-06-03 22:15 is 185.14:47:00, and the reverse is its negation |
| DateTimeOffsets.Clock | src/System.Runtime/tests/System/DateTimeOffset.cs:14-36 | the clock time of any valid instant is a valid DateTime of kind Unspecified |
| DateTimeOffsets.Offset | src/System.Runtime/tests/System/DateTimeOffset.cs:536-539 | the offset is whole minutes, and for a valid DateTimeOffset no more than fourteen hours either way |
| DateTimeOffsets.Ticks | src/System.Runtime/tests/System/DateTimeOffset.cs:262-266 | Ticks is the UTC ticks plus the offset, within DateTime's range |
| DateTimeOffsets.Year | src/System.Runtime/tests/System/DateTimeOffset.cs:528 | the year of the clock time is 1..9999 |
| DateTimeOffsets.Month | src/System.Runtime/tests/System/DateTimeOffset.cs:529 | the month of the clock time is 1..12 |
| DateTimeOffsets.Day | src/System.Runtime/tests/System/DateTimeOffset.cs:530 | the day of the clock time is one that its year and month have |
| DateTimeOffsets.Hour | src/System.Runtime/tests/System/DateTimeOffset.cs:531 | the hour of the clock time is 0..23 |
| DateTimeOffsets.Minute | src/System.Runtime/tests/System/DateTimeOffset.cs:532 | the minute of the clock time is 0..59 |
| DateTimeOffsets.Second | src/System.Runtime/tests/System/DateTimeOffset.cs:533 | the second of the clock time is 0..59 |
| DateTimeOffsets.Millisecond | src/System.Runtime/tests/System/DateTimeOffset.cs:534 | the millisecond of the clock time is 0..999 |
| DateTimeOffsets.WeekDay | src/System.Runtime/tests/System/DateTimeOffset.cs:328-333 | DayOfWeek of the clock time is 0 (Sunday) to 6 |
| DateTimeOffsets.TimeOfDay | src/System.Runtime/tests/System/DateTimeOffset.cs:259-267 | the time of day is below one day of ticks, and Ticks minus it are whole days |
| DateTimeOffsets.ValidateOffset | src/System.Runtime/tests/System/DateTimeOffset.cs:117-126 | an offset that is not whole minutes is ArgumentException, one beyond fourteen hours ArgumentOutOfRangeException, otherwise its whole minutes come back |
| DateTimeOffsets.ValidateDate | src/System.Runtime/tests/System/DateTimeOffset.cs:128-130 | the UTC ticks of a clock time at an offset are accepted exactly when inside DateTime's range, ArgumentOutOfRangeException otherwise |
| DateTimeOffsets.AtOffset | src/System.Runtime/tests/System/DateTimeOffset.cs:62-73 | a clock time at a validated offset is accepted exactly when its UTC ticks are in range, and then has that clock time and offset |
| DateTimeOffsets.FromTicks | src/System.Runtime/tests/System/DateTimeOffset.cs:109-131 | new DateTimeOffset(ticks, offset) checks the offset first, then the ticks, then the UTC range, and on success reads back the ticks and offset |
| DateTimeOffsets.FromDateTimeAt | src/System.Runtime/tests/System/DateTimeOffset.cs:62-107 | a Local time needs the local offset and a Utc time offset zero (ArgumentException), then offset and range are checked; a result has the DateTime's ticks as its clock time |
| DateTimeOffsets.FromDateTime | src/System.Runtime/tests/System/DateTimeOffset.cs:20-60 | new DateTimeOffset(dateTime) is the two-argument constructor at offset zero for a Utc time and at the local offset otherwise; a Utc time is always accepted, with its own ticks and offset zero |
| DateTimeOffsets.Create | src/System.Runtime/tests/System/DateTimeOffset.cs:133-249 | the component constructor checks the offset first, then the components as DateTime does, then the UTC range; a result shows those components |
| DateTimeOffsets.Rezone | src/System.Runtime/tests/System/DateTimeOffset.cs:302-325 | a clock-time result taken back to an offset is accepted exactly when its UTC ticks are in range, and keeps that offset |
| DateTimeOffsets.Add | src/System.Runtime/tests/System/DateTimeOffset.cs:258-267 | Add moves the UTC instant by the span and keeps the offset; it is ArgumentOutOfRangeException exactly when the clock time or the UTC instant would leave the range |
| DateTimeOffsets.SubtractSpan | src/System.Runtime/tests/System/DateTimeOffset.cs:269-282 | Subtract(TimeSpan) moves the UTC instant back by the span and keeps the offset; it is ArgumentOutOfRangeException exactly when the clock time or the UTC instant would leave the range |
| DateTimeOffsets.AddDays | src/System.Runtime/tests/System/DateTimeOffset.cs:306-307 | AddDays(n) succeeds exactly when n days in milliseconds lie strictly inside the millisecond range and both the clock time and the UTC instant stay in range, and then moves the UTC instant by n days and keeps the offset; otherwise ArgumentOutOfRangeException |
| DateTimeOffsets.AddHours | src/System.Runtime/tests/System/DateTimeOffset.cs:315-316 | AddHours(n) succeeds exactly when n hours in milliseconds lie strictly inside the millisecond range and both the clock time and the UTC instant stay in range, and then moves the UTC instant by n hours and keeps the offset; otherwise ArgumentOutOfRangeException |
| DateTimeOffsets.AddMinutes | src/System.Runtime/tests/System/DateTimeOffset.cs:318-319 | AddMinutes(n) succeeds exactly when n minutes in milliseconds lie strictly inside the millisecond range and both the clock time and the UTC instant stay in range, and then moves the UTC instant by n minutes and keeps the offset; otherwise ArgumentOutOfRangeException |
| DateTimeOffsets.AddSeconds | src/System.Runtime/tests/System/DateTimeOffset.cs:321-322 | AddSeconds(n) succeeds exactly when n seconds in milliseconds lie strictly inside the millisecond range and both the clock time and the UTC instant stay in range, and then moves the UTC instant by n seconds and keeps the offset; otherwise ArgumentOutOfRangeException |
| DateTimeOffsets.AddMilliseconds | src/System.Runtime/tests/System/DateTimeOffset.cs:324-325 | AddMilliseconds(n) succeeds exactly when n milliseconds in milliseconds lie strictly inside the millisecond range and both the clock time and the UTC instant stay in range, and then moves the UTC instant by n milliseconds and keeps the offset; otherwise ArgumentOutOfRangeException |
| DateTimeOffsets.AddMonths | src/System.Runtime/tests/System/DateTimeOffset.cs:309-310 | a result of AddMonths is a valid DateTimeOffset with the same offset; a failure is ArgumentOutOfRangeException |
| DateTimeOffsets.AddYears | src/System.Runtime/tests/System/DateTimeOffset.cs:312-313 | a result of AddYears is a valid DateTimeOffset with the same offset; a failure is ArgumentOutOfRangeException |
| DateTimeOffsets.Difference | src/System.Runtime/tests/System/DateTimeOffset.cs:284-300 | the difference of two instants is a valid span equal to the distance between their UTC ticks, whatever their offsets |
| DateTimeOffsets.FromTicksOfParts | src/System.Runtime/tests/System/DateTimeOffset.cs:109-115 | the offset of every DateTimeOffset passes the offset check, and the ticks constructor on its clock ticks and offset gives it back |
| DateTimeOffsets.FromDateTimeComponents | src/System.Runtime/tests/System/DateTimeOffset.cs:20-36 | a DateTimeOffset built from a DateTime shows the DateTime's year, month, day, hour, minute, second and millisecond |
| DateTimeOffsets.AddSubtractInverse | src/System.Runtime/tests/System/DateTimeOffset.cs:258-267 | subtracting a span undoes adding it, and the difference from the start is the span added |
| DateTimeOffsets.DifferenceAntisymmetric | src/System.Runtime/tests/System/DateTimeOffset.cs:284-300 | the difference in the other order is its negation, and subtracting a's difference from b from a lands on b's instant |
| DateTimeOffsets.AddUnitsOnClock | src/System.Runtime/tests/System/DateTimeOffset.cs:302-325 | each accepted AddDays, AddMonths, AddYears, AddHours, AddMinutes, AddSeconds and AddMilliseconds has as its clock time DateTime's same addition on the clock time |
| DateTimeOffsetExamples.EmptyRow | src/System.Runtime/tests/System/DateTimeOffset.cs:13-18 | new DateTimeOffset() and default(DateTimeOffset) read 0001-01-01 00:00:00.000 at offset zero |
| DateTimeOffsetExamples.UtcShows | src/System.Runtime/tests/System/DateTimeOffset.cs:20-36 | a Utc DateTime gives offset zero and shows its own components |
| DateTimeOffsetExamples.FromUtcRow | src/System.Runtime/tests/System/DateTimeOffset.cs:23-24 | 2012-06-11 Utc gives offset zero and its own components |
| DateTimeOffsetExamples.FromLocalRow | src/System.Runtime/tests/System/DateTimeOffset.cs:26-27 | 1986-08-15 10:20:05.004 Local keeps its components at any local offset |
| DateTimeOffsetExamples.BeyondLimitsRows | src/System.Runtime/tests/System/DateTimeOffset.cs:38-60 | components one unit past MinValue or MaxValue, Utc, are ArgumentOutOfRangeException |
| DateTimeOffsetExamples.BeyondLimitsComponentRows | src/System.Runtime/tests/System/DateTimeOffset.cs:173-191 | the same components passed to the component constructor at offset zero are ArgumentOutOfRangeException |
| DateTimeOffsetExamples.ExtremeOffsetRows | src/System.Runtime/tests/System/DateTimeOffset.cs:65-69 | DateTime.MinValue at -14:00 and DateTime.MaxValue at +14:00 are accepted and read back their components and offsets |
| DateTimeOffsetExamples.ZeroOffsetRow | src/System.Runtime/tests/System/DateTimeOffset.cs:71-72 | 2012-12-31 13:50:10 at offset zero reads back its components |
| DateTimeOffsetExamples.MismatchedOffsetRows | src/System.Runtime/tests/System/DateTimeOffset.cs:76-86 | a Local time at +-15:00, a Utc time at +01:00 and offsets of +-3 s or +-3 ms are ArgumentException |
| DateTimeOffsetExamples.TicksRow | src/System.Runtime/tests/System/DateTimeOffset.cs:109-115 | the ticks of 0001-02-03 04:05:06.007 at offset zero read back as that time |
| DateTimeOffsetExamples.TicksInvalidRows | src/System.Runtime/tests/System/DateTimeOffset.cs:117-131 | offsets of +-3 s or +-3 ms are ArgumentException; +-15:00 and ticks one past MinValue or MaxValue are ArgumentOutOfRangeException |
| DateTimeOffsetExamples.ComponentMillisecondsRow | src/System.Runtime/tests/System/DateTimeOffset.cs:133-138 | 1973-10-06 14:30:00.500 at offset zero reads back those components |
| DateTimeOffsetExamples.ComponentSecondsRow | src/System.Runtime/tests/System/DateTimeOffset.cs:195-200 | 1973-10-06 14:30:00 at offset zero reads back those components with millisecond 0 |
| DateTimeOffsetExamples.ComponentOffsetRows | src/System.Runtime/tests/System/DateTimeOffset.cs:140-150 | the offset is checked before the components: a fractional offset is ArgumentException, +-15:00 ArgumentOutOfRangeException |
| DateTimeOffsetExamples.ComponentInvalidRows | src/System.Runtime/tests/System/DateTimeOffset.cs:151-171 | year 0 or 10000, month 0 or 13, day 0 or 32, hour -1 or 24, minute or second -1 or 60, millisecond -1 or 1000 are ArgumentOutOfRangeException |
| DateTimeOffsetExamples.LimitsRow | src/System.Runtime/tests/System/DateTimeOffset.cs:251-256 | MaxValue reads 9999-12-31 23:59:59.999 and MinValue 0001-01-01 00:00:00.000, both at offset zero |
| DateTimeOffsetExamples.AdditionDaysRows | src/System.Runtime/tests/System/DateTimeOffset.cs:305-307 | AddDays(2) reads day 17 and AddDays(-2) day 13, at any local offset |
| DateTimeOffsetExamples.AdditionMonthsRows | src/System.Runtime/tests/System/DateTimeOffset.cs:309-310 | AddMonths(2) reads month 10 and AddMonths(-2) month 6, at any local offset |
| DateTimeOffsetExamples.AdditionYearsRows | src/System.Runtime/tests/System/DateTimeOffset.cs:312-313 | AddYears(10) reads year 1996 and AddYears(-10) year 1976, at any local offset |
| DateTimeOffsetExamples.AdditionHoursRows | src/System.Runtime/tests/System/DateTimeOffset.cs:315-316 | AddHours(3) reads hour 13 and AddHours(-3) hour 7, at any local offset |
| DateTimeOffsetExamples.AdditionMinutesRows | src/System.Runtime/tests/System/DateTimeOffset.cs:318-319 | AddMinutes(5) reads minute 25 and AddMinutes(-5) minute 15, at any local offset |
| DateTimeOffsetExamples.AdditionSecondsRows | src/System.Runtime/tests/System/DateTimeOffset.cs:321-322 | AddSeconds(30) reads second 35 and AddSeconds(-3) second 2, at any local offset |
| DateTimeOffsetExamples.AdditionMillisecondsRows | src/System.Runtime/tests/System/DateTimeOffset.cs:324-325 | AddMilliseconds(10) reads millisecond 80 and AddMilliseconds(-10) millisecond 60, at any local offset |
| DateTimeOffsetExamples.TimeOfDayAtLocal | src/System.Runtime/tests/System/DateTimeOffset.cs:258-267 | a local time less its time of day has the ticks of its midnight at the local offset, and adding the time of day back restores its ticks |
| DateTimeOffsetExamples.AddSubtractRow | src/System.Runtime/tests/System/DateTimeOffset.cs:258-267 | 2012-06-18 10:05:01 less its time of day has the ticks of 2012-06-18, and adding it back restores the ticks |
| DateTimeOffsetExamples.SubtractRows | src/System.Runtime/tests/System/DateTimeOffset.cs:269-282 | 2012-06-18 10:05:01 Utc less 10:05:01 is midnight, and less -10:05:01 is 20:10:02, at offset zero |
| DateTimeOffsetExamples.DifferenceRows | src/System.Runtime/tests/System/DateTimeOffset.cs:284-300 | 1996-12-06 13:02 Utc less 1996-06-03 22:15 Utc is 185.14:47:00, and the reverse its negation |
| DateTimeOffsetExamples.DayOfWeekRow | src/System.Runtime/tests/System/DateTimeOffset.cs:327-333 | 2012-06-18 at any local offset is a Monday |
| UnixTimes.ToMilliseconds | src/System.Runtime/tests/System/DateTimeOffset.UnixTimeConversions.cs:27-33 | ToUnixTimeMilliseconds is the whole millisecond, counted from 1970-01-01 UTC, that holds the instant's UTC ticks, between MinValue's and MaxValue's counts |
| UnixTimes.ToSeconds | src/System.Runtime/tests/System/DateTimeOffset.UnixTimeConversions.cs:42-48 | ToUnixTimeSeconds is the whole second, counted from 1970-01-01 UTC, that holds the instant's UTC ticks, between MinValue's and MaxValue's counts |
| UnixTimes.FromMilliseconds | src/System.Runtime/tests/System/DateTimeOffset.UnixTimeConversions.cs:57-74 | FromUnixTimeMilliseconds is accepted exactly for counts inside DateTimeOffset's range, ArgumentOutOfRangeException otherwise, and gives that millisecond at offset zero |
| UnixTimes.FromSeconds | src/System.Runtime/tests/System/DateTimeOffset.UnixTimeConversions.cs:76-93 | FromUnixTimeSeconds is accepted exactly for counts inside DateTimeOffset's range, ArgumentOutOfRangeException otherwise, and gives that second at offset zero |
| UnixTimes.TestTimeOfMilliseconds | src/System.Runtime/tests/System/DateTimeOffset.UnixTimeConversions.cs:118-131 | TestTime.FromMilliseconds keeps the instant and milliseconds and derives the seconds rounded down towards 0001-01-01, the second that holds the milliseconds |
| UnixTimes.TestTimeOfSeconds | src/System.Runtime/tests/System/DateTimeOffset.UnixTimeConversions.cs:133-136 | TestTime.FromSeconds keeps the instant and seconds, and its milliseconds are a whole number of seconds within the stated second (hence exactly the seconds times 1000) |
| UnixTimes.SecondsOfMilliseconds | src/System.Runtime/tests/System/DateTimeOffset.UnixTimeConversions.cs:42-48 | the Unix seconds of an instant are its Unix milliseconds divided by 1000, rounded down |
| UnixTimes.MillisecondsRoundTrip | src/System.Runtime/tests/System/DateTimeOffset.UnixTimeConversions.cs:95-100 | any in-range Unix millisecond count, converted to an instant and back, is unchanged |
| UnixTimes.SecondsRoundTrip | src/System.Runtime/tests/System/DateTimeOffset.UnixTimeConversions.cs:102-107 | any in-range Unix second count, converted to an instant and back, is unchanged |
| UnixTimes.InstantRoundTripMilliseconds | src/System.Runtime/tests/System/DateTimeOffset.UnixTimeConversions.cs:35-40 | any instant, converted to Unix milliseconds and back, is accepted and has its UTC ticks truncated to the millisecond |
| UnixTimes.InstantRoundTripSeconds | src/System.Runtime/tests/System/DateTimeOffset.UnixTimeConversions.cs:50-55 | any instant, converted to Unix seconds and back, is accepted and has its UTC ticks truncated to the second |
| UnixTimes.TestTimeSeconds | src/System.Runtime/tests/System/DateTimeOffset.UnixTimeConversions.cs:118-131 | the seconds TestTime derives from an instant's Unix milliseconds are the instant's Unix seconds |
| UnixTimeExamples.LimitRows | src/System.Runtime/tests/System/DateTimeOffset.UnixTimeConversions.cs:14-15 | MinValue reads -62135596800000 ms and MaxValue 253402300799999 ms, with the seconds below them |
| UnixTimeExamples.EpochRows | src/System.Runtime/tests/System/DateTimeOffset.UnixTimeConversions.cs:16-17 | 1970-01-01 00:00:00 reads 0 and 2014-06-13 17:21:50 reads 1402680110000 ms |
| UnixTimeExamples.FarFutureRows | src/System.Runtime/tests/System/DateTimeOffset.UnixTimeConversions.cs:18-19 | 2830-12-15 01:23:45 reads 27169089825000 ms, and with 399 ms 27169089825399 ms, both in second 27169089825 |
| UnixTimeExamples.LastDaysRow | src/System.Runtime/tests/System/DateTimeOffset.UnixTimeConversions.cs:20 | 9999-12-30 23:24:25 reads 253402212265000 ms |
| UnixTimeExamples.BeforeEpochRows | src/System.Runtime/tests/System/DateTimeOffset.UnixTimeConversions.cs:21-23 | 1907-07-07 07:07:07 with 0, 1 and 777 ms reads -1971967973000, -1971967972999 and -1971967972223 ms, all in second -1971967973 |
| UnixTimeExamples.TicksRow | src/System.Runtime/tests/System/DateTimeOffset.UnixTimeConversions.cs:24 | the ticks 601636288270011234 at offset zero read -1971967972999 ms, dropping the ticks below a millisecond |
| UnixTimeExamples.InvalidRows | src/System.Runtime/tests/System/DateTimeOffset.UnixTimeConversions.cs:66-93 | long.MinValue, long.MaxValue and the counts one past DateTimeOffset's range are ArgumentOutOfRangeException, in milliseconds and in seconds |
| UnixTimeExamples.CheckRow | src/System.Runtime/tests/System/DateTimeOffset.UnixTimeConversions.cs:27-107 | for any valid instant, the TestTime built from its milliseconds carries its Unix seconds, both conversions back give its UTC ticks truncated to that unit, and converting forward again gives the same counts |

## Left out

- Floating point: Single and Double, decimal's float and double constructors and conversions, and the double arguments of the `TimeSpan.From*` methods and of `AddDays`, `AddHours`, `AddMinutes`, `AddSeconds` and `AddMilliseconds` on DateTime and DateTimeOffset. These take whole values here; the runtime's rounding of a fractional value to the millisecond is not modelled.
- Decimal text conversion (`Parse`, `ToString`): it depends on the current culture.
- Digit-exact decimal multiplication and division near MaxValue: `Multiply` and `Divide` round half-even to the finest scale at which the result fits, and raise OverflowException when even the integer part does not fit. The runtime's 192-bit intermediate and its last-digit choices near MaxValue are not claimed.
- NumberFormatting.ParseFormat: the standard specifiers C, E, F and P are NotSupportedException in the model, not the runtime's currency, exponential, fixed-point and percent text; they depend on the culture's currency and percent patterns and on exponent formatting, which are not modelled.
- Decimals.Increment: states the result only when d + 1 fits. The overflow case follows `Add` and is not restated.
- Decimals.Decrement: states the result only when d - 1 fits. The overflow case follows `Subtract` and is not restated.
- Culture- and clock-dependent time behaviour is not modelled. `Now`, `Today` and `UtcNow` read the clock. Time zones are not modelled either, apart from the local offset, which is a parameter.
  - DateTime: `Parse`, `ParseExact` and `ToString`; file times, `ToBinary`, `IsDaylightSavingTime`.
  - DateTimeOffset: `ToFileTime`/`FromFileTime`, `ToLocalTime`/`ToUniversalTime`, `Parse`, `ParseExact` and `ToString`.
- The TimeSpan "g", "G" and custom formats: they are culture-dependent.
- Randomness: `Guid.NewGuid` and the random-data test.
- Guid text: white space inside the `X` form, which the runtime strips before reading it, is not modelled; surrounding white space is trimmed as the runtime does.
- Guids.ParseForm, Guids.Parse, Guids.ParseExact: two compatibility forms the runtime accepts are not modelled, and the model refuses both. The first is `X`-form fields with fewer or more hex digits after "0x" than the layout's width, as in {0xa,0xb,0xc,{0x1,0x2,0x3,0x4,0x5,0x6,0x7,0x8}}. The second is a "0x"/"0X" and/or "+" prefix inside a group of the `D`, `B` or `P` form, counted within the group's width. The model reads each form by its exact layout.
- Composite formatting: the arguments are strings, so a hole's format part is read past and never applied; `ICustomFormatter` and `IFormattable` are not modelled. The runtime's FormatException for an index or width of 1,000,000 or more is not modelled: any number of digits is read.
- CompositeFormat.FormatEnd: `{{` and `}}` inside a format part are read as escaped braces, so `}}` never closes a hole. For that reason the lemmas about format parts assume that no `}` follows the hole. Runtimes that close a format part at its first `}` are not modelled.
- Culture-sensitive string comparison (the string comparer of the Array tests) is modelled as ordinal comparison, `Comparers.OrdinalCompare`.
- StringBuilder: `Append(char*, int)` is left out because it reads raw memory. The runtime's chunk-growth policy is replaced by "the smallest sufficient capacity". Null string arguments are left out because strings are values here.
- StringBuilders.StringBuilder.AppendFormat: when the expansion would exceed the maximum capacity, the runtime keeps the segments it appended before the overflowing one; the model raises ArgumentOutOfRangeException with the builder unchanged.
- Integers.HashCode: its own contract states only that the hash is a 32-bit value. The lemmas beside it state the values: an sbyte hashes to `x ^ (x << 8)` (`HashCodeSByte`), a short to `(ushort)x | (x << 16)` (`ShortHash`), a byte, ushort or uint to `(int)value`, and a small ulong to itself. They also prove that the hash is injective for the types up to 32 bits.
- NativeIntegers.HashCode: states only that the hash is a 32-bit value. `NativeIntegers.EqualsHashCode` proves that equal pointers hash alike.
- Decimals.HashCode: the formula, the low 32 bits of the whole part, is a stand-in chosen to keep the tested (in)equalities; the runtime hashes through the double value, so for instance One does not hash to 1 there. The contract states only that the hash is a 32-bit value, `Decimals.HashCodeRespectsEquality` proves that decimals that are Equals hash alike, and `DecimalExamples.HashVectors` gives the stand-in's values for the test values, not the runtime's.
- ArraySegments.HashCode, ArraySegments.SameArrayHash: the segment hash `identity + 31 * (offset + 31 * count)` is a stand-in chosen to keep the tested (in)equalities, not the runtime's combination of the array's hash with offset and count, and it is an unbounded integer that is not wrapped to 32 bits. `SameArrayHash` is a law of this stand-in only; the contract of `HashCode` states only that a segment without an array hashes to 0.
- NumberParsing.Leading: white space is skipped only before a sign. The runtime also skips white space after a sign once a currency symbol has followed it, so "-$ 1000" under NumberStyles.Currency with "$" parses to -1000 there and is FormatException in the model. The runtime also keeps only the first 50 significant digits in its digit buffer; the model reads every digit exactly and does not reproduce that buffer.
- DateTimeOffsets.AddMonths, DateTimeOffsets.AddYears: state validity, the kept offset and the error only; the clock time of a result is DateTime's AddMonths or AddYears of the clock time (`DateTimeOffsets.AddUnitsOnClock`), whose fields `DateTimes.AddMonthsFields` and `DateTimes.AddYearsFields` state.
- Arrays: the following come from the type system and are left out:
  - array covariance and casting copies;
  - `SetValue` widening;
  - lower-bounded and multidimensional arrays, and RankException;
  - hashing of structural equality.
- IntPtr and UIntPtr in a 32-bit process, and `ToPointer`: only the 64-bit behaviour is modelled.
- Hash-code inequalities in general: hash codes may collide, so for segments, versions, Guids and decimals the model states that equal values hash alike (ArraySegments.EqualsSameHash, Versions.HashCodeEquals, Guids.HashCodeEquals, Decimals.HashCodeRespectsEquality) and proves inequalities only where the tests assert them: seg1 against seg3 and seg4 (ArraySegments.EqualsExamples, with ArraySegments.SameArrayHash for small windows of one array, both about the stand-in segment hash), the unequal EqualsData pairs of versions (Versions.HashCodeApart), the test Guid against the empty Guid (GuidExamples.TestGetHashCode), and Zero against One and MaxValue against MinValue (DecimalExamples.EqualsVectors, about the stand-in decimal hash).
- Array.cs:910 compares `expected` with itself after the ranged `Reverse`. The model instead states that the ranged reversal produces the expected array.
- StringBuilder.cs:151 compares 5 with itself. The model instead states that the length of "Hello" is 5.
- `Array.Sort` internals: only its agreement with the tests' `SimpleSort` is modelled.
- The GDI+ wrappers, the type converters, Lazy, StrongBox and the exception and HRESULT tests are not part of this model. They delegate to native code, to reflection, or to the integer parser modelled here.

## Findings

| source | as written | input that shows it | evidently intended | confidence | as-written member | corrected member |
|---|---|---|---|---|---|---|
| src/System.Runtime/tests/System/Array.cs:1266-1269 | `IntegerComparer.Compare` returns `x - y` in 32-bit arithmetic, which wraps | Compare(int.MinValue, 1) = 2147483647, so MinValue sorts above 1 and transitivity fails at (MinValue, 0, 1) | a comparer whose sign is the sign of x compared with y | not executed | Comparers.IntegerCompareAsWrittenNotComparer | Comparers.IntegerCompareIsComparer |
