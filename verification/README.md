# UsefulDotNetThings, modelled in Dafny

This project models the sequential utilities of KFreon's UsefulDotNetThings
C# library and proves what they compute:

- the bit tricks of `Maths`: population count, the power-of-two test and
  rounding to the nearest power of two;
- the endian-aware `MyBitConverter`, where the global `AreOperationsLittleEndian`
  flag is a parameter;
- the string helpers `ExtractString` and `CapitaliseString`/`CapitaliseWord`;
- the stream and collection extensions of `Extensions`:
  - length-prefixed and zero-terminated strings, Int32 reads and writes;
  - `ReadStreamFully`;
  - `ToArray`, `ToList` and `Pop`;
  - invalid-character stripping, `isDigit`/`isLetter` and the `Contains` family;
  - dictionary `AddRange` and `AddRangeKinda`;
- `WrappingCollection`, a list indexed modulo its length;
- the range operations of `RangedObservableCollection` and `MTRangedObservableCollection`;
- `SearchEngine`, and the row count of `SeekableVirtualTreeView`;
- the two text-box validators and the active-gating base class;
- the four value converters.

The files:

- `dotnet.dfy` (module `DotNet`) holds the .NET vocabulary the models share:
  - exceptions as a `Result` error;
  - `Option` for null;
  - a `Boxed` datatype for `object` values.
- `int32_parsing.dfy` (module `Int32Parsing`) models `Int32.TryParse` in the invariant culture:
  - white space at either end, an optional sign, ASCII digits, and a value in the `int` range;
  - `int.ToString()` is `Format`, and `ParseFormat` proves they invert.
- `maths.dfy` (module `Maths`) works on `bv32`/`bv64` bit patterns for
  `CountSetBits` and `IsPowerOfTwo`. `RoundToNearestPowerOfTwo` uses
  unbounded integers with explicit 32-bit wrap-around (`Wrap32`) and an
  arithmetic shift (`Sar`).
- `bit_converter.dfy` (module `BitConverter`) defines one encoder and one
  decoder over an `IntKind`, covering the six integer overloads. The
  machine order is little-endian. `GetBytes`, `GetAndReverseBytes` and
  `Array.Reverse` are methods on arrays.
- `strings.dfy` (module `Strings`) models `String.IndexOf` as ordinal. It
  also holds `ExtractString`, `CapitaliseWord`, and `CapitaliseString`,
  which is a loop over a `StringBuilder` class.
- `streams.dfy` (module `StreamExtensions`) defines a `Stream` class: a byte
  sequence plus a position. `Read` may return any non-empty chunk. It also
  holds the stream extensions built on it.
- `extensions.dfy` (module `Extensions`) holds the collection, path, digit
  and dictionary extensions. `Collection`, `Dictionary` and `Bag` are
  classes whose contents the methods change.
- `wrapping_collection.dfy` (module `Wrapping`) holds the
  `WrappingCollection` class and the list functions it is specified by.
- `ranged.dfy` (module `Ranged`) holds one class for both ranged observable
  collections. The notifications raised are kept as a log.
- `search_engine.dfy` (module `Search`) holds the `SearchEngine` class.
- `tree_view.dfy` (module `TreeView`) models `Test` over a forest datatype,
  plus a corrected row index.
- `validation.dfy` (module `Validation`) holds both validators. The file
  system is a parameter: a set of files and a set of directories.
- `converters.dfy` (module `Converters`) holds the converters.

Behaviour of the code that is modelled as written:

- the `SearchEngine` constructor never registers a searcher, because its
  test asks for a pair that is both all-null and non-null;
- `CapitaliseString` never excludes "in", "the" or "at", because `first` stays true;
- `InsertRange` lands the block reversed;
- `WrappingCollection.Insert` at `Count` prepends, and every index
  operation on an empty collection fails;
- ties in `RoundToNearestPowerOfTwo` go down;
- `IsPowerOfTwo` accepts 0 and `int.MinValue`;
- the current validator's drive "letter" is any non-digit;
- the old validator treats unparsable input as 0 for its range check, and
  equal `Min`/`Max` switch that check off;
- an existing file fails both existence checks;
- `ExtractString` with a missing `left` starts at `|left| - 1`.

## Model

| member | source | states |
|---|---|---|
| Maths.CountSetBits | UsefulDotNetThings/General/Maths.cs:15-20 | the wrapping shift-and-mask computation equals the number of 1 bits of the argument, and lies in 0..32 |
| Maths.CountSetBitsExtremes | UsefulDotNetThings/General/Maths.cs:15-20 | 0 has no bits set and 0xFFFFFFFF has 32 |
| Maths.IsPowerOfTwo | UsefulDotNetThings/General/Maths.cs:27-30 | the `int` bit test `n & (n - 1) == 0` on 32 bits with wrap-around; `IsPowerOfTwoCorrect` proves it holds on a positive `int` exactly for the powers of two, and `IsPowerOfTwoEdgeCases` that it also accepts 0 and `int.MinValue` |
| Maths.IsPowerOfTwoLong | UsefulDotNetThings/General/Maths.cs:38-41 | the same bit test on 64 bits; `IsPowerOfTwoEdgeCases` proves it accepts 0 and `long.MinValue`, and `IsPowerOfTwoOverloadsAgree` that it agrees with the `int` test on every widened `int` except `int.MinValue` |
| Maths.IsPowerOfTwoCorrect | UsefulDotNetThings/General/Maths.cs:27-30 | on a positive `int` the test `n & (n - 1) == 0` holds exactly when n is 2^k for some k < 31 |
| Maths.IsPowerOfTwoEdgeCases | UsefulDotNetThings/General/Maths.cs:27-41 | both overloads also accept 0 and the minimum value of their type |
| Maths.IsPowerOfTwoOverloadsAgree | UsefulDotNetThings/General/Maths.cs:27-41 | the `long` overload on a widened `int` agrees with the `int` overload except at `int.MinValue`, which only the `int` overload accepts |
| Maths.NegativeNotPower | UsefulDotNetThings/General/Maths.cs:27-30 | no negative `int` other than `int.MinValue` passes the test |
| Maths.Wrap32 | UsefulDotNetThings/General/Maths.cs:51-61 | unchecked `int` arithmetic: the result is in the `int` range and congruent to the input modulo 2^32 |
| Maths.RoundToNearestPowerOfTwo | UsefulDotNetThings/General/Maths.cs:48-62 | the or-shift cascade and strict comparison in 32-bit arithmetic; `RoundToNearestIsNearest` proves that for 1..2^30 the result is the nearest power of two, the smaller on a tie |
| Maths.RoundToNearestIsNearest | UsefulDotNetThings/General/Maths.cs:48-62 | for 1 <= n <= 2^30 the result is a power of two, no power of two is nearer to n, and on a tie it is the smaller one |
| Maths.RoundNeighbours | UsefulDotNetThings/General/Maths.cs:48-62 | for 2 <= n <= 2^30 the or-shift cascade yields the power 2^L at or above n; the result is 2^L or 2^(L-1), chosen by the strict comparison |
| Maths.RoundOne | UsefulDotNetThings/General/Maths.cs:48-62 | 1 rounds to 1 |
| Maths.RoundFixesPowers | UsefulDotNetThings/General/Maths.cs:48-62 | a power of two up to 2^30 is returned unchanged |
| Maths.RoundTiesGoDown | UsefulDotNetThings/General/Maths.cs:61 | 3 rounds to 2 and 12 to 8: halfway values take the lower power |
| BitConverter.Encode | UsefulThings/MyBitConverter.cs:82-159 | the integer `GetBytes` overloads give 2, 4 or 8 bytes for short/ushort, int/uint and long/ulong |
| BitConverter.EncodeValue | UsefulThings/MyBitConverter.cs:94-99 | with the flag set the bytes are the value's little-endian two's-complement encoding; otherwise they are the big-endian one, whose byte 0 is the most significant |
| BitConverter.BigEndianIsReversedLittleEndian | UsefulThings/MyBitConverter.cs:94-99 | the big-endian encoding is exactly the reverse of the little-endian one, and the other way round |
| BitConverter.GetBytes | UsefulThings/MyBitConverter.cs:82-159 | the method returns a fresh array holding the encoding for the flag |
| BitConverter.ReverseInPlace | UsefulThings/MyBitConverter.cs:383 | `Array.Reverse` leaves the array holding the reverse of its old contents |
| BitConverter.ReversedSlice | UsefulThings/MyBitConverter.cs:363-385 | succeeds exactly when position >= 0 and n bytes follow it; then byte i is source[position + n - 1 - i] |
| BitConverter.GetAndReverseBytes | UsefulThings/MyBitConverter.cs:363-385 | a fresh array holding the n = 2/4/8 bytes at position, reversed; a negative position throws ArgumentOutOfRange and a short source throws Argument; the source array is not modified |
| BitConverter.Decode | UsefulThings/MyBitConverter.cs:206-360 | `ToInt16/32/64` and `ToUInt16/32/64` fail exactly when startIndex + n runs past the source or startIndex is negative; a result is always in the type's range |
| BitConverter.DecodeValue | UsefulThings/MyBitConverter.cs:319-360 | the decoded value is the two's-complement reading of the n bytes at startIndex, least significant first with the flag set and most significant first otherwise |
| BitConverter.ToInteger | UsefulThings/MyBitConverter.cs:206-360 | the method, which reverses a copy when the flag is clear, returns exactly `Decode` |
| BitConverter.EncodeDecodeRoundTrip | UsefulThings/MyBitConverter.cs:82-248 | decoding at 0 what `GetBytes` produced, under the same flag, returns the value |
| BitConverter.DecodeEncodeRoundTrip | UsefulThings/MyBitConverter.cs:82-248 | any n bytes decode, and encoding the result gives the same bytes back |
| BitConverter.BoolBytes | UsefulThings/MyBitConverter.cs:52-55 | one byte, non-zero exactly for true |
| BitConverter.ToBoolean | UsefulThings/MyBitConverter.cs:169-172 | fails exactly for an index outside the source; otherwise true exactly for a non-zero byte |
| BitConverter.ToChar | UsefulThings/MyBitConverter.cs:179-182 | fails exactly when two bytes do not follow startIndex; otherwise the code unit is the little-endian value of those two bytes, whatever the flag |
| BitConverter.BoolRoundTrip | UsefulThings/MyBitConverter.cs:52-55 | `ToBoolean(GetBytes(b), 0) == b` |
| BitConverter.CharIgnoresFlag | UsefulThings/MyBitConverter.cs:61-64 | `GetBytes(char)` is the little-endian encoding whatever the flag, and `ToChar` reads it back |
| Int32Parsing.TryParse | UsefulThings/Extensions.cs:231-235 | `Int32.TryParse`: a parsed value is an `int` and the string holds a digit |
| Int32Parsing.ParseFormat | UsefulThingsOLD/WPF/ValidationRules/TextBoxValidation.cs:57-65 | every `int` rendered in decimal parses back to itself |
| Int32Parsing.TryParseOneChar | UsefulThings/WPF/StringToIntConverter.cs:22-26 | a one-character string parses exactly when it is an ASCII digit, to the digit's value |
| Strings.IndexOf | UsefulDotNetThings/General/Strings.cs:19-20 | ordinal `IndexOf(pattern, from)`: fails for `from` outside 0..&#124;s&#124;; otherwise the first occurrence at or after `from`, or -1 when there is none |
| Strings.ExtractString | UsefulDotNetThings/General/Strings.cs:17-22 | the text between the first `left` and the next `right`, or the exception `Substring` or `IndexOf` throws; `ExtractStringBetween` proves when it succeeds and that the result is exactly the text between the two, and `ExtractStringMissingLeft` covers a missing `left` |
| Strings.ExtractStringBetween | UsefulDotNetThings/General/Strings.cs:17-22 | when `left` first occurs at p, the call succeeds exactly when `right` occurs at or after p + &#124;left&#124;; then left + result + right is contiguous at p, and no `right` starts inside the result |
| Strings.ExtractStringMissingLeft | UsefulDotNetThings/General/Strings.cs:19 | a missing `left` makes the start index &#124;left&#124; - 1: `ExtractString("abc", "zz", "c")` is "b" |
| Strings.ExtractStringExample | UsefulDotNetThings/General/Strings.cs:11-22 | the documented example: "indigo" between "in" and "go" is "di" |
| Strings.ExtractDelimited | UsefulDotNetThings/General/Strings.cs:31-34 | the one-delimiter overload is the two-delimiter one with the same string on both sides |
| Strings.ExtractDelimitedExample | UsefulDotNetThings/General/Strings.cs:26-34 | the documented example: "I like #snuffles# and things" between "#" gives "snuffles" |
| Strings.ToUpper | UsefulDotNetThings/General/Strings.cs:69 | `char.ToUpper` on ASCII: a lower-case letter becomes its capital, anything else is unchanged |
| Strings.CapitaliseWord | UsefulDotNetThings/General/Strings.cs:61-74 | same length; only the first character changes, to its upper case |
| Strings.CapitaliseWordProperties | UsefulDotNetThings/General/Strings.cs:61-74 | "" stays ""; a word already starting in upper case is unchanged; capitalising twice is capitalising once |
| Strings.Split | UsefulDotNetThings/General/Strings.cs:46 | `Split(' ')`: at least one piece, and no piece holds the separator |
| Strings.JoinSplit | UsefulDotNetThings/General/Strings.cs:46 | joining the pieces with the separator gives the string back |
| Strings.CapitaliseEach | UsefulDotNetThings/General/Strings.cs:48-54 | piece i of the result is `CapitaliseWord` of piece i |
| Strings.StringBuilder.Append | UsefulDotNetThings/General/Strings.cs:54-55 | the builder's contents grow by exactly the appended text |
| Strings.CapitaliseString | UsefulDotNetThings/General/Strings.cs:41-59 | the loop builds every space-separated piece capitalised and followed by one space; no piece is skipped |
| Strings.CapitaliseAllIsJoin | UsefulDotNetThings/General/Strings.cs:46-58 | that output is the capitalised pieces joined by spaces, plus a trailing space |
| Strings.CapitaliseStringShape | UsefulDotNetThings/General/Strings.cs:41-59 | the result is one character longer than the input and ends in a space |
| Strings.JoiningWordsCapitalised | UsefulDotNetThings/General/Strings.cs:8-52 | "in the at" splits on spaces into "in", "the" and "at" and becomes "In The At ": the exclusion list never applies |
| Strings.AppendCapitalisedWord | UsefulDotNetThings/General/Strings.cs:76-89 | the destination grows by exactly `CapitaliseWord(word)`, and by nothing for an empty word |
| StreamExtensions.Placed | UsefulThings/Extensions.cs:101-104 | writing at a position overwrites or extends the data; the length grows only past the end |
| StreamExtensions.PlacedTwice | UsefulThings/Extensions.cs:98-104 | two consecutive writes are one write of both |
| StreamExtensions.Stream.ReadByte | UsefulThings/Extensions.cs:332-338 | the next byte, advancing the position, or -1 at the end with the position unchanged |
| StreamExtensions.Stream.Read | UsefulThings/Extensions.cs:325 | copies some non-empty prefix of what is left, at most `count` bytes, into the buffer at `offset`; 0 exactly when nothing is asked for or nothing is left |
| StreamExtensions.Stream.WriteByte | UsefulThings/Extensions.cs:102-104 | the byte is placed at the position, which advances by one |
| StreamExtensions.Stream.Seek | UsefulThings/Extensions.cs:315 | moves to the given offset and changes nothing else |
| StreamExtensions.ReadInt32Spec | UsefulThings/Extensions.cs:45-49 | a successful read is an `int` and advances four bytes |
| StreamExtensions.ReadInt32FromStream | UsefulThings/Extensions.cs:45-49 | the method returns the four little-endian bytes at the position as an `int`; an unreadable stream or fewer than four bytes is an error |
| StreamExtensions.WriteInt32ToStream | UsefulThings/Extensions.cs:64-68 | the four little-endian bytes of the value are placed at the position, which advances by four |
| StreamExtensions.LowBytes | UsefulThings/Extensions.cs:101-102 | one byte per character: its low eight bits |
| StreamExtensions.StringBytes | UsefulThings/Extensions.cs:96-105 | the optional four-byte length, the characters' low bytes, then a zero: 4 + &#124;s&#124; + 1 or &#124;s&#124; + 1 bytes |
| StreamExtensions.WriteLowBytes | UsefulThings/Extensions.cs:101-102 | the loop places the characters' low bytes at the position |
| StreamExtensions.WriteStringToStream | UsefulThings/Extensions.cs:96-105 | exactly `StringBytes` is placed at the position, which advances by its length |
| StreamExtensions.ReadUntilZero | UsefulThings/Extensions.cs:84-90 | the characters before the next zero byte and the position just after it |
| StreamExtensions.CountedChars | UsefulThings/Extensions.cs:77-82 | exactly `length` characters, one per byte read |
| StreamExtensions.ReadStringSpec | UsefulThings/Extensions.cs:70-93 | the string read and the new position: with a prefix, a short one fails as `BinaryReader` does, a non-positive length gives "" and otherwise exactly length characters (U+FFFF past the end); without one, the characters up to the zero byte, or `Endless` when none follows; `UnprefixedRoundTrip` and `PrefixedRoundTrip` prove it reads back what `WriteStringToStream` wrote |
| StreamExtensions.ReadStringFromStream | UsefulThings/Extensions.cs:70-93 | a null or unreadable stream throws IOException before anything is read; otherwise the string and new position are `ReadStringSpec`'s, which is `Endless` on unterminated input |
| StreamExtensions.UnprefixedRoundTrip | UsefulThings/Extensions.cs:70-105 | for characters in 1..255, reading without a prefix what was written without one returns the string and consumes the terminator |
| StreamExtensions.ReadsZeroTerminated | UsefulThings/Extensions.cs:84-90 | non-zero bytes followed by a zero read back as those characters |
| StreamExtensions.PrefixedRoundTrip | UsefulThings/Extensions.cs:70-105 | for characters up to 255, reading with a prefix what was written with one returns the string and leaves the trailing zero unread |
| StreamExtensions.Grow | UsefulThings/Extensions.cs:340-345 | a fresh buffer twice as long, starting with the old contents and then the extra byte |
| StreamExtensions.Prefix | UsefulThings/Extensions.cs:349-352 | a fresh array holding the first `length` bytes |
| StreamExtensions.ReadFullyResult | UsefulThings/Extensions.cs:313-353 | what is returned is always a prefix of the stream's content |
| StreamExtensions.ReadFullyWhole | UsefulThings/Extensions.cs:313-353 | the whole content is returned exactly when the starting buffer is not one byte or the stream holds at most two bytes |
| StreamExtensions.ReadFullyTruncates | UsefulThings/Extensions.cs:325-347 | a one-byte start returns [1, 2] for [1, 2, 3], and loses data for every stream longer than two bytes |
| StreamExtensions.ReadLoop | UsefulThings/Extensions.cs:321-352 | the buffer-doubling loop, however `Read` chunks the data, returns `ReadFullyResult` |
| StreamExtensions.ReadStreamFully | UsefulThings/Extensions.cs:313-353 | seeks to 0 and replaces a start below 1 with 32768; an unreadable stream fails, and a readable one gives `ReadFullyResult` of the content, leaving the content unchanged |
| StreamExtensions.ReadStreamFullyCorrected | UsefulThings/Extensions.cs:313-353 | with a start below two bytes replaced by 32768, the same loop returns exactly the whole content of a readable stream |
| Extensions.FirstIndex | UsefulThings/Extensions.cs:453 | the first position holding x |
| Extensions.RemoveFirst | UsefulThings/Extensions.cs:453 | `ICollection.Remove`: nothing changes when x is absent |
| Extensions.RemoveFirstSplice | UsefulThings/Extensions.cs:453 | when x is present, exactly the element at its first position is cut out |
| Extensions.Collection.Add | UsefulThings/Extensions.cs:287-288 | appends the item, as `List<T>.Add` does |
| Extensions.Collection.Remove | UsefulThings/Extensions.cs:453 | reports whether x was present and removes its first occurrence |
| Extensions.Pop | UsefulThings/Extensions.cs:450-455 | an index out of range throws and changes nothing; otherwise it returns the element at the index and removes the first equal element |
| Extensions.PopRemovesFirstEqual | UsefulThings/Extensions.cs:450-455 | the removed position is at or before the index; one element fewer, and the multiset loses the popped value once |
| Extensions.PopDuplicateExample | UsefulThings/Extensions.cs:450-455 | popping index 2 of [7, 8, 7] leaves [8, 7]: the earlier 7 goes |
| Extensions.ToList | UsefulThings/Extensions.cs:465-468 | the items in order; the size is ignored |
| Extensions.ToArray | UsefulThings/Extensions.cs:478-487 | exactly `size` slots, the items and then default values; a negative size throws Overflow and more items than slots throw IndexOutOfRange |
| Extensions.InvalidPathingChars | UsefulThings/Extensions.cs:28-36 | the set holds exactly the invalid file-name and invalid path characters |
| Extensions.Without | UsefulThings/Extensions.cs:166-173 | no longer than the input; only characters of the input that are not invalid remain |
| Extensions.RemoveCharStep | UsefulThings/Extensions.cs:169-170 | one `Replace` pass removes one more character from the set |
| Extensions.GetPathWithoutInvalids | UsefulThings/Extensions.cs:166-173 | the replace loop returns the input with every invalid character removed and every other one kept in order |
| Extensions.WithoutNothing | UsefulThings/Extensions.cs:166-173 | with nothing invalid the string is unchanged |
| Extensions.WithoutKeepsValid | UsefulThings/Extensions.cs:166-173 | a string with no invalid character is unchanged, and stripping twice is stripping once |
| Extensions.WindowsInvalidChars | UsefulThings/Extensions.cs:28-36 | on Windows the set is the control characters and `"<>&#124;:*?\/` |
| Extensions.StripsSeparatorsExample | UsefulThings/Extensions.cs:166-173 | "C:\d/f" becomes "Cdf": separators and the drive colon go too |
| Extensions.IsDigit | UsefulThings/Extensions.cs:231-235 | `isDigit(string)` is exactly `Int32.TryParse` succeeding; `IsDigitSigned` shows it accepts " -12 " |
| Extensions.IsDigitChar | UsefulThings/Extensions.cs:209-212 | `isDigit(char)` parses the one-character string; `CharClasses` proves it holds exactly for '0'..'9' |
| Extensions.IsLetterChar | UsefulThings/Extensions.cs:220-223 | `isLetter(char)` is the negation of `isDigit(char)`; `CharClasses` proves it holds exactly outside '0'..'9', and `IsLetterPunctuation` that '.' and ' ' count as letters |
| Extensions.IsLetter | UsefulThings/Extensions.cs:243-249 | `isLetter(string)`: a single character that does not parse; `IsLetterString` proves it holds exactly for one non-digit character |
| Extensions.CharClasses | UsefulThings/Extensions.cs:209-223 | `isDigit(char)` holds exactly for '0'..'9' and `isLetter(char)` is its negation |
| Extensions.IsLetterString | UsefulThings/Extensions.cs:243-249 | `isLetter(string)` holds exactly for one non-digit character |
| Extensions.IsDigitSigned | UsefulThings/Extensions.cs:231-235 | `isDigit(string)` accepts " -12 " |
| Extensions.IsLetterPunctuation | UsefulThings/Extensions.cs:220-223 | '.' and ' ' count as letters |
| Extensions.Find | UsefulThings/Extensions.cs:127 | `List.Find` returns a matching element or the default |
| Extensions.FirstMatch | UsefulThings/Extensions.cs:127 | the first position whose element matches |
| Extensions.FindIsFirstMatch | UsefulThings/Extensions.cs:127 | `Find` is the element at the first match, or the default when nothing matches |
| Extensions.ListContains | UsefulThings/Extensions.cs:125-128 | `list.Find(pred) != null`; `ListContainsValueType` and `ListContainsReferenceType` prove what that means for value and reference types |
| Extensions.ListContainsValueType | UsefulThings/Extensions.cs:125-128 | for a value type the list `Contains` is always true, since `Find` never returns null |
| Extensions.ListContainsReferenceType | UsefulThings/Extensions.cs:125-128 | for a reference type it is true exactly when some element matches and the first match is not null |
| Extensions.EnumerableContains | UsefulThings/Extensions.cs:138-145 | true exactly when some item matches |
| Extensions.StringContains | UsefulThings/Extensions.cs:155-158 | true exactly when `toCheck` occurs somewhere in the string |
| Extensions.Dictionary.Add | UsefulThings/Extensions.cs:114 | a present key throws Argument and changes nothing; otherwise the entry is appended; keys stay distinct |
| Extensions.AddRange | UsefulThings/Extensions.cs:108-115 | a null argument throws ArgumentNull before anything changes; otherwise the entries are added in order until the first clash; the main dictionary's keys stay distinct |
| Extensions.AddAllSucceeds | UsefulThings/Extensions.cs:108-115 | it succeeds exactly when no key to add is present, and then appends all additions in order |
| Extensions.AddAllThrows | UsefulThings/Extensions.cs:108-115 | on failure, the first clashing addition is found, and exactly the additions before it stay added |
| Extensions.AddAllKeepsDistinct | UsefulThings/Extensions.cs:113-114 | the dictionary's keys stay distinct |
| Extensions.Bag.Add | UsefulThings/Extensions.cs:282 | the item joins the bag |
| Extensions.AddRangeKindaBag | UsefulThings/Extensions.cs:279-283 | the bag gains exactly the additions, as a multiset |
| Extensions.AddRangeKinda | UsefulThings/Extensions.cs:285-289 | a List-style collection gains the additions in order |
| Wrapping.TruncatedRem | UsefulThings/WrappingCollection.cs:112 | C#'s `%`: the result is below the divisor in size, equals the Euclidean remainder for a non-negative dividend, and is never positive for a negative one |
| Wrapping.WrapIndex | UsefulThings/WrappingCollection.cs:109-115 | -1 for an empty collection, otherwise strictly between -Count and Count |
| Wrapping.At | UsefulThings/WrappingCollection.cs:97-102 | an empty collection throws; a non-negative index reads `items[index % Count]`; a negative index succeeds only when it is a multiple of Count, reading item 0 |
| Wrapping.InsertAt | UsefulThings/WrappingCollection.cs:89 | `List.Insert`: succeeds exactly for 0..Count and puts the item at that position |
| Wrapping.RemoveAtPosition | UsefulThings/WrappingCollection.cs:94 | `List.RemoveAt`: succeeds exactly for 0..Count-1 and cuts that element out |
| Wrapping.IndexOf | UsefulThings/WrappingCollection.cs:82-85 | the first position holding x, or -1 exactly when x is absent |
| Wrapping.WrappingCollection.constructor | UsefulThings/WrappingCollection.cs:29-32 | starts empty, so `Count` is 0 and never -1 |
| Wrapping.WrappingCollection.FromSequence | UsefulThings/WrappingCollection.cs:34-42 | copies the input in order |
| Wrapping.WrappingCollection.Count | UsefulThings/WrappingCollection.cs:13-19 | the number of items, never negative |
| Wrapping.WrappingCollection.Add | UsefulThings/WrappingCollection.cs:45-48 | appends |
| Wrapping.WrappingCollection.Clear | UsefulThings/WrappingCollection.cs:50-53 | empties |
| Wrapping.WrappingCollection.Contains | UsefulThings/WrappingCollection.cs:55-58 | true exactly when some item equals x |
| Wrapping.WrappingCollection.Remove | UsefulThings/WrappingCollection.cs:67-70 | reports whether x was present and removes exactly its first occurrence |
| Wrapping.WrappingCollection.Get | UsefulThings/WrappingCollection.cs:97-102 | the indexer's getter is `At` |
| Wrapping.WrappingCollection.Set | UsefulThings/WrappingCollection.cs:103-106 | the setter writes position `WrapIndex(index)` only, and fails without change where `At` fails |
| Wrapping.WrappingCollection.Insert | UsefulThings/WrappingCollection.cs:87-90 | inserts at `WrapIndex(index)`; fails without change on an empty collection or a negative wrapped index |
| Wrapping.WrappingCollection.RemoveAt | UsefulThings/WrappingCollection.cs:92-95 | removes position `WrapIndex(index)`; the others keep their order |
| Wrapping.AtPeriodic | UsefulThings/WrappingCollection.cs:97-115 | for a non-negative index, `this[i + Count] == this[i]` |
| Wrapping.InsertAtCountPrepends | UsefulThings/WrappingCollection.cs:87-90 | inserting at index Count puts the item first, so `Insert` never appends |
| Wrapping.SetChangesOnlyWrapped | UsefulThings/WrappingCollection.cs:103-106 | the setter changes only position i % Count, and Count stays the same |
| Wrapping.RemoveThenInsertRestores | UsefulThings/WrappingCollection.cs:87-95 | removing a position and inserting the removed item there restores the list |
| Ranged.InsertEach | UsefulThings/WPF/RangedObservableCollection.cs:38-44 | inserting each item at the same index adds all of them |
| Ranged.InsertEachReverses | UsefulThings/WPF/RangedObservableCollection.cs:38-44 | the result is old[..i] + reverse(additions) + old[i..] |
| Ranged.InsertAtEndIsReversedAppend | UsefulThings/WPF/RangedObservableCollection.cs:38-44 | inserting at the end appends the block reversed |
| Ranged.RangedObservableCollection.constructor | UsefulThings/WPF/RangedObservableCollection.cs:12-16 | starts empty with nothing raised; `MTRangedObservableCollection`'s constructors are the same |
| Ranged.RangedObservableCollection.FromSequence | UsefulThings/WPF/RangedObservableCollection.cs:18-28 | copies the input in order, as do the constructors at MTRangedObservableCollection.cs:29-44 |
| Ranged.RangedObservableCollection.NotifyRangeChange | UsefulThings/WPF/RangedObservableCollection.cs:46-51 | raises Count, then Item[], then a Reset, and leaves the items alone (MTRangedObservableCollection.cs:77-82 raises the same) |
| Ranged.RangedObservableCollection.AddRange | UsefulThings/WPF/RangedObservableCollection.cs:30-36 | appends the items in order and raises one notification group, even for no items (MTRangedObservableCollection.cs:51-58 is the same) |
| Ranged.RangedObservableCollection.InsertRange | UsefulThings/WPF/RangedObservableCollection.cs:38-44 | with items and an index outside 0..Count it throws before any change or notification; otherwise the block lands reversed at the index and one group is raised (MTRangedObservableCollection.cs:65-71 is the same) |
| Ranged.RangedObservableCollection.Reset | UsefulThings/WPF/RangedObservableCollection.cs:53-57 | leaves exactly the new items and raises one group, since `Items.Clear` is silent (MTRangedObservableCollection.cs:89-93 is the same) |
| Search.Registered | UsefulThings/WPF/SearchEngine.cs:30-34 | the constructor's registrations are never more than the pairs given |
| Search.NothingRegisters | UsefulThings/WPF/SearchEngine.cs:30-34 | no pair passes the registration test, so nothing is ever registered |
| Search.Lookup | UsefulThings/WPF/SearchEngine.cs:47 | `SearchMethods[key]` throws KeyNotFound exactly when no entry has the key, and otherwise returns a method stored under it |
| Search.ChooseSearcher | UsefulThings/WPF/SearchEngine.cs:47 | without a key, the first method, or "Sequence contains no elements" for an empty table; with a key, the lookup |
| Search.Matches | UsefulThings/WPF/SearchEngine.cs:59-72 | no longer than the group, and every item returned is accepted by the searcher |
| Search.MatchesComplete | UsefulThings/WPF/SearchEngine.cs:65-69 | an item is in the results exactly when it is in the group and accepted |
| Search.SearchEngine.constructor | UsefulThings/WPF/SearchEngine.cs:24-35 | keeps the collection; the loop leaves the table empty whatever pairs are passed |
| Search.SearchEngine.SearchWith | UsefulThings/WPF/SearchEngine.cs:59-72 | the accepted items of the given collection, or of the searchable one when none is given, in order; with neither, NullReference |
| Search.SearchEngine.Search | UsefulThings/WPF/SearchEngine.cs:45-49 | a failed searcher choice is the error; otherwise the search with the chosen searcher |
| Search.SearchAfterConstructionFails | UsefulThings/WPF/SearchEngine.cs:24-49 | on an empty table every search fails |
| TreeView.ItemIndex | UsefulThings/WPF/SeekableVirtualTreeView.cs:61-64 | the not-found check never fires: the lookup always succeeds with `Test`'s count |
| TreeView.Test | UsefulThings/WPF/SeekableVirtualTreeView.cs:20-36 | the count as written, which leaves out an expanded item's own row; `TestAtMostRows` and `TestFlat` prove it never exceeds the visible rows and is exact on a flat list, and `TestMissesExpandedRow` shows it is wrong below an expanded item (the second finding) |
| TreeView.TestAtMostRows | UsefulThings/WPF/SeekableVirtualTreeView.cs:20-36 | `Test` counts at most the visible rows |
| TreeView.TestFlat | UsefulThings/WPF/SeekableVirtualTreeView.cs:20-36 | with nothing expanded `Test` is the item's top-level index, or the number of items when it is absent; never -1 |
| TreeView.TestMissesExpandedRow | UsefulThings/WPF/SeekableVirtualTreeView.cs:20-36 | in the tree [1 expanded over 2, 3] the rows are 1, 2, 3, yet `Test` gives 1 for item 3 and 2 for a missing item |
| TreeView.RowIndex | UsefulThings/WPF/SeekableVirtualTreeView.cs:20-36 | the corrected count is -1 or a row index |
| TreeView.RowIndexIsPosition | UsefulThings/WPF/SeekableVirtualTreeView.cs:20-36 | the corrected count is the item's first position among the visible rows, -1 when absent |
| TreeView.CorrectedItemIndex | UsefulThings/WPF/SeekableVirtualTreeView.cs:61-64 | with the corrected count the not-found error is raised exactly for an item on no visible row; otherwise the row shows the item and no earlier row does |
| TreeView.RowIndexExample | UsefulThings/WPF/SeekableVirtualTreeView.cs:20-36 | on the example tree item 3 is on row 2 and item 4 is missing |
| Validation.IsDirectory | UsefulThings/Extensions.cs:258-269 | false for a path that does not exist, otherwise the directory attribute; `DirectoryOrFile` proves it holds exactly for an existing directory |
| Validation.IsFile | UsefulThings/Extensions.cs:297-300 | the negation of `isDirectory`; `DirectoryOrFile` proves it holds exactly for a path that is not an existing directory, including one that does not exist at all |
| Validation.DirectoryOrFile | UsefulThings/Extensions.cs:258-300 | `isDirectory` holds exactly for an existing directory, `isFile` exactly otherwise, so a missing path counts as a file |
| Validation.ExistenceCheck | UsefulThings/WPF/TextBoxValidation.cs:36-44 | valid exactly for an existing directory; an existing file gets "Specified directory doesn't exist!" |
| Validation.Validate | UsefulThings/WPF/TextBoxValidation.cs:19-54 | a null, non-string or empty value is "Value can't be empty." |
| Validation.ValidateAccepts | UsefulThings/WPF/TextBoxValidation.cs:19-54 | number mode accepts exactly what `Int32.TryParse` accepts, ignoring the existence flag; existence mode accepts exactly the existing directories; otherwise exactly a non-digit, ':' and '\' followed by anything |
| Validation.ParsedOrZero | UsefulThingsOLD/WPF/ValidationRules/TextBoxValidation.cs:56-58 | the parsed number, or 0 when parsing fails |
| Validation.NumberResult | UsefulThingsOLD/WPF/ValidationRules/TextBoxValidation.cs:53-67 | valid exactly when the text parses and, if Min and Max differ, lies between them inclusive; unparsable text counts as 0, so a range message can replace "Not a valid number" |
| Validation.OldResult | UsefulThingsOLD/WPF/ValidationRules/TextBoxValidation.cs:40-86 | empty input is refused; number mode is `NumberResult`; otherwise valid exactly for an ASCII letter, ':' and '\' at the start and, when existence is required, an existing directory |
| Validation.RulesDisagree | UsefulThings/WPF/TextBoxValidation.cs:48 | "?:\" passes the current rule but fails the old one |
| Validation.OldTextBoxValidation.constructor | UsefulThingsOLD/WPF/ValidationRules/ValidationRuleBase.cs:15-18 | a new rule is active |
| Validation.OldTextBoxValidation.DoValidate | UsefulThingsOLD/WPF/ValidationRules/TextBoxValidation.cs:40-86 | returns `OldResult` for the IsNumber it started with, and switches IsNumber off for good when existence is required and the value is not empty |
| Validation.OldTextBoxValidation.Validate | UsefulThingsOLD/WPF/ValidationRules/ValidationRuleBase.cs:21-28 | an inactive rule passes every value unchanged; an active one returns `DoValidate`'s result; IsActive never changes |
| Converters.BoolToVisibility | UsefulThings/WPF/BoolToVisibilityConverter.cs:15-38 | a null value throws NullReference at `GetType`; a non-null, non-boolean parameter throws InvalidCast |
| Converters.BoolToVisibilityTable | UsefulThings/WPF/BoolToVisibilityConverter.cs:15-38 | a boolean is Visible exactly when it differs from the inversion flag and Collapsed otherwise; anything else is Hidden whatever the parameter |
| Converters.BoolToVisibilityInverts | UsefulThings/WPF/BoolToVisibilityConverter.cs:27-29 | a true parameter swaps Visible and Collapsed; a false one changes nothing |
| Converters.ConvertBackNotImplemented | UsefulThings/WPF/BoolToVisibilityConverter.cs:40-43 | always throws NotImplemented; `ConvertBack` of StringToIntConverter.cs:29-32 and IntsEqualConverter.cs:20-23 is the same |
| Converters.MutuallyExclusiveConvert | UsefulThings/WPF/MutuallyExclusiveCheckersConverter.cs:14-32 | never null: a non-boolean gives false; a boolean is negated by a true boolean parameter and kept otherwise |
| Converters.MutuallyExclusiveConvertBack | UsefulThings/WPF/MutuallyExclusiveCheckersConverter.cs:34-45 | a null value throws at `GetType`; a non-boolean gives false; a boolean gives a boolean or null |
| Converters.MutuallyExclusiveRoundTrip | UsefulThings/WPF/MutuallyExclusiveCheckersConverter.cs:14-45 | `Convert(ConvertBack(v, p), p) == v` for every boolean v and every parameter; ConvertBack yields a boolean exactly for true |
| Converters.StringToInt | UsefulThings/WPF/StringToIntConverter.cs:13-27 | a null value throws NullReference; a non-string or a string longer than one character throws "Value must be a single character string" |
| Converters.StringToIntDigits | UsefulThings/WPF/StringToIntConverter.cs:22-26 | it succeeds exactly for one character '0'..'9', giving its value; the empty string and any other character give "Conversion failed." |
| Converters.IntsEqual | UsefulThings/WPF/IntsEqualConverter.cs:12-18 | succeeds exactly when both are ints, with their equality; a non-int value throws InvalidCast; a null value, or a null parameter after an int value, throws NullReference |
| Converters.IntsEqualSymmetric | UsefulThings/WPF/IntsEqualConverter.cs:15 | the answer does not depend on the order of the two ints, and an int equals itself |

## Left out

- Floating point: `GetBytes(double/float)`, `ToDouble`, `ToSingle`,
  `DoubleToInt64Bits` and `Int64BitsToDouble` in `MyBitConverter` are
  not modelled.
- The hex `ToString` overloads of `MyBitConverter` are not modelled; they
  are library formatting.
- The `string` case of `GetAndReverseBytes`, used only by those `ToString`
  overloads, is not modelled.
- Int32Parsing.TryParse: the trailing NUL characters .NET also accepts are
  not modelled, and neither is any culture other than the invariant one.
- Strings.ToUpper: ASCII only. `char.ToUpper` maps other letters too.
- Strings.IndexOf: ordinal only. `str.IndexOf(left)` in the source is
  culture-sensitive; for ASCII text without ignorable characters the two
  agree.
- Extensions.StringContains: ordinal and case-sensitive. The
  `StringComparison` argument is not modelled.
- A `Stream` cannot refuse writes and is always seekable; `CanWrite`, `CanSeek` and `Dispose` are not modelled.
- `ReadBytesFromStream`, `ReadInt64FromStream` and the `Split` extension
  are not modelled; they are thin wrappers over library calls.
- `GetDirParent` is not modelled; it depends on `Path.GetDirectoryName`.
- `isDirectory` and `isFile` are predicates over a snapshot of the file
  system passed as a parameter. The real file system, and attribute
  lookups on paths that exist as both, are not modelled.
- StreamExtensions.ReadStringFromStream: an unterminated read without a
  prefix adds U+FFFF to its list for every read past the end and runs
  until memory is exhausted; it is reported as the outcome `Endless`
  rather than as a loop that ends in OutOfMemoryException.
- Null arguments are modelled only where the source tests them or throws
  on them: `AddRange`, `ReadStringFromStream`, and the converters'
  `GetType` calls. Null arrays, lists, strings and enumerables elsewhere
  are not modelled: a null `source` in `MyBitConverter`, for instance,
  throws ArgumentNullException there.
- Extensions.AddRange: a dictionary passed as both arguments (changed
  while being enumerated) is not modelled. Keys are compared with `==`,
  not with the dictionary's comparer.
- Extensions.Pop, Extensions.Collection.Add, Extensions.AddRangeKinda:
  an `ICollection<T>` is modelled as an ordered list. `ElementAt` and
  `Remove` follow its order, and `Add` appends as `List<T>.Add` does.
  Set-like collections such as `HashSet<T>` or `SortedSet<T>`, whose
  `Add` skips a duplicate and does not keep insertion order, are not
  modelled.
- Extensions.ToArray: the partly filled array that exists when the
  overrun throws is not observable, and is not modelled.
- The WPF-only extensions (`AddTextToPage`, `AddPageFromText`,
  `AddPageFromFile`, `AddOnUI`, `BeginAdjustableAnimation`) are not
  modelled: UI plumbing.
- `WrappingCollection`'s `CopyTo`, `GetEnumerator` and `IsReadOnly` are
  not modelled: plain delegation.
- The null `UnderlyingCollection` branch of `Count` is not modelled,
  because every constructor sets the list.
- The multi-threaded collection's dispatcher marshalling and locking are not modelled; its list logic and notifications are the same class as the single-threaded one.
- `BringItemIntoView`'s scrolling is floating-point layout and is not
  modelled; only its lookup is.
- Items that are not `ITreeSeekable` are not modelled; the source would
  throw a null dereference on one.
- The converters' `targetType` and `culture` arguments, and the
  validators' `cultureInfo`, play no part in the source and are dropped.
- The value of a `Searcher` is a total function; a searcher that throws
  is not modelled.
- `SearchEngine`'s dictionary is a sequence of pairs in insertion order,
  which is the order `First()` sees.
- StreamExtensions.Grow, StreamExtensions.ReadLoop, StreamExtensions.ReadStreamFully:
  buffer lengths are unbounded integers. In the source, `buffer.Length * 2`
  (UsefulThings/Extensions.cs:341) is 32-bit arithmetic: once the buffer
  holds 2^30 bytes the doubled length wraps to a negative number and the
  allocation throws OverflowException. That failure, and the runtime's
  upper bound on array size, are not modelled.
- Ranged.RangedObservableCollection.AddRange, Ranged.RangedObservableCollection.InsertRange,
  Ranged.RangedObservableCollection.Reset, Extensions.AddRangeKinda: the
  items to add are a sequence value, so passing the collection as its own
  source cannot be expressed. In the source the enumerator then throws
  InvalidOperationException after the first insertion (for `AddRange`,
  `InsertRange` and `AddRangeKinda`), and `Reset(coll)` clears the
  collection before enumerating it and so leaves it empty; neither outcome
  is modelled.

## Findings

| source | as written | input that shows it | evidently intended | confidence | as-written member | corrected member |
|---|---|---|---|---|---|---|
| UsefulThings/Extensions.cs:313-353 | After the buffer first fills and doubles, the buffer of 2L bytes holds L + 1; with initialLength 1 the next `Read` is asked for 0 bytes, returns 0 and ends the loop | `ReadStreamFully(stream, 1)` on a stream holding [1, 2, 3] returns [1, 2] | the whole stream content, whatever the starting size | not executed | StreamExtensions.ReadFullyTruncates | StreamExtensions.ReadStreamFullyCorrected |
| UsefulThings/WPF/SeekableVirtualTreeView.cs:20-36 | `Test` adds only the children's count for an expanded item, not its own row, and never returns -1, so the not-found check at lines 63-64 cannot fire | tree [1 expanded over 2, 3]: item 3 is on row 2 but `Test` gives 1; an absent item 4 gives 2 instead of an error | the item's row among the visible rows, and the error for an absent item | not executed | TreeView.TestMissesExpandedRow | TreeView.CorrectedItemIndex |
