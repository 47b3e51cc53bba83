# cpp_utils utilities, modelled in Dafny

This project models the standalone helpers of the `cpp_utils` library that
its `utils` unit-test suite exercises:

- `set_of_ptr_contains` and `are_set_of_ptr_equal`, which compare sets of
  shared pointers by the values they point to (`ptr_set.dfy`, module `PointerSet`).
- `to_lowercase` and `to_uppercase`, which convert a string in place
  (`case_conversion.dfy`, module `CaseConversion`).
- `to_bytes` and `from_bytes`, which parse and print human-readable byte
  sizes (`byte_size.dfy`, module `ByteSize`).
- The `FileAccessMode` flags and their `|` and `&` operators
  (`file_access.dfy`, module `FileAccess`).
- The three `split_string` overloads: one string and one delimiter, a vector
  of strings and one delimiter, and one string and a set of delimiters
  (`split_string.dfy`, module `SplitString`).
- `get_keys` for ordered and unordered maps (`map_keys.dfy`, module `MapKeys`).

`wrappers.dfy` holds the `Option` and `Result` datatypes.

The library's implementation header is not part of this model. Each
operation is defined from the behaviour the test suite pins down. Every case
the suite asserts about the modelled functions is stated as a lemma or method
over the model, and proved. Its assertions about pointer identity,
`is_file_accessible` and `tsnh` are outside the model (see "## Left out").

Modelling choices:

- **Byte sizes.** A byte count is a `nat` no larger than 2^64 - 1. `to_bytes` returns a
  `Result`, and the `std::invalid_argument` cases become the error values
  `EmptyInput`, `MissingUnit`, `MissingNumber`, `MalformedNumber`, `UnknownUnit` and `Overflow`.
- **Parsing.** The text is a number (`digits` or `digits.digits`) followed by its longest
  all-letter suffix. The suffix is upper-cased and must be one of `B`, `KB`…`PB`
  (powers of 1000) or `KIB`…`PIB` (powers of 1024). The value is
  `(whole * 10^k + frac) * scale / 10^k`, truncated. A value above 2^64 - 1 is an error, not wrapped.
- **Formatting.** `from_bytes` picks the largest decimal unit up to `PB` whose scale does not
  exceed the count. An exact multiple prints as a whole number. Otherwise the
  count prints with two fractional digits, rounded half up.
- **Pointers.** A shared pointer is `Option<T>`: `Some(v)` points to `v`, and `None` is null.
  A set of pointers is a `set<Option<T>>`.
- **Splitting.** `split_string` cuts at the leftmost occurrence of the delimiter, scans on
  after it, and keeps empty pieces. The set overload applies the one-delimiter
  split for each delimiter of the set in turn. It takes them in the set's iteration
  order, given as a strictly lexicographically increasing sequence.
- **Case conversion.** `to_lowercase` and `to_uppercase` work in place on an `array<char>`. Only
  ASCII letters change.

## Model

| member | source | states |
|---|---|---|
| PointerSet.SetOfPtrContains | cpp_utils/test/unittest/utils/utilsTest.cpp:36-188 | a pointer is found exactly when a pointer to an equal value is in the set; a null pointer is found exactly when the set holds null |
| PointerSet.AreSetOfPtrEqual | cpp_utils/test/unittest/utils/utilsTest.cpp:205-300 | two sets are equal by value exactly when they hold pointers to the same values, null included |
| PointerSet.AreSetOfPtrEqualSymmetric | cpp_utils/test/unittest/utils/utilsTest.cpp:228-292 | swapping the two sets never changes the answer |
| PointerSet.AreSetOfPtrEqualReflexive | cpp_utils/test/unittest/utils/utilsTest.cpp:294-299 | every set is equal to itself |
| PointerSet.AreSetOfPtrEqualSize | cpp_utils/test/unittest/utils/utilsTest.cpp:254-261 | sets of different sizes are never equal |
| PointerSet.SetOfPtrContainsInt | cpp_utils/test/unittest/utils/utilsTest.cpp:36-140 | the empty set contains nothing; {0,1,2,3} contains 0 and 1 but not 4 or null; with null added it contains null, 0 and 1 but not 4 |
| PointerSet.SetOfPtrContainsString | cpp_utils/test/unittest/utils/utilsTest.cpp:149-188 | string values are compared whole: "a" and "Barro" are found, "Barr", "Stringwithspaces" and "4" are not |
| PointerSet.AreSetOfPtrEqualInt | cpp_utils/test/unittest/utils/utilsTest.cpp:205-300 | each comparison the equality test makes, with its expected answer |
| CaseConversion.LowerChar | cpp_utils/test/unittest/utils/utilsTest.cpp:305-331 | the result is never upper case; lower-case letters and non-letters are kept; an upper-case letter moves 32 code points up |
| CaseConversion.UpperChar | cpp_utils/test/unittest/utils/utilsTest.cpp:336-362 | the result is never lower case; upper-case letters and non-letters are kept; a lower-case letter moves 32 code points down |
| CaseConversion.Lowered | cpp_utils/test/unittest/utils/utilsTest.cpp:305-331 | the lowered string has the same length, and each character is the lower-case form of the one at the same place |
| CaseConversion.Uppered | cpp_utils/test/unittest/utils/utilsTest.cpp:336-362 | the uppered string has the same length, and each character is the upper-case form of the one at the same place |
| CaseConversion.ToLowercase | cpp_utils/test/unittest/utils/utilsTest.cpp:305-331 | the array afterwards holds the old contents with every character lower-cased |
| CaseConversion.ToUppercase | cpp_utils/test/unittest/utils/utilsTest.cpp:336-362 | the array afterwards holds the old contents with every character upper-cased |
| CaseConversion.LoweredChangesOnlyLetters | cpp_utils/test/unittest/utils/utilsTest.cpp:319-324 | non-letters are unchanged, no upper-case letter remains, letters stay letters |
| CaseConversion.UpperedChangesOnlyLetters | cpp_utils/test/unittest/utils/utilsTest.cpp:350-355 | non-letters are unchanged, no lower-case letter remains, letters stay letters |
| CaseConversion.CaseConversionIdempotent | cpp_utils/test/unittest/utils/utilsTest.cpp:313-318 | converting an already converted string changes nothing ("foo" stays "foo", "FOO" stays "FOO") |
| CaseConversion.CaseConversionForgetsCase | cpp_utils/test/unittest/utils/utilsTest.cpp:305-362 | the result does not depend on the case the input had |
| ByteSize.NatToDigits | cpp_utils/test/unittest/utils/utilsTest.cpp:460-511 | the decimal numeral of a count: digits only, no leading zero, evaluating back to the count |
| ByteSize.NatToDigitsCanonical | cpp_utils/test/unittest/utils/utilsTest.cpp:460-511 | printing the value of a numeral without leading zeros gives that numeral back |
| ByteSize.DigitsValueConcat | cpp_utils/test/unittest/utils/utilsTest.cpp:413-426 | the value of two numerals put together is the first shifted by the length of the second plus the second |
| ByteSize.ParseUnit | cpp_utils/test/unittest/utils/utilsTest.cpp:378-412 | a recognised suffix names a valid unit whose spelling is the suffix upper-cased |
| ByteSize.ParseUnitSpelling | cpp_utils/test/unittest/utils/utilsTest.cpp:378-412 | a suffix names a unit exactly when its upper-cased form is that unit's spelling |
| ByteSize.ScaleOfEveryUnit | cpp_utils/test/unittest/utils/utilsTest.cpp:371-412 | B is 1 byte; KB..PB are 1000^1..1000^5 bytes; KiB..PiB are 1024^1..1024^5 bytes |
| ByteSize.UnitStart | cpp_utils/test/unittest/utils/utilsTest.cpp:367-455 | the unit is the longest suffix made only of letters |
| ByteSize.ParseNumberOfParts | cpp_utils/test/unittest/utils/utilsTest.cpp:371-426 | `digits` and `digits.digits` are read as the whole part, the fraction and its number of digits |
| ByteSize.ParseNumberForm | cpp_utils/test/unittest/utils/utilsTest.cpp:371-426 | conversely, an accepted number is exactly `digits` or `digits.digits` |
| ByteSize.ScaledTruncates | cpp_utils/test/unittest/utils/utilsTest.cpp:413-426 | the scaled count is the fixed-point value times the scale, truncated: the largest count not above it |
| ByteSize.Checked | cpp_utils/test/unittest/utils/utilsTest.cpp:450-454 | a count is accepted exactly when it fits in 64 bits, and is then returned unchanged; otherwise the error is overflow |
| ByteSize.ToBytes | cpp_utils/test/unittest/utils/utilsTest.cpp:367-455 | the error is "empty" exactly for "", "no unit" exactly when the text does not end in a letter, "no number" exactly when it is all letters |
| ByteSize.ToBytesOfParts | cpp_utils/test/unittest/utils/utilsTest.cpp:371-426 | a number with optional fraction followed by a unit spelled in any case parses to the fixed-point value scaled by the unit, truncated, if it fits |
| ByteSize.ToBytesSuccessForm | cpp_utils/test/unittest/utils/utilsTest.cpp:371-426 | conversely, every accepted text is a number with optional fraction followed by a unit spelled in any case, and its value is that number scaled by the unit, truncated |
| ByteSize.ToBytesRejectsUnknownUnit | cpp_utils/test/unittest/utils/utilsTest.cpp:445-449 | a well-formed number followed by letters that name no unit is rejected as an unknown unit |
| ByteSize.ToBytesRejectsMalformedNumber | cpp_utils/test/unittest/utils/utilsTest.cpp:430-449 | letters preceded by text that is not `digits[.digits]` are rejected as a malformed number |
| ByteSize.ToBytesWhole | cpp_utils/test/unittest/utils/utilsTest.cpp:371-405 | a whole number followed by a unit parses to the number times the unit's scale, if it fits |
| ByteSize.ScaledDivisible | cpp_utils/test/unittest/utils/utilsTest.cpp:413-426 | when 10^digits divides the scale, a fractional number scales exactly, with no truncation |
| ByteSize.ToBytesCaseInsensitive | cpp_utils/test/unittest/utils/utilsTest.cpp:378-383 | two suffixes that agree up to case give the same result |
| ByteSize.ToBytesPlainBytes | cpp_utils/test/unittest/utils/utilsTest.cpp:371-377 | "100B" is 100 bytes |
| ByteSize.ToBytesLowerCaseUnit | cpp_utils/test/unittest/utils/utilsTest.cpp:378-384 | "123kb" is 123 * 1000 bytes |
| ByteSize.ToBytesMegabytes | cpp_utils/test/unittest/utils/utilsTest.cpp:385-391 | "100MB" is 100 * 1000^2 bytes |
| ByteSize.ToBytesGibibytes | cpp_utils/test/unittest/utils/utilsTest.cpp:392-398 | "82GiB" is 82 * 1024^3 bytes |
| ByteSize.ToBytesTerabytes | cpp_utils/test/unittest/utils/utilsTest.cpp:399-405 | "742TB" is 742 * 1000^4 bytes |
| ByteSize.ToBytesPebibytes | cpp_utils/test/unittest/utils/utilsTest.cpp:406-412 | "51pib" is 51 * 1024^5 bytes |
| ByteSize.ToBytesShortFraction | cpp_utils/test/unittest/utils/utilsTest.cpp:413-419 | "1.50KB" is 1500 bytes |
| ByteSize.ToBytesLongFraction | cpp_utils/test/unittest/utils/utilsTest.cpp:420-426 | "23.9999GB" is 23 999 900 000 bytes |
| ByteSize.ToBytesRejectsMissingParts | cpp_utils/test/unittest/utils/utilsTest.cpp:430-444 | "", "100" and "MB" are rejected, each with its own error |
| ByteSize.ToBytesRejectsBarePrefix | cpp_utils/test/unittest/utils/utilsTest.cpp:445-449 | "100G" is rejected as an unknown unit |
| ByteSize.ToBytesRejectsOtherText | cpp_utils/test/unittest/utils/utilsTest.cpp:430-449 | "100XB" is rejected as an unknown unit and "1..5KB" as a malformed number |
| ByteSize.ToBytesPebibyteRange | cpp_utils/test/unittest/utils/utilsTest.cpp:450-454 | a whole number of PiB is accepted exactly below 16384 (2^64 / 2^50); from 16384 PiB up it is rejected as an overflow |
| ByteSize.ToBytesRejectsOverflow | cpp_utils/test/unittest/utils/utilsTest.cpp:450-454 | "18446744073709551616PiB" is rejected as an overflow |
| ByteSize.Level | cpp_utils/test/unittest/utils/utilsTest.cpp:460-511 | the number of times 1000 divides into the count, capped: 1000^level <= n < 1000^(level+1) unless the cap is reached |
| ByteSize.FormatUnit | cpp_utils/test/unittest/utils/utilsTest.cpp:460-511 | the printed unit is always decimal, and is bytes exactly below 1000 |
| ByteSize.FromBytesUnitChoice | cpp_utils/test/unittest/utils/utilsTest.cpp:474-511 | the chosen unit is at most the count, and the count is below 1000 of it unless the unit is PB |
| ByteSize.FromBytes | cpp_utils/test/unittest/utils/utilsTest.cpp:460-511 | the printed text ends in the chosen unit, and holds a decimal point exactly when the count is not a whole number of that unit |
| ByteSize.FromBytesSmall | cpp_utils/test/unittest/utils/utilsTest.cpp:462-474 | a count below 1000 prints as its numeral followed by "B" |
| ByteSize.FromBytesExact | cpp_utils/test/unittest/utils/utilsTest.cpp:490-511 | an exact multiple of the chosen unit prints as the whole multiple with no fraction |
| ByteSize.FromBytesWholeUnits | cpp_utils/test/unittest/utils/utilsTest.cpp:504-510 | a count that is a canonical numeral's worth of its unit prints as that numeral and the unit |
| ByteSize.FromBytesFraction | cpp_utils/test/unittest/utils/utilsTest.cpp:476-489 | any other count prints as the hundredths of the unit nearest to it (halves up), with exactly two fractional digits |
| ByteSize.FromBytesFractionDigits | cpp_utils/test/unittest/utils/utilsTest.cpp:476-489 | the printed count when its rounded hundredths have the given whole part and two digits |
| ByteSize.RoundingBounds | cpp_utils/test/unittest/utils/utilsTest.cpp:476-482 | the printed hundredths are within half a hundredth of the exact value, rounding halves up |
| ByteSize.FromBytesRoundTrip | cpp_utils/test/unittest/utils/utilsTest.cpp:367-511 | parsing any printed count succeeds; it gives the count back when the count was an exact multiple, and otherwise a count within half a hundredth of the unit |
| ByteSize.ExactRoundTrip | cpp_utils/test/unittest/utils/utilsTest.cpp:490-511 | a count printed without a fraction parses back to exactly that count |
| ByteSize.RoundedRoundTrip | cpp_utils/test/unittest/utils/utilsTest.cpp:476-489 | a count printed with a fraction parses back to within half a hundredth of its unit |
| ByteSize.FromBytesBytes | cpp_utils/test/unittest/utils/utilsTest.cpp:462-475 | 0 prints as "0B" and 100 as "100B" |
| ByteSize.FromBytesKilobytes | cpp_utils/test/unittest/utils/utilsTest.cpp:476-482 | 555 559 bytes print as "555.56KB" |
| ByteSize.FromBytesMegabytes | cpp_utils/test/unittest/utils/utilsTest.cpp:483-489 | 100 104 000 bytes print as "100.10MB" |
| ByteSize.FromBytesGigabytes | cpp_utils/test/unittest/utils/utilsTest.cpp:490-496 | 82 * 1000^3 bytes print as "82GB" |
| ByteSize.FromBytesTerabytes | cpp_utils/test/unittest/utils/utilsTest.cpp:497-503 | 742 * 1000^4 bytes print as "742TB" |
| ByteSize.FromBytesPetabytes | cpp_utils/test/unittest/utils/utilsTest.cpp:504-510 | 12345 * 1000^5 bytes print as "12345PB", PB being the largest unit |
| FileAccess.Or | cpp_utils/test/unittest/utils/utilsTest.cpp:558-562 | the combined mode grants what each operand grants, and is the smallest such mode |
| FileAccess.And | cpp_utils/test/unittest/utils/utilsTest.cpp:564-598 | the masked mode grants only what both operands grant, and is the largest such mode |
| FileAccess.AndFlag | cpp_utils/test/unittest/utils/utilsTest.cpp:573-598 | masking a mode with a flag yields the flag exactly when the mode grants it |
| FileAccess.AndExist | cpp_utils/test/unittest/utils/utilsTest.cpp:564-571 | masking any mode with `exist` yields `exist` |
| FileAccess.OrGrantsFlag | cpp_utils/test/unittest/utils/utilsTest.cpp:558-598 | a combination grants read, write or exec exactly when one of its parts does |
| FileAccess.CombinedFilePermissions | cpp_utils/test/unittest/utils/utilsTest.cpp:556-599 | every combination and mask of the permission test, with its expected result |
| SplitString.Split | cpp_utils/test/unittest/utils/utilsTest.cpp:604-648 | a split always has at least one piece |
| SplitString.SplitIsSplit | cpp_utils/test/unittest/utils/utilsTest.cpp:604-648 | the pieces meet `IsSplit`: they join back, with the delimiter, to the input; each cut is the first occurrence after the piece before it; the last piece holds no occurrence |
| SplitString.IsSplitUnique | cpp_utils/test/unittest/utils/utilsTest.cpp:604-648 | any pieces with those properties are exactly the ones `split_string` returns |
| SplitString.JoinSplit | cpp_utils/test/unittest/utils/utilsTest.cpp:604-648 | joining the pieces with the delimiter gives back the input |
| SplitString.SplitNoMatch | cpp_utils/test/unittest/utils/utilsTest.cpp:615-618 | text without the delimiter is a single piece |
| SplitString.SplitFirstPiece | cpp_utils/test/unittest/utils/utilsTest.cpp:620-638 | a piece free of the delimiter, then the delimiter, then the rest: that piece followed by the pieces of the rest |
| SplitString.SplitLeadingDelimiter | cpp_utils/test/unittest/utils/utilsTest.cpp:630-633 | a delimiter at the start cuts off an empty first piece |
| SplitString.SplitEach | cpp_utils/test/unittest/utils/utilsTest.cpp:653-692 | the strings of a vector split, at least one piece per string |
| SplitString.SplitEachSingle | cpp_utils/test/unittest/utils/utilsTest.cpp:664-672 | a one-string vector splits like the string |
| SplitString.SplitEachAppend | cpp_utils/test/unittest/utils/utilsTest.cpp:674-682 | the pieces of two vectors put together are the pieces of each put together |
| SplitString.SplitAny | cpp_utils/test/unittest/utils/utilsTest.cpp:697-731 | a split at a set of delimiters always has at least one piece |
| SplitString.SplitOnCharsPieces | cpp_utils/test/unittest/utils/utilsTest.cpp:697-731 | the reference cut at a set of characters leaves no such character in any piece, and its pieces, in order and with one character of the set between neighbours, rebuild the text |
| SplitString.SplitOnCharsUnique | cpp_utils/test/unittest/utils/utilsTest.cpp:697-731 | conversely, any pieces free of the set that rebuild the text with one character of the set between neighbours are the reference's pieces |
| SplitString.SplitOneChar | cpp_utils/test/unittest/utils/utilsTest.cpp:697-731 | splitting at one single-character delimiter is cutting at every occurrence of that character |
| SplitString.SplitEachOnChars | cpp_utils/test/unittest/utils/utilsTest.cpp:697-731 | splitting the pieces of a cut at a set of characters at one more character is cutting at the larger set |
| SplitString.SplitAnyPiecesFree | cpp_utils/test/unittest/utils/utilsTest.cpp:697-731 | for delimiters of any length, no piece of the set overload holds an occurrence of any delimiter of the set |
| SplitString.SplitAnyRebuild | cpp_utils/test/unittest/utils/utilsTest.cpp:697-731 | the pieces of the set overload, in order and with a delimiter of the set between neighbours, rebuild the text |
| SplitString.SplitEachFree | cpp_utils/test/unittest/utils/utilsTest.cpp:653-692 | no piece of the vector overload holds an occurrence of its delimiter |
| SplitString.SplitEachRebuild | cpp_utils/test/unittest/utils/utilsTest.cpp:653-692 | splitting every piece of a joined text rebuilds the same text, with the delimiter added to the separators |
| SplitString.SplitAnyOneChar | cpp_utils/test/unittest/utils/utilsTest.cpp:697-731 | with single-character delimiters, splitting at the set is cutting at every character of the set |
| SplitString.SplitTrivial | cpp_utils/test/unittest/utils/utilsTest.cpp:615-618 | "trivial" split at " " is ["trivial"] |
| SplitString.SplitTwoPieces | cpp_utils/test/unittest/utils/utilsTest.cpp:620-628 | text with exactly one occurrence of a one-character delimiter splits into the parts around it |
| SplitString.SplitOneSpace | cpp_utils/test/unittest/utils/utilsTest.cpp:620-623 | "one space" split at " " is ["one", "space"] |
| SplitString.SplitNewline | cpp_utils/test/unittest/utils/utilsTest.cpp:625-628 | "with other\ndelimiters" split at "\n" is ["with other", "delimiters"] |
| SplitString.SplitKeepsEmptyPieces | cpp_utils/test/unittest/utils/utilsTest.cpp:630-633 | "e be ce" split at "e" is ["", " b", " c", ""] |
| SplitString.SplitLongDelimiter | cpp_utils/test/unittest/utils/utilsTest.cpp:635-638 | "longer delimiter" split at "r d" is ["longe", "elimiter"] |
| SplitString.SplitEachTrivial | cpp_utils/test/unittest/utils/utilsTest.cpp:664-672 | ["trivial"] and ["one space"] split at " " |
| SplitString.SplitEachSentences | cpp_utils/test/unittest/utils/utilsTest.cpp:674-677 | ["more than", "one", "sentence here"] split at " " is the five words |
| SplitString.SplitEachNewlines | cpp_utils/test/unittest/utils/utilsTest.cpp:679-682 | ["other\ndelimiter", "\nhere"] split at "\n" is ["other", "delimiter", "", "here"] |
| SplitString.SplitAnySingleDelimiter | cpp_utils/test/unittest/utils/utilsTest.cpp:708-716 | "trivial" and "one space" split at the set {" "} |
| SplitString.SplitAnyTwoDelimiters | cpp_utils/test/unittest/utils/utilsTest.cpp:718-721 | "with other\ndelimiters" split at {" ", "\n"} is ["with", "other", "delimiters"] |
| MapKeys.GetKeys | cpp_utils/test/unittest/utils/utilsTest.cpp:736-791 | the keys returned are exactly the keys of the map, as many as the map has entries |
| MapKeys.GetKeysOfFilledMap | cpp_utils/test/unittest/utils/utilsTest.cpp:736-791 | a map filled from a set of keys gives that set back |
| MapKeys.GetMapKeys | cpp_utils/test/unittest/utils/utilsTest.cpp:736-791 | the string-keyed and the integer-keyed maps of the tests give {"a","b","c","d"} and {1,2,3,4} |

## Left out

- `is_file_accessible`: it queries the file system, so it is not part of this model.
- `tsnh`, `Formatter` and the fatal exit they cause are not part of this model.
- The gtest entry point `main` and its assertion macros are not part of this model.
- PointerSet.SetOfPtrContains: a pointer is its value, so pointer identity is not modelled. A C++ set holding two distinct pointers to equal values has no counterpart here.
- PointerSet.AreSetOfPtrEqual: for the same reason, the size comparison counts distinct values, not distinct pointers. A C++ set can hold two distinct pointers to the same value, and on such sets the size-plus-containment test need not be symmetric; AreSetOfPtrEqualSymmetric holds only for the value model.
- ByteSize.FromBytes: the rounding direction for an exact half and the carry past 999.99 (999 996 bytes print as "1000.00KB") are not shown by any test. The model rounds half up and lets the carry stand.
- ByteSize.ToBytes: the order in which the error cases are detected, and the `MalformedNumber` case for text such as "1..5KB", are choices of this model. The C++ code throws one `std::invalid_argument` for every error.
- SplitString.Split: the empty delimiter is excluded by a precondition. A search loop over an empty delimiter would not advance, and no test uses one.
- SplitString.SplitAny: the set of delimiters is a strictly lexicographically increasing sequence, the iteration order of `std::set<std::string>`. No set type is used here.
- SplitString.SplitAny: with delimiters longer than one character, two delimiters of the set can overlap in the text. Which one wins then depends on the order the set lists them in. For every order the model proves that no piece holds a delimiter (`SplitAnyPiecesFree`) and that the pieces rebuild the text with delimiters between them (`SplitAnyRebuild`). It does not state which occurrence wins an overlap. The exact pieces are pinned down by a reference (`SplitAnyOneChar`) only for one-character delimiters.
- FileAccess: the bit values of the flags (exist 0, exec 1, write 2, read 4) follow the POSIX `access` convention. The header that defines them is not part of this model.
- MapKeys.GetKeys: the result is a set, so the iteration order of an unordered map does not arise.
- Byte counts are not floating point: the model uses exact integers throughout.
