# Copy-name resolution of the CMS duplicate feature

This project models the logic the content-management app uses to name a duplicated file.
The user chooses "duplicate" on a file such as `sarah.txt`. The app then proposes a fresh
name of the form `stem copy.ext` or `stem copy N.ext`, reusing the lowest free copy number
before it mints a new maximum. The model has four parts:

- `copy_number`: the copy number a name carries. Modules `Copies` and `Decimal`.
- `filename_stem`: the name with its copy marker and extension removed. Modules `Copies`,
  `Extname` and `RubyRegex`.
- `next_integer`: the gap-or-max+1 numbering rule, including its in-place `sort!`. Module
  `NextNumber`.
- `next_copy_name`: the whole resolver. Module `Copies`.

The concrete checks printed by the Ruby files are proved in `Samples`. `Corrected` holds
the evidently intended behaviour, beside lemmas that exhibit each defect of the code as
written (see "## Findings").

How the Ruby is modelled:

- `File.extname` is modelled for the names the resolver deals with (`Extname.HasExt`). The
  extension is the last `.` followed by ASCII letters or digits. The name has a non-empty
  base that does not start with `.` and contains no line break.
- `copy_number`'s regular expression is anchored with `$`, so its interpolated extension
  can only match at the end. `Copies.CopyNumber` therefore reads it exactly. The match
  data in `$1` becomes an explicit `CopyMatch` value.
- `filename_stem`'s `sub` is unanchored, and its interpolated extension is an unescaped
  regular expression. `RubyRegex.RubyFilenameStem` models that leftmost-match `sub`
  literally for this one pattern. `Copies.Stem` is the reading with the extension matched
  literally at the end, and the resolver (`Copies.Family`, `Copies.ChosenNumber`,
  `Copies.NextCopyName`) is built on it. `RubyRegex.RubyStemAgrees` proves the two are equal on every name
  where the extension pattern does not occur earlier (`ValidName`). Outside `ValidName`
  they can differ, as two counterexample lemmas show, and can also agree
  (`RubyRegex.RubyStemRepeatedExt`).
- `next_integer` sorts its argument in place and compares the result with
  `[*min..max]`. This is `NextNumber.NextIntegerInPlace`, a method on an `array<int>`. It
  is proved against the pure `NextNumber.NextInteger`, which compares multisets instead.
  The two agree because a sorted sequence is determined by its multiset
  (`NextNumber.SortedUnique`).
- A nil `next_integer` result is interpolated by Ruby as the empty string. The model
  keeps that, giving `stem copy .ext`.
- The comment at copies.rb:16 gives the rule of `next_integer`: find the missing integer in
  the series, and if none is missing take max + 1. The code compares the sorted array,
  duplicates included, with `[*min..max]`. So a series with a repeat and no gap, such as
  `[0, 0]`, gives nil, although nothing in `[0..0]` is missing and the comment's rule gives
  max + 1 = 1. The model follows the code (`NextNumber.NextIntegerOfRepeats`). The rule of
  the comment is `Corrected.NextFreeSlot`.

## Model

| member | source | states |
|---|---|---|
| Extname.Ext | copies.rb:3 | `File.extname` of a well-formed name is a dot followed by ASCII alphanumerics, shorter than the name, and the name is its base followed by it |
| Extname.SplitName | copies.rb:3 | a base with no leading dot or line break, followed by an extension, is well formed, and splits back into exactly that base and that extension |
| Decimal.Render | copies.rb:47 | `Integer#to_s` of a natural number is a non-empty digit string, one digit exactly for numbers below 10, with no leading zero |
| Decimal.ValueOfRender | copies.rb:6 | `to_i` of the rendered number gives the number back |
| Decimal.Value | copies.rb:6 | `to_i` of a string of k digits is below 10^k; with `Decimal.ValueOfRender` it inverts `to_s` |
| Decimal.Interpolate | copies.rb:47 | interpolating an integer gives digits that read back as the integer, after a minus sign when it is negative |
| Copies.TrailingDigitsStart | copies.rb:4 | the `\d+` of the copy group is the longest digit run at the end of the base: digits from its start on, a non-digit before it |
| Copies.DigitsStartUnique | copies.rb:4 | any digit run to the end that has a non-digit before it is that longest run |
| Copies.MatchCopyNumber | copies.rb:4 | when group 1 of `copy( \d+)?` took part in the match, it is a blank followed by at least one digit |
| Copies.CopyNumberAt | copies.rb:4-6 | a base ending in `copy ` followed by digits numbers that run's value (`$1.to_i`) |
| Copies.CopyNumber | copies.rb:2-7 | copy_number is 0 for a base that ends neither in `copy` nor in a digit; the full case split is `Copies.CopyNumberCases` |
| Copies.CopyNumberCases | copies.rb:2-7 | copy_number is 1 for a base ending in `copy`, the digits' value for a base ending in `copy N`, and 0 when the pattern does not match |
| Copies.TrailingGroupsStart | copies.rb:12 | `( \d)*` takes the longest run of blank-digit pairs at the end of the base; no further pair precedes it |
| Copies.MarkerStart | copies.rb:12 | the optional ` copy( \d)*` marker starts within the base |
| Copies.Stem | copies.rb:9-13 | the literal-extension reading of filename_stem, equal to the source's on every valid name (`RubyRegex.RubyStemAgrees`), is a prefix of the base, so it is shorter than the name by at least the extension |
| Copies.GroupsStartAtMarker | copies.rb:12 | when ` copy` is followed by blank-digit pairs up to the end of the base, the pairs start right after ` copy` |
| Copies.GroupsStartUnique | copies.rb:12 | a run of pairs to the end with no pair before it is the longest run |
| Copies.StemCases | copies.rb:9-13 | the stem is the base cut before its ` copy( \d)*` marker, or the whole base when there is none |
| Copies.StemHasShape | copies.rb:32 | the stem of a well-formed name contains no line break and does not start with a dot |
| Copies.MarkedEnd | copies.rb:12 | a base with a marker ends in ` copy` or in a blank and a digit |
| Copies.StemWithoutMarker | copies2.rb:1-5 | a base that ends neither in ` copy` nor in a blank and a digit is its own stem |
| Copies.PlainNameReadsBack | copies.rb:2-13 | an original (no marker, no trailing digit) is well formed, has itself as stem and copy number 0 |
| Copies.Family | copies.rb:35-37 | the selected copies are exactly the files whose stem is the source's stem |
| Copies.CopyNumbers | copies.rb:39 | position by position, the copy numbers of the selected files |
| Copies.NextCopyName | copies.rb:30-49 | the name starts with the source's stem and ends with the source's extension |
| Copies.BareCopyName | copies.rb:45 | `stem copy.ext` is well formed, keeps the extension, has stem `stem` and copy number 1 |
| Copies.NumberedCopySplit | copies.rb:47 | `stem copy N.ext` is well formed, with extension `.ext` and base `stem copy N` |
| Copies.NumberedCopyDigits | copies.rb:4-6 | the copy number of `stem copy N.ext` is the value of N's digits |
| Copies.NumberedCopyNumber | copies.rb:4-6 | the copy number of `stem copy N.ext` is N |
| Copies.NumberedCopyStem | copies.rb:12 | `stem copy N.ext` has stem `stem` when N < 10, and stem `stem copy N` when N has two or more digits |
| Copies.NilCopyName | copies.rb:47 | `stem copy .ext`, made from a nil number, has stem `stem copy ` and copy number 0 |
| Copies.SourceInOwnFamily | copies.rb:32-37 | a well-formed source in the listing is in its own family, so that family is not empty |
| Copies.ChosenNumber | copies.rb:39-41 | a number next_integer picks for the family is at least 1, and no file of the family carries it |
| Copies.CopyName | copies.rb:43-48 | number 1 gives `stem copy.ext`; a number of 2 or more gives `stem copy N.ext` with N in decimal; nil gives `stem copy .ext` |
| Copies.CopyNameReadsBack | copies.rb:44-48 | the interpolated name reads back as its number; it keeps its stem below 10; for nil it reads as `stem copy ` and 0 |
| Copies.NextCopyNameNumber | copies.rb:30-49 | the result is well formed, keeps the source's extension, and carries the chosen number (or reads as `stem copy ` for nil) |
| Copies.NextCopyNameFresh | copies.rb:30-49 | when the chosen number is below 10, the result is in the source's family and is not an existing file |
| Copies.FamilyConcat | copies.rb:35-37 | selection distributes over concatenation of listings |
| Copies.FamilyOfOthers | copies.rb:35-37 | a listing with no file of the stem selects nothing |
| Copies.FamilyOfFamily | copies.rb:35-37 | selecting twice selects the same files as selecting once |
| Copies.FamilyInsertOthers | copies.rb:35-37 | inserting files of other stems anywhere leaves the selection unchanged |
| Copies.NextCopyNameIgnoresOtherStems | copies.rb:30-49 | files of other stems, inserted anywhere, change neither the family nor the name |
| Copies.NextCopyNameOfFamily | copies.rb:30-49 | the name computed from the family alone equals the name computed from the whole listing |
| NextNumber.Min | copies.rb:22 | `integers.min` is an element and no element is smaller |
| NextNumber.Max | copies.rb:22 | `integers.max` is an element and no element is larger |
| NextNumber.Range | copies.rb:22 | `[*lo..hi]` has `hi - lo + 1` elements (none when lo > hi), the k-th being lo + k |
| NextNumber.FirstAbsent | copies.rb:26 | `(range - integers).first` is nil only when every range element occurs, else an element of the range not in the array |
| NextNumber.FirstAbsentOfRange | copies.rb:26 | over an ascending range the first absent element is the least absent one, within the range |
| NextNumber.FirstAbsentOfRangeIs | copies.rb:26 | a value v with every value from lo below it present and v absent (or past hi) is what `(range - integers).first` yields |
| NextNumber.FirstAbsentSameElements | copies.rb:26 | the first absent element depends only on which values occur in the array |
| NextNumber.NextInteger | copies.rb:15-28 | a number returned is not in the series and lies between its minimum and its maximum + 1 |
| NextNumber.RangeDistinct | copies.rb:22 | a range has no repeats |
| NextNumber.DistinctSameElements | copies.rb:23 | two repeat-free series with the same values have the same multiset |
| NextNumber.NextIntegerOfRun | copies.rb:23-24 | a repeat-free series with no gap gives max + 1 |
| NextNumber.NextIntegerOfGap | copies.rb:26 | a series with a gap gives the least missing value, strictly between min and max |
| NextNumber.NextIntegerOfRepeats | copies.rb:23-26 | a gap-free series with a repeat gives nil |
| NextNumber.SortedEnds | copies.rb:21-22 | after sorting, the first element is the minimum and the last the maximum |
| NextNumber.SortedUnique | copies.rb:21-23 | two sorted sequences with the same multiset are equal |
| NextNumber.SortInPlace | copies.rb:21 | `sort!` leaves the array sorted and a permutation of what it held |
| NextNumber.EqualsRange | copies.rb:23 | the array equals `[*lo..hi]` exactly when the method says so |
| NextNumber.FirstMissing | copies.rb:26 | the loop finds `(range - integers).first` |
| NextNumber.NextIntegerOfSorted | next_number.rb:7-14 | after sorting, comparing with the range from the first to the last element, and taking the first absent value otherwise, gives next_integer of the unsorted series |
| NextNumber.NextIntegerInPlace | next_number.rb:1-16 | the array is left sorted and a permutation of its old contents, and the result is next_integer of the old contents |
| RubyRegex.GroupsAt | copies.rb:12 | `( \d)*` from a position takes as many blank-digit pairs as fit and no more |
| RubyRegex.GroupsAtAre | copies.rb:12 | every pair counted is a blank followed by a digit |
| RubyRegex.TryGroups | copies.rb:12 | backtracking over the pairs, a match ends after the extension and within the name |
| RubyRegex.MatchAt | copies.rb:12 | a match of `( copy( \d)*)?#{extname}` at a position ends after it |
| RubyRegex.FirstMatch | copies.rb:12 | `sub` uses the leftmost position where the pattern matches, and none before it matches |
| RubyRegex.Sub | copies.rb:12 | `sub` never lengthens the string, and leaves it unchanged exactly when the pattern matches nowhere |
| RubyRegex.RubyFilenameStem | copies.rb:9-13 | filename_stem as written always removes something: the extension pattern matches where the extension starts, if not before |
| RubyRegex.ExtOnlyAtEnd | copies.rb:11-12 | in a valid name, the unescaped extension pattern matches only where the extension starts |
| RubyRegex.TryGroupsNone | copies.rb:12 | no backtracking choice matches where the extension pattern cannot follow |
| RubyRegex.GroupsReachEnd | copies.rb:12 | pairs that reach the end of the base after ` copy` make a marker |
| RubyRegex.NoMatchBefore | copies.rb:12 | on a valid name nothing matches before the marker |
| RubyRegex.GroupsAtExact | copies.rb:12 | j pairs followed by a non-pair are counted as exactly j |
| RubyRegex.MatchAtMarker | copies.rb:12 | the pattern matches from the marker to the end of the name |
| RubyRegex.MatchAtExt | copies.rb:12 | with no marker, the bare extension matches to the end |
| RubyRegex.MatchAtCopy | copies.rb:12 | with a marker, the copy group and the extension match to the end |
| RubyRegex.FirstMatchFrom | copies.rb:12 | the leftmost match of a valid name is the marker through the end |
| RubyRegex.RubyStemAgrees | copies.rb:9-13 | on every valid name, the `sub` as written gives the same stem as the literal-extension reading |
| RubyRegex.RubyStemRepeatedExt | copies.rb:12 | `x.a.a` is not valid, as `.a` also matches at its first dot, yet the `sub` as written gives the same stem `x.a` |
| RubyRegex.ValidByLetter | copies.rb:12 | a name whose extension has a letter that occurs neither in the base nor earlier in the extension is valid |
| RubyRegex.SourceStemByLetter | copies.rb:9-13 | on such a name the `sub` as written gives Copies.Stem |
| RubyRegex.TxtSourceStem | copies.rb:9-13 | on a `.txt` name whose base has no `x`, the `sub` as written gives Copies.Stem |
| RubyRegex.RubyStemUnescapedDot | copies.rb:12 | `abc.c`: the unescaped dot matches `bc`, so `sub` gives `a.c` instead of `abc` |
| RubyRegex.RubyStemUnanchored | copies.rb:12 | `a.txt copy.txt`: the unanchored pattern matches the first `.txt`, so `sub` gives `a copy.txt` instead of `a.txt` |
| RubyRegex.SubUnanchored | copies.rb:12 | the substitution on `a.txt copy.txt` removes the first `.txt` |
| Samples.RenderSmall | copies.rb:47 | 1, 2 and 3 render as single digits |
| Samples.SampleCopyNumberNone | copies.rb:51-53 | `i will copy you on the email.txt` has copy number 0 |
| Samples.SampleCopyNumberTwo | copies.rb:51-53 | `ron copy 2.txt` has copy number 2 |
| Samples.SampleCopyNumberBare | copies.rb:51-53 | `sarah copy.txt` has copy number 1 |
| Samples.SampleCopyNumberGlued | copies.rb:4 | `scopy.txt` has copy number 1, as the pattern needs no blank before `copy` |
| Samples.SampleStemBare | copies2.rb:7 | `ron copy.txt` has stem `ron` |
| Samples.SampleStemNumbered | copies2.rb:8 | `ron copy 3.txt` has stem `ron` |
| Samples.SampleStemUnmarked | copies2.rb:9 | `ron copy of toby.txt` is its own stem |
| Samples.SampleStemBareAsWritten | copies2.rb:7 | the `sub` as written gives `ron` for `ron copy.txt` |
| Samples.SampleStemNumberedAsWritten | copies2.rb:8 | the `sub` as written gives `ron` for `ron copy 3.txt` |
| Samples.SampleStemUnmarkedAsWritten | copies2.rb:9 | the `sub` as written gives `ron copy of toby` for `ron copy of toby.txt` |
| Samples.SampleRun | next_number.rb:18 | `next_integer([0, 1])` is 2 |
| Samples.GapSampleBounds | next_number.rb:19 | the second sample series has minimum 0, maximum 8 and lacks 5 |
| Samples.GapSample | next_number.rb:19 | the second sample series gives 5 |
| Samples.SampleGap | next_number.rb:19 | `next_integer([0, 1, 2, 8, 3, 4, 6, 7])` is 5 |
| Samples.GapSampleInPlace | next_number.rb:19 | run in place on that array, next_integer leaves it sorted and returns 5 |
| Samples.SortedSample | next_number.rb:19 | a sorted permutation of the sample is the ascending listing of its values |
| Samples.SampleSortedAscending | next_number.rb:19 | the ascending listing is sorted |
| Samples.SampleSameNumbers | next_number.rb:19 | the sample and its ascending listing have the same multiset |
| Samples.SampleSmallGap | next_number.rb:20 | `next_integer([0, 2])` is 1 |
| Samples.SampleSingle | copies.rb:55 | a family with only the original, `[0]`, gives 1 |
| Samples.SampleRepeat | copies.rb:23-26 | `next_integer([0, 0, 1])` is nil |
| Samples.PlainTom | copies.rb:51 | `tom.txt`: stem `tom`, number 0 |
| Samples.PlainRon | copies.rb:51 | `ron.txt`: stem `ron`, number 0 |
| Samples.PlainKeith | copies.rb:51 | `keith.txt`: stem `keith`, number 0 |
| Samples.PlainKaty | copies.rb:51 | `katy.txt`: stem `katy`, number 0 |
| Samples.PlainSarah | copies.rb:51 | `sarah.txt`: stem `sarah`, number 0 |
| Samples.PlainEmail | copies.rb:51 | `i will copy you on the email.txt` is its own stem, number 0 |
| Samples.BareSarah | copies.rb:51 | `sarah copy.txt`: stem `sarah`, number 1 |
| Samples.BareKaty | copies.rb:51 | `katy copy.txt`: stem `katy`, number 1 |
| Samples.NumberedRon | copies.rb:51 | `ron copy 2.txt`: stem `ron`, number 2 |
| Samples.ListedTom | copies.rb:51 | the first file of the listing has stem `tom`, number 0 |
| Samples.ListedRon | copies.rb:51 | the second file has stem `ron`, number 0 |
| Samples.ListedKeith | copies.rb:51 | the third file has stem `keith` |
| Samples.ListedKaty | copies.rb:51 | the fourth file has stem `katy` |
| Samples.ListedSarah | copies.rb:51 | the fifth file has stem `sarah`, number 0 |
| Samples.ListedSarahCopy | copies.rb:51 | the sixth file has stem `sarah`, number 1 |
| Samples.ListedKatyCopy | copies.rb:51 | the seventh file has stem `katy` |
| Samples.ListedRonCopy2 | copies.rb:51 | the eighth file has stem `ron`, number 2 |
| Samples.ListedEmail | copies.rb:51 | the ninth file is its own stem |
| Samples.ListingStem | copies.rb:51 | each file of the listing has the stem listed for it |
| Samples.ListingHasExt | copies.rb:51 | every file of the listing is well formed |
| Samples.FamilyOfOne | copies.rb:35-37 | a listing with one file of the stem selects just that file |
| Samples.FamilyOfTwo | copies.rb:35-37 | a listing with two files of the stem selects those two, in order |
| Samples.ListingFamilyTom | copies.rb:55 | the `tom` family of the listing is `tom.txt` |
| Samples.ListingFamilyRon | copies.rb:56 | the `ron` family is `ron.txt` and `ron copy 2.txt` |
| Samples.ListingFamilySarah | copies.rb:57-58 | the `sarah` family is `sarah.txt` and `sarah copy.txt` |
| Samples.ChosenForSingle | copies.rb:41 | a family holding only the original gets number 1 |
| Samples.ChosenForGappedPair | copies.rb:41 | a family numbered 0 and 2 gets number 1 |
| Samples.ChosenForFullPair | copies.rb:41 | a family numbered 0 and 1 gets number 2 |
| Samples.TomCopyName | copies.rb:45 | number 1 for `tom` gives `tom copy.txt` |
| Samples.RonCopyName | copies.rb:45 | number 1 for `ron` gives `ron copy.txt` |
| Samples.SarahSecondCopyName | copies.rb:47 | number 2 for `sarah` gives `sarah copy 2.txt` |
| Samples.CopyOfTom | copies.rb:55 | copying `tom.txt` gives `tom copy.txt` |
| Samples.CopyOfRon | copies.rb:56 | copying `ron copy 2.txt` gives `ron copy.txt` |
| Samples.CopyOfSarah | copies.rb:57-58 | copying either sarah file gives `sarah copy 2.txt` |
| Samples.ListingSourceStems | copies.rb:51 | on each of the nine listed names the `sub` as written gives Copies.Stem, so the checks below hold for filename_stem as written |
| Samples.ListedOriginalSourceStem | copies.rb:51 | the same for the five originals |
| Samples.ListedCopySourceStem | copies.rb:51 | the same for the three copies and the email name |
| Samples.ListingNextCopyNames | copies.rb:51-58 | on the listing, all four sample checks hold |
| Samples.ListingIsListing | copies.rb:51 | the listing constant is that listing |
| Corrected.ParseMarker | copies.rb:4 | the corrected marker, if any, is ` copy` within the base, and no marker means number 0 |
| Corrected.FamilyNumber | copies.rb:2-7 | a non-zero corrected copy number means a ` copy` marker follows the stem inside the base |
| Corrected.FamilyStem | copies.rb:9-13 | the corrected stem is a prefix of the base with no line break and no leading dot |
| Corrected.ParseBare | copies.rb:45 | `stem copy` parses as `stem`, number 1 |
| Corrected.ParseNumbered | copies.rb:47 | `stem copy N` parses as `stem`, number N, for any N |
| Corrected.CopyNameReadsBackFixed | copies.rb:44-48 | every interpolated name reads back, under the corrected rule, as its stem and its number |
| Corrected.NextFreeSlot | copies.rb:16 | the slot is not in the series, lies in (min, max + 1], and every value from min below it is in the series |
| Corrected.NextFreeSlotExtends | copies.rb:15-28 | wherever next_integer returns a number it is this slot; where it returns nil the slot is max + 1 |
| Corrected.FixedFamily | copies.rb:35-37 | the corrected family is exactly the files with the source's corrected stem |
| Corrected.FixedNumbers | copies.rb:39 | position by position, the corrected numbers of the family |
| Corrected.FixedNumber | copies.rb:41 | the corrected choice is always a number, at least 1 |
| Corrected.NextCopyNameFixed | copies.rb:30-49 | the corrected name starts with the source's stem and ends with its extension |
| Corrected.NextCopyNameFixedIsFresh | copies.rb:30-49 | the corrected name is in the source's family, carries the chosen number, and is not an existing file |
| Corrected.NextCopyNameOfRepeats | copies.rb:41-47 | as written, a family with repeated numbers and no gap gets `stem copy .ext` |
| Corrected.CollisionAtTen | copies.rb:12 | as written, copying `stem copy 9.ext` beside `stem copy 10.ext` gives `stem copy 10.ext` |
| Corrected.NineTenSourceStems | copies.rb:9-13 | `a copy 9.txt` and `a copy 10.txt` are valid, so Copies.Stem is the `sub` as written on them |
| Corrected.NextCopyNameAtTen | copies.rb:30-49 | as written, copying `a copy 9.txt` beside `a copy 10.txt` gives the existing `a copy 10.txt` |
| Corrected.NextCopyNameFixedAtTen | copies.rb:30-49 | corrected, the same copy is `a copy 11.txt`, a new name |
| Corrected.FreshAtTen | copies.rb:30-49 | corrected, copy 9 beside copy 10 gives copy 11 |
| Corrected.NumberedBelowTen | copies.rb:2-13 | as written, `stem copy N.ext` with N < 10 reads as `stem` and N |
| Corrected.NumberedFromTen | copies.rb:12 | as written, `stem copy N.ext` with N >= 10 falls outside the family of `stem` |
| Corrected.PlainFixedReadBack | copies.rb:2-13 | corrected, an original reads as itself, number 0 |
| Corrected.NilFixedReadBack | copies.rb:47 | corrected, `stem copy .ext` reads as the original `stem copy `, not a copy of `stem` |
| Corrected.DuplicatesCollide | copies.rb:23-26 | as written, `s.e1`, `s.e2` and `s copy .e1` make copying `s.e1` give the existing `s copy .e1` |
| Corrected.DuplicatesFixed | copies.rb:16 | corrected, the same copy is `s copy.e1`, a new name |
| Corrected.DuplicateSourceStems | copies.rb:9-13 | `s.txt`, `s.md` and `s copy .txt` are valid, so Copies.Stem is the `sub` as written on them |
| Corrected.MdSourceStem | copies.rb:9-13 | `s.md` is valid, so Copies.Stem is the `sub` as written on it |
| Corrected.DuplicateSampleAsWritten | copies.rb:30-49 | as written, copying `s.txt` beside `s.md` and `s copy .txt` gives the existing `s copy .txt` |
| Corrected.DuplicateSampleFixed | copies.rb:30-49 | corrected, the same copy is `s copy.txt`, a new name |
| Corrected.GluedReadBack | copies.rb:2-13 | as written, `scopy.ext` has stem `scopy` but copy number 1; corrected, it reads as number 0 |
| Corrected.GluedCopyNumbered | copies.rb:4 | as written, the first copy of `scopy.ext` is numbered 2 |
| Corrected.GluedCopyFixed | copies.rb:4 | corrected, the first copy of `scopy.ext` is `scopy copy.ext` |
| Corrected.GluedSourceStem | copies.rb:9-13 | `scopy.txt` is valid, so Copies.Stem is the `sub` as written on it |
| Corrected.GluedSampleAsWritten | copies.rb:4 | as written, `scopy.txt` is copied as `scopy copy 2.txt` |
| Corrected.GluedSampleFixed | copies.rb:4 | corrected, `scopy.txt` is copied as `scopy copy.txt` |

## Left out

- The HTTP application around the resolver (routes, sessions, file I/O in `cms.rb`) is not
  part of this model. The listing of existing files is a parameter.
- The `ArgumentError` check in `next_integer`, for a non-array or a non-Integer element,
  is not modelled. The model's argument is typed as a sequence of integers, so that error
  cannot arise. Negative integers are accepted, as in the source.
- An empty family is a precondition of `next_copy_name`. Ruby fails on an empty `min`
  range and that error path is not modelled. A well-formed source that is in the listing
  is always in its own family (`Copies.SourceInOwnFamily`), so the family is never empty
  for it.
- Names outside `HasExt` are not modelled: no extension, a leading dot, a line break, or
  extension characters other than ASCII letters and digits. Neither is the general behaviour of Ruby's regular
  expression engine. Only the two patterns of the resolver are modelled.
- Copies.Stem: reads the extension literally at the end of the name. On a name outside
  `RubyRegex.ValidName`, where the unescaped extension pattern also matches earlier,
  copies.rb:12 removes that earlier match instead (`abc.c` gives `a.c`, see
  `RubyRegex.RubyStemUnescapedDot`). There Stem may differ from the source's.
- Copies.Family: selects by Copies.Stem, so on names outside `RubyRegex.ValidName` it
  selects by the corrected stem rather than by copies.rb:12.
- Copies.NextCopyName: built on Copies.Stem, so where a name is outside
  `RubyRegex.ValidName` it resolves with the corrected stem: for the only file `abc.c` it
  gives `abc copy.c`, where the source gives `a.c copy.c`.
- Extname.Ext: `File.extname` looks only at the last path component, so for `x/.txt` it gives
  the empty string while the model gives `.txt`. Names in a listing of the data directory
  contain no `/`.
- RubyRegex.RubyStemAgrees: the agreement is proved under `ValidName`, a sufficient
  condition. Names where the unescaped extension pattern occurs earlier are covered only
  by the two counterexamples and by `RubyRegex.RubyStemRepeatedExt`, where they agree.
- Samples.ListingNextCopyNames: it is stated for any listing meeting `IsListing`, one
  literal per index. `Samples.ListingIsListing` shows the listing constant meets it.
- The `p` calls that print the checks, and the commented-out lines, are not modelled. The
  printed values are proved as lemmas in `Samples`.
- Concurrency is not modelled. Another request can create the chosen name between
  resolving it and writing the file.

## Findings

| source | as written | input that shows it | evidently intended | confidence | as-written member | corrected member |
|---|---|---|---|---|---|---|
| copies.rb:12 | `( \d)*` strips only single-digit groups, so `stem copy 10.ext` is not in the family of `stem` | files `a copy 9.txt`, `a copy 10.txt`; copying `a copy 9.txt` gives `a copy 10.txt`, which exists | copy numbers of any width belong to the family; the copy is `a copy 11.txt` | high, not executed | Corrected.NextCopyNameAtTen | Corrected.NextCopyNameFixedAtTen |
| copies.rb:23-26 | the sorted array keeps duplicate numbers, so a gap-free family with a repeat gets nil and the name `stem copy .ext` | files `s.txt`, `s.md`, `s copy .txt`; copying `s.txt` gives `s copy .txt`, which exists | the comment at copies.rb:16: nothing in `[0..0]` is missing, so the number is max + 1 = 1 and the copy is `s copy.txt` | high, not executed | Corrected.DuplicateSampleAsWritten | Corrected.DuplicateSampleFixed |
| copies.rb:12 | the extension is interpolated unescaped and unanchored, so its dot matches any character and it can match before the end | `abc.c` gives stem `a.c`; `a.txt copy.txt` gives stem `a copy.txt` | the extension is removed only at the end of the name: `abc` and `a.txt` | high, not executed | RubyRegex.RubyStemUnescapedDot | Copies.Stem |
| copies.rb:4 | `copy` needs no blank before it, so an original such as `scopy.txt` counts as copy 1 of itself | the only file `scopy.txt`; copying it gives `scopy copy 2.txt` | the same ` copy` marker as filename_stem; the copy is `scopy copy.txt` | medium, not executed | Corrected.GluedSampleAsWritten | Corrected.GluedSampleFixed |
