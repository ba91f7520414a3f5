# Grayscale: verified model of the runtime structures and the compiler front end

Grayscale is a language compiled to C. This project models, in Dafny, the parts of its runtime and of
its compiler in which state and arithmetic are hardest to get right, and proves what they promise.

- **Insertion-ordered map** (`MapKeys`, `OrderedMapSpec`, `HashTable`, `GrayMap`). `GrayMap` is the
  class with its five tables; every method is proved to act on the sequence of entries (`Contents`) as
  a simple ordered dictionary does. `OrderedMapSpec` says what that dictionary means over whole runs.
- **Wide integers** (`Words`, `HalfProducts`, `LongDivision`, `Wide128`, `Wide256`, `TwosComplement`,
  `Checked128`, `Checked256`, `WideShift`, `WideCast`, `Numerals`, `WideText`, `Ranges`,
  `WideRanges`). Every operation is exact arithmetic modulo 2^128 or 2^256; 64-bit wrap-around is
  written out.
- **Regular expressions** (`Utf8`, `RegexPattern`, `RegexGrammar`, `RegexUnambiguous`, `RegexParser`,
  `RegexCaptures`, `RegexReports`, `RegexTheory`, `RegexCommitment`, `RegexCompleteness`,
  `RegexMatcher`, `RegexEngine`, `RegexLimits`, `RegexMisses`, `RegexClasses`, `RegexSearches`,
  `RegexQuantities`). The grammar of patterns is
  unambiguous, and the compiler accepts exactly what it spells. The matcher computes a search
  function, which is characterised for every pattern (`RegexCommitment`) and measured against the
  declarative meaning of patterns (`RegexTheory`, `RegexCompleteness`); the recorded spans are
  measured against how the pattern was matched. What a character test answers is told by the encoding
  of the subject (`RegexPattern.Occurs`), what a class has by its members written out.
- **Arena allocator** (`ArenaLayout`, `Arena`). Bump allocation over linked blocks with scope marks.
- **Expression parser** (`Expressions`, `Pratt`, `PrattTheory`, `PrattCompleteness`,
  `PrattGrouping`, `ExpressionParser`, `PrattLimits`), **integer literals** (`DigitBuffer`, `IntegerLiterals`) and **integer
  overrides** (`Defines`).
- **Formatter** (`FmtTables`, `FmtDepth`, `FmtBrackets`, `FmtMeaning`, `FmtLines`, `Formatter`,
  `FmtLayout`). The tables are proved against the tokens by counting brackets, and the output against
  the tables.
- **Import resolution** (`ImportSet`, `ImportCache`, `ImportNames`, `ImportGraph`, `ImportResolver`).
  `ImportGraph` says over the file system alone which files are reachable and which programs are free
  of import errors.

`Algebra`, `Bits`, `Options` and `Outcomes` hold shared arithmetic, powers of two, optional values and
the result type of operations that may stop the program with a coded panic.

Code that updates state in place is a class or a method over arrays; each such method is tied by its
`ensures` to a function of the old state, and the lemmas are about those functions. Hash functions,
the lexer, the file system and the contents of allocated memory are parameters.

Six places where the code does less than one would expect, each with an input and the exact
condition:

- `gray_i128_mul_checked` and `gray_i256_mul_checked` do not panic on (minimum, -1) although the
  product does not fit; that is the only pair (`Checked128.SignedMulChecked`, `Checked256.SignedMulChecked`).
- `GrayRange_i128_contains` and `GrayRange_i256_contains` subtract with wrap-around. For a range and a
  value they are right if and only if the distance from the start is representable, or the value lies
  outside the ends, or the distance and the modulus less the distance agree on being multiples of the
  step (`Ranges.SignedContainsExactly`). A step is right for all ranges and values if and only if its
  magnitude divides 2^128 or 2^256 (`Ranges.SignedContainsRight`).
- The regular-expression search can miss a match, for three reasons: a group is not entered again once
  it has matched, `(a|ab)c` on `abc`; a repetition that makes no progress is not counted, `(a*)+` on
  the empty string; and a repetition stops after 8192 occurrences, `^a*$` on a longer line of the
  letter (`RegexMisses`). For every pattern and subject the search is the greediest derivation within
  these limits, and it misses a match exactly when there is a derivation and none within them
  (`RegexCommitment.SearchIsCommitment`, `RegexLimits.MissedExactly`). On subjects of at most 8192
  characters it misses nothing when the occurrences of every node have one length, and some length if
  they are repeated; in a pattern without groups they always do (`RegexLimits.NothingMissed`,
  `RegexLimits.OnlyGroupsMatter`).
- The arena adds block sizes in `size_t`. Its limit and its block memory hold exactly as long as
  neither sum wraps: a request 24 bytes below 2^64 passes an 8 MB limit and is given an address
  without memory behind it (`Arena.GuardIsRight`, `Arena.MemoryIsIntact`, `Arena.OversizedRequest`).
  Going back to a scope mark does not take the abandoned blocks off the count, so the limit can refuse
  what would fit; it is right about the blocks in use exactly when nothing else is counted
  (`Arena.RepeatedScope`, `Arena.GuardsUseIff`).
- A library module is bound under its alias, which is not compared with generated module names: alias
  `foo__2` meets the second module named `foo`. They stay apart exactly when no module of a target has
  the alias for its name (`ImportNames.AliasMeetsSuffix`, `ImportNames.StdlibApartIff`).
- Naming a library module twice in one file is an error only in the file that bound it first, although
  the source means it to be one in every file (`ImportGraph.LibraryNamedTwice`); whether a file may name
  a directory next to the directory's only file likewise depends on who imported that file first. But
  for these two repetitions there is an error if and only if the program is not well-formed
  (`ImportResolver.ResolveImports`).

## Model

| member | source | states |
|---|---|---|
| MapKeys.NaNIff | grayc/src/runtime/map.c:50-118 | the key equality treats a double as no number exactly when its exponent bits are all ones and its fraction is not zero |
| MapKeys.EqualKeysHashEqually | grayc/src/runtime/map.c:50-118 | for keys of one kind, equality is the same as being hashed from the same bytes; doubles are compared as the numbers their 64 bits stand for, so the two zeros are one key and so are all NaNs |
| MapKeys.EqualIffSameCanon | grayc/src/runtime/map.c:71-118 | key equality, computed with C's comparison of doubles, is the kernel of a canonical form, hence an equivalence |
| OrderedMapSpec.RunIsDictionary | grayc/src/runtime/map.c:231-319 | after any run of set, remove and clear, a lookup gives the value last written and not removed since |
| OrderedMapSpec.RunIsInsertionOrder | grayc/src/runtime/map.c:238-319 | after any run the entries stand in the order in which their keys were first inserted since they were last absent |
| OrderedMapSpec.AbsentMeansNotInserted | grayc/src/runtime/map.c:238-319 | a key is in the map exactly when the run left it inserted |
| OrderedMapSpec.RemoveThenSetMovesToEnd | grayc/src/runtime/map.c:246-319 | removing a key and setting it again puts it last and leaves the others in order |
| OrderedMapSpec.LookupAfterSet | grayc/src/runtime/map.c:246-297 | setting one key changes no other key's value |
| OrderedMapSpec.LookupAfterRemove | grayc/src/runtime/map.c:303-319 | removing one key changes no other key's value |
| HashTable.MaskIsProbe | grayc/src/runtime/map.c:182-194 | masking the hash and the probe counter walks every slot once, wrapping at the capacity |
| HashTable.InsertKeepsInv | grayc/src/runtime/map.c:238-244 | filling an empty slot or a tombstone on the probe path keeps the table invariant and appends the entry |
| HashTable.RemoveKeepsInv | grayc/src/runtime/map.c:303-319 | tombstoning keeps every other key reachable and drops exactly one entry |
| HashTable.UpdateKeepsInv | grayc/src/runtime/map.c:246-297 | overwriting a value keeps the invariant and the entry's place |
| HashTable.NeverAllNonEmpty | grayc/src/runtime/map.c:255-296 | while the order array has room some slot is empty, so an inserting probe always meets one |
| GrayMap.RoundCapacity | grayc/src/runtime/map.c:153-159 | a power of two that holds the hint and is less than twice it, unless it is the minimum 8; above 2^29 it is 2^30 |
| GrayMap.GrayMap.constructor | grayc/src/runtime/map.c:161-180 | a new map is valid and empty |
| GrayMap.GrayMap.FindSlot | grayc/src/runtime/map.c:182-194 | finds the slot of a key, or reports that no slot holds it |
| GrayMap.GrayMap.Get | grayc/src/runtime/map.c:231-235 | agrees with the abstract map for every key |
| GrayMap.GrayMap.Has | grayc/src/runtime/map.c:299-301 | true exactly for the keys of the abstract map |
| GrayMap.GrayMap.FindInsertSlot | grayc/src/runtime/map.c:268-296 | the slot of the key, or the first reusable slot on its path; the all-tombstones fallback is not needed |
| GrayMap.GrayMap.InsertAt | grayc/src/runtime/map.c:238-244 | a new key becomes the last entry |
| GrayMap.GrayMap.Set | grayc/src/runtime/map.c:246-297 | sets the key in the abstract map, or panics and changes nothing when a new key is added during iteration; the recursion through rebuilds ends |
| GrayMap.GrayMap.Rebuild | grayc/src/runtime/map.c:201-229 | fresh tables with the same entries in the same order, no holes left, the old tables untouched |
| GrayMap.GrayMap.Reinsert | grayc/src/runtime/map.c:218-228 | re-insertion in order never triggers another rebuild |
| GrayMap.GrayMap.Remove | grayc/src/runtime/map.c:303-319 | removes the key from the abstract map and says whether it was there, or panics during iteration |
| GrayMap.GrayMap.Clear | grayc/src/runtime/map.c:321-327 | empties the map, or panics during iteration |
| GrayMap.GrayMap.Copy | grayc/src/runtime/map.c:341-381 | a copy has the same entries in the same order, in tables of its own |
| HalfProducts.ProductLimbs | grayc/src/runtime/bigint.h:349-365 | the high limb computed from four 32-bit half products and the wrapped low limb make the exact 64 by 64 bit product |
| LongDivision.NoBitLost | grayc/src/runtime/bigint.h:251-292 | doubling the partial remainder never passes the word width, even for divisors with the top bit set |
| Wide128.AddExact | grayc/src/runtime/bigint.h:335-340 | addition is exact modulo 2^128 |
| Wide128.SubExact | grayc/src/runtime/bigint.h:342-347 | subtraction is exact modulo 2^128 |
| Wide128.NegExact | grayc/src/runtime/bigint.h:220-225 | negation is exact modulo 2^128 |
| Wide128.MulExact | grayc/src/runtime/bigint.h:349-365 | multiplication is exact modulo 2^128 |
| Wide128.DivMod128 | grayc/src/runtime/bigint.h:251-292 | quotient and remainder of every dividend by every non-zero divisor; a panic for zero |
| Wide256.Add | grayc/src/runtime/bigint.h:543-552 | addition is exact modulo 2^256 |
| Wide256.Sub | grayc/src/runtime/bigint.h:554-563 | subtraction is exact modulo 2^256 |
| Wide256.Neg | grayc/src/runtime/bigint.h:414-423 | negation is exact modulo 2^256 |
| Wide256.Mul | grayc/src/runtime/bigint.h:565-587 | schoolbook multiplication is exact modulo 2^256 for all inputs |
| Wide256.CarryFits | grayc/src/runtime/bigint.h:425-449 | the running carry of the multiplication fits in one limb and loses nothing |
| Wide256.DivMod256 | grayc/src/runtime/bigint.h:452-495 | quotient and remainder of every dividend by every non-zero divisor; a panic for zero |
| TwosComplement.MulAgrees | grayc/src/runtime/bigint.h:425-449 | signed and unsigned multiplication agree as two's complement |
| TwosComplement.TruncDivMeaning | grayc/src/runtime/bigint.h:294-320 | division truncates, the remainder takes the dividend's sign and together they give the dividend back |
| TwosComplement.DivideBack | grayc/src/runtime/bigint.h:978-989 | dividing the wrapped product by a factor gives the other factor back exactly when the product fits |
| TwosComplement.SignedDivideBack | grayc/src/runtime/bigint.h:930-941 | the same for signed factors, except for the pair (minimum, -1) |
| TwosComplement.MinimumEscapes | grayc/src/runtime/bigint.h:930-941 | that pair's product does not fit and the check does not notice |
| Checked128.SignedExact | grayc/src/runtime/bigint.h:206-245 | signed addition, subtraction and multiplication are exact modulo 2^128 as two's complement, and comparison is numeric |
| Checked128.SignedDiv | grayc/src/runtime/bigint.h:294-306 | truncating division, wrapping for minimum by -1; a panic for zero |
| Checked128.SignedMod | grayc/src/runtime/bigint.h:308-320 | the remainder with the dividend's sign; a panic for zero |
| Checked128.UnsignedAddExact | grayc/src/runtime/bigint.h:956-962 | panics exactly when the true sum does not fit |
| Checked128.UnsignedSubExact | grayc/src/runtime/bigint.h:971-976 | panics exactly when the true difference is negative |
| Checked128.UnsignedMulChecked | grayc/src/runtime/bigint.h:978-989 | panics exactly when the true product does not fit |
| Checked128.SignedAddCheckedExact | grayc/src/runtime/bigint.h:905-911 | panics exactly when the true sum does not fit |
| Checked128.SignedSubCheckedExact | grayc/src/runtime/bigint.h:922-928 | panics exactly when the true difference does not fit |
| Checked128.SignedMulChecked | grayc/src/runtime/bigint.h:930-941 | returns a value if and only if the product fits or the pair is (minimum, -1) |
| Checked128.SignedNegCheckedExact | grayc/src/runtime/bigint.h:944-950 | panics exactly for the minimum |
| Checked256.LessSignedMeans | grayc/src/runtime/bigint.h:531-536 | signed comparison, limb by limb, is numeric |
| Checked256.LessMeans | grayc/src/runtime/bigint.h:607-612 | unsigned comparison, limb by limb, is numeric |
| Checked256.SignedDiv | grayc/src/runtime/bigint.h:499-510 | truncating division, wrapping for minimum by -1; a panic for zero |
| Checked256.SignedMod | grayc/src/runtime/bigint.h:512-523 | the remainder with the dividend's sign; a panic for zero |
| Checked256.UnsignedAddChecked | grayc/src/runtime/bigint.h:1050-1056 | panics exactly when the true sum does not fit |
| Checked256.UnsignedSubChecked | grayc/src/runtime/bigint.h:1065-1070 | panics exactly when the true difference is negative |
| Checked256.UnsignedMulChecked | grayc/src/runtime/bigint.h:1072-1083 | panics exactly when the true product does not fit |
| Checked256.SignedAddChecked | grayc/src/runtime/bigint.h:991-1000 | panics exactly when the true sum does not fit |
| Checked256.SignedSubChecked | grayc/src/runtime/bigint.h:1014-1023 | panics exactly when the true difference does not fit |
| Checked256.SignedMulChecked | grayc/src/runtime/bigint.h:1025-1036 | returns a value if and only if the product fits or the pair is (minimum, -1) |
| Checked256.NegChecked | grayc/src/runtime/bigint.h:1038-1044 | panics exactly for the minimum |
| Checked256.AbsChecked | grayc/src/runtime/bigint.h:1046-1048 | panics exactly for the minimum |
| WideShift.ShiftLeftWords | grayc/src/runtime/bigint.h:1180-1188 | in place, for any word count: multiplication by 2^amount modulo the width |
| WideShift.ShiftRightWords | grayc/src/runtime/bigint.h:1190-1199 | in place: division by 2^amount rounded down, sign-filled when arithmetic |
| WideCast.CastWords | grayc/src/runtime/bigint.h:769-786 | a cast keeps the value and panics if and only if it is outside the destination's range |
| WideText.ToString128 | grayc/src/runtime/bigint.h:1088-1114 | the decimal numeral of every value; the 39-digit maximum fits the 40-byte buffer |
| WideText.ToString256 | grayc/src/runtime/bigint.h:1133-1159 | the decimal numeral of every value, within the 80-byte buffer |
| WideText.FromDecimal128 | grayc/src/runtime/bigint.h:619-633 | the value of the digits modulo 2^128, or a panic for anything that is not a numeral |
| WideText.FromDecimal256 | grayc/src/runtime/bigint.h:645-661 | the value of the digits modulo 2^256, or a panic for anything that is not a numeral |
| WideText.RoundTripSigned128 | grayc/src/runtime/bigint.h:635-643 | reading back the text of any i128, the minimum included, gives the value |
| WideText.RoundTripSigned256 | grayc/src/runtime/bigint.h:663-670 | reading back the text of any i256, the minimum included, gives the value |
| WideText.RoundTrip128 | grayc/src/runtime/bigint.h:1088-1114 | reading back the text of any u128 gives the value |
| WideText.RoundTrip256 | grayc/src/runtime/bigint.h:1133-1159 | reading back the text of any u256 gives the value |
| Ranges.AdvanceMeans | grayc/src/runtime/bigint.h:915-920 | the next value, or the stop when the sum leaves the type |
| Ranges.Visit | grayc/src/runtime/bigint.h:1344-1348 | a loop over a range ends for every non-zero step and visits exactly start + k * step short of stop |
| Ranges.VisitedAreMembers | grayc/src/runtime/bigint.h:1344-1348 | the visited values are the members of the range |
| Ranges.MemberMeans | grayc/src/runtime/bigint.h:1351-1358 | membership in terms of bounds and divisibility |
| Ranges.Contains64Exact | grayc/src/runtime/bigint.h:1351-1358 | for i64, contains holds exactly for the visited values |
| Ranges.ContainsWideExact | grayc/src/runtime/bigint.h:1388-1394 | for wide types, contains holds exactly for the visited values when value - start is representable |
| Ranges.SignedContainsRight | grayc/src/runtime/bigint.h:1388-1394 | a step is right for every start, stop and value if and only if it divides the modulus |
| Ranges.SignedContainsExactly | grayc/src/runtime/bigint.h:1388-1394 | for each range and value, signed wide contains is right if and only if the distance fits, or the value is outside, or distance and complement agree on the step |
| Ranges.WrongContains | grayc/src/runtime/bigint.h:1388-1394 | for any other step there is a range and a member that it denies |
| Ranges.Len64Exact | grayc/src/runtime/bigint.h:1362-1377 | len is the number of visits, or a panic when it passes the int64 maximum or the step is zero |
| Ranges.LenWideExact | grayc/src/runtime/bigint.h:1395-1410 | for wide types, len is the number of visits, or the panic code of a zero step, of a span that does not fit, or of a count above the int64 maximum |
| WideRanges.Advance128Exact | grayc/src/runtime/bigint.h:915-920 | for i128 the sign tests on the words decide as overflow of the sum does |
| WideRanges.Contains128 | grayc/src/runtime/bigint.h:1388-1394 | for i128 the word operations compute the membership test on numbers, its panic included |
| WideRanges.Len128 | grayc/src/runtime/bigint.h:1395-1410 | for i128 the word operations compute the length on numbers, with the same panics |
| Utf8.DecodeEncoded | grayc/src/stdlib/utf8.h:21-52 | every scalar value is read back from its encoding, wherever it stands |
| Utf8.DecodeExactly | grayc/src/stdlib/utf8.h:21-52 | a character is read exactly where its encoding stands, and a byte that begins no encoding is one U+FFFD |
| Utf8.CharacterIsDecoded | grayc/src/stdlib/utf8.h:21-52 | reading at a position gives exactly the character that stands there, told by its encoding, or U+FFFD for a byte that begins none |
| RegexPattern.SimpleIsOccurrence | grayc/src/runtime/regex_win.h:422-443 | one test of an atom succeeds exactly on an occurrence of it: any character, the one written, one inside or outside a class, or an end of the subject |
| RegexGrammar.AddRangeAdds | grayc/src/runtime/regex_win.h:133-156 | splitting a range into bitmap and high part loses and adds no character |
| RegexClasses.NamedClassMembers | grayc/src/runtime/regex_win.h:158-177 | each named class has the members written out for it, and an unknown name has none |
| RegexClasses.AddNamedAdds | grayc/src/runtime/regex_win.h:232-246 | a named class adds exactly its members |
| RegexClasses.EscapeAdds | grayc/src/runtime/regex_win.h:179-194 | \d, \w and \s add exactly the digits, the letters, digits and underscore, and the white space |
| RegexClasses.EscapeMeaning | grayc/src/runtime/regex_win.h:196-206 | the control characters that escapes stand for; any other character stands for itself |
| RegexClasses.ItemsMean | grayc/src/runtime/regex_win.h:217-266 | the set of a bracket expression has exactly the characters of its items, each of which begins where the one before ends |
| RegexClasses.BracketMeans | grayc/src/runtime/regex_win.h:217-266 | a bracket expression matches one character: one that some item has, or after ^ one that none has |
| RegexParser.Parser.ParseBracket | grayc/src/runtime/regex_win.h:217-266 | the class read is the one its text spells, and the parser fails only if no bracket is spelled there |
| RegexParser.Parser.ParseItem | grayc/src/runtime/regex_win.h:229-262 | one bracket item: a named class, an escape class, a range or a character |
| RegexParser.Parser.ParseQuantifier | grayc/src/runtime/regex_win.h:317-342 | the bounds the text spells; a malformed interval is left as literal text |
| RegexParser.Parser.ParseAtom | grayc/src/runtime/regex_win.h:269-344 | the node is spelled by the consumed text and its groups carry the next capture numbers; the parser fails only if no node is spelled there |
| RegexParser.Parser.ParseSequence | grayc/src/runtime/regex_win.h:346-360 | the nodes spelled by the consumed text, as far as they go; the parser fails only if no sequence is spelled there |
| RegexParser.Parser.ParseAlternation | grayc/src/runtime/regex_win.h:362-381 | alternatives spelled by the consumed text, groups numbered in the order in which they open; the parser fails only if no alternatives are spelled there |
| RegexParser.AppendNode | grayc/src/runtime/regex_win.h:346-360 | a node read next continues the numbering |
| RegexUnambiguous.AlternativesUnique | grayc/src/runtime/regex_win.h:217-381 | where alternatives start settles how far they reach and what they spell, but for group numbers |
| RegexUnambiguous.PatternIsUnique | grayc/src/runtime/regex_win.h:217-381 | a text spells one numbered pattern |
| RegexUnambiguous.NoNodeNoSequence | grayc/src/runtime/regex_win.h:346-360 | if no node is spelled where the sequence would go on, no sequence is spelled |
| RegexTheory.FromSound | grayc/src/runtime/regex_win.h:409-518 | whatever the search returns satisfies the declarative meaning of the pattern |
| RegexTheory.MatchesIsDerived | grayc/src/runtime/regex_win.h:446-508 | every declarative match is a choice of repetition counts |
| RegexTheory.DerivedMatches | grayc/src/runtime/regex_win.h:446-508 | every such choice is a declarative match |
| RegexCommitment.NodesGreedy | grayc/src/runtime/regex_win.h:446-508 | for every sequence, groups included, the search fails only if no derivation within the limits exists and otherwise ends where the greediest one does |
| RegexCommitment.SearchIsCommitment | grayc/src/runtime/regex_win.h:446-518 | for every pattern and subject the search answers for the first alternative with a derivation within the limits, by its greediest, or there is none |
| RegexCommitment.SearchCommits | grayc/src/runtime/regex_win.h:422-518 | the search of a group ends exactly where the group commits to end |
| RegexCommitment.CommittedDerives | grayc/src/runtime/regex_win.h:446-508 | what is found within the limits is a match of the declarative meaning |
| RegexCompleteness.DerivedCommits | grayc/src/runtime/regex_win.h:446-508 | where every occurrence is the one the search finds, each match with counts up to 8192 is within the limits |
| RegexCompleteness.SearchInLimits | grayc/src/runtime/regex_win.h:446-518 | for such patterns, on subjects of any length, the search is the meaning up to 8192 repetitions |
| RegexCompleteness.FixedIsExact | grayc/src/runtime/regex_win.h:422-518 | a node whose occurrences have one length is found wherever it matches |
| RegexCompleteness.SearchIsMeaning | grayc/src/runtime/regex_win.h:446-518 | where every occurrence is the one the search finds, on at most 8192 characters, the search is exactly the meaning: first alternative that matches, greedily |
| RegexMatcher.Matcher.ClearCaptures | grayc/src/runtime/regex_win.h:409-415 | unsets exactly the spans of the given groups |
| RegexMatcher.Matcher.MatchOne | grayc/src/runtime/regex_win.h:422-443 | ends where the search function says, whether or not captures are recorded |
| RegexMatcher.Matcher.MatchSequence | grayc/src/runtime/regex_win.h:446-508 | the same for the rest of a sequence; groups inside keep their span, lose it, or hold one they match |
| RegexMatcher.Matcher.MatchRepeated | grayc/src/runtime/regex_win.h:469-507 | giving ground restores the groups it leaves, and a chosen run reports its last iteration |
| RegexMatcher.Matcher.Choose | grayc/src/runtime/regex_win.h:488-499 | rerunning the last iteration reports it, nested groups included; no iteration leaves the group as it was |
| RegexMatcher.Matcher.MatchAlternation | grayc/src/runtime/regex_win.h:510-518 | alternatives in order; started on unset spans, the spans of a match report how it was made: each group by its last occurrence, groups of other alternatives and of skipped nodes unset |
| RegexReports.AlternativeReported | grayc/src/runtime/regex_win.h:510-518 | the alternative that matched leaves the groups of the others unset |
| RegexReports.TakenReported | grayc/src/runtime/regex_win.h:487-501 | a repetition is reported by its last occurrence and what follows it |
| RegexEngine.Compile | grayc/src/runtime/regex_win.h:523-536 | a pattern is accepted exactly when the whole text spells one, and the engine is that of the only pattern it spells, groups numbered from 1 |
| RegexEngine.Execute | grayc/src/runtime/regex_win.h:540-579 | the leftmost character boundary where the search succeeds, its end, and spans that are unset or matched by their group inside the match; with room for all groups they report how the pattern was matched; nothing is written on failure |
| RegexLimits.MissedExactly | grayc/src/runtime/regex_win.h:445-578 | for every pattern and subject a match is missed exactly when a boundary can match and none can be committed to |
| RegexLimits.ExactMissesNothing | grayc/src/runtime/regex_win.h:554-578 | for patterns whose every occurrence is the one the search finds, on at most 8192 characters, the search passes a boundary only if no match starts there |
| RegexLimits.NothingMissed | grayc/src/runtime/regex_win.h:554-578 | for patterns of fixed lengths on at most 8192 characters the search passes a boundary only if no match starts there |
| RegexLimits.OnlyGroupsMatter | grayc/src/runtime/regex_win.h:269-344 | in a pattern that can be written every node but a group has a fixed length |
| RegexMisses.GroupsAreNotReentered | grayc/src/runtime/regex_win.h:445-508 | (a\|ab)c, as compiled, misses abc |
| RegexMisses.RepetitionsMakeProgress | grayc/src/runtime/regex_win.h:472-478 | (a*)+, as compiled, misses the empty match of the empty string |
| RegexMisses.RepetitionsAreCut | grayc/src/runtime/regex_win.h:468-478 | ^a*$, as compiled, misses every line of more than 8192 letters a |
| RegexMisses.SearchMisses | grayc/src/runtime/regex_win.h:523-579 | compiling and executing such a pattern finds nothing |
| RegexSearches.SearchClass | grayc/src/runtime/regex_win.h:523-579 | compiling a class and executing it finds the first character of the class, or outside it if negated, and nothing if there is none |
| RegexSearches.SearchRange | grayc/src/runtime/regex_win.h:523-579 | [lo-hi] finds the first character from lo to hi, [^lo-hi] the first other one |
| RegexSearches.SearchEscape | grayc/src/runtime/regex_win.h:523-579 | \d, \w and \s find the first character of their kind |
| RegexSearches.SearchNamed | grayc/src/runtime/regex_win.h:523-579 | [[:name:]] finds the first member of the named class |
| RegexQuantities.QuantifierRead | grayc/src/runtime/regex_win.h:317-342 | each quantifier, its numbers written in decimal, is read with its bounds |
| RegexQuantities.LineIff | grayc/src/runtime/regex_win.h:445-508 | ^a, a quantifier and $ match n of the letter exactly when the quantifier admits n |
| RegexQuantities.SearchLetters | grayc/src/runtime/regex_win.h:523-579 | compiled and executed, such a pattern finds n of the letter, for n up to 8192, exactly when the quantifier admits n |
| ArenaLayout.AlignUpCovers | grayc/src/runtime/runtime.c:68-68 | the rounded size covers the request exactly when size_t does not wrap |
| ArenaLayout.LiveAllocationsAreSafe | grayc/src/runtime/runtime.c:112-137 | live allocations never overlap, are 8-aligned and in bounds, and lie in no block after the current one |
| ArenaLayout.Bump | grayc/src/runtime/runtime.c:117-136 | handing out more of the current block keeps the layout |
| ArenaLayout.Grow | grayc/src/runtime/runtime.c:118-133 | overwriting the current block's next is safe: nothing live is lost |
| ArenaLayout.Restore | grayc/src/runtime/runtime.c:357-368 | going back to any saved mark keeps the layout for what was live then, and for the marks before it |
| Arena.BudgetGrows | grayc/src/runtime/runtime.c:118-133 | unless a sum wraps, every reachable block has its memory and the bytes reachable stay within a limit the first block respects |
| Arena.GuardIsRight | grayc/src/runtime/runtime.c:122-124 | with the total within the limit, the guard is right exactly when the sum does not wrap, and every wrapping sum passes it |
| Arena.GuardsUseIff | grayc/src/runtime/runtime.c:122-124 | the guard is right about the blocks in use exactly when no others are counted |
| Arena.MemoryIsIntact | grayc/src/runtime/runtime.c:70-79 | a region of a block is in memory exactly when size plus header does not wrap |
| Arena.OversizedRequest | grayc/src/runtime/runtime.c:112-137 | a request 24 bytes below 2^64 passes an 8 MB limit and gets an address outside its block |
| Arena.RepeatedScope | grayc/src/runtime/runtime.c:112-137 | after a scope is left, an allocation that fitted before is refused |
| Arena.ArenaIsSafe | grayc/src/runtime/runtime.c:112-155 | in every reachable state live allocations are disjoint, aligned and inside their blocks, and inside memory exactly when the block's size leaves room for the header; without wrapping the limit holds |
| Arena.Arena.constructor | grayc/src/runtime/runtime.c:82-110 | one empty block and nothing live |
| Arena.Arena.Alloc | grayc/src/runtime/runtime.c:112-137 | one more live region of the rounded size, in memory exactly when its block's size did not wrap; P0104 exactly when the size_t sum of the bytes counted and the new block passes the limit, changing only the counter |
| Arena.Arena.AddBlock | grayc/src/runtime/runtime.c:127-132 | a new current block replaces whatever followed |
| Arena.Arena.Save | grayc/src/runtime/runtime.c:350-355 | a mark of the present state |
| Arena.Arena.Restore | grayc/src/runtime/runtime.c:357-368 | gives back exactly what was allocated since the mark; the blocks left behind stay counted |
| Arena.Arena.Reset | grayc/src/runtime/runtime.c:145-155 | nothing live, the first block current, the reset counted |
| Arena.Arena.Usage | grayc/src/runtime/runtime.c:175-183 | the bytes in use are the bytes of the live allocations |
| PrattTheory.ExpressionSound | grayc/src/parser/parser.c:1507-1536 | a complete tree has exactly the consumed tokens as its yield, respects the precedence table with left association, and could not have been extended |
| PrattCompleteness.ExpressionComplete | grayc/src/parser/parser.c:1507-1536 | every tree that respects the table and fits the depth and chain limits is found from its yield |
| PrattCompleteness.RespectingTreeIsUnique | grayc/src/parser/parser.c:334-364 | tokens are the yield of at most one tree that respects the table |
| PrattCompleteness.ReadsItsYield | grayc/src/parser/parser.c:1481-1536 | parsing the yield of any respecting tree, under a large enough limit, gives the tree back |
| PrattGrouping.TableHasLevels | grayc/src/parser/parser.c:34-50 | the binary operators of a later level have the higher precedence, and those of one level the same |
| PrattGrouping.BinaryIff | grayc/src/parser/parser.c:334-364 | exactly the listed tokens are binary, postfix and prefix operators |
| PrattGrouping.Grouping | grayc/src/parser/parser.c:34-50 | a o1 b o2 c is parsed as a o1 (b o2 c) when o2 stands on a later level than o1, and as (a o1 b) o2 c otherwise |
| PrattGrouping.OneOperator | grayc/src/parser/parser.c:1345-1368 | a binary operator between two operands is parsed as that |
| PrattGrouping.PrefixBeforeBinary | grayc/src/parser/parser.c:34-50 | a prefix operator takes its operand before any binary operator does |
| PrattGrouping.SuffixBeforePrefix | grayc/src/parser/parser.c:34-50 | calls, indexes, members and postfix operators come before a prefix operator |
| PrattGrouping.OthersEnd | grayc/src/parser/parser.c:334-364 | any other symbol ends the expression before it |
| PrattLimits.ParseTwoOperators | grayc/src/parser/parser.c:1507-1536 | the parser groups two operators by their levels, for operands of any shape within 256 levels and links |
| PrattLimits.ParseNested | grayc/src/parser/parser.c:1507-1536 | an operand in n pairs of parentheses is parsed exactly when n is at most 255 |
| PrattLimits.ParseChained | grayc/src/parser/parser.c:1520-1532 | an operand with n postfix operators is parsed exactly when n is at most 256 |
| ExpressionParser.Parser.ParseExpression | grayc/src/parser/parser.c:1507-1536 | computes the parsing function; depth and struct-literal suppression are restored on every exit |
| ExpressionParser.Parser.ParsePrefix | grayc/src/parser/parser.c:1025-1066 | operands, prefix operators and parentheses as the parsing function reads them |
| ExpressionParser.Parser.ParseInfixExpression | grayc/src/parser/parser.c:1345-1368 | the right operand is read above the operator's own precedence and the suppression flag put back |
| ExpressionParser.Parser.ParseInfix | grayc/src/parser/parser.c:1481-1505 | one link of the chain: binary, postfix, member, index or call |
| ExpressionParser.Parser.ParseArguments | grayc/src/parser/parser.c:1370-1434 | positional arguments up to the closing parenthesis |
| DigitBuffer.MultiplyAdd | grayc/src/parser/parser.c:670-678 | multiplies a little-endian digit buffer and adds a carry, in place |
| DigitBuffer.ScaledValue | grayc/src/parser/parser.c:670-678 | the digits produced are those of value * base + carry |
| DigitBuffer.CanonicalIsDec | grayc/src/parser/parser.c:680-682 | digits without leading zeros print as the decimal numeral of their value |
| IntegerLiterals.RadixValueIsPlaceSum | grayc/src/parser/parser.c:664-679 | the value accumulated from digits, whatever separators stand between them, is the sum of digit times power of the base |
| IntegerLiterals.RadixDigitsToDecimal | grayc/src/parser/parser.c:659-684 | the decimal numeral of the digits' value, for text of any length, within 2n + 2 bytes |
| IntegerLiterals.ParseIntegerLiteral | grayc/src/parser/parser.c:686-747 | the value is the sum of digit times power of 2, 8, 16 or 10, as the prefix 0b, 0o, 0x or none says, in either case and without separators, modulo 2^64; the flags are set exactly when it reaches 2^63 or 2^64, and the text is its decimal spelling |
| IntegerLiterals.OneMoreDigit | grayc/src/parser/parser.c:696-732 | the overflow guard of each base fires exactly when the next digit passes 2^64 |
| IntegerLiterals.NumeralReadsBack | grayc/src/parser/parser.c:686-733 | the digits of a numeral sum up to the number, for every base up to 16 |
| IntegerLiterals.RoundTrip | grayc/src/parser/parser.c:686-747 | every number written in binary, octal, hexadecimal and decimal is read back modulo 2^64, with its decimal text |
| Defines.PowerOfTwoDecimal | grayc/src/parser/defines.c:30-45 | the decimal numeral of 2^exponent, within the 80-byte buffers |
| Defines.CompareIsNumeric | grayc/src/parser/defines.c:48-53 | comparing lengths and then text compares the numbers |
| Defines.NormalizeInteger | grayc/src/parser/defines.c:66-96 | accepts exactly the signed integers in the type's range and returns their canonical text |
| FmtTables.DepthIsScopes | grayc/src/fmt/fmt.c:161-196 | the depth is the number of open scope braces, however unbalanced the rest is |
| FmtTables.TablesIgnoreRoom | grayc/src/fmt/fmt.c:141-228 | the tables do not depend on how many lines beyond the tokens they have room for |
| FmtDepth.BuildDepthTables | grayc/src/fmt/fmt.c:82-238 | every line's depth and continuation flag are those of the token stream |
| FmtBrackets.OpenIffOpener | grayc/src/fmt/fmt.c:141-204 | the stack of open brackets holds exactly those that counting finds open: more is opened than closed from them to every later place |
| FmtBrackets.RunTracks | grayc/src/fmt/fmt.c:141-204 | the stack of flags carries for each open brace whether it follows an assignment, and the group depth counts the other open brackets |
| FmtMeaning.DepthMeans | grayc/src/fmt/fmt.c:141-221 | the depth of a line is the number of braces before it that follow no assignment and are closed neither before the line nor by its first token |
| FmtMeaning.ContinuationMeans | grayc/src/fmt/fmt.c:141-228 | a line is a continuation exactly when a parenthesis, a bracket or a brace after an assignment is open at its start, or a boolean operator leads it or ends the line before |
| FmtLayout.LeadingMeans | grayc/src/fmt/fmt.c:321-326 | the leading blanks of a line are the spaces and tabs it begins with |
| FmtLines.ScanTextIsByLine | grayc/src/fmt/fmt.c:246-267 | the character scanner answers as a line-by-line scanner does, swallowed newlines included |
| FmtLines.RawIgnoresBlanks | grayc/src/fmt/fmt.c:246-267 | whether a line is inside a raw string does not depend on leading blanks |
| FmtLines.LineIsInRawString | grayc/src/fmt/fmt.c:246-267 | the raw-string test, line by line |
| Formatter.BlockCommentCloses | grayc/src/fmt/fmt.c:274-279 | true exactly when a star-slash occurs at or after the offset |
| Formatter.FormatKeepsContent | grayc/src/fmt/fmt.c:312-372 | line count, order and text after leading blanks never change; non-blank raw-string lines are left alone |
| Formatter.FormattingIsIdempotent | grayc/src/fmt/fmt.c:281-380 | formatting the output again changes nothing |
| Formatter.FormatSource | grayc/src/fmt/fmt.c:281-380 | the program computes the formatting function, whose layout FormattedIsLaidOut tells by lines and tokens alone |
| FmtLayout.CommentMovesWithOpener | grayc/src/fmt/fmt.c:335-344 | inside a block comment the last ordinary line is the one that opened it |
| FmtLayout.FormattedIsLaidOut | grayc/src/fmt/fmt.c:281-380 | the formatted text has the lines of the source: an ordinary line begins with four blanks for each scope around it, continuation and comment lines move as far as the last ordinary line did, blank lines are emptied and raw strings left alone |
| ImportSet.ProbeEnds | grayc/src/parser/imports.c:95-102 | a probe cannot pass every slot while one is free |
| ImportSet.TakeKeepsHolds | grayc/src/parser/imports.c:139-154 | taking the free slot that ends the probe adds exactly one binding |
| ImportCache.FindSlot | grayc/src/parser/imports.c:95-102 | the unbounded probe loop ends, at the path's slot or at a free one if the path is absent |
| ImportCache.Rehash | grayc/src/parser/imports.c:60-93 | the larger table holds the same bindings |
| ImportCache.Cache.Reserve | grayc/src/parser/imports.c:76-93 | room for one more entry at a load of one half or less, the bindings unchanged |
| ImportCache.Cache.AlreadyImported | grayc/src/parser/imports.c:95-102 | membership in the set of imported paths |
| ImportCache.Cache.MarkImported | grayc/src/parser/imports.c:139-154 | adds a path with its owner; a path that is there keeps its first owner |
| ImportNames.DistinctName | grayc/src/parser/imports.c:509-523 | the naming loop ends with the first candidate no module has |
| ImportNames.TakenCandidates | grayc/src/parser/imports.c:509-523 | there are no more taken candidates than names seen |
| ImportNames.BindKeeps | grayc/src/parser/imports.c:498-541 | two targets have the same module name exactly when they are the same target, and a target's module does not take a library module's name |
| ImportNames.StdlibApartIff | grayc/src/parser/imports.c:298-341 | a library module stays apart from the modules of targets exactly when none of them has its name |
| ImportNames.AliasMeetsSuffix | grayc/src/parser/imports.c:298-541 | a library alias foo__2 is bound without an error and equals a generated module name |
| ImportResolver.Resolver.ImportFile | grayc/src/parser/imports.c:565-687 | a file is read only when no import reached it before, so each is parsed at most once; when it is an error, and who owns it |
| ImportResolver.Resolver.BindStdlib | grayc/src/parser/imports.c:298-341 | a standard library name is bound once; when it is an error, and when it takes the name of a target's module |
| ImportResolver.Resolver.ImportFiles | grayc/src/parser/imports.c:557-687 | a target is an error exactly when one of its files is; without errors its unread files are merged, each once, in order |
| ImportResolver.Resolver.ImportTarget | grayc/src/parser/imports.c:461-555 | a target is bound under the module it has or the first free name, and its files are read if it is new; it is an error exactly when the file repeats it or its name, or it is new and a file of it is the entry imported alone, one the same file brought in alone, or no program |
| ImportResolver.Resolver.ImportItem | grayc/src/parser/imports.c:290-555 | an item is an error exactly as its kind says: never when it is skipped, always when it was not resolved |
| ImportResolver.Resolver.ImportStatement | grayc/src/parser/imports.c:282-555 | in a well-formed program no statement is an error; without errors its items are sound and differ from those before them |
| ImportResolver.Resolver.Resolve | grayc/src/parser/imports.c:264-920 | the worklist ends on every import graph over a finite file system; without errors exactly the reachable files are merged; a well-formed program gives none, and only a well-formed one does, unless two repetitions are left to the order of the files |
| ImportResolver.NothingIsMissing | grayc/src/parser/imports.c:264-920 | the files of every import of the entry and of every merged file are the entry or have been merged |
| ImportResolver.ResolveImports | grayc/src/parser/imports.c:225-920 | from the file system alone: when there is an error, and that the merged files are those the entry reaches |
| ImportGraph.UnreadHas | grayc/src/parser/imports.c:589-658 | the files of a target that are merged are those without an owner, each once |
| ImportGraph.PlacesDiffer | grayc/src/parser/imports.c:264-272 | no statement of a file is queued twice |
| ImportGraph.ItemExplained | grayc/src/parser/imports.c:526-668 | every bound name, every owner and every merged file goes back to an item dealt with |
| ImportGraph.ItemIsRight | grayc/src/parser/imports.c:298-655 | in a well-formed program no item is an error, whatever was imported before it |
| ImportGraph.ItemVetted | grayc/src/parser/imports.c:298-655 | an item that is no error is sound and differs from every item before it |
| ImportGraph.MergedIsReachable | grayc/src/parser/imports.c:264-920 | merged files that are reachable and closed under imports are all the reachable ones |
| ImportGraph.VettedAreWellFormed | grayc/src/parser/imports.c:264-920 | a run without errors over all reachable items shows the program well-formed, but for the repetitions left to the order of files |
| ImportGraph.LibraryNamedTwice | grayc/src/parser/imports.c:302-325 | a file that names a library module twice is told only if it was the first to bind it |

## Left out

- GrayMap.GrayMap.Set: fewer than 0x18000000 entries, so that the capacity stays at or below 2^29; above it the code's 32-bit load test can overflow.
- GrayMap.GrayMap.constructor: an initial capacity above 2^29 is not modelled, for the same reason.
- Map: the concrete hash and its random seed, copying of string keys into the arena, iteration by index and out-of-memory exits; the hash is any function of the hashed bytes, and an f32 key is its widened double.
- Ranges.ContainsWideExact: the range helpers are modelled on the numbers their words stand for; for i128 they are also proved on words (`WideRanges`), and u128, i256 and u256 come from the same macro over the word operations of their modules.
- Ranges.AdvanceMeans: likewise on numbers, and for i128 on words in `WideRanges.Advance128Exact`.
- Ranges.LenWideExact: likewise on numbers, and for i128 on words in `WideRanges.Len128`.
- Wide integers: floating-point conversions, bitwise and/or/xor/not, hexadecimal and octal printing (the decimal loop with another base) and the small conversions between 64 bits and wide types.
- RegexCompleteness.SearchIsMeaning: for exact patterns and at most 8192 characters only; in general it is false (`RegexMisses`), and `RegexLimits.MissedExactly` says when. Other patterns that miss nothing, such as alternatives of different lengths that no text confuses, are not singled out.
- RegexQuantities.SearchLetters: lines of at most 8192 letters; longer ones are cut (`RegexMisses.RepetitionsAreCut`).
- RegexParser.Parser.ParseQuantifier: interval bounds are unbounded numbers; overflow of C's int for intervals of more than nine digits is not modelled.
- Regular expressions: the allocation of nodes and the release of patterns.
- Arena.Arena.Alloc: failure of malloc ends the program and is not modelled, nor is the content of the memory; a block whose size wrapped is followed through the arena's own fields, not through the memory they would overwrite.
- Arena: destroying an arena and the process-wide allocation counter.
- ExpressionParser.Parser.ParsePrefix: struct, array and map literals, casts, new, range, implicit enum selectors, function references and interpolation are read as no expression; the ampersand, which is always an error, likewise.
- ExpressionParser.Parser.ParseArguments: named arguments and the type argument of size_of are not modelled.
- Expression parser: diagnostics; a node the parser leaves out is `Missing`, and the theorems are about trees without one. Parentheses, which the parser drops, are kept in the tree.
- IntegerLiterals.ParseIntegerLiteral: the text is a literal as the lexer delivers it, with digits of its base only.
- Formatter.FormattingIsIdempotent: the lexer is any function of the lines without their leading blanks whose tokens lie on the lines of the source; blank lines are emptied, inside raw strings too.
- FmtLayout.FormattedIsLaidOut: every token lies on a line of the source, as the lexer's do.
- FmtMeaning.DepthMeans: the same.
- FmtMeaning.ContinuationMeans: the same; parentheses, brackets and collection braces are counted as brackets of one kind, as the code does.
- Formatter.FormatSource: lines and indentation widths are unbounded numbers and output is returned as text.
- ImportCache.Cache.MarkImported: fewer than 2^30 files; from there on the doubled bucket count is zero in uint32_t.
- ImportCache.Cache.Reserve: the same bound.
- ImportNames.DistinctName: names are not cut to the size of the message buffer.
- ImportResolver.ResolveImports: that a program without errors is well-formed is proved for statements that carry the file they stand in, as the parser makes them.
- ImportResolver.Resolver.Resolve: the same, and path resolution, sibling aliases, include tables, the placement of merged declarations among the statements, and message texts; a file system is a finite set of paths with the files of each target and the import statements of each file.
- The driver, the type checker, code generation, statement and declaration parsing, the lexer, threads and the other library code.
