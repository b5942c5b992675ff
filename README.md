# sky-tools-utils, modelled in Dafny

This project models the deterministic core of the TypeScript utility library
sky-tools-utils and proves what its helpers promise. The core is six modules
of `src/utils/`:

- **number.ts**: the Chinese numeral renderer `numberToChinese` (one imperative pass over the
  digits with a pending-zero flag, then the `一十` → `十` rewrite), `formatNumber` on safe integers
  (magnitude at most 2^53 - 1), and `isEven`/`isOdd` with JavaScript's truncating `%`.
- **array.ts**: `unique`, `chunk` (a stepping loop), `flatten`, `shuffle` (the in-place swap
  loop, with the random index as an input), `intersection`, `difference`, and `groupBy`
  (a loop filling a map).
- **string.ts**: `capitalize`, `camelCase`, `kebabCase`, `snakeCase`, `truncate` and `stripHtml`.
  Each regular-expression replacement is written as a character-level rewrite.
- **validator.ts**: the regular-expression validators become predicates over the characters of
  a string. They are `isEmail`, `isPhone`, `isIdCard`, `isStrongPassword`, `isNumeric`,
  `isChinese` and `isBankCard`, plus the dotted-quad check `isIP`.
- **object.ts**: JSON-like values (`Json`: undefined, null, booleans, integers, strings, functions,
  arrays, and objects whose own properties are kept in order, dates included).
  - `get` is a method with the source's loop.
  - `set` and `merge` return the updated tree.
  - `merge` is a method looping over each source's own properties and a loop over the sources.
  - `deepClone` and `getPaths` are recursive methods with loops.
  - `isObject` is a predicate.
- **date.ts**: `getRelativeTime` as a function of the elapsed time `diff` in milliseconds, and
  `formatDate` as first-occurrence token substitution, given the six calendar fields.

Files:

- `wrappers.dfy`: `Option` and `Result`.
- `decimal.dfy`: decimal digits, `toString`/`parseInt` of integers, `split`/`join` on one character.
- `seqs.dfy`: concatenation of a list of lists and counting.
- One file per source module: `number.dfy`, `array.dfy`, `string.dfy`, `validator.dfy`,
  `object.dfy` and `date.dfy`.

Two details of the numeral renderer, as the code has them:
- `一十` is rewritten to `十` only at the very start of the output. A later `一十` stays, so 1010
  renders as `一千零一十`.
- An input out of range throws a plain `Error` with a fixed message. It is modelled as
  `Err(RangeMessage)`.

While proving `merge` the model showed a consequence of the code that the tests do not exercise.
When the target has no such key, an object-valued source entry is merged into a fresh `{}`. A
`Date` in the source has no own properties, so it arrives as an empty plain object:
`merge({}, {d: someDate})` gives `{d: {}}`. This is proved as `ObjectUtils.MergeDropsDate`, and in
general as `ObjectUtils.MergeIntoEmpty`.

## Model

| member | source | states |
|---|---|---|
| NumberUtils.NumberToChinese | src/utils/number.ts:29-59 | 0 gives `零`; a number below 0 or at least 10^9 gives the range error and no output; otherwise the digit loop's result, after the rewrite, equals the declarative rendering `Rendered(n)` |
| NumberUtils.UnitAt | src/utils/number.ts:44-50 | the unit word of a digit is empty exactly at the ones position, and is made of table characters other than `零` |
| NumberUtils.DigitsBound | src/utils/number.ts:34-38 | a number below 10^9 has at most nine decimal digits |
| NumberUtils.EmittedNonEmpty | src/utils/number.ts:46-49 | the output so far is non-empty exactly when a non-zero digit has been passed, which is the `result` test that guards the `零` |
| NumberUtils.PieceEmpty | src/utils/number.ts:46-54 | a digit contributes nothing exactly when it is zero |
| NumberUtils.PieceNonZero | src/utils/number.ts:46-51 | a non-zero digit contributes an optional `零`, then its glyph, then the unit word of its position (none at the ones position) |
| NumberUtils.SingleDigit | src/utils/number.ts:50 | 1..9 render as the bare glyph |
| NumberUtils.PieceShape | src/utils/number.ts:46-54 | every piece uses only table characters, and a `零` in it is followed by a non-`零` character |
| NumberUtils.EmittedWellShaped | src/utils/number.ts:42-55 | the loop's output never starts or ends with `零` and never has two `零` in a row: one `零` per run of zeros, none for trailing zeros |
| NumberUtils.RenderedShape | src/utils/number.ts:30-58 | for 0 < n < 10^9 the rendering is non-empty, uses only the glyph and unit tables, does not start or end with `零`, and has no `零零` |
| NumberUtils.OneTenRewrite | src/utils/number.ts:58 | the result starts with `十` exactly when the leading digit is 1 at position 1 or 5 (`一十` or `一十万`), and otherwise starts with the leading digit's glyph |
| NumberUtils.LeadingPieceOfLong | src/utils/number.ts:58 | the same statement for numbers of two or more digits |
| NumberUtils.GlyphsDistinct | src/utils/number.ts:31 | no glyph is `十`, and only digit 1 is `一` |
| NumberUtils.UnitLeads | src/utils/number.ts:30 | of the unit words, only those of positions 1 and 5 start with `十` |
| NumberUtils.EmittedPrefix | src/utils/number.ts:42-55 | the output starts with the leading digit's glyph and unit word |
| NumberUtils.Teens | src/utils/number.ts:58 | 10 renders as `十`, and 11..19 as `十` plus the ones glyph |
| NumberUtils.TenThousandAndOne | src/utils/number.ts:47-49 | 10001 renders as `一万零一`: one `零` for the run of three zeros |
| NumberUtils.OneThousandTen | src/utils/number.ts:58 | 1010 renders as `一千零一十`: a `一十` that is not at the start survives |
| NumberUtils.OneHundredTenThousand | src/utils/number.ts:30 | 110000 renders as `十万一万`, since there is no grouping by 万 |
| NumberUtils.Groups | src/utils/number.ts:9 | the digit groups: the first has one to three digits, every later one exactly three, and there are (len-1)/3+1 of them |
| NumberUtils.GroupsConcat | src/utils/number.ts:9 | the groups concatenate back to the digit string |
| NumberUtils.GroupedSplitLast | src/utils/number.ts:9 | with more than three digits, the separator goes before the last three digits and the rest is grouped recursively |
| NumberUtils.GroupedShort | src/utils/number.ts:9 | up to three digits get no separator |
| NumberUtils.GroupedFour | src/utils/number.ts:9 | four digits get one separator, after the first |
| NumberUtils.GroupedIsJoin | src/utils/number.ts:9 | the separator pass equals the groups joined by the separator |
| NumberUtils.FormatNumberGroups | src/utils/number.ts:8-10 | splitting the output on the separator gives a sign-prefixed first group of one to three digits and then groups of exactly three, and deleting the separators gives back the plain decimal string |
| NumberUtils.JsRem | src/utils/number.ts:65 | JavaScript's `%` by a positive divisor: the dividend is an integer multiple of the divisor plus the remainder, and the remainder has the dividend's sign and is smaller than the divisor in magnitude |
| NumberUtils.Parity | src/utils/number.ts:64-73 | isOdd is not-isEven for every integer, negatives included; isEven means divisible by two; parity is unchanged by negation and flips at n+1 |
| Decimal.Digits | src/utils/number.ts:38 | the decimal digits of n, each 0..9, with a leading 0 only for n = 0 |
| Decimal.ValueOfDigits | src/utils/number.ts:38 | the digits evaluate back to n |
| Decimal.DigitsLength | src/utils/number.ts:34 | n has at most k digits exactly when n < 10^k |
| Decimal.NatToString | src/utils/number.ts:38 | `toString` of a non-negative integer: one ASCII digit per decimal digit, with a leading `0` only for 0 |
| Decimal.IntToStringParse | src/utils/number.ts:9 | `toString` of an integer starts with `-` exactly when the integer is negative; the rest is a non-empty digit string without a leading zero that parses back to the absolute value |
| Decimal.IntToStringInjective | src/utils/number.ts:9 | distinct integers have distinct `toString` results |
| Decimal.DigitsOfString | src/utils/validator.ts:67 | the digit values of a string of ASCII digits |
| Decimal.ParseNatToString | src/utils/validator.ts:67 | `parseInt` of the rendering of n is n |
| Decimal.NatToStringParse | src/utils/validator.ts:64-67 | a digit string without a leading zero is the rendering of its `parseInt` |
| Decimal.DigitsOfValue | src/utils/validator.ts:64-67 | a digit sequence without a leading zero is the digit sequence of its value |
| Decimal.IndexOf | src/utils/validator.ts:9 | the first occurrence of a character |
| Decimal.Split | src/utils/object.ts:53 | `split` on one character gives at least one part, and no part contains the separator |
| Decimal.JoinSnoc | src/utils/object.ts:103 | joining one more part appends the separator and the part |
| Decimal.JoinSplit | src/utils/object.ts:53 | joining the parts of a split gives back the string |
| Decimal.SplitJoin | src/utils/object.ts:53 | splitting a join of separator-free parts gives back the parts |
| Seqs.ConcatAppend | src/utils/array.ts:27-29 | concatenation distributes over appending lists |
| ArrayUtils.Unique | src/utils/array.ts:9 | the result has no duplicates and exactly the input's elements |
| ArrayUtils.UniqueOrder | src/utils/array.ts:9 | the result keeps the order of first occurrences |
| ArrayUtils.FirstIndex | src/utils/array.ts:9 | the first index at which an element occurs |
| ArrayUtils.FirstIndexPrefix | src/utils/array.ts:9 | appending does not move an element's first occurrence |
| ArrayUtils.Chunk | src/utils/array.ts:15-21 | the chunks concatenate to the input; all but the last have length size; the last has 1..size; for size > 0 there are ceil(len/size) chunks; an empty array gives no chunks whatever the size |
| ArrayUtils.ChunkCount | src/utils/array.ts:17 | the loop's step count is ceil(len/size) |
| ArrayUtils.FlattenAppend | src/utils/array.ts:27-29 | flattening distributes over concatenation |
| ArrayUtils.FlattenIsLeaves | src/utils/array.ts:26-30 | flatten gives the in-order leaves at every depth |
| ArrayUtils.FlattenFlat | src/utils/array.ts:27-29 | an already flat array is unchanged |
| ArrayUtils.Shuffle | src/utils/array.ts:35-42 | the loop's result is exactly the exchanges at n - 1 down to 1 with the drawn indices (`Swaps`); it is a permutation of the input; choosing j = i everywhere gives the input back |
| ArrayUtils.SwapsMultiset | src/utils/array.ts:37-40 | the exchanges only reorder: the result is a permutation of the input |
| ArrayUtils.SwapsIdentity | src/utils/array.ts:37-40 | when every draw picks the current position, nothing moves |
| ArrayUtils.SwapsAbove | src/utils/array.ts:37-40 | the exchanges at i and below never touch a position above i |
| ArrayUtils.ShuffleSettles | src/utils/array.ts:37-40 | position i ends up holding the element the draw at i picked, and no later exchange moves it |
| ArrayUtils.Partition | src/utils/array.ts:47-56 | intersection and difference split arr1 by membership in arr2, keeping every duplicate: their multisets add up to arr1's |
| ArrayUtils.FilterMultiset | src/utils/array.ts:47-56 | the multisets of intersection and difference add up to arr1's |
| ArrayUtils.FilterMembers | src/utils/array.ts:47-56 | intersection items are in both arrays, and difference items are in arr1 and not in arr2 |
| ArrayUtils.FilterAppend | src/utils/array.ts:47-56 | both filters keep the input order: they distribute over concatenation |
| ArrayUtils.GroupBy | src/utils/array.ts:61-70 | the group keys are exactly the items' keys, and each group holds the items with that key, in input order |
| ArrayUtils.NoKeyNoItems | src/utils/array.ts:64-67 | a key no item has selects no items |
| ArrayUtils.GroupSizes | src/utils/array.ts:62-69 | the group sizes add up to the number of items |
| ArrayUtils.EmptySum | src/utils/array.ts:62 | no items give empty groups |
| ArrayUtils.SumGrowsByOne | src/utils/array.ts:67 | one more item adds one to exactly one group |
| StringUtils.ToLower | src/utils/string.ts:10 | ASCII lower-casing: upper-case letters map to lower case, and every other character is kept |
| StringUtils.ToUpper | src/utils/string.ts:10 | ASCII upper-casing, inverse to lower-casing on lower-case letters |
| StringUtils.LowerAllFixed | src/utils/string.ts:10 | `toLowerCase` leaves no upper-case letter, and leaves a string unchanged exactly when it has no upper-case letter |
| StringUtils.LowerAllIdempotent | src/utils/string.ts:10 | lower-casing twice is the same as lower-casing once |
| StringUtils.Capitalize | src/utils/string.ts:8-11 | keeps the length (so '' gives ''), upper-cases the first character and lower-cases the rest |
| StringUtils.CapitalizeFixed | src/utils/string.ts:9-10 | an already capitalized string is unchanged |
| StringUtils.CapitalizeIdempotent | src/utils/string.ts:9-10 | capitalizing twice is capitalizing once |
| StringUtils.CamelCase | src/utils/string.ts:17 | the result contains no `-`, `_` or white space and is no longer than the input |
| StringUtils.AfterSeparators | src/utils/string.ts:17 | the rest of the string after a separator run: no separators, no longer than the input |
| StringUtils.CamelCaseNoSeparators | src/utils/string.ts:17 | separator-free input is unchanged |
| StringUtils.CamelCasePrefix | src/utils/string.ts:17 | a separator-free prefix is kept as it is |
| StringUtils.SkipRun | src/utils/string.ts:17 | a whole maximal run of separators is consumed at once |
| StringUtils.CamelCaseBoundary | src/utils/string.ts:17 | a separator run followed by a character becomes that character upper-cased |
| StringUtils.CamelCaseTrailing | src/utils/string.ts:17 | a trailing separator run is deleted |
| StringUtils.Separate | src/utils/string.ts:24 | the `[A-Z]` replacement leaves no upper-case letter |
| StringUtils.SeparateWords | src/utils/string.ts:24 | after also dropping a leading separator, no upper-case letter remains |
| StringUtils.SeparateAppend | src/utils/string.ts:24 | the `[A-Z]` replacement works character by character: on a concatenation it gives the concatenation of the results |
| StringUtils.SeparateChar | src/utils/string.ts:24 | on one character: an upper-case letter becomes the separator and its lower case; any other character stays |
| StringUtils.SeparateWordsCons | src/utils/string.ts:24 | the empty string stays empty; otherwise a leading capital becomes its lower case with no separator before it, a leading separator is dropped, any other leading character stays, and the rest is separated as above |
| StringUtils.SeparatedCase | src/utils/string.ts:23-32 | `kebabCase` (separator `-`) and `snakeCase` (separator `_`): the result has no upper-case letters, and for input without the separator, deleting every separator from it gives the lower-cased input |
| StringUtils.Remove | src/utils/string.ts:24 | deleting a character leaves none of it |
| StringUtils.RemoveAppend | src/utils/string.ts:24 | deletion distributes over concatenation |
| StringUtils.RemoveSeparate | src/utils/string.ts:24 | deleting the inserted separators gives the lower-cased input |
| StringUtils.SeparateWordsRemove | src/utils/string.ts:24 | kebab/snake case, with its separators deleted, is the lower-cased input |
| StringUtils.SeparateNoUpper | src/utils/string.ts:24 | input without upper-case letters gets no separators |
| StringUtils.SeparateWordsNoUpper | src/utils/string.ts:24 | without upper-case letters, only a leading separator is dropped |
| StringUtils.SeparatePrefix | src/utils/string.ts:24 | a prefix without upper-case letters is kept as it is |
| StringUtils.KebabCamel | src/utils/string.ts:24 | camelCase words such as "helloWorld": the first word stays and the second word's capital becomes `-` plus its lower case |
| StringUtils.KebabPascal | src/utils/string.ts:24 | PascalCase words such as "HelloWorld": both capitals are lowered and only the inner one gets a `-`, since the leading one is dropped |
| StringUtils.SnakePascal | src/utils/string.ts:31 | the same for snakeCase with `_`: "HelloWorld" gives "hello_world" |
| StringUtils.Truncate | src/utils/string.ts:37-40 | a string no longer than length is returned unchanged; otherwise its first length characters plus the suffix, of length length + the suffix's length; a negative length slices from the end |
| StringUtils.TruncateShape | src/utils/string.ts:38-39 | a truncated result is a proper prefix of the input followed by the suffix |
| StringUtils.TruncateExamples | src/utils/string.ts:37-40 | truncating "hello world" to 5 gives "hello..." (or "hello***" with that suffix); "hello" to 10 is unchanged |
| StringUtils.StripHtml | src/utils/string.ts:45-47 | the result is no longer than the input; text without `<` is unchanged |
| StringUtils.StripHtmlChars | src/utils/string.ts:46 | stripping only deletes: every character of the result is one of the input's |
| StringUtils.StripHtmlTagFree | src/utils/string.ts:46 | no complete tag is left in the result |
| StringUtils.StripHtmlTagFreeFixed | src/utils/string.ts:46 | text without a complete tag is unchanged |
| StringUtils.StripHtmlIdempotent | src/utils/string.ts:46 | stripping twice is stripping once |
| StringUtils.StripHtmlPrefix | src/utils/string.ts:46 | text before the first `<` is kept |
| StringUtils.StripHtmlTag | src/utils/string.ts:46 | a `<`...first-following-`>` span is deleted |
| Validators.EmailShape | src/utils/validator.ts:8-11 | isEmail holds exactly when the string is a non-empty local part, `@`, a non-empty host, `.`, a non-empty top-level part, with no white space and no other `@` |
| Validators.EmailFromSplit | src/utils/validator.ts:9 | every such split is accepted |
| Validators.PhoneIsNumeric | src/utils/validator.ts:17 | a phone number is numeric and has 11 characters |
| Validators.Pow10Monotone | src/utils/validator.ts:90 | powers of ten grow with the exponent |
| Validators.BankCardValue | src/utils/validator.ts:89-92 | a bank card number is numeric, and its value lies in [10^12, 10^19) |
| Validators.IdCardShape | src/utils/validator.ts:24-27 | isIdCard holds exactly for 15 digits, 18 digits, or 17 digits followed by `X`/`x` |
| Validators.StrongPasswordExtend | src/utils/validator.ts:34 | appending allowed characters keeps a strong password strong |
| Validators.PasswordExamples | src/utils/validator.ts:34 | "Password123!" is strong; "Password1" (no special) and "Pass1!" (too short) are not |
| Validators.ChineseNotNumeric | src/utils/validator.ts:83 | a string of CJK characters is not numeric |
| Validators.ChineseAppend | src/utils/validator.ts:83 | the concatenation of two CJK strings is a CJK string |
| Validators.OctetOfNat | src/utils/validator.ts:59-69 | the rendering of 0..255 is an accepted part that parses back to the number |
| Validators.IPShape | src/utils/validator.ts:53-70 | isIP holds exactly when the string is a.b.c.d for numbers a, b, c, d ≤ 255 written without leading zeros |
| Validators.IPFromQuad | src/utils/validator.ts:53-70 | every dotted quad of numbers ≤ 255 is accepted |
| Validators.DottedZeros | src/utils/validator.ts:56 | the quad of zeros is "0.0.0.0" |
| Validators.IPZeros | src/utils/validator.ts:53-70 | "0.0.0.0" is accepted |
| ObjectUtils.IsObjectMeans | src/utils/object.ts:91-93 | isObject is true exactly for non-null values of type "object" that are not arrays: plain objects and dates |
| ObjectUtils.Lookup | src/utils/object.ts:60-63 | an own property's value is found exactly when the key is present, and is the value stored with the key |
| ObjectUtils.IndexKeys | src/utils/object.ts:60 | the index keys an array or string owns are exactly the renderings of its indices |
| ObjectUtils.ResolveAppend | src/utils/object.ts:56-64 | following a path in two steps is following it at once |
| ObjectUtils.Get | src/utils/object.ts:52-67 | the loop returns the value reached along `path.split('.')`, or the default when the walk meets null or undefined, a missing own property, or ends at undefined |
| ObjectUtils.GetOutcomes | src/utils/object.ts:56-66 | a stored null comes back as null; a stored undefined, a broken path, or a null or undefined root gives the default |
| ObjectUtils.Put | src/utils/object.ts:85 | after a property write the key holds the value and every other key keeps its value |
| ObjectUtils.PutShape | src/utils/object.ts:85 | the write adds the key to the key set, keeps keys distinct, and leaves every other entry as it was |
| ObjectUtils.PutFresh | src/utils/object.ts:79 | writing a new key appends it |
| ObjectUtils.SetKeys | src/utils/object.ts:76-85 | the walk of `set` below an object returns an object of the same kind |
| ObjectUtils.Child | src/utils/object.ts:78-81 | `set` descends into an object: the existing property when it is an object (a plain object or a date), otherwise a fresh `{}` |
| ObjectUtils.Set | src/utils/object.ts:72-86 | set fails with a TypeError exactly when the root is not an object |
| ObjectUtils.ResolveSetKeys | src/utils/object.ts:76-85 | after the walk, the path leads to the value |
| ObjectUtils.GetAfterSet | src/utils/object.ts:72-86 | get after set on the same path returns the value, or the default when the value is undefined |
| ObjectUtils.SetFrame | src/utils/object.ts:72-86 | set adds only the path's first key at the top level, and every other top-level own property is unchanged |
| ObjectUtils.SetKeysFresh | src/utils/object.ts:78-80 | below a fresh `{}`, set builds one nested object per key |
| ObjectUtils.SetReplacesNonObject | src/utils/object.ts:78-80 | a missing or non-object value on the path (an array, a string, null, ...) is replaced by fresh nested objects holding the value |
| ObjectUtils.SetKeysWF | src/utils/object.ts:76-85 | set keeps every object's keys distinct |
| ObjectUtils.MergeInto | src/utils/object.ts:31-44 | merging one source leaves the target as it is unless both are objects, and keeps the target's kind |
| ObjectUtils.MergeAll | src/utils/object.ts:27-47 | with no sources, or a non-object target, merge returns the target unchanged; an object target stays an object of its kind |
| ObjectUtils.MergeOne | src/utils/object.ts:31-44 | the loop over one source's own properties, recursing into object values, computes the merged tree |
| ObjectUtils.Merge | src/utils/object.ts:27-47 | the sources are merged one after another, left to right |
| ObjectUtils.MergeAllAppend | src/utils/object.ts:46 | merging s1 then s2 is merging s1 followed by s2 |
| ObjectUtils.MergeFromLookup | src/utils/object.ts:32-43 | after the loop, a key not in the source keeps its value, and a key of the source holds the merged value |
| ObjectUtils.MergeIntoLookup | src/utils/object.ts:31-44 | per key: target-only keys keep their value; a non-object source value overwrites; an object source value is merged into the target's value, which becomes `{}` first if falsy and absorbs the merge if truthy but not an object |
| ObjectUtils.MergeIntoWF | src/utils/object.ts:31-44 | merge keeps every object's keys distinct |
| ObjectUtils.MergeFromWF | src/utils/object.ts:32-43 | the property loop keeps every object's keys distinct |
| ObjectUtils.MergedValueWF | src/utils/object.ts:35-41 | the value written under a key keeps keys distinct |
| ObjectUtils.MergeAllWF | src/utils/object.ts:27-47 | merging several sources keeps every object's keys distinct |
| ObjectUtils.MergeIntoEmpty | src/utils/object.ts:36-38 | merging an object into `{}` copies it, with every object in it (dates included) turned into a plain object with the same own properties |
| ObjectUtils.MergeFromEmpty | src/utils/object.ts:32-43 | the property loop into `{}` builds that plain copy entry by entry |
| ObjectUtils.MergedValueFresh | src/utils/object.ts:36-40 | a value written under a missing key is the plain copy of the source value |
| ObjectUtils.MergeDropsDate | src/utils/object.ts:36-38 | `merge({}, {d: date})` gives `{d: {}}` |
| ObjectUtils.MergeAddsKey | src/utils/object.ts:40 | merging `{d: x}` into `{c: w}` appends the new key |
| ObjectUtils.MergeExample | src/utils/__tests__/object.test.ts:64-73 | a nested merge merges nested objects key by key, keeps target-only keys, and appends new keys |
| ObjectUtils.MergeExampleFields | src/utils/__tests__/object.test.ts:64-73 | the same, on the target's properties |
| ObjectUtils.Clone | src/utils/object.ts:8-22 | a clone has the input's type: an array stays an array, an object stays an object of the same kind |
| ObjectUtils.DeepClone | src/utils/object.ts:8-22 | the recursive copy with its loops over items and own properties computes the clone: arrays item by item, plain objects key by key, a date as a new date with the same time, other values as they are |
| ObjectUtils.CloneEqual | src/utils/object.ts:8-22 | the clone equals the input whenever no date carries own properties |
| ObjectUtils.CloneNoDateProps | src/utils/object.ts:10 | no date in a clone carries own properties |
| ObjectUtils.CloneIdempotent | src/utils/object.ts:8-22 | cloning a clone gives an equal value |
| ObjectUtils.CloneWF | src/utils/object.ts:8-22 | a clone keeps every object's keys distinct |
| ObjectUtils.GetPaths | src/utils/object.ts:98-113 | the loop, with its recursive calls, lists the paths of the specification, in order |
| ObjectUtils.JoinPathString | src/utils/object.ts:103 | extending a path string by a key is the path string of the longer key path |
| ObjectUtils.LookupUnique | src/utils/object.ts:102 | with distinct keys, the value found under a key is the one stored with it |
| ObjectUtils.PathsSound | src/utils/object.ts:98-113 | every listed path is the dotted key chain of an own property reached through nested objects, behind the prefix's keys |
| ObjectUtils.PathsFromSound | src/utils/object.ts:101-110 | the same for the properties from an index on |
| ObjectUtils.EntrySound | src/utils/object.ts:102-108 | the same for the paths one property contributes |
| ObjectUtils.PathsFromContains | src/utils/object.ts:101-110 | the paths of every property from an index on are listed |
| ObjectUtils.PathsComplete | src/utils/object.ts:98-113 | every key chain through nested objects is listed |
| ObjectUtils.ObjChainResolves | src/utils/object.ts:56-64 | a key chain through nested objects is a path get can follow |
| ObjectUtils.GetPathsExact | src/utils/object.ts:98-113 | getPaths(obj) lists exactly the dotted key chains through nested objects (never into arrays), each once, and get finds an own property at each of them |
| ObjectUtils.PathsNoDuplicates | src/utils/object.ts:98-113 | no path is listed twice, for keys that are non-empty and contain no `.` |
| ObjectUtils.PathsPrefixed | src/utils/object.ts:103 | below a non-empty prefix every path starts with the prefix and a dot |
| ObjectUtils.PathsFromPrefixed | src/utils/object.ts:101-110 | the same for the properties from an index on |
| ObjectUtils.EntryPrefixed | src/utils/object.ts:103-107 | the same for one property's paths |
| ObjectUtils.EntryShape | src/utils/object.ts:103-107 | a property's own path is listed first, and everything after it lies below it: each parent comes before its children |
| DateUtils.Classify | src/utils/date.ts:30-47 | diff below one minute (negative included) is "just now"; otherwise the count is floor(diff / unit) ≥ 1 for the first unit whose next threshold diff is below, with at most 59 minutes, 23 hours, 29 days or 12 months |
| DateUtils.ClassifyMonotone | src/utils/date.ts:41-46 | the thresholds are tested in increasing order: a larger diff never falls into a smaller bucket, and within one unit its count does not decrease |
| DateUtils.DigitRun | src/utils/date.ts:42 | the leading run of ASCII digits |
| DateUtils.DigitRunOfNumber | src/utils/date.ts:42-46 | the number in front of a unit word is read back whole |
| DateUtils.DigitRunPrefix | src/utils/date.ts:42-46 | a digit run ends at the first non-digit |
| DateUtils.RelativeTimeParses | src/utils/date.ts:41-46 | the text getRelativeTime produces reads back as the bucket and count it was made from |
| DateUtils.RelativeTimeExamples | src/utils/date.ts:41-46 | 30 s is "just now"; 5 min, 2 h, 3 days, 61 days and 730 days give 5 minutes, 2 hours, 3 days, 2 months and 2 years |
| DateUtils.Pad2 | src/utils/date.ts:12-16 | `padStart(2, '0')`: the string, with zeros in front up to length two |
| DateUtils.Pad2Value | src/utils/date.ts:12-16 | a padded number is all digits and parses back to the number; below 100 it has exactly two characters |
| DateUtils.ValueOfLeadingZero | src/utils/date.ts:12-16 | a leading zero does not change a digit string's value |
| DateUtils.OccursAtTail | src/utils/date.ts:19 | an occurrence one place further on is an occurrence in the tail |
| DateUtils.FindFirst | src/utils/date.ts:19-24 | the first occurrence of a token, or none |
| DateUtils.FormatDateNoTokens | src/utils/date.ts:18-24 | a template without tokens is unchanged |
| DateUtils.FindFirstAfterText | src/utils/date.ts:19-24 | text without letters before a token does not change which occurrence comes first |
| DateUtils.FindFirstSkip | src/utils/date.ts:19-24 | the same for text in front that merely lacks the token's first character |
| DateUtils.NoLettersFindNone | src/utils/date.ts:19-24 | a letter-free text contains no token |
| DateUtils.PaddedNoLetters | src/utils/date.ts:12-16 | a padded field has no letters, so later tokens cannot match inside it |
| DateUtils.YearNoLetters | src/utils/date.ts:11 | the year has no letters |
| DateUtils.NoLettersAppend | src/utils/date.ts:18-24 | letter-free texts concatenate to a letter-free text |
| DateUtils.ReplaceAfterText | src/utils/date.ts:19-24 | with only letter-free text in front, the first occurrence of the token is the one replaced |
| DateUtils.ReplaceSkip | src/utils/date.ts:19-24 | the same when the text in front merely lacks the token's first character |
| DateUtils.FormatThree | src/utils/date.ts:18-24 | when the last three tokens no longer occur, the substitution stops after the first three replacements |
| DateUtils.DefaultSubstitute | src/utils/date.ts:8-24 | the default template `YYYY-MM-DD` gives the three texts joined by `-` |
| DateUtils.DefaultFormat | src/utils/date.ts:8-24 | the default format is the unpadded year, the month (counted from 1) padded to two digits, and the day padded to two digits, joined by `-` |
| DateUtils.FillStep | src/utils/date.ts:19-24 | in a template whose tokens appear in replacement order, each token is replaced where it stands and the text before the next token stays letter-free |
| DateUtils.OrderedSubstitute | src/utils/date.ts:18-24 | any template with the six tokens in the order YYYY, MM, DD, HH, mm, ss, separated by letter-free text, gets each text in its token's place |
| DateUtils.FullSubstitute | src/utils/date.ts:18-24 | `YYYY-MM-DD HH:mm:ss` gives year, month and day joined by `-`, a space, then hours, minutes and seconds joined by `:` |
| DateUtils.UsSubstitute | src/utils/date.ts:18-24 | `MM/DD/YYYY` gives month, day and year joined by `/`: the year is found although it comes last |
| DateUtils.FullFormat | src/utils/date.ts:8-24 | formatDate with `YYYY-MM-DD HH:mm:ss`: the year, then the month (counted from 1), day, hours, minutes and seconds each padded to two digits |
| DateUtils.UsFormat | src/utils/date.ts:8-24 | formatDate with `MM/DD/YYYY`: the padded month and day, then the year |
| DateUtils.FullFormatExample | src/utils/__tests__/date.test.ts:10-12 | 25 December 2023, 10:30:45 formats as `2023-12-25 10:30:45` |
| DateUtils.UsFormatExample | src/utils/__tests__/date.test.ts:10-13 | the same date formats as `12/25/2023` with `MM/DD/YYYY` |

## Left out

- number.ts `randomNumber` (randomness), and `toFixed` and `percentage` (floating point; `percentage(x, 0)` is Infinity).
- NumberUtils.NumberToChinese: the input is an integer. The non-integer branch of the range check (`Number.isInteger`) is not modelled, since numbers are not floating point here.
- NumberUtils.FormatNumberGroups: covers integers only, and states the exact digits. `formatNumber` on fractions or in exponent notation is floating-point formatting. Above 2^53 - 1 in magnitude, `toString` prints the shortest digits that round-trip the double, so `formatNumber(2 ** 64)` gives `18,446,744,073,709,552,000`. The model prints every digit exactly (`18,446,744,073,709,551,616`). Its claims hold for the source on safe integers only.
- NumberUtils.FormatNumber: the separator is inserted literally. In the source it is a `replace` replacement string, so `$$`, `$&`, `` $` ``, `$'` and `$1` in a separator are expanded by JavaScript; such separators are not modelled.
- string.ts `randomString` (randomness), and the randomness of `shuffle`: the index chosen at each step is an input.
- Case mapping beyond ASCII: `toUpperCase`/`toLowerCase` are modelled on `A`–`Z` and `a`–`z` only.
- String lengths count characters, not UTF-16 code units. This matters only for characters outside the Basic Multilingual Plane.
- validator.ts `isUrl`: a wrapper over the platform's URL parser.
- Checksums: the validators check shape only, and so does the model.
- date.ts `isToday`, `getDateRange` and `addTime`, together with `Date` parsing, time zones and `Date.now()`. The elapsed time and the calendar fields are inputs.
- storage.ts, dom.ts and url.ts: browser storage, DOM and URL APIs.
- The performance helpers (debounce, throttle, delay, retry): timers and asynchrony. Their source is not part of this model.
- ObjectUtils.Set: modelled on values, as a recursive rebuild of the tree that returns the new root. The source writes through `current` into the caller's object. The in-place update, aliasing between the result and other references, and object identity are not captured.
- ObjectUtils.Merge: the same. The result is the new target value, not the same object mutated; the source's `sources.shift()` on the rest array is not modelled.
- ObjectUtils.Set: arrays and functions as the root are excluded by its precondition.
- ObjectUtils.DeepClone: requires distinct keys in every object (true of every JavaScript object). Reference non-identity of the copy is not modelled.
- Object key order: properties keep insertion order. JavaScript's rule that integer-like keys are enumerated first is not modelled.
- ArrayUtils.Chunk: a non-empty array with a size of zero or less is excluded by the precondition. The source's loop never ends there, because `i += size` never reaches the length. An empty array gives `[]` for every size, and so does the model.
- ArrayUtils.GroupBy: the groups are a map from keys to items. The source's plain-object accumulator is not modelled in three ways. Keys are coerced to strings, so 1 and "1" share a group. Inherited names such as `constructor`, `toString` or `__proto__` make `groups[groupKey]` truthy, and the source then throws a TypeError. Integer-like keys are enumerated first.
- Inherited properties: `key in current` in `set` and `target[key]` in `merge` also see prototype properties (such as `toString`). The model sees own properties only. Keys such as `__proto__` are not modelled.
- Functions own no properties in the model (no `length`, `name` or `prototype`), and numbers are integers (no NaN, no fractions).
- ObjectUtils.GetPathsExact: stated for trees whose keys are non-empty and contain no `.`. With other keys, `getPaths` output does not split back into the keys.
