# laravel-helpers: name normalisation and recursive array search

This project models two helpers of the PHP package `laravel-helpers` and
proves properties of the model.

- `FixNameCase::execute($name)` normalises the (partial) name of a person.
  1. Every run of `\s` whitespace becomes one space, and a space is appended.
  2. The name is split with `preg_split('/( |-|O\'|l\'|d\'|St\.|Mc)/i', …, PREG_SPLIT_DELIM_CAPTURE)`.
  3. The pieces are grouped as (text, separator) pairs with `chunk(2)`, and the unfinished last chunk is filtered out.
  4. Each separator takes the spelling of a fixed table entry that equals it ignoring case (`strcasecmp`), or is kept as it is.
  5. Each text piece takes such a table spelling as a whole, or else `ucfirst(strtolower(…))`.
  6. Everything is joined and `trim`med.
- `InArrayRecursive::execute($needle, $haystack, $strict = true)` tells
  whether the needle occurs in the haystack or, at any depth, in an array
  nested in it.

The modules are:

- `PhpStrings`: the PHP string built-ins, as ASCII, byte-by-byte operations on
  `seq<char>`.
- `NameSplit`: the delimiter scanner and `preg_split` with delimiter capture.
- `FixNameCase`: the table, the whitespace collapse, `chunk`/`filter`/`mapSpread`/`implode`/`join`, and `Execute`.
- `FixNameCaseTable`: what the table lookup and the two casing rules guarantee.
- `FixNameCaseRender`: the collection pipeline as one pairwise rendering.
- `FixNameCaseTheorems`: the properties of `Execute` as a whole.
- `FixNameCaseExamples`: worked examples.
- `InArrayRecursive`: the search.
- `Wrappers`: `Option` and `Result`.

The particles `O'`, `l'`, `d'`, `St.` and `Mc` are separators of the split.
So they are recognised, ignoring case, anywhere in a word, not only at its
start:

- `mcdonald` becomes `McDonald`;
- `daniel's` becomes `Daniel'S`;
- `MCDONALD` becomes `McDonald`.

So `MCDONALD` becomes `McDonald`, not `Mcdonald`: the split matches `Mc` in
any case, even inside a word (`FixNameCaseExamples.ExampleMcdonaldCapitals`).

`FixNameCase.Execute` has no contract of its own. Its properties are the
lemmas listed below. `InArrayRecursive.php:8` calls `$this->in_array_recursive`,
which the class does not define. The model has both the search as written and
the self-recursive search evidently intended (see Findings).

## Model

| member | source | states |
|---|---|---|
| PhpStrings.StrToLower | FixNameCase.php:48 | `strtolower` keeps the length and maps every character through ASCII lower-casing; no other character changes |
| PhpStrings.UcFirst | FixNameCase.php:48 | `ucfirst` keeps the length, upper-cases the first character and leaves every other character as it is |
| PhpStrings.UcFirstLowerFolds | FixNameCase.php:48 | the default casing `ucfirst(strtolower(t))` changes letter case only: lower-casing it gives `strtolower(t)` |
| PhpStrings.Trim | FixNameCase.php:56 | the result of `trim` neither starts nor ends with a character of its default list (space, tab, LF, CR, NUL, VT) |
| PhpStrings.TrimEmpty | FixNameCase.php:56 | `trim` gives the empty string exactly when every character is on its default list |
| PhpStrings.TrimLower | FixNameCase.php:56 | `trim` and `strtolower` commute |
| PhpStrings.TrimAppendTrimChar | FixNameCase.php:56 | a trailing trim character does not change the result of `trim` |
| PhpStrings.TrimPrependTrimChar | FixNameCase.php:56 | a leading trim character does not change the result of `trim` |
| NameSplit.DelimiterLengthIsPatternMatch | FixNameCase.php:29 | the character-level scanner finds the same match, of the same length, as the pattern's alternation of space, hyphen, `O'`, `l'`, `d'`, `St.` and `Mc`, tried in pattern order and ignoring case |
| NameSplit.DelimiterLengthLower | FixNameCase.php:29 | under the `/i` flag a delimiter is recognised the same way in the lower-cased text |
| NameSplit.Split | FixNameCase.php:29 | with delimiter capture the number of pieces is always odd |
| NameSplit.SplitConcat | FixNameCase.php:29 | the pieces concatenate back to the input |
| NameSplit.SplitAlternates | FixNameCase.php:29 | the pieces alternate: every odd position holds one whole delimiter match, and no even position contains a match anywhere |
| NameSplit.SplitText | FixNameCase.php:29 | text without a match is one piece |
| NameSplit.SplitAround | FixNameCase.php:29 | a delimiter anywhere in the text separates the pieces on its two sides: `Split(a + d + b) == Split(a) + [d] + Split(b)` |
| NameSplit.SplitTrailingSpace | FixNameCase.php:26-29 | the appended space makes the pieces end in the separator `" "` and an empty piece |
| NameSplit.SplitLower | FixNameCase.php:29 | splitting the lower-cased text gives the lower-cased pieces |
| FixNameCase.Lookup | FixNameCase.php:39-41 | `first` returns an entry of the table that equals the key under `strcasecmp` |
| FixNameCase.LookupNone | FixNameCase.php:39-47 | `first` returns `null` exactly when no entry equals the key under `strcasecmp` |
| FixNameCase.CollapseWhitespace | FixNameCase.php:26 | the collapsed text is no longer than the input, empty only for empty input, starts with a space exactly where the input starts with whitespace, and holds no whitespace but single spaces |
| FixNameCase.ChunkShape | FixNameCase.php:32-33 | `chunk(2)`: the chunks concatenate back to the pieces, every chunk but the last is a pair, and the last has one or two pieces |
| FixNameCase.KeepPairs | FixNameCase.php:34-36 | the filter keeps only chunks of two pieces and never adds one |
| FixNameCase.KeepPairsMembers | FixNameCase.php:34-36 | a chunk is kept exactly when it is in the input and has two pieces |
| FixNameCase.CasePairs | FixNameCase.php:37-49 | `mapSpread` gives one re-cased pair per pair |
| FixNameCase.ImplodeAll | FixNameCase.php:50-52 | `implode` gives one string per pair |
| FixNameCaseTable.CasedCaseUnique | FixNameCase.php:19-23 | no two entries of the table are equal ignoring case unless they are spelled the same (the duplicate `the` is harmless) |
| FixNameCaseTable.CasedProper | FixNameCase.php:19-23 | the table starts with the five particles of the split pattern, and every entry has at least two characters |
| FixNameCaseTable.LookupCharacterised | FixNameCase.php:39-47 | in a case-unique table the lookup returns `e` exactly when `e` is an entry equal to the key ignoring case |
| FixNameCaseTable.LookupMisses | FixNameCase.php:45-48 | a piece misses the table exactly when its lower-cased form is not one of the lower-cased entries |
| FixNameCaseTable.LookupIgnoresCase | FixNameCase.php:39-47 | keys equal ignoring case find the same entry |
| FixNameCaseTable.LookupLower | FixNameCase.php:39-47 | the lookup depends on the lower-cased key only |
| FixNameCaseTable.LookupShort | FixNameCase.php:39-42 | a one-character key (the separators space and hyphen) is never found when every entry is longer |
| FixNameCaseTable.CaseNameUsesTable | FixNameCase.php:45-48 | a text piece equal to an entry ignoring case, as a whole, takes that entry's spelling |
| FixNameCaseTable.CaseNameDefault | FixNameCase.php:48 | any other text piece keeps its length, gets its first character upper-cased and every other one lower-cased |
| FixNameCaseTable.CaseNameKeepsLetters | FixNameCase.php:45-48 | casing a text piece changes letter case only |
| FixNameCaseTable.CaseNameIgnoresCase | FixNameCase.php:45-48 | the casing of a text piece depends on its lower-cased form only |
| FixNameCaseTable.CaseNameIdempotent | FixNameCase.php:45-48 | casing a cased text piece again changes nothing |
| FixNameCaseTable.ParticleIndex | FixNameCase.php:29 | every delimiter longer than one character equals one of the particles `O'`, `l'`, `d'`, `St.`, `Mc` ignoring case |
| FixNameCaseTable.SeparatorSpelling | FixNameCase.php:39-42 | space and hyphen separators pass through unchanged; every other separator takes the spelling of the particle it equals ignoring case |
| FixNameCaseTable.CaseSeparatorIgnoresCase | FixNameCase.php:39-42 | the casing of a separator depends on its lower-cased form only |
| FixNameCaseRender.PipelineIsRender | FixNameCase.php:32-53 | `chunk`, `filter`, `mapSpread`, `implode` and `join` together re-case the pieces two by two, text then separator, and drop an unpaired last piece |
| FixNameCaseRender.DanglingTextDropped | FixNameCase.php:34-36 | a text piece left without a separator at the end is dropped |
| FixNameCaseRender.ChunkAppend | FixNameCase.php:32-33 | chunking an even number of pieces ahead of others chunks the two parts separately |
| FixNameCaseRender.ChunkOdd | FixNameCase.php:32-33 | an odd number of pieces chunks into pairs followed by the last piece alone |
| FixNameCaseRender.KeepPairsOdd | FixNameCase.php:32-36 | for an odd number of pieces the filter keeps exactly the chunks of all pieces but the last |
| FixNameCaseRender.SpacedChunks | FixNameCase.php:26-36 | for the pieces of a name with the space appended, the filter drops exactly one chunk, the last, and it holds the empty string alone |
| FixNameCaseRender.DroppedPieceEmpty | FixNameCase.php:26-29 | the piece the filter drops is always the empty string after the appended space |
| FixNameCaseRender.RenderKeepsLetters | FixNameCase.php:37-53 | re-casing the pairs changes letter case only |
| FixNameCaseRender.RecasedKeepsLetters | FixNameCase.php:26-53 | the joined result, before `trim`, is the collapsed name plus a space, up to letter case |
| FixNameCaseRender.RecasedIgnoresCase | FixNameCase.php:29-53 | the joined result does not depend on the letter case of the collapsed name |
| FixNameCaseRender.RecasedLeadingSpace | FixNameCase.php:29-53 | a leading space of the collapsed name survives as a leading space and changes nothing else |
| FixNameCaseRender.RecasedTrailingSpace | FixNameCase.php:29-53 | a trailing space of the collapsed name survives as a trailing space and changes nothing else |
| FixNameCaseRender.ExecuteRecased | FixNameCase.php:16-56 | `execute` is `trim` of the collapsed name re-cased piece by piece with the appended space |
| FixNameCaseTheorems.CollapseFixpoint | FixNameCase.php:26 | collapsing whitespace a second time changes nothing |
| FixNameCaseTheorems.CollapseLower | FixNameCase.php:26 | collapsing whitespace and lower-casing commute |
| FixNameCaseTheorems.CollapseKeepsText | FixNameCase.php:26 | every non-whitespace character of the name survives the collapse |
| FixNameCaseTheorems.CollapseDrawsFrom | FixNameCase.php:26 | every character of the collapsed name is a space or a character of the name |
| FixNameCaseTheorems.CollapseRun | FixNameCase.php:26 | a run of whitespace before text becomes one space |
| FixNameCaseTheorems.CollapseWord | FixNameCase.php:26 | text without whitespace is copied unchanged |
| FixNameCaseTheorems.TrimCollapsed | FixNameCase.php:56 | on collapsed text without NUL, `trim` removes at most one space at each end and nothing else |
| FixNameCaseTheorems.ExecuteKeepsLetters | FixNameCase.php:16-56 | lower-casing the result gives the collapsed, trimmed name, lower-cased: only letter case changes |
| FixNameCaseTheorems.ExecuteIgnoresCase | FixNameCase.php:16-56 | the result does not depend on the letter case of the name |
| FixNameCaseTheorems.ExecuteClean | FixNameCase.php:16-56 | the result holds no whitespace but single spaces, and neither starts nor ends with a trim character |
| FixNameCaseTheorems.ExecuteBlank | FixNameCase.php:16-56 | the result is empty exactly when the name holds nothing but whitespace and NUL characters |
| FixNameCaseTheorems.ExecuteIdempotent | FixNameCase.php:16-56 | for a name without NUL characters, normalising the result again changes nothing |
| FixNameCaseExamples.ExampleMcdonald | FixNameCase.php:19-56 | `mcdonald` becomes `McDonald`: `Mc` is split off inside the word |
| FixNameCaseExamples.ExampleMcdonaldCapitals | FixNameCase.php:19-56 | `MCDONALD` becomes `McDonald` |
| FixNameCaseExamples.ExampleApostrophe | FixNameCase.php:19-56 | `daniel's` becomes `Daniel'S`: `l'` is a separator anywhere |
| FixNameCaseExamples.ExampleLoreal | FixNameCase.php:19-56 | `l'oreal` becomes `l'Oreal` |
| FixNameCaseExamples.ExampleLorealCapitals | FixNameCase.php:19-56 | `L'OREAL` becomes `l'Oreal` |
| FixNameCaseExamples.ExampleStJames | FixNameCase.php:19-56 | `st. james` becomes `St. James` |
| FixNameCaseExamples.ExampleOBrien | FixNameCase.php:19-56 | `john o'brien` becomes `John O'Brien` |
| FixNameCaseExamples.ExampleBeethoven | FixNameCase.php:19-56 | `ludwig van beethoven` becomes `Ludwig van Beethoven`: a whole piece found in the table keeps the table's spelling |
| FixNameCaseExamples.ExampleHenry | FixNameCase.php:19-56 | `henry viii` becomes `Henry VIII` |
| FixNameCaseExamples.ExampleVanessa | FixNameCase.php:19-56 | `vanessa` becomes `Vanessa`: an entry inside a longer piece is not used |
| FixNameCaseExamples.ExampleJoAnne | FixNameCase.php:19-56 | `jo-anne` becomes `Jo-Anne`: the hyphen passes through |
| FixNameCaseExamples.ExampleMcSpaceDonald | FixNameCase.php:19-56 | `mc donald` becomes `Mc Donald` |
| FixNameCaseExamples.ExampleJohnSmith | FixNameCase.php:19-56 | `jOHN smith` becomes `John Smith` |
| FixNameCaseExamples.ExampleJohnSmithSpaced | FixNameCase.php:19-56 | `  jOHN   smith ` becomes `John Smith`: runs of spaces collapse and the ends are trimmed |
| FixNameCaseExamples.ExampleJohn | FixNameCase.php:19-56 | `john` becomes `John` |
| FixNameCaseExamples.ExampleNul | FixNameCase.php:26-56 | `"\0john"` becomes `john`: `\s` keeps the NUL, casing keeps `\0john` as it is, and `trim` strips the NUL afterwards |
| FixNameCaseExamples.NulBreaksIdempotence | FixNameCase.php:26-56 | so normalising is not idempotent on names holding a NUL: `"\0john"` gives `john`, which gives `John` |
| InArrayRecursive.Execute | InArrayRecursive.php:5-12 | an empty haystack gives false, and a haystack with an element matching the needle gives true |
| InArrayRecursive.ExecuteFindsOccurrence | InArrayRecursive.php:7-12 | the search returns true exactly when some value, at some depth of nested arrays, matches the needle under the chosen comparison |
| InArrayRecursive.ExecuteStrict | InArrayRecursive.php:5-8 | with the default strict comparison, the search returns true exactly when some position of the nested arrays holds a value identical to the needle |
| InArrayRecursive.ExecuteAppend | InArrayRecursive.php:7-12 | searching one haystack after another is searching each |
| InArrayRecursive.ExecuteAsWritten | InArrayRecursive.php:8 | the search as written can fail only with the undefined-method error |
| InArrayRecursive.AsWrittenAgrees | InArrayRecursive.php:7-12 | whenever the search as written returns, it returns what the intended search returns |
| InArrayRecursive.AsWrittenFails | InArrayRecursive.php:7-8 | the search as written fails exactly when a non-matching array comes after non-matching scalars only |
| InArrayRecursive.AsWrittenStopsAtFirstHit | InArrayRecursive.php:7-9 | a match reached before any nested array returns true, whatever follows it, and an array identical to the needle matches without any descent |
| InArrayRecursive.AsWrittenFlat | InArrayRecursive.php:7-12 | on a haystack without nested arrays the search as written never fails and finds exactly the matching elements |
| InArrayRecursive.NestedNeedleCounterexample | InArrayRecursive.php:8 | `execute(1, [[1]])` is true for the intended search, but the search as written raises the undefined-method error |

## Left out

- `app/Console/Commands/FileSystemsTest.php` exercises storage disks. It is I/O and is not part of this model.
- PHP's loose comparison `==` and its type-juggling rules are not modelled. `InArrayRecursive` takes them as the comparison parameter `loose`, which every property holds for.
- PHP array keys, objects and other `Traversable` haystacks are not modelled. The search sees only the values of list arrays.
- General PCRE matching is not modelled. Only the one split pattern and `\s` are modelled.
- Locale-dependent and multibyte case mapping are not modelled. Case mapping is ASCII only. That is what `strtolower` and `ucfirst` do from PHP 8.2 on, and in PHP 8.0 and 8.1 under the default "C" locale; `strcasecmp` folds ASCII only. Characters are treated one at a time, as PHP treats bytes.
- Laravel's `Collection` internals are not modelled (key preservation in `filter`, and the `null` default of `mapSpread`'s second argument, which the filter makes unreachable).
- FixNameCase.CasePairs: its own contract states only that there is one pair per pair. The content of each pair is stated by `FixNameCaseRender.PipelineIsRender` and the casing lemmas of `FixNameCaseTable`.
- FixNameCase.ImplodeAll: its own contract states only the count. The joined text is stated by `FixNameCaseRender.PipelineIsRender`.
- InArrayRecursive.Execute: strict comparison is equality on the scalar type, which is reflexive. PHP's `NAN === NAN` is false, so `execute(NAN, [NAN])` returns false in PHP while the model returns true.
- `FixNameCase.Execute` states no contract of its own. What it promises is proved in the lemmas above.
- Non-string arguments to `FixNameCase::execute` are not modelled.

## Findings

| source | as written | input that shows it | evidently intended | confidence | as-written member | corrected member |
|---|---|---|---|---|---|---|
| InArrayRecursive.php:8 | descends into a nested array by calling `$this->in_array_recursive(...)`, a method the class does not define, so PHP raises an error whenever the scan reaches a non-matching nested array | `execute(1, [[1]])` | the method calls itself (`$this->execute(...)`), and the search returns true when the needle occurs at any depth | not executed | InArrayRecursive.ExecuteAsWritten, InArrayRecursive.NestedNeedleCounterexample | InArrayRecursive.Execute, InArrayRecursive.ExecuteFindsOccurrence |
