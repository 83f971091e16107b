# Reduplication of Russian words, modelled in Dafny

The system turns a Russian word into its rhyming "reduplication": a prefix
(`ху`), then a vowel paired with one vowel of the word, then the rest of
the word after that vowel (`дикси` → `хуикси`). Words of one syllable get
the prefix `хуе` in front of the whole word (`кот` → `хуекот`). Which vowel
is used depends on the stressed letter. A stress dictionary maps words to
the index of their stressed letter, and several services around it
provide that index. The model covers these parts:

- **The engine** (`Reduplicator`). It has the vowel-pair tables and the
  scan for the first vowel that is stressed or followed by a consonant.
  It is a method with a loop, proved against the function `Reduplication`.
- **The alphabet tables** (`Alphabet`). The 10 vowels, the 21 consonants
  and the 33 letters, with their getters, which return copies.
- **The flavour records** (`Flavours`). The constant prefixes and pair
  tables of the "hueficator" and "hrenoficator" configurations.
- **The stress services**:
  - `DefaultStressDictionaryManager` and `DefaultStressManager`: read-only
    lookups on a normalised key.
  - `DynamicStress.DynamicStressManager` and
    `DynamicStressDictionary.DynamicStressDictionaryManager`: classes whose
    `dict` and `customDict` maps are updated in place when a word carries
    an upper-case vowel as a stress mark. Writing the custom file is
    recorded in a ghost list `written` of the snapshots written.
- **The chunked text-dictionary reader** (`DictionaryReader`). The file is
  read in chunks, and the bytes after the last line feed are carried to
  the next buffer. The lines `word` + `digits` are parsed into a map. The
  pieces are:
  - `LineParser`: the per-character parser.
  - `Utf8`: UTF-8 decoding of one- and two-byte characters.
  - `ReaderFindings`: two defects of the chunk loop (see Findings).
- **The character codec** (`Encoding`). It has the table built from the 33
  letters and the 10 digits, `encode`, `decodeOne` and the hard-coded code
  ranges.
- **The dictionary transformer** (`DictTransformer`). It handles one line
  of the source word list: it trims the line, splits it on `|`, validates
  the word and takes the stress position.
  - Its counters and result map live in the class `LineHandler`.
  - The pure `Run`/`RunOutcomes` fold over the lines carries the
    properties that relate several lines.

Letter case is modelled by `CaseMapping` (Latin and U+0400–U+045F), and
the shared `Option`/`Result` types by `Wrappers`.

## Model

| member | source | states |
|---|---|---|
| Reduplicator.PairTablesAreTotal | src/reduplicator.ts:11-35 | both pair tables are defined exactly on the 10 vowels and map them to vowels; every default pair is `е` |
| Reduplicator.SingleSyllablePrefixIsPrefixAndDefaultPair | src/reduplicator.ts:11-39 | the one-syllable prefix `хуе` is the prefix `ху` followed by the default pair of any vowel |
| Reduplicator.SyllableCountIsVowelCount | src/reduplicator.ts:79-81 | the syllable count is at most the length, and it is zero exactly when no letter is a vowel |
| Reduplicator.SyllableCountAppend | src/reduplicator.ts:79-81 | the syllables of a concatenation are those of both parts |
| Reduplicator.VowelsFromCounts | src/reduplicator.ts:79-81 | counting vowels from an index gives at most the letters left, and zero exactly when none of them is a vowel |
| Reduplicator.GetVowelPair | src/reduplicator.ts:83-87 | the pair is a vowel; it is the stressed pair when the stress is unknown or falls on this vowel, and `е` otherwise |
| Reduplicator.FirstSubstitutionPoint | src/reduplicator.ts:64-73 | the index found is a vowel below the last position that is stressed or followed by a consonant; no earlier index qualifies; none is found only when no index qualifies |
| Reduplicator.FirstSubstitutionPointIsUnique | src/reduplicator.ts:64-73 | a qualifying index with no qualifying index before it is the one the scan finds |
| Reduplicator.Reduplicate | src/reduplicator.ts:49-77 | the loop with its early return yields exactly the specified reduplication |
| Reduplicator.ShortWordsAreRejected | src/reduplicator.ts:6-52 | words shorter than 3 characters give no result |
| Reduplicator.OneVowelWordsGetPrefix | src/reduplicator.ts:57-60 | a word of one vowel gives `хуе` followed by the lower-cased word |
| Reduplicator.NoVowelWordsAreRejected | src/reduplicator.ts:64-76 | a word without vowels gives no result |
| Reduplicator.ManyVowelResult | src/reduplicator.ts:62-76 | with zero or several vowels, the result is `ху` + pair + the rest after the first qualifying index; there is no result only when no index qualifies |
| Reduplicator.ResultKeepsLastLetter | src/reduplicator.ts:64-71 | the last letter is never replaced: a result ends with the last letter of the lower-cased word |
| Reduplicator.CaseDoesNotMatter | src/reduplicator.ts:54-62 | two words with the same lower-case form give the same result |
| Reduplicator.LowerKeepsLowerCase | src/reduplicator.ts:54 | lower-casing leaves a word of alphabet letters unchanged |
| Reduplicator.ExampleOneVowel | src/test/tests.ts:26 | `кот` gives `хуекот` |
| Reduplicator.ExamplesRejected | src/test/tests.ts:36-38 | `птрт`, `а` and `ад` give no result |
| Reduplicator.ExampleUnknownStress | src/test/tests.ts:31 | with no stress known, `дикси` gives `хуикси` |
| Reduplicator.ExampleUnknownStressFirstVowel | src/test/tests.ts:32 | with no stress known, `кампьютер` gives `хуямпьютер` |
| Reduplicator.ScanWithoutStress | src/reduplicator.ts:64-71 | for a lower-case word that any dictionary lacks, the result is built from the first qualifying index with the stressed pair |
| Alphabet.VowelTestMatchesTable | src/alphabetHelper.ts:2 | the vowel test holds exactly for the letters of the vowel table |
| Alphabet.ConsonantTestMatchesTable | src/alphabetHelper.ts:3 | the consonant test holds exactly for the letters of the consonant table |
| Alphabet.LetterTestMatchesTable | src/alphabetHelper.ts:5 | the letter test (`а`..`я` or `ё`) holds exactly for the letters of the full table |
| Alphabet.GetVowels | src/alphabetHelper.ts:7-9 | returns a fresh array holding the vowel table |
| Alphabet.GetConsonants | src/alphabetHelper.ts:11-13 | returns a fresh array holding the consonant table |
| Alphabet.GetAll | src/alphabetHelper.ts:15-17 | returns a fresh array holding the full table |
| Alphabet.VowelTableSize | src/alphabetHelper.ts:2-3 | 10 distinct vowels and 21 distinct consonants |
| Alphabet.TablesAreDisjoint | src/alphabetHelper.ts:2-5 | no letter is both a vowel and a consonant, and both are letters of the full table |
| Alphabet.SignsAreUnclassified | src/alphabetHelper.ts:2-5 | the letters that are neither vowel nor consonant are exactly `ъ` and `ь` |
| Encoding.AlphabetSize | src/alphabetHelper.ts:5 | the full table has 33 distinct letters |
| Encoding.LetterTestIsWiderThanAlphabet | src/encodingManager.ts:65-67 | `isLetter` accepts every alphabet letter; it accepts a character outside the alphabet exactly when it lies from the Latin `a` up to just before the Cyrillic `а`, so every lower-case Latin and upper-case Cyrillic letter; it rejects digits, upper-case Latin letters and the line feed |
| Encoding.CodeOf | src/encodingManager.ts:4 | a character has a code exactly when it is one of the 33 letters or 10 digits, and the code is below 43 |
| Encoding.TableIsClosedForm | src/encodingManager.ts:4 | the character table has 43 entries, and entry `i` is the character of code `i` |
| Encoding.CodeOfCharOf | src/encodingManager.ts:4 | the code of the character of code `k` is `k` |
| Encoding.CharOfCodeOf | src/encodingManager.ts:4 | the character of the code of an encodable character is that character |
| Encoding.CodeRangesMatchTable | src/encodingManager.ts:51-59 | `isCodeOfLetter` holds exactly for codes of letters, `isCodeOfDigit` exactly for codes of digits, and never both |
| Encoding.DigitCodes | src/encodingManager.ts:4 | the digits `1`..`9` get codes 33..41 and `0` gets 42 |
| Encoding.FirstUnknown | src/encodingManager.ts:25-30 | finds the first character without a code, or none when every character has one |
| Encoding.EncodeAll | src/encodingManager.ts:18-36 | encoding succeeds exactly when every character has a code, with one byte per character; otherwise it fails on the first unknown character |
| Encoding.DecodeCode | src/encodingManager.ts:38-49 | no code decodes to the empty string; a code decodes exactly when it is below 43, to its character |
| Encoding.DecodeEncode | src/encodingManager.ts:18-49 | decoding each byte of an encoding gives back the character at that position |
| Encoding.BuildTables | src/encodingManager.ts:9-16 | the loop fills the table with the character of each code and the map with exactly the encodable characters and their codes |
| Encoding.EncodingManager.constructor | src/encodingManager.ts:9-16 | the two tables are mutually inverse over the 43 characters |
| Encoding.EncodingManager.Encode | src/encodingManager.ts:18-36 | absent or empty input gives an empty buffer; otherwise a fresh buffer of the codes, or failure on the first unknown character |
| Encoding.EncodingManager.DecodeOne | src/encodingManager.ts:38-49 | the table lookup decodes as the closed-form decoding |
| Encoding.EncodeAllFailsAt | src/encodingManager.ts:27-30 | encoding fails with the first unknown character |
| Flavours.HueficatorIsWellFormed | src/hueficator.ts:9-36 | the pair table is total on vowels into vowels, `е` is a vowel, and `хуе` is `ху` + `е` |
| Flavours.HrenoficatorIsWellFormed | src/hrenoficator.ts:9-34 | the pair table is total on vowels into vowels, `о` is a vowel, and `хрено` is `хрен` + `о` |
| Flavours.HrenoficatorPairsAreIdentity | src/hrenoficator.ts:9-22 | every vowel is paired with itself |
| Flavours.HrenoficatorPrefixVowels | src/hrenoficator.ts:24-34 | by the engine's syllable count, the prefix `хрен` has one syllable and the one-syllable prefix has two |
| Flavours.HueficatorMatchesFirstEngine | src/hueficator.ts:9-36 | the hueficator has the engine's prefixes and stressed pairs, and `е` is the engine's default pair of every vowel |
| CaseMapping.LowerIsIdempotent | src/dynamicStressManager.ts:71 | lower-casing keeps the length and lower-casing twice is lower-casing once |
| CaseMapping.CyrillicCase | src/dynamicStressManager.ts:66-68 | a lower-case alphabet letter is not upper case, its upper-case form is, and lower-casing that gives the letter back |
| StressDictionaries.NormalizeWord | src/dynamicStressManager.ts:70-72 | the normalised key has the word's length and holds no `ё` |
| StressDictionaries.NormalizeIsIdempotent | src/dynamicStressManager.ts:70-72 | normalising twice is normalising once |
| StressDictionaries.NormalizeIgnoresCaseAndYo | src/dynamicStressManager.ts:70-72 | words that differ only in case and in `е`/`ё` get the same key |
| StressDictionaries.FoldMisencoded | src/defaultStressManager.ts:17 | the substitution of the literal keeps the length |
| StressDictionaries.FoldMisencodedIsIdentity | src/defaultStressManager.ts:17 | the substitution changes nothing in a string without the literal's character |
| StressDictionaries.MisencodedKeyOfCyrillicWord | src/defaultStressManager.ts:17 | for a word in the Cyrillic block, the key is just the lower-cased word |
| StressDictionaries.StressedVowelIsUpperCaseVowel | src/dynamicStressManager.ts:45 | a mark is an upper-case vowel: never a lower-case vowel nor an upper-case consonant, and every vowel's upper-case form is one |
| StressDictionaries.MarksFrom | src/dynamicStressManager.ts:47 | lists, in increasing order, exactly the positions of the marks |
| StressDictionaries.SingleMarkIsUniqueMark | src/dynamicStressManager.ts:47-54 | one mark in the list is the word's only mark, and a word with exactly one mark lists just it |
| StressDictionaries.NoMarksIffNoStressedVowel | src/dynamicStressManager.ts:47-48 | no marks are listed exactly when no character is a mark |
| DefaultStressDictionaryManager.GetStressedLetterIndex | src/defaultStressDictionaryManager.ts:16-18 | the result is the entry of the lower-cased word with `ё` folded to `е`, and unknown when it has none |
| DefaultStressDictionaryManager.LookupIgnoresCaseAndYo | src/defaultStressDictionaryManager.ts:17 | words that differ only in case and in `е`/`ё` get the same result |
| DefaultStressDictionaryManager.YoSpellingIsFound | src/defaultStressDictionaryManager.ts:17 | a word spelled with `ё` finds the entry spelled with `е` |
| DefaultStressManager.GetStressedLetterIndex | src/defaultStressManager.ts:16-18 | the result is the entry of the lower-cased word after the literal substitution, and unknown when it has none |
| DefaultStressManager.LookupIgnoresCase | src/defaultStressManager.ts:17 | words that differ only in case get the same result |
| DefaultStressManager.CyrillicKeyIsLowerCase | src/defaultStressManager.ts:17 | for a word in the Cyrillic block, the lookup is of the lower-cased word |
| DefaultStressManager.YoIsNotFolded | src/defaultStressManager.ts:17 | `ёж` does not find the entry `еж` here, but does in the other read-only lookup |
| DynamicStress.Merge | src/dynamicStressManager.ts:29 | the merged map has the keys of both maps; a custom entry wins over the base entry |
| DynamicStress.Entry | src/dynamicStressManager.ts:49 | indexing the dictionary gives `undefined` exactly for a missing key, `NaN` exactly for a key the reader stored as `NaN`, and the stored number otherwise |
| DynamicStress.GetStress | src/dynamicStressManager.ts:44-55 | with exactly one mark, its position is returned as custom whatever the dictionary holds; otherwise the dictionary entry of the normalised word (`undefined`, `NaN` or a number), not custom |
| DynamicStress.DynamicStressManager.constructor | src/dynamicStressManager.ts:16-31 | the base dictionary is the one the text reader built, `NaN` entries included; when a custom path is configured, the custom file is read and merged over it; otherwise it is kept |
| DynamicStress.DynamicStressManager.GetStressedLetterIndex | src/dynamicStressManager.ts:33-42 | returns the stress (`undefined`, `NaN` or an index); a mark with a writable custom path stores its index under the normalised word in both maps and writes the custom map; otherwise nothing changes |
| DynamicStress.DynamicStressManager.SaveCustomStress | src/dynamicStressManager.ts:57-64 | only the one key changes, in both maps, and the custom map is written |
| DynamicStress.SavedMarkIsFoundLater | src/dynamicStressManager.ts:49-62 | after a mark is saved, an unmarked lookup of a word with the same normalised form returns the saved index, even where the entry was `NaN` before |
| DynamicStress.MarkExamples | src/dynamicStressManager.ts:44-55 | `кОт` gives its mark; `кот` and `мАмА` (two marks) give the dictionary entry, `undefined` when there is none and `NaN` when it is `NaN` |
| DynamicStress.NaNEntryIsAnswered | src/dynamicStressManager.ts:17-50 | a text-dictionary line `кот` without digits is stored as `NaN`, and an unmarked `кот` is then answered with `NaN`, not custom |
| DynamicStressDictionary.DynamicStressDictionaryManager.constructor | src/dynamicStressDictionaryManager.ts:13-27 | when a custom path is configured, the custom file is merged over the base dictionary |
| DynamicStressDictionary.DynamicStressDictionaryManager.GetStressedLetterIndex | src/dynamicStressDictionaryManager.ts:29-38 | a save is made only with a custom path, a character equal to its upper-case form and exactly one marked vowel; the result is the lookup, after the save, of the lower-cased word with the literal substitution |
| DynamicStressDictionary.DynamicStressDictionaryManager.SaveCustomStress | src/dynamicStressDictionaryManager.ts:40-57 | with exactly one mark, its index is stored under the lower-cased word in both maps and the custom map is written; otherwise nothing changes |
| DynamicStressDictionary.SavedMarkIsReturned | src/dynamicStressDictionaryManager.ts:32-55 | a word in the Cyrillic block with a single mark triggers the save and gets back the saved index |
| DynamicStressDictionary.HyphenTriggersSaveAttempt | src/dynamicStressDictionaryManager.ts:32 | `кот-ик` attempts a save because of `-`, though it holds no mark |
| Utf8.Decode | src/dictionaryReader.ts:55 | decoding yields at most one character per byte |
| Utf8.DecodeAppend | src/dictionaryReader.ts:55 | decoding splits at a boundary after an ASCII byte |
| Utf8.DecodeAscii | src/dictionaryReader.ts:55 | ASCII bytes decode one to one |
| Utf8.DecodeTwoBytes | src/dictionaryReader.ts:55 | a lead and a continuation byte decode to one character |
| Utf8.DecodeEndsInLineBreak | src/dictionaryReader.ts:55 | bytes ending in a line feed decode to text ending in `\n` |
| Utf8.DecodeAfterLineFeed | src/dictionaryReader.ts:55 | a trailing line feed decodes to a trailing `\n` |
| LineParser.ParseInt | src/dictionaryReader.ts:68 | the number is missing exactly when the digits are empty or not all digits |
| LineParser.Letters | src/dictionaryReader.ts:61-62 | only the characters that `isLetter` accepts are kept |
| LineParser.DigitsOf | src/dictionaryReader.ts:63-64 | only digits are kept |
| LineParser.DigitsStayDigits | src/dictionaryReader.ts:57-73 | the stress accumulator only ever holds digits |
| LineParser.StepOrdinaryChar | src/dictionaryReader.ts:61-65 | an ordinary character extends the word or the digits, and nothing is stored |
| LineParser.StepLineEnd | src/dictionaryReader.ts:67-72 | a line end stores the word with its number and resets both accumulators |
| LineParser.ParseLine | src/dictionaryReader.ts:57-73 | a line ended by `\n` stores its letters with the number of its digits, characters of other kinds dropped, and resets both accumulators |
| LineParser.ParseLastLine | src/dictionaryReader.ts:59-72 | in the last chunk, the last character ends the final line in the same way |
| LineParser.ParseTextAppend | src/dictionaryReader.ts:57-73 | parsing a concatenation is parsing one part after the other |
| LineParser.EndOfFileAfterLineBreak | src/dictionaryReader.ts:59-67 | text ending in `\n` parses the same whether or not it ends the file |
| LineParser.LaterLineWins | src/dictionaryReader.ts:68 | of two lines for the same word, the later value is kept |
| DictionaryReader.ReadChunk | src/dictionaryReader.ts:30 | a read returns at most `length` bytes, none past the end, and fewer only at the end of the file |
| DictionaryReader.LastBreakBeforeIsLast | src/dictionaryReader.ts:43-50 | the line feed found is the last one, and none is found exactly when there is none |
| DictionaryReader.SplitFacts | src/dictionaryReader.ts:40-55 | the corrected split cuts the buffer at its last line feed and carries none; the split as written agrees when there is a line feed, and otherwise parses and carries the whole buffer |
| DictionaryReader.ReadChunkIsNextChunk | src/dictionaryReader.ts:30 | a read at the offset takes the next chunk of the unread part |
| DictionaryReader.FullRead | src/dictionaryReader.ts:40-79 | a full read parses up to the last line feed and goes on with the carried bytes |
| DictionaryReader.ShortRead | src/dictionaryReader.ts:32-38 | a short read parses the buffer as the end of the file, and a zero-byte read parses nothing |
| DictionaryReader.CorrectedReadIsSinglePass | src/dictionaryReader.ts:24-80 | the corrected loop builds what one pass of the line parser over the whole decoded file builds |
| DictionaryReader.AsWrittenMatchesCorrected | src/dictionaryReader.ts:24-80 | when every full chunk holds a line feed and the last read is short, the loop as written parses the same pieces as the corrected one |
| DictionaryReader.AsWrittenIsSinglePass | src/dictionaryReader.ts:24-80 | under the same condition, the loop as written is one pass of the line parser over the whole file |
| DictionaryReader.ReadStepEmpty | src/dictionaryReader.ts:36-38 | a zero-byte read ends the loop without parsing the carried bytes |
| DictionaryReader.ReadStepShort | src/dictionaryReader.ts:32-76 | a short read parses the carried bytes and the bytes read as the end of the file |
| DictionaryReader.ReadStepFull | src/dictionaryReader.ts:40-79 | a full read parses the buffer up to its last line feed and goes on at the new offset with the rest carried |
| DictionaryReader.AllocWithLeftover | src/dictionaryReader.ts:25-28 | the new buffer has room for the chunk after the carried bytes, which are copied to its front |
| DictionaryReader.ReadSync | src/dictionaryReader.ts:30 | the bytes read land after the carried bytes, and the front of the buffer is kept |
| DictionaryReader.PushedReversed | src/dictionaryReader.ts:43-52 | the bytes pushed from the end of the buffer backwards, reversed, are the bytes after the stop in their own order |
| DictionaryReader.ScanOutcome | src/dictionaryReader.ts:43-52 | the bytes pushed in the backward scan, reversed, are the carried bytes, in their original order |
| DictionaryReader.ScanForLastBreak | src/dictionaryReader.ts:40-53 | the backward scan ends the parsed part at the last line feed and carries the bytes after it in their original order |
| DictionaryReader.ParseChunk | src/dictionaryReader.ts:57-73 | the character loop computes the line parser over the decoded chunk |
| DictionaryReader.ReadLoopEnds | src/dictionaryReader.ts:36-38 | after a zero-byte or short read, the parser state is final |
| DictionaryReader.ReadLoopContinues | src/dictionaryReader.ts:75-79 | after a full read, the offset advances by the bytes read and the rest of the pieces lead to the same result |
| DictionaryReader.FillBuffer | src/dictionaryReader.ts:25-53 | the buffer holds the carried bytes and the read; a short read is decoded whole, and a full one is split at its last line feed |
| DictionaryReader.ReadNextChunk | src/dictionaryReader.ts:25-79 | one loop pass: after a zero-byte or short read the state is final; after a full read the rest of the pieces, from the new offset, lead to the same result |
| DictionaryReader.PendingAtStart | src/dictionaryReader.ts:10-22 | before the first pass, with an empty parser state and nothing carried, all the pieces of the file are still to come |
| DictionaryReader.ReadChunks | src/dictionaryReader.ts:24-80 | for any positive chunk size, the loop builds exactly the map of the chunked reading |
| DictionaryReader.Read | src/dictionaryReader.ts:5-97 | a missing file fails with the message and the path; otherwise the result is the map of the chunked reading with chunks of 1048576 bytes |
| ReaderFindings.SplitAtLastBreak | src/dictionaryReader.ts:40-55 | the split at the last line feed parses the part ending in it and carries the rest |
| ReaderFindings.LastLineLostAtChunkEnd | src/dictionaryReader.ts:36-38 | when a file of exactly one chunk ends without a line feed, its last line is never parsed |
| ReaderFindings.LastLineKeptAtChunkEnd | src/dictionaryReader.ts:24-80 | the corrected loop parses that last line as the end of the file |
| ReaderFindings.OneFullChunkCorrected | src/dictionaryReader.ts:24-80 | the corrected loop parses a file of exactly one chunk in two pieces: the split part, then the carried part as the end |
| ReaderFindings.LongLineReadTwice | src/dictionaryReader.ts:40-55 | a full chunk without a line feed is both parsed and carried into the next buffer |
| ReaderFindings.LongLineCarried | src/dictionaryReader.ts:24-80 | the corrected loop parses nothing of such a chunk and carries it whole |
| ReaderFindings.LostLastLine | src/dictionaryReader.ts:36-38 | `я1\nб2` read in chunks of 7 bytes loses `б`; the corrected read keeps it |
| ReaderFindings.DuplicatedLongLine | src/dictionaryReader.ts:40-55 | `яб1\n` read in chunks of 4 bytes stores `ябяб`; the corrected read stores `яб` |
| DictTransformer.TrimStartSpec | src/dict-transformer/app.ts:27 | trimming the start drops exactly the leading white space |
| DictTransformer.TrimEndSpec | src/dict-transformer/app.ts:27 | trimming the end drops exactly the trailing white space |
| DictTransformer.TrimIdempotent | src/dict-transformer/app.ts:27-32 | a trimmed line neither starts nor ends with white space, and trimming again changes nothing |
| DictTransformer.TrimBlank | src/dict-transformer/app.ts:27-29 | a line trims to nothing exactly when it is all white space |
| DictTransformer.Split | src/dict-transformer/app.ts:31 | splitting yields at least one field |
| DictTransformer.SplitJoin | src/dict-transformer/app.ts:31 | joining the fields with the bar separator gives the line back; no field holds the separator; there is one field more than there are separators |
| DictTransformer.IndexOf | src/dict-transformer/app.ts:45 | the result is -1 exactly when the character is absent, and otherwise its first position |
| DictTransformer.WordToProcessEvery | src/dict-transformer/app.ts:64-67 | a word is accepted exactly when every character is `'` or an allowed character |
| DictTransformer.WordToProcessLetters | src/dict-transformer/app.ts:14-16 | the allowed characters are exactly the 33 letters, `-` and `'` |
| DictTransformer.StripAsterisk | src/dict-transformer/app.ts:37 | one leading `*` is removed, and nothing else is changed |
| DictTransformer.ClassifyBlankOrMalformed | src/dict-transformer/app.ts:27-33 | a line is ignored exactly when it is all white space, and fails exactly when it is non-blank with fewer than two bar separators |
| DictTransformer.ClassifyAdded | src/dict-transformer/app.ts:32-53 | a stored line has at least three fields, an accepted word without its `*`, and the index of the first `'` of the third field |
| DictTransformer.ClassifySkipped | src/dict-transformer/app.ts:32-51 | a skipped line has at least three fields, and its word is rejected or its third field has no `'` |
| DictTransformer.ApplyCounts | src/dict-transformer/app.ts:29-54 | a blank line changes nothing; any other handled line counts once in `processed` and once in `added` or `skipped` |
| DictTransformer.RunOutcomesAppend | src/dict-transformer/app.ts:26-55 | handling lines one after another composes; after a failure nothing changes |
| DictTransformer.RunKeepsBalance | src/dict-transformer/app.ts:35-54 | after any handled sequence of lines, `processed == added + skipped` |
| DictTransformer.OutcomesKeepBalance | src/dict-transformer/app.ts:35-54 | the same over the line outcomes |
| DictTransformer.LastAddedWins | src/dict-transformer/app.ts:22-24 | a later stored line for a word overwrites the earlier value |
| DictTransformer.LineHandler.constructor | src/dict-transformer/app.ts:12 | the counters start at zero and the result empty |
| DictTransformer.LineHandler.OnLine | src/dict-transformer/app.ts:26-55 | the handler updates the counters and map exactly as one step of the fold; a line with fewer than three fields fails and changes nothing |
| DictTransformer.LineHandler.StoreWord | src/dict-transformer/app.ts:37-54 | a rejected word or a missing `'` counts the line as skipped; otherwise the word is stored with the stress index and counted as added |

## Left out

- File and console I/O are not modelled. Each dictionary is a parameter:
  - `fs.readFileSync` with `JSON.parse`: the JSON dictionary files are
    parameters, maps from words to numbers.
  - The text dictionary of `DynamicStressManager` is not read from
    `dict/dict.txt` but passed in as the reader's result, with its `NaN`
    entries kept.
  - `fs.existsSync`, `openSync` and `closeSync`: the text dictionary is an
    optional byte sequence.
  - `fs.writeFileSync` of the custom dictionary: a ghost list of the
    snapshots written.
  - The JSON output of the transformer.
  - Every `console.log`.
- `src/cli.ts`, `src/repl.ts`, the readline plumbing and `process.argv`
  of the transformer are not modelled, because they are input/output only.
- `src/nullStressManager.ts` is not part of this model: it returns
  "unknown" for every word. `src/reduplicatorOptions.ts` only declares a
  type.
- The engine that `src/hueficator.ts` extends (with `Vowel` and
  `VowelPairs`) is not part of this model, and neither is the binary-search
  dictionary over encoded records. The flavours are modelled as constant
  records only.
- The getters of the two flavours are modelled as the constant fields of a
  record. `Object.freeze` holds because a Dafny datatype value is
  immutable.
- A dictionary is modelled by its own keys only. A JavaScript object also
  answers inherited keys such as `constructor`, but no such key holds a
  Cyrillic vowel, so the engine's result is the same.
- Utf8.Decode: only one- and two-byte UTF-8 sequences are decoded. Each
  byte of a three- or four-byte sequence, and each invalid byte, decodes
  to U+FFFD, as `toString` does for a lone invalid byte. This is enough for
  Cyrillic, digits and ASCII, but not for full UTF-8.
- Strings are sequences of code points, while JavaScript strings count
  UTF-16 code units. The two differ only for characters outside the Basic
  Multilingual Plane, which take two code units. For such a word the model
  gives a different `word.length` in the length guard
  (`src/reduplicator.ts:50`), a different mark index from
  `split('')` (`src/dynamicStressManager.ts:47`) and a different
  `stress.indexOf("'")` (`src/dict-transformer/app.ts:45`). Cyrillic
  letters, digits and ASCII all lie in the Basic Multilingual Plane.
- CaseMapping.LowerChar: `toLowerCase`/`toUpperCase` are modelled only for
  Latin and the Cyrillic block U+0400–U+045F. Other characters are left
  unchanged.
- LineParser.ParseInt: `parseInt` is modelled only on strings of digits,
  as an unbounded natural. `NaN` (for an empty digit string) is `None`.
  JavaScript's double precision is not modelled.
- Thrown exceptions (`encode`, `decodeOne`, `read`, and the undefined
  field in the transformer) are `Failure` results.
- DictionaryReader.Read: the chunk size is the constant 1048576 of the
  code. The specification functions take it as a parameter.
- The loop of `read` and the line handler are split into helper
  methods (`ReadChunks`, `ReadNextChunk`, `FillBuffer`, `StoreWord`). Each helper is
  proved against the same specification functions.
- DictTransformer.IsJsWhitespace lists the characters that `String.trim`
  removes. No other Unicode property is modelled.
- A few facts are modelled as written, though they look unintended. No
  corrected version is given for them:
  - `isLetter` (in both `src/dictionaryReader.ts` and
    `src/encodingManager.ts`) has the Latin `a` as its lower bound. The
    range therefore also holds every character from `a` up to just before
    the Cyrillic `а`: the Latin lower-case letters and the upper-case
    Cyrillic letters among them, but not the upper-case Latin letters
    (`Encoding.LetterTestIsWiderThanAlphabet`).
  - The fold literal of `src/defaultStressManager.ts:17` and
    `src/dynamicStressDictionaryManager.ts:37` is mis-encoded. It is
    modelled as the substitution of the two characters U+0E31 U+0091 by
    U+0E30 U+0E15, which never touches a Cyrillic word.

## Findings

| source | as written | input that shows it | evidently intended | confidence | as-written member | corrected member |
|---|---|---|---|---|---|---|
| src/dictionaryReader.ts:36-38 | a read of zero bytes ends the loop at once, so the bytes carried from a full last chunk are never parsed; a file whose length is a multiple of the chunk size and that ends without a line feed loses its last line | the bytes of `я1\nб2` read in chunks of 7 bytes give `{я: 1}` | the last read, short or empty, parses what is carried as the end of the file, giving `{я: 1, б: 2}` | not executed | ReaderFindings.LostLastLine | DictionaryReader.CorrectedReadIsSinglePass |
| src/dictionaryReader.ts:40-55 | a full buffer without any line feed is parsed whole and also carried into the next buffer, so its text is read twice | the bytes of `яб1\n` read in chunks of 4 bytes give `{ябяб: 1}` | a buffer without a line feed is carried whole and not parsed, giving `{яб: 1}` | not executed | ReaderFindings.DuplicatedLongLine | ReaderFindings.LongLineCarried |
