# A verified model of a Chinese flashcard command-line tool

The tool keeps decks of Chinese words, one JSON file per deck, plus a metadata file
holding an ordered registry of deck names. It quizzes the user on the words of a deck in
four categories (Chinese to pinyin, Chinese to English, English to Chinese, English to
pinyin). Answers typed in keyboard tone notation are graded by rewriting them into pinyin
with tone marks (`maa` -> `má`).

This project models the logic of that tool in Dafny and proves what it promises:

- `outcomes.dfy`, module `Outcomes`: `Option`, `Result`, `Outcome`, and one `Error`
  constructor per exception the code throws.
- `text.dfy`, module `Text`: the string helpers of `src/utils.ts`. These are `trim`,
  `toLowerCase`, `compareStrings`, `isStringIncludedInArray`, `parseInt` (in base 10, and
  without a radix as the `list` command calls it) and `parseWordLevel`.
- `tone.dfy`, module `Tone`: the tone normaliser `parseTone`. `Normalize` is its
  specification and `ParseTone` is the loop as written, proved equal to it.
- `decks.dfy`, module `Decks`: the record types of `src/Store.ts`, the initial metadata
  and default deck, the registry filter and the word-map merge.
- `deck_store.dfy`, module `DeckStore`: the class `Store` of `src/Store.ts`.
  - Field `metadata` is the registry and API key in memory.
  - Field `savedMetadata` is the metadata file.
  - Field `files` maps each deck name to the deck file's contents.
  - The language-model results are parameters.
- `memory_store.dfy`, module `MemoryStore`: the older class `Store` of `src/store.ts`.
  - Field `decks` is the in-memory map.
  - Field `persisted` is the last snapshot written to `store.json`.
- `word_commands.dfy`, module `WordCommands`: the level arithmetic and the `list`,
  `set-level`, `level-up`, `level-down`, `unset-level` and `reset` commands of
  `src/word.ts`.
- `quiz.dfy`, module `Quiz`: the `test` action of `src/word.ts`.
  - It builds the category pools and runs the sampling loop.
  - `Math.random()` is replaced by caller-supplied rolls in `[0, 1)`.
  - Typed answers are a parameter.
  - Grading and tallies are modelled.

Three behaviours of the tone normaliser that are easy to misread:

- An input in which no shape matches gives the empty string, not the input.
- The lower-case double `vv` is the second tone, so `maa` gives `má`, not `mā`.
- The fourth shape `Vv` becomes the plain vowel, not the vowel with a grave accent.

## Model

| member | source | states |
|---|---|---|
| Text.TrimStart | src/utils.ts:44 | the result is a suffix of the input, starts with a non-blank and only white space was dropped |
| Text.TrimEnd | src/utils.ts:44 | the result is a prefix of the input, ends with a non-blank and only white space was dropped |
| Text.Trim | src/utils.ts:44 | the trimmed string is no longer than the input and starts and ends with a non-blank |
| Text.TrimSplits | src/utils.ts:44 | the input is white space, then its trim, then white space |
| Text.TrimStartSkips | src/utils.ts:44 | leading white space does not change the left trim |
| Text.TrimEndSkips | src/utils.ts:44 | trailing white space does not change the right trim |
| Text.TrimStartAppend | src/utils.ts:44 | left-trimming `a + q` with blank `q` is the left trim of `a` followed by `q`, or empty when `a` is blank |
| Text.TrimStartSkipsBefore | src/utils.ts:44 | blank padding in front of `a + q` does not change the left trim |
| Text.TrimPadded | src/utils.ts:44 | trimming recovers a string that starts and ends with a non-blank from any blank padding around it |
| Text.TrimIdempotent | src/utils.ts:44 | trimming twice equals trimming once |
| Text.TrimAbsorbsPadding | src/utils.ts:44 | adding blank padding around any string does not change its trim |
| Text.LowerChar | src/utils.ts:44 | an upper-case letter becomes the letter 32 code points above it, which is not upper case, and any other character is kept |
| Text.ToLower | src/utils.ts:44 | lowering keeps the length, lowers each character in place and leaves no upper-case letter |
| Text.ToLowerFixes | src/utils.ts:44 | a string without upper-case letters is its own lower-case form |
| Text.CompareIsEquivalence | src/utils.ts:43-45 | `compareStrings` is reflexive, symmetric and transitive |
| Text.CompareStrings | src/utils.ts:43-45 | strings with the same trim compare equal, and strings that compare equal have trims of the same length |
| Text.LowerTrimStart | src/utils.ts:44 | lowering and then left-trimming equals left-trimming and then lowering |
| Text.LowerTrimEnd | src/utils.ts:44 | lowering and then right-trimming equals right-trimming and then lowering |
| Text.CompareIgnoresCase | src/utils.ts:43-45 | two strings with the same lower-case form compare equal |
| Text.CompareIgnoresPadding | src/utils.ts:43-45 | blank padding around the first argument does not change the comparison |
| Text.IsStringIncludedInArray | src/utils.ts:47-49 | true exactly when some element compares equal to the string |
| Text.DigitPrefix | src/utils.ts:23 | the digit run `parseInt` reads is a prefix of digits that stops at the first non-digit |
| Text.Unsigned | src/utils.ts:23 | the unsigned reading fails exactly when the text does not start with a digit |
| Text.ParseInt | src/utils.ts:23 | `parseInt(s, 10)` is NaN exactly when, after leading white space and one optional sign, the text does not start with a digit |
| Text.DigitPrefixStops | src/utils.ts:23 | the digit run read stops at the first non-digit |
| Text.DigitsValueShowNat | src/utils.ts:23 | reading the decimal numeral of `n` gives `n` back |
| Text.DigitPrefixAll | src/utils.ts:23 | an all-digit string is read in full |
| Text.TrimStartUnpadded | src/utils.ts:23 | the white-space skip leaves a string that does not start with a blank unchanged |
| Text.UnsignedDigits | src/utils.ts:23 | a non-empty digit string reads as its decimal value |
| Text.ParseIntDigits | src/utils.ts:23 | `parseInt` of a non-empty digit string is its decimal value |
| Text.ParseIntNegative | src/utils.ts:23 | `parseInt` of a minus sign followed by digits is the negated value |
| Text.ParseIntMinusNumeral | src/utils.ts:23 | `parseInt` of `-` followed by the numeral of `m` is `-m` |
| Text.ParseIntShowNegative | src/utils.ts:23 | `parseInt` reads back the numeral of every negative integer |
| Text.ParseIntShowNat | src/utils.ts:23 | `parseInt` reads back the numeral of every natural number |
| Text.ParseIntShow | src/utils.ts:23 | round trip: `parseInt` of the decimal numeral of any integer `n` is `n` |
| Text.ParseWordLevel | src/utils.ts:22-28 | success gives a value in -1..10 that is `parseInt` of the input; failure is the level error; an input whose `parseInt` lies in -1..10 succeeds with that value |
| Text.ParseWordLevelShow | src/utils.ts:22-28 | the numeral of `n` is accepted with value `n` exactly when -1 <= n <= 10, and rejected otherwise |
| Text.HexDigit | src/word.ts:30 | a hexadecimal digit is worth less than 16, a decimal digit is worth its decimal value, and `x`, `X` and `g` are not hex digits |
| Text.HexRun | src/word.ts:30 | the hex digits read form the longest run of hex digits at the start of the text |
| Text.HexUnsigned | src/word.ts:30 | the hexadecimal reading fails exactly when the text does not start with a hex digit |
| Text.HexOneDigit | src/word.ts:30 | a single hex digit reads as its own value |
| Text.ParseIntAuto | src/word.ts:30 | `parseInt` without a radix: after a `0x` or `0X` prefix it is NaN exactly when no hex digit follows the prefix |
| Text.ParseIntAutoDecimal | src/word.ts:30-31 | without a hex prefix the radix-less and base-10 readings agree; with one, base 10 stops at the `x` and reads 0 |
| Text.DigitsNotHex | src/word.ts:30 | a run of decimal digits has no hex prefix |
| Text.ShowNotHex | src/word.ts:30 | the decimal numeral of any integer has no hex prefix |
| Text.ParseIntAutoHex | src/word.ts:30 | `0x10` reads as 16 without a radix |
| Text.ParseIntAutoNegativeHex | src/word.ts:30 | `-0x5` reads as -5 without a radix |
| Text.ParseIntAutoHexFive | src/word.ts:30-31 | `0x5` reads as 5 without a radix and as 0 in base 10 |
| Text.ParseIntAutoNoDigits | src/word.ts:30 | `0x` and `0xg` read as NaN without a radix |
| Tone.ReplaceAllAbsent | src/utils.ts:79 | a global replace of an absent pattern leaves the string unchanged |
| Tone.ReplaceAll | src/utils.ts:79 | a replacement no longer than the pattern never makes the string longer |
| Tone.ReplaceAllPresent | src/utils.ts:79 | after a global replace of a present pattern, the replacement occurs in the result |
| Tone.IncludesMismatch | src/utils.ts:77 | a pattern that mismatches in its first or second character at every position is not included |
| Tone.Includes | src/utils.ts:77 | a pattern that occurs is no longer than the string, and the empty pattern always occurs |
| Tone.IncludesExtend | src/utils.ts:77 | an occurrence stays an occurrence when a character is put in front |
| Tone.IncludesSuffix | src/utils.ts:77 | a pattern absent from a string is absent from each of its suffixes |
| Tone.ReplaceAllPrefix | src/utils.ts:79 | a prefix of the replaced string that avoids the replacement character is a prefix of the original |
| Tone.ReplaceAllRemoves | src/utils.ts:79 | every occurrence is replaced: a pattern that does not contain the replacement character no longer occurs in the result |
| Tone.ReplaceAllRemovesPair | src/utils.ts:96 | every `Vv` is replaced by `v`: the pattern does not re-form when the string holds no `VV` |
| Tone.ToneTable | src/utils.ts:55-62 | each vowel has five table entries |
| Tone.TablePlain | src/utils.ts:56-61 | entry 0 of each vowel's table is the plain vowel |
| Tone.TableMarked | src/utils.ts:56-61 | entries 1 to 3 of each vowel's table differ from the vowel in either case |
| Tone.Pattern | src/utils.ts:77-95 | each typed shape is two or three characters long |
| Tone.FirstPattern | src/utils.ts:77-99 | the first of the four shapes of a vowel that occurs; none when no shape occurs |
| Tone.NormalizeFromSkips | src/utils.ts:76-100 | vowels with no matching shape are passed over |
| Tone.NormalizeFromStep | src/utils.ts:76-100 | a vowel with no matching shape passes the work on to the next vowel |
| Tone.Normalize | src/utils.ts:70-102 | the normalised pinyin is never longer than the typed input |
| Tone.NormalizeEmpty | src/utils.ts:70-72 | the empty input gives the empty string |
| Tone.NormalizeSelected | src/utils.ts:76-100 | the first shape of the first matching vowel is replaced everywhere; shapes 1-3 by their tone mark, shape 4 by the plain vowel |
| Tone.NormalizeNoShape | src/utils.ts:74-102 | without any shape the result is the empty string, not the input |
| Tone.SomeSelected | src/utils.ts:76-100 | when any shape occurs, one vowel and shape are selected by the priority rule |
| Tone.NormalizeEmptyIff | src/utils.ts:70-102 | the result is empty exactly when the input holds no shape |
| Tone.NormalizeRemovesShape | src/utils.ts:76-100 | the selected shape no longer occurs anywhere in the result |
| Tone.RemovesFourthShape | src/utils.ts:95-98 | after shape 4 is replaced, no `Vv` remains, because shape 1 `VV` was absent |
| Tone.RemovesMarkedShape | src/utils.ts:77-92 | after shape 1, 2 or 3 is replaced by its tone mark, that shape no longer occurs |
| Tone.NormalizeExampleFirst | src/utils.ts:77-80 | `mAA` becomes `mā` |
| Tone.NormalizeExampleSecond | src/utils.ts:83-86 | `maa` becomes `má` |
| Tone.NormalizeExampleThird | src/utils.ts:89-92 | `mAaA` becomes `mǎ`: the triplet wins over the shape `Aa` it contains |
| Tone.NormalizeExampleFourth | src/utils.ts:95-98 | `mAa` becomes `ma`, the plain vowel |
| Tone.NormalizeExampleTwice | src/utils.ts:83-86 | `maamaa` becomes `mámá`: both occurrences are rewritten |
| Tone.ReplaceAllTwice | src/utils.ts:85 | both `aa` of `maamaa` are replaced, left to right |
| Tone.ParseTone | src/utils.ts:52-103 | the loop with its `break`s computes the normaliser's specification |
| Decks.Occurrences | src/Store.ts:156-158 | a name is registered exactly when it occurs at least once |
| Decks.OccurrencesAppend | src/Store.ts:132 | appending a name to the registry adds one occurrence of it and none of any other name |
| Decks.Without | src/Store.ts:177 | the filter removes every copy of the name, keeps every other name and its count, and changes nothing when the name is absent; the order is stated by `Decks.WithoutAppend` and `Decks.WithoutSingle` |
| Decks.WithoutAppend | src/Store.ts:177 | the filter keeps the order of the remaining names: filtering a concatenation filters each part in place |
| Decks.WithoutSingle | src/Store.ts:177 | a single entry is dropped exactly when it is the name |
| Decks.WithoutDistinct | src/Store.ts:177 | filtering keeps a registry free of duplicates |
| Decks.AppendDistinct | src/Store.ts:165 | appending a new name keeps a registry free of duplicates |
| Decks.MergeWords | src/Store.ts:94-98 | the merged map has both key sets; target records win, source records fill the rest |
| Decks.MergeIdempotent | src/Store.ts:83-100 | merging the same source twice gives the words of merging it once |
| Decks.MergeSelf | src/Store.ts:94-98 | merging a word map into itself changes nothing |
| DeckStore.NewWord | src/Store.ts:200-204 | translations trimmed one by one, `comment \|\| data.comment \|\| ""`, `level ?? -1`, the creation time, and the generated fields kept |
| DeckStore.CopyMissingWords | src/Store.ts:94-98 | the copy loop computes the merge of the two word maps |
| DeckStore.Store.constructor | src/Store.ts:18-24 | the store starts from the metadata file and the deck folder as read |
| DeckStore.Store.LoadDeck | src/Store.ts:30-43 | the deck file's contents when it exists, and the not-found error for that name otherwise |
| DeckStore.Store.FirstRun | src/Store.ts:284-292 | first run: registry `["default"]` and an empty default deck described "Default Deck"; consistent and free of duplicates |
| DeckStore.Store.SaveDeck | src/Store.ts:45-52 | writes exactly that deck file |
| DeckStore.Store.DeleteDeckFile | src/Store.ts:54-56 | removes exactly that deck file; fails when it does not exist |
| DeckStore.Store.PersistMetadata | src/Store.ts:58-60 | the metadata file becomes the in-memory metadata |
| DeckStore.Store.SetLlmApiKey | src/Store.ts:62-66 | sets the key and persists the metadata; the deck files are untouched |
| DeckStore.Store.GetDeck | src/Store.ts:76-81 | found exactly when the name is registered and its file exists; otherwise the not-found error |
| DeckStore.Store.HasDeck | src/Store.ts:156-158 | true exactly when the name occurs in the registry; an unregistered name makes `getDeck` fail with the not-found error |
| DeckStore.Store.ListDecks | src/Store.ts:68-74 | one entry per registered name with its file, or the error for the first registered name, in registry order, whose file is missing |
| DeckStore.Store.MergeDecks | src/Store.ts:83-108 | error order; copy of missing words; the source is always unregistered and its file deleted only with `deleteSource`; the registry's invariants are kept |
| DeckStore.Store.SaveAndRegister | src/Store.ts:131-133 | saves the deck, appends the name once and persists |
| DeckStore.Store.ImportByMerge | src/Store.ts:116-122 | the staged `<name>-temp` deck is never registered, so the merge fails unless that name was registered already; on every failure the staged file stays written and the registry and metadata file are unchanged |
| DeckStore.Store.ImportDeck | src/Store.ts:110-134 | new names are saved and registered; both or neither flag fail; replace registers the name a second time; merge fails as above, leaving the staged file written and the registry unchanged |
| DeckStore.Store.CloneDeck | src/Store.ts:136-154 | error order; the new deck copies words, phrases (empty when absent) and description; the target is appended |
| DeckStore.Store.AddDeck | src/Store.ts:160-168 | fails on a registered name, otherwise appends it and writes `{words: {}, description: description \|\| ""}` |
| DeckStore.Store.RemoveDeck | src/Store.ts:170-180 | `default` is refused first, then unregistered names; otherwise the name is unregistered and its file deleted, and no other deck changes |
| DeckStore.Store.GetDeckWord | src/Store.ts:182-187 | the word's record, or the deck or word not-found error |
| DeckStore.Store.SetWordComment | src/Store.ts:189-194 | only that word's comment changes; a missing deck or word fails with nothing changed |
| DeckStore.Store.AddDeckWord | src/Store.ts:196-209 | a duplicate fails before the generator is used; otherwise exactly the new record is added |
| DeckStore.Store.RemoveDeckWord | src/Store.ts:211-216 | only that word is removed; a missing deck or word fails with nothing changed |
| DeckStore.Store.UpdateDeckWord | src/Store.ts:218-224 | only that word's record is replaced, and the new record is returned |
| DeckStore.Store.DeckHasWord | src/Store.ts:226-229 | membership of the word key in an existing deck file |
| DeckStore.Store.ListDeckWords | src/Store.ts:231-234 | exactly the words `getDeckWord` finds, with their records; a missing deck file gives the not-found error for that name |
| DeckStore.Store.GenerateDeckPhrase | src/Store.ts:236-250 | error order (deck, empty word list, generator, blank phrase); the note defaults to `""` |
| MemoryStore.Store.constructor | src/store.ts:6-8 | the store starts from the decks read from `store.json` |
| MemoryStore.Store.Persist | src/store.ts:94-103 | the snapshot becomes the in-memory decks |
| MemoryStore.Store.GetDeck | src/store.ts:14-19 | the deck, or the not-found error |
| MemoryStore.Store.HasDeck | src/store.ts:21-23 | true exactly when `getDeck` would find the deck |
| MemoryStore.Store.RemoveDeck | src/store.ts:25-32 | a missing deck fails; otherwise exactly that key is deleted after persisting, so the snapshot still holds it |
| MemoryStore.Store.AddDeck | src/store.ts:34-41 | an existing deck fails; otherwise exactly that key is added, empty, with `description \|\| ""` |
| MemoryStore.Store.AddDeckWord | src/store.ts:43-53 | a missing deck or an existing word fails; otherwise exactly that word is added |
| MemoryStore.Store.RemoveDeckWord | src/store.ts:55-65 | a missing deck or word fails; otherwise only that word is deleted |
| MemoryStore.Store.UpdateDeckWord | src/store.ts:67-77 | a missing deck or word fails; otherwise only that word's record is replaced |
| MemoryStore.Store.DeckHasWord | src/store.ts:79-84 | a missing deck fails; otherwise membership of the word key |
| MemoryStore.Store.ListDeckWords | src/store.ts:86-92 | a missing deck fails; otherwise the deck's word map |
| MemoryStore.AddThenRemoveWord | src/store.ts:43-65 | adding a new word and removing it restores the decks |
| MemoryStore.AddThenRemoveDeck | src/store.ts:25-41 | adding a new deck and removing it restores the decks, but the snapshot keeps the deck |
| WordCommands.LevelUp | src/word.ts:147 | `min(level + 1, 10)` |
| WordCommands.LevelDown | src/word.ts:163 | `max(level - 1, 0)` |
| WordCommands.LevelStepsStayValid | src/word.ts:147-163 | from a valid level both steps land in 0..10, up never lowers and down never raises |
| WordCommands.LevelStepsInverse | src/word.ts:147-163 | up and down undo each other inside the range and saturate at 10 and 0 |
| WordCommands.UnsetSteps | src/word.ts:147-179 | the unset level -1 goes to 0 both up and down |
| WordCommands.NextLevel | src/word.ts:126-185 | `level-up` and `level-down` write the stepped level, `unset-level` writes -1 and `set-level` writes the parsed level or fails exactly on an invalid one; a valid level stays valid |
| WordCommands.ChangeLevel | src/word.ts:126-185 | reads the word, changes only its level, writes it back; a missing deck or word, or an invalid level, changes nothing |
| WordCommands.LevelFilter | src/word.ts:30-35 | the guard reads the option with `parseInt` and no radix; when it reads a number in -1..10, exactly the words at the level `parseWordLevel` reads in base 10 stay; otherwise all words |
| WordCommands.FilterByShownLevel | src/word.ts:30-35 | filtering by the numeral of a valid level keeps exactly the words at that level |
| WordCommands.FilterByGuardedLevel | src/word.ts:30-35 | once the guard accepts the option, the words kept are those at the base-10 level, whatever the guard read |
| WordCommands.FilterHexOutOfRange | src/word.ts:30-35 | `--level 0x10` reads as 16 in the guard, so every word is listed |
| WordCommands.FilterHexInRange | src/word.ts:30-35 | `--level 0x5` passes the guard as 5 but filters at level 0 |
| WordCommands.ListCommand | src/word.ts:25-35 | a missing deck fails; otherwise the filtered word map |
| WordCommands.ResetCommand | src/word.ts:65-76 | removing the words one by one leaves the deck with no words and changes nothing else |
| Quiz.AllKindsListed | src/word.ts:220-225 | the four categories are listed |
| Quiz.KindName | src/word.ts:220-225 | no category is called `mixed` |
| Quiz.Eligible | src/word.ts:221-224 | a word with neither pinyin nor translations is eligible for no category, and an ineligible word lacks one of them |
| Quiz.EligiblePairs | src/word.ts:221-224 | the two pinyin categories share their pools' filter, and so do the two translation categories |
| Quiz.ParseMode | src/word.ts:235-243 | `mixed`, one of the four category names, or unknown, each exactly when the text says so |
| Quiz.PoolOf | src/word.ts:221-224 | a category's pool holds exactly the deck's words eligible for it, without duplicates |
| Quiz.ModeKinds | src/word.ts:235-243 | the categories in play: all four, or the single one named |
| Quiz.InitialPools | src/word.ts:220-243 | one pool per category in play, each the eligible words |
| Quiz.Size | src/word.ts:253 | the remaining count is at least the length of each pool in play |
| Quiz.SizeUpdate | src/word.ts:253 | replacing one pool changes the remaining count by the difference in its length |
| Quiz.SizeFrame | src/word.ts:253 | a pool of a category not in play does not count |
| Quiz.SizeAppend | src/word.ts:253 | the remaining count over two key lists adds up |
| Quiz.SizeDelete | src/word.ts:269-271 | deleting an empty category does not change the remaining count |
| Quiz.SizeRestrict | src/word.ts:253 | dropping a pool that is not in play does not change the count |
| Quiz.SizeZero | src/word.ts:253-257 | the remaining count is zero exactly when every pool in play is empty |
| Quiz.Pick | src/word.ts:261-263 | `Math.floor(roll * n)` is a valid index when `n > 0` |
| Quiz.UntonedAnswerRejected | src/word.ts:276 | a Chinese-to-pinyin answer with no tone shape is wrong when the word has pinyin |
| Quiz.IsCorrect | src/word.ts:276-312 | the word itself is accepted for English to Chinese, and any listed translation for Chinese to English |
| Quiz.WordItselfAccepted | src/word.ts:300 | the word itself, with any blank padding, is accepted for English to Chinese |
| Quiz.TranslationAccepted | src/word.ts:288 | any listed translation, with any blank padding, is accepted for Chinese to English |
| Quiz.GradedAt | src/word.ts:273-324 | every recorded grade is the verdict on the answer typed in that round |
| Quiz.GradedStep | src/word.ts:273-324 | grading one more round extends the record |
| Quiz.Successes | src/word.ts:277 | every success word was asked and graded correct |
| Quiz.Failures | src/word.ts:280-316 | every word in a category's error list was asked in that category and graded wrong |
| Quiz.ErrorLists | src/word.ts:227-232 | one error list per category |
| Quiz.TallyAddsUp | src/word.ts:327 | successes plus total errors equal the number of questions asked |
| Quiz.TotalErrors | src/word.ts:327 | the total is at least each error list's length, and zero exactly when every list is empty |
| Quiz.ErrorListsBounded | src/word.ts:327 | each category's error list is part of the sum |
| Quiz.TallyStep | src/word.ts:273-324 | each round adds the word to the successes or to exactly its category's error list |
| Quiz.SuccessesStep | src/word.ts:277-278 | a correct answer appends its word to the successes; a wrong one leaves them |
| Quiz.ErrorListsStep | src/word.ts:280-316 | a wrong answer appends its word to exactly its category's error list |
| Quiz.FailuresStep | src/word.ts:280-316 | one category's error list grows by the word exactly on a wrong answer in that category |
| Quiz.Pairs | src/word.ts:265-268 | the (category, word) pairs still in the pools |
| Quiz.DropAt | src/word.ts:268 | `splice` of one element keeps every other element and no duplicates |
| Quiz.Remove | src/word.ts:268-271 | exactly the drawn pair leaves the pools, an emptied category is deleted, and the count drops by one |
| Quiz.Grade | src/word.ts:273-324 | the grade is the category's correctness rule |
| Quiz.HistoryStep | src/word.ts:261-271 | asking a pair still in the pools keeps the asked pairs distinct |
| Quiz.AskedStart | src/word.ts:245-248 | before the first round the record of questions asked is empty and consistent |
| Quiz.AskedStep | src/word.ts:259-324 | asking and grading a pair still in the pools extends the record: distinct, from the deck, graded |
| Quiz.AskedEnd | src/word.ts:248-327 | the record gives distinct questions from the initial pools, each word in the deck and each graded |
| Quiz.PoolsStep | src/word.ts:265-271 | removing one pair keeps the pools valid, within the initial pairs, and empty only where they started empty |
| Quiz.Round | src/word.ts:259-324 | one draw removes one pair and grades it, or finds an empty pool that was never removed |
| Quiz.Turn | src/word.ts:259-324 | one pass of the loop body: the pools lose the drawn pair, the word joins the successes or its category's errors, and the loop's invariants carry over; an empty pool is drawn only in mixed mode |
| Quiz.Rounds | src/word.ts:245-327 | no pair asked twice, at most `number` rounds, early stop only when the pools are exhausted, tallies that add up |
| Quiz.Test | src/word.ts:213-327 | empty deck and unknown kind end before the first round; otherwise the guarantees of the loop; an empty pool drawn only in mixed mode |
| Quiz.TestDeck | src/word.ts:213-218 | an unknown deck fails, an empty deck ends the test at once, and no more than `number` words are asked |

## Left out

- File-system and JSON mechanics: deck files are a map from name to deck, and the metadata file is a field. Paths, encodings, the config directory and JSON parsing are not modelled.
- Failures of `writeFileSync` and `readFileSync` other than a missing deck file are not modelled.
- The empty-or-corrupted file error of `loadDeck` is not modelled: a deck file in the map always holds a deck.
- `getStore`: directory creation and the seeding of base decks from the package's `base_decks` folder are I/O. Only the resulting first-run state is modelled, by `DeckStore.Store.FirstRun`.
- The ENOENT fallback of the older store's `getStore` is I/O.
- The older store's `listDecks` returns its map unchanged. The model reads the field `decks` directly.
- `src/llm.ts` is a network client. `getWordData` and `generatePhrase` results are parameters (`generated`), including their failure.
- `Math.random()` is replaced by caller-supplied rolls in `[0, 1)`.
- Prompts, `askQuestion` and all console output are left out. Typed answers are a parameter, and the test ends in a `Report` value.
- `async`/`await` is treated as sequential code.
- `trim` and `toLowerCase` are modelled on ASCII only: space, tab, line feed, vertical tab, form feed and carriage return, and the letters A-Z.
- Unicode white space and case mappings are not modelled.
- `parseInt` is modelled in base 10 and without a radix, where a `0x` or `0X` prefix selects base 16. No other radix is used by the code. NaN is `None`. Numbers are exact integers, so the floating-point rounding of very long digit runs is not modelled.
- `src/index.ts`, `src/deck.ts` and `src/phrase.ts` are command-line wiring and a phrase loop, and are not part of this model.
- The `comment` and `count` commands of `src/word.ts` are not modelled. `comment` never writes the comment it is given, and `count` only prints.
- The `-k, --kind` flag takes no argument. The kind is a plain string parameter of `Quiz.Test`.
- Object keys are modelled as own properties only. Names inherited from `Object.prototype` (`constructor`, `toString`, `hasOwnProperty`) look present to the code's truthiness tests on plain objects, and that is not modelled.
- Records missing a required field are not modelled. A word without `translations`, for instance, makes the pool filter at `src/word.ts:222` throw a TypeError.
- Extra fields a deck file might carry beyond those of the record types are not modelled.
- A TypeError after an empty pool is drawn in mixed mode is modelled as the `Aborted` report. The tallies printed up to that point are not modelled.
- A deck word keyed `undefined` is not modelled. When an empty pool is drawn, the undefined word is looked up under the key `"undefined"` and finds that word's record. Then only English to Chinese throws, and the other three categories grade the answer and go on. The model reports `Aborted` in every such case.
- `Quiz.Successes`, `Quiz.Failures`: their own contracts state only where each listed word comes from. The full tallies are fixed by their definitions, which `Quiz.Rounds` and `Quiz.TallyStep` use.
- `Quiz.TestDeck`: states only the deck lookup, the empty deck and the round bound. The rest is the contract of `Quiz.Test`, which it calls.
