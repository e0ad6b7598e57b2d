# syllabreak, modelled in Dafny

`syllabreak` is a dictionary-free syllabifier and language detector. It works
from a set of per-language rule records.

- **Language detection.** `detectLanguage(text)` ranks the rules by how much
  of the text's letters each rule covers. A rule that owns a character no
  other language has gets a boost.
- **Syllabification.** `syllabify(text, lang)` splits the text into word and
  non-word runs and syllabifies every word with one rule.
- **Per word.** The word is split into grapheme units (vowel, consonant,
  separator, other). Then the syllable nuclei are found, at most one boundary
  is placed between each pair of adjacent nuclei, and the word is rebuilt
  with a soft hyphen before every boundary.

This project models that core and proves what it promises:

- every character is consumed exactly once;
- the text and every word are rebuilt exactly;
- boundaries are strictly increasing, lie inside the word and each leaves a
  nucleus in every syllable;
- the rule-specific boundary choices;
- the unique-character sets;
- the coverage score;
- the stable descending ranking;
- the driver's early returns.

The model follows the Kotlin sources file by file:

| Dafny file | source |
|---|---|
| `Token.dfy` | `Token.kt` |
| `LanguageRule.dfy` | `LanguageRule.kt` |
| `MetaRule.dfy` | `MetaRule.kt` |
| `WordTokenizer.dfy` | `Tokenizer`, the word/non-word split, in `Tokenizer.kt` |
| `SyllableTokenizer.dfy` | `SyllableTokenizer` in `Tokenizer.kt` |
| `Nuclei.dfy` | `findNuclei` in `WordSyllabifier.kt` |
| `Boundaries.dfy` | boundary placement in `WordSyllabifier.kt` |
| `WordSyllabifier.dfy` | `WordSyllabification.syllabify` and `WordSyllabifier` |
| `Syllabreak.dfy` | `Syllabreak.kt` |

`Text.dfy` holds the string helpers and the Unicode parameter. `Examples.dfy`
works the two documented examples through the model with a small
English-like rule: `syllabify("hello")` gives `"hel-lo"` and
`syllabify("problem", "eng")` gives `"pro-blem"`. It also shows a text of
combining marks split by a rule that names its language.

**How the code is modelled.**

- Each imperative routine is a Dafny `method` with the same loops. It is
  proved equal to a specification function.
- The properties are proved as lemmas about those functions.
- `SyllableTokenizer` keeps its mutable `tokens`/`pos` fields as a `class`.
  Its step methods are specified against the pure step functions.
- `WordSyllabification` and `Syllabreak` hold fields that are set once, as
  `const` fields.

**Where the sources disagree, the model follows the code.**

- The `LanguageRule` declaration (`LanguageRule.kt:3-17`) lacks five fields
  that `WordSyllabifier.kt` reads: `splitHiatus`, `finalSemivowels`,
  `finalSequencesKeep`, `suffixesBreakVre` and `suffixesKeepVre`. The record
  here has all of them, and `uniqueChars` is filled in by the rule-set
  builder.
- The `syllabify` documentation says an unknown language code throws. The
  code returns the text unchanged, and so does the model
  (`UnknownLangUnchanged`).
- A text with no letters is said to come back unchanged whatever the
  language. With a language code the code does not check for letters: a
  word made only of combining marks is still syllabified when the rule
  counts a mark as a vowel (`Examples.MarksSplit`). The model follows the
  code. It proves the claim for texts with neither letters nor marks
  (`NoWordCharsUnchanged`). Without a code it proves the claim for any
  text with no letter (`NoLettersAutoUnchanged`).

## Model

| member | source | states |
|---|---|---|
| Text.Lower | src/main/kotlin/fm/apakabar/syllabreak/Tokenizer.kt:44 | lower-casing preserves length (it is per character, as the code's indexing of `wordLower` by positions of `word` assumes) |
| Text.LowerAppend | src/main/kotlin/fm/apakabar/syllabreak/WordSyllabifier.kt:178 | lower-casing distributes over concatenation, so lower-casing two surfaces and joining them equals lower-casing the joined surface |
| Text.JoinEmptySeparator | src/main/kotlin/fm/apakabar/syllabreak/Syllabreak.kt:127-132 | joining with the empty separator is plain concatenation |
| Text.JoinLength | src/main/kotlin/fm/apakabar/syllabreak/WordSyllabifier.kt:359-368 | a join of n pieces is as long as the pieces plus n-1 separators: one separator per gap |
| Text.Indices | src/main/kotlin/fm/apakabar/syllabreak/WordSyllabifier.kt:30-34 | an index-order scan collects exactly the indices below n that satisfy the test, strictly increasing |
| LanguageRules.AllCharsIgnoresOtherSets | src/main/kotlin/fm/apakabar/syllabreak/LanguageRule.kt:18-19 | `allChars` is exactly vowels ∪ consonants ∪ the three modifier sets; sonorants, glides, syllabic consonants and unique characters never change it |
| LanguageRules.CleanText | src/main/kotlin/fm/apakabar/syllabreak/LanguageRule.kt:43 | the filtered text is no longer than the text |
| LanguageRules.CleanTextLetters | src/main/kotlin/fm/apakabar/syllabreak/LanguageRule.kt:43 | a character is in the filtered text iff it is the lower-case form of some character of the text and is a letter |
| LanguageRules.CountInExtremes | src/main/kotlin/fm/apakabar/syllabreak/LanguageRule.kt:49-54 | the match count equals the length iff every character is in the set, and is positive iff some character is |
| LanguageRules.MatchScore | src/main/kotlin/fm/apakabar/syllabreak/LanguageRule.kt:40-57 | the score lies in [0, 1]; it is 0 when no letter remains after filtering, and otherwise its denominator is the number of filtered letters |
| LanguageRules.MatchScorePositive | src/main/kotlin/fm/apakabar/syllabreak/LanguageRule.kt:46-56 | the score is positive iff some filtered letter is in `allChars` |
| LanguageRules.MatchScoreFull | src/main/kotlin/fm/apakabar/syllabreak/LanguageRule.kt:46-56 | the score is 1 iff there is a filtered letter and every filtered letter is in `allChars` |
| LanguageRules.NonLetterIgnored | src/main/kotlin/fm/apakabar/syllabreak/LanguageRule.kt:43 | inserting a character that is not a letter after lower-casing never changes the score |
| LanguageRules.CalculateMatchScore | src/main/kotlin/fm/apakabar/syllabreak/LanguageRule.kt:40-57 | the counting loop returns the score whose bounds and iff-properties are proved above |
| MetaRules.UniqueCharsSnoc | src/main/kotlin/fm/apakabar/syllabreak/MetaRule.kt:8-12 | each further rule removes its `allChars` from the unique set exactly when its language differs |
| MetaRules.BuildMetaRule | src/main/kotlin/fm/apakabar/syllabreak/MetaRule.kt:4-15 | the rule set keeps every rule, in order, changing only its `uniqueChars` |
| MetaRules.BuildMetaRuleUniqueChars | src/main/kotlin/fm/apakabar/syllabreak/MetaRule.kt:4-15 | a rule's unique characters are a subset of its `allChars`, meet no other-language rule's `allChars`, and contain every character of its own no other language has |
| MetaRules.UniqueCharsDisjoint | src/main/kotlin/fm/apakabar/syllabreak/MetaRule.kt:8-12 | rules of different languages have disjoint unique characters |
| MetaRules.BuildIgnoresPriorUniqueChars | src/main/kotlin/fm/apakabar/syllabreak/LanguageRule.kt:21 | the rule set is the same whether the rules come in with empty (the default) or any other `uniqueChars` |
| MetaRules.NewMetaRule | src/main/kotlin/fm/apakabar/syllabreak/MetaRule.kt:4-15 | the `toMutableSet`/`removeAll` loops build exactly the rule set specified above |
| MetaRules.AllKnownChars | src/main/kotlin/fm/apakabar/syllabreak/MetaRule.kt:17-19 | a character is known iff some rule's `allChars` contains it |
| MetaRules.DetectionScore | src/main/kotlin/fm/apakabar/syllabreak/MetaRule.kt:30-36 | the ranking score is a score in [0, 1], positive exactly when the coverage score is, on the filtered-letter denominator |
| MetaRules.DetectionScoreBoost | src/main/kotlin/fm/apakabar/syllabreak/MetaRule.kt:33-35 | a matching rule with non-empty unique characters that meet the filtered text scores 1.0; a rule whose unique characters do not meet it keeps its coverage score |
| MetaRules.ScoresAt | src/main/kotlin/fm/apakabar/syllabreak/MetaRule.kt:29-30 | the i-th score is the detection score of the i-th rule |
| MetaRules.CollectedSound | src/main/kotlin/fm/apakabar/syllabreak/MetaRule.kt:29-38 | the collected pairs are in rule order, each one a rule with positive score and that rule's score |
| MetaRules.CollectedComplete | src/main/kotlin/fm/apakabar/syllabreak/MetaRule.kt:29-38 | every rule with a positive score is collected |
| MetaRules.InsertPos | src/main/kotlin/fm/apakabar/syllabreak/MetaRule.kt:41 | a new pair goes after every pair that is not lower and before the first lower one |
| MetaRules.SortByScoreDescending | src/main/kotlin/fm/apakabar/syllabreak/MetaRule.kt:41 | the sort is a permutation of its input |
| MetaRules.SortKeepsMembers | src/main/kotlin/fm/apakabar/syllabreak/MetaRule.kt:41 | the sort keeps exactly the pairs it was given |
| MetaRules.SortByScoreDescendingCorrect | src/main/kotlin/fm/apakabar/syllabreak/MetaRule.kt:41 | the sort is non-increasing in score and stable: equal scores keep rule order |
| MetaRules.RankedScores | src/main/kotlin/fm/apakabar/syllabreak/MetaRule.kt:21-42 | every ranked pair names a rule of the set |
| MetaRules.RankedRules | src/main/kotlin/fm/apakabar/syllabreak/MetaRule.kt:41 | the result has one rule per ranked pair, each taken from the rule set |
| MetaRules.RankedScoresSound | src/main/kotlin/fm/apakabar/syllabreak/MetaRule.kt:29-38 | every ranked rule has a positive coverage score and carries its detection score |
| MetaRules.RankedScoresComplete | src/main/kotlin/fm/apakabar/syllabreak/MetaRule.kt:29-38 | every rule with a positive coverage score is ranked |
| MetaRules.RankedScoresMembers | src/main/kotlin/fm/apakabar/syllabreak/MetaRule.kt:22-38 | the ranking is empty when no letter remains, and holds exactly the rules with positive score |
| MetaRules.RankedScoresOrder | src/main/kotlin/fm/apakabar/syllabreak/MetaRule.kt:41 | the ranking is sorted by non-increasing score, stable, and names each rule at most once |
| MetaRules.UniqueCharRanksFirst | src/main/kotlin/fm/apakabar/syllabreak/MetaRule.kt:29-41 | if the text meets rule R's unique characters and no other rule's, R ranks first, whether or not other rules share R's language code |
| MetaRules.SameCodeBelowMaximum | src/main/kotlin/fm/apakabar/syllabreak/MetaRule.kt:4-15 | a rule sharing R's language code that does not meet the text's unique characters lacks R's unique character found in the text, so it scores below the maximum |
| MetaRules.CollectMatches | src/main/kotlin/fm/apakabar/syllabreak/MetaRule.kt:27-38 | the scoring loop collects exactly the sound and complete pair list above |
| MetaRules.FindMatches | src/main/kotlin/fm/apakabar/syllabreak/MetaRule.kt:21-42 | `findMatches` returns the ranked rules, with the early returns for empty and letter-free text |
| WordTokenizer.RunEnd | src/main/kotlin/fm/apakabar/syllabreak/Tokenizer.kt:7-34 | a run ends inside the text, at or after its start |
| WordTokenizer.RunEndIs | src/main/kotlin/fm/apakabar/syllabreak/Tokenizer.kt:7-34 | any position that closes a homogeneous stretch is the run's end |
| WordTokenizer.RunEndStops | src/main/kotlin/fm/apakabar/syllabreak/Tokenizer.kt:7-34 | a run is maximal: all its characters are of one kind and the next one is not |
| WordTokenizer.TokensFromStep | src/main/kotlin/fm/apakabar/syllabreak/Tokenizer.kt:5-37 | a maximal run becomes one token of its kind, followed by the tokens of the rest |
| WordTokenizer.TokensFromWellFormed | src/main/kotlin/fm/apakabar/syllabreak/Tokenizer.kt:7-34 | no token is empty, each token is all letter/mark or all not, and WORD and NON_WORD alternate |
| WordTokenizer.TokensFromRebuild | src/main/kotlin/fm/apakabar/syllabreak/Tokenizer.kt:5-37 | the token texts concatenate to the rest of the text |
| WordTokenizer.TokensFromUnique | src/main/kotlin/fm/apakabar/syllabreak/Tokenizer.kt:5-37 | any well-formed token list that rebuilds the text is this one |
| WordTokenizer.WordTokensRebuild | src/main/kotlin/fm/apakabar/syllabreak/Tokenizer.kt:5-37 | the token texts concatenate to the input, and the empty input alone gives no tokens |
| WordTokenizer.WordTokensWellFormed | src/main/kotlin/fm/apakabar/syllabreak/Tokenizer.kt:7-34 | the tokens of a text are non-empty, maximal and alternating |
| WordTokenizer.ScanRun | src/main/kotlin/fm/apakabar/syllabreak/Tokenizer.kt:7-34 | the scanning loop stops at the run's end |
| WordTokenizer.MatchStep | src/main/kotlin/fm/apakabar/syllabreak/Tokenizer.kt:10-28 | one regex match adds the NON_WORD gap before it, if any, and the WORD match itself |
| WordTokenizer.NoMoreMatches | src/main/kotlin/fm/apakabar/syllabreak/Tokenizer.kt:31-34 | a trailing stretch with no match becomes one NON_WORD token |
| WordTokenizer.Tokenize | src/main/kotlin/fm/apakabar/syllabreak/Tokenizer.kt:5-37 | `tokenize` returns the unique well-formed, text-rebuilding token list |
| SyllableTokenizers.Step | src/main/kotlin/fm/apakabar/syllabreak/Tokenizer.kt:49-57 | each iteration consumes 1 to 3 characters and never passes the end of the word |
| SyllableTokenizers.RunFrom | src/main/kotlin/fm/apakabar/syllabreak/Tokenizer.kt:48-59 | the loop ends with the whole word consumed |
| SyllableTokenizers.StepTiles | src/main/kotlin/fm/apakabar/syllabreak/Tokenizer.kt:49-57 | one iteration keeps the units tiling the consumed prefix |
| SyllableTokenizers.RunFromTiles | src/main/kotlin/fm/apakabar/syllabreak/Tokenizer.kt:48-59 | the loop keeps the units tiling the prefix up to the whole word |
| SyllableTokenizers.TilesSpell | src/main/kotlin/fm/apakabar/syllabreak/Token.kt:20-27 | tiling units spell the prefix they cover |
| SyllableTokenizers.TilesSpans | src/main/kotlin/fm/apakabar/syllabreak/Token.kt:20-27 | each tiling unit's surface is its `[startIdx, endIdx)` slice, the spans are consecutive and non-empty, from 0 to the covered end |
| SyllableTokenizers.SyllableTokensTile | src/main/kotlin/fm/apakabar/syllabreak/Tokenizer.kt:48-167 | the unit surfaces concatenate to the word and the spans tile `[0, word.length)`: every character is consumed exactly once |
| SyllableTokenizers.StepKeepsEarlierUnits | src/main/kotlin/fm/apakabar/syllabreak/Tokenizer.kt:61-82 | a left modifier after a unit extends only that unit (surface, `endIdx`, `isModifier`); every other step appends one unit and changes none before it |
| SyllableTokenizers.StepClass | src/main/kotlin/fm/apakabar/syllabreak/Tokenizer.kt:50-56 | the priority order: left modifier (OTHER), separator, consonant digraph of length 2 then 1 (CONSONANT), vowel digraph of length 3 then 2 (VOWEL, glide iff a character is a glide), single character classed VOWEL/CONSONANT/OTHER, with a following right modifier absorbed |
| SyllableTokenizers.SyllableTokenizer.constructor | src/main/kotlin/fm/apakabar/syllabreak/Tokenizer.kt:40-46 | a new tokenizer has no units and stands at position 0 |
| SyllableTokenizers.SyllableTokenizer.Tokenize | src/main/kotlin/fm/apakabar/syllabreak/Tokenizer.kt:48-59 | the while loop leaves the state the specified run gives, and returns its units |
| SyllableTokenizers.SyllableTokenizer.TryMatchLeftModifier | src/main/kotlin/fm/apakabar/syllabreak/Tokenizer.kt:61-82 | matches exactly when the lower-cased character is a left modifier, and then extends the last unit or adds an OTHER modifier unit |
| SyllableTokenizers.SyllableTokenizer.TryMatchSeparator | src/main/kotlin/fm/apakabar/syllabreak/Tokenizer.kt:84-96 | matches exactly on a separator character, adding one SEPARATOR unit |
| SyllableTokenizers.SyllableTokenizer.TryMatchConsonantDigraph | src/main/kotlin/fm/apakabar/syllabreak/Tokenizer.kt:98-115 | matches the longest unsplittable digraph at the position (2 before 1) as one CONSONANT unit |
| SyllableTokenizers.SyllableTokenizer.TryMatchVowelDigraph | src/main/kotlin/fm/apakabar/syllabreak/Tokenizer.kt:117-136 | matches the longest vowel digraph (3 before 2) as one VOWEL unit |
| SyllableTokenizers.SyllableTokenizer.AddSingleCharacterToken | src/main/kotlin/fm/apakabar/syllabreak/Tokenizer.kt:138-167 | adds one classed unit for the character, absorbing a following right modifier |
| Nuclei.InsertAscendingCorrect | src/main/kotlin/fm/apakabar/syllabreak/WordSyllabifier.kt:111 | inserting a new index into a strictly increasing list keeps it strictly increasing and adds exactly that index |
| Nuclei.SortAscendingCorrect | src/main/kotlin/fm/apakabar/syllabreak/WordSyllabifier.kt:110-111 | sorting distinct indices gives a strictly increasing list with the same members |
| Nuclei.AfterSemivowelMembers | src/main/kotlin/fm/apakabar/syllabreak/WordSyllabifier.kt:38-63 | after the semivowel pass the nuclei are exactly the vowels that are not a final semivowel (last vowel, followed only by separators/others, first character in `finalSemivowels`, preceded by a consonant) |
| Nuclei.VowelBeforeSpec | src/main/kotlin/fm/apakabar/syllabreak/WordSyllabifier.kt:82-88 | the backward search finds nothing iff no vowel lies before the position |
| Nuclei.SyllabicCandidateIff | src/main/kotlin/fm/apakabar/syllabreak/WordSyllabifier.kt:69-106 | a unit is promoted iff it is a consonant whose first lower-case character is syllabic, not at either edge, with consonants on both sides; the distance tests then always pass |
| Nuclei.WithSyllabicMembers | src/main/kotlin/fm/apakabar/syllabreak/WordSyllabifier.kt:108-112 | after merging, the nuclei are the remaining vowels plus, when there are any, the promoted syllabic consonants, strictly increasing |
| Nuclei.FindNucleiMembers | src/main/kotlin/fm/apakabar/syllabreak/WordSyllabifier.kt:26-129 | the nuclei are ascending, in range, and exactly: the vowel and syllabic nuclei when a vowel survives; otherwise every consonant whose first character is syllabic (also when the only vowel was dropped) |
| Nuclei.NucleiAreLetters | src/main/kotlin/fm/apakabar/syllabreak/WordSyllabifier.kt:26-129 | every nucleus is a vowel or a consonant unit |
| Nuclei.DistanceToPrevVowel | src/main/kotlin/fm/apakabar/syllabreak/WordSyllabifier.kt:82-88 | the loop with `break` computes the distance to the nearest vowel before, or to the word start |
| Nuclei.DistanceToNextVowel | src/main/kotlin/fm/apakabar/syllabreak/WordSyllabifier.kt:91-97 | the loop with `break` computes the distance to the nearest vowel after, or to the word end |
| Nuclei.DropFinalSemivowel | src/main/kotlin/fm/apakabar/syllabreak/WordSyllabifier.kt:38-63 | the `removeAt` branch yields the semivowel-filtered nuclei |
| Nuclei.CollectSyllabic | src/main/kotlin/fm/apakabar/syllabreak/WordSyllabifier.kt:70-106 | the syllabic scan collects exactly the promoted consonants |
| Nuclei.CollectVowels | src/main/kotlin/fm/apakabar/syllabreak/WordSyllabifier.kt:30-34 | the first pass collects exactly the vowel indices, ascending |
| Nuclei.CollectFallback | src/main/kotlin/fm/apakabar/syllabreak/WordSyllabifier.kt:120-126 | the fallback pass collects exactly the consonants whose first character is syllabic |
| Nuclei.FindNuclei | src/main/kotlin/fm/apakabar/syllabreak/WordSyllabifier.kt:26-129 | `findNuclei` returns the nuclei characterised above |
| Boundaries.SkipForwardSkipsSeparators | src/main/kotlin/fm/apakabar/syllabreak/WordSyllabifier.kt:131-137 | the forward skip passes only separators and stops at the end or at a unit that is not one |
| Boundaries.SkipBackwardSkipsSeparators | src/main/kotlin/fm/apakabar/syllabreak/WordSyllabifier.kt:139-145 | the backward skip passes only separators and stops at -1 or at a unit that is not one |
| Boundaries.ClusterUpToMembers | src/main/kotlin/fm/apakabar/syllabreak/WordSyllabifier.kt:147-162 | the extracted cluster is exactly the consonant indices in the window, ascending |
| Boundaries.ClusterBetweenExactly | src/main/kotlin/fm/apakabar/syllabreak/WordSyllabifier.kt:164-171 | the cluster between two nuclei is exactly the consonants strictly between them, ascending |
| Boundaries.IsValidOnset | src/main/kotlin/fm/apakabar/syllabreak/WordSyllabifier.kt:173-210 | a pair is a valid onset iff its lower-cased join is in `clustersKeepNext` and, when it is in `clustersOnlyAfterLong`, the previous nucleus is long (its surface, or it with the next unit, is a vowel digraph) |
| Boundaries.Gaps | src/main/kotlin/fm/apakabar/syllabreak/WordSyllabifier.kt:328-344 | one boundary decision per pair of adjacent nuclei |
| Boundaries.Present | src/main/kotlin/fm/apakabar/syllabreak/WordSyllabifier.kt:338-340 | keeping only the decisions that placed a boundary gives at most one boundary per gap |
| Boundaries.GapBoundaryRange | src/main/kotlin/fm/apakabar/syllabreak/WordSyllabifier.kt:272-326 | a gap's boundary lies in `(nk, nk1]` |
| Boundaries.PlaceBoundariesSorted | src/main/kotlin/fm/apakabar/syllabreak/WordSyllabifier.kt:328-344 | the boundaries are strictly increasing, lie in `1..tokens.size-1`, and number fewer than the nuclei |
| Boundaries.PlaceBoundariesSyllables | src/main/kotlin/fm/apakabar/syllabreak/WordSyllabifier.kt:328-344 | every syllable the boundaries cut contains a nucleus |
| Boundaries.HiatusGap | src/main/kotlin/fm/apakabar/syllabreak/WordSyllabifier.kt:279-305 | a consonant-free gap gets boundary `nk1` exactly when `splitHiatus` holds, only separators lie between, and the vowel pair is no digraph; otherwise none |
| Boundaries.SingleConsonantGap | src/main/kotlin/fm/apakabar/syllabreak/WordSyllabifier.kt:222-270 | a one-consonant gap breaks at the consonant, unless `finalSequencesKeep` holds the sequence: then at `nk1` before a breaking suffix, nowhere at the word end or before a keeping suffix, else at the consonant |
| Boundaries.ClusterGap | src/main/kotlin/fm/apakabar/syllabreak/WordSyllabifier.kt:307-324 | a gap with two or more consonants tests only its last two: before the pair if it is a valid onset, else between them |
| WordSyllabifiers.Syllables | src/main/kotlin/fm/apakabar/syllabreak/WordSyllabifier.kt:356-375 | k boundaries cut k+1 syllables |
| WordSyllabifiers.AssembleIsJoin | src/main/kotlin/fm/apakabar/syllabreak/WordSyllabifier.kt:356-375 | the builder's output is the syllables joined by the soft hyphen |
| WordSyllabifiers.SyllablesSpell | src/main/kotlin/fm/apakabar/syllabreak/WordSyllabifier.kt:356-375 | the syllables concatenate to the unit surfaces |
| WordSyllabifiers.SyllabifyWordJoinsSyllables | src/main/kotlin/fm/apakabar/syllabreak/WordSyllabifier.kt:346-376 | the result is the word's syllables joined by the soft hyphen (one per boundary), the syllables concatenate back to the word, and there are no more of them than nuclei |
| WordSyllabifiers.SyllablesOfNonEmpty | src/main/kotlin/fm/apakabar/syllabreak/WordSyllabifier.kt:346-376 | no syllable of a non-empty word is empty |
| WordSyllabifiers.EmptyHyphenKeepsWord | src/main/kotlin/fm/apakabar/syllabreak/WordSyllabifier.kt:346-376 | with an empty soft hyphen the word comes back unchanged |
| WordSyllabifiers.NoNucleusKeepsWord | src/main/kotlin/fm/apakabar/syllabreak/WordSyllabifier.kt:347-349 | a word without nuclei comes back unchanged |
| WordSyllabifiers.WordSyllabification.constructor | src/main/kotlin/fm/apakabar/syllabreak/WordSyllabifier.kt:13-24 | the units are the tokenizer's and the nuclei are `findNuclei`'s |
| WordSyllabifiers.WordSyllabification.SkipSeparatorsForward | src/main/kotlin/fm/apakabar/syllabreak/WordSyllabifier.kt:131-137 | the while loop stops where the specified forward skip does |
| WordSyllabifiers.WordSyllabification.SkipSeparatorsBackward | src/main/kotlin/fm/apakabar/syllabreak/WordSyllabifier.kt:139-145 | the while loop stops where the specified backward skip does |
| WordSyllabifiers.WordSyllabification.ExtractConsonantCluster | src/main/kotlin/fm/apakabar/syllabreak/WordSyllabifier.kt:147-162 | returns the cluster's units and indices, paired up |
| WordSyllabifiers.WordSyllabification.FindClusterBetweenNuclei | src/main/kotlin/fm/apakabar/syllabreak/WordSyllabifier.kt:164-171 | returns the consonants strictly between the nuclei, units and indices paired |
| WordSyllabifiers.WordSyllabification.FindBoundaryForSingleConsonant | src/main/kotlin/fm/apakabar/syllabreak/WordSyllabifier.kt:222-270 | returns the single-consonant decision described under `SingleConsonantGap` |
| WordSyllabifiers.WordSyllabification.FindBoundaryInCluster | src/main/kotlin/fm/apakabar/syllabreak/WordSyllabifier.kt:272-326 | returns the gap decision by cluster size (hiatus, single consonant, onset test) |
| WordSyllabifiers.WordSyllabification.BoundaryOfGap | src/main/kotlin/fm/apakabar/syllabreak/WordSyllabifier.kt:332-336 | returns the decision for the k-th gap |
| WordSyllabifiers.WordSyllabification.PlaceBoundaries | src/main/kotlin/fm/apakabar/syllabreak/WordSyllabifier.kt:328-344 | the loop returns the boundaries shown sorted and in range above |
| WordSyllabifiers.WordSyllabification.AppendUnits | src/main/kotlin/fm/apakabar/syllabreak/WordSyllabifier.kt:361-365 | appends the surfaces of the units in the range, skipping indices past the end |
| WordSyllabifiers.WordSyllabification.WriteSyllables | src/main/kotlin/fm/apakabar/syllabreak/WordSyllabifier.kt:359-368 | writes each syllable followed by one soft hyphen and ends at the last boundary |
| WordSyllabifiers.WordSyllabification.WriteWithBoundaries | src/main/kotlin/fm/apakabar/syllabreak/WordSyllabifier.kt:356-375 | writes the syllables joined by soft hyphens |
| WordSyllabifiers.WordSyllabification.Syllabify | src/main/kotlin/fm/apakabar/syllabreak/WordSyllabifier.kt:346-376 | `syllabify` with its two early returns gives the specified word |
| WordSyllabifiers.WordSyllabifier.constructor | src/main/kotlin/fm/apakabar/syllabreak/WordSyllabifier.kt:3 | keeps its rule |
| WordSyllabifiers.WordSyllabifier.SyllabifyWord | src/main/kotlin/fm/apakabar/syllabreak/WordSyllabifier.kt:4-10 | gives the word syllabified, joined and rebuilt as proved in `SyllabifyWordJoinsSyllables` |
| Syllabreak.RuleByLang | src/main/kotlin/fm/apakabar/syllabreak/Syllabreak.kt:140-142 | finds a rule iff one has the code, and then the first such rule |
| Syllabreak.DetectLanguageSpec | src/main/kotlin/fm/apakabar/syllabreak/Syllabreak.kt:84-87 | one language code per ranked rule |
| Syllabreak.RenderedAll | src/main/kotlin/fm/apakabar/syllabreak/Syllabreak.kt:127-132 | one rendered piece per token |
| Syllabreak.EmptyTextUnchanged | src/main/kotlin/fm/apakabar/syllabreak/Syllabreak.kt:114 | `syllabify("")` is `""` |
| Syllabreak.UnknownLangUnchanged | src/main/kotlin/fm/apakabar/syllabreak/Syllabreak.kt:117-118 | a language code no rule has returns the text unchanged |
| Syllabreak.AutoDetectFinds | src/main/kotlin/fm/apakabar/syllabreak/Syllabreak.kt:135-138 | detection finds a rule iff some rule has a positive score |
| Syllabreak.NoMatchUnchanged | src/main/kotlin/fm/apakabar/syllabreak/Syllabreak.kt:120 | with no matching rule, auto mode returns the text unchanged |
| Syllabreak.NoLettersAutoUnchanged | src/main/kotlin/fm/apakabar/syllabreak/Syllabreak.kt:120 | without a language code, a text with no letter after lower-casing comes back unchanged |
| Syllabreak.AutoDetectIsBest | src/main/kotlin/fm/apakabar/syllabreak/Syllabreak.kt:135-138 | the detected rule matches, scores at least as high as any matching rule, and among equal scores comes first in rule order |
| Syllabreak.DetectLanguageSound | src/main/kotlin/fm/apakabar/syllabreak/Syllabreak.kt:84-87 | every detected code belongs to a rule that covers a letter of the text |
| Syllabreak.DetectLanguageComplete | src/main/kotlin/fm/apakabar/syllabreak/Syllabreak.kt:84-87 | the code of every rule that covers a letter is detected |
| Syllabreak.DetectLanguageOrder | src/main/kotlin/fm/apakabar/syllabreak/Syllabreak.kt:84-87 | the detected codes come best match first |
| Syllabreak.RenderedVerbatim | src/main/kotlin/fm/apakabar/syllabreak/Syllabreak.kt:127-132 | with an empty hyphen every token is rendered as its text |
| Syllabreak.EmptyHyphenUnchanged | src/main/kotlin/fm/apakabar/syllabreak/Syllabreak.kt:110-133 | with an empty soft hyphen the text comes back unchanged, in either mode |
| Syllabreak.RenderedNonWords | src/main/kotlin/fm/apakabar/syllabreak/Syllabreak.kt:130 | NON_WORD tokens pass through verbatim |
| Syllabreak.NoWordCharsUnchanged | src/main/kotlin/fm/apakabar/syllabreak/Syllabreak.kt:114-132 | text with no letter or mark comes back unchanged, whether or not a language is given |
| Syllabreak.SyllabifyTextJoinsWords | src/main/kotlin/fm/apakabar/syllabreak/Syllabreak.kt:123-132 | with the chosen rule, the output is the in-order concatenation of the tokens, each WORD replaced by its syllables joined by the soft hyphen, each NON_WORD verbatim; the tokens rebuild the text |
| Syllabreak.Syllabreak.constructor | src/main/kotlin/fm/apakabar/syllabreak/Syllabreak.kt:27-32 | the instance holds the soft hyphen and the rule set built from the given rules |
| Syllabreak.Syllabreak.DetectLanguage | src/main/kotlin/fm/apakabar/syllabreak/Syllabreak.kt:84-87 | returns the detected codes, sound, complete and ordered as above |
| Syllabreak.Syllabreak.AutoDetectRule | src/main/kotlin/fm/apakabar/syllabreak/Syllabreak.kt:135-138 | returns the first ranked rule, if any |
| Syllabreak.Syllabreak.Syllabify | src/main/kotlin/fm/apakabar/syllabreak/Syllabreak.kt:110-133 | returns the specified text, whose early returns and word-by-word form are proved above |
| Syllabreak.Syllabreak.JoinTokens | src/main/kotlin/fm/apakabar/syllabreak/Syllabreak.kt:127-132 | the `joinToString` loop concatenates the rendered tokens in order |
| Examples.PlainUnits | src/main/kotlin/fm/apakabar/syllabreak/Tokenizer.kt:138-154 | with no modifiers, digraphs or glides, every character is one unit classed by the inventories |
| Examples.HelloWord | src/main/kotlin/fm/apakabar/syllabreak/WordSyllabifier.kt:4-10 | the English-like rule syllabifies "hello" as "hel-lo" ("ll" is no onset) |
| Examples.ProblemWord | src/main/kotlin/fm/apakabar/syllabreak/WordSyllabifier.kt:4-10 | the English-like rule syllabifies "problem" as "pro-blem" ("bl" is an onset) |
| Examples.HelloDetected | src/main/kotlin/fm/apakabar/syllabreak/Syllabreak.kt:22-23 | `syllabify("hello")` detects the rule and gives "hel-lo" |
| Examples.ProblemInEnglish | src/main/kotlin/fm/apakabar/syllabreak/Syllabreak.kt:104-106 | `syllabify("problem", "eng")` gives "pro-blem" |
| Examples.MarksSplit | src/main/kotlin/fm/apakabar/syllabreak/WordSyllabifier.kt:279-302 | a text of two combining marks, which has no letter, is split at the hiatus when its language is given, and comes back unchanged without the code |

## Left out

- Rule loading is not modelled: `Syllabreak.loadRules` (`Syllabreak.kt:34-66`), `YamlModels.kt` and the map-based `LanguageRule` constructor (`LanguageRule.kt:24-38`) parse YAML through foreign libraries. The rule list is a parameter of `Syllabreak.Syllabreak.constructor`. The default soft hyphen U+00AD is not modelled either: the soft hyphen is a parameter.
- Unicode is not modelled. Case mapping, `isLetter` and the `\p{M}` class are the uninterpreted parameter `Text.Unicode`. Lower-casing is taken to be per character and length-preserving, as the code's indexing of `wordLower` assumes. UTF-16 surrogate pairs are ignored.
- The `Double` scores are exact ratios of counts (`LanguageRules.Ratio`), compared by cross-multiplication. The boost to 1.0 is the ratio n/n.
- `Tokenizer`'s `rule` constructor parameter is never used by `tokenize`. `WordTokenizer.Tokenize` does not take it.
- The `meta` back-reference (`LanguageRule.kt:22`, set at `MetaRule.kt:14`) has no behaviour and is not modelled.
- `sonorants` is kept in the record but is never read.
- The `isGlide` and `isModifier` flags are computed by the tokenizer model. The boundary logic never reads them, and no property beyond their setting is stated.
- The in-place update of the last `SyllableToken` (`surface`, `endIdx`, `isModifier` are `var`) replaces the last element of the tokenizer's `tokens` sequence. No other reference to that object exists while tokenizing, so no aliasing is lost.
- `LanguageRule.uniqueChars` is a `var` assigned by the rule set. It is a record field that `MetaRules.BuildMetaRule` fills in, and `BuildIgnoresPriorUniqueChars` shows the prior (default empty) value never matters.
- The tests under `src/test` read YAML fixtures that are not part of this model. Only the two documented examples are worked through.
