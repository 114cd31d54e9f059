# Morse and translation helpers of the translator front end

This project models the computational core of a browser translator. That
core is the table-driven Morse code codec of the Morse page in
`js/translations.js`, together with the small deterministic helpers around it:

- the beep schedule of `playMorseCode`;
- the practice drill (`startPractice`, `generatePracticeChar`,
  `checkPracticeInput`);
- the two bounded most-recent-first histories with their add and delete
  operations;
- the language swap, the keyword language guess, language names, the offline
  phrase substitution, the image upload check and the OCR word count.

It also models the second, simpler Morse codec of `js/main.js`, relates it to
the first one, and models the ten-entry gesture history of `js/camera.js`.

The modules, one concept each:

- `Wrappers`: an `Option` type.
- `StringOps`: the JavaScript string built-ins the core relies on: ASCII
  `toUpperCase`/`toLowerCase`, the white-space set of `\s` and `trim`,
  `split` on one character, `join`, `includes`, `startsWith`, and a global
  replace. It also defines `Words`, the maximal white-space-free runs of a
  string, and proves what collapsing white space, trimming and splitting
  produce in terms of them.
- `MostRecentFirst`: what an `unshift` followed by a conditional `pop`, and
  a `splice(i, 1)`, leave in a list.
- `MorseTable`: the 55-entry symbol table, its keys in `Object.keys` order
  (the figures come first), and the reverse table that `decodeFromMorse`
  builds. The module proves the codes are pairwise distinct, that only the
  space maps to `/`, and that the reverse table inverts the table.
- `MorseCodec`: `encodeToMorse` and `decodeFromMorse`. It proves the round
  trip and the white-space insensitivity of the decoder.
- `MorseTiming`: the schedule `playMorseCode` hands to the audio engine, as
  a loop over the symbols proved against a fold, in integer milliseconds.
- `MorsePage`: the practice pools and verdict. It also has the page state
  (the Morse history, `practiceActive`, `currentPracticeChar`) as a class
  whose methods change it in place.
- `TextTranslation`: the swap, detection, naming and phrase substitution
  helpers, and the translation history class.
- `ImageText`: the upload check and the OCR word count.
- `SimpleMorse`: `textToMorse` and `morseToText` of `js/main.js`.
- `Camera`: the gesture history class.

The decoder's two glyph substitutions are modelled as U+2022 (bullet) to
`.` and U+2013 (en dash) to `-`, which is what the code evidently means. The
patterns as they are actually written are modelled separately; see
"## Findings".

## Model

| member | source | states |
|---|---|---|
| StringOps.Upper | js/translations.js:475 | `toUpperCase` keeps the length, leaves no lowercase ASCII letter, keeps every other character, and changes each position only in case |
| StringOps.Lower | js/translations.js:116 | `toLowerCase` keeps the length, leaves no uppercase ASCII letter, keeps every other character, and changes each position only in case |
| StringOps.TrimStart | js/translations.js:497 | the leading white-space run is removed: never longer, strictly shorter when the string starts with white space, and the result starts with a non-space |
| StringOps.TrimEnd | js/translations.js:497 | the trailing white-space run is removed; the result ends with a non-space |
| StringOps.WordLen | js/translations.js:496 | the first word's length is within the string and positive when the string starts with a non-space |
| StringOps.Split | js/translations.js:499 | `split` on one character always yields at least one part |
| StringOps.WordsShape | js/translations.js:496-499 | every word is non-empty and holds no white space |
| StringOps.SplitParts | js/translations.js:499 | no part of a split holds the separator |
| StringOps.SplitWithoutSeparator | js/main.js:208 | a string without the separator splits into itself alone |
| StringOps.SplitAfterPart | js/main.js:208 | a part followed by the separator splits off as the first part |
| StringOps.SplitJoin | js/translations.js:475-481 | joining separator-free parts and splitting again gives the parts back |
| StringOps.JoinSplit | js/main.js:208 | splitting and joining with the same separator gives the string back |
| StringOps.SplitAppend | js/main.js:208 | splitting `x + d + y` splits `x` and `y` separately |
| StringOps.TrimStartSpaces | js/translations.js:497 | a white-space prefix makes no difference to `TrimStart` |
| StringOps.TrimEndSpaces | js/translations.js:497 | a white-space suffix makes no difference to `TrimEnd` |
| StringOps.TrimPadded | js/translations.js:497 | trimming a padded string with non-space ends gives the string |
| StringOps.TrimAllSpace | js/translations.js:497 | an all-white-space string trims to the empty string |
| StringOps.CollapseWord | js/translations.js:496 | collapsing white space leaves a leading word untouched |
| StringOps.WordsTrimStart | js/translations.js:496-497 | leading white space does not change the words |
| StringOps.JoinEnds | js/translations.js:496-497 | words joined by single spaces start and end with a non-space |
| StringOps.WordsAtWord | js/translations.js:496 | a string that starts with a word is that word followed by the rest, for both `Words` and collapsing |
| StringOps.AtSpaceRun | js/translations.js:496 | a white-space run collapses to one space and contributes no word |
| StringOps.CollapseFromWord | js/translations.js:496 | collapsing a string that starts with a word gives its words joined by single spaces, plus one space if it ended with white space |
| StringOps.TrimCollapsed | js/translations.js:496-497 | trimming a collapsed string gives its words joined by single spaces |
| StringOps.NormaliseIsWords | js/translations.js:496-497 | `replace(/\s+/g, ' ').trim()` gives exactly the words joined by single spaces |
| StringOps.WordsAppendSpace | js/translations.js:497 | trailing white space does not change the words |
| StringOps.WordsTrim | js/translations.js:1087 | trimming does not change the words |
| StringOps.WordsAcrossSpace | js/translations.js:496 | the words of `x + run + y` are the words of `x` followed by those of `y` |
| StringOps.WordsOfWord | js/translations.js:499 | one white-space-free non-empty string is its only word |
| StringOps.WordsOfJoin | js/translations.js:496-499 | the words of non-empty space-free strings joined by single spaces are those strings |
| StringOps.JoinSingles | js/translations.js:502 | joining one-character strings with no separator spells the characters |
| StringOps.ContainsAt | js/translations.js:116 | `includes` holds exactly when the word occurs at some index |
| StringOps.ContainsFits | js/translations.js:116 | a contained word is no longer than the string |
| StringOps.ReplaceAbsent | js/translations.js:169 | replacing an absent pattern changes nothing |
| StringOps.ReplaceAtStart | js/translations.js:169 | an occurrence at the start becomes the replacement and the search resumes right after it |
| StringOps.ReplaceLeftmost | js/translations.js:169 | the leftmost occurrence is replaced: the text before it is kept, it becomes the replacement, and the rest is replaced in turn |
| StringOps.OccursPast | js/translations.js:116 | an occurrence that starts after the first part of a concatenation lies in the second part |
| StringOps.WordsAcrossWord | js/translations.js:496 | the step of the word-split join past the first word of `x` |
| StringOps.WordHeadBeforeSpace | js/translations.js:496 | the first word of `x` stays the first word when white space and more text follow |
| StringOps.LeadNotStraddled | js/translations.js:168-170 | a word absent from the rest that no position of the leading text can start is absent from the whole |
| StringOps.ReplaceChar | js/translations.js:494-495 | replacing one character keeps the length and maps each position on its own |
| MostRecentFirst.AddFront | js/translations.js:619-629 | after unshift and the conditional pop, the new item is at index 0, older items follow shifted by one, and the length grows by one unless it would exceed the cap |
| MostRecentFirst.RemoveAt | js/translations.js:683-684 | `splice(i, 1)` removes exactly item `i` and keeps the rest in order; an index past the end removes nothing |
| MostRecentFirst.AddFrontBounded | js/translations.js:626-628 | adding keeps a list within its cap |
| MostRecentFirst.AddFrontBelowCap | js/translations.js:620 | below the cap nothing is dropped |
| MostRecentFirst.AddFrontAtCap | js/translations.js:626-628 | at the cap exactly the oldest item is dropped, and the contents are otherwise kept |
| MostRecentFirst.RemoveFrontUndoesAdd | js/translations.js:619-629 | deleting index 0 below the cap undoes an add |
| MostRecentFirst.RemoveAtContents | js/translations.js:683-684 | a delete removes one copy of the item at the index, and nothing else |
| MostRecentFirst.RemoveAtBounded | js/translations.js:683-684 | a delete keeps a list within its cap |
| MorseTable.DigitIsCoded | js/translations.js:361-363 | every figure has a code |
| MorseTable.LetterIsCoded | js/translations.js:351-358 | every capital has a code |
| MorseTable.PunctuationIsCoded | js/translations.js:366-370 | every punctuation key and the space have a code |
| MorseTable.KeysAreCoded | js/translations.js:349-370 | every key listed in key order has a code |
| MorseTable.CodedAreKeys | js/translations.js:349-370 | only the listed keys have a code |
| MorseTable.GoodLettersAToG | js/translations.js:351-353 | these entries are dot-dash codes inverted by the reverse lookup |
| MorseTable.GoodLettersHToN | js/translations.js:352-355 | these entries are dot-dash codes inverted by the reverse lookup |
| MorseTable.GoodLettersOToT | js/translations.js:355-356 | these entries are dot-dash codes inverted by the reverse lookup |
| MorseTable.GoodLettersUToZ | js/translations.js:357-358 | these entries are dot-dash codes inverted by the reverse lookup |
| MorseTable.GoodDigitsZeroToFour | js/translations.js:361-362 | these entries are dot-dash codes inverted by the reverse lookup |
| MorseTable.GoodDigitsFiveToNine | js/translations.js:362-363 | these entries are dot-dash codes inverted by the reverse lookup |
| MorseTable.GoodPunctuationRowOne | js/translations.js:366-367 | these entries are dot-dash codes inverted by the reverse lookup |
| MorseTable.GoodPunctuationRowTwo | js/translations.js:367-368 | these entries are dot-dash codes inverted by the reverse lookup |
| MorseTable.GoodPunctuationRowThree | js/translations.js:368-369 | these entries are dot-dash codes inverted by the reverse lookup |
| MorseTable.GoodPunctuationRowFour | js/translations.js:369-370 | these entries are dot-dash codes inverted by the reverse lookup, the space's being `/` |
| MorseTable.KeyIsGood | js/translations.js:349-370 | every key's entry is well formed and inverted by the reverse lookup |
| MorseTable.CodeShape | js/translations.js:349-370 | the space's code is `/`; every other code is a non-empty run of dots and dashes |
| MorseTable.InverseOfCode | js/translations.js:349-370 | looking a key's code up backwards gives the key |
| MorseTable.ShortCodeOfInverse | js/translations.js:349-370 | a code of up to four symbols found backwards is that key's code |
| MorseTable.FiveCodeOfInverse | js/translations.js:349-370 | a five-symbol code found backwards is that key's code |
| MorseTable.LongCodeOfInverse | js/translations.js:349-370 | a code of six or more symbols found backwards is that key's code |
| MorseTable.CodeOfInverse | js/translations.js:349-370 | every code found backwards is the code of the key found |
| MorseTable.CodeInjective | js/translations.js:349-370 | no two keys share a code |
| MorseTable.ReverseTableEntries | js/translations.js:487-490 | the `forEach` fill holds a code exactly when some key has it, and maps it to such a key |
| MorseTable.ReverseIsInverse | js/translations.js:487-490 | the reverse table built from all keys is the inverse of the table |
| MorseCodec.EncodeTokens | js/translations.js:475-480 | one token per character, each the character's encoding |
| MorseCodec.DecodeToken | js/translations.js:499-502 | `/` decodes to a space, a known code to its key, and any other token `t` to `[t]` |
| MorseCodec.DecodeTokens | js/translations.js:499-502 | one decoded piece per token, each that token's decoding |
| MorseCodec.EncodeKnown | js/translations.js:477-480 | a key encodes to its code |
| MorseCodec.EncodeUnknown | js/translations.js:480 | a character without a code is passed through as its own token |
| MorseCodec.TokenHasNoSpace | js/translations.js:477-480 | no token holds a space, since the space itself becomes `/` |
| MorseCodec.EncodeIsTokens | js/translations.js:474-482 | encoding is the tokens joined by single spaces: exactly one token per input character, and the empty string for empty input |
| MorseCodec.EncodeIgnoresCase | js/translations.js:475 | a text and its upper-cased form encode the same |
| MorseCodec.UpperIdempotent | js/translations.js:475 | upper-casing twice is upper-casing once |
| MorseCodec.ReplaceGlyphsPointwise | js/translations.js:494-495 | the glyph substitution keeps the length and maps each character on its own |
| MorseCodec.ReplaceGlyphsAppend | js/translations.js:494-495 | the glyph substitution distributes over concatenation |
| MorseCodec.ReplaceGlyphsSpaces | js/translations.js:494-496 | the glyph substitution neither creates nor removes white space |
| MorseCodec.ReplaceGlyphsNone | js/translations.js:494-495 | input without either glyph is unchanged |
| MorseCodec.DecodeByWords | js/translations.js:493-502 | decoding decodes the white-space-separated words one by one, or gives `[]` when there are none |
| MorseCodec.DecodeSameWords | js/translations.js:493-502 | inputs with the same words decode the same |
| MorseCodec.DecodeOneToken | js/translations.js:493-502 | a single token without white space or glyphs decodes as that token |
| MorseCodec.DecodeBlank | js/translations.js:493-502 | empty or all-white-space input decodes to `[]` and does not fail |
| MorseCodec.DecodeIgnoresPadding | js/translations.js:496-497 | leading and trailing white space do not change the decoding |
| MorseCodec.DecodeTrimmed | js/translations.js:497 | decoding the trimmed input gives the same text |
| MorseCodec.DecodeIgnoresRunLength | js/translations.js:496 | the length of a white-space run does not change the decoding |
| MorseCodec.DecodeGlyphs | js/translations.js:494-495 | a bullet decodes as a dot and an en dash as a dash, wherever they stand |
| MorseCodec.KnownTokenChars | js/translations.js:349-370 | a key's token consists of dots, dashes and `/` only |
| MorseCodec.DecodeOwnToken | js/translations.js:477-480 | a key's token decodes to that key |
| MorseCodec.DecodeTokensCons | js/translations.js:499-502 | decoding tokens decodes the first token, then the rest |
| MorseCodec.DecodeEachToken | js/translations.js:499-502 | when each token decodes to one character, the joined decoding spells those characters |
| MorseCodec.RoundTrip | js/translations.js:474-503 | for a non-empty text whose upper-cased characters are all keys, decoding the encoding gives the upper-cased text |
| MorseCodec.AsWrittenKeepsBullet | js/translations.js:494-495 | with the patterns as written, a lone bullet is not substituted and decodes to `[•]` |
| MorseCodec.DecodeReadsBullet | js/translations.js:494-495 | with the intended patterns, a lone bullet decodes to `E` |
| MorseTiming.PlayMorseCode | js/translations.js:506-530 | the loop produces exactly the schedule the symbol-by-symbol fold describes |
| MorseTiming.Count | js/translations.js:517 | the symbol count built up as the loop reads is the symbol's multiplicity in the string |
| MorseTiming.RunTotals | js/translations.js:506-530 | one beep per dot or dash; the cursor ends at 100 + 200·dots + 400·dashes + 300·spaces + 700·slashes ms past the start |
| MorseTiming.RunExtends | js/translations.js:517-529 | the schedule of a prefix is a prefix of the schedule, and its cursor is no later |
| MorseTiming.BeepOfSymbol | js/translations.js:518-523 | the beep of the j-th symbol is the next in order, starts at the cursor reached so far, and lasts 100 ms for a dot and 300 ms for a dash |
| MorseTiming.RunSpaced | js/translations.js:514-529 | each beep ends at least 100 ms before the next starts and before the cursor; the cursor and every beep start are at least 100 ms past the start |
| MorseTiming.StartsIncrease | js/translations.js:517-529 | beep start times strictly increase |
| MorseTiming.FirstBeep | js/translations.js:514-520 | the first symbol's beep starts 100 ms in |
| MorsePage.GeneratePracticeChar | js/translations.js:570-586 | a character is drawn exactly when the index is inside the level's pool; what is drawn is in that pool, is a key of the table and has a code, so the lookups at :564 and :592 are defined |
| MorsePage.PoolIsCoded | js/translations.js:570-583 | every character of every level's pool has a code |
| MorsePage.PoolSizes | js/translations.js:573-583 | the easy, medium and hard pools hold 26, 36 and 55 characters; the hard pool starts with the ten figures |
| MorsePage.UnknownLevelDrawsNothing | js/translations.js:572-585 | any other level has an empty pool and draws nothing |
| MorsePage.CorrectIff | js/translations.js:588-596 | correct exactly when practice is on and the trimmed input is the target's code |
| MorsePage.IncorrectIff | js/translations.js:603-606 | incorrect, revealing the code, exactly when practice is on and the trimmed input differs from the code but is at least as long |
| MorsePage.SilentIff | js/translations.js:588-607 | no feedback exactly when practice is off or the trimmed input is shorter than the code |
| MorsePage.DecodeOwnCode | js/translations.js:349-503 | a key's code decodes to the key |
| MorsePage.CorrectAnswerDecodes | js/translations.js:588-596 | an answer judged correct decodes to the character asked for |
| MorsePage.KeyIsUpper | js/translations.js:349-370 | no key is a lowercase ASCII letter |
| MorsePage.MorsePageState.constructor | js/translations.js:372-374 | the page starts with an empty history, practice off and no target |
| MorsePage.MorsePageState.AddToMorseHistory | js/translations.js:619-629 | the history becomes the most-recent-first add of the new entry with cap 20; nothing else changes |
| MorsePage.MorsePageState.DeleteMorseHistoryItem | js/translations.js:683-684 | the history loses exactly the item at the index; nothing else changes |
| MorsePage.MorsePageState.StartPractice | js/translations.js:552-568 | practice is switched on, the target is the drawn character, and the code handed to playback is the target's code; at the easy, medium and hard levels a character with a code is always drawn; the history is untouched |
| MorsePage.MorsePageState.CheckPracticeInput | js/translations.js:588-608 | the feedback is the three-way verdict; a correct answer schedules one auto-advance; the target, the practice flag and the history never change |
| MorsePage.MorsePageState.FireAutoAdvance | js/translations.js:599-603 | a pending auto-advance always restarts practice, which stays on, with a freshly drawn target; one pending advance is consumed and the history is untouched |
| TextTranslation.SwapNeverAuto | js/translations.js:27-39 | after a swap the source is never `auto` and the target is the old source |
| TextTranslation.SwapTwice | js/translations.js:27-39 | without `auto` on either side, swapping twice restores both selectors |
| TextTranslation.FirstMentionIsFirst | js/translations.js:116-120 | the search returns the first listed language one of whose keywords occurs, and nothing only when none occurs |
| TextTranslation.DetectLanguageIsFirstMention | js/translations.js:103-122 | the guess is the first of en, es, fr, de with a keyword in the lower-cased text, and `en` when there is none |
| TextTranslation.DetectLanguageIsListed | js/translations.js:103-122 | the guess is one of en, es, fr, de |
| TextTranslation.LanguageNameFallback | js/translations.js:176-194 | the name is the code itself exactly when the code is not listed, and empty only for the empty code |
| TextTranslation.PhrasesFor | js/translations.js:163-164 | the phrase list found for a pair never has an empty pattern |
| TextTranslation.Capitalise | js/translations.js:172 | the result is the same text up to case, does not start with a lowercase letter, and differs from the input nowhere after the first character |
| TextTranslation.PairPhrases | js/translations.js:163-164 | the phrase list of any pair never has an empty pattern |
| TextTranslation.PhrasesForMissing | js/translations.js:164 | a pair that is not listed has no phrases |
| TextTranslation.UnknownPairOnlyRecases | js/translations.js:146-173 | for any pair other than en-es and en-fr the text is only lower-cased and capitalised |
| TextTranslation.ReplaceAbsentPhrases | js/translations.js:167-170 | when no phrase occurs the substitution changes nothing |
| TextTranslation.NoPhraseOnlyRecases | js/translations.js:146-173 | a text mentioning none of the pair's phrases is only lower-cased and capitalised |
| TextTranslation.FrenchPhrases | js/translations.js:154-160 | the en-fr pair finds the French phrase list |
| TextTranslation.SpanishPhrases | js/translations.js:147-153 | the en-es pair finds the Spanish phrase list |
| TextTranslation.LeadingPhraseReplaced | js/translations.js:168-170 | a text opening with the first phrase, holding it nowhere else and no later phrase after the swap, becomes the replacement followed by the rest |
| TextTranslation.CapitaliseLead | js/translations.js:172 | capitalising a text changes only its leading part: `Capitalise(g + rest) == Capitalise(g) + rest` |
| TextTranslation.LaterPhrasesAbsent | js/translations.js:147-160 | for en-es and en-fr, no later phrase occurs in the greeting followed by a rest that holds none of the phrases |
| TextTranslation.GreetingFirst | js/translations.js:147-160 | `hello` is the first phrase of both lists, replaced by `hola` or `bonjour` |
| TextTranslation.GreetingLeads | js/translations.js:146-173 | for en-es and en-fr, a text that lower-cases to `hello` followed by a rest holding none of the pair's phrases becomes `Hola` or `Bonjour` followed by that rest |
| TextTranslation.SimulatedIsCapitalised | js/translations.js:172 | the result never starts with a lowercase ASCII letter |
| TextTranslation.TranslationPage.constructor | js/translations.js:3 | the history starts empty and within its cap |
| TextTranslation.TranslationPage.AddToTranslationHistory | js/translations.js:197-211 | the history becomes the most-recent-first add of the new entry with cap 20 |
| TextTranslation.TranslationPage.DeleteHistoryItem | js/translations.js:269-271 | the history loses exactly the item at the index |
| ImageText.ValidateImageIff | js/translations.js:908-918 | a file is read in exactly when its type starts with `image/` and it holds at most 5242880 bytes; a wrong type is reported whatever the size |
| ImageText.SmallerAccepted | js/translations.js:915 | a smaller file of an accepted type is accepted too |
| ImageText.WordCountIsWords | js/translations.js:1087 | the word count is the number of maximal white-space-free runs |
| SimpleMorse.SimpleTokens | js/main.js:198-200 | one token per character, each the character's encoding |
| SimpleMorse.SimpleDecodeTokens | js/main.js:208 | one decoded piece per token, each that token's decoding |
| SimpleMorse.AgreeLettersAToM | js/main.js:189-191 | these keys have the same code in both tables |
| SimpleMorse.AgreeLettersNToZ | js/main.js:191-193 | these keys have the same code in both tables |
| SimpleMorse.AgreeFiguresAndSpace | js/main.js:193-195 | these keys have the same code in both tables |
| SimpleMorse.SimpleCodedAreKeys | js/main.js:188-196 | exactly the capitals, figures and space have a code |
| SimpleMorse.SimpleAgrees | js/main.js:188-196 | every key of the second table has the same code in the first |
| SimpleMorse.SimpleReverseTableEntries | js/main.js:203-206 | the `forEach` fill holds a code exactly when some key has it, and maps it to such a key |
| SimpleMorse.SimpleReverseIff | js/main.js:202-206 | looking a code up backwards gives a key exactly when the key's code is that code |
| SimpleMorse.SimpleOwnToken | js/main.js:199-208 | a key's token is non-empty, has no space, and decodes to the key |
| SimpleMorse.RoundTripCharIsCoded | js/main.js:188-196 | a letter of either case, a figure or a space upper-cases to a key |
| SimpleMorse.SimpleRoundTrip | js/main.js:198-209 | every string over letters, figures and space, the empty one included, decodes back to its upper-cased form |
| SimpleMorse.LookAlikeEncodes | js/main.js:198-200 | `E.` encodes to `. .`, the dot passing through |
| SimpleMorse.LookAlikeDecodes | js/main.js:202-209 | `. .` decodes to `EE`, so the round trip fails for characters that look like codes |
| SimpleMorse.SimpleDecodeTokensAppend | js/main.js:208 | decoding tokens distributes over concatenation |
| SimpleMorse.MorseToTextAppend | js/main.js:208 | decoding `x + " " + y` decodes `x` and `y` separately |
| SimpleMorse.SimpleReverseEmpty | js/main.js:203-206 | the empty token is not a code |
| SimpleMorse.MorseToTextEmpty | js/main.js:202-209 | the empty input decodes to the empty string |
| SimpleMorse.DoubleSpaceIgnored | js/main.js:208 | the empty token between two spaces contributes nothing |
| SimpleMorse.UnknownTokenPassesThrough | js/main.js:208 | a token that is no code is returned unchanged, without brackets |
| SimpleMorse.SlashIsSpace | js/main.js:193-208 | `/` decodes to a space through the reversed table entry |
| SimpleMorse.UnknownToBoth | js/main.js:188-196 | a token unknown to the first table is unknown to the second |
| SimpleMorse.DecodersDisagreeOnUnknown | js/main.js:208 | on an unknown token the second decoder returns it unchanged while the first brackets it |
| Camera.GestureLog.constructor | js/camera.js:5 | the history starts empty |
| Camera.GestureLog.AddToHistory | js/camera.js:146-158 | the new record is at index 0 with the gesture's name, meaning and confidence, older entries follow shifted by one, the length stays within 10, and an entry is dropped only when there were already 10 |

## Left out

- Rendering, event wiring, notifications and modals: they only write to the page.
- The network translation service: its answer is not computed by the page.
- OCR, the camera, canvas capture, speech recognition and synthesis, and the clipboard: these are foreign libraries and devices. `js/audio.js` is not part of this model, for the same reason.
- `playBeep`'s oscillator and gain ramps: they are floating-point audio rendering. The schedule is kept in integer milliseconds from a `now` parameter, in place of the audio clock's floating seconds.
- `Math.random`: the random index is a parameter `pick`. As with `Math.floor(Math.random() * n)`, it is below the pool size whenever the pool is non-empty. The mock gesture detector, which only draws at random, is not modelled.
- `setTimeout`: the 500 ms delayed playback in `startPractice` is its returned `toPlay` code. The 1500 ms auto-advance is a count of pending advances that `FireAutoAdvance` consumes. Timer ordering is not modelled.
- `localStorage` and JSON: histories are kept in memory. Time stamps are opaque parameters, since the clock and the locale format are outside the model.
- `detectLanguage` is asynchronous; it is modelled as the value its promise resolves to.
- Lookups that hit `Object.prototype` (a token such as `constructor`): the tables are finite maps, so such a token is unknown here.
- Case mapping is ASCII only. Strings are sequences of code points, not UTF-16 code units. So lengths differ for characters outside the Basic Multilingual Plane, and `split('')` in `encodeToMorse` and `textToMorse` would give such a character two surrogate tokens where the model gives it one. The white-space set is the ECMAScript one, written out.
- The initial `''` target and the `undefined` one drawn past the pool are both `None`. Both have no code, and checking an answer against either throws a `TypeError`, which is a `Feedback` value here.
- `playMorseCode(undefined)` throws on iteration. Its `morse` parameter is a string here, so the unknown-level path stops at the `toPlay == None` that `StartPractice` returns.
- MostRecentFirst.RemoveAt: indices are natural numbers. A negative index, which `splice` counts from the end, is not modelled, because the page passes only the position of a rendered item.
- TextTranslation.SimulateTranslation: the `gi` flag is a case-sensitive replacement here. That is the same thing, because the text is lower-cased first and every pattern is lowercase. The Spanish phrases keep the accents as the source file spells them.
- Shadowed duplicate declarations in `js/translations.js` (`translateText`, `performTranslation`, `setupEventListeners`) belong to the network and DOM layers and are not modelled.

## Findings

| source | as written | input that shows it | evidently intended | confidence | as-written member | corrected member |
|---|---|---|---|---|---|---|
| js/translations.js:494-495 | the patterns are the three-character sequences U+00E2 U+20AC U+00A2 and U+00E2 U+20AC U+201C, so a real bullet or en dash is never substituted | a lone `•` (U+2022) decodes to `[•]` | U+2022 is read as `.` and U+2013 as `-`, so `•` decodes to `E` | not executed | MorseCodec.AsWrittenKeepsBullet | MorseCodec.DecodeReadsBullet |
