# wordle-cheater: the constraint engine, modelled in Dafny

wordle-cheater suggests Wordle answers. The player records each guess as five
coloured letters. A black letter is not in the answer, at least not beyond the
copies already coloured. A yellow letter is in the answer but not at that
position. A green letter is at that position. The engine has three parts:

- `WordleLetter` checks one coloured letter when it is built.
- `parse_wordle_letters` folds a list of coloured letters, five per guess,
  into per-position black and yellow lists, per-position greens and letter
  counts. It refuses a guess that contradicts earlier guesses.
- `check_word` and `find_words` keep the dictionary words that fit that
  state. Hard mode also demands that every known letter be reused.

The first version of the filter, `src/wordle_cheater/wordle_cheater.py`, is
modelled next to it.

Modules:

- `Wrappers`: `Option` and `Result`.
- `Letters`: `WordleLetter` and its validation.
- `Cheater`: `_flatten`, `check_word` and `find_words`.
- `Parser`: `parse_wordle_letters`. The loops are written as methods and proved
  equal to a functional fold, `Parse`.
- `ParserProperties`: what the fold guarantees.
- `Legacy`: the first `check_word` and `get_words`.
- `Examples`: the situations of the project's tests, stated as lemmas over
  symbolic words where possible.

## Model

| member | source | states |
|---|---|---|
| Letters.NewWordleLetter | src/wordle_cheater/cheater.py:13-28 | A letter that is built carries the one character given, the colour named and the int index given. |
| Letters.NewWordleLetterEnglish | src/wordle_cheater/cheater.py:13-28 | Over the English alphabet, construction succeeds iff the input is one lower-case letter, a colour among black/yellow/green and an int index in [0, 5). Each error is raised iff every earlier check passes and its own check fails. |
| Letters.BlackNeedsIndex | src/wordle_cheater/cheater.py:24-25 | A black letter without an index is refused with the index error. |
| Letters.WordleLetterRoundTrip | src/wordle_cheater/cheater.py:8-28 | Rebuilding a lower-case letter from its own fields gives the same letter back. |
| Cheater.Flatten | src/wordle_cheater/cheater.py:37-39 | A character is in the flattened list iff it is in one of the sub-lists. |
| Cheater.Count | src/wordle_cheater/cheater.py:124 | `word.count(c)` is at most the length of the word, and is 0 iff `c` is absent. |
| Cheater.HardModeOk | src/wordle_cheater/cheater.py:117-125 | The hard-mode loop passes iff every known letter occurs in the word at least `counts.get(letter, 1)` times. |
| Cheater.PositionsFrom | src/wordle_cheater/cheater.py:128-145 | The per-position loop passes iff every position from `i` on passes the black-count, black, yellow and green tests. |
| Cheater.CheckWord | src/wordle_cheater/cheater.py:42-153 | A word is accepted iff three things hold: the hard-mode test (when hard), every position test, and dictionary membership (when checked). Both directions are stated. |
| Cheater.HardModeReusesKnownLetters | src/wordle_cheater/cheater.py:116-125 | In hard mode, every yellow letter and every green letter of any position occurs in an accepted word at least `counts.get(letter, 1)` times. |
| Cheater.AcceptedFitsPositions | src/wordle_cheater/cheater.py:138-145 | At each position, an accepted word's letter is neither black nor yellow there, and it equals the green letter there if there is one. |
| Cheater.AcceptedRespectsBlackCounts | src/wordle_cheater/cheater.py:129-136 | A letter that is black anywhere occurs in an accepted word at most `counts.get(letter, 0)` times. |
| Cheater.HardModeMeaning | src/wordle_cheater/cheater.py:113-153 | In either mode, acceptance holds iff four things hold: the known letters are present often enough (hard mode only), every slot is respected, the black counts are respected, and (when checked) the word is in the dictionary. |
| Cheater.HardImpliesSoft | src/wordle_cheater/cheater.py:116-125 | A word accepted in hard mode is accepted without it. |
| Cheater.DictionaryIsConjunct | src/wordle_cheater/cheater.py:147-150 | The dictionary check only adds the membership condition. |
| Cheater.WithDefaults | src/wordle_cheater/cheater.py:96-106 | A given list or dict is kept as is. A missing one becomes five empty lists, five empty greens or an empty dict. The result has five slots per list iff every given list has five entries. |
| Cheater.NoGuessesAcceptEverything | src/wordle_cheater/cheater.py:96-106 | With every argument at its default and no dictionary check, every word of at most five letters is accepted, in either mode. |
| Cheater.FindWords | src/wordle_cheater/cheater.py:156-201 | The result is the dictionary words, in iteration order, that `check_word` accepts in hard mode with the dictionary check. |
| Cheater.FilterMembers | src/wordle_cheater/cheater.py:189-199 | A word is in the result iff the dictionary holds it and hard-mode `check_word` accepts it. |
| Cheater.FilterNoDuplicates | src/wordle_cheater/cheater.py:189-201 | If the dictionary lists each word once, so does the result. |
| Parser.OfColor | src/wordle_cheater/cheater.py:250-252 | A letter is selected for a colour iff it is in the word and has that colour. |
| Parser.Tally | src/wordle_cheater/cheater.py:254-256 | The tally maps each character to the number of letters with that character, and holds exactly the characters that occur. |
| Parser.FirstConflict | src/wordle_cheater/cheater.py:258-321 | A raised error is an `InvalidWordleLetter` carrying a letter from the list validated. |
| Parser.WordConflict | src/wordle_cheater/cheater.py:258-321 | The three validation loops run blacks, then yellows, then greens. An error raised is an `InvalidWordleLetter` carrying a letter of the word. Which letter, and why, is stated by `ParserProperties.WordConflictIsFirstOffender`. |
| Parser.Words | src/wordle_cheater/cheater.py:247 | There are `len // 5` words, and word `k` is letters `5k` to `5k+5`. |
| Parser.Commit | src/wordle_cheater/cheater.py:323-338 | Committing keeps five slots per list and every count positive. |
| Parser.Fold | src/wordle_cheater/cheater.py:249-338 | The `for word in words` loop keeps five slots per list and positive counts, and never raises the length error. What it returns is stated by `ParserProperties.ParseIsReplay`. |
| Parser.Parse | src/wordle_cheater/cheater.py:204-340 | The length error is raised iff the length is not a multiple of five. A successful result has five slots per list and positive counts. |
| Parser.ValidateBlacks | src/wordle_cheater/cheater.py:258-279 | The black loop raises exactly the first conflict of the black letters. |
| Parser.ValidateYellows | src/wordle_cheater/cheater.py:281-300 | The yellow loop raises exactly the first conflict of the yellow letters. |
| Parser.ValidateGreens | src/wordle_cheater/cheater.py:302-321 | The green loop raises exactly the first conflict of the green letters. |
| Parser.CountColoured | src/wordle_cheater/cheater.py:254-256 | The `these_counts` loop computes the tally of the coloured letters. |
| Parser.CommitLetters | src/wordle_cheater/cheater.py:323-338 | The commit loop updates the four structures in place, exactly as the commit fold does. |
| Parser.ValidateWord | src/wordle_cheater/cheater.py:249-321 | For one word, `these_counts` and the first error of the three loops (in order) are those of the specification. |
| Parser.ParseWordleLetters | src/wordle_cheater/cheater.py:204-340 | The imperative parser returns exactly `Parse` of its input: the same state, or the same error. |
| ParserProperties.LetterCountAppend | src/wordle_cheater/cheater.py:254-256 | Counting a letter over two lists joined is the sum of the two counts. |
| ParserProperties.TheseCountsColoured | src/wordle_cheater/cheater.py:254-256 | `these_counts.get(c, 0)` is the number of times the word colours `c` yellow or green. |
| ParserProperties.CommitWordCounts | src/wordle_cheater/cheater.py:334-338 | Committing a word sets each count to the larger of its old value and the word's coloured count. |
| ParserProperties.ParseCounts | src/wordle_cheater/cheater.py:254-338 | After a successful parse, `counts[c]` is the largest number of times one guess coloured `c`, and `c` is a key iff some guess coloured it. |
| ParserProperties.CommitGrows | src/wordle_cheater/cheater.py:323-338 | A commit only extends the black and yellow lists, keeps set greens set, and never lowers a count. |
| ParserProperties.FoldAppend | src/wordle_cheater/cheater.py:249-338 | Folding two runs of words is folding the first and then the second from its result. |
| ParserProperties.ParsePrefix | src/wordle_cheater/cheater.py:244-340 | If letters plus more parse, the whole-word prefix parses and the longer parse only extends its state. A prefix error persists when more whole words are added. |
| ParserProperties.ParseIsReplay | src/wordle_cheater/cheater.py:244-340 | Parsing succeeds iff no guess conflicts with the commits of the guesses before it, and the result is then those commits replayed. On failure, the error is the conflict of the first conflicting guess. |
| ParserProperties.ConflictOffends | src/wordle_cheater/cheater.py:258-321 | A letter is reported iff it breaks one of its colour's rules, and the reason belongs to its colour. |
| ParserProperties.FirstConflictIsFirst | src/wordle_cheater/cheater.py:258-321 | A validation loop reports nothing iff no letter of its list conflicts; otherwise it reports the first letter that does. |
| ParserProperties.WordConflictNone | src/wordle_cheater/cheater.py:249-321 | A guess passes validation iff none of its letters breaks a rule. |
| ParserProperties.WordConflictIsFirstOffender | src/wordle_cheater/cheater.py:249-321 | On failure, the reported letter is in the guess and breaks a rule of its colour. No letter of an earlier-validated colour breaks a rule, and no earlier letter of its own colour does. |
| ParserProperties.FirstWordNeverConflicts | src/wordle_cheater/cheater.py:239-321 | The first guess is never refused. |
| ParserProperties.CommitSlots | src/wordle_cheater/cheater.py:324-332 | A commit appends each black and yellow letter to its own position's list, in order. Each green slot becomes the last green letter there, if any. |
| ParserProperties.RowCommit | src/wordle_cheater/cheater.py:323-338 | Committing a five-letter row changes only the slots of its letters' own colours and positions, and raises each count to the row's coloured count. |
| Legacy.GetWords | src/wordle_cheater/wordle_cheater.py:3-4 | The result is the dictionary words of length five, and only those. |
| Legacy.PositionsFrom | src/wordle_cheater/wordle_cheater.py:58-66 | The per-position loop passes iff every position from `i` on passes the black, yellow and green tests. |
| Legacy.AllIn | src/wordle_cheater/wordle_cheater.py:49-55 | The hard-mode loop passes iff every known letter occurs in the word. |
| Legacy.Check | src/wordle_cheater/wordle_cheater.py:6-75 | With either yellow test, a word is accepted iff three things hold: the hard-mode test, the position tests and the dictionary test. |
| Legacy.CheckMeaning | src/wordle_cheater/wordle_cheater.py:40-75 | With either yellow test, acceptance holds iff: every yellow and green letter occurs in the word (hard mode), no letter is in the black list, no letter is where it was yellow (intended test only), the greens are in place, and the word is a five-letter dictionary word (when checked). |
| Legacy.CheckWord | src/wordle_cheater/wordle_cheater.py:6-75 | As written, a word is accepted iff four things hold: every yellow and green letter occurs in it (hard mode), it has no letter from the black list, its greens are in place, and it is a five-letter dictionary word (when checked). The yellow lists play no other part. |
| Legacy.CheckWordIntended | src/wordle_cheater/wordle_cheater.py:62-63 | With the intended yellow test, a word is accepted iff the conditions of `Legacy.CheckWord` hold and no letter is at a position where it was yellow. |
| Legacy.YellowsIgnoredWhenSoft | src/wordle_cheater/wordle_cheater.py:62-63 | As written, outside hard mode the yellow lists never change the verdict. |
| Legacy.DefaultsAcceptEverything | src/wordle_cheater/wordle_cheater.py:40-47 | With every argument left at its default and no dictionary check, every word of at most five letters is accepted. |
| Legacy.HardModeCountsNothing | src/wordle_cheater/wordle_cheater.py:49-55 | Hard mode tests membership only: "ember" passes with 'e' yellow at two positions. |
| Legacy.MisplacedYellowAccepted | src/wordle_cheater/wordle_cheater.py:62-63 | As written, "beets" is accepted although its 'e' sits where 'e' was yellow. |
| Legacy.IntendedRefinesAsWritten | src/wordle_cheater/wordle_cheater.py:62-63 | The intended filter refuses "beets". In general, it accepts iff the as-written filter accepts and no letter sits where it was yellow. |
| Examples.ElderFits | tests/test_check_word.py:112-116 | Given the state of 'beats' and 'oiled' against 'elder', a word with 'e' at index 3, with 'l' and 'd' away from their yellow slots, and with no black letter is accepted in hard mode. |
| Examples.ElderAccepted | tests/test_check_word.py:112-116 | 'elder' is accepted with the dictionary check. |
| Examples.MarkedAtTwoRejected | tests/test_check_word.py:119-123 | Any word with the black 'a' or the yellow 'l' at index 2 is refused. |
| Examples.CraftRejected | tests/test_check_word.py:26 | 'craft', with the black 'a' at index 2, is refused. |
| Examples.RuledRejected | tests/test_check_word.py:27 | 'ruled', with the yellow 'l' at index 2, is refused. |
| Examples.GreenMissingRejected | tests/test_check_word.py:119-123 | Any word without the green 'e' at index 3 is refused. |
| Examples.EludeRejected | tests/test_check_word.py:28 | 'elude' is refused. |
| Examples.YellowMissingRejected | tests/test_check_word.py:119-123 | In hard mode, any word without the yellow 'd' is refused. |
| Examples.CruelRejected | tests/test_check_word.py:29 | 'cruel' is refused. |
| Examples.LdzezAccepted | tests/test_check_word.py:154-157 | 'ldzez' passes every letter rule. |
| Examples.LdzezNotInDictionary | tests/test_check_word.py:119-123 | Only the dictionary check refuses 'ldzez'. |
| Examples.AromaAccepted | tests/test_check_word.py:131-134 | After 'array' against 'aroma', 'aroma' is accepted in hard mode. |
| Examples.RiverRejected | tests/test_check_word.py:142-145 | After 'array' against 'right', 'river' is refused: its two 'r's exceed the one allowed. |
| Examples.StripRejected | tests/test_check_word.py:142-145 | After 'array' against 'corer', 'strip' is refused in hard mode: it has one 'r' where two are needed. |
| Examples.ParseElder | tests/test_wordle_guesses.py:9-28 | 'beats' then 'oiled' against 'elder' parse to the state used by the filter tests, with 'e', 'l' and 'd' each counted once. |
| Examples.RivyrRefused | tests/test_wordle_guesses.py:104-118 | After 'dream' all black, a yellow 'e' at index 3 is refused as previously black. |
| Examples.ParseBlackThenYellow | tests/test_wordle_guesses.py:104-118 | Parsing 'dream' all black, then 'rivyr' with a yellow 'e', fails on that 'e'. |
| Examples.ParseGreenOverwrite | src/wordle_cheater/cheater.py:331-332 | Two guesses with different greens at one index both parse, and the later green replaces the earlier one. |

## Left out

- The alphabet and the word list come from `src/wordle_cheater/dictionary.py`, which is not part of this model. They are parameters: `letters` is a set of one-character strings (specialised to the 26 English letters in `Letters.NewWordleLetterEnglish`), and `wordle_words` is a set of strings.
- `str.upper` and `str.lower` are modelled on ASCII letters only. Other Unicode case mappings are not modelled. In Python, `'ı'.upper()` is `'I'` and `'ſ'.upper()` is `'S'`, and each is its own `.lower()`, so `WordleLetter('ı', 'black', 0)` is built; the model refuses it as not an English letter. The if-and-only-if of `Letters.NewWordleLetterEnglish` is therefore about the ASCII case mapping.
- The `index` argument can be any Python value. It is modelled as no index, an int, or a non-int; only the distinction the check makes is kept.
- Cheater.CheckWord: requires a word of at most five letters. For a longer word, the source returns False when the hard-mode loop (lines 117-125) rejects it, when one of the first five positions does, or when the black-count test of position 5 (lines 129-136) does. Otherwise it raises `IndexError` at `blacks[5]` (line 138). Words longer than five letters are not modelled.
- Cheater.CheckWord: requires the three per-position lists to have five entries, as the source asserts (lines 108-110). A failed assertion is not modelled.
- Cheater.FindWords: the dictionary is taken as a sequence, in the set's iteration order, which Python leaves unspecified. The `None` keyword defaults are filled in by `Cheater.WithDefaults` before the call.
- Legacy.Check: requires a word of at most five letters. For a longer word with five-entry lists, the source returns False when the hard-mode loop (lines 49-55) rejects it, when one of the first five positions does, or when the sixth letter is black (lines 59-60). Otherwise it raises `IndexError` at `yellows[5]` (line 62). Words longer than five letters are not modelled.
- Legacy.Check: requires the yellow and green lists, when given, to have five entries. A list shorter than the word makes the source raise `IndexError`; lists of other lengths are not modelled.
- `WordleGuesses`, `get_wordle_letters`, `easy_cheat`, the ordering of `WordleLetter` values, the command line, and the curses and terminal interfaces are outside this core.
- The messages of `ValueError` and `InvalidWordleLetter` are modelled as enumerations (`LetterError`, `Reason`), not as text.
- Where the behaviour is ambiguous, the model follows the code:
  - a black letter needs an index;
  - a green slot is overwritten by a later guess;
  - only the first offending letter is reported, after all black letters are validated, then yellows, then greens;
  - `parse_wordle_letters` returns per-position black lists and counts, although `tests/test_parse_wordle_letters.py` expects a flat black list and three results.

## Findings

| source | as written | input that shows it | evidently intended | confidence | as-written member | corrected member |
|---|---|---|---|---|---|---|
| src/wordle_cheater/wordle_cheater.py:62-63 | `yellows[i] == char` compares a list with a one-character string, so the yellow test never rejects anything. | `check_word("beets", yellows=[[], ["e"], [], [], []], hard=False, check_dict=False)` returns True although 'e' was yellow at index 1. | `char in yellows[i]`, as `src/wordle_cheater/cheater.py:141` does. | not executed | Legacy.MisplacedYellowAccepted | Legacy.IntendedRefinesAsWritten |
