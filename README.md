# Last-character spelling corrector, modelled in Dafny

This project models `spell.py`, a spelling corrector for a single kind of mistake: a misspelled
word differs from the right word only in its last character. The program does five things:

* It builds a dictionary that maps each word length to the vocabulary words of that length (`create_dictionary`).
* It cuts text into sentences at `.`, `!` and `?` (`list_sentences`).
* It cuts a sentence into tokens, which are maximal runs of `[\w']` (`list_words`).
* It checks whether a token is known (`present_in_dict`, `is_correct_sentence`).
* It corrects an unknown token from the same-length bucket and rebuilds the sentence (`find_closest_match`, `correct_sentence`).

The files follow the program's components:

| file | module | models |
|---|---|---|
| `wrappers.dfy` | `Wrappers` | `Option` and `Result` |
| `errors.dfy` | `Errors` | the program's failures, as values |
| `text.dfy` | `Text` | ASCII character classes and case mapping, `remove_last_char`, Python's string ordering, `' '.join` |
| `tokenizer.dfy` | `Tokenizer` | `list_sentences` (a loop, as a method) and `list_words` (an expression, as a function) |
| `dictionary.dfy` | `Dictionary` | `create_dictionary` (a loop, as a method) and `present_in_dict` |
| `corrector.dfy` | `Corrector` | `find_closest_match` (a loop, as a method, specified by the function `ClosestMatch`) |
| `reassembler.dfy` | `Reassembler` | `is_correct_sentence` and `correct_sentence` (loops, as methods, the latter specified by `Corrected`) |
| `examples.dfy` | `Examples` | the docstring examples, restated as lemmas |

The model makes these choices:

* The dictionary is a `map<int, seq<string>>`. A length that is not a key reads as an empty bucket (`Dictionary.Bucket`).
* `sorted(bucket)` followed by "first match" is modelled as "the lexicographically least matching word" (`Corrector.LeastMatch`). spell.py is Python 2 code (the `print` statement at spell.py:194), so `str` is a byte string and compares byte by byte, with a proper prefix sorting first. The model compares characters by code point (`Text.LexLe`); on ASCII text the two orders agree. `Corrector.LeastMatchIsLeast` proves that the chosen word matches and sorts no later than any other match. `Corrector.ClosestMatchIgnoresBucketOrder` proves that the choice depends only on which words the bucket holds.
* Failures are values of `Errors.Error`:
  * `NoMatch`: `find_closest_match` returns `None`, and `correct_sentence` then raises TypeError on `None + ' '` (spell.py:174).
  * `EmptyCandidate`: the first match is `''`, and `w[-1]` raises IndexError. This needs a bucket holding a word of the wrong length.
  * `EmptySentence`: `correct_sentence('')` raises IndexError on `sentence[-1]`.

Where the docstrings and the code differ, the model follows the code:

* A sentence keeps its terminator (`text[start: index+1]`, spell.py:54), although the docstring of `list_sentences` says the ending punctuation is removed.
* The docstring of `list_sentences` asks that every sentence after the first start with a space. The code does not check this: it always skips exactly one character after a terminator (spell.py:55). When two terminators are adjacent, the second slice is empty (`SentenceSlice`).
* The docstring of `find_closest_match` asks that the correct word be in the dictionary. The code does not check this; when no bucket word matches, it returns None (`NoMatch`).

Further facts about spell.py that the model keeps:

* Only the token is lower-cased before comparison (spell.py:96, 118). Dictionary words are compared as stored. So a bucket word with an upper-case letter is never known. It matches only when its one upper-case letter is its last character, and the correction then keeps that character.
* The corrected word keeps the token's own prefix with its original case. The last character is upper-cased only when the token's last character is upper-case (spell.py:125-128).
* `create_dictionary` does not remove duplicate words from a bucket (spell.py:29).
* `find_closest_match` does not check whether the token is already known. `correct_sentence` calls it only for unknown tokens (spell.py:171-174).

## Model

| member | source | states |
|---|---|---|
| Text.RemoveLastChar | spell.py:1-11 | the result is a prefix of the input, one character shorter, or empty for empty input |
| Text.Lower | spell.py:118 | `str.lower` on ASCII: each upper-case letter is replaced by its lower-case letter, every other character is kept |
| Text.LowerKeepsLetters | spell.py:96 | lower-casing keeps the length and every letter up to case, and leaves no upper-case letter |
| Text.LexLeTotal | spell.py:121 | any two strings are comparable under the ordering `sorted` uses |
| Text.LexLeAntisymmetric | spell.py:121 | two strings that sort no later than each other are equal, so the first match after sorting is unique |
| Text.LexLeTransitive | spell.py:121 | the ordering `sorted` uses is transitive |
| Dictionary.Bucket | spell.py:121 | the `defaultdict` read: the words stored under a length, and an empty list when the length is not a key |
| Dictionary.WordsOfLength | spell.py:26-29 | the bucket for length n holds only words of length n, and each word of length n as many times as the input holds it |
| Dictionary.CreateDictionary | spell.py:14-31 | every bucket is the in-order list of the input words of that length, and the keys are exactly the lengths that occur |
| Dictionary.BuiltDictionaryWellFormed | spell.py:26-29 | a built dictionary keeps every word in the bucket of its own length, and every input word, including '', is in the bucket of its length |
| Dictionary.PresentInDict | spell.py:96 | a length with no bucket gives false |
| Dictionary.PresentIffInVocabulary | spell.py:80-96 | against a dictionary built from `words`, a token is known iff its lower-cased form is one of `words` |
| Tokenizer.TerminatorsBefore | spell.py:52-53 | the cut positions are exactly the `.`/`!`/`?` positions, ascending |
| Tokenizer.Slices | spell.py:54-56 | one slice per cut position, from the current start through the terminator |
| Tokenizer.Sentences | spell.py:52-58 | what `list_sentences` returns: the slices at every terminator of the text |
| Tokenizer.ListSentences | spell.py:34-58 | the scan returns one slice per terminator, sliced from the previous cut point through the terminator |
| Tokenizer.SentenceCount | spell.py:52-56 | the number of sentences equals the number of terminators in the text |
| Tokenizer.SentenceSlice | spell.py:54-55 | sentence k runs from two characters after terminator k-1 (or from 0) through terminator k |
| Tokenizer.SentenceTerminators | spell.py:53-56 | a non-empty sentence ends with its terminator and contains no other terminator |
| Tokenizer.SentencesIgnoreUnterminatedTail | spell.py:52-58 | text after the last terminator never reaches any sentence |
| Tokenizer.TokenRun | spell.py:77 | the leading run of `[\w']` characters is maximal: all of it matches, and the next character does not |
| Tokenizer.ListWords | spell.py:61-77 | every token is non-empty and made only of `[\w']` characters, so it contains no comma, hyphen or space |
| Tokenizer.ListWordsKeepTokenChars | spell.py:77 | the tokens, concatenated, are exactly the `[\w']` characters of the input, in left-to-right order |
| Tokenizer.ListWordsOfJoin | spell.py:77 | tokens joined by single spaces tokenize back to the same tokens |
| Tokenizer.ListWordsIsPieces | spell.py:77 | the tokens are exactly the text cut at every non-`[\w']` character with the empty pieces dropped, so no token is split and no two are merged |
| Tokenizer.ListWordsDropsTrailingSeparator | spell.py:77 | appending a separator adds no token |
| Corrector.LeastMatch | spell.py:121-124 | `sorted(bucket)` then the first word whose prefix matches, as one scan that keeps the least matching word |
| Corrector.LeastMatchIsLeast | spell.py:121-124 | no result iff no bucket word matches; otherwise the result is a matching bucket word that sorts no later than every other matching word |
| Corrector.MatchCase | spell.py:125-128 | the new last character is the dictionary word's last character, upper-cased when the token's last character is upper-case and unchanged otherwise |
| Corrector.ClosestMatch | spell.py:117-128 | a successful correction has the token's length and keeps its prefix exactly, case included |
| Corrector.ClosestMatchChoosesLeast | spell.py:117-128 | NoMatch iff no same-length word matches the lower-cased prefix; otherwise the result is the token's prefix plus the least matching word's last character, upper-cased iff the token's last character is upper-case |
| Corrector.ClosestMatchFound | spell.py:121-128 | against a well-formed dictionary, a token whose lower-cased prefix matches some bucket word is always corrected |
| Corrector.ClosestMatchIgnoresBucketOrder | spell.py:121 | two buckets holding the same words give the same correction, whatever their order or repetition |
| Corrector.FindClosestMatch | spell.py:99-128 | the scan over the bucket returns the correction `ClosestMatch` describes, failures included |
| Reassembler.IsCorrectSentence | spell.py:131-147 | true iff every token of the sentence is in the dictionary |
| Reassembler.CorrectToken | spell.py:171-174 | one loop iteration: the token itself when it is known, its closest match otherwise |
| Reassembler.CorrectWords | spell.py:170-174 | the loop over all tokens, left to right, stopping at the first token with no correction |
| Reassembler.Corrected | spell.py:165-177 | what `correct_sentence` returns: the corrected tokens joined by single spaces plus the last character, or the failure it raises |
| Reassembler.CorrectTokenKeepsStem | spell.py:171-174 | a known token is kept; any result has the token's length and keeps all but its last character |
| Reassembler.CorrectWordsOk | spell.py:170-174 | on success there is one corrected word per token, each the token's own correction |
| Reassembler.CorrectWordsErr | spell.py:170-174 | on failure some token's correction failed with that error |
| Reassembler.CorrectWordsErrPrefix | spell.py:174 | once a token fails, the whole sentence fails with that error |
| Reassembler.SpacedIsJoinPlusSpace | spell.py:168-177 | the words each followed by a space, minus the last character, are the words joined by single spaces |
| Reassembler.AccumulateCorrections | spell.py:168-174 | the loop yields every token's correction followed by one space, and fails exactly when the token-by-token correction fails, with the same error |
| Reassembler.CorrectSentence | spell.py:150-177 | the loop returns the corrected tokens joined by single spaces plus the sentence's last character, or the first failure |
| Reassembler.CorrectWordsAllKnown | spell.py:171-172 | tokens that are all known come back unchanged |
| Reassembler.CorrectedKnownSentence | spell.py:170-177 | a sentence of known tokens comes back as its tokens joined by single spaces plus its last character |
| Reassembler.CorrectedNoWords | spell.py:165-177 | a non-empty sentence with no tokens comes back as just its last character |
| Reassembler.CorrectedFails | spell.py:165-174 | correction fails iff the sentence is empty or some unknown token has no match |
| Reassembler.CorrectedFailsOnlyNoMatch | spell.py:170-174 | against a well-formed dictionary a non-empty sentence can only fail with NoMatch, the `None + ' '` of an unmatched token |
| Reassembler.CorrectTokenIsToken | spell.py:125-128 | over a vocabulary of `[\w']` words, a correction is again a `[\w']` token |
| Reassembler.CorrectedRetokenizes | spell.py:166-177 | the output keeps the sentence's last character, and its body retokenizes to as many tokens as the input; each output token differs from its input token at most in the last character, and each known token is unchanged |
| Examples.RemoveLastCharExamples | spell.py:6-9 | 'abcde' gives 'abcd' and 'efgh\n' gives 'efgh' |
| Examples.PresentInDictExamples | spell.py:89-94 | 'across' is known, 'helle' is not, 'Hello' is known through lower-casing |
| Examples.ClosestMatchExamples | spell.py:109-114 | 'helle' gives 'hello', 'yelloy' gives 'yellos', 'HELLE' gives 'HELLO' |
| Examples.CorrectSentenceExample | spell.py:155-156 | 'Ww reached there.' with the dictionary {2: ['we'], 5: ['there'], 7: ['reached']} becomes 'We reached there.' |
| Examples.CorrectSentenceExample2 | spell.py:157-158 | 'I must sat!' with the dictionary {1: ['i'], 3: ['say'], 4: ['must']} becomes 'I must say!' |

## Left out

- The `__main__` block (spell.py:180-194) is left out: command-line arguments, file reading, and printing are I/O.
- `re.findall` is modelled by its result only. `\w` is ASCII letters, digits and `_`; its Unicode and locale meaning is not modelled.
- `str.lower`, `str.upper` and `str.isupper` are ASCII-only. So `Lower` never changes the length, and the Unicode cases where it would are not modelled.
- A `defaultdict` read inserts an empty list for a missing key (spell.py:96, 121). The model reads an absent key as an empty bucket and does not change the map.
- Corrector.FindClosestMatch does not build `sorted(...)`. It scans the bucket once and keeps the least matching word, which is the first match of the sorted list. The sort itself is not verified.
- Corrector.FindClosestMatch requires a non-empty token. For `''`, `word[-1]` would raise; `list_words` never produces an empty token.
- The commented-out punctuation TODO in `correct_sentence` (spell.py:160-163) is not behaviour and is not modelled.
- The dictionary is a value, not the mutable `defaultdict` object, so aliasing of the bucket lists is not modelled.
- Examples: the docstring examples of `list_sentences`, `list_words`, `create_dictionary` and `is_correct_sentence` are not restated. Their behaviour is covered by the general lemmas above.
