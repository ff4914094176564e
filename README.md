# Caesar cipher (ps6.py) in Dafny

This project models the Caesar-cipher utility `ps6.py` and proves properties of the model.

- `Message` holds a text and a word list.
- `build_shift_dict(shift)` builds the table that sends each of the 52 ASCII letters `shift` places along its own alphabet, modulo 26.
- `apply_shift(shift)` copies the text and replaces every `str.isalpha` letter by its table entry.
- `PlaintextMessage` keeps a shift, its table and the encrypted text in step with one another.
- `CiphertextMessage.decrypt_message` tries all 26 loop values `s`. For each it decrypts with `apply_shift(26 - s)` and splits the result on whitespace. It counts the tokens accepted by `is_word`, meaning lower-cased, stripped of a fixed punctuation set at both ends, and found in the list. It keeps the first strictly larger count.

Files:

- `wrappers.dfy`: `Option` and `Result`. `Result.KeyError(key)` is the `KeyError` Python raises.
- `chars.dfy`: the character classes of `str.isalpha`, `str.isspace` and `str.lower`, written out exactly for U+0000..U+00FF.
- `cipher.dfy`: the shift table and `apply_shift` as functions on values, with their properties.
- `words.dfy`: `str.lower`, `str.strip(chars)`, `is_word`, `str.split()`, the tokenising step of `load_words`, and the valid-word count.
- `messages.dfy`: the three classes as Dafny classes with loop-based methods, the specification of `decrypt_message`, and the two examples of the `__main__` block as a lemma and two methods.

Notes on the model:

- `build_shift_dict`, `apply_shift` and `decrypt_message` are methods with loops. Each is proved against the functions of `cipher.dfy` and the search specification in `messages.dfy`.
- A shift is any integer. Python's `%` with a positive modulus agrees with Dafny's, so `apply_shift(26)`, the call `decrypt_message` makes for loop value 0, is covered.
- `str.isalpha` is true for letters such as U+00E9 that have no entry in the table. For those, `apply_shift` raises `KeyError` on the leftmost such letter. The model returns `KeyError` with that letter, and `decrypt_message` passes it on.
- `decrypt_message` reports the loop value `s`, which is the shift that encrypted the text, not the `26 - s` that decrypts it. So for `'jgnnq'` with `'hello'` in the list the code returns `(2, 'hello')`. The `__main__` block prints `(24, 'hello')` as the expected output (ps6.py:212). The model follows the code: `Messages.DecryptJgnnq` proves the result `(2, 'hello')`.

## Model

| member | source | states |
|---|---|---|
| Chars.IsAlpha | ps6.py:112 | `char.isalpha()`, which alone decides whether `apply_shift` looks a character up in the table: the ASCII letters, U+00AA, U+00B5, U+00BA and U+00C0..U+00FF except U+00D7 and U+00F7 (a predicate) |
| Chars.IsSpace | ps6.py:15 | The whitespace `str.split()` separates at: U+0009..U+000D, U+001C..U+0020, U+0085 and U+00A0 (a predicate) |
| Chars.LowerChar | ps6.py:30 | The lower case of one character: a capital (A..Z, U+00C0..U+00DE except U+00D7) moves exactly 32 code points up, every other character is unchanged; letters and whitespace stay letters and whitespace, and no capital is left |
| Words.Lower | ps6.py:30 | `str.lower` of a text keeps its length; `LowerSpec` gives it position by position |
| Words.LowerSpec | ps6.py:30 | `str.lower` replaces every character by its lower case at the same position |
| Words.LowerIdempotent | ps6.py:30 | Lowering twice is lowering once |
| Words.LeadingInSpec | ps6.py:31 | What `lstrip(chars)` removes is a run of characters of `chars`, and it stops at the first character not in `chars` |
| Words.TrailingInSpec | ps6.py:31 | What `rstrip(chars)` removes is a run of characters of `chars`, and it stops at the last character not in `chars` |
| Words.StripLeft | ps6.py:31 | `lstrip(chars)`: never longer than its input; `LeadingInSpec` fixes what it removes |
| Words.StripRight | ps6.py:31 | `rstrip(chars)`: never longer than its input; `TrailingInSpec` fixes what it removes |
| Words.Strip | ps6.py:31 | `strip(chars)`, `rstrip` after `lstrip`: never longer than its input; the lemmas below fix it |
| Words.StripRemovesRuns | ps6.py:31 | What `strip` removes in front and behind are runs of characters of `chars` |
| Words.StripEnds | ps6.py:31 | What `strip` keeps is empty or begins and ends with a character not in `chars` |
| Words.StripExact | ps6.py:31 | A run of `chars`, a core that neither begins nor ends with one, and another run strip to exactly the core; characters of `chars` inside the core stay |
| Words.StripIdempotent | ps6.py:31 | Stripping twice is stripping once |
| Words.StripKeepsLower | ps6.py:30-31 | Stripping a lower-case text leaves a lower-case text |
| Words.StrippedRuns | ps6.py:31 | The strip set `STRIP_CHARS` is exactly the four ASCII runs `' '..'/'`, `':'..'@'`, `'['..'_'` and `'{'..'}'`, backslash included |
| Words.StrippedIsNotLetter | ps6.py:31 | No character of the strip set is a letter, so `strip` never removes a letter |
| Words.LowerKeepsStripped | ps6.py:30-31 | Lowering neither adds nor removes characters of the strip set |
| Words.LowerAppend | ps6.py:30 | Lowering a concatenation lowers each part |
| Words.Normalize | ps6.py:30-31 | Lower-casing then stripping the punctuation set never lengthens a token; its properties are the lemmas below |
| Words.IsWord | ps6.py:20-32 | `is_word`: the normalised token is one of the listed words (a predicate; `IsWordIgnoresCase`, `NormalizeIdempotent`, `IsWordStripsEnds` and `IsWordAllStripped` state its properties) |
| Words.IsWordIgnoresCase | ps6.py:20-32 | `is_word` ignores case: a token and its lower-cased form are both words or both not |
| Words.NormalizeIdempotent | ps6.py:30-32 | Normalising (lower, then strip) is idempotent, so `is_word` of a normalised token agrees with `is_word` of the token |
| Words.IsWordStripsEnds | ps6.py:20-32 | For a stripped run, a core not beginning or ending with a stripped character, and another run, `is_word` answers whether the lower-cased core is listed |
| Words.IsWordAllStripped | ps6.py:30-32 | A token made only of stripped characters normalises to "" and is a word exactly when "" is listed |
| Words.LeadingSpaceSpec | ps6.py:15 | The whitespace `split` skips is a run of whitespace that stops at the first other character |
| Words.WordLengthSpec | ps6.py:15 | Each token `split` takes is a run of non-whitespace that stops at whitespace or at the end |
| Words.Split | ps6.py:15 | Every token of `str.split()` is non-empty and free of whitespace |
| Words.SplitSkipsSpace | ps6.py:15 | Whitespace in front changes nothing for `split` |
| Words.SplitToken | ps6.py:15 | A lone token splits to itself |
| Words.SplitTokenThen | ps6.py:15 | A token, any one whitespace character (space, tab, newline, ...) and more text split to the token followed by the tokens of the rest; with `SplitSkipsSpace` and `SplitToken` this fixes `split` on every input |
| Words.SplitJoin | ps6.py:15 | Round trip: splitting tokens joined by single spaces gives back the tokens |
| Words.SplitKeepsNonSpace | ps6.py:15 | `split` drops only whitespace: its tokens laid end to end are the text's other characters, in order |
| Words.SplitTrailingSpace | ps6.py:14-15 | Whitespace at the end (the newline `readline` keeps) changes nothing for `split` |
| Words.FirstLine | ps6.py:14 | `readline` returns a prefix with no newline before its last character, ending in a newline unless it is the whole input |
| Words.LoadWords | ps6.py:13-15 | Every loaded word is non-empty and free of whitespace, so "" is never in the word list |
| Words.LoadWordsFirstLine | ps6.py:14-15 | Only the first line is read, and its tokens are the word list |
| Words.SplitLetterless | ps6.py:15 | The tokens of a text without letters have no letters |
| Words.NormalizeLetterless | ps6.py:30-31 | Lowering and stripping a token without letters leaves no letters |
| Words.IsWordLetterless | ps6.py:20-32 | When every listed word has a letter, a token without letters is not a word |
| Words.CountWhere | ps6.py:191 | The number of tokens satisfying a test is at most the number of tokens |
| Words.CountWhereAppend | ps6.py:191 | Counting is additive over concatenation of token sequences |
| Words.CountWhereExtremes | ps6.py:191 | A count of tokens satisfying a test is 0 exactly when none does, and the number of tokens exactly when all do |
| Words.CountValidWords | ps6.py:191 | The valid-word count of a token sequence is at most its length |
| Words.CountValidWordsAppend | ps6.py:191 | The valid-word count of `a + b` is the count of `a` plus the count of `b` |
| Words.CountValidWordsSingle | ps6.py:191 | One token counts 1 if it is a word and 0 otherwise; with `CountValidWordsAppend` the count is the number of tokens that are words |
| Words.CountValidWordsExtremes | ps6.py:191 | The valid-word count is 0 exactly when no token is a word, and the number of tokens exactly when all are |
| Cipher.Rotate | ps6.py:92-93 | The letter `shift` places on has the same case, at alphabet index `(i + shift) % 26` |
| Cipher.AlphabetAt | ps6.py:88-89 | `LOWERCASE` and `UPPERCASE`, the two loops' alphabets, hold at position `i` the letter `i` code points after `a` and `A` |
| Cipher.ShiftTable | ps6.py:87-95 | The value `build_shift_dict` returns (a map comprehension; `ShiftTableEntries`, `ShiftTableAt` and `ShiftTableBijective` state its properties) |
| Cipher.ShiftTableAt | ps6.py:91-93 | The table sends the letter at position `i` of each alphabet to position `(i + shift) % 26` of the same alphabet |
| Cipher.ShiftTableEntries | ps6.py:87-95 | The table's keys are exactly the 52 ASCII letters, with the entries above |
| Cipher.ShiftTableBijective | ps6.py:87-95 | The table keeps case, is one-to-one, has its keys as its values, and is undone by the table of `26 - shift` |
| Cipher.ShiftTableUndo | ps6.py:92-93 | The tables of `shift` and `26 - shift` undo each other letter by letter |
| Cipher.RotateCompose | ps6.py:92-93 | Rotating by `a` and then by `b` is rotating by `a + b` |
| Cipher.RotateWhole | ps6.py:92-93 | Rotating by a multiple of 26 leaves a letter alone |
| Cipher.PartialTableStep | ps6.py:91-93 | One round of the loop adds the entries of position `i` of both alphabets to those of the earlier rounds |
| Cipher.Substitute | ps6.py:112-115 | What one loop round appends: the table entry of a letter, any other character unchanged (a function whose `requires` is that every letter has an entry) |
| Cipher.Translate | ps6.py:108-117 | The copy loop over any table succeeds exactly when every letter has an entry; it then keeps the length and substitutes position by position, and otherwise raises `KeyError` on the leftmost letter without an entry |
| Cipher.ApplyShift | ps6.py:97-117 | `apply_shift` succeeds exactly when no letter lies outside ASCII. The result has the same length, each ASCII letter is rotated within its case, and every other character stays in place. Otherwise it raises `KeyError` on the leftmost foreign letter |
| Cipher.ApplyShiftTranslates | ps6.py:108-117 | `apply_shift` is the copy loop over the table `build_shift_dict` makes, with the same result or the same `KeyError` |
| Cipher.ApplyShiftFailureIgnoresShift | ps6.py:111-113 | Whether `apply_shift` raises, and on which key, does not depend on the shift |
| Cipher.ApplyShiftCompose | ps6.py:92-93 | Shifting by `a` and then by `b` is shifting by `a + b` |
| Cipher.ApplyShiftIdentity | ps6.py:92-93 | On a text it can shift, a shift by a multiple of 26 changes nothing |
| Cipher.ApplyShiftWhole | ps6.py:189 | A shift by any multiple of 26, such as `apply_shift(26)`, behaves as `apply_shift(0)` and returns the text unchanged when it succeeds |
| Cipher.ApplyShiftRoundTrip | ps6.py:189 | Shifting by `s` and then by `26 - s` gives back the original text |
| Messages.Message.constructor | ps6.py:46-57 | The message keeps the text and word list it was given |
| Messages.Message.GetMessageText | ps6.py:59-65 | Returns the message text |
| Messages.Message.GetValidWords | ps6.py:67-73 | Returns the word list, a value the caller cannot use to change it |
| Messages.Message.BuildShiftDict | ps6.py:75-95 | The loop builds exactly the shift table of `shift` |
| Messages.Message.ApplyShift | ps6.py:97-117 | The loop returns what `Cipher.ApplyShift` specifies, including the `KeyError` on the leftmost foreign letter |
| Messages.PlaintextMessage.constructor | ps6.py:120-144 | Stores the shift, its table and the encrypted text, which agree with one another (`Valid`) |
| Messages.PlaintextMessage.GetShift | ps6.py:146-148 | Returns the current shift |
| Messages.PlaintextMessage.GetEncryptingDict | ps6.py:150-152 | Returns a copy of the table, which is the shift table of the current shift |
| Messages.PlaintextMessage.GetMessageTextEncrypted | ps6.py:154-156 | Returns the text encrypted with the current shift |
| Messages.PlaintextMessage.ChangeShift | ps6.py:158-163 | Sets the shift and recomputes the table and encrypted text so that they agree with it; text and word list stay |
| Messages.Candidate | ps6.py:189 | The text tried for loop value `shift`, `apply_shift(26 - shift)`, has the length of the message text |
| Messages.CandidateScore | ps6.py:190-191 | The valid-word count of the tokens of a candidate (its value is given by `DecryptStep`, `OneWordScore`) |
| Messages.Scores | ps6.py:188-191 | The 26 candidate scores, one per loop value |
| Messages.RunningBest | ps6.py:193-197 | The running best and maximum after some rounds: a count replaces the maximum only when it is strictly larger (`RunningBestSearched` states what they are) |
| Messages.SearchStep | ps6.py:193-197 | A strictly larger count replaces the running best, and the running values still describe the scores seen so far |
| Messages.RunningBestSearched | ps6.py:183-197 | After any number of rounds, the running best is the first positive maximum of the scores seen, or `None` with count 0 if all were 0 |
| Messages.SearchDone | ps6.py:183-200 | After all rounds the running best is `None` exactly when every score is 0, and otherwise the first positive maximum |
| Messages.DecryptStep | ps6.py:189-191 | The count of one round is the score of candidate `shift`, computed with `apply_shift(26 - shift)` |
| Messages.DecryptDone | ps6.py:183-200 | The running best after 26 rounds is `None` exactly when no candidate scores, and otherwise the first best shift |
| Messages.CiphertextMessage.constructor | ps6.py:166-172 | The message keeps the ciphertext and word list it was given |
| Messages.CiphertextMessage.DecryptMessage | ps6.py:174-200 | Raises `KeyError` exactly when the text has a letter outside ASCII. Returns `(None, None)` exactly when no candidate has a word. Otherwise returns `(b, apply_shift(26 - b))`, where candidate `b` has a positive count no other beats and every smaller loop value scores strictly less |
| Messages.CandidateUndoesEncryption | ps6.py:189 | If the text was shifted by `k`, the candidate for loop value `k` is the original text |
| Messages.FirstBestUnique | ps6.py:193 | Ties go to the lowest loop value, so at most one shift can be reported |
| Messages.LetterlessText | ps6.py:183-200 | A text without letters is its own candidate for every shift, so only shift 0 can be reported |
| Messages.LetterlessNoScore | ps6.py:183-200 | When every listed word has a letter (as the documented word list of lowercase words does), a text without letters scores 0 for every shift, so `decrypt_message` returns `(None, None)` |
| Messages.ShiftLowerWord | ps6.py:92-93 | Shifting a word of small letters gives one, and gives the same word exactly for multiples of 26 |
| Messages.OneWordScore | ps6.py:188-191 | For a lower-case word shifted by `k`, with only that word listed, the candidate for loop value `k` scores 1 and every other candidate scores 0 |
| Messages.OneWordDecrypt | ps6.py:183-200 | With only the plain word listed, `decrypt_message` of that word shifted by `k` reports `k`, not `26 - k` |
| Messages.EncryptHelloText | ps6.py:206-208 | `apply_shift` of `'hello'` by 2 gives `'jgnnq'` |
| Messages.EncryptHello | ps6.py:206-208 | `PlaintextMessage('hello', 2)` encrypts to `'jgnnq'` |
| Messages.DecryptJgnnq | ps6.py:211-213 | `CiphertextMessage('jgnnq')` with `'hello'` listed decrypts to `(2, 'hello')`, not the `(24, 'hello')` printed as expected |

## Left out

- File I/O: the `open`, `readline`, `read` and `close` calls of `load_words` and `get_story_string`. The word list and the texts are inputs; `Words.LoadWords` models the tokenising of the file's contents.
- `get_story_string` and the story decryption at the end of the `__main__` block, which need `story.txt`.
- The `print` calls and `os.getcwd()`. The two small examples of the `__main__` block are `Messages.EncryptHello` and `Messages.DecryptJgnnq`.
- `WORDLIST_FILENAME` and the reloading of the word list by every `Message` constructor. The word list is a constructor argument.
- Characters above U+00FF. `str.isalpha`, `str.isspace` and `str.lower` are exact for U+0000..U+00FF only. Above that, the Unicode tables and multi-character lower cases are not modelled.
- Universal-newline translation of text-mode files, which turns both `\r\n` and a lone `\r` into `\n`: `Words.FirstLine` ends a line at `\n` only, so a word-list file whose lines end in a lone `\r` is read as one line.
- Messages.PlaintextMessage.constructor: requires a text with no letter outside ASCII. For any other text, Python's `__init__` raises `KeyError` and no object exists, so there is no object state to model.
- Messages.PlaintextMessage.GetEncryptingDict and Messages.PlaintextMessage.GetMessageTextEncrypted: require the object invariant `Valid()`, which the constructor and `ChangeShift` establish. Python does not stop callers from assigning to the fields directly; the model does not cover that.
- Subclassing: `PlaintextMessage` and `CiphertextMessage` hold a `Message` rather than inheriting from it, because the model has no traits.
