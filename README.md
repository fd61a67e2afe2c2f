# Text front end of the Text_to_Speech vocoder, in Dafny

This project models the text front end of `django_TTS/app/vocoder.py`. It has two parts.

- **The pronunciation-dictionary loader** (lines 53-57). Each line of a
  `WORD PHONEMES...` resource is stripped and split once at its first space.
  The part before the space is the key, and the stripped rest is the value.
  A later line with the same key overwrites the earlier one. A line with no
  space (a blank line, or one that separates with a tab only) raises
  `ValueError` and aborts the load.
- **The `ARPA` converter** (lines 62-72). The text is split on whitespace.
  For each word:
  - its punctuation characters are collected in order (`end_chars`);
  - the word is stripped of them on the right;
  - its upper-cased core is looked up, and a hit replaces the core by
    `{phonemes}`;
  - `" " + core + end_chars` is appended to the output.

  Finally `;` is added when the end-of-sequence marker is asked for and the
  output does not already end in `;`.

Both parts update state step by step in the source. Each becomes a method with
a loop:

- `PronunciationDict.LoadDictionary` fills a map line by line.
- `Arpa.Arpa` appends to `out` word by word. The body of its loop, which
  strips and looks up one word, is the method `Arpa.ConvertWord`.

Each loop's invariant ties the accumulator to a recursive specification over the
prefix processed so far:

- `Fill` for the dictionary;
- `Emit` over the word pieces for the converter.

The properties are proved about those specifications.

The Python string built-ins the code relies on are written out in module
`PyStr`:

- `str.isspace`, with the full set of code points CPython treats as whitespace;
- `strip`, `rstrip(chars)`, `split()` and `split(" ", 1)`;
- `upper`, for ASCII letters only.

Behaviours worth knowing, all as the code has them:

- Every non-empty converted text begins with a space (`Arpa.Convert`). The
  default call adds the end marker and so never returns an empty text. With an
  empty dictionary, `"Test."` becomes `" Test.;"`, not `"Test.;"`
  (`ArpaScenarios.ExampleTest`).
- Punctuation inside a word is collected too and appended again after the core.
  `"U.S."` becomes `" U.S.."` before the end marker, so the default call
  returns `" U.S..;"` (`ArpaScenarios.ExampleInitials`).
- Keys are stored exactly as read, never upper-cased. A key that is not its own
  upper-case form can never be hit (`Arpa.NonUpperKeyNeverHit`).
- With the marker asked for and a text without words, the source evaluates
  `out[-1]` on `''` and fails with `IndexError`. `Arpa.Convert` and `Arpa.Arpa`
  therefore require at least one word. `PyStr.StripEmptyIffNoWords` shows that
  the caller's blank-text guard (`django_TTS/app/views.py`, line 20) is exactly
  this condition.

Files:

- `wrappers.dfy`: `Option` and `Result`.
- `pystr.dfy`: the string built-ins.
- `pronunciation_dict.dfy`: the loader.
- `arpa.dfy`: the converter.
- `arpa_scenarios.dfy`: single-word conversions and worked examples.

## Model

| member | source | states |
|---|---|---|
| PyStr.IsSpace | django_TTS/app/vocoder.py:56 | `str.isspace` on one character: the code points CPython treats as whitespace (tab to carriage return, U+001C-U+001F, space, U+0085, U+00A0, U+1680, U+2000-U+200A, U+2028, U+2029, U+202F, U+205F, U+3000), which `strip()` and `split()` drop |
| PyStr.LStrip | django_TTS/app/vocoder.py:56 | the left half of `strip()`: the result is a suffix of the input and does not start with whitespace |
| PyStr.LStripRemovesSpace | django_TTS/app/vocoder.py:56 | every character removed on the left is whitespace, so the removed run is maximal |
| PyStr.RStrip | django_TTS/app/vocoder.py:56 | the right half of `strip()`: the result is a prefix of the input and does not end in whitespace |
| PyStr.RStripRemovesSpace | django_TTS/app/vocoder.py:56 | every character removed on the right is whitespace |
| PyStr.Strip | django_TTS/app/vocoder.py:56-57 | `strip()` never lengthens a string, and a non-empty result starts and ends with non-whitespace |
| PyStr.StripBlank | django_TTS/app/vocoder.py:56 | `strip()` gives `''` exactly for strings made only of whitespace (both directions) |
| PyStr.EndsInNonSpace | django_TTS/app/vocoder.py:57 | a string ending in a non-whitespace character does not strip to `''` |
| PyStr.StripTrimmed | django_TTS/app/vocoder.py:57 | `strip()` leaves an already trimmed string unchanged |
| PyStr.RStripChars | django_TTS/app/vocoder.py:66 | `rstrip(chars)` keeps a prefix of the word that does not end in a character of `chars` |
| PyStr.RStripCharsRemoves | django_TTS/app/vocoder.py:66 | every character `rstrip(chars)` removes is in `chars` |
| PyStr.RStripCharsAgree | django_TTS/app/vocoder.py:66 | `rstrip` gives the same result for two character sets that agree on the string's own characters |
| PyStr.FirstIndex | django_TTS/app/vocoder.py:56 | the split point of `split(" ", 1)`: the first `' '`, with none before it; it is the length exactly when there is no space |
| PyStr.FirstIndexOfFirst | django_TTS/app/vocoder.py:56 | an occurrence with none before it is the split point |
| PyStr.UpperChar | django_TTS/app/vocoder.py:68 | ASCII `upper` on one character: `a`-`z` move down by 32, every other character is left as it is |
| PyStr.Upper | django_TTS/app/vocoder.py:68 | `word.upper()` keeps the length and upper-cases each character in place |
| PyStr.UpperIdempotent | django_TTS/app/vocoder.py:68 | upper-casing twice is upper-casing once |
| PyStr.RunLen | django_TTS/app/vocoder.py:64 | the leading run of non-whitespace ends at whitespace or at the end of the string |
| PyStr.RunLenIsWord | django_TTS/app/vocoder.py:64 | a non-empty leading run is a word (non-empty, no whitespace) |
| PyStr.RunLenAppend | django_TTS/app/vocoder.py:64 | the leading run of a concatenation stays inside the first part unless that part is all non-whitespace |
| PyStr.RunLenBeforeSpace | django_TTS/app/vocoder.py:64 | a whitespace character ends the leading run |
| PyStr.Words | django_TTS/app/vocoder.py:64 | `text.split()`: the maximal runs of non-whitespace characters, left to right; leading, trailing and repeated whitespace yields no empty word |
| PyStr.WordsAreWords | django_TTS/app/vocoder.py:64 | every element of `split()` is non-empty and whitespace-free |
| PyStr.WordsBlank | django_TTS/app/vocoder.py:64 | `split()` is empty exactly for blank strings |
| PyStr.WordsOfWord | django_TTS/app/vocoder.py:64 | a single word splits to itself |
| PyStr.WordsSplitAtSpace | django_TTS/app/vocoder.py:64 | splitting at any whitespace character separates the words of the two sides, in order |
| PyStr.WordsJoinSpace | django_TTS/app/vocoder.py:64 | `split()` undoes joining words with single spaces (round trip) |
| PyStr.StripEmptyIffNoWords | django_TTS/app/views.py:20 | the caller's `not input_text.strip()` guard holds exactly when the text has no words |
| PronunciationDict.SplitOnce | django_TTS/app/vocoder.py:56 | unpacking `s.split(" ", 1)` into key and value fails exactly when `s` holds no space |
| PronunciationDict.SplitStripped | django_TTS/app/vocoder.py:56 | splitting a stripped line at its first space gives a non-empty, space-free key and a value that does not strip to `''` |
| PronunciationDict.ParseLine | django_TTS/app/vocoder.py:56 | unpacking `line.strip().split(" ", 1)` fails exactly when the stripped line holds no space |
| PronunciationDict.ParseLineWellFormed | django_TTS/app/vocoder.py:56-57 | a parsed key is non-empty and space-free, and its value is non-empty |
| PronunciationDict.ParseLineFormat | django_TTS/app/vocoder.py:56-57 | a key that is non-empty, space-free and does not start with whitespace, followed by a space and a trimmed value, parses back to that key and value (round trip) |
| PronunciationDict.SplitOnceFormat | django_TTS/app/vocoder.py:56-57 | splitting `key + " " + value` once, with a non-empty space-free key and a trimmed value, gives that key and value back |
| PronunciationDict.SplitAtFirst | django_TTS/app/vocoder.py:56 | a space with no space before it is where `split(" ", 1)` cuts; the value is the stripped rest |
| PronunciationDict.ParseAll | django_TTS/app/vocoder.py:55-56 | every line is parsed on its own, in file order |
| PronunciationDict.Fill | django_TTS/app/vocoder.py:55-57 | the loop over the parsed lines, starting from `{}`: each parsed line assigns `dict[key] = value` over the earlier ones, and the first line that does not unpack ends the load with an error naming its index |
| PronunciationDict.Load | django_TTS/app/vocoder.py:53-57 | the whole loader: a missing file is `FileNotFoundError`, otherwise `Fill` of the lines parsed one by one |
| PronunciationDict.FillPrefixErr | django_TTS/app/vocoder.py:55-56 | once a line has failed, the later lines do not change the outcome |
| PronunciationDict.FillStep | django_TTS/app/vocoder.py:57 | a parsed line assigns its key in the map built from the earlier lines |
| PronunciationDict.FillStopsAt | django_TTS/app/vocoder.py:56 | the first line that does not unpack decides the outcome: an error naming that line |
| PronunciationDict.LoadDictionary | django_TTS/app/vocoder.py:53-57 | the loop fills the map as `Load` specifies: a missing file fails, otherwise the lines are applied in order until the first bad one |
| PronunciationDict.FillOutcome | django_TTS/app/vocoder.py:55-56 | the load succeeds exactly when every line parses; otherwise the error names the first line that does not |
| PronunciationDict.FillKeys | django_TTS/app/vocoder.py:57 | the keys are exactly the keys of the parsed lines, and every entry comes from some line |
| PronunciationDict.FillLastWins | django_TTS/app/vocoder.py:57 | the last line with a given key decides its value |
| PronunciationDict.FillAppendLine | django_TTS/app/vocoder.py:57 | one more line sets its key and leaves every other key unchanged |
| PronunciationDict.LoadedEntriesWellFormed | django_TTS/app/vocoder.py:53-57 | after a successful load, every key is non-empty and space-free and every value is non-empty |
| Arpa.DefaultPunctuation | django_TTS/app/vocoder.py:62 | the default `punctuation` argument, the five characters `!?,.;` |
| Arpa.EndChars | django_TTS/app/vocoder.py:65 | `end_chars`: the word's characters that are in `punctuation`, in their order in the word, wherever they occur |
| Arpa.EndCharsAppend | django_TTS/app/vocoder.py:65 | collecting punctuation distributes over concatenation, so order is kept |
| Arpa.EndCharsMembers | django_TTS/app/vocoder.py:65 | a character is collected exactly when it occurs in the word and is punctuation, interior ones included |
| Arpa.EndCharsAllPunct | django_TTS/app/vocoder.py:65 | a string made only of punctuation is collected whole |
| Arpa.Core | django_TTS/app/vocoder.py:66 | the word after `rstrip(end_chars)`, which treats `end_chars` as a set of characters |
| Arpa.CoreStripsTrailingPunct | django_TTS/app/vocoder.py:65-66 | stripping the collected characters removes the maximal trailing run of punctuation; the core does not end in punctuation, and core followed by the removed run is the word |
| Arpa.CoreIsRStrip | django_TTS/app/vocoder.py:65-66 | `word.rstrip(end_chars)` equals `word.rstrip(punctuation)`, so the core never ends in a punctuation character |
| Arpa.StrippedTailIsPunct | django_TTS/app/vocoder.py:66 | every character `rstrip(punctuation)` removes is a punctuation character |
| Arpa.CoreTail | django_TTS/app/vocoder.py:65-66 | the word is its core followed by the removed tail, and that tail is the last part of `end_chars` |
| Arpa.Piece | django_TTS/app/vocoder.py:65-71 | what one word contributes after its space: the braced phonemes when the upper-cased core is a key, otherwise the core as written, followed by `end_chars` |
| Arpa.Pieces | django_TTS/app/vocoder.py:64-71 | one piece per word, in word order |
| Arpa.ConvertWord | django_TTS/app/vocoder.py:65-70 | one pass of the loop body: `end_chars` is the word's punctuation, and the new `word` followed by `end_chars` is that word's piece |
| Arpa.Emit | django_TTS/app/vocoder.py:63-71 | the output before the marker is empty exactly when there are no words, and otherwise begins with a space |
| Arpa.EmitPrefixStep | django_TTS/app/vocoder.py:71 | one more word appends a space and that word's piece |
| Arpa.Finish | django_TTS/app/vocoder.py:72 | without the marker the output is returned as is; with it, the result ends in `;`, and `;` is added exactly when the output does not already end in one |
| Arpa.Convert | django_TTS/app/vocoder.py:62-72 | `ARPA(text, punctuation, EOS_Token)`: `Finish` applied to `Emit` of the pieces of `Words(text)`; a word is required when the marker is asked for (otherwise `out[-1]` raises); the result is empty exactly when the text has no words, a non-empty result starts with a space, and with the marker it ends in `;` |
| Arpa.Arpa | django_TTS/app/vocoder.py:62-72 | the loop returns `Convert`: the marker step applied to the pieces of the words in order |
| Arpa.EmitAppend | django_TTS/app/vocoder.py:63-71 | the output of two runs of words is the concatenation of their outputs |
| Arpa.EmitIsSpacedJoin | django_TTS/app/vocoder.py:63-71 | with at least one word, the output is a space followed by the pieces joined by single spaces |
| Arpa.PieceHit | django_TTS/app/vocoder.py:67-71 | on a hit, the piece is the phonemes in braces followed by all of the word's punctuation |
| Arpa.PieceMiss | django_TTS/app/vocoder.py:67-71 | on a miss, the piece is the core in its original case, then the core's own punctuation, then the stripped tail |
| Arpa.RejoinCore | django_TTS/app/vocoder.py:66 | a core with no punctuation inside, followed by the stripped tail, gives the word back |
| Arpa.PieceMissUnchanged | django_TTS/app/vocoder.py:66-71 | a missing word whose punctuation is all at its end comes out unchanged |
| Arpa.NonUpperKeyNeverHit | django_TTS/app/vocoder.py:68 | a key that differs from its upper-case form is never looked up |
| Arpa.ConvertKeepsExistingMarker | django_TTS/app/vocoder.py:72 | when the last word ends in `;` and `;` is punctuation, no second marker is added |
| Arpa.FinishIdempotent | django_TTS/app/vocoder.py:72 | applying the marker step twice adds the marker once |
| ArpaScenarios.ConvertSingleWord | django_TTS/app/vocoder.py:62-72 | a one-word text converts to a space and that word's piece, then the marker step |
| ArpaScenarios.ConvertFoundWord | django_TTS/app/vocoder.py:65-72 | a found word whose punctuation does not end in `;` becomes a space, the phonemes in braces, all of its punctuation in order (interior characters included, if any) and `;` |
| ArpaScenarios.ConvertMissingWord | django_TTS/app/vocoder.py:66-72 | a missing word that does not end in `;` and has punctuation only at its end becomes a space, the word and `;` |
| ArpaScenarios.ExampleHello | django_TTS/app/vocoder.py:62-72 | with `HELLO -> AH L OW1` in the dictionary, `"Hello!"` becomes `" {AH L OW1}!;"` |
| ArpaScenarios.ExampleTest | django_TTS/app/vocoder.py:62-72 | with an empty dictionary, `"Test."` becomes `" Test.;"`, leading space included |
| ArpaScenarios.ExampleInitials | django_TTS/app/vocoder.py:65-71 | without the end marker, `"U.S."` becomes `" U.S.."`: the interior `.` is appended again |

## Left out

- Tacotron2 and HiFi-GAN loading and inference (`django_TTS/app/vocoder.py`, lines 75-104 and 108-139) are left out. They are torch calls on floating-point tensors, and their decoding loop lives in a class that is not part of this model.
- Spectrogram plotting, writing the WAV file and the `sys.path` set-up are left out because they are I/O.
- Reading the dictionary file is I/O. `LoadDictionary` takes the file as `None` (missing) or as its list of lines. Splitting the file into lines is not modelled. A line's trailing newline is removed by `strip()`, as in the source.
- The "Downloading pronunciation dictionary..." branch only prints. A missing file surfaces as the `FileNotFound` error of `open`.
- PyStr.UpperChar: only ASCII `a`-`z` are mapped; every other character, including non-ASCII letters that Python's `str.upper` would change, is left as it is.
- PyStr.Upper: only ASCII `a`-`z` are upper-cased. Python's `str.upper` maps all of Unicode, including length-changing cases such as `ß`; non-ASCII words may therefore differ in their dictionary lookup.
- Arpa.Convert: the `IndexError` from `out[-1]` on a word-less text with the marker asked for is a precondition, not an error result. The caller's blank-text guard excludes that input.
- `django_TTS/app/views.py` is not part of this model, except for its blank-text guard. The same goes for `django_TTS/app/urls.py` (routing) and `mos.py` (GUI, audio playback, CSV files and floating-point statistics).
