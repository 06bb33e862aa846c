# Decoding the frame-timing message

This project models the decoding core of `full_arg_process.py`, a script that
recovers a hidden text from a collection of animated images:

- **Timing extraction.** Each image is a list of frames `(black, duration)`. An
  image whose durations do not add up to exactly 19684800 is rejected.
  Otherwise every frame contributes its colour once per whole 400-unit slot of
  its duration (the duration is truncated, not rounded), in frame order.
- **Matrix assembly.** The rejected images are dropped and the surviving rows
  are stacked in image order. The run fails when no image survives or when a
  row's length differs from the first row's.
- **Sequence map.** Each image comment carries `Data recovered: SEQ-<n> = '<c>'`.
  The map starts as `{0: ' '}` and each comment sets `map[n] = c`, later ones
  overwriting earlier ones. A comment that does not match stops the run. Then
  keys 30045 and 12525 are deleted (a missing one stops the run) and a fixed
  table of ten manual corrections is applied.
- **Decoding.** The sequence map is walked in dictionary order. Each position's
  column pattern is sent to its character, so a later position with the same
  pattern wins, and a position past the last column stops the run. Each
  column pattern is also sent to the index of its first occurrence. Every
  column then contributes its character, or `<j>` with `j` its
  first-occurrence index. Finally `^J`, `^I` and `^L` become newline, tab and
  form feed.

Python dictionaries whose iteration order matters are modelled as
`Dicts.Dict`: a key sequence in insertion order plus a `map`. Overwriting a key
keeps its place, `del` removes it, and a new key goes to the end. The letter map
and the first-occurrence map are only looked up, so they are plain `map`s. Each
loop of the program is a method proved against a function. The properties are
proved as lemmas about those functions. The exceptions the program can raise
on its inputs are the constructors of `Common.Error`.

Modules: `Common` (Option, Result, Error), `Text` (decimal digits, `str.replace`),
`Timing`, `Matrix`, `Dicts`, `Comments` (the comment pattern), `SequenceMap`,
`Decoder`, `Pipeline` (the whole run).

Three behaviours of the program are easy to get wrong, and the model keeps them
as the code has them:
- Durations are truncated to whole slots by `int(d/400)`
  (full_arg_process.py:57), not rounded.
- Column 0 does not always decode to a space. A later sequence-map position
  with the same column pattern overrides it (`Decoder.SharedColumnOverridesSpace`),
  and so does a comment carrying number 0. `Decoder.SpaceAtPositionZero` states
  when the space does appear.
- A comment that does not match the pattern stops the run: `re.search` returns
  `None` and `m.group` fails on it (full_arg_process.py:96-97).

## Model

| member | source | states |
|---|---|---|
| `Timing.GetTimingArray` | full_arg_process.py:38-59 | no row exactly when the durations do not sum to 19684800; otherwise the resampled row, and nothing partial |
| `Timing.Resample` | full_arg_process.py:54-58 | the row has one entry per whole 400-unit slot, summed over the frames |
| `Timing.ResampleAppend` | full_arg_process.py:54-58 | the entries of earlier frames come before those of later frames |
| `Timing.ResampleAt` | full_arg_process.py:54-58 | entry `i` is true iff the frame whose slot range covers `i` is black |
| `Timing.SlotsAndLeftover` | full_arg_process.py:57 | 400 times the slot count plus the truncated remainders equals the total duration |
| `Timing.LeftoverZero` | full_arg_process.py:57 | the truncated remainders sum to zero iff every duration is a multiple of 400 |
| `Timing.AcceptedLength` | full_arg_process.py:52-58 | an accepted row has at most 49212 entries, and exactly that many iff every duration is a multiple of 400 |
| `Matrix.ExtractAll` | full_arg_process.py:63-65 | one extractor result per image, in image order |
| `Matrix.GetAllTimings` | full_arg_process.py:62-70 | succeeds iff some row survives and all survivors have the same length; the matrix is then exactly the survivors in order; otherwise the error says which of the two failed |
| `Matrix.SurvivorsAppend` | full_arg_process.py:65 | filtering keeps the input order |
| `Matrix.SurvivorsMembership` | full_arg_process.py:65 | a row survives iff some result carries it |
| `Matrix.QuantisedImagesGiveUniformRows` | full_arg_process.py:66-69 | when every duration is a multiple of 400, every surviving row has 49212 entries, so stacking cannot fail on length |
| `Text.NatToString` | full_arg_process.py:141 | the placeholder number is a non-empty run of decimal digits without a leading zero |
| `Text.DigitsValue` | full_arg_process.py:97 | `int` of a digit run is 0 exactly when every digit is `0` |
| `Text.DigitsRoundTrip` | full_arg_process.py:97 | reading back the decimal text of `n` gives `n` |
| `Text.Replace` | full_arg_process.py:142 | `str.replace` with a replacement no longer than the pattern never lengthens the text |
| `Text.ReplaceAfterClean` | full_arg_process.py:142 | text free of the pattern's first character is copied through, and replacing resumes after it |
| `Text.ReplaceWithoutLead` | full_arg_process.py:142 | a string without the pattern's first character is returned unchanged |
| `Text.ReplaceRemoves` | full_arg_process.py:142 | after a replacement, the two-character pattern no longer occurs |
| `Text.ReplaceKeepsAbsent` | full_arg_process.py:142 | a replacement does not create a caret pair that was absent before |
| `Dicts.Insert` | full_arg_process.py:97 | `d[k] = v` keeps the dictionary well formed, sets `k` and keeps the existing order as a prefix |
| `Dicts.Remove` | full_arg_process.py:110-111 | `del d[k]` keeps the dictionary well formed, removes exactly `k`, and its key order is the old order without `k` |
| `Dicts.WithoutKeepsOrder` | full_arg_process.py:110-111 | dropping a key that occurs once leaves the keys before and after it, each in its order |
| `Dicts.RemoveKeepsOrder` | full_arg_process.py:110-111 | after `del d[k]` the keys are those before `k`'s place followed by those after it, in insertion order |
| `Dicts.InsertAll` | full_arg_process.py:115-126 | inserting pairs in turn keeps the dictionary well formed and the existing order as a prefix |
| `Dicts.InsertAllLastWins` | full_arg_process.py:91-97 | a key some pair names holds the value of the last pair naming it |
| `Dicts.InsertAllUntouched` | full_arg_process.py:115-126 | a key no pair names keeps its presence and value |
| `Comments.DigitRun` | full_arg_process.py:96 | the digit group spans the whole run of digits, ending at a non-digit or the end of the text |
| `Comments.MatchAt` | full_arg_process.py:96 | a match at `p` starts with `Data recovered: SEQ-`, spans at least 27 characters, and its character is not a newline |
| `Comments.Search` | full_arg_process.py:96 | fewer than 27 characters from `p` on never match, and a found character is not a newline |
| `Comments.SearchIsLeftmost` | full_arg_process.py:96 | the search returns the match at the leftmost position that has one, and nothing only when no position matches |
| `Comments.ParseComment` | full_arg_process.py:96-97 | a comment shorter than 27 characters carries no entry, and a carried character is not a newline |
| `Comments.ParseCommentFor` | full_arg_process.py:96-97 | the comment written for `(n, c)`, with `c` not a newline, parses back to `(n, c)` |
| `SequenceMap.ScanComments` | full_arg_process.py:91-97 | succeeds iff every comment matches, giving one pair per comment in order; otherwise names the first comment that does not match |
| `SequenceMap.EmbeddedSequenceMap` | full_arg_process.py:89-98 | the scanning loop yields `{0: ' '}` updated with the scanned pairs in order, or the first non-matching comment |
| `SequenceMap.ScannedMapStartsWithSpace` | full_arg_process.py:90-97 | position 0 stays first in the order, and is a space unless some comment carries number 0 |
| `SequenceMap.ScannedMapLastWins` | full_arg_process.py:91-97 | every scanned number holds the character of the last comment carrying it |
| `SequenceMap.ApplyCorrections` | full_arg_process.py:110-126 | the two deletions, failing on the first missing key, then the manual table in its order |
| `SequenceMap.CorrectionsFail` | full_arg_process.py:110-111 | the corrections fail iff 30045 or 12525 is missing, naming 30045 first |
| `SequenceMap.CorrectedHasManualTable` | full_arg_process.py:110-126 | afterwards 30045 and 12525 are absent, and every manual position holds its manual character whatever was scanned |
| `SequenceMap.CorrectedKeepsOthers` | full_arg_process.py:110-126 | every other key keeps its presence and its scanned value |
| `Decoder.LetterMapOf` | full_arg_process.py:130-132 | succeeds iff every mapped position is a column index; otherwise names the first position in dictionary order that is not |
| `Decoder.BuildLetterMap` | full_arg_process.py:130-132 | the loop over the map's items yields `LetterMapOf` |
| `Decoder.LetterMapLookup` | full_arg_process.py:130-132 | a column pattern is a key iff some mapped position has it, and holds the character of the last such position |
| `Decoder.FirstOccurrenceMap` | full_arg_process.py:135-137 | every column's pattern is a key of the first-occurrence map |
| `Decoder.FirstOccurrenceIsLeast` | full_arg_process.py:135-137 | each key maps to the least index of a column with that pattern (`setdefault` keeps the first index seen) |
| `Decoder.FirstOccurrenceAtMost` | full_arg_process.py:135-137 | column `k`'s pattern maps to an index at most `k` whose column equals column `k` |
| `Decoder.FirstOccurrences` | full_arg_process.py:135-137 | the `setdefault` loop yields `FirstOccurrenceMap` over all columns |
| `Decoder.Decode` | full_arg_process.py:139-141 | one token per column, in column order |
| `Decoder.TokenMeaning` | full_arg_process.py:129-141 | a column decodes to the character of the last position sharing its pattern, or to `<j>` with `j` the least index of a column with its pattern |
| `Decoder.SpaceAtPositionZero` | full_arg_process.py:130-141 | column 0 decodes to a space when position 0 is a space and no other position shares its pattern |
| `Decoder.SharedColumnOverridesSpace` | full_arg_process.py:130-141 | for any matrix and map, when the last position sharing column 0's pattern is not position 0, column 0 decodes to that position's character, overriding the space |
| `Decoder.WorkedExample` | full_arg_process.py:129-141 | columns `TTT`, `FFF`, `TFT`, `FFF` with `{0: ' ', 2: 'x'}` decode to `" <1>x<1>"` |
| `Decoder.UnescapeLeavesNoEscapes` | full_arg_process.py:142 | no `^J`, `^I` or `^L` is left after the three replacements |
| `Decoder.UnescapeWithoutCaret` | full_arg_process.py:142 | a message without `^` is printed unchanged |
| `Decoder.Unescape` | full_arg_process.py:142 | the three replacements never lengthen the message |
| `Decoder.UnescapeNewline` | full_arg_process.py:142 | for any caret-free `a` and any `b`, `a + "^J" + b` unescapes to `a`, a newline, then `b` unescaped |
| `Decoder.UnescapeTab` | full_arg_process.py:142 | for any caret-free `a` and any `b`, `a + "^I" + b` unescapes to `a`, a tab, then `b` unescaped |
| `Decoder.UnescapeFormFeed` | full_arg_process.py:142 | for any caret-free `a` and any `b`, `a + "^L" + b` unescapes to `a`, a form feed, then `b` unescaped |
| `Pipeline.Run` | full_arg_process.py:101-142 | the run yields the unescaped decoded message or the first failure, in the program's step order, and the message holds no caret escape |

## Left out

- `fetch_images` (full_arg_process.py:18-35) and all of `get_imgs.py`: network downloads, file writes and hashing.
- Image decoding with PIL: frames come as `(black, duration)` pairs and the comment as a string. The black-pixel test, a missing `comment` entry and the bytes-to-text decoding of the comment are not modelled.
- The worker pool: `Matrix.ExtractAll` runs the extractor sequentially. The pool returns results in input order, so the behaviour is the same.
- The timing cache (`save_timing_data`, `get_timings`, full_arg_process.py:74-86): `Pipeline.Run` always rebuilds the matrix. A matrix loaded from an older cache is not modelled. So is the text-mode `open` before `pickle.load`.
- The order of `os.listdir`: the images come as one given sequence. Both the timing scan and the comment scan read them in that order.
- `duration/400` is a float division followed by `int`. It is modelled as truncating integer division on naturals. This is exact for durations of the size the program accepts.
- `Comments.DigitRun`: `\d` is modelled as the ASCII digits only. Python's `\d` also matches other Unicode decimal digits.
- numpy arrays, `transpose` and tuple keys: rows and columns are `seq<bool>`, and a column is compared by value.
- `print` output: `Pipeline.Run` returns the message instead of printing it. The progress line `processing ...` is not modelled, and neither is `os.makedirs`.
