# Script detector — a verified Dafny model

This project models `script_detector.py`, a detector that labels short text
tokens (names, words) with the script they are written in. It chooses among
eleven script codes (`hi`, `gu`, `pa`, `bn`, `or`, `tam`, `te`, `kn`, `ml`,
`ur`, `en`) and reports a confidence score.

The model has four modules:

- `Ranges` (`ranges.dfy`) holds the Unicode block table `UNICODE_RANGES` and
  `_char_lang`, the per-code-point lookup: the printable-ASCII fast path,
  then a first-match scan in declared order. It also holds
  `_iter_significant`, the filter that drops code points `<= 0x20` and those
  in `0x2000..0x200F`. These are pure functions. The lemmas prove that the
  rows of the table are disjoint (no code point lies in two rows), so the
  first-match order never changes the answer. `CharLang` answers a language exactly on that
  language's intervals.
- `Classify` (`classify.dfy`) gives the meaning of every operation as
  functions on values:
  - `Detect`: early returns, the bounded scan, and `Scan`, which picks the
    maximum with Python's tie-break.
  - The cache transitions `AddEntry` and `Flush`.
  - The batch functions `AnnotateColumn`, `AnnotateColumns`, `AnnotateFrame`,
    `AnnotateKeys` and `AnnotateJson`.

  It also holds the lemmas that state what the source promises of them.
- `Detector` (`detector.dfy`) holds the class `ScriptDetector`. Its fields are
  the settings, the cache map `cache` and the `dirty` flag. The ghost field
  `snapshots` records every map written to the cache file. Each method is
  imperative, as in the source, and is proved to compute exactly the
  `Classify` function of its inputs and old state. The loop methods use
  invariants: `Detect` with `CountScripts` and `MaxKey`, and `AnnotateFrame`
  with `LabelColumn`.
- `DetectExamples` (`examples.dfy`) works through worked examples of
  `detect` as lemmas.

Model conventions:
- A token is a Dafny `string`, and a code point is `c as int`. A score is the
  exact fraction `Score(count, total)`. The threshold `min_cache_score` is a
  fraction `Ratio`, and `score >= threshold` is decided by
  cross-multiplication.
- A DataFrame is a `map` from column name to `seq<string>`. A record is a
  `map<string, string>`.
- `cache_file` is reduced to whether it is set (`hasCacheFile`).

Where the code differs from what its docstrings or a reader might expect,
the model follows the code:
- **Tie-break.** A tie goes to the first language inserted into `counts`,
  which is the language whose code point appears first in the scanned prefix
  (`script_detector.py:137`, `142`). It does not go to the first in table
  order: `MixedTieGoesToFirstSeen` shows `"abcनमस"` labelled `en`, while
  `hi` comes first in the table.
- **Digits and punctuation.** They lie inside the `en` ranges and the ASCII
  fast path, so they resolve to `en` and are not unknown (`DigitsAreEnglish`,
  `Latin1IsEnglish`).
- **Cache hits.** A cache hit short-circuits only when the cached value is
  non-empty. An empty cached value is falsy, and the scan runs.
- **Flushing.** `annotate_frame` and `annotate_json` call `_flush_cache`
  whenever `auto_cache` is set, and the flush writes only if the cache is
  dirty and a file is configured. A flush without a file leaves `dirty` set.
  Auto-caching re-adds a cache hit when the threshold is at most 1, because its score is 1, so it marks the
  cache dirty again.
- **Missing column.** In `annotate_frame` a missing column raises pandas'
  `KeyError` in the middle of the loop. Label columns already added stay in
  the caller's frame, and nothing is flushed. The model returns that partial
  frame together with `missing == Some(col)`.
- **Missing key.** `annotate_json` classifies a missing key as `""`, which
  gives the default code. Its caching branch then reads `record[k]`, which
  raises `KeyError` for a missing key. That branch is taken only when the
  threshold is `<= 0`, since an empty text scores 0. The model returns
  `missing == Some(k)` in that case, and nothing is flushed.
- **Inside a column, caching never changes a label.** The values are
  distinct, so each value is labelled as `detect` labels it against the cache
  from before the column (`LabelValuesClosedForm`). Across columns, a value
  cached by an earlier column is answered from the cache.

## Model

| member | source | states |
|---|---|---|
| `Ranges.UnicodeRanges` | script_detector.py:39-51 | the eleven rows of `UNICODE_RANGES` in declared order, each with its half-open intervals; no contract of its own; its meaning is stated by `RowIntervals`, `TableDisjoint` and `CharLangNoneBlocks` |
| `Ranges.InAscii` | script_detector.py:53 | membership in `set(map(ord, string.printable))`, that is `0x09..0x0D` and `0x20..0x7E`; no contract of its own; its meaning is stated by `FastPathAgrees` |
| `Ranges.InAny` | script_detector.py:66-68 | the inner `for r in ranges: if cp in r` loop; no contract of its own; its meaning is stated by `InAnyExists` |
| `Ranges.LookupIn` | script_detector.py:65-69 | the first-match scan over the rows in declared order; no contract of its own; its meaning is stated by `LookupInSound` and `LookupInComplete` |
| `Ranges.CharLang` | script_detector.py:59-69 | `_char_lang`: the ASCII fast path, then the scan; no contract of its own; its meaning is stated by `CharLangExact`, `CharLangNone`, `CharLangNoneBlocks` and `Latin1IsEnglish` |
| `Ranges.IsSignificant` | script_detector.py:76-77 | the negation of the skip test `cp <= 0x20 or 0x2000 <= cp <= 0x200F`; no contract of its own; its meaning is stated by `SignificantSingle` |
| `Ranges.Significant` | script_detector.py:72-78 | `_iter_significant` as the sequence of yielded code points; no contract of its own; its meaning is stated by `SignificantSingle`, `SignificantConcat`, `SignificantElements`, `SignificantPrefix` and `SignificantAll` |
| `Classify.AtLeast` | script_detector.py:181 | `score >= min_cache_score`, decided exactly on fractions by cross-multiplication; no contract of its own; used by `Qualifies` |
| `Classify.Qualifies` | script_detector.py:181 | `auto_cache and score >= min_cache_score`, the caching test (also at line 243); no contract of its own; its meaning is stated by `EmptyQualifies`, `LabelValuesClosedForm` and `AnnotateKeysFacts` |
| `Classify.Cap` | script_detector.py:138 | the break after `max(sample_chars, 1)` inspected code points (the first one is always counted before the test); no contract of its own; its meaning is stated by `InspectedIsBoundedPrefix` and `ScanStopsAtCap` |
| `Classify.Inspected` | script_detector.py:133-139 | the significant code points the counting loop visits before its `break`; no contract of its own; its meaning is stated by `InspectedIsBoundedPrefix`, `ScanIgnoresTail` and `ScanStopsAtCap` |
| `Classify.Resolves` | script_detector.py:135-136 | a code point counts for a language when `_char_lang` returns it; no contract of its own; used by `Count` and `FirstPos` |
| `Classify.FirstSeen` | script_detector.py:131-137 | the keys of `counts` in dict insertion order; no contract of its own; its meaning is stated by `FirstSeenKeys` and `FirstSeenOrder` |
| `Classify.CountMap` | script_detector.py:131-137 | the dict `counts` after the loop; no contract of its own; its meaning is stated by `Count`, `CountZero`, `CountFull` and `SumOfCounts` |
| `Classify.Scan` | script_detector.py:140-143 | the `not counts` return and the `max` winner with `counts[winner] / total`; no contract of its own; its meaning is stated by `ScanNothingResolved`, `ScanWinner`, `ScanTieBreak`, `ScanScoreOne` and `ScanUniform` |
| `Classify.Detect` | script_detector.py:119-143 | `detect`: the empty-text return, the cache hit and the scan; no contract of its own; its meaning is stated by `DetectEarlyReturns`, `DetectReadsOneEntry` and the `Scan` lemmas |
| `Classify.LabelValues` | script_detector.py:177-182 | the loop over the unique values building `lang_map` and auto-caching; no contract of its own; its meaning is stated by `LabelValuesKeys`, `LabelValuesPassive`, `LabelValuesClosedForm` and `LabelValuesAgrees` |
| `Classify.Broadcast` | script_detector.py:183 | `ser.map(lang_map)`: the label of each cell, in order; no contract of its own; its meaning is stated by `AnnotateColumnFacts` |
| `Classify.AnnotateColumn` | script_detector.py:175-183 | one column: `unique`, the value loop and the broadcast; no contract of its own; its meaning is stated by `AnnotateColumnFacts` |
| `Classify.AnnotateColumns` | script_detector.py:174-183 | the column loop, stopping at the first missing column; no contract of its own; its meaning is stated by `AnnotateColumnsFacts`, `AnnotateColumnsAgrees`, `FrameLabelsConsistent` and `MissingColumnSticks` |
| `Classify.AnnotateFrame` | script_detector.py:162-187 | `annotate_frame`: the column loop, then one flush when auto-caching and no `KeyError`; no contract of its own; its meaning is stated by `AnnotateFrameFlushOnce` |
| `Classify.GetOrEmpty` | script_detector.py:242 | `record.get(k, "")`; no contract of its own; used by `AnnotateKeysFacts` |
| `Classify.AnnotateKeys` | script_detector.py:240-245 | the key loop of `annotate_json`, with the `KeyError` of `record[k]` at line 244; no contract of its own; its meaning is stated by `AnnotateKeysShape`, `AnnotateKeysLabels`, `AnnotateKeysFacts` and `MissingKeySticks` |
| `Classify.AnnotateJson` | script_detector.py:232-248 | `annotate_json`: the key loop, then one flush when auto-caching and no `KeyError`; no contract of its own; its meaning is stated by `AnnotateJsonFlushOnce` |
| `Ranges.InAnyExists` | script_detector.py:66-68 | the inner loop over one language's ranges succeeds iff some interval contains the code point |
| `Ranges.LookupInSound` | script_detector.py:65-69 | a language returned by the first-match scan has an interval containing the code point, and `None` is returned iff no row has one |
| `Ranges.LookupInComplete` | script_detector.py:65-69 | on a table with disjoint rows, the scan returns the language of the row that covers the code point |
| `Ranges.RowIntervals` | script_detector.py:39-51 | each row of the declared table covers exactly its listed half-open intervals |
| `Ranges.TableDisjoint` | script_detector.py:39-51 | no code point lies in the intervals of two different rows, so first-match order never decides |
| `Ranges.FastPathAgrees` | script_detector.py:53-64 | every `string.printable` ordinal gets `en` from the table too, so the fast path agrees with the scan |
| `Ranges.CharLangExact` | script_detector.py:59-69 | `_char_lang(cp) == L` iff `cp` lies in one of the intervals declared for `L` |
| `Ranges.CharLangNone` | script_detector.py:59-69 | `_char_lang(cp)` is `None` iff `cp` is outside every declared interval |
| `Ranges.CharLangNoneBlocks` | script_detector.py:39-69 | the unknown code points are exactly those outside `0..0xFF`, `0x600..0x6FF`, `0x750..0x77F` and `0x900..0xD7F` |
| `Ranges.Latin1IsEnglish` | script_detector.py:50-54 | every code point below `0x100` (digits and punctuation included) resolves to `en` |
| `Ranges.SignificantSingle` | script_detector.py:74-78 | one character is kept iff it is `> 0x20` and outside `0x2000..0x200F` |
| `Ranges.SignificantConcat` | script_detector.py:72-78 | the filter of a concatenation is the concatenation of the filters, so order is kept |
| `Ranges.SignificantElements` | script_detector.py:72-78 | the filter never yields more code points than the text has, every one it yields is significant, and each comes from the text |
| `Ranges.SignificantPrefix` | script_detector.py:72-78 | filtering a prefix of the text gives a prefix of the filtered text |
| `Ranges.SignificantAll` | script_detector.py:72-78 | a text with no skipped code point is yielded whole, in order |
| `Classify.Count` | script_detector.py:136-137 | a language's counter never exceeds the number of code points inspected |
| `Classify.Resolved` | script_detector.py:135-137 | the number of inspected code points that resolve never exceeds the number inspected |
| `Classify.FirstPos` | script_detector.py:133-137 | the position of a language's first code point in the scanned prefix resolves to it, and no earlier one does |
| `Classify.MaxFirst` | script_detector.py:142 | `max(counts, key=counts.get)` returns a key with the largest count, and every key before it has a strictly smaller count |
| `Classify.CountZero` | script_detector.py:136-137 | a counter is 0 iff no inspected code point resolves to the language |
| `Classify.CountFull` | script_detector.py:136-137 | a counter equals the number inspected iff every inspected code point resolves to the language |
| `Classify.CountConcat` | script_detector.py:133-137 | the counter of a concatenated scan is the sum of the counters of its parts |
| `Classify.FirstSeenKeys` | script_detector.py:137 | the keys of `counts` are distinct and are exactly the languages with a positive count |
| `Classify.FirstSeenOrder` | script_detector.py:137 | the keys of `counts`, in insertion order, are ordered by the first occurrence of each language in the scanned prefix |
| `Classify.TallyStep` | script_detector.py:134-137 | one counted code point turns the counters of a prefix into the counters of the prefix extended by that code point |
| `Classify.SumOfCounts` | script_detector.py:133-139 | the sum of all counters is the number of resolved code points, which is at most `total` |
| `Classify.ScanStopsAtCap` | script_detector.py:133-139 | where the loop stops (after `max(sample_chars, 1)` significant code points, or at the end), it has seen exactly the inspected prefix |
| `Classify.DetectEarlyReturns` | script_detector.py:125-129 | `None` and `""` give `(default_code, 0)`; a non-empty cached value gives `(cached, 1)`; an empty cached value is ignored |
| `Classify.DetectReadsOneEntry` | script_detector.py:127-129 | `detect(text)` depends on the cache only through the entry for `text` |
| `Classify.InspectedIsBoundedPrefix` | script_detector.py:131-139 | the scan inspects `min(#significant, max(sample_chars, 1))` code points from the front of the significant sequence, at least one if any exist; that the loop visits exactly this prefix is proved by `ScanStopsAtCap` and the ensures of `Detector.CountScripts` |
| `Classify.ScanIgnoresTail` | script_detector.py:138-139 | once the cap is reached, appending any text leaves the inspected code points, and so the result, unchanged |
| `Classify.ScanNothingResolved` | script_detector.py:140-141 | `counts` is empty iff no inspected code point resolves, and then the result is `(default_code, 0)` |
| `Classify.ScanWinner` | script_detector.py:142-143 | the winner's count is the largest of all languages, and its score `count/total` has `total` the number inspected and lies in `(0, 1]` |
| `Classify.ScanTieBreak` | script_detector.py:137-142 | a language tied with the winner first occurs later in the scanned prefix than the winner |
| `Classify.ScanScoreOne` | script_detector.py:140-143 | the score is exactly 1 iff some code point was inspected and every one resolved to the winner |
| `Classify.ScanUniform` | script_detector.py:131-143 | a prefix entirely in one language gives that language with score `n/n` |
| `Classify.AddEntry` | script_detector.py:148-150 | sets `cache[phrase] := lang` and `dirty`, keeps every other entry, and writes nothing |
| `Classify.Flush` | script_detector.py:152-157 | writes the whole map once and clears dirty iff dirty and a cache file is set, otherwise changes nothing; afterwards nothing is left to write |
| `Classify.FlushTwice` | script_detector.py:152-157 | a second consecutive flush is a no-op |
| `Classify.Distinct` | script_detector.py:176 | `unique()` yields each value of the column exactly once |
| `Classify.LabelValuesKeys` | script_detector.py:177-180 | `lang_map` has exactly the values iterated over as keys |
| `Classify.LabelValuesPassive` | script_detector.py:178-182 | the value loop writes nothing to the cache file, and without `auto_cache` changes no state |
| `Classify.LabelValuesClosedForm` | script_detector.py:177-182 | over distinct values, each label is `detect` against the cache from before the loop; the cache gains exactly the values with `auto_cache` and `score >= min_cache_score`; dirty is set iff one was added or it already was |
| `Classify.AnnotateColumnFacts` | script_detector.py:175-183 | the label column has the input's length; `out[i]` is the label of `ser[i]`, so equal cells get equal labels; caching happens only under `auto_cache` for qualifying scores |
| `Classify.AnnotateColumnsFacts` | script_detector.py:174-183 | over the columns nothing is written; the frame gains only `<col>_lang` columns; columns that are not label targets keep their cells; only a listed column is reported missing, and none is when all are present |
| `Classify.AgreesDetect` | script_detector.py:125-143 | against a cache that only adds, to the starting cache, labels `detect` gave against it, `detect` returns the same label for every text |
| `Classify.AgreesAdd` | script_detector.py:148-150 | caching the label `detect` just returned keeps the cache agreeing with the starting cache |
| `Classify.LabelValuesAgrees` | script_detector.py:178-182 | the value loop only caches labels `detect` gives against the starting cache |
| `Classify.AnnotateColumnsAgrees` | script_detector.py:174-183 | across all columns the cache only gains labels `detect` gives against the cache the call started with |
| `Classify.FrameLabelsConsistent` | script_detector.py:174-183 | in the final frame, a listed column that is not itself another listed column's `_lang` target has a label column of its length; each label is what `detect` gives the cell against the cache the call started with, so equal cells get equal labels |
| `Classify.AnnotateFrameFlushOnce` | script_detector.py:185-186 | `annotate_frame` writes the cache file at most once, only with `auto_cache`, after all columns and with the final map; without `auto_cache` the cache is untouched |
| `Classify.EmptyQualifies` | script_detector.py:242-243 | a missing key is classified as `""`, giving `(default_code, 0)`, which qualifies for caching iff `auto_cache` and the threshold is `<= 0` |
| `Classify.AnnotateKeysShape` | script_detector.py:240-245 | nothing is written; without `auto_cache` the cache is untouched; the output keeps every original key, unchanged unless overwritten by a label, plus one `k_lang` per requested key; `KeyError` arises only for a missing key with `auto_cache` and threshold `<= 0`, and never when all keys are present |
| `Classify.AnnotateKeysLabels` | script_detector.py:241-245 | the cache only gains labels `detect` gives against the starting cache, and each requested key's `k_lang` is what `detect` gives `record.get(k, "")` against that cache |
| `Classify.AnnotateKeysFacts` | script_detector.py:240-245 | the output keeps every original key, unchanged unless overwritten by a label, plus one `k_lang` per requested key: `detect`'s label of `record.get(k, "")` against the starting cache, `default_code` for a missing one; `KeyError` arises only for a missing key with `auto_cache` and threshold `<= 0` |
| `Classify.AnnotateJsonFlushOnce` | script_detector.py:246-247 | `annotate_json` writes the cache file at most once, only with `auto_cache` and no `KeyError`, after all keys and with the final map |
| `Classify.MissingColumnSticks` | script_detector.py:175 | after the `KeyError` of a missing column, no later column is processed |
| `Classify.MissingKeySticks` | script_detector.py:244 | after the `KeyError` of a missing key, no later key is processed |
| `Detector.ScriptDetector.constructor` | script_detector.py:98-114 | the detector starts from the loaded map, not dirty, with nothing written |
| `Detector.ScriptDetector.Detect` | script_detector.py:119-143 | returns exactly `Classify.Detect` of the settings, the current cache and the text |
| `Detector.CountScripts` | script_detector.py:131-139 | the counting loop leaves `counts` and its insertion-ordered keys as the counters of the inspected prefix, and `total` its length |
| `Detector.MaxKey` | script_detector.py:142 | the loop over the keys returns `max(counts, key=counts.get)`, the first maximal key |
| `Detector.ScriptDetector.AddToCache` | script_detector.py:148-150 | the new state is `AddEntry` of the old one |
| `Detector.ScriptDetector.FlushCache` | script_detector.py:152-157 | the new state is `Flush` of the old one |
| `Detector.ScriptDetector.LabelColumn` | script_detector.py:175-183 | the labels and new state are `AnnotateColumn` of the column and old state |
| `Detector.ScriptDetector.AnnotateFrame` | script_detector.py:162-187 | the returned frame, missing column and new state are `Classify.AnnotateFrame` of the inputs and old state |
| `Detector.ScriptDetector.AnnotateJson` | script_detector.py:232-248 | the returned record, missing key and new state are `Classify.AnnotateJson` of the inputs and old state |
| `DetectExamples.AsciiName` | script_detector.py:119-143 | `"Ramesh"` gives `("en", 6/6)` |
| `DetectExamples.DevanagariWord` | script_detector.py:119-143 | six Devanagari code points give `("hi", 6/6)` |
| `DetectExamples.MixedTieGoesToFirstSeen` | script_detector.py:137-143 | `"abcनमस"` ties 3–3 and gives `("en", 3/6)`, the language seen first |
| `DetectExamples.CacheShortCircuit` | script_detector.py:127-129 | a cached word returns its cached label with score 1 whatever its characters |
| `DetectExamples.DigitsAreEnglish` | script_detector.py:50-54 | `"12-34"` gives `("en", 5/5)`: digits and punctuation resolve |

## Left out

- The JSON cache file is read in `__post_init__` (`script_detector.py:109-114`). This is file I/O and JSON parsing. A file that is not valid JSON is ignored. Other load errors propagate from the constructor and are not modelled. A file that is not valid UTF-8 raises `UnicodeDecodeError`. Valid JSON that `dict.update` rejects (such as `null`, `1` or `[1]`) raises `TypeError` or `ValueError`. A JSON list of pairs loads like an object. The constructor takes the loaded map as a parameter, which must be empty when no cache file is set. Cache values are strings; non-string values are not modelled.
- The settings `sample_chars`, `default_code` and `cache_file` are public dataclass fields that a caller may reassign between calls (`script_detector.py:98-100`). In the model they are constants, fixed for the object's lifetime.
- The write in `_flush_cache` is file output. It is modelled as appending the map to the ghost `snapshots`.
- A failed write in `_flush_cache` (`script_detector.py:154`) raises before `dirty` is cleared at line 157, so `dirty` stays set. File errors are not modelled, and every write succeeds.
- The default arguments are not modelled: `sample_chars=6`, `default_code="en"` and `cache_file=None` (`script_detector.py:98-100`), and `auto_cache=False`, `min_cache_score=0.95` (lines 167-168 and 237-238). Every setting is an explicit parameter; `DetectExamples.Default` uses the three constructor defaults.
- `annotate_file` is not modelled, because it is CSV/Excel reading, chunking, `concat` and writing, which are library I/O. The CLI driver is not modelled either, because it is argument parsing and printing.
- The ImportError checks for pandas are not modelled. Neither is `astype(str)`, with its `NaN` → `"nan"`. Neither are the internals of `unique` and `map`. A column is a `seq<string>`, `unique` is `Distinct`, and `map` is `Broadcast`.
- `annotate_frame` mutates the caller's DataFrame in place. The model returns the new frame as a value, so aliasing of the frame is not modelled. The order of the frame's columns is not modelled either.
- When `annotate_json` raises `KeyError`, the partial output dictionary cannot be observed by the caller. It has no meaning in the model.
- Scores and `min_cache_score` are exact fractions, not floats. Float rounding at the exact threshold boundary is not modelled.
- Dafny characters exclude the surrogate code points `0xD800..0xDFFF`, so Python strings holding lone surrogates are not representable. No table interval contains them.
- `detect` accepts only a string or `None` (`Option<string>`). Other falsy or non-string arguments are not modelled.
- `__call__` and `__repr__` are one-line delegation and formatting.
- Concurrency is not modelled. The source assumes one thread, and so does the model.
