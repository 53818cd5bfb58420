# yt-tts-forge: subtitle alignment and text cleaning, modelled in Dafny

This project models the two in-memory parts of the text-to-speech dataset
builder.

- **Alignment** (`tts_align.py`). `AlignTTS.merge_lines` makes one pass over the
  subtitle entries of an .srt file. It merges each line into the current group
  while the `.seconds` reading of the time from the group's start to the
  line's end stays below a threshold. `AlignTTS._datetime_to_seconds` turns a time of day into whole
  seconds. `AlignTTS.align` turns every merged entry into an audio slice in
  milliseconds and two file names, `i.wav` and `i.txt`.
- **Text cleaning** (`utils/text_cleaners.py`). It covers lowercasing, the
  per-language symbol table of `replace_symbols`, `remove_aux_symbols`,
  `collapse_whitespace`, `expand_abbreviations` and the `english_cleaners`
  pipeline that chains them.

The project has four modules, one per file:

- `Outcomes` (`outcomes.dfy`): `Option` and `Result`.
- `SubRip` (`subrip.dfy`): what the script assumes of the pysrt library. A
  subtitle entry is a `class SubRipItem` whose `start`, `end` and `text` fields
  are updated in place. A subtitle time is an ordinal counting milliseconds.
  Its `.seconds` attribute and `to_time()` are modelled as pysrt computes them
  from the ordinal.
- `TtsAlign` (`tts_align.dfy`):
  - `MergeLines` is the imperative loop over aliased, mutable entries. It is
    proved against the value-level specification `Groups`, whose properties
    are proved as lemmas.
  - `DatetimeToSeconds` models `_datetime_to_seconds`.
  - `Exports` / `Align` give the slice bounds and file names of `align`.
- `TextCleaners` (`text_cleaners.dfy`): every cleaner as a function over
  `seq<char>`, with lemmas for the properties each one guarantees.
  `ExpandAbbreviations` is a method with the source's loop.

`merge_lines` and `align` are modelled for any whole-seconds reading `seconds`
of a time difference:

- `SubRip.SecondsField` is the reading the source uses, pysrt's `.seconds`.
  `Align` with `seconds = SubRip.SecondsField` is `align` as written.
- `TtsAlign.TotalSeconds` is the reading the code evidently intends (see
  "## Findings").

## Model

| member | source | states |
|---|---|---|
| SubRip.SecondsField | tts_align.py:108 | pysrt's `.seconds` of a time difference is always in [0, 60): it is the seconds component of an h:m:s,ms reading, not the total |
| SubRip.SubRipItem.constructor | tts_align.py:66 | a parsed entry holds the start, end and text it was built with |
| SubRip.SubRipItem.Value | tts_align.py:105-117 | the value of an entry is its current start, end and text |
| SubRip.Values | tts_align.py:72 | the values of a list of entries, in list order; what `merge_lines` is specified against |
| SubRip.ToTime | tts_align.py:76-77 | `to_time()` succeeds exactly when the ordinal is a time within one day, and then yields a valid hour/minute/second/microsecond time |
| TtsAlign.DatetimeToSeconds | tts_align.py:56 | for a valid time of day, `hour*3600 + minute*60 + second` lies in [0, 86399] |
| TtsAlign.DatetimeToSecondsOfOrdinal | tts_align.py:76-77 | `_datetime_to_seconds(t.to_time())` is the subtitle time truncated to whole seconds; only sub-second precision is dropped |
| TtsAlign.DatetimeToSecondsInjective | tts_align.py:56 | two valid times give the same seconds exactly when their hour, minute and second agree |
| TtsAlign.Duration | tts_align.py:105-108 | `duration` of one iteration: the reading `seconds` of `line.end - curr_line.start` |
| TtsAlign.Joins | tts_align.py:110 | a line joins the current group exactly when that duration is below `threshold` |
| TtsAlign.Absorb | tts_align.py:111-112 | the group absorbing a line keeps its start, ends at the line's end and gains `" " + line.text` |
| TtsAlign.Groups | tts_align.py:101-120 | the merged list has between 1 and `len(srt)` entries |
| TtsAlign.Feed | tts_align.py:104-118 | one iteration either absorbs the line, so the group count stays the same, or opens one new group |
| TtsAlign.GroupsOpeners | tts_align.py:101-120 | the first group is opened by `srt[0]`, every group is opened by an input line, and groups keep the input order |
| TtsAlign.MergeKeepsText | tts_align.py:111-119 | joining the merged texts with `" "` gives the same string as joining all input texts with `" "` |
| TtsAlign.GroupsAreRuns | tts_align.py:111-117 | each merged entry is a run of consecutive lines: it has the start of its opening line, the end of its last line, and their texts joined by spaces |
| TtsAlign.GroupsDecisions | tts_align.py:105-118 | every line after an opener in its group joined that opener's group, and every opener did not join the group before it |
| TtsAlign.NoMergeWithoutPositiveThreshold | tts_align.py:110-117 | with `threshold <= 0` and non-negative readings nothing merges: the output is the input, line for line |
| TtsAlign.TotalSeconds | tts_align.py:105-108 | the total whole seconds of a millisecond difference, floored: `s*1000 <= d < (s+1)*1000` |
| TtsAlign.SecondsFieldMergesLongSpan | tts_align.py:105-112 | with the `.seconds` reading, lines 0-30 s and 30-65 s merge under threshold 10 into one entry 65 s long |
| TtsAlign.SecondsFieldMergesEverything | tts_align.py:105-112 | with the `.seconds` reading and `threshold >= 60`, every subtitle file merges into a single entry |
| TtsAlign.TotalSecondsKeepsGroupsShort | tts_align.py:105-112 | with the total-seconds reading, every entry that merged two or more lines spans less than `threshold` seconds |
| TtsAlign.AppendLine | tts_align.py:111-112 | the current entry's text gains `" " + line.text` and its end becomes the line's end; nothing else changes |
| TtsAlign.Reopen | tts_align.py:115-117 | after `curr_line = line`, reassigning `start` and `end` from `line` leaves the entry as it was |
| TtsAlign.MergeStep | tts_align.py:104-118 | one loop iteration on the objects matches `Feed` on their values and keeps the loop invariant |
| TtsAlign.MergeLoop | tts_align.py:104-118 | after the loop, the emitted entries and the current entry are the objects of `Groups` of the original values |
| TtsAlign.MergingStarts | tts_align.py:101-102 | before the loop, nothing is emitted and `curr_line` is `srt[0]`, which opens group 0 |
| TtsAlign.MergingEnds | tts_align.py:119-120 | after the final append, the k-th result is the input object that opened group k, and it holds that group's value; every other input object is unchanged |
| TtsAlign.MergeLines | tts_align.py:90-120 | `merge_lines` on a non-empty list: each returned entry is the input object that opened its group, mutated to hold that group of `Groups(original values)`; absorbed objects keep their original values |
| TtsAlign.NatToString | tts_align.py:84 | `f"{i}"` is a non-empty string of decimal digits |
| TtsAlign.DecimalValueOfNatToString | tts_align.py:84 | reading `f"{i}"` back as a decimal gives `i` |
| TtsAlign.NatToStringInjective | tts_align.py:84 | different indices give different decimal strings |
| TtsAlign.FileNameInjective | tts_align.py:84-87 | `f"{i}.wav"` (or `.txt`) names two indices alike exactly when the indices are equal |
| TtsAlign.ExportOf | tts_align.py:76-88 | entry i is exported exactly when both times are within one day; its slice is `[start*1000, end*1000)` of the whole-second times, its files are `i.wav` and `i.txt`, and it writes exactly `line.text` |
| TtsAlign.Exports | tts_align.py:75-88 | the entries are exported in order; the loop stops at the first entry whose time `to_time` rejects, keeping the exports already done |
| TtsAlign.ExportNamesDistinct | tts_align.py:84-87 | no two exports of one run write the same `.wav` or the same `.txt` file |
| TtsAlign.Align | tts_align.py:66-88 | `Align` returns `Failure` exactly on an empty file, the `IndexError` of `srt[0]` (tts_align.py:102); otherwise it returns `Exports` of the merged values of `Groups` of the original values, in order, where a `to_time` `ValueError` appears as `failedAt` after the exports already written; with `seconds = SubRip.SecondsField` this is `align` as written |
| TtsAlign.AlignSecondsFieldExample | tts_align.py:72-88 | as written, lines 0-30 s "a" and 30-65 s "b" with threshold 10 export one file pair `0.wav`/`0.txt` slicing [0, 65000) ms with text "a b" |
| TtsAlign.AlignTotalSecondsExample | tts_align.py:72-88 | with the total-seconds reading the same file exports two pairs, `0.*` slicing [0, 30000) ms "a" and `1.*` slicing [30000, 65000) ms "b" |
| TextCleaners.Lowercase | utils/text_cleaners.py:13-14 | same length; every ASCII capital becomes its small letter; every other character is kept; no ASCII capital remains |
| TextCleaners.LowercaseIdempotent | utils/text_cleaners.py:13-14 | lowercasing twice is lowercasing once |
| TextCleaners.ReplaceAll | utils/text_cleaners.py:43 | `str.replace` of one character: a text without the target is unchanged, and the target is left only when the replacement holds it |
| TextCleaners.ReplaceAllMembers | utils/text_cleaners.py:43 | a character is in the result of `str.replace` exactly when it was in the text and is not the target, or the target occurred and the character is in the replacement |
| TextCleaners.Conjunction | utils/text_cleaners.py:46-53 | the `&` entry exists exactly for en, fr, pt and ca, and is a word with one space on each side |
| TextCleaners.StageTarget | utils/text_cleaners.py:43-54 | the symbols the table replaces, in the order it replaces them: `;`, `-`, `:`, `&`, `'` |
| TextCleaners.StageReplacement | utils/text_cleaners.py:43-54 | `;`, `-` and `:` are replaced for every language, `&` exactly for en/fr/pt/ca and `'` exactly for ca; a replacement holds only the comma, the space and conjunction letters, never a symbol of the table |
| TextCleaners.Stage | utils/text_cleaners.py:43-54 | the text after the first k `replace` calls that run for the language |
| TextCleaners.StageKeeps | utils/text_cleaners.py:43-54 | no `replace` of the table loses a character that is not one of its symbols |
| TextCleaners.StageBringsIn | utils/text_cleaners.py:43-54 | the `replace` calls bring in no character but the comma, the space and conjunction letters |
| TextCleaners.ReplaceSymbols | utils/text_cleaners.py:43-55 | for every language the result holds no `;`, `:` or `-`; every character of the text that is not one of `; - : & '` is kept; the only characters brought in are the comma, the space and the letters of `and`, `et`, `e`, `i`; the exact result for every text is `ReplaceSymbolsEach` |
| TextCleaners.RemovedByAllStages | utils/text_cleaners.py:43-54 | the symbols the table removes are exactly `;`, `-` and `:`, `&` for en/fr/pt/ca, and the apostrophe for ca |
| TextCleaners.StageSymbol | utils/text_cleaners.py:43-54 | after any prefix of the replacements, a symbol is present exactly when it was in the text and no replacement so far removed it |
| TextCleaners.ReplaceSymbolsAmpersand | utils/text_cleaners.py:46-53 | `&` remains exactly when the language is not en, fr, pt or ca and the text held one |
| TextCleaners.ReplaceSymbolsApostrophe | utils/text_cleaners.py:52-54 | the apostrophe remains exactly when the language is not ca and the text held one |
| TextCleaners.ReplaceSymbolsIsConjunctionTable | utils/text_cleaners.py:46-53 | on a text with no `; : - '`, the result replaces `&` with the language's conjunction, or returns the text unchanged for any other language |
| TextCleaners.ReplaceSymbolsOne | utils/text_cleaners.py:43-54 | the whole table: one symbol between symbol-free texts becomes its entry for the language (`,`, the space or nothing, the conjunction, or nothing for ca), and nothing else changes |
| TextCleaners.StageConcat | utils/text_cleaners.py:43-54 | every `replace` of the table acts on the two halves of a text independently |
| TextCleaners.ReplaceSymbolsConcat | utils/text_cleaners.py:43-55 | `replace_symbols(a + b)` is `replace_symbols(a) + replace_symbols(b)` |
| TextCleaners.ReplaceSymbolsChar | utils/text_cleaners.py:43-55 | on one character `replace_symbols` gives that character's entry in the table read character by character |
| TextCleaners.SymbolEntry | utils/text_cleaners.py:43-54 | the table of `replace_symbols` read character by character, for one language |
| TextCleaners.ReplaceEach | utils/text_cleaners.py:43-54 | the reference definition: every character of the text replaced by its `SymbolEntry`, left to right |
| TextCleaners.ReplaceSymbolsEach | utils/text_cleaners.py:43-55 | for every text and language, `replace_symbols` replaces each character by its entry: `;` and `:` by `,`, `-` by a space (nothing for ca), `&` by the conjunction for en/fr/pt/ca, `'` by nothing for ca, and keeps every other character |
| TextCleaners.ReplaceSymbolsSeparatorsExample | utils/text_cleaners.py:43-45 | `"a;b-c"` in en gives `"a,b c"` |
| TextCleaners.ReplaceSymbolsCatalanJoins | utils/text_cleaners.py:44-54 | for ca, an apostrophe and a hyphen between symbol-free words are both deleted |
| TextCleaners.ReplaceSymbolsCatalanExample | utils/text_cleaners.py:37-41 | the docstring example: `"si l'avi cau, diguem-ho"` in ca gives `"si lavi cau, diguemho"` |
| TextCleaners.SubRuns | utils/text_cleaners.py:59 | `re.sub` of a one-class pattern `[...]+`: each maximal run of the class becomes the replacement |
| TextCleaners.SubRunsWithNothingDrops | utils/text_cleaners.py:59 | replacing every run of a character class with `""` is deleting every character of the class |
| TextCleaners.RemoveAuxSymbols | utils/text_cleaners.py:58-60 | deletes `< > ( ) [ ] "` and keeps every other character in order: a character is in the result exactly when it is in the text and is not one of those |
| TextCleaners.RemoveAuxSymbolsIdempotent | utils/text_cleaners.py:58-60 | removing the auxiliary symbols twice is removing them once |
| TextCleaners.SubRunsChars | utils/text_cleaners.py:59-64 | substituting runs of a class only brings in the replacement's characters and keeps every character outside the class |
| TextCleaners.Squeeze | utils/text_cleaners.py:64 | `re.sub(r"\s+", " ", text)`, before the strip |
| TextCleaners.Strip | utils/text_cleaners.py:64 | `str.strip()` gives a trimmed string made of the input's characters, and leaves a trimmed string unchanged |
| TextCleaners.StripSurrounding | utils/text_cleaners.py:64 | strip removes exactly the whitespace around a trimmed middle part |
| TextCleaners.Squeezed | utils/text_cleaners.py:64 | `re.sub(r"\s+", " ", s)` is the words of `s` joined by single spaces, with one space before them when `s` starts with whitespace and one after them when `s` ends with whitespace after a word |
| TextCleaners.WordsOfJoin | utils/text_cleaners.py:64 | splitting words joined by single spaces gives those words back |
| TextCleaners.CollapseWhitespace | utils/text_cleaners.py:63-64 | the result is trimmed, holds no two adjacent whitespace characters and no whitespace but the space, adds no character but the space, and keeps every non-whitespace character |
| TextCleaners.CollapseIsJoinOfWords | utils/text_cleaners.py:63-64 | `collapse_whitespace` is the words of the text joined by single spaces |
| TextCleaners.CollapseWhitespaceIdempotent | utils/text_cleaners.py:63-64 | collapsing twice is collapsing once |
| TextCleaners.Abbreviate | utils/text_cleaners.py:20-21 | the loop's value: every entry of the table substituted in order |
| TextCleaners.AbbreviateConcat | utils/text_cleaners.py:20-21 | substituting a table in order is substituting its first part and then its second part |
| TextCleaners.ExpandAbbreviations | utils/text_cleaners.py:17-22 | succeeds exactly for `lang == "en"`, and then applies the English table's substitutions in order; any other language fails with the unbound `_abbreviations` |
| TextCleaners.EnglishCleaners | utils/text_cleaners.py:67-77 | whatever the time, number and abbreviation stages produce, the output holds none of `; : - & < > ( ) [ ] "`, is trimmed and has no doubled whitespace |

## Left out

- Reading the .srt file (pysrt parsing) is not modelled. Decoding, slicing and exporting audio with pydub is not modelled. Writing the `.txt` files and the hydra entry point are not modelled. These are I/O; the model covers only the values handed to them.
- `AlignTTS.__init__` is not modelled: its only logic is creating the output directory or raising `FileExistsError`, which is file-system I/O.
- pysrt is not part of this model. `SubRip` states what the script relies on: a time is a millisecond ordinal, and `.seconds` and `to_time()` read its h:m:s,ms components.
- Align: the `ValueError` that `to_time` raises for an entry at or past 24 hours is not returned as a `Failure`. It is the `failedAt` index of the outcome, next to the exports written before it, because those files exist when `align` raises.
- Exports: pydub clamps a slice that runs past the end of the audio. That clamping is not modelled; the bounds are those the script computes.
- MergeLines: it requires the list to hold distinct objects, as every list from `pysrt.open` does. A list holding one object twice is not modelled.
- Lowercase: it maps ASCII capitals only. The Unicode case mapping of Python's `str.lower()` is not modelled.
- Whitespace is Python's `str.isspace()` set, as used by `\s` and `str.strip()` on `str`, written out as a fixed set of code points.
- `expand_time_english`, `normalize_numbers` and the regex table `abbreviations_en` are not part of this model. They are parameters of `EnglishCleaners` and `ExpandAbbreviations`. One `re.sub` of a table entry is a parameter `sub`.
- Logging and the tqdm progress bars are left out.
- `asset_downloader.py` and `prepare_tts_dataset.py` are not part of this model. They are network downloads and file copying, with no logic worth modelling beyond I/O and a call to `english_cleaners`.

## Findings

| source | as written | input that shows it | evidently intended | confidence | as-written member | corrected member |
|---|---|---|---|---|---|---|
| tts_align.py:108 | `duration.seconds` reads only the seconds component (0-59) of the h:m:s,ms time difference | lines 00:00:00,000-00:00:30,000 "a" and 00:00:30,000-00:01:05,000 "b", threshold 10: the 65 s difference reads as 5, so both lines merge into one 65-second entry "a b" | merge a line only while the group's total span in whole seconds is below the threshold | not executed | TtsAlign.AlignSecondsFieldExample | TtsAlign.TotalSecondsKeepsGroupsShort |
