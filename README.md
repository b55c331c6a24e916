# VBA extractor: file naming

The VBA extractor reads an Excel workbook and writes each VBA module to a
`.txt` file in a folder next to the workbook. Its module names come from
the workbook itself, so they are untrusted. Two functions turn them into
file names:

- `sanitize_filename` makes a module name into a file name Windows accepts:
  - illegal and control characters become `_`;
  - surrounding whitespace and trailing dots are removed;
  - an empty result falls back to `module`;
  - a DOS device stem (`CON`, `COM1`, ...) gets a `_` prefix;
  - the result is cut to 120 characters.
- `build_unique_save_path` allocates a free name within one extraction run.
  - It compares names case-insensitively against the run's `used_names` set.
  - It tries the name itself, then `_1`, `_2`, ... until one is free.
  - It records the chosen name, lower-cased, in the set.

`extract_vba_from_excel` feeds every module of the workbook through these
functions with one shared set. Both program versions do this:
`vbaEXTRACTOR.py` also collects the base names of the written files, and
`vba_extractor.py` only counts them.

The model has five modules:

- `Text` holds the Python string operations used:
  - `strip`, `rstrip`, `upper`, `lower`;
  - `str(int)` and reading a number back;
  - the text after the last occurrence of a character.
- `Paths` holds `os.path.join` and `os.path.basename`, with `/` as separator.
- `Sanitizer` holds `sanitize_filename` and its safety properties.
- `UniquePath` holds `build_unique_save_path`:
  - `NameSet` is a class whose `elems` field is the caller's `used_names`;
  - `FindFreeName` is the suffix loop, proved against the function `Allocate`.
- `Extraction` holds the naming loops of both versions.
  - They are proved against the function `AllocateRun`.
  - Every name of a run is pairwise distinct from the others, ignoring case.

Both files define `WINDOWS_RESERVED_NAMES`, `sanitize_filename` and
`build_unique_save_path` identically: at lines 16-56 of vbaEXTRACTOR.py
and at lines 12-52 of vba_extractor.py. One model covers both.

The docstring of `sanitize_filename` (vbaEXTRACTOR.py:25) promises a name
that is safe to save on Windows, and a DOS device name is not. The code
keeps a reserved stem out only when no truncation happens, and the model
follows the code. Take `"CON "`, then 116 dots, then `"x"`. Its
stem is `"CON "`, which is not reserved. The cut to 120 characters and the
`rstrip(" .")` then leave `"CON"` (`Sanitizer.TruncationCanExposeReservedName`).
Sanitizing is not idempotent either: `"a ."` gives `"a "`, and `"a "` gives
`"a"` (`Sanitizer.SanitizeNotIdempotent`).

## Model

| member | source | states |
|---|---|---|
| Sanitizer.Sanitize | vbaEXTRACTOR.py:24-39 | `sanitize_filename(name)` with its default arguments: the cleaning stage followed by the prefix, the cut and the final fallback; its properties are the lemmas below |
| Sanitizer.Cleaned | vbaEXTRACTOR.py:26-30 | replacement of illegal characters, `strip()`, `rstrip(".")`, and `module` when nothing is left |
| Sanitizer.PrefixReserved | vbaEXTRACTOR.py:33-34 | `"_" + name` when the stem, upper-cased, is a device name, else the name |
| Sanitizer.Truncate | vbaEXTRACTOR.py:36-37 | the result is at most 120 characters, and a name of at most 120 characters is left as it is; a longer one is cut to 120 and `rstrip(" .")` applied |
| Sanitizer.Finish | vbaEXTRACTOR.py:32-39 | the prefix, then the cut, then `safe or default_name` |
| Sanitizer.Stem | vbaEXTRACTOR.py:33 | `name.split(".")[0]`: a prefix of the name without a dot, followed in the name by a dot or by nothing |
| Sanitizer.IsReservedStem | vbaEXTRACTOR.py:16-20 | the stem, upper-cased, is one of the 22 device names of `WINDOWS_RESERVED_NAMES` |
| Sanitizer.IsIllegalChar | vbaEXTRACTOR.py:26 | the characters the replacement pattern matches: `< > : " / \ \| ? *` and the code points 0x00 to 0x1F |
| Sanitizer.ReplaceIllegal | vbaEXTRACTOR.py:26 | each character of `< > : " / \ \| ? *` or below 0x20 becomes `_`, every other character stays, the length is kept, and no illegal character remains |
| Sanitizer.SanitizeIsSafe | vbaEXTRACTOR.py:24-39 | the result is non-empty, at most 120 characters, free of illegal characters, does not end with `.`, and starts with `_` whenever the cleaned name's stem is reserved |
| Sanitizer.CleanedIsSafe | vbaEXTRACTOR.py:26-30 | after replacement, `strip()`, `rstrip(".")` and the default fallback, the name is non-empty, legal and has no trailing dot |
| Sanitizer.TruncateIsSafe | vbaEXTRACTOR.py:36-37 | the cut to 120 characters followed by `rstrip(" .")` keeps a name legal, leaves no trailing dot and keeps a leading `_` |
| Sanitizer.FinishIsSafe | vbaEXTRACTOR.py:32-39 | prefixing, cutting and the final fallback keep a safe name safe and within 120 characters; a reserved stem yields a leading `_`; a short enough name is only prefixed |
| Sanitizer.PrefixReservedIsSafe | vbaEXTRACTOR.py:33-34 | a reserved stem gets exactly one `_` in front, any other name is unchanged, and safety is kept |
| Sanitizer.NotReservedWithoutTruncation | vbaEXTRACTOR.py:32-37 | when the prefixed name needs no cut, the result's stem is not a device name |
| Sanitizer.ReservedStemGetsPrefix | vba_extractor.py:28-30 | a name whose stem is reserved, in any case and with any extension, comes out starting with `_`, and as `"_" + name` when no cut happens |
| Sanitizer.DegenerateNameGivesDefault | vba_extractor.py:22-26 | a name made only of whitespace characters that are not control characters (a control character such as a tab becomes `_` first), or only of dots, sanitizes to `module` |
| Sanitizer.UnderscoreStemNotReserved | vbaEXTRACTOR.py:16-20 | no name starting with `_` has a reserved stem, so a prefixed name is never reserved |
| Sanitizer.NotReservedByLength | vbaEXTRACTOR.py:16-20 | a stem shorter than 3 or longer than 4 characters is never reserved |
| Sanitizer.TidyNameCleaned | vbaEXTRACTOR.py:26-27 | a legal name with no surrounding whitespace and no trailing dot passes replacement and stripping unchanged |
| Sanitizer.CleanNameUnchanged | vbaEXTRACTOR.py:24-39 | a name that is already clean is returned unchanged: tidy, non-reserved stem, at most 120 characters |
| Sanitizer.CleanedNameCut | vbaEXTRACTOR.py:36-39 | a cleaned, non-reserved name longer than 120 characters comes out as its first 120 characters with trailing spaces and dots removed, or as `module` when that leaves nothing |
| Sanitizer.CutToNothingGivesDefault | vbaEXTRACTOR.py:36-39 | 120 dots followed by `x` passes the cleaning stage unchanged, but the cut leaves nothing, so the result is `module` |
| Sanitizer.SanitizeReplacesIllegal | vbaEXTRACTOR.py:26 | `"a:b/c"` sanitizes to `"a_b_c"` |
| Sanitizer.SanitizePrefixesDeviceName | vbaEXTRACTOR.py:33-34 | `"CON"` sanitizes to `"_CON"` |
| Sanitizer.SanitizePrefixesDeviceNameWithExtension | vbaEXTRACTOR.py:32-34 | `"con.txt"` sanitizes to `"_con.txt"` |
| Sanitizer.SanitizeEmptyGivesDefault | vbaEXTRACTOR.py:29-30 | the empty name sanitizes to `"module"` |
| Sanitizer.SanitizeNotIdempotent | vbaEXTRACTOR.py:27 | `"a ."` gives `"a "`, and sanitizing that again gives `"a"` |
| Sanitizer.TruncationCanExposeReservedName | vbaEXTRACTOR.py:33-37 | a 121-character name whose stem is not reserved is cut down to the reserved name `"CON"` |
| Text.IsSpace | vbaEXTRACTOR.py:27 | the characters `str.isspace()` accepts, which `strip()` removes |
| Text.Strip | vbaEXTRACTOR.py:27 | `strip()`: whitespace removed from both ends, through `LStrip` and `RStrip` |
| Text.StripKeepsTrimmed | vbaEXTRACTOR.py:27 | `strip()` leaves a non-empty string unchanged when it neither starts nor ends with whitespace |
| Text.LStrip | vbaEXTRACTOR.py:27 | the result is a suffix of the input, everything removed satisfies the predicate, and the first kept character does not |
| Text.RStrip | vbaEXTRACTOR.py:27 | the result is a prefix of the input, everything removed satisfies the predicate, and the last kept character does not |
| Text.Upper | vbaEXTRACTOR.py:33 | the result has the input's length and upper-cases each ASCII letter in place |
| Text.Lower | vbaEXTRACTOR.py:48 | the result has the input's length and lower-cases each ASCII letter in place |
| Text.LowerConcat | vbaEXTRACTOR.py:51 | lower-casing a concatenation lower-cases each part |
| Text.DecimalString | vbaEXTRACTOR.py:49 | `str(k)` is a non-empty string of decimal digits |
| Text.ParseDecimalString | vbaEXTRACTOR.py:49 | reading back the digits of `str(k)` gives `k`, so different counters give different suffixes |
| Text.DecimalStringLengthMonotone | vbaEXTRACTOR.py:49-50 | a larger counter never has a shorter decimal form |
| Text.AfterLast | vbaEXTRACTOR.py:160 | the text after the last separator is a suffix of the input and contains no separator |
| Text.AfterLastStopsAtSeparator | vbaEXTRACTOR.py:160 | when that text is not the whole input, the character just before it is the separator |
| Text.AfterLastAppend | vbaEXTRACTOR.py:160 | appending text without the separator extends the text after the last separator by exactly that text |
| Paths.JoinPath | vbaEXTRACTOR.py:56 | `os.path.join(dir, file)` with `/`: an absolute `file` replaces `dir`, a separator is added only when `dir` does not end with one |
| Paths.BaseName | vbaEXTRACTOR.py:160 | `os.path.basename(path)`: the text after the last `/` |
| Paths.BaseNameOfJoin | vbaEXTRACTOR.py:56 | `basename(join(dir, file))` is `file` for a file name without `/` |
| Paths.JoinPathKeepsCaseDistinction | vba_extractor.py:52 | joining the same folder to two names that differ ignoring case gives paths that differ ignoring case |
| UniquePath.Suffix | vbaEXTRACTOR.py:49 | the suffix `"_" + str(k)` for the counter `k` |
| UniquePath.Allowed | vbaEXTRACTOR.py:50 | `max(1, 120 - len(suffix))` |
| UniquePath.Candidate | vbaEXTRACTOR.py:51 | `base[:allowed] + suffix`; the `rstrip` of line 52 is shown to change nothing by `CandidateKeptByRStrip` |
| UniquePath.ChosenIndex | vbaEXTRACTOR.py:48-53 | the counter the loop ends with: none when the base name is free, else the first counter whose candidate is free |
| UniquePath.NameSet.constructor | vbaEXTRACTOR.py:144 | `used_names = set()`: a run starts with no names recorded |
| UniquePath.Clip | vbaEXTRACTOR.py:51 | `base[:allowed]` is the prefix of length `allowed`, or the whole base when that is shorter |
| UniquePath.CandidateKeptByRStrip | vbaEXTRACTOR.py:52 | the `rstrip(" .")` of a suffixed candidate removes nothing, because it ends with a digit |
| UniquePath.CandidateLength | vbaEXTRACTOR.py:49-51 | a suffixed candidate is at most 120 characters when the suffix `_k` is at most 119 |
| UniquePath.SuffixIndexOfCandidate | vbaEXTRACTOR.py:49-51 | the counter `k` can be read back from the lower-cased candidate, after its last `_` |
| UniquePath.CandidatesDistinct | vbaEXTRACTOR.py:48-53 | candidates for different counters differ ignoring case |
| UniquePath.TriedNamesCount | vbaEXTRACTOR.py:48-53 | the candidates for the counters 1 to k-1 are k-1 different lower-cased names |
| UniquePath.TakenCandidatesBound | vbaEXTRACTOR.py:48-53 | the candidates 1 to k-1 can all be taken only when `used_names` has at least k-1 elements |
| UniquePath.FirstFreeIndex | vbaEXTRACTOR.py:48-53 | the loop stops at the first counter whose candidate is free, and that counter is at most `len(used_names) + 1` |
| UniquePath.Allocate | vbaEXTRACTOR.py:44-53 | the allocated name, lower-cased, is not in `used_names` |
| UniquePath.AllocateSuffixRule | vbaEXTRACTOR.py:44-53 | a free base name is kept. Otherwise the name is `base[:allowed] + "_k"` for the first free `k`, with `1 <= k <= len(used_names) + 1`, and every earlier candidate is taken |
| UniquePath.FindFreeName | vba_extractor.py:41-49 | the loop's final candidate is the allocated name |
| UniquePath.BuildUniqueSavePath | vbaEXTRACTOR.py:42-56 | it returns `join(output_dir, name + ".txt")` for the allocated name. That name, lower-cased, was not used before, and `used_names` becomes the old set plus it, one element larger |
| UniquePath.CandidateIsSafe | vbaEXTRACTOR.py:49-52 | a suffixed candidate of a safe base is non-empty, legal and has no trailing dot |
| UniquePath.AllocateIsSafe | vba_extractor.py:40-49 | the allocated name of any raw name is safe, and at most 120 characters when `str(len(used_names) + 1)` has at most 118 digits |
| UniquePath.FirstSuffix | vbaEXTRACTOR.py:48-53 | a base of at most 118 characters whose own name is the only one taken gets `base + "_1"` |
| UniquePath.AllocateFirstModule | vbaEXTRACTOR.py:44-48 | `"Module1"` against an empty set is allocated as `"Module1"` |
| UniquePath.RepeatedNameGetsFirstSuffix | vbaEXTRACTOR.py:44-53 | a clean name of at most 118 characters after an earlier name equal to it ignoring case, such as `"MODULE1"` after `"Module1"`, gets `name + "_1"` (a longer one would be clipped before the suffix) |
| Extraction.AllocateRun | vbaEXTRACTOR.py:143-161 | the names a run chooses, one per module and in order, each allocated against the lower-cased names chosen before it |
| Extraction.LowerSet | vbaEXTRACTOR.py:55 | the set holds exactly the lower-cased names of the sequence |
| Extraction.AllocateRunDistinct | vbaEXTRACTOR.py:143-161 | the names allocated in one run are pairwise distinct ignoring case, and the shared set ends with one element per module |
| Extraction.AllocateRunSafe | vbaEXTRACTOR.py:143-161 | every name allocated in a run is non-empty, legal and has no trailing dot |
| Extraction.AllocateRunLast | vbaEXTRACTOR.py:153 | each module's name is allocated against the names chosen before it, and is fresh among them |
| Extraction.BaseNameOfSavePath | vbaEXTRACTOR.py:160 | the base name of a save path is the allocated name with `.txt` |
| Extraction.FileNamesDistinct | vbaEXTRACTOR.py:160 | appending `.txt` to pairwise distinct names keeps them pairwise distinct ignoring case |
| Extraction.SavePathsDistinct | vba_extractor.py:111 | the save paths of pairwise distinct safe names are pairwise distinct ignoring case |
| Extraction.RepeatedNameRun | vbaEXTRACTOR.py:143-161 | two clean modules whose names are equal ignoring case, the second of at most 118 characters: the first keeps its name, the second gets `_1` |
| Extraction.RepeatedModuleRun | vbaEXTRACTOR.py:143-161 | two modules called `Module1` give `Module1` and `Module1_1`, so the files `Module1.txt` and `Module1_1.txt` |
| Extraction.NameModules | vbaEXTRACTOR.py:143-161 | `count` is the number of modules, and `extracted_file_names` holds each module's allocated name with `.txt`, in order and pairwise distinct ignoring ASCII case |
| Extraction.SavePaths | vba_extractor.py:102-118 | `count` is the number of modules, and the save paths are each module's allocated name with `.txt` under `output_dir`, in order and pairwise distinct ignoring ASCII case (see `Text.Lower` under "## Left out") |

## Left out

- The Tkinter interface (`main`, `browse_file`, `on_drop`, `run_extraction`) is event-loop and UI code.
- `parse_dnd_file_paths` delegates to Tcl's `splitlist`, a foreign call.
- The oletools `VBA_Parser` is left out, and so are the workbook checks, `os.makedirs` and the file writes in `extract_vba_from_excel`. They are a third-party library and I/O. The module names arrive as a sequence, and only the naming loop is modelled.
- `output_dir` is taken from the workbook path with `os.path.splitext`. The model takes it as a parameter.
- The `print` calls, exceptions, the success and failure messages, and the returned tuples are left out.
- `write_extraction_report` reads and writes a JSON file with a wall-clock timestamp, which is I/O.
- `normalize_vba_code` decodes bytes as UTF-8 with replacement, which is library behaviour.
- `is_supported_excel_file` queries the filesystem.
- `build_no_macro_message` returns a constant string.
- `sanitize_filename`'s parameters `default_name` and `max_length` are the constants `module` and 120, the defaults every caller uses. `str(name)` is taken as the identity, because module names are strings.
- Text.Upper: upper-cases only ASCII letters, whereas Python's `str.upper` follows Unicode case mappings.
- Text.Lower: lower-cases only ASCII letters, whereas Python's `str.lower` follows Unicode case mappings. Name collisions that only Unicode case folding would reveal are not modelled.
- Paths.BaseNameOfJoin: `os.path.join` and `os.path.basename` follow POSIX, with `/` as the only separator. The Windows `\` separator is covered only in that `\` never survives sanitizing.
- Sanitizer.NotReservedWithoutTruncation: proved only when no cut happens. The code does not keep the property after a cut (`Sanitizer.TruncationCanExposeReservedName`).
- UniquePath.AllocateIsSafe: the 120-character bound needs the suffix counter to have at most 118 digits. Beyond that, `max(1, …)` keeps one base character and the name grows past 120.
