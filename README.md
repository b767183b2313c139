# Landslide-model post-processing scripts, modelled in Dafny

The repository surrounds a hydrological and landslide simulator with small
Python scripts. Four of them carry the logic modelled here:

- `Visualization/Plot_all.py` reads grid geometry from the `Control.Project`
  file (`key = value # comment` lines). It turns every dataset of the results
  store named `<prefix>_<tag>_<time>` into a figure in the folder of its
  variable, and it then makes one video per folder from the frames sorted by
  the number in their names.
- `Visualization/VideoMaker.py` is the stand-alone version of that video
  step. It differs in its skip rules.
- `batch_replace_soil.py` remaps soil codes in an ASCII grid through nine
  literal `str.replace` passes: 9→6, then 8→7, then 7→3.
- `fixpet.py` zeroes every negative number in the data lines of the PET
  grids, below a six-line header. It counts what it replaced, checks that
  nothing is left, and points `PETPath` in the control file at the fixed
  folder.

## How the model is built

- **Pure text handling is written as functions with exact contracts.** This
  covers the control lookup, the name splits, the `str.replace`/`str.count`
  semantics, the regular expressions of `fixpet.py` and the sort key.
- **Code that loops and mutates is written as methods.** Each method is
  proved equal to a specification function whose properties are proved as
  lemmas:
  - the line loop of `fix_pet_file`;
  - the dataset loop;
  - the in-place cell updates;
  - the frame loops;
  - the video writer (a class whose `Write` appends a frame).
- **Files:**

| file | module | models |
|---|---|---|
| wrappers.dfy | Wrappers | `Option`, `Result` |
| text.dfy | Text | `str.find`, `split(sep, maxsplit)`, `split('\n')`, `join`, `readlines`, `re.sub(r'\s+', '', …)` |
| replace.dfy | Replace | `str.replace` and `str.count` (non-overlapping, left to right) |
| soil.dfy | SoilRemap | `batch_replace_soil_values` |
| negative.dfy | NegativePattern | `re.sub`/`re.findall` of `-\d+\.?\d*([eE][-+]?\d+)?` |
| fixpet.dfy | FixPet | `fix_pet_file`, `verify_no_negatives` |
| petpath.dfy | PetPath | the `PETPath` substitution of `update_control_project` |
| control.dfy | ControlFile | `get_control_value`, grid numbers and extents |
| profiles.dfy | Profiles | variable table, cell transform, FS3D classes |
| datasets.dfy | Datasets | the dataset loop of `Plot_all.py` |
| frameorder.dfy | FrameOrder | `.jpg` filter and the digit-key stable sort |
| videos.dfy | Videos | the video steps of both scripts |

### Where the model follows the code rather than the stated intent

- **The soil remap.** The docstring of `batch_replace_soil_values` promises
  the mapping 7→3, 8→7, 9→6. The code does something else, and the model
  follows the code:
  - a lone 8 is rewritten by the 8→7 pass and then again by the 7→3 pass,
    so it ends as 3;
  - in ` 9 9 ` the two tokens share a space, so the non-overlapping scan
    rewrites only the first one.
- **The sanitizer.** It does not always leave a clean file. In `--5` the
  match starts at the second minus, and the result `-0` is itself a match.
  The model proves that the fixed data is clean when it holds no `--`, and
  it exhibits `--5` as the exception.

## Model

| member | source | states |
|---|---|---|
| Text.IndexOf | Visualization/Plot_all.py:52 | The index is that of the first occurrence: the character sits there and not before it, and the result is None exactly when the character is absent. |
| Text.SplitMax | Visualization/Plot_all.py:114 | `split(sep, maxsplit)` gives 1 to maxsplit+1 pieces. Every piece but the last is free of the separator, and so is the last one when fewer than maxsplit+1 pieces result. Joining the pieces with the separator gives the input back. |
| Text.Split | fixpet.py:58 | `split('\n')` is never empty and its pieces hold no separator. Joining them with the separator gives the input back. |
| Text.SplitJoin | fixpet.py:58-59 | The other half of the round trip: splitting what `join` built from separator-free parts returns those parts. |
| Text.ReadLines | fixpet.py:12-13 | The lines of `readlines` concatenate to the text. Each line is non-empty, and every line but the last ends in its only newline. |
| Text.ReadLinesOfConcat | fixpet.py:13 | Reading back the text that well-formed lines make gives those lines: `readlines` is the inverse of `writelines`. |
| Text.SplitAfterClosedLines | fixpet.py:58-59 | After a run of newline-terminated lines, `split('\n')` gives one piece per line, and the pieces of what follows come after them. |
| Text.RemoveSpaces | Visualization/Plot_all.py:51 | `re.sub(r'\s+', '', s)` keeps exactly the characters of the line that are not white space, and never lengthens it. |
| Replace.CountOf | batch_replace_soil.py:37-40 | The non-overlapping count times the pattern length never exceeds the text length. |
| Replace.ReplaceAll | batch_replace_soil.py:55 | An equal-length replacement keeps the text length. |
| Replace.ReplaceLength | batch_replace_soil.py:55 | The result length is the input length plus the count times the length difference. |
| Replace.CountZeroIffAbsent | batch_replace_soil.py:37 | The count is zero exactly when the pattern occurs nowhere. |
| Replace.OccurrenceIsCounted | batch_replace_soil.py:37 | Any occurrence makes the count positive. |
| Replace.CountedIsOccurrence | batch_replace_soil.py:37 | A positive count has an occurrence behind it. |
| Replace.ReplaceChangesIffCounted | batch_replace_soil.py:55-67 | A replacement by a different string of the same length changes the text exactly when the pattern is counted in it. |
| Replace.ReplaceOnlyChanges | batch_replace_soil.py:55-67 | When the replacement differs from the pattern only by a→b at some positions, the result differs from the input only by a→b. |
| Replace.ChangeInsideOccurrence | batch_replace_soil.py:55-67 | Every changed position lies inside an occurrence of the pattern, at a position where the replacement differs. |
| Replace.CountBySameOccurrences | batch_replace_soil.py:36-41 | Two texts of equal length with the same occurrences have the same count. |
| Replace.ReplaceFirst | batch_replace_soil.py:55 | The first occurrence is replaced and the scan resumes after it. |
| Replace.ReplaceWithoutMatch | batch_replace_soil.py:55 | Text with a zero count is returned unchanged. |
| SoilRemap.ReplaceValue | batch_replace_soil.py:55-57 | The three delimited passes for one digit change only that digit, and only into its target. |
| SoilRemap.RemapSoil | batch_replace_soil.py:54-67 | Nine passes in order. The length is kept. Characters other than 7, 8 and 9 are kept. A 9 ends as 9 or 6, an 8 as 8, 7 or 3, and a 7 as 7 or 3. |
| SoilRemap.ThreePasses | batch_replace_soil.py:54-67 | The composition of the three digit passes has those per-character outcomes. |
| SoilRemap.RemapChangesOnlyDelimited | batch_replace_soil.py:55-67 | A character changes only where it sits between a space or newline and a space or newline, in one of the three searched spellings. So the first character of the text, digits inside multi-digit tokens and tokens next to a tab are never rewritten. |
| SoilRemap.LoneEightBecomesThree | batch_replace_soil.py:60-67 | ` 8 ` ends as ` 3 `, not ` 7 `: the 7→3 pass rewrites what the 8→7 pass produced. |
| SoilRemap.AdjacentNinesHalfReplaced | batch_replace_soil.py:55-67 | ` 9 9 ` ends as ` 6 9 `: the shared space is consumed by the first match. |
| SoilRemap.MixedTokens | batch_replace_soil.py:54-67 | ` 9 7 8 4 ` ends as ` 6 3 7 4 `. |
| SoilRemap.HeaderNotProtected | batch_replace_soil.py:55-67 | A header line `ncols 8` is remapped like data, to `ncols 3`. |
| SoilRemap.PassWithoutNewline | batch_replace_soil.py:55-57 | On text without newlines a digit's pass is the single space-delimited replacement. |
| SoilRemap.ValueCount | batch_replace_soil.py:37 | A digit's printed count, the sum of the three `str.count` calls, is at most the text length. |
| SoilRemap.ValueCountZeroIff | batch_replace_soil.py:37 | A digit's printed count is zero exactly when none of its three spellings occurs in the text. |
| SoilRemap.CountsOf | batch_replace_soil.py:36-41 | The table has exactly the listed digits as keys, and each holds the sum of the three counts for that digit. |
| SoilRemap.PassUnchangedIffNotCounted | batch_replace_soil.py:37-57 | A digit's pass leaves the text unchanged exactly when the script's count for that digit is zero. |
| SoilRemap.UntouchedValueCountKept | batch_replace_soil.py:40-74 | The count of a digit outside 3, 6, 7, 8 and 9 (the 4 the script reports) is the same before and after. |
| SoilRemap.BatchReplaceSoilValues | batch_replace_soil.py:10-89 | The target defaults to the input path. The run succeeds exactly when reading and writing succeed, and then writes the remapped text, of unchanged length. The original table holds, for 7, 8, 9 and 4, the script's three-spelling count in the input. The new table holds it for 3, 6, 7 and 4 in the remapped text. The count of 4 is the same in both. |
| NegativePattern.DigitsEnd | fixpet.py:31 | `\d*` from a position: every character covered is a digit, and the first one after is not. |
| NegativePattern.ExponentEnd | fixpet.py:31 | The optional exponent group is empty, or covers an `e`/`E` with at least one more character. |
| NegativePattern.MatchLen | fixpet.py:31 | A match at the start exists exactly when the text starts with `-` and a digit. It is then at least 2 long and within the text. |
| NegativePattern.MatchStopsAtSeparator | fixpet.py:31 | A match starting in a piece that ends in a non-number character does not depend on what follows the piece. |
| NegativePattern.Sanitize | fixpet.py:31 | `re.sub(pattern, '0', …)` never lengthens the text. |
| NegativePattern.SanitizeShrinks | fixpet.py:31-34 | Each replaced match shrinks the text by at least one character. |
| NegativePattern.CountMatches | fixpet.py:34 | `len(re.findall(…))` is at most half the text length, since every match takes at least two characters. |
| NegativePattern.CountZeroIffNoDashDigit | fixpet.py:61-62 | `findall` finds nothing exactly when no `-` is followed by a digit. |
| NegativePattern.SanitizeUnchangedIffNoMatch | fixpet.py:31-34 | The substitution changes the text exactly when the count is positive. |
| NegativePattern.SanitizeCleanWithoutDoubleDash | fixpet.py:31 | Sanitized text without `--` holds no match any more. |
| NegativePattern.DoubleDashLeavesMatch | fixpet.py:31 | `--5` becomes `-0`, which still holds a match. |
| NegativePattern.SanitizeSplitsAtSeparator | fixpet.py:27-34 | Sanitizing and counting split at any piece that ends in a non-number character, such as a newline. |
| NegativePattern.NegativeTokensZeroed | fixpet.py:29-31 | `1.2 -3.4 -5.6e-2 7.8` becomes `1.2 0 0 7.8` with two matches. |
| NegativePattern.NegativeExponentZeroed | fixpet.py:31 | `1.2e-3` becomes `1.2e0`: the negative exponent is itself a match. |
| NegativePattern.SanitizeLines | fixpet.py:27-35 | One sanitized line per input line, in order. |
| NegativePattern.LinewiseIsWhole | fixpet.py:27-35 | For newline-terminated lines, sanitizing line by line and concatenating equals sanitizing the concatenation, and the per-line counts add up to the count of the whole. |
| FixPet.FixPetFile | fixpet.py:6-49 | Fails without writing when the file is unreadable, has fewer than 6 lines, or cannot be written. Otherwise writes the header followed by the sanitized data lines, and the count is the number of matches in the data region. |
| FixPet.LinesAppend | fixpet.py:27-35 | One more loop iteration appends one sanitized line and adds that line's matches. |
| FixPet.ReadLinesSplit | fixpet.py:13-21 | The header lines followed by the data lines give back the whole file text. |
| FixPet.FixedText | fixpet.py:20-42 | The written text starts with the header lines, unchanged. |
| FixPet.FixedIsHeaderThenSanitizedData | fixpet.py:20-42 | The written file is the verbatim header followed by the sanitized data text. |
| FixPet.FixedHeaderOnly | fixpet.py:15-42 | A file of exactly six lines is written back unchanged. |
| FixPet.DataCount | fixpet.py:24-34 | The count accumulated line by line is the count over the data text. |
| FixPet.DropHeader | fixpet.py:59 | `lines[6:]` is empty for six pieces or fewer, and the rest otherwise. |
| FixPet.VerifiedRegionIsData | fixpet.py:58-59 | The text that `verify_no_negatives` searches, after six `\n`-split pieces, is exactly the data region that `fix_pet_file` processes. |
| FixPet.VerifyNoNegatives | fixpet.py:51-64 | An unreadable file is rejected. A readable file is accepted exactly when the text after the first six `\n`-separated pieces holds no minus sign followed by a digit. |
| FixPet.VerifyIffNothingToFix | fixpet.py:51-62 | The checker accepts a file exactly when the fixer would count no match in it. |
| FixPet.FixedFileVerifies | fixpet.py:41-62 | A fixed file has a full header and passes the check, provided its data held no `--`. |
| PetPath.SpaceRun | fixpet.py:81 | `\s*` covers white space only and stops before a non-space. |
| PetPath.QuotedLen | fixpet.py:81 | `"[^"]*"` covers a quote, quote-free text and a closing quote. |
| PetPath.DirectiveLen | fixpet.py:81 | A match starts with `PETPath`. |
| PetPath.SpelledIsMatched | fixpet.py:81 | Every spelling `PETPath<ws>=<ws>"<value>"` is matched as a whole, whatever follows. |
| PetPath.MatchIsSpelled | fixpet.py:81 | Conversely, every match is such a spelling. |
| PetPath.Rewrite | fixpet.py:80-84 | The `re.sub` of the `PETPath` pattern leaves text without the letter `P` unchanged. |
| PetPath.RewriteSpelled | fixpet.py:80-84 | A directive at the scan position is replaced, and the scan resumes after it. |
| PetPath.RewriteWithoutKeyword | fixpet.py:80-84 | Text without `PETPath` is left unchanged. |
| PetPath.RewriteAfterPrefix | fixpet.py:80-84 | A prefix without `P` is copied as it is. |
| PetPath.DirectiveIsStable | fixpet.py:82-84 | The directive written is itself matched, so a second run writes the same text again. |
| PetPath.FolderLineRewritten | fixpet.py:80-84 | `PETPath = "./PETs/pet"` becomes `PETPath\t\t=\t"./PETs_fixed/pet"`. |
| PetPath.UpdateControlProject | fixpet.py:66-95 | True exactly when the file exists and both the read and the write succeed, and then the substituted text is written. `old_path` is ignored. |
| ControlFile.FirstMention | Visualization/Plot_all.py:51 | The first line containing the key as a substring, or None when no line contains it. |
| ControlFile.Uncommented | Visualization/Plot_all.py:52 | `split("#", 1)[0]`: the longest `#`-free prefix. |
| ControlFile.AfterEquals | Visualization/Plot_all.py:52 | `split("=", 1)[1]`: the text after the first `=`, or None when the line has none (the index error). |
| ControlFile.LineValue | Visualization/Plot_all.py:51-52 | The value holds neither `#` nor white space. |
| ControlFile.GetControlValue | Visualization/Plot_all.py:49-55 | With no line containing the key, the lookup fails (the script exits). A value found holds no `#` and no white space. |
| ControlFile.FirstMentionDecides | Visualization/Plot_all.py:51 | Only the first line that mentions the key matters, whatever follows it. |
| ControlFile.AssignmentRoundTrip | Visualization/Plot_all.py:51-52 | A line `key <ws>=<ws> value <ws># comment` gives back `value`. |
| ControlFile.CommentMentionExits | Visualization/Plot_all.py:51-55 | A commented-out line that mentions the key is picked first, and the lookup fails on it. |
| ControlFile.RemoveSpacesAppend | Visualization/Plot_all.py:51 | Deleting white space distributes over concatenation. |
| ControlFile.ControlNumber | Visualization/Plot_all.py:52 | A number is read only when the lookup finds a value, and it is that value parsed. |
| ControlFile.ReadNumbers | Visualization/Plot_all.py:58-67 | All numbers of the keys, in order, or a failure exactly when some key's number cannot be read. |
| ControlFile.ReadGrid | Visualization/Plot_all.py:58-67 | The grid is read exactly when all five of its numbers are. Each field is the number read for its own key: `XLLCorner_`, `YLLCorner_`, `NCols_`, `NRows_` and `CellSize_` with the suffix. |
| ControlFile.Extent | Visualization/Plot_all.py:73-76 | Four numbers. The first and third are the lower-left corner `xll` and `yll`. The width is `nCols` cells and the height `nRows` cells. |
| ControlFile.ExtentCoversGrid | Visualization/Plot_all.py:73-76 | The widths are nCols·cell and nRows·cell, and every cell corner lies inside the extent. |
| ControlFile.ExtentFor | Visualization/Plot_all.py:130-169 | R, W and SM use the hydro extent; the other variables use the land extent. |
| Profiles.TagOf | Visualization/Plot_all.py:102-116 | A tag is recognised exactly when it is in `variable_list`, as the variable with that tag. |
| Profiles.TagRoundTrip | Visualization/Plot_all.py:102-116 | Every variable's tag is recognised as that variable. |
| Profiles.FoldersAreTheVideoFolders | Visualization/Plot_all.py:128-165 | The folder map is a bijection onto the six prepared folders that the video step visits. |
| Profiles.GridOf | Visualization/Plot_all.py:128-169 | The hydro grid is used exactly for R, W and SM. |
| Profiles.CellValue | Visualization/Plot_all.py:118-129 | A cell is missing exactly when the raw value is -9999. Otherwise it is the raw value over 100, except that an R zero becomes 1e-6. |
| Profiles.ZeroOnlyOutsideR | Visualization/Plot_all.py:128-129 | A drawn exact zero comes from a raw 0 of a variable other than R. |
| Profiles.MarkMissing | Visualization/Plot_all.py:120 | In place, exactly the sentinel cells become missing. |
| Profiles.Divided | Visualization/Plot_all.py:121 | A new array with every cell divided by 100; missing stays missing. |
| Profiles.ReplaceZeros | Visualization/Plot_all.py:129 | In place, exactly the zero cells become 1e-6. |
| Profiles.LoadMatrix | Visualization/Plot_all.py:118-129 | The three in-place steps leave every cell as `CellValue` says. |
| Profiles.Classify | Visualization/Plot_all.py:97-98 | For increasing bounds, v is in bucket i exactly when bounds[i] ≤ v < bounds[i+1]. It is below the scale exactly when under the first bound, and in the extended top class exactly when at or above the last. |
| Profiles.RawClassAgrees | Visualization/Plot_all.py:97-98 | Classifying the drawn FS3D value over `bounds_FS` equals classifying the raw integer over 0, 80, 100, 120, 140, 200 and 300. |
| Profiles.FsTopClass | Visualization/Plot_all.py:184 | Raw 300 and 1000 fall in the extended top class. |
| Profiles.FsEdgeBuckets | Visualization/Plot_all.py:97-98 | Raw 299 is in the last bucket, 0 in the first, and -1 below the scale. |
| Datasets.NameParts | Visualization/Plot_all.py:114 | `split("_", 2)` gives one to three parts, and the first two hold no underscore. |
| Datasets.Process | Visualization/Plot_all.py:113-195 | A dataset is saved exactly when its name has three parts, a listed tag, and it can be drawn. The image is then named tag + "_" + time + ".jpg" and titled with the time. It is skipped exactly when the tag is not listed, and fails otherwise. |
| Datasets.OutNameIsTagAndTime | Visualization/Plot_all.py:122-123 | The output name taken after the first underscore is tag + "_" + time. |
| Datasets.NameRoundTrip | Visualization/Plot_all.py:114-123 | `<prefix>_<tag>_<time>` (the time may contain underscores) is saved as `<tag>_<time>.jpg`, titled `<time>`, for that variable. |
| Datasets.UnknownTagSkipped | Visualization/Plot_all.py:190-192 | An unlisted tag is skipped, whatever follows it. |
| Datasets.NoUnderscoreFails | Visualization/Plot_all.py:113-114 | A name without an underscore fails and is caught. |
| Datasets.MissingTimeFails | Visualization/Plot_all.py:116-122 | A listed tag with no time part fails after the tag test. |
| Datasets.SavedImagesWellFormed | Visualization/Plot_all.py:123-186 | Every saved figure is named after its tag and time and lies in one of the six folders. |
| Datasets.SavedIffProcessed | Visualization/Plot_all.py:110-195 | A figure is saved exactly when some dataset's outcome is that figure. |
| Datasets.SavedFrom | Visualization/Plot_all.py:111-195 | The inner loop saves at most one figure per dataset. |
| Datasets.SavedFromStore | Visualization/Plot_all.py:110-195 | The whole loop saves at most one figure per dataset of the store. |
| Datasets.StoreImagesWellFormed | Visualization/Plot_all.py:110-186 | Every figure the whole loop saves is a `.jpg` named after its tag and time, and lies in one of the six folders. |
| Datasets.StoreSavedIffGroupSaved | Visualization/Plot_all.py:110-111 | A figure is saved for the store exactly when it is saved for one of its groups. |
| Datasets.StoreSavedIffProcessed | Visualization/Plot_all.py:110-195 | A figure is saved for the store exactly when some dataset of some group is processed into it. |
| Datasets.PlotAll | Visualization/Plot_all.py:110-195 | The nested loop saves, in order, what the per-dataset outcomes say. |
| FrameOrder.JpgFiles | Visualization/Plot_all.py:202 | Exactly the `.jpg` names of the listing, all from it. |
| FrameOrder.Digits | Visualization/Plot_all.py:204 | The digit characters of the name. |
| FrameOrder.DigitsEmptyIff | Visualization/Plot_all.py:204 | No digits are collected exactly when the name has none. |
| FrameOrder.SortKey | Visualization/Plot_all.py:204 | `int("")` fails exactly when the name has no digit. |
| FrameOrder.DecimalBelow | Visualization/Plot_all.py:204 | A number of n digits is below 10^n. |
| FrameOrder.SortIsStable | Visualization/Plot_all.py:204 | The sort is ordered by key, a permutation, and keeps the relative order of equal keys. |
| FrameOrder.StableSortUnique | Visualization/Plot_all.py:204 | Two key-ordered sequences that agree on each key's subsequence are equal: a stable sort has exactly one result. |
| FrameOrder.FrameOrder | Visualization/Plot_all.py:202-204 | The `.jpg` names sorted stably by key, or a failure exactly when one of them has no digit. |
| FrameOrder.FramesInNumericOrder | Visualization/Plot_all.py:204 | W_21, W_3, W_10 come out as W_3, W_10, W_21. |
| Videos.VideoWriter.Write | Visualization/Plot_all.py:217-218 | Appends one frame; the file, rate and size are kept. |
| Videos.Decoded | Visualization/Plot_all.py:205-212 | At most one frame per name. |
| Videos.DecodedIff | Visualization/Plot_all.py:205-212 | An image is kept exactly when some name decodes to it. |
| Videos.DecodedEmptyIff | Visualization/Plot_all.py:205-213 | Nothing is kept exactly when no name decodes. |
| Videos.DecodedFirst | Visualization/VideoMaker.py:37-54 | When the first name decodes, it is the first frame. |
| Videos.ReadFrames | Visualization/Plot_all.py:205-212 | The read loop keeps the decodable images in order. |
| Videos.WriteVideo | Visualization/Plot_all.py:214-219 | The video has the first frame's size, 5 fps and all frames in order. |
| Videos.PlotAllVideo | Visualization/Plot_all.py:202-220 | One folder crashes exactly when it has `.jpg` files and one lacks a digit. A video made is `<folder>.avi` at 5 fps, non-empty, sized after its first frame. |
| Videos.PlotAllFolderVideo | Visualization/Plot_all.py:201-222 | Per folder: no video without `.jpg` files or without a readable image; a crash when a name has no digit; otherwise the video of the readable frames. |
| Videos.VideoMakerVideo | Visualization/VideoMaker.py:20-58 | One folder crashes exactly when it exists, has `.jpg` files and one lacks a digit. A video made is `<folder>.avi` at 5 fps, non-empty, sized after its first frame. |
| Videos.VideoMakerFolder | Visualization/VideoMaker.py:13-58 | Per folder: a missing directory, no `.jpg`, or an unreadable first file skips it; a name without a digit crashes; otherwise the video of the readable frames. |
| Videos.SameVideoWhenFirstDecodes | Visualization/Plot_all.py:213-219 | When the first sorted file decodes, both scripts make the same video. |
| Videos.FirstUnreadableDiffers | Visualization/VideoMaker.py:37-40 | When only a later file decodes, the plotting script makes a video and VideoMaker skips the folder. |
| Videos.PlotAllNoVideoIff | Visualization/Plot_all.py:213 | No video exactly when no file decodes. |
| Videos.MadeVideoShape | Visualization/Plot_all.py:214-219 | Every video made runs at 5 fps, is named after its folder, is non-empty, and holds the decodable frames in sorted order. |
| Videos.CollectedIff | Visualization/Plot_all.py:200-222 | The run crashes exactly when some folder crashes, and every video comes from some folder. |
| Videos.CollectedComplete | Visualization/VideoMaker.py:13-58 | Without a crash, every folder that makes a video contributes it. |
| Videos.CrashIsFinal | Visualization/Plot_all.py:200-222 | After a crash nothing more is collected. |
| Videos.PlotAllStep | Visualization/Plot_all.py:200-202 | A folder missing from the listing map crashes the loop, since `os.listdir` raises. A present folder gives its Plot_all.py video step. |
| Videos.VideoMakerStep | Visualization/VideoMaker.py:19-22 | A missing folder gives no video. A present folder gives its VideoMaker.py video step. |
| Videos.PlotAllVideos | Visualization/Plot_all.py:200-222 | The folder loop collects what the per-folder steps give, in folder order. |
| Videos.MakeVideos | Visualization/VideoMaker.py:13-58 | The folder loop collects what the per-folder steps give, in folder order. |

## Left out

- Text-mode reading translates `\r\n` and a lone `\r` into `\n`. The model starts from the translated text, so a CRLF file's line-final tokens are rewritten like any others.
- File and store I/O (open, read, write, `makedirs`, h5py, shapefile) is not modelled. File contents and success flags are parameters, and `imread` is an oracle from folder and name to an optional image.
- Matplotlib drawing (colour maps, colour bars, ticks, layout, DPI) and OpenCV encoding are not modelled. A saved figure is its variable, file name and title. A video is its file name, rate, size and frames.
- Float32 casting and NaN arithmetic are not modelled. Cells are exact reals, and missing is a constructor.
- Parsing control values as floats is not modelled: a `parse` oracle turns the extracted string into a number.
- `\s` and `\d` are modelled over ASCII only. Unicode white space and digits are left out.
- The directory listing order is the given sequence, and its source (`os.listdir`) is not modelled.
- Path spelling is not modelled: `base_path` and the `./<var>/` prefix are folded into the folder argument. In particular, the different output directory of the two video scripts (`base_path` versus the working directory) is not modelled.
- Directory creation and clearing in `Plot_all.py` (lines 28-38) are not modelled.
- The backup copy, `main` and its `sys.exit` in `batch_replace_soil.py` are not modelled.
- The `main` of `fixpet.py` is not modelled: globbing, the interactive prompt, and the summary printing.
- Printing and progress messages are left out.
- Reading the control file and the `exit(1)` of a failed lookup become a `None` result.
- The exception that aborts the video loop (`int("")` on a name without digits) becomes a `Crash` outcome that stops the collection.
- PetPath.UpdateControlProject: requires that the new folder name holds no backslash. A backslash in the `re.sub` template would be read as an escape, and that is not modelled.
- FixPet.FixedFileVerifies: holds only for data without `--`. Data with a doubled minus can keep a match after fixing, as `NegativePattern.DoubleDashLeavesMatch` shows.
- Datasets.Process: whether reading, drawing and saving one dataset raises is a flag of the dataset. The rendering errors themselves are not modelled.
