# nipype beginner's guide scripts: the pure routines, modelled in Dafny

The scripts of the nipype beginner's guide mostly connect external neuroimaging tools. Between
those connections sit a few small, sequential routines that do real work on text and lists. This
project models them and proves what they compute:

- **Anatomical ROI summary** (`aROIpipeline.py`). `getVersion` picks one of the two
  segmentation volumes. For each subject, the summary loop reads two FreeSurfer
  `summary.stats` files. `findStartOfData` finds where the data lines begin. Each data line
  becomes a record `[segId, structName, mean]`. The records of both files are concatenated,
  sorted, and adjacent repeats are dropped. They are folded into a 15000-row table indexed by
  segment id: the first name seen wins and the value is appended. Every row still shorter than
  `subjectNumber + 2` then gets a `0.0`. At the end a header row goes in front and rows that
  never got a name are dropped.
  Modules `StatsRecords` (file to records) and `AnatomicalRoi` (table).
- **Onset bucketing** (`get_subject_info` in `example_fMRI_1_first_level.py`). The lines of the
  eight onset files become tagged onsets, and a line whose second field is `0.00` is skipped.
  The onsets are routed into four buckets: run 1 or run 2, congruent (conditions 01 and 02) or
  incongruent (03 and 04). Each bucket is sorted, and the buckets are packed into one record
  per run. Module `Onsets`.
- **Interleaved slice order** (`example_fMRI_1_first_level.py` and `tutorial_3_first_steps.py`):
  `range(1, n+1, 2) + range(2, n+1, 2)`, and the 40-slice instance with reference slice 2.
  Module `SliceOrder`.
- **Spherical ROI** (`fROIpipeline.py`). This covers:
  - the cube corner, the six ROI numbers and the `fslmaths` option strings built from them;
  - the `-mas` option;
  - the zero-padded contrast file name;
  - the layout of the summary table: a header row, then per contrast a label row, one row per
    subject and an empty row.

  Module `FunctionalRoi`.

Shared modules:

- `Results`: `Result` and `Option`, with Python's `IndexError` and `ValueError` as the error
  values.
- `Text`: Python 2 `str.split()`, `strip`, and the lexicographic string order.
- `Numbers`: `int()`, `float()` on plain decimals, `%d` and `%04d`.
- `Sorting`: a reference insertion sort, the proof that a sorted permutation under a total order
  is unique, and the removal of adjacent repeats.

Because the sorted permutation is unique, any correct sort gives the same result. That is why a
reference sort can stand in for Python's `sort()` and `sorted()`.

Choices that follow the Python 2 code:

- **`findStartOfData` returning `None`.** When the function finds no data line it returns
  `None`, and in Python 2 `line < None` is false. Every line is then parsed, starting at 0.
  `StatsRecords.StartIndex` models this.
- **Parsing before the table.** The loop parses a subject's two files and then folds the
  records into the table. Parsing has no side effects, so the model parses every subject first
  (`AnatomicalRoi.SubjectFromFiles`) and folds the outcomes in subject order. The first subject
  whose files fail to parse raises the same error as in the loop.
- **Empty statistics file.** `findStartOfData` is never called and no records are produced.
- **`output[ROI[0]]`.** Python list indexing is modelled, so a negative segment id from -15000
  to -1 addresses row `15000 + id`. Any other id outside the table raises IndexError.
- **Evaluation order.** It decides which error is raised. For example, `info[1]` is compared
  before `float(info[0])` is evaluated.
- **Rows are not always padded to the same length.** One might read the zero padding as making
  every row end with exactly one value per subject. The code pads only rows shorter than
  `subjectNumber + 2`, and adds at most one `0.0`. A subject that reports two different records
  for the same segment adds two values to that row. When a later subject has no record for the
  segment, the row gets no `0.0`, so that later subject's column holds the earlier subject's
  second value. Every later column of the row is shifted the same way, and nothing reports it.
  The model follows the code:
  - every row always has at least one value per subject (`AnatomicalRoi.AccumulateShape`);
  - exactly one value per subject, each the subject's value or `0.0`, is proved when every
    subject has at most one record per segment (`AnatomicalRoi.AccumulateColumns`);
  - the shift itself is `AnatomicalRoi.RepeatedSegmentShiftsColumn`: if the first of two
    subjects gives a segment the values v and w and the second gives it none, the row holds
    `[v, w]`, so the second subject's column reads w.

## Model

| member | source | states |
|---|---|---|
| AnatomicalRoi.GetVersion | aROIpipeline.py:95-99 | version 0 selects the first entry and any other version the second; a list too short for the chosen entry raises IndexError |
| StatsRecords.ScanFrom | aROIpipeline.py:167-170 | scanning on from line i (all earlier lines comments): a result j is the first line below 100 that does not start with '#'; no result exactly when the first 100 lines all start with '#'; otherwise IndexError because the file or a line ran out first |
| StatsRecords.FindStartOfData | aROIpipeline.py:167-170 | the least index below 100 whose line does not begin with '#', every earlier line beginning with '#'; nothing exactly when 100 or more lines all begin with '#'; IndexError when the file ends or an empty line comes before that |
| StatsRecords.StartIndex | aROIpipeline.py:175-185 | where the `line < findStartOfData(...)` tests stop skipping: the data start, or line 0 when the scan returned `None`, because `line < None` is false in Python 2; `ParseStatsAllComments` states the consequence |
| StatsRecords.ParseStatsAllComments | aROIpipeline.py:174-186 | a file whose first 100 lines all start with `#` is parsed from its first line, comment lines included |
| StatsRecords.ParseFields | aROIpipeline.py:179 | `[int(temp[1]), temp[4], float(temp[5])]`: a record exactly when there are six fields, field 1 is an integer and field 5 a decimal; fewer than two fields raise IndexError |
| StatsRecords.ParseLine | aROIpipeline.py:178-179 | a line gives a record exactly when it has at least six fields, field 1 is an integer and field 5 a decimal; the record is (int(field 1), field 4, float(field 5)); a line with fewer than two fields raises IndexError |
| StatsRecords.ParseLineAsWritten | aROIpipeline.py:178 | splitting `line.strip('\n')`, as the code does, gives the same record or error as splitting the line itself |
| StatsRecords.ParseLines | aROIpipeline.py:174-179 | succeeds exactly when every line parses, giving one record per line in line order |
| StatsRecords.ParseStats | aROIpipeline.py:174-186 | an empty file gives no records; otherwise the file parses exactly when the start scan succeeds and every line from the data start parses |
| StatsRecords.ParseStatsLines | aROIpipeline.py:174-186 | the data start lies inside the file and every line before it starts with '#'; every line at or after it yields exactly one record, in order, and lines before it yield none |
| StatsRecords.RecordLeTotalOrder | aROIpipeline.py:188 | Python's ordering of `[segId, name, value]` lists (id, then name, then value) is a total order |
| StatsRecords.RecordLe | aROIpipeline.py:188 | how `sort()` compares two `[segId, name, value]` lists: id first, then name, then value; it is a total order by `RecordLeTotalOrder` |
| StatsRecords.SortUnique | aROIpipeline.py:188-196 | sorting and dropping adjacent repeats gives a strictly ascending list holding exactly the elements of the input |
| StatsRecords.SubjectRecords | aROIpipeline.py:172-196 | a subject's records exist exactly when both statistics files parse |
| StatsRecords.SubjectRecordsSorted | aROIpipeline.py:172-196 | a subject's records are strictly ascending and hold exactly the records of the two files, the original and the 2009 one, with no entry repeated |
| AnatomicalRoi.SubjectFromFiles | aROIpipeline.py:159-196 | a subject's records are present exactly when both of its statistics files parse, and are then strictly ascending and hold exactly the records of the two files |
| Sorting.Sort | aROIpipeline.py:188 | the result is sorted and a permutation of the input |
| Sorting.SortedUnique | aROIpipeline.py:188 | two sorted permutations of the same elements under a total order are equal, so every correct sort agrees with Python's |
| Sorting.SortIsTheSortedPermutation | example_fMRI_1_first_level.py:250-251 | any sorted permutation of a list is the reference sort of that list |
| Sorting.Dedup | aROIpipeline.py:190-196 | no two neighbours of the result are equal, the result is no longer than the input and ends with the input's last entry; which entries go is fixed by `DedupKeepsNonRepeats` and `DedupDropsRepeat` |
| Sorting.DedupKeepsNonRepeats | aROIpipeline.py:190-196 | a list in which no entry equals its predecessor comes through unchanged |
| Sorting.DedupDropsRepeat | aROIpipeline.py:190-196 | an entry equal to its predecessor is dropped wherever it stands: collapsing any one adjacent repeat leaves the result unchanged; with `DedupKeepsNonRepeats` this fixes the result on every input, counts included |
| Sorting.DedupMembers | aROIpipeline.py:190-196 | a value occurs in the result exactly when it occurs in the input |
| Sorting.DedupOfSorted | aROIpipeline.py:190-196 | dropping adjacent repeats from a sorted list gives a strictly ascending list |
| AnatomicalRoi.InitialTable | aROIpipeline.py:146-148 | 15000 rows, row i being `[i, 'LABEL']` with no values |
| AnatomicalRoi.RowIndex | aROIpipeline.py:199-201 | `output[id]` addresses a row exactly when -15000 <= id < 15000, and the row is id modulo 15000 |
| AnatomicalRoi.ApplyRecord | aROIpipeline.py:198-201 | one record succeeds exactly when its id addresses a row, and the table keeps its 15000 rows |
| AnatomicalRoi.ApplyRecordRow | aROIpipeline.py:199-201 | the addressed row takes the record's name only while it is still 'LABEL' and gets the value appended; every other row is unchanged |
| AnatomicalRoi.ApplyRecords | aROIpipeline.py:198-201 | a subject's records apply exactly when every id addresses a row; the table keeps its size |
| AnatomicalRoi.ApplyRecordsRows | aROIpipeline.py:198-201 | after all records, row i keeps its id, carries the first name any record gave it (if it had none) and has the values of the records addressing it appended in order |
| AnatomicalRoi.NameKept | aROIpipeline.py:199-200 | a row that has a name never has it overwritten |
| AnatomicalRoi.NameAfterFirst | aROIpipeline.py:199-200 | starting from 'LABEL', the first name assigned wins |
| AnatomicalRoi.NameAfterNone | aROIpipeline.py:199-200 | a row only ever offered 'LABEL' keeps 'LABEL' |
| AnatomicalRoi.NameAfterSet | aROIpipeline.py:199-200 | a row ends up named exactly when it started named or some record named it |
| AnatomicalRoi.PadRows | aROIpipeline.py:203-205 | a row shorter than the bound gets exactly one `0.0` at its end and every other row is unchanged; ids and names are kept |
| AnatomicalRoi.Accumulate | aROIpipeline.py:152-207 | the subject loop: a finished table has 15000 rows; when it finishes is stated by `AccumulateOk`, its ids, widths, names and values by `AccumulateShape`, `AccumulateNames` and `AccumulateColumns` |
| AnatomicalRoi.AccumulateOk | aROIpipeline.py:159-201 | the subject loop finishes exactly when every subject's files parse and every record's segment id indexes `output`; otherwise it raises |
| AnatomicalRoi.RepeatedSegmentShiftsColumn | aROIpipeline.py:198-205 | a subject giving one segment two values v and w, followed by a subject giving it none, leaves the row at `[v, w]`: the second subject's column holds w, not `0.0` |
| AnatomicalRoi.AccumulateShape | aROIpipeline.py:146-207 | after k subjects row i has id i and at least k values (length at least k + 2), and every subject's records are present |
| AnatomicalRoi.AccumulateNames | aROIpipeline.py:199-200 | a row's name is the first name any subject's records gave that segment, taken in subject order |
| AnatomicalRoi.AccumulateColumns | aROIpipeline.py:198-207 | when each subject has at most one record per segment, row i holds exactly one value per subject: that subject's value for the segment, or `0.0` if it has none |
| AnatomicalRoi.Labelled | aROIpipeline.py:213 | keeps exactly the rows whose name is not 'LABEL' and keeps ascending-id order |
| AnatomicalRoi.Summarize | aROIpipeline.py:210-213 | the summary exists exactly when the table does, so exactly under the conditions of `AccumulateOk`; its header is `['SegId', 'StructName']` followed by the subject names in order |
| AnatomicalRoi.SummaryRows | aROIpipeline.py:147-148 | every kept row has an id in 0..14999, a real name and at least one value per subject; ids strictly ascend; a table row is kept exactly when it was named |
| AnatomicalRoi.SummaryRowFor | aROIpipeline.py:198-213 | segment i has a row in the summary exactly when some subject's record named it, and that row is the table row with the first such name |
| AnatomicalRoi.MissingSubjectGetsZero | aROIpipeline.py:203-205 | with two subjects, a segment only the first reports, with value v, appears as `[i, name, v, 0.0]` |
| SliceOrder.Range | example_fMRI_1_first_level.py:49 | Python 2 `range` with a positive step: empty when start >= stop; elements and length by `RangeElements` and `RangeLength` |
| SliceOrder.InterleavedOrder | example_fMRI_1_first_level.py:49 | one entry per slice (n entries, none for n <= 0); the order itself by `InterleavedShape`, `InterleavedMembers` and `InterleavedDistinct` |
| SliceOrder.RangeElements | example_fMRI_1_first_level.py:49 | element k of `range(start, stop, step)` is start + k * step |
| SliceOrder.RangeLength | example_fMRI_1_first_level.py:49 | a non-empty range's last element is below stop and one more step reaches stop |
| SliceOrder.OddEvenCounts | example_fMRI_1_first_level.py:49 | the two ranges hold (n + 1) / 2 odd and n / 2 even slice numbers |
| SliceOrder.InterleavedShape | example_fMRI_1_first_level.py:49 | the order has n entries: 1, 3, 5, ... first, then 2, 4, 6, ... |
| SliceOrder.InterleavedMembers | example_fMRI_1_first_level.py:49 | x occurs exactly when 1 <= x <= n |
| SliceOrder.InterleavedDistinct | example_fMRI_1_first_level.py:49 | no slice number occurs twice, so the order is a permutation of 1..n |
| SliceOrder.EvenHalves | example_fMRI_1_first_level.py:49 | for n = 2h the first h entries are 1, 3, ..., 2h - 1 and the last h are 2, 4, ..., 2h |
| SliceOrder.FortySlices | tutorial_3_first_steps.py:24-41 | with 40 slices: 40 entries, 1, 3, ..., 39 then 2, 4, ..., 40, each of 1..40 exactly once, and the reference slice 2 is among them |
| Onsets.ParseOnsetLine | example_fMRI_1_first_level.py:228-232 | fewer than two fields raises IndexError; second field `0.00` gives no onset; otherwise the first field must be a decimal and becomes the onset, tagged `cond0<cond>` and `run0<run>` |
| Onsets.ParseOnsetFields | example_fMRI_1_first_level.py:229-232 | `info[1]` is read first: fewer than two fields raise IndexError; a second field `0.00` gives no onset; otherwise the onset exists exactly when `float(info[0])` succeeds and is tagged `cond0`+cond, `run0`+run with that time |
| Onsets.ParseOnsetLineAsWritten | example_fMRI_1_first_level.py:228 | splitting `line.strip()`, as the code does, gives the same outcome as splitting the line itself |
| Onsets.Kept | example_fMRI_1_first_level.py:228-229 | the lines that carry an onset, never more than the file has; which lines by `KeptMembers`, their onsets by `FileOnsetsKept` |
| Onsets.KeptMembers | example_fMRI_1_first_level.py:228-229 | a line is kept exactly when it is a line of the file with at least two fields whose second field is not `0.00` |
| Onsets.FileOnsets | example_fMRI_1_first_level.py:227-232 | a file's onsets exist exactly when every line parses |
| Onsets.FileOnsetsKept | example_fMRI_1_first_level.py:227-232 | one onset per kept line, in line order, each the parse of that line |
| Onsets.FileOnsetTags | example_fMRI_1_first_level.py:230-232 | every onset read from the file of run `r` and condition `c` is tagged `cond0<c>` and `run0<r>` |
| Onsets.PairsAreLoopOrder | example_fMRI_1_first_level.py:223-224 | the eight (run, condition) pairs are visited run-major, as the nested loops do |
| Onsets.CollectFrom | example_fMRI_1_first_level.py:223-232 | collecting succeeds exactly when every visited file parses |
| Onsets.CollectFromAppend | example_fMRI_1_first_level.py:223-232 | visiting one more file appends exactly that file's onsets to `onset_info` |
| Onsets.CollectFromIsLoop | example_fMRI_1_first_level.py:223-232 | `onset_info` equals what the loops build: each file's onsets appended in visiting order, so nothing is merged, lost or duplicated |
| Onsets.CollectFromMembers | example_fMRI_1_first_level.py:223-232 | an onset is collected exactly when it comes from one of the visited files |
| Onsets.CollectOnsets | example_fMRI_1_first_level.py:223-232 | the eight files are collected exactly when each parses, and every collected onset has a bucket |
| Onsets.BucketOf | example_fMRI_1_first_level.py:238-248 | an onset has a bucket exactly when its run is `run001` or `run002` and its condition one of `cond001`..`cond004`; the run picks the first or second pair of buckets, the condition the congruent (01, 02) or incongruent (03, 04) one |
| Onsets.PairTagsRouted | example_fMRI_1_first_level.py:238-248 | conditions 01 and 02 go to the congruent and 03 and 04 to the incongruent bucket of their run |
| Onsets.Distribute | example_fMRI_1_first_level.py:238-248 | the `for info in onset_info` loop fills four buckets; their contents by `DistributeIsBucketTimes` and `BucketsPartition` |
| Onsets.DistributeIsBucketTimes | example_fMRI_1_first_level.py:238-248 | bucket b holds the times of exactly the onsets routed to b, in input order |
| Onsets.BucketsPartition | example_fMRI_1_first_level.py:238-248 | together the four buckets hold every routed onset time exactly once |
| Onsets.SortTimes | example_fMRI_1_first_level.py:250-251 | each bucket is sorted ascending and keeps its times |
| Onsets.Package | example_fMRI_1_first_level.py:253-268 | two per-run records; record r has conditions `['congruent', 'incongruent']`, durations `[[0], [0]]` and onsets `[list 2r, list 2r + 1]` |
| Onsets.RunInfos | example_fMRI_1_first_level.py:233-268 | the two records, with onset list c of run r a sorted permutation of bucket 2r + c |
| Onsets.SubjectInfo | example_fMRI_1_first_level.py:219-268 | the result exists exactly when all eight files parse; it then holds two run records, each naming the two conditions with zero durations, and onset list c of run r is a sorted permutation of bucket 2r + c of the collected onsets |
| Onsets.SubjectInfoKeepsEveryOnset | example_fMRI_1_first_level.py:228-268 | the four onset lists together are a permutation of all collected onset times: none lost, none duplicated; with `CollectFromIsLoop` and `FileOnsetsKept` this reaches back to one onset per kept file line |
| Onsets.SubjectInfoSortedBuckets | example_fMRI_1_first_level.py:250-251 | each onset list equals any sorted permutation of its bucket, which is what `sorted()` returns |
| FunctionalRoi.Corner | fROIpipeline.py:42-44 | on each axis corner + radius = centre |
| FunctionalRoi.RoiValues | fROIpipeline.py:69 | six numbers: each axis's start, then extent 2 * radius, with start + extent / 2 = centre |
| FunctionalRoi.CubeOpString | fROIpipeline.py:70 | the cube mask option string; its words and numbers by `CubeOpStringFields` |
| FunctionalRoi.CubeOpStringFields | fROIpipeline.py:70 | the cube option string splits into 13 words: the fixed `-mul 0 -add 1 -roi`, the six ROI numbers in order (each read back by `int`), then `0 1` |
| FunctionalRoi.SphereOpString | fROIpipeline.py:77 | the sphere mask option string; its words and kernel size by `SphereOpStringFields` |
| FunctionalRoi.SphereOpStringFields | fROIpipeline.py:77 | the sphere option string splits back into exactly `-kernel`, `sphere`, the radius, `-fmean`, `-thr`, `0.5`, `-bin`, and the third word reads back as the radius |
| FunctionalRoi.Path2Tmap | fROIpipeline.py:84-85 | `path2tmap`: five characters longer than the path; prefix and read-back by `Path2TmapFields` |
| FunctionalRoi.Path2TmapFields | fROIpipeline.py:84-85 | the option is `-mas ` followed by the path unchanged; a path without whitespace reads back as the option's one argument |
| FunctionalRoi.ContrastPath | fROIpipeline.py:73 | the `in_file` path of a subject and contrast; the four-digit contrast field by `ContrastNumberField`, the script's instance by `CubeMaskInput` |
| FunctionalRoi.ContrastNumberField | fROIpipeline.py:73 | a contrast number 0..9999 fills exactly four digits in the file name and reads back as itself |
| FunctionalRoi.CubeMaskInput | fROIpipeline.py:72-73 | the cube mask input is `~SOMEPATH/experiment/normcons/subject1/con_0001_ants.nii` |
| FunctionalRoi.ScriptRoi | fROIpipeline.py:36-44 | the script's corner is (105, 123, 137) and its ROI numbers are (105, 10, 123, 10, 137, 10) |
| FunctionalRoi.LastLineField | fROIpipeline.py:145 | `data[-1].split()[5]`: defined exactly when the file has a last line with at least six fields, and then that sixth field (a single word); otherwise IndexError |
| FunctionalRoi.SubjectRows | fROIpipeline.py:136-145 | the subject loop: one row per subject, or IndexError; the rows themselves by `SubjectRowsSpec` |
| FunctionalRoi.SubjectRowsSpec | fROIpipeline.py:136-145 | the subject loop finishes exactly when every subject's file has a usable last line; row j is `[subject j, its sixth field]` |
| FunctionalRoi.ContrastBlock | fROIpipeline.py:132-147 | a contrast's block exists exactly when its subject rows do, and has S + 2 rows |
| FunctionalRoi.Labels | fROIpipeline.py:133 | `str(contrast)` for every contrast, one label per contrast; `LabelsReadBack` shows each reads back as its contrast |
| FunctionalRoi.LabelsReadBack | fROIpipeline.py:133 | each label `str(contrast)` is one word that `int` reads back as the contrast |
| FunctionalRoi.ContrastBlocks | fROIpipeline.py:132-147 | the contrast loop, block after block; success by `ContrastBlocksOk`, where each block lands by `SummaryBlockAt` |
| FunctionalRoi.ContrastBlocksOk | fROIpipeline.py:132-147 | the contrast loop finishes exactly when every contrast's block can be built |
| FunctionalRoi.HeaderRow | fROIpipeline.py:130 | `['coordinations:', centerOfROI, 'radius:', radius]`; `Summary` puts it first |
| FunctionalRoi.Summary | fROIpipeline.py:129-134 | the table exists exactly when the contrast loop finishes, and starts with `['coordinations:', centre, 'radius:', radius]` |
| FunctionalRoi.SummaryLayout | fROIpipeline.py:129-147 | the table exists exactly when every file has a usable last line; it has 1 + C * (S + 2) rows; from row 1 + k * (S + 2) contrast k has `['contrast:', str(c)]`, one `[subject, sixth field]` row per subject in list order, and an empty row |
| FunctionalRoi.SummaryBlockAt | fROIpipeline.py:129-147 | contrast k's rows start at 1 + k * (S + 2) and are laid out as above |
| FunctionalRoi.SummaryLength | fROIpipeline.py:129-147 | the table has 1 + C * (S + 2) rows |
| FunctionalRoi.ScriptSummarySize | fROIpipeline.py:25-28 | with the script's three subjects and five contrasts the table has 26 rows |
| Text.Strip | aROIpipeline.py:178 | `strip(chars)`: never longer than the input, and neither end of the result is one of the chars; `StripPiece` says which piece of the input it is; `SplitIgnoresStrip` shows it never changes `split()` |
| Text.StripPiece | aROIpipeline.py:178 | the result of `strip(chars)` is the contiguous piece of the input that starts where the left strip stops, and every character cut off either end is one of the chars |
| Text.Join | fROIpipeline.py:70 | words separated by a separator; `SplitJoin` reads single-space-joined words back |
| Text.Split | aROIpipeline.py:178 | every field `split()` returns is non-empty and free of whitespace |
| Text.SplitKeepsNonSpace | aROIpipeline.py:178 | the fields, end to end, are exactly the non-whitespace characters of the line |
| Text.SplitIgnoresStrip | example_fMRI_1_first_level.py:228 | stripping whitespace characters before `split()` changes nothing, so `strip().split()` and `strip('\n').split()` are `split()` |
| Text.SplitJoin | fROIpipeline.py:70 | words joined by single spaces split back into the same words |
| Text.StrLe | aROIpipeline.py:188 | Python 2's `<=` on strings, as `sort()` uses it for the names: a prefix comes first, otherwise the first differing character decides; its order laws are `StrLeRefl`, `StrLeAntisym`, `StrLeTrans` and `StrLeTotal` |
| Text.StrLeRefl | aROIpipeline.py:188 | every string is `<=` itself |
| Text.StrLeAntisym | aROIpipeline.py:188 | two strings each `<=` the other are equal |
| Text.StrLeTrans | aROIpipeline.py:188 | `<=` on strings is transitive |
| Text.StrLeTotal | aROIpipeline.py:188 | any two strings are comparable |
| Numbers.ParseInt | aROIpipeline.py:179 | `int()` on a field: an optional sign and one or more digits, otherwise ValueError; its inverse is stated by `ParseFormatInt` |
| Numbers.FormatInt | fROIpipeline.py:70 | `'%d' % n`; `ParseFormatInt` reads it back |
| Numbers.FormatPadded | fROIpipeline.py:73 | `'%0Wd' % n`; length and read-back by `FormatPaddedRoundTrip` |
| Numbers.ParseDecimal | aROIpipeline.py:179 | `float()` on a plain decimal field; accepted syntax by `ParseDecimalSyntax`, integer text by `ParseDecimalOfInt` |
| Numbers.ParseFormatInt | fROIpipeline.py:70 | `int('%d' % n) == n` |
| Numbers.FormatPaddedRoundTrip | fROIpipeline.py:73 | `'%0Wd' % n` is W characters long, or the plain length if that is longer, and `int` reads it back as n |
| Numbers.ParseDecimalSyntax | aROIpipeline.py:179 | the decimal parser succeeds exactly on an optional sign followed by digits with at most one point and at least one digit |
| Numbers.ParseDecimalOfInt | aROIpipeline.py:179 | `float` of integer text is that integer |

## Left out

- File reading, `readlines`, CSV writing, `os.system` calls and every nipype node, connection
  and run. The contents of a statistics or onset file are a parameter of the model: a list of
  lines.
- The outer `for contrast in contrasts` loop of aROIpipeline.py (line 144). Each contrast
  rebuilds the table from scratch and shares nothing with the others, so one contrast is
  modelled.
- The file paths built from the experiment directory and the contrast and subject names
  (aROIpipeline.py:155-156, fROIpipeline.py:138). The model takes the file contents for a
  contrast and subject directly.
- Floating point. Values and onset times are exact rationals (`real`). `float()` is modelled for
  plain decimal text: no exponent, `inf` or `nan`, and no rounding. NaN, and the ordering
  quirks it would bring to `sort`, cannot occur.
- `int()` accepting surrounding whitespace. The fields passed to it come from `split()` and
  never hold whitespace.
- Non-ASCII whitespace. Python 2 byte strings treat only the six ASCII whitespace bytes as
  whitespace, and so does the model.
- The `Bunch` fields that are always `None` (`amplitudes`, `tmod`, `pmod`, `regressor_names`,
  `regressors`). They carry no information.
- `time_acquisition = TR - TR/number_of_slices`. This is floating-point arithmetic passed to an
  external tool.
- The DataGrabber template `norm%s/%s/%s_%04d_ants.nii` of fROIpipeline.py (line 62). It is
  filled in by nipype, not by the script.
- Writing the summary cells: the voxel `centerOfROI` and the radius are kept as values, not
  rendered as CSV text.
- AnatomicalRoi.AccumulateColumns: exactly one value per subject is proved only when every
  subject has at most one record per segment, because the code pads only rows shorter than
  `subjectNumber + 2`.
- FunctionalRoi.ContrastNumberField: the four-digit property is stated for contrasts 0..9999.
  `Numbers.FormatPaddedRoundTrip` covers every integer.
