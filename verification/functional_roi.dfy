/** The pure parts of fROIpipeline.py: the cubic region around the point of interest, the
    option strings handed to the image-maths steps, the contrast file name, and the layout of
    the summary table written at the end. */
module FunctionalRoi {
  import opened Results
  import opened Text
  import opened Numbers

  /** A voxel coordinate triple. */
  datatype Voxel = Voxel(x: int, y: int, z: int)

  /** `centerOfROI`, the point of interest. */
  const CenterOfRoi: Voxel := Voxel(110, 128, 142)

  /** `radius` of the sphere around the point of interest. */
  const Radius: int := 5

  /** The subjects and contrasts the summary loops over. */
  const ScriptSubjects: seq<string> := ["subject1", "subject2", "subject3"]
  const ScriptContrasts: seq<int> := [1, 2, 3, 4, 5]

  /** `corner`: the lowest corner of the cube of side `2 * radius` centred on `center`. */
  function Corner(center: Voxel, radius: int): (c: Voxel)
    ensures c.x + radius == center.x && c.y + radius == center.y && c.z + radius == center.z
  {
    Voxel(center.x - radius, center.y - radius, center.z - radius)
  }

  /** `roiValues`: start and extent along each axis, `(x, 2r, y, 2r, z, 2r)`. */
  function RoiValues(center: Voxel, radius: int): (v: seq<int>)
    ensures |v| == 6
    ensures v[1] == v[3] == v[5] == 2 * radius
    ensures v[0] + v[1] / 2 == center.x && v[2] + v[3] / 2 == center.y && v[4] + v[5] / 2 == center.z
  {
    var c := Corner(center, radius);
    [c.x, 2 * radius, c.y, 2 * radius, c.z, 2 * radius]
  }

  /** The fixed words of the cube mask template in front of the six numbers. */
  const CubePrefix: seq<string> := ["-mul", "0", "-add", "1", "-roi"]

  /** The fixed words of the cube mask template after the six numbers (the time range `0 1`). */
  const CubeSuffix: seq<string> := ["0", "1"]

  /** `'-mul 0 -add 1 -roi %d %d %d %d %d %d 0 1' % roiValues`: the template's words separated
      by single spaces, with each `%d` replaced by its number. */
  function CubeOpString(values: seq<int>): string
    requires |values| == 6
  {
    Join(CubePrefix + seq(6, k requires 0 <= k < 6 => FormatInt(values[k])) + CubeSuffix, " ")
  }

  /** The cube option string reads back as the template's 13 words, and the six numbers in the
      `-roi` slots are the ROI values in order. */
  lemma {:induction false} CubeOpStringFields(values: seq<int>)
    requires |values| == 6
    ensures |Split(CubeOpString(values))| == 13
    ensures Split(CubeOpString(values))[..5] == CubePrefix
    ensures Split(CubeOpString(values))[11..] == CubeSuffix
    ensures forall k :: 0 <= k < 6 ==> ParseInt(Split(CubeOpString(values))[5 + k]) == Ok(values[k])
  {
    var nums := seq(6, k requires 0 <= k < 6 => FormatInt(values[k]));
    var words := CubePrefix + nums + CubeSuffix;
    forall k | 0 <= k < |words| ensures IsWord(words[k]) {
      if 5 <= k < 11 {
        assert words[k] == FormatInt(values[k - 5]);
        FormatIntIsWord(values[k - 5]);
      }
    }
    SplitJoin(words);
    forall k | 0 <= k < 6 ensures ParseInt(words[5 + k]) == Ok(values[k]) {
      assert words[5 + k] == FormatInt(values[k]);
      ParseFormatInt(values[k]);
    }
  }

  /** `'-kernel sphere %d -fmean -thr 0.5 -bin' % radius`. */
  function SphereOpString(radius: int): string {
    Join(["-kernel", "sphere", FormatInt(radius), "-fmean", "-thr", "0.5", "-bin"], " ")
  }

  /** The sphere option string splits back into its seven words: the six fixed ones around the
      kernel size, which reads back as the radius. */
  lemma {:induction false} SphereOpStringFields(radius: int)
    ensures Split(SphereOpString(radius)) == ["-kernel", "sphere", FormatInt(radius), "-fmean", "-thr", "0.5", "-bin"]
    ensures ParseInt(Split(SphereOpString(radius))[2]) == Ok(radius)
  {
    var words := ["-kernel", "sphere", FormatInt(radius), "-fmean", "-thr", "0.5", "-bin"];
    FormatIntIsWord(radius);
    forall k | 0 <= k < |words| ensures IsWord(words[k]) {
    }
    SplitJoin(words);
    ParseFormatInt(radius);
  }

  /** `path2tmap`: the `-mas` option that masks with the given t-map. */
  function Path2Tmap(tmapPath: string): (r: string)
    ensures |r| == |tmapPath| + 5
  {
    "-mas " + tmapPath
  }

  /** The option is `-mas` followed by the path unchanged; a path without whitespace is read back
      as the option's single argument. */
  lemma {:induction false} Path2TmapFields(tmapPath: string)
    ensures Path2Tmap(tmapPath)[..5] == "-mas " && Path2Tmap(tmapPath)[5..] == tmapPath
    ensures IsWord(tmapPath) ==> Split(Path2Tmap(tmapPath)) == ["-mas", tmapPath]
  {
    if IsWord(tmapPath) {
      assert Path2Tmap(tmapPath) == "-mas" + [' '] + tmapPath;
      SplitWordThen("-mas", ' ', tmapPath);
      SplitWord(tmapPath);
    }
  }

  const ContrastDir: string := "~SOMEPATH/experiment/normcons/"

  /** `'~SOMEPATH/experiment/normcons/%s/con_%04d_ants.nii' % (subject, contrast)`. */
  function ContrastPath(subject: string, contrast: int): string {
    ContrastDir + subject + "/con_" + FormatPadded(contrast, 4) + "_ants.nii"
  }

  /** A contrast number from 0 to 9999 takes exactly four characters in the file name, and the
      number is read back from them. */
  lemma {:induction false} ContrastNumberField(contrast: int)
    requires 0 <= contrast <= 9999
    ensures |FormatPadded(contrast, 4)| == 4
    ensures ParseInt(FormatPadded(contrast, 4)) == Ok(contrast)
    ensures AllDigits(FormatPadded(contrast, 4))
  {
    FormatPaddedRoundTrip(contrast, 4);
    assert Pow10(4) == 10000;
    DigitsLength(contrast, 4);
    DigitsValueLeadingZeros(4 - |Digits(contrast)|, Digits(contrast));
  }

  /** The cube mask's input file: the first subject's first contrast, `con_0001`. */
  lemma CubeMaskInput()
    ensures ContrastPath(ScriptSubjects[0], ScriptContrasts[0]) == "~SOMEPATH/experiment/normcons/subject1/con_0001_ants.nii"
  {
    assert FormatPadded(1, 4) == "0001" by {
      assert Digits(1) == "1";
      assert Zeros(3) == "000";
    }
    PathOf("subject1", 1, "0001");
  }

  /** The contrast path with the padded number already worked out. */
  lemma PathOf(subject: string, contrast: int, padded: string)
    requires FormatPadded(contrast, 4) == padded
    ensures ContrastPath(subject, contrast) == ContrastDir + subject + "/con_" + padded + "_ants.nii"
  {
  }

  /** With the script's centre and radius the cube starts at `(105, 123, 137)` and is 10 voxels
      wide along each axis. */
  lemma ScriptRoi()
    ensures Corner(CenterOfRoi, Radius) == Voxel(105, 123, 137)
    ensures RoiValues(CenterOfRoi, Radius) == [105, 10, 123, 10, 137, 10]
  {
  }

  // ---------------------------------------------------------------------------
  // The summary table

  /** A cell of the summary table. */
  datatype Cell = Str(text: string) | Number(n: int) | Point(v: Voxel)

  type SummaryRow = seq<Cell>

  /** The lines of `summary.stats` for a contrast (as its `str`) and a subject; reading the file
      is not modelled. */
  type StatFiles = (string, string) -> seq<string>

  /** `data[-1].split()[5]`: the sixth field of the last line; an empty file or a last line with
      fewer than six fields raises IndexError. */
  function LastLineField(lines: seq<string>): (r: Result<string>)
    ensures r.Ok? <==> |lines| > 0 && |Split(lines[|lines| - 1])| >= 6
    ensures r.Ok? ==> r.value == Split(lines[|lines| - 1])[5] && IsWord(r.value)
    ensures r.Err? ==> r.error == IndexError
  {
    if |lines| == 0 then Err(IndexError)
    else
      var fields := Split(lines[|lines| - 1]);
      if |fields| < 6 then Err(IndexError) else Ok(fields[5])
  }

  /** The row a subject gets: its name and the value read from its file. */
  function SubjectRow(subject: string, value: string): SummaryRow {
    [Str(subject), Str(value)]
  }

  /** The inner `for subject in subjects` loop for one contrast, given as its `str`. */
  function SubjectRows(contrast: string, subjects: seq<string>, files: StatFiles): (r: Result<seq<SummaryRow>>)
    ensures r.Ok? ==> |r.value| == |subjects|
    ensures r.Err? ==> r.error == IndexError
  {
    if |subjects| == 0 then Ok([])
    else
      var value :- LastLineField(files(contrast, subjects[0]));
      var rest :- SubjectRows(contrast, subjects[1..], files);
      Ok([SubjectRow(subjects[0], value)] + rest)
  }

  /** The inner loop finishes exactly when every subject's file has a last line with at least six
      fields, and then gives one row per subject, in list order, holding that sixth field. */
  lemma {:induction false} SubjectRowsSpec(contrast: string, subjects: seq<string>, files: StatFiles)
    ensures SubjectRows(contrast, subjects, files).Ok? <==>
              forall j :: 0 <= j < |subjects| ==> LastLineField(files(contrast, subjects[j])).Ok?
    ensures SubjectRows(contrast, subjects, files).Ok? ==> forall j :: 0 <= j < |subjects| ==>
              SubjectRows(contrast, subjects, files).value[j] ==
              SubjectRow(subjects[j], LastLineField(files(contrast, subjects[j])).value)
  {
    if |subjects| > 0 {
      var tail := subjects[1..];
      SubjectRowsSpec(contrast, tail, files);
      assert forall j :: 1 <= j < |subjects| ==> subjects[j] == tail[j - 1];
    }
  }

  /** The label row of a contrast, `['contrast:', contrast]` once `contrast` is a string. */
  function ContrastRow(contrast: string): SummaryRow {
    [Str("contrast:"), Str(contrast)]
  }

  /** The number of rows each contrast adds: its label row, one row per subject, an empty row. */
  function Width(subjects: seq<string>): nat {
    |subjects| + 2
  }

  /** The rows one contrast adds: its label row, one row per subject, and an empty row. */
  function ContrastBlock(contrast: string, subjects: seq<string>, files: StatFiles): (r: Result<seq<SummaryRow>>)
    ensures r.Ok? <==> SubjectRows(contrast, subjects, files).Ok?
    ensures r.Ok? ==> |r.value| == Width(subjects)
  {
    var rows :- SubjectRows(contrast, subjects, files);
    Ok([ContrastRow(contrast)] + rows + [[]])
  }

  /** `contrast = str(contrast)` at the top of the outer loop, for every contrast. */
  function Labels(contrasts: seq<int>): (labels: seq<string>)
    ensures |labels| == |contrasts|
  {
    if |contrasts| == 0 then [] else [FormatInt(contrasts[0])] + Labels(contrasts[1..])
  }

  lemma {:induction false} LabelsAt(contrasts: seq<int>, k: nat)
    requires k < |contrasts|
    ensures Labels(contrasts)[k] == FormatInt(contrasts[k])
  {
    if k > 0 {
      LabelsAt(contrasts[1..], k - 1);
    }
  }

  /** Each label is a single word that reads back as its contrast number. */
  lemma {:induction false} LabelsReadBack(contrasts: seq<int>, k: nat)
    requires k < |contrasts|
    ensures IsWord(Labels(contrasts)[k])
    ensures ParseInt(Labels(contrasts)[k]) == Ok(contrasts[k])
  {
    LabelsAt(contrasts, k);
    FormatIntIsWord(contrasts[k]);
    ParseFormatInt(contrasts[k]);
  }

  /** The outer `for contrast in contrasts` loop: the blocks one after another. */
  function ContrastBlocks(labels: seq<string>, subjects: seq<string>, files: StatFiles): Result<seq<SummaryRow>>
    decreases |labels|
  {
    if |labels| == 0 then Ok([])
    else
      var block :- ContrastBlock(labels[0], subjects, files);
      var rest :- ContrastBlocks(labels[1..], subjects, files);
      Ok(block + rest)
  }

  /** The outer loop finishes exactly when every contrast's block can be built. */
  lemma {:induction false} ContrastBlocksOk(labels: seq<string>, subjects: seq<string>, files: StatFiles)
    ensures ContrastBlocks(labels, subjects, files).Ok? <==>
              forall k :: 0 <= k < |labels| ==> ContrastBlock(labels[k], subjects, files).Ok?
  {
    if |labels| > 0 {
      var tail := labels[1..];
      ContrastBlocksOk(tail, subjects, files);
      assert forall k :: 1 <= k < |labels| ==> labels[k] == tail[k - 1];
    }
  }

  /** One step of the outer loop: the first contrast's block, then the rest. */
  lemma {:induction false} ContrastBlocksCons(labels: seq<string>, subjects: seq<string>, files: StatFiles)
    requires ContrastBlocks(labels, subjects, files).Ok? && |labels| > 0
    ensures ContrastBlock(labels[0], subjects, files).Ok?
    ensures ContrastBlocks(labels[1..], subjects, files).Ok?
    ensures ContrastBlocks(labels, subjects, files).value ==
            ContrastBlock(labels[0], subjects, files).value + ContrastBlocks(labels[1..], subjects, files).value
  {
  }

  /** Where block `k` starts when every block is `w` long: `k * w`, written as repeated addition. */
  function Offset(k: nat, w: nat): nat {
    if k == 0 then 0 else Offset(k - 1, w) + w
  }

  lemma {:induction false} OffsetIsProduct(k: nat, w: nat)
    ensures Offset(k, w) == k * w
  {
    if k > 0 {
      OffsetIsProduct(k - 1, w);
      assert k * w == (k - 1) * w + w;
    }
  }

  /** The outer loop adds `S + 2` rows per contrast. */
  lemma {:induction false} ContrastBlocksLength(labels: seq<string>, subjects: seq<string>, files: StatFiles)
    requires ContrastBlocks(labels, subjects, files).Ok?
    ensures |ContrastBlocks(labels, subjects, files).value| == Offset(|labels|, Width(subjects))
  {
    if |labels| > 0 {
      ContrastBlocksCons(labels, subjects, files);
      ContrastBlocksLength(labels[1..], subjects, files);
      assert |ContrastBlock(labels[0], subjects, files).value| == Width(subjects);
      assert Offset(|labels|, Width(subjects)) == Width(subjects) + Offset(|labels[1..]|, Width(subjects));
    }
  }

  /** Contrast `k`'s block is the slice of the outer loop's rows that follows `k` earlier blocks. */
  lemma {:induction false} ContrastBlocksAt(labels: seq<string>, subjects: seq<string>, files: StatFiles, k: nat)
    requires ContrastBlocks(labels, subjects, files).Ok? && k < |labels|
    ensures ContrastBlock(labels[k], subjects, files).Ok?
    ensures Offset(k, Width(subjects)) + Width(subjects) <= |ContrastBlocks(labels, subjects, files).value|
    ensures ContrastBlocks(labels, subjects, files).value[Offset(k, Width(subjects)) .. Offset(k, Width(subjects)) + Width(subjects)]
            == ContrastBlock(labels[k], subjects, files).value
    decreases k
  {
    var w := Width(subjects);
    var tail := labels[1..];
    ContrastBlocksCons(labels, subjects, files);
    var all := ContrastBlocks(labels, subjects, files).value;
    var block := ContrastBlock(labels[0], subjects, files).value;
    var rest := ContrastBlocks(tail, subjects, files).value;
    assert |block| == w;
    if k > 0 {
      ContrastBlocksAt(tail, subjects, files, k - 1);
      assert ContrastBlock(tail[k - 1], subjects, files) == ContrastBlock(labels[k], subjects, files);
      assert Offset(k, w) == w + Offset(k - 1, w);
      NextBlock(all, block, rest, Offset(k - 1, w), w, ContrastBlock(tail[k - 1], subjects, files).value);
    } else {
      assert Offset(0, w) == 0;
      FirstBlock(all, block, rest);
    }
  }

  /** In `block + rest`, a slice starting `o` into `rest` starts `|block| + o` into the whole. */
  lemma {:induction false} NextBlock<T>(all: seq<T>, block: seq<T>, rest: seq<T>, o: nat, w: nat, target: seq<T>)
    requires all == block + rest
    requires o + w <= |rest| && rest[o .. o + w] == target
    ensures |block| + o + w <= |all| && all[|block| + o .. |block| + o + w] == target
  {
    var s := all[|block| + o .. |block| + o + w];
    forall i | 0 <= i < w ensures s[i] == target[i] {
      assert s[i] == rest[o + i];
    }
  }

  /** The first `|block|` elements of `block + rest` are `block`. */
  lemma {:induction false} FirstBlock<T>(all: seq<T>, block: seq<T>, rest: seq<T>)
    requires all == block + rest
    ensures |block| <= |all| && all[0 .. |block|] == block
  {
    var s := all[0 .. |block|];
    forall i | 0 <= i < |block| ensures s[i] == block[i] {
      assert s[i] == all[i];
    }
  }

  /** The header row, `['coordinations:', centerOfROI, 'radius:', radius]`. */
  function HeaderRow(center: Voxel, radius: int): SummaryRow {
    [Str("coordinations:"), Point(center), Str("radius:"), Number(radius)]
  }

  /** The whole summary table. */
  function Summary(center: Voxel, radius: int, contrasts: seq<int>, subjects: seq<string>, files: StatFiles): (r: Result<seq<SummaryRow>>)
    ensures r.Ok? <==> ContrastBlocks(Labels(contrasts), subjects, files).Ok?
    ensures r.Ok? ==> |r.value| > 0 && r.value[0] == HeaderRow(center, radius)
  {
    var blocks :- ContrastBlocks(Labels(contrasts), subjects, files);
    Ok([HeaderRow(center, radius)] + blocks)
  }

  /** The layout of the summary: the header row, then for each contrast in list order its label
      row, one row per subject in list order holding the subject name and the sixth field of the
      last line of its statistics file, and an empty row. The table is produced exactly when
      every one of those files has a last line with at least six fields. */
  lemma {:induction false} SummaryLayout(center: Voxel, radius: int, contrasts: seq<int>, subjects: seq<string>, files: StatFiles)
    ensures Summary(center, radius, contrasts, subjects, files).Ok? <==>
              forall k, j :: 0 <= k < |contrasts| && 0 <= j < |subjects| ==>
                LastLineField(files(FormatInt(contrasts[k]), subjects[j])).Ok?
    ensures Summary(center, radius, contrasts, subjects, files).Ok? ==>
              |Summary(center, radius, contrasts, subjects, files).value| == 1 + |contrasts| * Width(subjects)
    ensures Summary(center, radius, contrasts, subjects, files).Ok? ==> forall k :: 0 <= k < |contrasts| ==>
              BlockLaidOut(Summary(center, radius, contrasts, subjects, files).value, 1 + k * Width(subjects),
                           FormatInt(contrasts[k]), subjects, files)
  {
    var r := Summary(center, radius, contrasts, subjects, files);
    if r.Ok? {
      SummaryLength(center, radius, contrasts, subjects, files);
      forall k | 0 <= k < |contrasts|
        ensures BlockLaidOut(r.value, 1 + k * Width(subjects), FormatInt(contrasts[k]), subjects, files)
      {
        SummaryBlockAt(center, radius, contrasts, subjects, files, k);
      }
    }
    SummaryOkIff(center, radius, contrasts, subjects, files);
  }

  /** Rows `lo ..` of `rows` hold the label row of a contrast, one row per subject with its name
      and the sixth field of the last line of its statistics file, and an empty row. */
  ghost predicate BlockLaidOut(rows: seq<SummaryRow>, lo: int, contrast: string, subjects: seq<string>, files: StatFiles) {
    var w := Width(subjects);
    && 0 <= lo && lo + w <= |rows|
    && rows[lo] == ContrastRow(contrast)
    && rows[lo + w - 1] == []
    && forall j :: 0 <= j < |subjects| ==>
         var f := LastLineField(files(contrast, subjects[j]));
         f.Ok? && rows[lo + 1 + j] == SubjectRow(subjects[j], f.value)
  }

  /** Contrast `k` (counting from 0) is laid out from row `1 + k * (S + 2)` on. */
  lemma {:induction false} SummaryBlockAt(center: Voxel, radius: int, contrasts: seq<int>, subjects: seq<string>, files: StatFiles, k: nat)
    requires Summary(center, radius, contrasts, subjects, files).Ok? && k < |contrasts|
    ensures BlockLaidOut(Summary(center, radius, contrasts, subjects, files).value, 1 + k * Width(subjects),
                         FormatInt(contrasts[k]), subjects, files)
  {
    var rows := Summary(center, radius, contrasts, subjects, files).value;
    var w := Width(subjects);
    SummaryBlockSlice(center, radius, contrasts, subjects, files, k);
    BlockInRows(rows, 1 + Offset(k, w), Labels(contrasts)[k], subjects, files);
    LabelsAt(contrasts, k);
    OffsetIsProduct(k, w);
  }

  /** Contrast `k`'s block is the slice of the summary that follows the header and `k` earlier blocks. */
  lemma {:induction false} SummaryBlockSlice(center: Voxel, radius: int, contrasts: seq<int>, subjects: seq<string>, files: StatFiles, k: nat)
    requires Summary(center, radius, contrasts, subjects, files).Ok? && k < |contrasts|
    ensures ContrastBlock(Labels(contrasts)[k], subjects, files).Ok?
    ensures 1 + Offset(k, Width(subjects)) + Width(subjects) <= |Summary(center, radius, contrasts, subjects, files).value|
    ensures Summary(center, radius, contrasts, subjects, files).value[1 + Offset(k, Width(subjects)) .. 1 + Offset(k, Width(subjects)) + Width(subjects)]
            == ContrastBlock(Labels(contrasts)[k], subjects, files).value
  {
    var labels := Labels(contrasts);
    var all := ContrastBlocks(labels, subjects, files).value;
    ContrastBlocksAt(labels, subjects, files, k);
    NextBlock(Summary(center, radius, contrasts, subjects, files).value, [HeaderRow(center, radius)], all,
              Offset(k, Width(subjects)), Width(subjects), ContrastBlock(labels[k], subjects, files).value);
  }

  /** A contrast's block found at row `lo` lays the rows out as the block does. */
  lemma {:induction false} BlockInRows(rows: seq<SummaryRow>, lo: nat, contrast: string, subjects: seq<string>, files: StatFiles)
    requires ContrastBlock(contrast, subjects, files).Ok?
    requires lo + Width(subjects) <= |rows|
    requires rows[lo .. lo + Width(subjects)] == ContrastBlock(contrast, subjects, files).value
    ensures BlockLaidOut(rows, lo, contrast, subjects, files)
  {
    var w := Width(subjects);
    var block := rows[lo .. lo + w];
    BlockRows(contrast, subjects, files);
    assert rows[lo] == block[0];
    assert rows[lo + w - 1] == block[w - 1];
    forall j | 0 <= j < |subjects|
      ensures rows[lo + 1 + j] == SubjectRow(subjects[j], LastLineField(files(contrast, subjects[j])).value)
    {
      assert rows[lo + 1 + j] == block[1 + j];
    }
  }

  /** One contrast's block, row by row. */
  lemma {:induction false} BlockRows(contrast: string, subjects: seq<string>, files: StatFiles)
    requires ContrastBlock(contrast, subjects, files).Ok?
    ensures var block := ContrastBlock(contrast, subjects, files).value;
            && block[0] == ContrastRow(contrast)
            && block[|subjects| + 1] == []
            && forall j :: 0 <= j < |subjects| ==>
                 LastLineField(files(contrast, subjects[j])).Ok? &&
                 block[1 + j] == SubjectRow(subjects[j], LastLineField(files(contrast, subjects[j])).value)
  {
    var block := ContrastBlock(contrast, subjects, files).value;
    var rows := SubjectRows(contrast, subjects, files).value;
    SubjectRowsSpec(contrast, subjects, files);
    assert block == [ContrastRow(contrast)] + rows + [[]];
    forall j | 0 <= j < |subjects|
      ensures LastLineField(files(contrast, subjects[j])).Ok?
      ensures block[1 + j] == SubjectRow(subjects[j], LastLineField(files(contrast, subjects[j])).value)
    {
      assert block[1 + j] == rows[j];
    }
  }

  lemma {:induction false} SummaryOkIff(center: Voxel, radius: int, contrasts: seq<int>, subjects: seq<string>, files: StatFiles)
    ensures Summary(center, radius, contrasts, subjects, files).Ok? <==>
              forall k, j :: 0 <= k < |contrasts| && 0 <= j < |subjects| ==>
                LastLineField(files(FormatInt(contrasts[k]), subjects[j])).Ok?
  {
    var labels := Labels(contrasts);
    ContrastBlocksOk(labels, subjects, files);
    forall k | 0 <= k < |contrasts|
      ensures ContrastBlock(labels[k], subjects, files).Ok? <==>
                forall j :: 0 <= j < |subjects| ==> LastLineField(files(FormatInt(contrasts[k]), subjects[j])).Ok?
    {
      LabelsAt(contrasts, k);
      SubjectRowsSpec(labels[k], subjects, files);
    }
  }

  /** With the script's three subjects and five contrasts the table has 26 rows. */
  lemma {:induction false} ScriptSummarySize(files: StatFiles)
    requires Summary(CenterOfRoi, Radius, ScriptContrasts, ScriptSubjects, files).Ok?
    ensures |Summary(CenterOfRoi, Radius, ScriptContrasts, ScriptSubjects, files).value| == 26
  {
    SummaryLength(CenterOfRoi, Radius, ScriptContrasts, ScriptSubjects, files);
  }

  /** One header row and `S + 2` rows per contrast. */
  lemma {:induction false} SummaryLength(center: Voxel, radius: int, contrasts: seq<int>, subjects: seq<string>, files: StatFiles)
    requires Summary(center, radius, contrasts, subjects, files).Ok?
    ensures |Summary(center, radius, contrasts, subjects, files).value| == 1 + |contrasts| * Width(subjects)
  {
    ContrastBlocksLength(Labels(contrasts), subjects, files);
    OffsetIsProduct(|contrasts|, Width(subjects));
  }
}
