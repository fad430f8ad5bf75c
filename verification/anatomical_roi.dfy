/** The per-contrast summary table of aROIpipeline.py: a sparse table of `TableSize` rows indexed
    by segment id, filled subject by subject from the records of both statistics files,
    zero-padded after each subject, then headed and stripped of never-labelled rows. */
module AnatomicalRoi {
  import opened Results
  import opened Sorting
  import opened StatsRecords

  /** The table has one row for each segment id `0 .. TableSize - 1`. */
  const TableSize: nat := 15000

  /** The placeholder name a row carries until some record names its structure. */
  const Unlabelled: string := "LABEL"

  /** `getVersion`: picks the original (`version == 0`) or the 2009 parcellation (any other
      version) out of the two segmentation volumes FreeSurfer lists. */
  function GetVersion<T>(inFile: seq<T>, version: int): (r: Result<T>)
    ensures r.Ok? <==> (if version == 0 then |inFile| >= 1 else |inFile| >= 2)
    ensures r.Ok? ==> r.value == inFile[if version == 0 then 0 else 1]
    ensures r.Err? ==> r.error == IndexError
  {
    if version == 0 then
      if |inFile| > 0 then Ok(inFile[0]) else Err(IndexError)
    else
      if |inFile| > 1 then Ok(inFile[1]) else Err(IndexError)
  }

  /** A table row `[segId, structName, value for subject 1, value for subject 2, ...]`. */
  datatype Row = Row(segId: int, name: string, values: seq<real>)

  /** The table before any subject: row `i` is `[i, 'LABEL']`. */
  function InitialTable(): (t: seq<Row>)
    ensures |t| == TableSize
    ensures forall i :: 0 <= i < TableSize ==> t[i] == Row(i, Unlabelled, [])
  {
    seq(TableSize, i => Row(i, Unlabelled, []))
  }

  /** Python's `output[segId]` on the `TableSize` rows: negative ids count back from the end,
      anything outside `-TableSize .. TableSize - 1` raises IndexError. */
  function RowIndex(segId: int): (r: Option<nat>)
    ensures r.Some? <==> -(TableSize as int) <= segId < TableSize
    ensures r.Some? ==> r.value < TableSize && r.value % TableSize == segId % TableSize
  {
    if 0 <= segId < TableSize then Some(segId)
    else if -(TableSize as int) <= segId < 0 then Some(segId + TableSize)
    else None
  }

  /** One iteration of `for ROI in result`: the row keeps its name unless it is still the
      placeholder, and gets the record's value appended. */
  function ApplyRecord(t: seq<Row>, rec: Record): (r: Result<seq<Row>>)
    requires |t| == TableSize
    ensures r.Ok? <==> RowIndex(rec.segId).Some?
    ensures r.Ok? ==> |r.value| == TableSize
  {
    match RowIndex(rec.segId)
    case None => Err(IndexError)
    case Some(i) =>
      var row := t[i];
      Ok(t[i := Row(row.segId, if row.name == Unlabelled then rec.name else row.name, row.values + [rec.value])])
  }

  /** The whole `for ROI in result` loop; the first out-of-range segment id aborts it. */
  function ApplyRecords(t: seq<Row>, recs: seq<Record>): (r: Result<seq<Row>>)
    requires |t| == TableSize
    ensures r.Ok? <==> Addressed(recs)
    ensures r.Ok? ==> |r.value| == TableSize
    decreases |recs|
  {
    if |recs| == 0 then Ok(t)
    else
      var t1 :- ApplyRecord(t, recs[0]);
      assert forall k :: 1 <= k < |recs| ==> recs[k] == recs[1..][k - 1];
      ApplyRecords(t1, recs[1..])
  }

  /** Every record's segment id indexes the table (negative ids count from its end). */
  predicate Addressed(recs: seq<Record>) {
    forall k :: 0 <= k < |recs| ==> RowIndex(recs[k].segId).Some?
  }

  /** The padding loop after subject number `k`: every row holding fewer than `k` values gets
      one `0.0` at its end; longer rows are left alone, and only one `0.0` is ever added. */
  function PadRows(t: seq<Row>, k: nat): (r: seq<Row>)
    ensures |r| == |t|
    ensures forall i :: 0 <= i < |t| ==> r[i].segId == t[i].segId && r[i].name == t[i].name
    ensures forall i :: 0 <= i < |t| ==> |r[i].values| == (if |t[i].values| < k then |t[i].values| + 1 else |t[i].values|)
    ensures forall i :: 0 <= i < |t| ==> r[i].values[..|t[i].values|] == t[i].values
    ensures forall i, j :: 0 <= i < |t| && |t[i].values| <= j < |r[i].values| ==> r[i].values[j] == 0.0
  {
    seq(|t|, i requires 0 <= i < |t| =>
      if |t[i].values| < k then Row(t[i].segId, t[i].name, t[i].values + [0.0]) else t[i])
  }

  /** One subject of the loop: its name and what reading its two statistics files gave, either
      its sorted, de-duplicated records or the exception parsing raised. */
  datatype Subject = Subject(name: string, records: Result<seq<Record>>)

  /** The subject as the loop body of aROIpipeline.py (lines 159-196) sees it: its records are those of the original
      and the 2009 statistics file together, sorted, with adjacent repeats dropped. Parsing has no
      side effects, so producing every subject's records before the loop raises the same exception
      as the loop does, at the same subject. */
  function SubjectFromFiles(name: string, orig: seq<string>, a2009: seq<string>): (s: Subject)
    ensures s.name == name
    ensures s.records.Ok? <==> ParseStats(orig).Ok? && ParseStats(a2009).Ok?
    ensures s.records.Ok? ==>
              && StrictlySorted(RecordLe, s.records.value)
              && forall x :: x in s.records.value <==> x in ParseStats(orig).value + ParseStats(a2009).value
  {
    var r := SubjectRecords(orig, a2009);
    if r.Ok? then
      SubjectRecordsSorted(orig, a2009);
      Subject(name, r)
    else Subject(name, r)
  }

  function Names(subjects: seq<Subject>): (names: seq<string>)
    ensures |names| == |subjects|
    ensures forall j :: 0 <= j < |subjects| ==> names[j] == subjects[j].name
  {
    seq(|subjects|, j requires 0 <= j < |subjects| => subjects[j].name)
  }

  /** The table after the `for subject in subjects` loop; subject `j` (counting from 0) is
      processed with `subjectNumber == j + 1`. */
  function Accumulate(subjects: seq<Subject>): (r: Result<seq<Row>>)
    ensures r.Ok? ==> |r.value| == TableSize
    decreases |subjects|
  {
    if |subjects| == 0 then Ok(InitialTable())
    else
      var t :- Accumulate(subjects[..|subjects| - 1]);
      var last := subjects[|subjects| - 1];
      var result :- last.records;
      var t' :- ApplyRecords(t, result);
      Ok(PadRows(t', |subjects|))
  }

  /** After the loop every row still sits at its own id and holds at least one value per
      subject, and every subject's files have parsed. */
  lemma {:induction false} AccumulateShape(subjects: seq<Subject>)
    requires Accumulate(subjects).Ok?
    ensures forall i :: 0 <= i < TableSize ==> Accumulate(subjects).value[i].segId == i
    ensures forall i :: 0 <= i < TableSize ==> |Accumulate(subjects).value[i].values| >= |subjects|
    ensures AllParse(subjects)
  {
    AccumulateIds(subjects);
    AccumulateWidths(subjects);
    AccumulateParses(subjects);
  }

  lemma {:induction false} AccumulateIds(subjects: seq<Subject>)
    requires Accumulate(subjects).Ok?
    ensures forall i :: 0 <= i < TableSize ==> Accumulate(subjects).value[i].segId == i
    decreases |subjects|
  {
    if |subjects| > 0 {
      var prefix := subjects[..|subjects| - 1];
      AccumulateStep(subjects);
      AccumulateIds(prefix);
      ApplyRecordsShape(Accumulate(prefix).value, RecordsOf(subjects[|subjects| - 1]));
    }
  }

  lemma {:induction false} AccumulateWidths(subjects: seq<Subject>)
    requires Accumulate(subjects).Ok?
    ensures forall i :: 0 <= i < TableSize ==> |Accumulate(subjects).value[i].values| >= |subjects|
    decreases |subjects|
  {
    if |subjects| > 0 {
      var prefix := subjects[..|subjects| - 1];
      AccumulateStep(subjects);
      AccumulateWidths(prefix);
      ApplyRecordsShape(Accumulate(prefix).value, RecordsOf(subjects[|subjects| - 1]));
    }
  }

  lemma {:induction false} AccumulateParses(subjects: seq<Subject>)
    requires Accumulate(subjects).Ok?
    ensures AllParse(subjects)
    decreases |subjects|
  {
    if |subjects| > 0 {
      var prefix := subjects[..|subjects| - 1];
      AccumulateStep(subjects);
      AccumulateParses(prefix);
      forall j | 0 <= j < |subjects| ensures subjects[j].records.Ok? {
        if j < |subjects| - 1 {
          assert subjects[j] == prefix[j];
        }
      }
    }
  }

  /** Every subject's statistics files parse. */
  predicate AllParse(subjects: seq<Subject>) {
    forall j :: 0 <= j < |subjects| ==> subjects[j].records.Ok?
  }

  /** The output written for one contrast: the header row, then the rows, by segment id. */
  datatype Summary = Summary(header: seq<string>, rows: seq<Row>)

  /** The rows whose name is no longer the placeholder, in table order. */
  function Labelled(t: seq<Row>): (r: seq<Row>)
    ensures forall x :: x in r <==> x in t && x.name != Unlabelled
    ensures (forall j, k :: 0 <= j < k < |t| ==> t[j].segId < t[k].segId) ==>
              forall j, k :: 0 <= j < k < |r| ==> r[j].segId < r[k].segId
  {
    if |t| == 0 then []
    else
      var rest := Labelled(t[1..]);
      assert forall x :: x in t <==> x == t[0] || x in t[1..];
      if t[0].name != Unlabelled then [t[0]] + rest else rest
  }

  /** The summary for one contrast: `output.insert(0, ['SegId', 'StructName'])`, the subject
      names appended to that header, and `[ROI for ROI in output if ROI[1] != 'LABEL']`
      (the header's second cell is never the placeholder, so the header survives the filter). */
  function Summarize(subjects: seq<Subject>): (r: Result<Summary>)
    ensures r.Ok? <==> Accumulate(subjects).Ok?
    ensures r.Ok? ==> r.value.header == ["SegId", "StructName"] + Names(subjects)
  {
    var t :- Accumulate(subjects);
    Ok(Summary(["SegId", "StructName"] + Names(subjects), Labelled(t)))
  }

  /** The kept rows carry valid, strictly increasing segment ids, a real structure name and a
      value for every subject; a table row is kept exactly when it is labelled. */
  lemma {:induction false} SummaryRows(subjects: seq<Subject>)
    requires Summarize(subjects).Ok?
    ensures var rows := Summarize(subjects).value.rows;
            forall j :: 0 <= j < |rows| ==>
              && 0 <= rows[j].segId < TableSize
              && rows[j].name != Unlabelled
              && |rows[j].values| >= |subjects|
    ensures var rows := Summarize(subjects).value.rows;
            forall j, k :: 0 <= j < k < |rows| ==> rows[j].segId < rows[k].segId
    ensures var rows, t := Summarize(subjects).value.rows, Accumulate(subjects).value;
            forall i :: 0 <= i < TableSize ==> (t[i] in rows <==> t[i].name != Unlabelled)
  {
    var t := Accumulate(subjects).value;
    AccumulateShape(subjects);
    var rows := Labelled(t);
    assert Summarize(subjects).value.rows == rows;
    forall j | 0 <= j < |rows| ensures 0 <= rows[j].segId < TableSize && |rows[j].values| >= |subjects| {
      assert rows[j] in t;
    }
    forall i | 0 <= i < TableSize ensures (t[i] in rows <==> t[i].name != Unlabelled) {
      assert t[i] in t;
    }
  }

  // ---------------------------------------------------------------------------
  // The table row by row: an independent description of what the record loop does

  predicate Targets(rec: Record, i: nat) {
    RowIndex(rec.segId) == Some(i)
  }

  /** The values `recs` append to row `i`, in order. */
  function ValuesAt(recs: seq<Record>, i: nat): seq<real> {
    if |recs| == 0 then []
    else (if Targets(recs[0], i) then [recs[0].value] else []) + ValuesAt(recs[1..], i)
  }

  /** The names `recs` offer to row `i`, in order. */
  function NamesAt(recs: seq<Record>, i: nat): seq<string> {
    if |recs| == 0 then []
    else (if Targets(recs[0], i) then [recs[0].name] else []) + NamesAt(recs[1..], i)
  }

  /** The name a row ends with when `names` are offered to it one after another. */
  function NameAfter(name: string, names: seq<string>): string
    decreases |names|
  {
    if |names| == 0 then name
    else NameAfter(if name == Unlabelled then names[0] else name, names[1..])
  }

  /** A name other than the placeholder is never overwritten. */
  lemma {:induction false} NameKept(name: string, names: seq<string>)
    requires name != Unlabelled
    ensures NameAfter(name, names) == name
  {
    if |names| > 0 {
      NameKept(name, names[1..]);
    }
  }

  /** Starting from the placeholder, a row takes the first offered name that is not the
      placeholder. */
  lemma {:induction false} NameAfterFirst(names: seq<string>, j: nat)
    requires j < |names| && names[j] != Unlabelled
    requires forall k :: 0 <= k < j ==> names[k] == Unlabelled
    ensures NameAfter(Unlabelled, names) == names[j]
  {
    if j == 0 {
      NameKept(names[0], names[1..]);
    } else {
      NameAfterFirst(names[1..], j - 1);
    }
  }

  /** When every offered name is the placeholder, the row keeps it. */
  lemma {:induction false} NameAfterNone(names: seq<string>)
    requires forall k :: 0 <= k < |names| ==> names[k] == Unlabelled
    ensures NameAfter(Unlabelled, names) == Unlabelled
  {
    if |names| > 0 {
      NameAfterNone(names[1..]);
    }
  }

  lemma {:induction false} NameAfterAppend(name: string, a: seq<string>, b: seq<string>)
    ensures NameAfter(name, a + b) == NameAfter(NameAfter(name, a), b)
    decreases |a|
  {
    if |a| > 0 {
      assert (a + b)[1..] == a[1..] + b;
      NameAfterAppend(if name == Unlabelled then a[0] else name, a[1..], b);
    } else {
      assert a + b == b;
    }
  }

  /** One record, row by row: only the row it targets changes. */
  lemma {:induction false} ApplyRecordRow(t: seq<Row>, rec: Record, i: nat)
    requires |t| == TableSize && i < TableSize
    requires ApplyRecord(t, rec).Ok?
    ensures ApplyRecord(t, rec).value[i] ==
              if Targets(rec, i) then Row(t[i].segId, NameAfter(t[i].name, [rec.name]), t[i].values + [rec.value])
              else t[i]
  {
  }

  /** The record loop, row by row: row `i` keeps its id, takes its name from the names offered
      to it, and gets exactly the values of the records that target it, in record order. */
  lemma {:induction false} ApplyRecordsRows(t: seq<Row>, recs: seq<Record>)
    requires |t| == TableSize
    ensures ApplyRecords(t, recs).Ok? ==> forall i :: 0 <= i < TableSize ==>
              ApplyRecords(t, recs).value[i] ==
                Row(t[i].segId, NameAfter(t[i].name, NamesAt(recs, i)), t[i].values + ValuesAt(recs, i))
    decreases |recs|
  {
    if |recs| > 0 && ApplyRecords(t, recs).Ok? {
      var t1 := ApplyRecord(t, recs[0]).value;
      var rest := recs[1..];
      assert ApplyRecords(t, recs) == ApplyRecords(t1, rest);
      ApplyRecordsRows(t1, rest);
      forall i | 0 <= i < TableSize
        ensures ApplyRecords(t, recs).value[i] ==
                  Row(t[i].segId, NameAfter(t[i].name, NamesAt(recs, i)), t[i].values + ValuesAt(recs, i))
      {
        ApplyRecordRow(t, recs[0], i);
        var head := if Targets(recs[0], i) then [recs[0].name] else [];
        assert NamesAt(recs, i) == head + NamesAt(rest, i);
        NameAfterAppend(t[i].name, head, NamesAt(rest, i));
        assert ValuesAt(recs, i) == (if Targets(recs[0], i) then [recs[0].value] else []) + ValuesAt(rest, i);
      }
    }
  }

  /** The record loop keeps every row's id and only ever appends values. */
  lemma {:induction false} ApplyRecordsShape(t: seq<Row>, recs: seq<Record>)
    requires |t| == TableSize && ApplyRecords(t, recs).Ok?
    ensures forall i :: 0 <= i < TableSize ==>
              && ApplyRecords(t, recs).value[i].segId == t[i].segId
              && |ApplyRecords(t, recs).value[i].values| >= |t[i].values|
  {
    ApplyRecordsRows(t, recs);
  }

  /** Some name in `names` is not the placeholder. */
  predicate Named(names: seq<string>) {
    exists k :: 0 <= k < |names| && names[k] != Unlabelled
  }

  /** Some row of `rows` carries segment id `i`. */
  predicate HasRowFor(rows: seq<Row>, i: int) {
    exists j :: 0 <= j < |rows| && rows[j].segId == i
  }

  lemma {:induction false} NameAfterSet(name: string, names: seq<string>)
    ensures NameAfter(name, names) != Unlabelled <==>
              name != Unlabelled || Named(names)
    decreases |names|
  {
    if |names| > 0 {
      NameAfterSet(if name == Unlabelled then names[0] else name, names[1..]);
      assert forall k :: 1 <= k < |names| ==> names[1..][k - 1] == names[k];
    }
  }

  // ---------------------------------------------------------------------------
  // The table across subjects

  /** The records one subject contributes (none when its files do not parse). */
  function RecordsOf(s: Subject): seq<Record> {
    if s.records.Ok? then s.records.value else []
  }

  /** Every name offered to row `i`, subject after subject. */
  function AllNamesAt(subjects: seq<Subject>, i: nat): seq<string>
    decreases |subjects|
  {
    if |subjects| == 0 then []
    else AllNamesAt(subjects[..|subjects| - 1], i) + NamesAt(RecordsOf(subjects[|subjects| - 1]), i)
  }

  /** One turn of the subject loop, unfolded. */
  lemma {:induction false} AccumulateStep(subjects: seq<Subject>)
    requires |subjects| > 0 && Accumulate(subjects).Ok?
    ensures var prefix := subjects[..|subjects| - 1];
            var last := subjects[|subjects| - 1];
            && Accumulate(prefix).Ok?
            && last.records.Ok?
            && ApplyRecords(Accumulate(prefix).value, RecordsOf(last)).Ok?
            && Accumulate(subjects).value == PadRows(ApplyRecords(Accumulate(prefix).value, RecordsOf(last)).value, |subjects|)
  {
  }

  /** Padding, for one row. */
  lemma {:induction false} PadRow(t: seq<Row>, k: nat, i: nat)
    requires i < |t|
    ensures PadRows(t, k)[i] == Row(t[i].segId, t[i].name, t[i].values + (if |t[i].values| < k then [0.0] else []))
  {
    var r := PadRows(t, k)[i];
    assert r.values[..|t[i].values|] == t[i].values;
  }

  /** The first subject (in list order) whose records name row `i` decides its name, and no
      later subject overwrites it. */
  lemma {:induction false} AccumulateNames(subjects: seq<Subject>, i: nat)
    requires Accumulate(subjects).Ok? && i < TableSize
    ensures Accumulate(subjects).value[i].name == NameAfter(Unlabelled, AllNamesAt(subjects, i))
    decreases |subjects|
  {
    if |subjects| > 0 {
      AccumulateStep(subjects);
      var prefix := subjects[..|subjects| - 1];
      var t := Accumulate(prefix).value;
      var recs := RecordsOf(subjects[|subjects| - 1]);
      AccumulateNames(prefix, i);
      ApplyRecordsRows(t, recs);
      PadRow(ApplyRecords(t, recs).value, |subjects|, i);
      NameAfterAppend(Unlabelled, AllNamesAt(prefix, i), NamesAt(recs, i));
    }
  }

  /** What subject `j` puts in its column of row `i` when it has at most one value for the
      row: that value, or the `0.0` of the padding loop. */
  function Cell(recs: seq<Record>, i: nat): real {
    var vs := ValuesAt(recs, i);
    if |vs| == 0 then 0.0 else vs[0]
  }

  /** When no subject contributes two values to row `i`, the row has exactly one column per
      subject, and column `j` holds subject `j`'s value or `0.0`. */
  lemma {:induction false} AccumulateColumns(subjects: seq<Subject>, i: nat)
    requires Accumulate(subjects).Ok? && i < TableSize
    requires forall j :: 0 <= j < |subjects| ==> |ValuesAt(RecordsOf(subjects[j]), i)| <= 1
    ensures |Accumulate(subjects).value[i].values| == |subjects|
    ensures forall j :: 0 <= j < |subjects| ==> Accumulate(subjects).value[i].values[j] == Cell(RecordsOf(subjects[j]), i)
    decreases |subjects|
  {
    if |subjects| > 0 {
      var n := |subjects|;
      var prefix := subjects[..n - 1];
      assert forall j :: 0 <= j < |prefix| ==> prefix[j] == subjects[j];
      AccumulateStep(subjects);
      var t := Accumulate(prefix).value;
      var recs := RecordsOf(subjects[n - 1]);
      AccumulateColumns(prefix, i);
      AppendColumn(t, recs, n, i);
      var vs := Accumulate(subjects).value[i].values;
      forall j | 0 <= j < n ensures vs[j] == Cell(RecordsOf(subjects[j]), i) {
        if j < n - 1 {
          assert vs[j] == t[i].values[j];
        }
      }
    }
  }

  /** One subject's turn, for one row: the row gains exactly that subject's cell. */
  lemma {:induction false} AppendColumn(t: seq<Row>, recs: seq<Record>, k: nat, i: nat)
    requires |t| == TableSize && i < TableSize && ApplyRecords(t, recs).Ok?
    requires |t[i].values| + 1 == k && |ValuesAt(recs, i)| <= 1
    ensures PadRows(ApplyRecords(t, recs).value, k)[i].values == t[i].values + [Cell(recs, i)]
  {
    ApplyRecordsRows(t, recs);
    var t' := ApplyRecords(t, recs).value;
    assert t'[i].values == t[i].values + ValuesAt(recs, i);
    PadRow(t', k, i);
  }

  /** A segment id has a row in the summary exactly when some subject's records offer it a
      name other than the placeholder; that row is unique and carries the first such name. */
  lemma {:induction false} SummaryRowFor(subjects: seq<Subject>, i: nat)
    requires Summarize(subjects).Ok? && i < TableSize
    ensures HasRowFor(Summarize(subjects).value.rows, i) <==> Named(AllNamesAt(subjects, i))
    ensures var rows := Summarize(subjects).value.rows;
            forall j :: 0 <= j < |rows| && rows[j].segId == i ==>
              rows[j] == Accumulate(subjects).value[i] && rows[j].name == NameAfter(Unlabelled, AllNamesAt(subjects, i))
  {
    var t := Accumulate(subjects).value;
    assert Summarize(subjects).value.rows == Labelled(t);
    assert t[i].name == NameAfter(Unlabelled, AllNamesAt(subjects, i)) by {
      AccumulateNames(subjects, i);
    }
    assert t[i].name != Unlabelled <==> Named(AllNamesAt(subjects, i)) by {
      NameAfterSet(Unlabelled, AllNamesAt(subjects, i));
    }
    AccumulateIds(subjects);
    LabelledRowFor(t, i);
  }

  /** In a table indexed by segment id, the filter keeps row `i` exactly when it is labelled,
      and any kept row with id `i` is that row. */
  lemma {:induction false} LabelledRowFor(t: seq<Row>, i: nat)
    requires |t| == TableSize && i < TableSize
    requires forall m :: 0 <= m < TableSize ==> t[m].segId == m
    ensures HasRowFor(Labelled(t), i) <==> t[i].name != Unlabelled
    ensures forall j :: 0 <= j < |Labelled(t)| && Labelled(t)[j].segId == i ==> Labelled(t)[j] == t[i]
  {
    var rows := Labelled(t);
    forall j | 0 <= j < |rows| && rows[j].segId == i ensures rows[j] == t[i] && t[i].name != Unlabelled {
      assert rows[j] in rows && rows[j] in t;
      var m :| 0 <= m < |t| && t[m] == rows[j];
    }
    if t[i].name != Unlabelled {
      assert t[i] in rows;
      var j :| 0 <= j < |rows| && rows[j] == t[i];
      assert 0 <= j < |Labelled(t)| && Labelled(t)[j].segId == i;
    }
  }

  /** The worked case of the summary: subject A reports segment `i` with a name and a value,
      subject B does not report it; the row reads `[i, name, value, 0.0]`. */
  lemma {:induction false} MissingSubjectGetsZero(subjects: seq<Subject>, i: nat, name: string, v: real)
    requires Summarize(subjects).Ok? && |subjects| == 2 && i < TableSize
    requires NamesAt(RecordsOf(subjects[0]), i) == [name] && name != Unlabelled
    requires ValuesAt(RecordsOf(subjects[0]), i) == [v]
    requires ValuesAt(RecordsOf(subjects[1]), i) == []
    ensures Row(i, name, [v, 0.0]) in Summarize(subjects).value.rows
  {
    var t := Accumulate(subjects).value;
    MissingSubjectRow(subjects, i, name, v);
    assert t[i] in t;
  }

  lemma {:induction false} MissingSubjectRow(subjects: seq<Subject>, i: nat, name: string, v: real)
    requires Accumulate(subjects).Ok? && |subjects| == 2 && i < TableSize
    requires NamesAt(RecordsOf(subjects[0]), i) == [name] && name != Unlabelled
    requires ValuesAt(RecordsOf(subjects[0]), i) == [v]
    requires ValuesAt(RecordsOf(subjects[1]), i) == []
    ensures Accumulate(subjects).value[i] == Row(i, name, [v, 0.0])
  {
    var row := Accumulate(subjects).value[i];
    assert row.segId == i by {
      AccumulateShape(subjects);
    }
    assert row.values == [v, 0.0] by {
      TwoSubjectsAtMostOne(subjects, i);
      AccumulateColumns(subjects, i);
      assert Cell(RecordsOf(subjects[0]), i) == v;
      assert Cell(RecordsOf(subjects[1]), i) == 0.0;
    }
    assert row.name == name by {
      AccumulateNames(subjects, i);
      TwoSubjectNames(subjects, i);
      var later := NamesAt(RecordsOf(subjects[1]), i);
      assert ([name] + later)[1..] == later;
      NameKept(name, later);
    }
  }

  /** A subject whose files give a segment two values adds both to its row, and the padding
      loop adds no `0.0` for a row that is already long enough. So when the next subject has no
      value for that segment, the next subject's column holds the earlier subject's second value,
      and nothing reports the shift. */
  lemma {:induction false} RepeatedSegmentShiftsColumn(subjects: seq<Subject>, i: nat, v: real, w: real)
    requires Accumulate(subjects).Ok? && |subjects| == 2 && i < TableSize
    requires ValuesAt(RecordsOf(subjects[0]), i) == [v, w]
    requires ValuesAt(RecordsOf(subjects[1]), i) == []
    ensures Accumulate(subjects).value[i].values == [v, w]
  {
    AccumulateStep(subjects);
    var first := subjects[..1];
    assert first[0] == subjects[0];
    AccumulateStep(first);
    assert first[..0] == [];
    var t0 := InitialTable();
    ApplyRecordsRows(t0, RecordsOf(subjects[0]));
    PadRow(ApplyRecords(t0, RecordsOf(subjects[0])).value, 1, i);
    var u := Accumulate(first).value;
    assert u[i].values == [v, w];
    ApplyRecordsRows(u, RecordsOf(subjects[1]));
    PadRow(ApplyRecords(u, RecordsOf(subjects[1])).value, 2, i);
  }

  /** The subject loop runs to its end exactly when every subject's files parse and every record
      they hold has a segment id that indexes the table; otherwise it stops with the first
      exception. */
  lemma {:induction false} AccumulateOk(subjects: seq<Subject>)
    ensures Accumulate(subjects).Ok? <==>
              AllParse(subjects) && forall j :: 0 <= j < |subjects| ==> Addressed(RecordsOf(subjects[j]))
    decreases |subjects|
  {
    if |subjects| > 0 {
      var n := |subjects|;
      var prefix := subjects[..n - 1];
      AccumulateOk(prefix);
      assert forall j :: 0 <= j < n - 1 ==> prefix[j] == subjects[j];
    }
  }

  lemma {:induction false} TwoSubjectsAtMostOne(subjects: seq<Subject>, i: nat)
    requires |subjects| == 2
    requires |ValuesAt(RecordsOf(subjects[0]), i)| <= 1 && |ValuesAt(RecordsOf(subjects[1]), i)| <= 1
    ensures forall j :: 0 <= j < |subjects| ==> |ValuesAt(RecordsOf(subjects[j]), i)| <= 1
  {
    forall j | 0 <= j < |subjects| ensures |ValuesAt(RecordsOf(subjects[j]), i)| <= 1 {
      if j == 1 {
        assert |ValuesAt(RecordsOf(subjects[1]), i)| <= 1;
      }
    }
  }

  /** With a single subject, the names offered to a row are that subject's. */
  lemma {:induction false} OneSubjectNames(subjects: seq<Subject>, i: nat)
    requires |subjects| == 1
    ensures AllNamesAt(subjects, i) == NamesAt(RecordsOf(subjects[0]), i)
  {
    assert AllNamesAt(subjects, i) == AllNamesAt(subjects[..0], i) + NamesAt(RecordsOf(subjects[0]), i);
    assert AllNamesAt(subjects[..0], i) == [];
  }

  /** With two subjects, the names offered to a row are the first subject's, then the second's. */
  lemma {:induction false} TwoSubjectNames(subjects: seq<Subject>, i: nat)
    requires |subjects| == 2
    ensures AllNamesAt(subjects, i) == NamesAt(RecordsOf(subjects[0]), i) + NamesAt(RecordsOf(subjects[1]), i)
  {
    var first := subjects[..1];
    assert AllNamesAt(subjects, i) == AllNamesAt(first, i) + NamesAt(RecordsOf(subjects[1]), i);
    assert first[0] == subjects[0];
    OneSubjectNames(first, i);
  }
}
