/** Reading FreeSurfer segmentation statistics (`summary.stats`) files into records, as the
    summary loop of aROIpipeline.py does for each subject: skip the `#` header, parse every
    data line into `(segId, label, value)`, merge the two files, sort and drop repeats. */
module StatsRecords {
  import opened Results
  import opened Text
  import opened Numbers
  import opened Sorting

  /** One data line of a statistics file: segment id (field 1), structure name (field 4)
      and mean value (field 5). */
  datatype Record = Record(segId: int, name: string, value: real)

  /** `findStartOfData` looks at no more than this many lines. */
  const ScanLimit: nat := 100

  predicate StartsWithHash(line: string) {
    |line| > 0 && line[0] == '#'
  }

  /** The scan reaches line `j` (all earlier lines are comments) and cannot read its first character:
      the line is past the end of the file or empty. */
  ghost predicate ScanFailsAt(lines: seq<string>, j: nat) {
    && j < ScanLimit
    && (j == |lines| || (j < |lines| && lines[j] == ""))
    && forall k :: 0 <= k < j && k < |lines| ==> StartsWithHash(lines[k])
  }

  /** The loop of `findStartOfData` from line `i` on; `lines[..i]` are already known to be comments.
      Indexing past the end of the file, or the first character of an empty line, raises IndexError. */
  function ScanFrom(lines: seq<string>, i: nat): (r: Result<Option<nat>>)
    requires i <= ScanLimit && i <= |lines|
    requires forall k :: 0 <= k < i ==> StartsWithHash(lines[k])
    ensures r.Ok? && r.value.Some? ==>
              var j := r.value.value;
              && i <= j < ScanLimit && j < |lines|
              && |lines[j]| > 0 && lines[j][0] != '#'
              && forall k :: 0 <= k < j ==> StartsWithHash(lines[k])
    ensures r == Ok(None) <==>
              ScanLimit <= |lines| && forall k :: 0 <= k < ScanLimit ==> StartsWithHash(lines[k])
    ensures r.Err? ==>
              && r.error == IndexError
              && exists j :: i <= j && ScanFailsAt(lines, j)
    decreases ScanLimit - i
  {
    if i == ScanLimit then Ok(None)
    else if i == |lines| || |lines[i]| == 0 then
      assert ScanFailsAt(lines, i);
      Err(IndexError)
    else if lines[i][0] != '#' then Ok(Some(i))
    else ScanFrom(lines, i + 1)
  }

  /** `findStartOfData`: index of the first line, among the first `ScanLimit`, that does not start
      with `#`; `None` when all of the first `ScanLimit` lines are comments. */
  function FindStartOfData(lines: seq<string>): (r: Result<Option<nat>>)
    ensures r.Ok? && r.value.Some? ==>
              var j := r.value.value;
              && j < ScanLimit && j < |lines|
              && |lines[j]| > 0 && lines[j][0] != '#'
              && forall k :: 0 <= k < j ==> StartsWithHash(lines[k])
    ensures r == Ok(None) <==>
              ScanLimit <= |lines| && forall k :: 0 <= k < ScanLimit ==> StartsWithHash(lines[k])
    ensures r.Err? ==>
              && r.error == IndexError
              && exists j :: 0 <= j && ScanFailsAt(lines, j)
  {
    ScanFrom(lines, 0)
  }

  /** Where parsing starts. In Python 2 `line < None` is false for every line number, so a file
      whose first `ScanLimit` lines are all comments is parsed from its first line. */
  function StartIndex(start: Option<nat>): nat {
    if start.Some? then start.value else 0
  }

  /** `[int(temp[1]), temp[4], float(temp[5])]` for the fields `temp` of one line, with Python's
      evaluation order deciding which exception a malformed line raises. */
  function ParseFields(temp: seq<string>): (r: Result<Record>)
    ensures r.Ok? <==> |temp| >= 6 && ParseInt(temp[1]).Ok? && ParseDecimal(temp[5]).Ok?
    ensures r.Ok? ==> r.value == Record(ParseInt(temp[1]).value, temp[4], ParseDecimal(temp[5]).value)
    ensures |temp| < 2 ==> r == Err(IndexError)
  {
    if |temp| < 2 then Err(IndexError)
    else
      var segId :- ParseInt(temp[1]);
      if |temp| < 6 then Err(IndexError)
      else
        var value :- ParseDecimal(temp[5]);
        Ok(Record(segId, temp[4], value))
  }

  /** One data line. The source splits `line.strip('\n')`; stripping never changes the fields
      (`ParseLineAsWritten`), so the fields are `line.split()`. */
  function ParseLine(line: string): (r: Result<Record>)
    ensures var f := Split(line);
            r.Ok? <==> |f| >= 6 && ParseInt(f[1]).Ok? && ParseDecimal(f[5]).Ok?
    ensures var f := Split(line);
            r.Ok? ==> r.value == Record(ParseInt(f[1]).value, f[4], ParseDecimal(f[5]).value)
    ensures |Split(line)| < 2 ==> r == Err(IndexError)
  {
    ParseFields(Split(line))
  }

  /** Parsing the fields of `line.strip('\n').split()`, as the source does, gives the same result. */
  lemma ParseLineAsWritten(line: string)
    ensures ParseFields(Split(Strip(line, {'\n'}))) == ParseLine(line)
  {
    SplitIgnoresStrip(line, {'\n'});
  }

  /** Every line parsed in order; the first failing line's exception is the result. */
  function ParseLines(lines: seq<string>): (r: Result<seq<Record>>)
    ensures r.Ok? <==> forall i {:trigger ParseLine(lines[i])} :: 0 <= i < |lines| ==> ParseLine(lines[i]).Ok?
    ensures r.Ok? ==> |r.value| == |lines|
    ensures r.Ok? ==> forall i {:trigger ParseLine(lines[i])} :: 0 <= i < |lines| ==> r.value[i] == ParseLine(lines[i]).value
  {
    if |lines| == 0 then Ok([])
    else
      var first :- ParseLine(lines[0]);
      var rest :- ParseLines(lines[1..]);
      assert forall i :: 1 <= i < |lines| ==> lines[i] == lines[1..][i - 1];
      Ok([first] + rest)
  }

  lemma {:induction false} ParseLinesSuffix(lines: seq<string>, from: nat)
    requires from <= |lines|
    ensures var r := ParseLines(lines[from..]);
            r.Ok? ==> forall i :: from <= i < |lines| ==>
                        ParseLine(lines[i]).Ok? && r.value[i - from] == ParseLine(lines[i]).value
  {
    var tail := lines[from..];
    assert forall i :: from <= i < |lines| ==> lines[i] == tail[i - from];
  }

  /** The records of one statistics file: nothing for the comment header, one record per
      line from the start of the data on. An empty file is never scanned and gives no records. */
  function ParseStats(lines: seq<string>): (r: Result<seq<Record>>)
    ensures |lines| == 0 ==> r == Ok([])
    ensures |lines| > 0 ==>
              (r.Ok? <==> FindStartOfData(lines).Ok? && ParseLines(lines[StartIndex(FindStartOfData(lines).value)..]).Ok?)
  {
    if |lines| == 0 then Ok([])
    else
      var found := FindStartOfData(lines);
      if found.Err? then Err(found.error)
      else ParseLines(lines[StartIndex(found.value)..])
  }

  /** A file whose first `ScanLimit` lines are all comments is parsed from its first line on,
      comment lines included. */
  lemma {:induction false} ParseStatsAllComments(lines: seq<string>)
    requires |lines| > 0 && FindStartOfData(lines) == Ok(None)
    ensures ParseStats(lines) == ParseLines(lines)
  {
    assert lines[StartIndex(None)..] == lines;
  }

  /** A parsed file is its comment header followed by one record per remaining line, in order. */
  lemma {:induction false} ParseStatsLines(lines: seq<string>)
    requires |lines| > 0 && ParseStats(lines).Ok?
    ensures var from := StartIndex(FindStartOfData(lines).value);
            && from < |lines|
            && |ParseStats(lines).value| == |lines| - from
            && (forall k :: 0 <= k < from ==> StartsWithHash(lines[k]))
            && (forall i :: from <= i < |lines| ==>
                  ParseLine(lines[i]).Ok? && ParseStats(lines).value[i - from] == ParseLine(lines[i]).value)
  {
    ParseLinesSuffix(lines, StartIndex(FindStartOfData(lines).value));
  }

  /** Python's ordering of the lists `[segId, label, value]`: by id, then name, then value. */
  predicate RecordLe(a: Record, b: Record) {
    || a.segId < b.segId
    || (a.segId == b.segId && a.name != b.name && StrLe(a.name, b.name))
    || (a.segId == b.segId && a.name == b.name && a.value <= b.value)
  }

  lemma RecordLeTotalOrder()
    ensures TotalOrder(RecordLe)
  {
    forall x: Record ensures RecordLe(x, x) {
    }
    forall x: Record, y: Record | RecordLe(x, y) && RecordLe(y, x) ensures x == y {
      if x.segId == y.segId && x.name != y.name {
        StrLeAntisym(x.name, y.name);
      }
    }
    forall x: Record, y: Record, z: Record | RecordLe(x, y) && RecordLe(y, z) ensures RecordLe(x, z) {
      if x.segId == y.segId == z.segId && x.name != y.name && y.name != z.name {
        StrLeTrans(x.name, y.name, z.name);
        if x.name == z.name {
          StrLeAntisym(x.name, y.name);
        }
      }
    }
    forall x: Record, y: Record ensures RecordLe(x, y) || RecordLe(y, x) {
      StrLeTotal(x.name, y.name);
    }
  }

  /** Sorting the merged records and dropping adjacent repeats leaves each distinct record once, in order. */
  function SortUnique(s: seq<Record>): (r: seq<Record>)
    ensures StrictlySorted(RecordLe, r)
    ensures forall x :: x in r <==> x in s
  {
    RecordLeTotalOrder();
    var sorted := Sort(RecordLe, s);
    DedupOfSorted(RecordLe, sorted);
    DedupMembers(sorted);
    SameElements(s, sorted);
    Dedup(sorted)
  }

  lemma {:induction false} SameElements(s: seq<Record>, t: seq<Record>)
    requires multiset(s) == multiset(t)
    ensures forall x :: x in s <==> x in t
  {
    forall x ensures x in s <==> x in t {
      assert x in s <==> x in multiset(s);
      assert x in t <==> x in multiset(t);
    }
  }

  /** One subject's records: both files parsed (the original parcellation first), concatenated,
      sorted, and adjacent repeats dropped. */
  function SubjectRecords(orig: seq<string>, a2009: seq<string>): (r: Result<seq<Record>>)
    ensures r.Ok? <==> ParseStats(orig).Ok? && ParseStats(a2009).Ok?
  {
    var data :- ParseStats(orig);
    var data2009 :- ParseStats(a2009);
    Ok(SortUnique(data + data2009))
  }

  /** A subject's records are strictly ordered and are exactly the records of its two files. */
  lemma {:induction false} SubjectRecordsSorted(orig: seq<string>, a2009: seq<string>)
    requires SubjectRecords(orig, a2009).Ok?
    ensures StrictlySorted(RecordLe, SubjectRecords(orig, a2009).value)
    ensures forall x :: x in SubjectRecords(orig, a2009).value <==>
              x in ParseStats(orig).value + ParseStats(a2009).value
  {
  }
}
