/** The pure part of `get_subject_info` in example_fMRI_1_first_level.py: the onset lines of the
    eight `onset_run0<run>_cond0<cond>.txt` files become tagged onsets, the onsets are routed into
    four buckets (run 1 / run 2 by congruent / incongruent), each bucket is sorted, and the
    buckets are packaged as one record per run. */
module Onsets {
  import opened Results
  import opened Text
  import opened Numbers
  import opened Sorting

  /** One kept onset line: its condition tag (`cond001` ...), run tag (`run001` ...) and onset time. */
  datatype Onset = Onset(cond: string, run: string, time: real)

  /** The runs and conditions in the order the two nested loops visit them. */
  const Runs: seq<string> := ["01", "02"]
  const Conds: seq<string> := ["01", "02", "03", "04"]

  /** The second field that marks a line as carrying no onset. */
  const NoOnset: string := "0.00"

  /** The lines of the onset file for a run and a condition; the file reading itself is not modelled. */
  type OnsetFiles = (string, string) -> seq<string>

  /** The fields `info` of one onset line: `info[1]` is read first (IndexError when there are
      fewer than two fields), and only a line whose second field is not `0.00` yields an onset,
      `float(info[0])`. */
  function ParseOnsetFields(info: seq<string>, run: string, cond: string): (r: Result<Option<Onset>>)
    ensures r == Err(IndexError) <==> |info| < 2
    ensures r == Ok(None) <==> |info| >= 2 && info[1] == NoOnset
    ensures r.Ok? && r.value.Some? <==> |info| >= 2 && info[1] != NoOnset && ParseDecimal(info[0]).Ok?
    ensures r.Ok? && r.value.Some? ==> r.value.value == Onset("cond0" + cond, "run0" + run, ParseDecimal(info[0]).value)
  {
    if |info| < 2 then Err(IndexError)
    else if info[1] != NoOnset then
      var t :- ParseDecimal(info[0]);
      Ok(Some(Onset("cond0" + cond, "run0" + run, t)))
    else Ok(None)
  }

  /** One line of an onset file. The source splits `line.strip()`; stripping never changes the
      fields (`ParseOnsetLineAsWritten`), so the fields are `line.split()`. */
  function ParseOnsetLine(line: string, run: string, cond: string): (r: Result<Option<Onset>>)
    ensures var f := Split(line);
            && (r == Err(IndexError) <==> |f| < 2)
            && (r == Ok(None) <==> |f| >= 2 && f[1] == NoOnset)
            && (r.Ok? && r.value.Some? <==> |f| >= 2 && f[1] != NoOnset && ParseDecimal(f[0]).Ok?)
            && (r.Ok? && r.value.Some? ==> r.value.value == Onset("cond0" + cond, "run0" + run, ParseDecimal(f[0]).value))
  {
    ParseOnsetFields(Split(line), run, cond)
  }

  /** Parsing the fields of `line.strip().split()`, as the source does, gives the same result. */
  lemma ParseOnsetLineAsWritten(line: string, run: string, cond: string)
    ensures ParseOnsetFields(Split(Strip(line, Whitespace)), run, cond) == ParseOnsetLine(line, run, cond)
  {
    SplitIgnoresStrip(line, Whitespace);
  }

  /** A line carries an onset: at least two fields, the second not `0.00`. */
  predicate HasOnset(line: string) {
    var f := Split(line);
    |f| >= 2 && f[1] != NoOnset
  }

  /** The lines of a file that carry an onset, in line order. */
  function Kept(lines: seq<string>): (k: seq<string>)
    ensures |k| <= |lines|
  {
    if |lines| == 0 then []
    else (if HasOnset(lines[0]) then [lines[0]] else []) + Kept(lines[1..])
  }

  /** `Kept` is a filter: a line is kept exactly when it is a line of the file that carries an onset. */
  lemma {:induction false} KeptMembers(lines: seq<string>)
    ensures forall x :: x in Kept(lines) <==> x in lines && HasOnset(x)
  {
    if |lines| > 0 {
      KeptMembers(lines[1..]);
      assert lines == [lines[0]] + lines[1..];
    }
  }

  /** The onsets of one file, in line order: one per kept line; the first line that fails
      aborts the whole call. */
  function FileOnsets(lines: seq<string>, run: string, cond: string): (r: Result<seq<Onset>>)
    ensures r.Ok? <==> forall i :: 0 <= i < |lines| ==> ParseOnsetLine(lines[i], run, cond).Ok?
  {
    if |lines| == 0 then Ok([])
    else
      var first :- ParseOnsetLine(lines[0], run, cond);
      var rest :- FileOnsets(lines[1..], run, cond);
      assert forall i :: 1 <= i < |lines| ==> lines[i] == lines[1..][i - 1];
      if first.Some? then Ok([first.value] + rest) else Ok(rest)
  }

  /** A file's onsets are those of its kept lines, one each, in line order. */
  lemma {:induction false} FileOnsetsKept(lines: seq<string>, run: string, cond: string)
    requires FileOnsets(lines, run, cond).Ok?
    ensures |FileOnsets(lines, run, cond).value| == |Kept(lines)|
    ensures forall k {:trigger Kept(lines)[k]} :: 0 <= k < |Kept(lines)| ==>
              ParseOnsetLine(Kept(lines)[k], run, cond) == Ok(Some(FileOnsets(lines, run, cond).value[k]))
  {
    if |lines| > 0 {
      var tail := lines[1..];
      FileOnsetsKept(tail, run, cond);
      var rest := FileOnsets(tail, run, cond).value;
      var kept := Kept(tail);
      KeptHead(lines, run, cond);
      var first := ParseOnsetLine(lines[0], run, cond).value;
      if first.Some? {
        var r := [first.value] + rest;
        assert FileOnsets(lines, run, cond).value == r;
        assert Kept(lines) == [lines[0]] + kept;
        forall k | 0 <= k < |r| ensures ParseOnsetLine(Kept(lines)[k], run, cond) == Ok(Some(r[k])) {
          if k > 0 {
            assert Kept(lines)[k] == kept[k - 1] && r[k] == rest[k - 1];
          }
        }
      } else {
        assert FileOnsets(lines, run, cond).value == rest;
        assert Kept(lines) == kept;
      }
    }
  }

  /** Every onset of a file carries the file's condition and run tags. */
  lemma FileOnsetTags(lines: seq<string>, run: string, cond: string)
    requires FileOnsets(lines, run, cond).Ok?
    ensures forall o :: o in FileOnsets(lines, run, cond).value ==> o.cond == "cond0" + cond && o.run == "run0" + run
  {
    var os := FileOnsets(lines, run, cond).value;
    FileOnsetsKept(lines, run, cond);
    forall o | o in os ensures o.cond == "cond0" + cond && o.run == "run0" + run {
      var m :| 0 <= m < |os| && os[m] == o;
      assert ParseOnsetLine(Kept(lines)[m], run, cond) == Ok(Some(o));
    }
  }

  lemma {:induction false} KeptHead(lines: seq<string>, run: string, cond: string)
    requires |lines| > 0 && ParseOnsetLine(lines[0], run, cond).Ok?
    ensures Kept(lines) == (if ParseOnsetLine(lines[0], run, cond).value.Some? then [lines[0]] else []) + Kept(lines[1..])
  {
  }

  /** The `(run, cond)` pairs the two nested loops visit, run-major. */
  const Pairs: seq<(string, string)> :=
    [("01", "01"), ("01", "02"), ("01", "03"), ("01", "04"),
     ("02", "01"), ("02", "02"), ("02", "03"), ("02", "04")]

  lemma PairsAreLoopOrder()
    ensures |Pairs| == |Runs| * |Conds|
    ensures forall k :: 0 <= k < |Pairs| ==> Pairs[k] == (Runs[k / |Conds|], Conds[k % |Conds|])
  {
  }

  /** `onset_info` built from the given files, one file after another. */
  function CollectFrom(files: OnsetFiles, pairs: seq<(string, string)>): (r: Result<seq<Onset>>)
    ensures r.Ok? <==> forall k :: 0 <= k < |pairs| ==> FileOnsets(files(pairs[k].0, pairs[k].1), pairs[k].0, pairs[k].1).Ok?
  {
    if |pairs| == 0 then Ok([])
    else
      var p := pairs[0];
      var first :- FileOnsets(files(p.0, p.1), p.0, p.1);
      var rest :- CollectFrom(files, pairs[1..]);
      assert forall k :: 1 <= k < |pairs| ==> pairs[k] == pairs[1..][k - 1];
      Ok(first + rest)
  }

  /** The onsets of file `pairs[k]`. */
  ghost function OnsetsOfFile(files: OnsetFiles, pairs: seq<(string, string)>, k: nat): seq<Onset>
    requires k < |pairs|
  {
    var p := pairs[k];
    var r := FileOnsets(files(p.0, p.1), p.0, p.1);
    if r.Ok? then r.value else []
  }

  /** `onset_info` as the two loops build it: after each visited file, that file's onsets are
      appended to the end. */
  ghost function LoopOnsets(files: OnsetFiles, pairs: seq<(string, string)>): seq<Onset>
  {
    if |pairs| == 0 then []
    else LoopOnsets(files, pairs[..|pairs| - 1]) + OnsetsOfFile(files, pairs, |pairs| - 1)
  }

  /** Visiting one more file appends that file's onsets. */
  lemma {:induction false} CollectFromAppend(files: OnsetFiles, pairs: seq<(string, string)>, p: (string, string))
    requires CollectFrom(files, pairs + [p]).Ok?
    ensures CollectFrom(files, pairs).Ok? && FileOnsets(files(p.0, p.1), p.0, p.1).Ok?
    ensures CollectFrom(files, pairs + [p]).value == CollectFrom(files, pairs).value + FileOnsets(files(p.0, p.1), p.0, p.1).value
  {
    var all := pairs + [p];
    assert all[|pairs|] == p;
    if |pairs| > 0 {
      assert all[1..] == pairs[1..] + [p];
      CollectFromAppend(files, pairs[1..], p);
      assert all[0] == pairs[0];
    } else {
      assert all[1..] == [];
    }
  }

  /** `onset_info` is exactly what the loops build: every file's onsets, each as often as the file
      yields it, file after file in visiting order. */
  lemma {:induction false} CollectFromIsLoop(files: OnsetFiles, pairs: seq<(string, string)>)
    requires CollectFrom(files, pairs).Ok?
    ensures CollectFrom(files, pairs).value == LoopOnsets(files, pairs)
  {
    if |pairs| > 0 {
      var init := pairs[..|pairs| - 1];
      var p := pairs[|pairs| - 1];
      assert pairs == init + [p];
      CollectFromAppend(files, init, p);
      CollectFromIsLoop(files, init);
    }
  }

  /** `onset_info` holds exactly the onsets of the files. */
  lemma {:induction false} CollectFromMembers(files: OnsetFiles, pairs: seq<(string, string)>)
    requires CollectFrom(files, pairs).Ok?
    ensures forall o :: o in CollectFrom(files, pairs).value <==>
              exists k :: 0 <= k < |pairs| && o in OnsetsOfFile(files, pairs, k)
  {
    if |pairs| > 0 {
      var tail := pairs[1..];
      CollectFromMembers(files, tail);
      assert forall k :: 1 <= k < |pairs| ==> OnsetsOfFile(files, pairs, k) == OnsetsOfFile(files, tail, k - 1);
      var r := CollectFrom(files, pairs).value;
      assert r == OnsetsOfFile(files, pairs, 0) + CollectFrom(files, tail).value;
      forall o | o in r ensures exists k :: 0 <= k < |pairs| && o in OnsetsOfFile(files, pairs, k) {
        if o !in OnsetsOfFile(files, pairs, 0) {
          var k :| 0 <= k < |tail| && o in OnsetsOfFile(files, tail, k);
          assert o in OnsetsOfFile(files, pairs, k + 1);
        }
      }
      forall o | exists k :: 0 <= k < |pairs| && o in OnsetsOfFile(files, pairs, k) ensures o in r {
        var k :| 0 <= k < |pairs| && o in OnsetsOfFile(files, pairs, k);
        if k > 0 {
          assert o in OnsetsOfFile(files, tail, k - 1);
        }
      }
    }
  }

  /** `onset_info` for the eight files. */
  function CollectOnsets(files: OnsetFiles): (r: Result<seq<Onset>>)
    ensures r.Ok? <==> forall k :: 0 <= k < |Pairs| ==> FileOnsets(files(Pairs[k].0, Pairs[k].1), Pairs[k].0, Pairs[k].1).Ok?
    ensures r.Ok? ==> forall o :: o in r.value ==> Routed(o)
  {
    CollectedRouted(files);
    CollectFrom(files, Pairs)
  }

  lemma {:induction false} CollectedRouted(files: OnsetFiles)
    ensures var r := CollectFrom(files, Pairs);
            r.Ok? ==> forall o :: o in r.value ==> Routed(o)
  {
    var r := CollectFrom(files, Pairs);
    if r.Ok? {
      CollectFromMembers(files, Pairs);
      forall o | o in r.value ensures Routed(o) {
        var k :| 0 <= k < |Pairs| && o in OnsetsOfFile(files, Pairs, k);
        var p := Pairs[k];
        FileOnsetTags(files(p.0, p.1), p.0, p.1);
        assert o == Onset("cond0" + p.1, "run0" + p.0, o.time);
        PairTagsRouted(k);
      }
    }
  }

  // ---------------------------------------------------------------------------
  // Routing into buckets

  /** Bucket 0: run 1 congruent, 1: run 1 incongruent, 2: run 2 congruent, 3: run 2 incongruent. */
  const BucketCount: nat := 4

  predicate Congruent(cond: string) {
    cond == "cond001" || cond == "cond002"
  }

  predicate Incongruent(cond: string) {
    cond == "cond003" || cond == "cond004"
  }

  /** The bucket an onset goes to, if any: the run decides the pair, the condition the half. */
  function BucketOf(o: Onset): (b: Option<nat>)
    ensures b.Some? ==> b.value < BucketCount
    ensures b.Some? <==> (o.run == "run001" || o.run == "run002") && (Congruent(o.cond) || Incongruent(o.cond))
    ensures b.Some? ==> (b.value < 2 <==> o.run == "run001") && (b.value % 2 == 0 <==> Congruent(o.cond))
  {
    var base := if o.run == "run001" then Some(0) else if o.run == "run002" then Some(2) else None;
    if base.None? then None
    else if Congruent(o.cond) then Some(base.value)
    else if Incongruent(o.cond) then Some(base.value + 1)
    else None
  }

  predicate Routed(o: Onset) {
    BucketOf(o).Some?
  }

  /** Every file the loops open tags its onsets with a run and condition that have a bucket:
      conditions 01 and 02 go to the congruent and 03 and 04 to the incongruent bucket of their run. */
  lemma {:induction false} PairTagsRouted(k: nat)
    requires k < |Pairs|
    ensures forall t :: BucketOf(Onset("cond0" + Pairs[k].1, "run0" + Pairs[k].0, t)) ==
              Some(2 * (k / |Conds|) + (if k % |Conds| < 2 then 0 else 1))
  {
    var p := Pairs[k];
    var runTag := "run0" + p.0;
    var condTag := "cond0" + p.1;
    assert runTag == (if k < 4 then "run001" else "run002");
    assert condTag == ['c', 'o', 'n', 'd', '0', '0', p.1[1]];
  }

  /** The onset times of bucket `b`, in `onset_info` order: the reference the loop is checked against. */
  function BucketTimes(onsets: seq<Onset>, b: nat): (ts: seq<real>)
    ensures |ts| <= |onsets|
  {
    if |onsets| == 0 then []
    else (if BucketOf(onsets[0]) == Some(b) then [onsets[0].time] else []) + BucketTimes(onsets[1..], b)
  }

  /** The `for info in onset_info` loop: each onset is appended to the end of its bucket; an onset
      with no bucket is skipped. */
  function Distribute(onsets: seq<Onset>): (buckets: seq<seq<real>>)
    ensures |buckets| == BucketCount
    decreases |onsets|
  {
    if |onsets| == 0 then seq(BucketCount, _ => [])
    else
      var before := Distribute(onsets[..|onsets| - 1]);
      var o := onsets[|onsets| - 1];
      match BucketOf(o)
      case None => before
      case Some(b) => before[b := before[b] + [o.time]]
  }

  lemma {:induction false} BucketTimesAppend(a: seq<Onset>, o: Onset, b: nat)
    ensures BucketTimes(a + [o], b) == BucketTimes(a, b) + (if BucketOf(o) == Some(b) then [o.time] else [])
  {
    if |a| > 0 {
      assert (a + [o])[1..] == a[1..] + [o];
      BucketTimesAppend(a[1..], o, b);
    } else {
      assert a + [o] == [o];
    }
  }

  /** The loop fills each bucket with exactly the onsets routed to it, in `onset_info` order. */
  lemma {:induction false} DistributeIsBucketTimes(onsets: seq<Onset>)
    ensures forall b :: 0 <= b < BucketCount ==> Distribute(onsets)[b] == BucketTimes(onsets, b)
    decreases |onsets|
  {
    if |onsets| > 0 {
      var init := onsets[..|onsets| - 1];
      var o := onsets[|onsets| - 1];
      DistributeIsBucketTimes(init);
      assert onsets == init + [o];
      forall b | 0 <= b < BucketCount ensures Distribute(onsets)[b] == BucketTimes(onsets, b) {
        BucketTimesAppend(init, o, b);
      }
    }
  }

  /** All times of routed onsets, in order. */
  function RoutedTimes(onsets: seq<Onset>): seq<real> {
    if |onsets| == 0 then []
    else (if Routed(onsets[0]) then [onsets[0].time] else []) + RoutedTimes(onsets[1..])
  }

  /** The four buckets split the routed onsets: none is lost and none is counted twice. */
  lemma {:induction false} BucketsPartition(onsets: seq<Onset>)
    ensures multiset(BucketTimes(onsets, 0)) + multiset(BucketTimes(onsets, 1))
            + multiset(BucketTimes(onsets, 2)) + multiset(BucketTimes(onsets, 3))
            == multiset(RoutedTimes(onsets))
  {
    if |onsets| > 0 {
      var tail := onsets[1..];
      BucketsPartition(tail);
      var o := onsets[0];
      BucketTimesHead(onsets, 0);
      BucketTimesHead(onsets, 1);
      BucketTimesHead(onsets, 2);
      BucketTimesHead(onsets, 3);
      OneBucket(o);
      Regroup(Share(o, BucketOf(o) == Some(0)), Share(o, BucketOf(o) == Some(1)),
              Share(o, BucketOf(o) == Some(2)), Share(o, BucketOf(o) == Some(3)),
              multiset(BucketTimes(tail, 0)), multiset(BucketTimes(tail, 1)),
              multiset(BucketTimes(tail, 2)), multiset(BucketTimes(tail, 3)));
      assert multiset(RoutedTimes(onsets)) == Share(o, BucketOf(o).Some?) + multiset(RoutedTimes(tail));
    }
  }

  /** Multiset union regrouped: four pairwise sums add up to the sum of the firsts plus the sum of the seconds. */
  lemma Regroup<T>(s0: multiset<T>, s1: multiset<T>, s2: multiset<T>, s3: multiset<T>,
                   t0: multiset<T>, t1: multiset<T>, t2: multiset<T>, t3: multiset<T>)
    ensures (s0 + t0) + (s1 + t1) + (s2 + t2) + (s3 + t3) == (s0 + s1 + s2 + s3) + (t0 + t1 + t2 + t3)
  {
  }

  /** `{t}` when the condition holds, else the empty multiset. */
  function Share(o: Onset, keep: bool): multiset<real> {
    if keep then multiset{o.time} else multiset{}
  }

  /** A routed onset lands in exactly one bucket, an unrouted one in none. */
  lemma OneBucket(o: Onset)
    ensures Share(o, BucketOf(o) == Some(0)) + Share(o, BucketOf(o) == Some(1))
            + Share(o, BucketOf(o) == Some(2)) + Share(o, BucketOf(o) == Some(3))
            == Share(o, BucketOf(o).Some?)
  {
    match BucketOf(o)
    case None =>
    case Some(b) =>
      assert b < BucketCount;
  }

  lemma {:induction false} BucketTimesHead(onsets: seq<Onset>, b: nat)
    requires |onsets| > 0
    ensures multiset(BucketTimes(onsets, b)) == Share(onsets[0], BucketOf(onsets[0]) == Some(b)) + multiset(BucketTimes(onsets[1..], b))
  {
  }

  /** When every onset is routed, the buckets hold exactly the onset times. */
  lemma {:induction false} AllRoutedTimes(onsets: seq<Onset>)
    requires forall o :: o in onsets ==> Routed(o)
    ensures RoutedTimes(onsets) == seq(|onsets|, i requires 0 <= i < |onsets| => onsets[i].time)
  {
    if |onsets| > 0 {
      assert forall o :: o in onsets[1..] ==> o in onsets;
      AllRoutedTimes(onsets[1..]);
      assert onsets[0] in onsets;
    }
  }

  // ---------------------------------------------------------------------------
  // Sorting and packaging

  /** Python's `<=` on onset times (non-NaN floats). */
  predicate TimeLe(a: real, b: real) {
    a <= b
  }

  lemma TimeLeTotalOrder()
    ensures TotalOrder(TimeLe)
  {
  }

  /** `sorted(bucket)`. */
  function SortTimes(ts: seq<real>): (r: seq<real>)
    ensures Sorted(TimeLe, r)
    ensures multiset(r) == multiset(ts)
  {
    TimeLeTotalOrder();
    Sort(TimeLe, ts)
  }

  /** One entry of `subjectinfo`: the `Bunch` of one run. The fields the script sets to `None` are
      not represented. */
  datatype RunInfo = RunInfo(conditions: seq<string>, onsets: seq<seq<real>>, durations: seq<seq<int>>)

  const ConditionNames: seq<string> := ["congruent", "incongruent"]

  /** The `for r in range(2)` loop: run `r` gets the onset lists `2 r` and `2 r + 1`. */
  function Package(lists: seq<seq<real>>): (info: seq<RunInfo>)
    requires |lists| == BucketCount
    ensures |info| == 2
    ensures forall run :: 0 <= run < 2 ==>
              info[run].conditions == ConditionNames && info[run].durations == [[0], [0]] && |info[run].onsets| == 2
    ensures forall run, c :: 0 <= run < 2 && 0 <= c < 2 ==> info[run].onsets[c] == lists[2 * run + c]
  {
    [RunInfo(ConditionNames, [lists[0], lists[1]], [[0], [0]]),
     RunInfo(ConditionNames, [lists[2], lists[3]], [[0], [0]])]
  }

  /** The routing, sorting and packaging that follow the reading of the files. */
  function RunInfos(onsets: seq<Onset>): (info: seq<RunInfo>)
    ensures |info| == 2
    ensures forall run :: 0 <= run < 2 ==>
              info[run].conditions == ConditionNames && info[run].durations == [[0], [0]] && |info[run].onsets| == 2
    ensures forall run, c :: 0 <= run < 2 && 0 <= c < 2 ==>
              && Sorted(TimeLe, info[run].onsets[c])
              && multiset(info[run].onsets[c]) == multiset(BucketTimes(onsets, 2 * run + c))
  {
    var buckets := Distribute(onsets);
    var lists := seq(BucketCount, b requires 0 <= b < BucketCount => SortTimes(buckets[b]));
    SortedBuckets(onsets, lists);
    Package(lists)
  }

  /** Sorting the buckets the loop filled gives, per bucket, a sorted permutation of that bucket's onset times. */
  lemma SortedBuckets(onsets: seq<Onset>, lists: seq<seq<real>>)
    requires |lists| == BucketCount
    requires forall b :: 0 <= b < BucketCount ==> lists[b] == SortTimes(Distribute(onsets)[b])
    ensures forall b :: 0 <= b < BucketCount ==>
              Sorted(TimeLe, lists[b]) && multiset(lists[b]) == multiset(BucketTimes(onsets, b))
  {
    DistributeIsBucketTimes(onsets);
  }

  /** `get_subject_info` on the eight onset files: it fails exactly when reading a file fails, and
      otherwise gives two runs, each with the two condition names, zero durations and, per
      condition, the sorted onset times of its bucket. */
  function SubjectInfo(files: OnsetFiles): (r: Result<seq<RunInfo>>)
    ensures r.Ok? <==> CollectOnsets(files).Ok?
    ensures r.Ok? ==> |r.value| == 2
    ensures r.Ok? ==> forall run :: 0 <= run < 2 ==>
              r.value[run].conditions == ConditionNames && r.value[run].durations == [[0], [0]] && |r.value[run].onsets| == 2
    ensures r.Ok? ==> forall run, c :: 0 <= run < 2 && 0 <= c < 2 ==>
              && Sorted(TimeLe, r.value[run].onsets[c])
              && multiset(r.value[run].onsets[c]) == multiset(BucketTimes(CollectOnsets(files).value, 2 * run + c))
  {
    var onsetInfo :- CollectOnsets(files);
    Ok(RunInfos(onsetInfo))
  }

  /** No kept onset is lost or duplicated: the four onset lists of the result together hold every
      onset time of `onset_info`, each as often as it occurs there. */
  lemma {:induction false} SubjectInfoKeepsEveryOnset(files: OnsetFiles)
    requires CollectOnsets(files).Ok?
    ensures var info := SubjectInfo(files).value;
            var onsets := CollectOnsets(files).value;
            multiset(info[0].onsets[0]) + multiset(info[0].onsets[1])
            + multiset(info[1].onsets[0]) + multiset(info[1].onsets[1])
            == multiset(seq(|onsets|, i requires 0 <= i < |onsets| => onsets[i].time))
  {
    var onsets := CollectOnsets(files).value;
    BucketsPartition(onsets);
    AllRoutedTimes(onsets);
  }

  /** Each onset list of the result is exactly `sorted()` of its bucket: under a total order the
      sorted permutation is unique. */
  lemma {:induction false} SubjectInfoSortedBuckets(files: OnsetFiles, run: nat, c: nat, python: seq<real>)
    requires CollectOnsets(files).Ok? && run < 2 && c < 2
    requires Sorted(TimeLe, python)
    requires multiset(python) == multiset(BucketTimes(CollectOnsets(files).value, 2 * run + c))
    ensures SubjectInfo(files).value[run].onsets[c] == python
  {
    TimeLeTotalOrder();
    SortedUnique(TimeLe, SubjectInfo(files).value[run].onsets[c], python);
  }
}
