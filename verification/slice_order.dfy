/** The interleaved slice acquisition order handed to slice-timing correction in
    example_fMRI_1_first_level.py and tutorial_3_first_steps.py: all odd slice numbers
    ascending, then all even ones ascending. */
module SliceOrder {

  /** Python 2 `range(start, stop, step)` for a positive step: `start, start + step, ...` while
      below `stop`. */
  function Range(start: int, stop: int, step: nat): (r: seq<int>)
    requires step > 0
    ensures start >= stop ==> |r| == 0
    decreases stop - start
  {
    if start >= stop then [] else [start] + Range(start + step, stop, step)
  }

  /** Element `k` of the range is `start + k * step`. */
  lemma {:induction false} RangeElements(start: int, stop: int, step: nat)
    requires step > 0
    ensures forall k :: 0 <= k < |Range(start, stop, step)| ==> Range(start, stop, step)[k] == start + k * step
    decreases stop - start
  {
    if start < stop {
      var r := Range(start, stop, step);
      var rest := Range(start + step, stop, step);
      RangeElements(start + step, stop, step);
      forall k | 1 <= k < |r| ensures r[k] == start + k * step {
        assert r[k] == rest[k - 1];
        assert (k - 1) * step + step == k * step;
      }
    }
  }

  /** The range stops at the first value that reaches `stop`: its last element is below `stop`
      and one more step would reach it. */
  lemma {:induction false} RangeLength(start: int, stop: int, step: nat)
    requires step > 0 && start < stop
    ensures |Range(start, stop, step)| > 0
    ensures start + (|Range(start, stop, step)| - 1) * step < stop <= start + |Range(start, stop, step)| * step
    decreases stop - start
  {
    var n := |Range(start + step, stop, step)|;
    if start + step < stop {
      RangeLength(start + step, stop, step);
      assert start + n * step == start + step + (n - 1) * step;
      assert start + (n + 1) * step == start + step + n * step;
    }
  }

  /** `range(1, n + 1, 2) + range(2, n + 1, 2)`. */
  function InterleavedOrder(n: int): (r: seq<int>)
    ensures |r| == if n <= 0 then 0 else n
  {
    OddEvenCounts(n);
    Range(1, n + 1, 2) + Range(2, n + 1, 2)
  }

  /** Number of odd slice numbers in `1 .. n`. */
  function OddCount(n: int): nat {
    if n <= 0 then 0 else (n + 1) / 2
  }

  /** The order has one entry per slice, lists the odd slices `1, 3, ...` first and the even slices
      `2, 4, ...` after them. */
  lemma {:induction false} InterleavedShape(n: int)
    ensures |InterleavedOrder(n)| == if n <= 0 then 0 else n
    ensures forall k :: 0 <= k < OddCount(n) ==> InterleavedOrder(n)[k] == 2 * k + 1
    ensures forall k :: OddCount(n) <= k < |InterleavedOrder(n)| ==>
              InterleavedOrder(n)[k] == 2 * (k - OddCount(n)) + 2
  {
    var odd := Range(1, n + 1, 2);
    var even := Range(2, n + 1, 2);
    OddEvenCounts(n);
    RangeElements(1, n + 1, 2);
    RangeElements(2, n + 1, 2);
    var r := InterleavedOrder(n);
    forall k | OddCount(n) <= k < |r| ensures r[k] == 2 * (k - OddCount(n)) + 2 {
      assert r[k] == even[k - |odd|];
    }
  }

  /** How many odd and how many even slice numbers `1 .. n` has. */
  lemma {:induction false} OddEvenCounts(n: int)
    ensures |Range(1, n + 1, 2)| == OddCount(n)
    ensures |Range(2, n + 1, 2)| == if n <= 1 then 0 else n / 2
  {
    if n >= 1 {
      RangeLength(1, n + 1, 2);
    }
    if n >= 2 {
      RangeLength(2, n + 1, 2);
    }
  }

  /** Every slice number `1 .. n` occurs, and nothing else does. */
  lemma {:induction false} InterleavedMembers(n: int)
    ensures forall x :: x in InterleavedOrder(n) <==> 1 <= x <= n
  {
    InterleavedShape(n);
    var r := InterleavedOrder(n);
    var h := OddCount(n);
    forall x | 1 <= x <= n ensures x in r {
      if x % 2 == 1 {
        assert r[(x - 1) / 2] == x;
      } else {
        assert r[h + (x - 2) / 2] == x;
      }
    }
    forall x | x in r ensures 1 <= x <= n {
      var k :| 0 <= k < |r| && r[k] == x;
      if k < h { assert x == 2 * k + 1; } else { assert x == 2 * (k - h) + 2; }
    }
  }

  /** No slice number occurs twice: together with the length and the members, the order is a
      permutation of `1 .. n`. */
  lemma {:induction false} InterleavedDistinct(n: int)
    ensures forall i, j :: 0 <= i < j < |InterleavedOrder(n)| ==> InterleavedOrder(n)[i] != InterleavedOrder(n)[j]
  {
    InterleavedShape(n);
    var r := InterleavedOrder(n);
    var h := OddCount(n);
    forall i, j | 0 <= i < j < |r| ensures r[i] != r[j] {
      if j < h || h <= i {
      } else {
        assert r[i] % 2 == 1 && r[j] % 2 == 0;
      }
    }
  }

  /** The slice count both scripts use. */
  const NumberOfSlices: int := 40

  /** The reference slice both scripts pass to slice-timing correction. */
  const RefSlice: int := 2

  /** With 40 slices: 40 entries, `1, 3, ..., 39` then `2, 4, ..., 40`, each slice exactly once,
      and the reference slice is acquired. */
  lemma {:induction false} FortySlices()
    ensures |InterleavedOrder(NumberOfSlices)| == 40
    ensures InterleavedOrder(NumberOfSlices)[..20] == seq(20, k => 2 * k + 1)
    ensures InterleavedOrder(NumberOfSlices)[20..] == seq(20, k => 2 * k + 2)
    ensures forall i, j :: 0 <= i < j < 40 ==> InterleavedOrder(NumberOfSlices)[i] != InterleavedOrder(NumberOfSlices)[j]
    ensures forall x :: x in InterleavedOrder(NumberOfSlices) <==> 1 <= x <= 40
    ensures RefSlice in InterleavedOrder(NumberOfSlices)
  {
    EvenHalves(NumberOfSlices, 20);
    InterleavedMembers(NumberOfSlices);
    InterleavedDistinct(NumberOfSlices);
  }

  /** For an even slice count the two halves of the order are the odd and the even slices. */
  lemma {:induction false} EvenHalves(n: int, h: nat)
    requires n == 2 * h
    ensures |InterleavedOrder(n)| == n
    ensures InterleavedOrder(n)[..h] == seq(h, k => 2 * k + 1)
    ensures InterleavedOrder(n)[h..] == seq(h, k => 2 * k + 2)
  {
    var r := InterleavedOrder(n);
    InterleavedShape(n);
    assert OddCount(n) == h;
    forall k | 0 <= k < h ensures r[..h][k] == 2 * k + 1 && r[h..][k] == 2 * k + 2 {
      assert r[h..][k] == r[h + k];
    }
  }
}
