/** Sorting under a total order and removal of adjacent duplicates, as Python's
    `list.sort()`, `sorted()` and the scripts' dedup loop do them. */
module Sorting {

  /** `le` is a total order: reflexive, antisymmetric, transitive and total. */
  ghost predicate TotalOrder<T(!new)>(le: (T, T) -> bool) {
    && (forall x :: le(x, x))
    && (forall x, y :: le(x, y) && le(y, x) ==> x == y)
    && (forall x, y, z :: le(x, y) && le(y, z) ==> le(x, z))
    && (forall x, y :: le(x, y) || le(y, x))
  }

  ghost predicate Sorted<T>(le: (T, T) -> bool, s: seq<T>) {
    forall i, j :: 0 <= i < j < |s| ==> le(s[i], s[j])
  }

  /** Sorted with no element repeated: every element is strictly below every later one. */
  ghost predicate StrictlySorted<T>(le: (T, T) -> bool, s: seq<T>) {
    forall i, j :: 0 <= i < j < |s| ==> le(s[i], s[j]) && s[i] != s[j]
  }

  /** `x` placed into the sorted `s` in front of the first element it does not exceed. */
  function Insert<T(!new)>(le: (T, T) -> bool, x: T, s: seq<T>): (r: seq<T>)
    requires TotalOrder(le)
    requires Sorted(le, s)
    ensures Sorted(le, r)
    ensures multiset(r) == multiset(s) + multiset{x}
  {
    if |s| == 0 || le(x, s[0]) then [x] + s
    else
      var rest := Insert(le, x, s[1..]);
      assert s == [s[0]] + s[1..];
      assert forall k :: 0 <= k < |rest| ==> le(s[0], rest[k]) by {
        forall k | 0 <= k < |rest| ensures le(s[0], rest[k]) {
          assert rest[k] in multiset(rest);
          if rest[k] != x {
            assert rest[k] in multiset(s[1..]);
            var m :| 0 <= m < |s[1..]| && s[1..][m] == rest[k];
            assert s[1..][m] == s[m + 1];
          }
        }
      }
      [s[0]] + rest
  }

  /** The elements of `s` in ascending order. */
  function Sort<T(!new)>(le: (T, T) -> bool, s: seq<T>): (r: seq<T>)
    requires TotalOrder(le)
    ensures Sorted(le, r)
    ensures multiset(r) == multiset(s)
  {
    if |s| == 0 then []
    else
      assert s == [s[0]] + s[1..];
      Insert(le, s[0], Sort(le, s[1..]))
  }

  /** Under a total order, a sorted permutation is unique: any correct sorting routine
      (Python's included) returns exactly what `Sort` returns. */
  lemma {:induction false} SortedUnique<T(!new)>(le: (T, T) -> bool, a: seq<T>, b: seq<T>)
    requires TotalOrder(le)
    requires Sorted(le, a) && Sorted(le, b)
    requires multiset(a) == multiset(b)
    ensures a == b
  {
    if |a| == 0 {
      assert |b| == |multiset(b)| == 0;
    } else {
      assert |b| == |multiset(b)| == |multiset(a)| == |a|;
      assert a[0] in multiset(a) && b[0] in multiset(b);
      HeadIsLeast(le, b, a[0]);
      HeadIsLeast(le, a, b[0]);
      assert a[0] == b[0];
      assert a == [a[0]] + a[1..];
      assert b == [b[0]] + b[1..];
      assert multiset(a[1..]) == multiset(a) - multiset{a[0]};
      assert multiset(b[1..]) == multiset(b) - multiset{b[0]};
      SortedUnique(le, a[1..], b[1..]);
    }
  }

  lemma {:induction false} HeadIsLeast<T>(le: (T, T) -> bool, a: seq<T>, x: T)
    requires (forall y :: le(y, y)) && Sorted(le, a)
    requires x in multiset(a)
    ensures le(a[0], x)
  {
    var i :| 0 <= i < |a| && a[i] == x;
    if i > 0 {
      assert le(a[0], a[i]);
    }
  }

  /** Python's `sort()` result for `s`, characterised without naming an algorithm. */
  lemma {:induction false} SortIsTheSortedPermutation<T(!new)>(le: (T, T) -> bool, s: seq<T>, r: seq<T>)
    requires TotalOrder(le)
    requires Sorted(le, r) && multiset(r) == multiset(s)
    ensures r == Sort(le, s)
  {
    SortedUnique(le, r, Sort(le, s));
  }

  /** The scripts' dedup loop: keep `s[i]` unless `i > 0` and it equals its predecessor `s[i-1]`. */
  function Dedup<T(==)>(s: seq<T>): (r: seq<T>)
    ensures |r| <= |s|
    ensures |s| > 0 ==> |r| > 0 && r[|r| - 1] == s[|s| - 1]
    ensures NoAdjacentRepeats(r)
  {
    if |s| <= 1 then s
    else
      var p := Dedup(s[..|s| - 1]);
      assert forall i :: 0 <= i < |s| - 1 ==> s[i] == s[..|s| - 1][i];
      if s[|s| - 1] == s[|s| - 2] then p else p + [s[|s| - 1]]
  }

  /** No two neighbours are equal. */
  predicate NoAdjacentRepeats<T(==)>(s: seq<T>) {
    forall i :: 0 <= i < |s| - 1 ==> s[i] != s[i + 1]
  }

  /** One step of the loop, from the back: the last entry is kept exactly when it differs from
      the one before it. */
  lemma DedupStep<T>(s: seq<T>)
    requires |s| > 1
    ensures Dedup(s) == if s[|s| - 1] == s[|s| - 2] then Dedup(s[..|s| - 1]) else Dedup(s[..|s| - 1]) + [s[|s| - 1]]
  {
  }

  /** A list without adjacent repeats passes through the loop unchanged. */
  lemma {:induction false} DedupKeepsNonRepeats<T>(s: seq<T>)
    requires NoAdjacentRepeats(s)
    ensures Dedup(s) == s
  {
    if |s| > 1 {
      var q := s[..|s| - 1];
      assert NoAdjacentRepeats(q) by {
        forall i | 0 <= i < |q| - 1 ensures q[i] != q[i + 1] {
          assert q[i] == s[i] && q[i + 1] == s[i + 1];
        }
      }
      DedupKeepsNonRepeats(q);
      DedupStep(s);
      assert q + [s[|s| - 1]] == s;
    }
  }

  /** Collapsing one adjacent repeat does not change the result: an entry equal to its
      predecessor is dropped, wherever it stands. With `DedupKeepsNonRepeats` this fixes `Dedup`
      on every input. */
  lemma {:induction false} DedupDropsRepeat<T>(a: seq<T>, x: T, b: seq<T>)
    ensures Dedup(a + [x, x] + b) == Dedup(a + [x] + b)
    decreases |b|
  {
    if |b| == 0 {
      assert a + [x, x] + b == (a + [x]) + [x] && a + [x] + b == a + [x];
      DedupAppend(a + [x], x);
    } else {
      var b' := b[..|b| - 1];
      DedupDropsRepeat(a, x, b');
      PeelLast(a, x, b);
      DedupSameLast(a + [x, x] + b', a + [x] + b', b[|b| - 1]);
    }
  }

  /** The list facts `DedupDropsRepeat` needs to peel the last entry off `b`. */
  lemma PeelLast<T>(a: seq<T>, x: T, b: seq<T>)
    requires |b| > 0
    ensures a + [x, x] + b == (a + [x, x] + b[..|b| - 1]) + [b[|b| - 1]]
    ensures a + [x] + b == (a + [x] + b[..|b| - 1]) + [b[|b| - 1]]
    ensures var l := a + [x, x] + b[..|b| - 1]; var s := a + [x] + b[..|b| - 1]; l[|l| - 1] == s[|s| - 1]
  {
    assert b == b[..|b| - 1] + [b[|b| - 1]];
  }

  /** Two lists with the same result and the same last entry keep the same result when one more
      entry is appended to both. */
  lemma DedupSameLast<T>(p: seq<T>, q: seq<T>, y: T)
    requires |p| > 0 && |q| > 0 && p[|p| - 1] == q[|q| - 1]
    requires Dedup(p) == Dedup(q)
    ensures Dedup(p + [y]) == Dedup(q + [y])
  {
    DedupAppend(p, y);
    DedupAppend(q, y);
  }

  /** `DedupStep` for a list written as a prefix and one more entry. */
  lemma DedupAppend<T>(p: seq<T>, y: T)
    requires |p| > 0
    ensures Dedup(p + [y]) == if y == p[|p| - 1] then Dedup(p) else Dedup(p) + [y]
  {
    var s := p + [y];
    assert s[..|s| - 1] == p;
    DedupStep(s);
  }

  /** No element is lost or added: the result holds exactly the values of the input. */
  lemma {:induction false} DedupMembers<T>(s: seq<T>)
    ensures forall x :: x in Dedup(s) <==> x in s
  {
    if |s| > 1 {
      var q := s[..|s| - 1];
      DedupMembers(q);
      DedupStep(s);
      assert s == q + [s[|s| - 1]];
      assert s[|s| - 2] in q;
    }
  }

  /** On a sorted list, dedup yields a strictly sorted list of the same elements: every value
      appears exactly once. */
  lemma {:induction false} DedupOfSorted<T(!new)>(le: (T, T) -> bool, s: seq<T>)
    requires TotalOrder(le)
    requires Sorted(le, s)
    ensures StrictlySorted(le, Dedup(s))
  {
    if |s| > 1 {
      var q := s[..|s| - 1];
      var p := Dedup(q);
      assert Sorted(le, q);
      DedupOfSorted(le, q);
      DedupMembers(q);
      if s[|s| - 1] != s[|s| - 2] {
        var r := p + [s[|s| - 1]];
        forall i, j | 0 <= i < j < |r| ensures le(r[i], r[j]) && r[i] != r[j] {
          if j == |r| - 1 {
            assert r[i] in q;
            var k :| 0 <= k < |q| && q[k] == r[i];
            assert le(s[k], s[|s| - 1]);
            assert le(s[k], s[|s| - 2]);
          }
        }
      }
    }
  }
}
