/** String handling of Python 2 byte strings: `split()`, `strip(chars)` and the
    lexicographic order used when lists holding strings are sorted. */
module Text {

  /** The bytes Python 2 `str.split()` and `str.strip()` treat as whitespace. */
  const Whitespace: set<char> := {' ', '\t', '\n', '\r', 11 as char, 12 as char}

  predicate IsSpace(c: char) {
    c in Whitespace
  }

  /** A field `split()` can return: non-empty and free of whitespace. */
  predicate IsWord(w: string) {
    |w| > 0 && forall i :: 0 <= i < |w| ==> !IsSpace(w[i])
  }

  predicate AllSpace(s: string) {
    forall i :: 0 <= i < |s| ==> IsSpace(s[i])
  }

  /** Length of the longest whitespace-free prefix of `s`. */
  function WordLen(s: string): (n: nat)
    ensures n <= |s|
    ensures forall i :: 0 <= i < n ==> !IsSpace(s[i])
    ensures n < |s| ==> IsSpace(s[n])
  {
    if |s| == 0 || IsSpace(s[0]) then 0 else 1 + WordLen(s[1..])
  }

  /** The characters of `s` that are not whitespace, in order. */
  function NonSpace(s: string): string {
    if |s| == 0 then ""
    else (if IsSpace(s[0]) then "" else [s[0]]) + NonSpace(s[1..])
  }

  function Concat(ws: seq<string>): string {
    if |ws| == 0 then "" else ws[0] + Concat(ws[1..])
  }

  /** Python `s.split()`: the maximal whitespace-free runs of `s`, in order. */
  function Split(s: string): (words: seq<string>)
    ensures forall k :: 0 <= k < |words| ==> IsWord(words[k])
    decreases |s|
  {
    if |s| == 0 then []
    else if IsSpace(s[0]) then Split(s[1..])
    else
      var n := WordLen(s);
      [s[..n]] + Split(s[n..])
  }

  /** The fields `split()` returns are, end to end, exactly the non-whitespace characters of `s`:
      nothing is lost, added or reordered. */
  lemma {:induction false} SplitKeepsNonSpace(s: string)
    ensures Concat(Split(s)) == NonSpace(s)
    decreases |s|
  {
    if |s| > 0 {
      if IsSpace(s[0]) {
        SplitKeepsNonSpace(s[1..]);
      } else {
        var n := WordLen(s);
        SplitKeepsNonSpace(s[n..]);
        assert s == s[..n] + s[n..];
        NonSpaceWord(s[..n], s[n..]);
        assert ([s[..n]] + Split(s[n..]))[1..] == Split(s[n..]);
      }
    }
  }

  /** `words` separated by `sep`, as Python's `sep.join(words)`. */
  function Join(words: seq<string>, sep: string): string {
    if |words| == 0 then ""
    else if |words| == 1 then words[0]
    else words[0] + sep + Join(words[1..], sep)
  }

  /** Python `s.lstrip(chars)`. */
  function StripLeft(s: string, chars: set<char>): (r: string)
    ensures |r| <= |s| && r == s[|s| - |r|..]
    ensures forall i :: 0 <= i < |s| - |r| ==> s[i] in chars
    ensures |r| > 0 ==> r[0] !in chars
  {
    if |s| > 0 && s[0] in chars then
      var r := StripLeft(s[1..], chars);
      assert s[1..][|s| - 1 - |r|..] == s[|s| - |r|..];
      assert forall i :: 1 <= i < |s| - |r| ==> s[i] == s[1..][i - 1];
      r
    else s
  }

  /** Python `s.rstrip(chars)`. */
  function StripRight(s: string, chars: set<char>): (r: string)
    ensures |r| <= |s| && r == s[..|r|]
    ensures forall i :: |r| <= i < |s| ==> s[i] in chars
    ensures |r| > 0 ==> r[|r| - 1] !in chars
  {
    if |s| > 0 && s[|s| - 1] in chars then StripRight(s[..|s| - 1], chars) else s
  }

  /** Python `s.strip(chars)`: neither end of the result is one of `chars`; `StripPiece`
      says which piece of `s` it is. */
  function Strip(s: string, chars: set<char>): (r: string)
    ensures |r| <= |s|
    ensures |r| > 0 ==> r[0] !in chars && r[|r| - 1] !in chars
  {
    StripRight(StripLeft(s, chars), chars)
  }

  /** The result of `strip` is the contiguous piece of `s` that starts where the left strip
      stops, and every character cut off either end is one of `chars`. */
  lemma StripPiece(s: string, chars: set<char>)
    ensures var a, r := |s| - |StripLeft(s, chars)|, Strip(s, chars);
            && a + |r| <= |s|
            && (forall k :: 0 <= k < |r| ==> r[k] == s[a + k])
            && (forall i :: 0 <= i < a ==> s[i] in chars)
            && (forall i :: a + |r| <= i < |s| ==> s[i] in chars)
  {
    var left := StripLeft(s, chars);
    var r := StripRight(left, chars);
    CutBothEnds(s, chars, left, r);
  }

  /** Cutting a left end and then a right end off `s` leaves a piece of `s`. */
  lemma CutBothEnds(s: string, chars: set<char>, left: string, r: string)
    requires |left| <= |s| && left == s[|s| - |left|..]
    requires forall i :: 0 <= i < |s| - |left| ==> s[i] in chars
    requires |r| <= |left| && r == left[..|r|]
    requires forall i :: |r| <= i < |left| ==> left[i] in chars
    ensures var a := |s| - |left|;
            && a + |r| <= |s|
            && (forall k :: 0 <= k < |r| ==> r[k] == s[a + k])
            && (forall i :: 0 <= i < a ==> s[i] in chars)
            && (forall i :: a + |r| <= i < |s| ==> s[i] in chars)
  {
    var a := |s| - |left|;
    assert forall k :: 0 <= k < |r| ==> r[k] == left[k] == s[a + k];
    assert forall i :: a + |r| <= i < |s| ==> s[i] == left[i - a];
  }

  // ---------------------------------------------------------------------------
  // Lemmas about Split

  lemma {:induction false} NonSpaceWord(w: string, rest: string)
    requires forall i :: 0 <= i < |w| ==> !IsSpace(w[i])
    ensures NonSpace(w + rest) == w + NonSpace(rest)
  {
    if |w| > 0 {
      var s := w + rest;
      assert s[0] == w[0] && !IsSpace(w[0]);
      assert s[1..] == w[1..] + rest;
      assert NonSpace(s) == [w[0]] + NonSpace(s[1..]);
      NonSpaceWord(w[1..], rest);
      assert w == [w[0]] + w[1..];
    } else {
      assert w + rest == rest;
    }
  }

  /** Whitespace in front of a string does not change its fields. */
  lemma {:induction false} SplitSpacePrefix(p: string, s: string)
    requires AllSpace(p)
    ensures Split(p + s) == Split(s)
  {
    if |p| > 0 {
      assert (p + s)[0] == p[0] && IsSpace(p[0]);
      assert (p + s)[1..] == p[1..] + s;
      assert Split(p + s) == Split(p[1..] + s);
      SplitSpacePrefix(p[1..], s);
    } else {
      assert p + s == s;
    }
  }

  lemma {:induction false} SplitAllSpace(p: string)
    requires AllSpace(p)
    ensures Split(p) == []
  {
    SplitSpacePrefix(p, "");
    assert p + "" == p;
  }

  lemma {:induction false} WordLenStops(s: string, p: string)
    requires |p| == 0 || IsSpace(p[0])
    ensures WordLen(s + p) == WordLen(s)
  {
    if |s| > 0 && !IsSpace(s[0]) {
      assert (s + p)[1..] == s[1..] + p;
      WordLenStops(s[1..], p);
    }
  }

  /** Whitespace after a string does not change its fields. */
  lemma {:induction false} SplitSpaceSuffix(s: string, p: string)
    requires AllSpace(p)
    ensures Split(s + p) == Split(s)
    decreases |s|
  {
    if |s| == 0 {
      assert s + p == p;
      SplitAllSpace(p);
    } else if IsSpace(s[0]) {
      assert (s + p)[1..] == s[1..] + p;
      SplitSpaceSuffix(s[1..], p);
    } else {
      WordLenStops(s, p);
      var n := WordLen(s);
      assert (s + p)[..n] == s[..n];
      assert (s + p)[n..] == s[n..] + p;
      SplitSpaceSuffix(s[n..], p);
    }
  }

  /** Stripping whitespace characters never changes what `split()` returns:
      `line.strip('\n').split() == line.split()` and `line.strip().split() == line.split()`. */
  lemma {:induction false} SplitIgnoresStrip(s: string, chars: set<char>)
    requires chars <= Whitespace
    ensures Split(Strip(s, chars)) == Split(s)
  {
    SplitIgnoresStripLeft(s, chars);
    SplitIgnoresStripRight(StripLeft(s, chars), chars);
  }

  lemma {:induction false} SplitIgnoresStripLeft(s: string, chars: set<char>)
    requires chars <= Whitespace
    ensures Split(StripLeft(s, chars)) == Split(s)
  {
    var l := StripLeft(s, chars);
    var front := s[..|s| - |l|];
    forall i | 0 <= i < |front| ensures IsSpace(front[i]) {
      assert front[i] == s[i] && s[i] in chars;
    }
    assert s == front + l;
    SplitSpacePrefix(front, l);
  }

  lemma {:induction false} SplitIgnoresStripRight(s: string, chars: set<char>)
    requires chars <= Whitespace
    ensures Split(StripRight(s, chars)) == Split(s)
  {
    var r := StripRight(s, chars);
    var back := s[|r|..];
    forall i | 0 <= i < |back| ensures IsSpace(back[i]) {
      assert back[i] == s[|r| + i] && s[|r| + i] in chars;
    }
    assert s == r + back;
    SplitSpaceSuffix(r, back);
  }

  /** A single word splits to itself. */
  lemma {:induction false} SplitWord(w: string)
    requires IsWord(w)
    ensures Split(w) == [w]
  {
    WordLenStops(w, "");
    assert w + "" == w;
    assert w[|w|..] == "";
  }

  /** A word followed by whitespace and more text splits into that word and the fields of the rest. */
  lemma {:induction false} SplitWordThen(w: string, sp: char, rest: string)
    requires IsWord(w) && IsSpace(sp)
    ensures Split(w + [sp] + rest) == [w] + Split(rest)
  {
    var s := w + [sp] + rest;
    WordLenStops(w, [sp] + rest);
    assert s == w + ([sp] + rest);
    assert WordLen(s) == |w|;
    assert s[..|w|] == w;
    assert s[|w|..] == [sp] + rest;
    SplitSpacePrefix([sp], rest);
  }

  /** Joining words with a single space and splitting again gives the words back. */
  lemma {:induction false} SplitJoin(words: seq<string>)
    requires forall k :: 0 <= k < |words| ==> IsWord(words[k])
    ensures Split(Join(words, " ")) == words
  {
    if |words| == 0 {
    } else if |words| == 1 {
      SplitWord(words[0]);
    } else {
      SplitJoin(words[1..]);
      SplitWordThen(words[0], ' ', Join(words[1..], " "));
      assert [words[0]] + words[1..] == words;
    }
  }

  // ---------------------------------------------------------------------------
  // Lexicographic order of strings (Python 2 compares byte strings this way)

  /** `a <= b` for Python strings: a proper prefix comes first, otherwise the first differing character decides. */
  predicate StrLe(a: string, b: string) {
    |a| == 0 || (|b| > 0 && (a[0] < b[0] || (a[0] == b[0] && StrLe(a[1..], b[1..]))))
  }

  lemma {:induction false} StrLeRefl(a: string)
    ensures StrLe(a, a)
  {
    if |a| > 0 {
      StrLeRefl(a[1..]);
    }
  }

  lemma {:induction false} StrLeAntisym(a: string, b: string)
    requires StrLe(a, b) && StrLe(b, a)
    ensures a == b
  {
    if |a| > 0 && |b| > 0 {
      StrLeAntisym(a[1..], b[1..]);
      assert a == [a[0]] + a[1..];
      assert b == [b[0]] + b[1..];
    }
  }

  lemma {:induction false} StrLeTrans(a: string, b: string, c: string)
    requires StrLe(a, b) && StrLe(b, c)
    ensures StrLe(a, c)
  {
    if |a| > 0 && |b| > 0 && |c| > 0 && a[0] == b[0] && b[0] == c[0] {
      StrLeTrans(a[1..], b[1..], c[1..]);
    }
  }

  lemma {:induction false} StrLeTotal(a: string, b: string)
    ensures StrLe(a, b) || StrLe(b, a)
  {
    if |a| > 0 && |b| > 0 && a[0] == b[0] {
      StrLeTotal(a[1..], b[1..]);
    }
  }
}
