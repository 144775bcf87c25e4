/** The Python string and list primitives that `matlabize` and `pythonize`
    are built from: `str.lstrip()`, `str.rstrip(c)`, slicing prefix tests,
    `str.replace`, `str.index`, and filtering a list in order. */
module Text {
  import opened Results

  /** The characters for which Python's `str.isspace()` holds, which are
      exactly the ones `str.lstrip()` with no argument removes. */
  predicate IsSpace(ch: char) {
    || ch == ' '
    || '\t' <= ch <= '\r'
    || '\U{1C}' <= ch <= '\U{1F}'
    || ch == '\U{85}' || ch == '\U{A0}' || ch == '\U{1680}'
    || '\U{2000}' <= ch <= '\U{200A}'
    || ch == '\U{2028}' || ch == '\U{2029}' || ch == '\U{202F}'
    || ch == '\U{205F}' || ch == '\U{3000}'
  }

  /** `s.lstrip()`: the longest suffix of `s` that does not start with white space. */
  function LStrip(s: string): (r: string)
    ensures |r| <= |s| && r == s[|s| - |r|..]
    ensures forall i :: 0 <= i < |s| - |r| ==> IsSpace(s[i])
    ensures r == [] || !IsSpace(r[0])
  {
    if |s| > 0 && IsSpace(s[0]) then LStrip(s[1..]) else s
  }

  /** `s.rstrip(ch)`: `s` without every trailing copy of `ch`. */
  function RStrip(s: string, ch: char): (r: string)
    ensures |r| <= |s| && r == s[..|r|]
    ensures forall i :: |r| <= i < |s| ==> s[i] == ch
    ensures r == [] || r[|r| - 1] != ch
  {
    if |s| > 0 && s[|s| - 1] == ch then RStrip(s[..|s| - 1], ch) else s
  }

  /** `s[:len(p)] == p`, the prefix test the source writes with a slice. */
  predicate StartsWith(s: string, p: string) {
    |p| <= |s| && s[..|p|] == p
  }

  /** `p` occurs in `s` starting at position `i`. */
  predicate OccursAt(s: string, p: string, i: nat) {
    i + |p| <= |s| && s[i..i + |p|] == p
  }

  /** `p` occurs somewhere in `s` (Python's `p in s`). */
  predicate Contains(s: string, p: string) {
    exists i: nat :: i <= |s| && OccursAt(s, p, i)
  }

  /** `s.replace(pat, rep)`: scans left to right and replaces every
      occurrence of `pat` that does not overlap an earlier replaced one. */
  function Replace(s: string, pat: string, rep: string): (r: string)
    requires pat != []
    ensures |rep| <= |pat| ==> |r| <= |s|
    ensures |rep| >= |pat| ==> |r| >= |s|
    decreases |s|
  {
    if |s| < |pat| then s
    else if s[..|pat|] == pat then rep + Replace(s[|pat|..], pat, rep)
    else [s[0]] + Replace(s[1..], pat, rep)
  }

  /** One `str.replace(pat, rep)` step of a rewrite table. */
  datatype Rule = Rule(pat: string, rep: string)

  predicate ValidRules(rules: seq<Rule>) {
    forall k :: 0 <= k < |rules| ==> rules[k].pat != []
  }

  /** The rules applied one after the other, each to the result of the
      one before. */
  function ReplaceAll(s: string, rules: seq<Rule>): string
    requires ValidRules(rules)
    decreases |rules|
  {
    if rules == [] then s
    else ReplaceAll(Replace(s, rules[0].pat, rules[0].rep), rules[1..])
  }

  /** Applying `a` and then `b` is applying `a + b`. */
  lemma {:induction false} ReplaceAllAppend(s: string, a: seq<Rule>, b: seq<Rule>)
    requires ValidRules(a) && ValidRules(b)
    ensures ValidRules(a + b)
    ensures ReplaceAll(s, a + b) == ReplaceAll(ReplaceAll(s, a), b)
    decreases |a|
  {
    if a == [] {
      assert a + b == b;
    } else {
      assert (a + b)[1..] == a[1..] + b;
      ReplaceAllAppend(Replace(s, a[0].pat, a[0].rep), a[1..], b);
    }
  }

  /** Rules whose patterns start with characters absent from `s` leave it alone. */
  lemma {:induction false} ReplaceAllWithoutFirstChars(s: string, rules: seq<Rule>)
    requires ValidRules(rules)
    requires forall k :: 0 <= k < |rules| ==> rules[k].pat[0] !in s
    ensures ReplaceAll(s, rules) == s
    decreases |rules|
  {
    if rules != [] {
      ReplaceWithoutFirstChar(s, rules[0].pat, rules[0].rep);
      ReplaceAllWithoutFirstChars(s, rules[1..]);
    }
  }

  /** A match is replaced where the scan finds it. */
  lemma ReplaceAtHead(s: string, pat: string, rep: string)
    requires pat != []
    ensures Replace(pat + s, pat, rep) == rep + Replace(s, pat, rep)
  {
    assert (pat + s)[..|pat|] == pat && (pat + s)[|pat|..] == s;
  }

  /** The scan passes over a prefix without the pattern's first character. */
  lemma {:induction false} ReplaceSkipsPrefix(p: string, s: string, pat: string, rep: string)
    requires pat != [] && pat[0] !in p
    ensures Replace(p + s, pat, rep) == p + Replace(s, pat, rep)
    decreases |p|
  {
    if p != [] {
      var t := p[1..] + s;
      assert p + s == [p[0]] + t;
      ReplaceSkipsChar(p[0], t, pat, rep);
      ReplaceSkipsPrefix(p[1..], s, pat, rep);
      assert [p[0]] + p[1..] == p;
    } else {
      assert p + s == s;
    }
  }

  /** A leading character that cannot start the pattern is copied through unchanged. */
  lemma ReplaceSkipsChar(ch: char, t: string, pat: string, rep: string)
    requires pat != [] && pat[0] != ch
    ensures Replace([ch] + t, pat, rep) == [ch] + Replace(t, pat, rep)
  {
    var s := [ch] + t;
    assert s[1..] == t;
    if |s| >= |pat| {
      assert s[..|pat|][0] == ch;
    }
  }

  /** Replacing a pattern that does not occur leaves the string unchanged. */
  lemma {:induction false} ReplaceAbsent(s: string, pat: string, rep: string)
    requires pat != []
    requires !Contains(s, pat)
    ensures Replace(s, pat, rep) == s
    decreases |s|
  {
    if |s| >= |pat| {
      assert !OccursAt(s, pat, 0);
      assert s[0..|pat|] == s[..|pat|];
      assert !Contains(s[1..], pat) by {
        forall i: nat | OccursAt(s[1..], pat, i)
          ensures false
        {
          assert s[1..][i..i + |pat|] == s[i + 1..i + 1 + |pat|];
          assert OccursAt(s, pat, i + 1);
        }
      }
      ReplaceAbsent(s[1..], pat, rep);
    }
  }

  /** Replacing a one-character pattern by text without that character
      leaves no copy of it. */
  lemma {:induction false} ReplaceRemovesChar(s: string, ch: char, rep: string)
    requires ch !in rep
    ensures ch !in Replace(s, [ch], rep)
    decreases |s|
  {
    if |s| >= 1 {
      ReplaceRemovesChar(s[1..], ch, rep);
      if s[..1] != [ch] {
        assert s[0] != ch by { assert s[..1] == [s[0]]; }
      }
    }
  }

  /** A replacement introduces a character only if the replacement text has it. */
  lemma {:induction false} ReplaceKeepsAbsence(s: string, pat: string, rep: string, ch: char)
    requires pat != []
    requires ch !in s && ch !in rep
    ensures ch !in Replace(s, pat, rep)
    decreases |s|
  {
    if |s| >= |pat| {
      if s[..|pat|] == pat {
        assert forall k :: 0 <= k < |s[|pat|..]| ==> s[|pat|..][k] == s[|pat| + k];
        ReplaceKeepsAbsence(s[|pat|..], pat, rep, ch);
      } else {
        assert forall k :: 0 <= k < |s[1..]| ==> s[1..][k] == s[1 + k];
        ReplaceKeepsAbsence(s[1..], pat, rep, ch);
      }
    }
  }

  /** Replacing a pattern whose first character is absent changes nothing. */
  lemma ReplaceWithoutFirstChar(s: string, pat: string, rep: string)
    requires pat != [] && pat[0] !in s
    ensures Replace(s, pat, rep) == s
  {
    assert !Contains(s, pat) by {
      forall i: nat | i <= |s| && i + |pat| <= |s|
        ensures !OccursAt(s, pat, i)
      {
        assert s[i..i + |pat|][0] == s[i];
      }
    }
    ReplaceAbsent(s, pat, rep);
  }

  /** `xs.index(x)` for strings and lists: the first position of `x`, if any. */
  function IndexOf<T(==)>(xs: seq<T>, x: T): (r: Option<nat>)
    ensures r.None? <==> x !in xs
    ensures r.Some? ==> r.value < |xs| && xs[r.value] == x && x !in xs[..r.value]
  {
    if xs == [] then None
    else if xs[0] == x then Some(0)
    else match IndexOf(xs[1..], x)
      case None => None
      case Some(i) =>
        assert xs[1..][..i] == xs[1..i + 1];
        Some(i + 1)
  }

  /** The elements of `xs` that satisfy `p`, in their original order
      (a `for` loop that `continue`s past the others). */
  function Filter<T>(p: T -> bool, xs: seq<T>): (ys: seq<T>)
    ensures |ys| <= |xs|
    ensures forall y :: y in ys ==> y in xs && p(y)
  {
    if xs == [] then [] else (if p(xs[0]) then [xs[0]] else []) + Filter(p, xs[1..])
  }

  /** Filtering distributes over concatenation. */
  lemma {:induction false} FilterAppend<T>(p: T -> bool, xs: seq<T>, ys: seq<T>)
    ensures Filter(p, xs + ys) == Filter(p, xs) + Filter(p, ys)
  {
    if xs == [] {
      assert xs + ys == ys;
    } else {
      assert (xs + ys)[1..] == xs[1..] + ys;
      FilterAppend(p, xs[1..], ys);
    }
  }

  /** What one more loop iteration adds to a filtered prefix. */
  lemma FilterSnoc<T>(p: T -> bool, xs: seq<T>, x: T)
    ensures Filter(p, xs + [x]) == Filter(p, xs) + (if p(x) then [x] else [])
  {
    FilterAppend(p, xs, [x]);
    assert Filter(p, [x]) == (if p(x) then [x] else []) + Filter(p, []);
  }

  /** `f` applied to every element, in order. */
  function MapSeq<T, U>(f: T -> U, xs: seq<T>): (ys: seq<U>)
    ensures |ys| == |xs| && forall i :: 0 <= i < |xs| ==> ys[i] == f(xs[i])
  {
    seq(|xs|, i requires 0 <= i < |xs| => f(xs[i]))
  }
}
