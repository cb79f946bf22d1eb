/**
 * The JavaScript string primitives the site's code relies on, over `seq<char>`:
 * `indexOf`, `includes`, `replace` with a string pattern (first occurrence only),
 * the legacy `substr(start)` and `split` on a single character.
 */
module Strings {
  import opened Wrappers

  /** `p` occurs in `s` starting at index `k`. */
  predicate OccursAt(s: string, p: string, k: int) {
    0 <= k && k + |p| <= |s| && s[k..k + |p|] == p
  }

  /** `s.indexOf(p)`: the first index at which `p` occurs, `None` for JavaScript's -1. */
  function IndexOf(s: string, p: string): (r: Option<nat>)
    ensures r.Some? ==> OccursAt(s, p, r.value)
    ensures r.Some? ==> forall j :: 0 <= j < r.value ==> !OccursAt(s, p, j)
    ensures r.None? ==> forall j :: 0 <= j ==> !OccursAt(s, p, j)
    decreases |s|
  {
    if |p| <= |s| && s[..|p|] == p then Some(0)
    else if s == [] then None
    else
      var rest := IndexOf(s[1..], p);
      ShiftOccurrence(s, p);
      match rest
      case Some(k) => Some(k + 1)
      case None => None
  }

  /** An occurrence in the tail `s[1..]` is an occurrence in `s` one place later. */
  lemma ShiftOccurrence(s: string, p: string)
    requires s != []
    ensures forall j :: 1 <= j ==> (OccursAt(s, p, j) <==> OccursAt(s[1..], p, j - 1))
    ensures OccursAt(s, p, 0) <==> |p| <= |s| && s[..|p|] == p
  {
    forall j | 1 <= j
      ensures OccursAt(s, p, j) <==> OccursAt(s[1..], p, j - 1)
    {
      if j + |p| <= |s| {
        assert s[1..][j - 1..j - 1 + |p|] == s[j..j + |p|];
      }
    }
  }

  /** In a string without repeated characters, a character is found at its own position. */
  lemma IndexOfDistinct(s: string, i: nat)
    requires i < |s|
    requires forall a, b :: 0 <= a < |s| && 0 <= b < |s| && s[a] == s[b] ==> a == b
    ensures IndexOf(s, [s[i]]) == Some(i)
  {
    assert OccursAt(s, [s[i]], i) by {
      assert s[i..i + 1] == [s[i]];
    }
    var k := IndexOf(s, [s[i]]).value;
    assert s[k..k + 1] == [s[i]];
    assert s[k] == s[i];
  }

  /** `s.includes(p)`. */
  predicate Contains(s: string, p: string) {
    IndexOf(s, p).Some?
  }

  /** `includes` holds exactly when there is an occurrence somewhere. */
  lemma ContainsIff(s: string, p: string)
    ensures Contains(s, p) <==> exists k :: OccursAt(s, p, k)
  {
  }

  /** A pattern placed inside a string is found there. */
  lemma ContainsInside(a: string, p: string, b: string)
    ensures Contains(a + p + b, p)
  {
    assert (a + p + b)[|a|..|a| + |p|] == p;
    assert OccursAt(a + p + b, p, |a|);
  }

  /** A string that starts with `p` contains it, first at index 0. */
  lemma PrefixOccurrence(p: string, rest: string)
    ensures IndexOf(p + rest, p) == Some(0)
  {
    assert (p + rest)[..|p|] == p;
  }

  /** `s.replace(p, q)` with a string pattern: only the first occurrence is replaced. */
  function ReplaceFirst(s: string, p: string, q: string): (r: string)
    ensures IndexOf(s, p).None? ==> r == s
    ensures IndexOf(s, p).Some? ==>
      var k := IndexOf(s, p).value;
      |r| == |s| - |p| + |q| && r[..k] == s[..k] && r[k..k + |q|] == q && r[k + |q|..] == s[k + |p|..]
  {
    match IndexOf(s, p)
    case None => s
    case Some(k) => s[..k] + q + s[k + |p|..]
  }

  /** Replacing a leading `p` by the empty string leaves what followed it. */
  lemma ReplaceLeading(p: string, rest: string)
    ensures ReplaceFirst(p + rest, p, "") == rest
  {
    PrefixOccurrence(p, rest);
    assert (p + rest)[|p|..] == rest;
  }

  /**
   * `s.substr(start)`: a negative start counts back from the end and is
   * clamped at 0; a start beyond the end gives the empty string.
   */
  function Substr(s: string, start: int): (r: string)
    ensures start >= 0 ==> |r| == if start <= |s| then |s| - start else 0
    ensures start < 0 ==> |r| == if -start <= |s| then -start else |s|
    ensures r == s[|s| - |r|..]
  {
    var begin := if start < 0 then (if |s| + start < 0 then 0 else |s| + start)
                 else if start > |s| then |s| else start;
    s[begin..]
  }

  /** Splits `s` at every `sep`, as `s.split(sep)` does: `n` separators give `n + 1` parts. */
  function Split(s: string, sep: char): (r: seq<string>)
    ensures |r| >= 1
    decreases |s|
  {
    if s == [] then [[]]
    else
      var rest := Split(s[1..], sep);
      if s[0] == sep then [[]] + rest else [[s[0]] + rest[0]] + rest[1..]
  }

  /** Without a separator there is one part, the whole string. */
  lemma {:induction false} SplitNone(s: string, sep: char)
    requires sep !in s
    ensures Split(s, sep) == [s]
    decreases |s|
  {
    if s != [] {
      SplitNone(s[1..], sep);
      assert [s[0]] + s[1..] == s;
    }
  }

  /** A separator-free part followed by a separator splits off as the first part. */
  lemma {:induction false} SplitFirst(a: string, sep: char, b: string)
    requires sep !in a
    ensures Split(a + [sep] + b, sep) == [a] + Split(b, sep)
    decreases |a|
  {
    if a == [] {
      assert a + [sep] + b == [sep] + b;
      assert ([sep] + b)[1..] == b;
    } else {
      var s := a + [sep] + b;
      assert s[0] == a[0] && s[1..] == a[1..] + [sep] + b;
      SplitFirst(a[1..], sep, b);
      assert [a[0]] + a[1..] == a;
    }
  }

  /** Extending the first part of a split, before or after appending more parts. */
  lemma PrependToFirst(c: char, r1: seq<string>, r2: seq<string>)
    requires |r1| >= 1
    ensures [[c] + (r1 + r2)[0]] + (r1 + r2)[1..] == ([[c] + r1[0]] + r1[1..]) + r2
  {
    assert (r1 + r2)[0] == r1[0] && (r1 + r2)[1..] == r1[1..] + r2;
  }

  /** Joining two strings with a separator joins their parts. */
  lemma {:induction false} SplitConcat(a: string, sep: char, b: string)
    ensures Split(a + [sep] + b, sep) == Split(a, sep) + Split(b, sep)
    decreases |a|
  {
    var s := a + [sep] + b;
    if a == [] {
      assert s == [sep] + b && s[1..] == b;
    } else {
      var t := a[1..] + [sep] + b;
      assert s[0] == a[0] && s[1..] == t;
      SplitConcat(a[1..], sep, b);
      var r1, r2 := Split(a[1..], sep), Split(b, sep);
      assert Split(t, sep) == r1 + r2;
      if a[0] == sep {
        assert Split(s, sep) == [[]] + (r1 + r2);
        assert Split(a, sep) == [[]] + r1;
        assert [[]] + (r1 + r2) == ([[]] + r1) + r2;
      } else {
        assert Split(s, sep) == [[a[0]] + (r1 + r2)[0]] + (r1 + r2)[1..];
        assert Split(a, sep) == [[a[0]] + r1[0]] + r1[1..];
        PrependToFirst(a[0], r1, r2);
      }
    }
  }



  /** `split(" ")` of two strings joined by a space: the parts of each. */
  lemma SplitSpaceJoin(a: string, b: string)
    ensures Split(a + " " + b, ' ') == Split(a, ' ') + Split(b, ' ')
  {
    assert a + " " + b == a + [' '] + b;
    SplitConcat(a, ' ', b);
  }
}
