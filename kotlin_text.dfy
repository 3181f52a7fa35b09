/**
 * The Kotlin `String` operations the catalog parsers use: `replace`,
 * `split` on one character, `removeSurrounding` and the joining of lines.
 */
module KotlinText {

  predicate StartsWith(s: string, p: string) { |p| <= |s| && s[..|p|] == p }

  predicate EndsWith(s: string, q: string) { |q| <= |s| && s[|s| - |q|..] == q }

  /**
   * `s.replace(pat, rep)`: every occurrence of `pat`, found scanning from the
   * left and not overlapping the previous one, becomes `rep`.
   */
  function Replace(s: string, pat: string, rep: string): (r: string)
    requires |pat| > 0
    ensures |s| < |pat| ==> r == s
    decreases |s|
  {
    if |s| < |pat| then s
    else if s[..|pat|] == pat then rep + Replace(s[|pat|..], pat, rep)
    else [s[0]] + Replace(s[1..], pat, rep)
  }

  /** Where `s` does not start with `pat`, its first character is kept. */
  lemma ReplaceSkip(s: string, pat: string, rep: string)
    requires |pat| > 0 && |s| > 0 && !StartsWith(s, pat)
    ensures Replace(s, pat, rep) == [s[0]] + Replace(s[1..], pat, rep)
  {
  }

  /** Where `s` starts with `pat`, that occurrence is replaced first. */
  lemma ReplaceMatch(pat: string, rep: string, rest: string)
    requires |pat| > 0
    ensures Replace(pat + rest, pat, rep) == rep + Replace(rest, pat, rep)
  {
    assert (pat + rest)[..|pat|] == pat;
    assert (pat + rest)[|pat|..] == rest;
  }

  /** A prefix holding no first character of `pat` passes through unchanged. */
  lemma {:induction false} ReplaceSkipFree(a: string, b: string, pat: string, rep: string)
    requires |pat| > 0 && pat[0] !in a
    ensures Replace(a + b, pat, rep) == a + Replace(b, pat, rep)
    decreases |a|
  {
    if |a| > 0 {
      var s := a + b;
      if |s| >= |pat| {
        assert s[..|pat|][0] == a[0];
      }
      assert s[1..] == a[1..] + b;
      ReplaceSkipFree(a[1..], b, pat, rep);
      if |s| >= |pat| {
        assert Replace(s, pat, rep) == [s[0]] + Replace(s[1..], pat, rep);
      } else {
        assert Replace(s, pat, rep) == s;
        assert Replace(b, pat, rep) == b;
      }
    } else {
      assert a + b == b;
    }
  }

  /** Replacing a single character (by anything) works piece by piece. */
  lemma {:induction false} ReplaceCharConcat(a: string, b: string, pat: string, rep: string)
    requires |pat| == 1
    ensures Replace(a + b, pat, rep) == Replace(a, pat, rep) + Replace(b, pat, rep)
    decreases |a|
  {
    if |a| > 0 {
      var s := a + b;
      assert s[1..] == a[1..] + b;
      ReplaceCharConcat(a[1..], b, pat, rep);
      if a[0] == pat[0] {
        assert s[..1] == pat && a[..1] == pat;
      } else {
        assert s[..1] != pat && a[..1] != pat;
      }
    } else {
      assert a + b == b;
    }
  }

  /** `s.split(d)` for one delimiter character: the pieces between the delimiters, empty ones included. */
  function Split(s: string, d: char): (parts: seq<string>)
    ensures |parts| > 0
    ensures forall k :: 0 <= k < |parts| ==> d !in parts[k]
    ensures d !in s ==> parts == [s]
    decreases |s|
  {
    if |s| == 0 then [""]
    else if s[0] == d then [""] + Split(s[1..], d)
    else
      var rest := Split(s[1..], d);
      assert [s[0]] + s[1..] == s;
      [[s[0]] + rest[0]] + rest[1..]
  }

  /** `parts.joinToString(d)`: the pieces with `d` between neighbours. */
  function Join(parts: seq<string>, d: char): string
    requires |parts| > 0
  {
    if |parts| == 1 then parts[0] else parts[0] + [d] + Join(parts[1..], d)
  }

  /** A piece free of the delimiter, followed by the delimiter, splits off as one part. */
  lemma {:induction false} SplitAfter(a: string, d: char, b: string)
    requires d !in a
    ensures Split(a + [d] + b, d) == [a] + Split(b, d)
    decreases |a|
  {
    if |a| > 0 {
      assert (a + [d] + b)[1..] == a[1..] + [d] + b;
      SplitAfter(a[1..], d, b);
      assert [a[0]] + a[1..] == a;
    } else {
      assert a + [d] + b == [d] + b;
    }
  }

  /** Joining what was split gives the string back. */
  lemma {:induction false} JoinSplit(s: string, d: char)
    ensures Join(Split(s, d), d) == s
    decreases |s|
  {
    if |s| > 0 {
      JoinSplit(s[1..], d);
      var rest := Split(s[1..], d);
      if s[0] != d {
        var parts := [[s[0]] + rest[0]] + rest[1..];
        if |rest| > 1 {
          assert parts[1..] == rest[1..];
          assert Join(rest, d) == rest[0] + [d] + Join(rest[1..], d);
        }
      }
    }
  }

  /** Splitting what was joined from delimiter-free pieces gives the pieces back. */
  lemma {:induction false} SplitJoin(parts: seq<string>, d: char)
    requires |parts| > 0
    requires forall k :: 0 <= k < |parts| ==> d !in parts[k]
    ensures Split(Join(parts, d), d) == parts
    decreases |parts|
  {
    if |parts| > 1 {
      SplitJoin(parts[1..], d);
      SplitAfter(parts[0], d, Join(parts[1..], d));
    }
  }

  /**
   * `s.removeSurrounding(p, q)`: drop the prefix `p` and the suffix `q` when
   * `s` has both and is long enough to hold them apart; otherwise `s` itself.
   */
  function RemoveSurrounding(s: string, p: string, q: string): (r: string)
    ensures |s| >= |p| + |q| && StartsWith(s, p) && EndsWith(s, q) ==> p + r + q == s
    ensures !(|s| >= |p| + |q| && StartsWith(s, p) && EndsWith(s, q)) ==> r == s
  {
    if |s| >= |p| + |q| && StartsWith(s, p) && EndsWith(s, q) then s[|p|..|s| - |q|] else s
  }

  /**
   * The parts run together without separators, as `Collectors.joining()`
   * joins lines and as the array concatenations of `addZDimension` and
   * `getHOG` flatten lists: an element occurs in the result exactly when it
   * occurs in some part, and the result starts with the first part.
   */
  function Concat<T(!new)>(parts: seq<seq<T>>): (s: seq<T>)
    ensures forall c :: c in s <==> exists k :: 0 <= k < |parts| && c in parts[k]
    ensures |parts| > 0 ==> |s| >= |parts[0]| && forall k :: 0 <= k < |parts[0]| ==> s[k] == parts[0][k]
  {
    if |parts| == 0 then [] else
      var rest := Concat(parts[1..]);
      assert forall k :: 1 <= k < |parts| ==> parts[k] == parts[1..][k - 1];
      parts[0] + rest
  }

  /** Concatenating from the left gives the same sequence: the last part comes last. */
  lemma {:induction false} ConcatSnoc<T(!new)>(parts: seq<seq<T>>)
    requires |parts| > 0
    ensures Concat(parts) == Concat(parts[..|parts| - 1]) + parts[|parts| - 1]
  {
    if |parts| > 1 {
      var tail := parts[1..];
      ConcatSnoc(tail);
      assert parts[..|parts| - 1][1..] == tail[..|tail| - 1];
    } else {
      assert parts[..0] == [];
    }
  }
}
