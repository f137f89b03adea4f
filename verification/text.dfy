/** The JavaScript string operations the synchroniser depends on, over
    `string` = `seq<char>`: `split("\n")`, `join("\n")` and `indexOf`. */
module Text {

  const Newline: char := '\n'

  /** No line of `lines` contains a newline, as is the case for every result
      of `Split`. */
  predicate NoNewlines(lines: seq<string>)
  {
    forall i :: 0 <= i < |lines| ==> Newline !in lines[i]
  }

  /** `lines.join("\n")`: the lines with one newline between neighbours; the
      empty array joins to the empty string. */
  function Join(lines: seq<string>): string
    decreases |lines|
  {
    if |lines| == 0 then ""
    else if |lines| == 1 then lines[0]
    else lines[0] + [Newline] + Join(lines[1..])
  }

  /** `s.split("\n")`: the pieces of `s` between newlines. The result is never
      empty (the empty string splits to one empty line) and joining it back
      gives `s`. */
  function Split(s: string): (lines: seq<string>)
    ensures |lines| >= 1
    ensures NoNewlines(lines)
    ensures Join(lines) == s
    decreases |s|
  {
    if |s| == 0 then [""]
    else
      var rest := Split(s[1..]);
      if s[0] == Newline then
        [""] + rest
      else
        var line := [s[0]] + rest[0];
        assert |rest| > 1 ==> Join(rest) == rest[0] + [Newline] + Join(rest[1..]);
        [line] + rest[1..]
  }

  /** A joined text starts with the first line, ends with the last line,
      and has a newline right after the first line when there are more. */
  lemma {:induction false} JoinEnds(lines: seq<string>)
    requires |lines| > 0
    ensures |lines[0]| <= |Join(lines)| && Join(lines)[..|lines[0]|] == lines[0]
    ensures |lines| > 1 ==> Join(lines)[|lines[0]|] == Newline
    ensures var last := lines[|lines| - 1];
            |last| <= |Join(lines)| && Join(lines)[|Join(lines)| - |last|..] == last
    decreases |lines|
  {
    if |lines| > 1 {
      var tail := lines[1..];
      JoinEnds(tail);
      assert tail[|tail| - 1] == lines[|lines| - 1];
      var j := Join(lines);
      assert j == lines[0] + [Newline] + Join(tail);
      assert j[|j| - |Join(tail)|..] == Join(tail);
    }
  }

  /** A string without newlines is a single line. */
  lemma {:induction false} SplitSingleLine(s: string)
    requires Newline !in s
    ensures Split(s) == [s]
    decreases |s|
  {
    if |s| > 0 {
      SplitSingleLine(s[1..]);
    }
  }

  /** Splitting a line, a newline and a tail gives the line followed by the
      tail's lines. */
  lemma {:induction false} SplitCons(line: string, tail: string)
    requires Newline !in line
    ensures Split(line + [Newline] + tail) == [line] + Split(tail)
    decreases |line|
  {
    var s := line + [Newline] + tail;
    if |line| == 0 {
      assert s[1..] == tail;
    } else {
      assert s[1..] == line[1..] + [Newline] + tail;
      SplitCons(line[1..], tail);
      assert [s[0]] + line[1..] == line;
    }
  }

  /** One character in front of a text either opens a new line or extends
      the text's first line. */
  lemma SplitStep(c: char, rest: string)
    ensures c == Newline ==> Split([c] + rest) == [""] + Split(rest)
    ensures c != Newline ==> Split([c] + rest) == [[c] + Split(rest)[0]] + Split(rest)[1..]
  {
    assert ([c] + rest)[1..] == rest;
  }

  /** Splitting two texts glued by a newline gives the lines of each in turn. */
  lemma {:induction false} SplitAppend(a: string, b: string)
    ensures Split(a + [Newline] + b) == Split(a) + Split(b)
    decreases |a|
  {
    if |a| == 0 {
      assert a + [Newline] + b == [Newline] + b;
      SplitStep(Newline, b);
    } else {
      SplitAppend(a[1..], b);
      UnconsAppend(a, Newline, b);
      SplitAppendStep(a[0], a[1..], b);
    }
  }

  /** A non-empty sequence is its head before its tail, also inside a
      concatenation. */
  lemma UnconsAppend<T>(a: seq<T>, x: T, b: seq<T>)
    requires |a| > 0
    ensures a == [a[0]] + a[1..]
    ensures a + [x] + b == [a[0]] + (a[1..] + [x] + b)
  {
  }

  /** The inductive step of `SplitAppend`: one more leading character. */
  lemma SplitAppendStep(c: char, a: string, b: string)
    requires Split(a + [Newline] + b) == Split(a) + Split(b)
    ensures Split([c] + (a + [Newline] + b)) == Split([c] + a) + Split(b)
  {
    SplitStep(c, a + [Newline] + b);
    SplitStep(c, a);
    if c == Newline {
      ConsAppend("", Split(a), Split(b));
    } else {
      SnocHead(c, Split(a), Split(b));
    }
  }

  /** Prepending one element commutes with appending a tail. */
  lemma ConsAppend<T>(x: T, p: seq<T>, q: seq<T>)
    ensures [x] + (p + q) == ([x] + p) + q
  {
  }

  /** Extending the first line of a non-empty line list commutes with
      appending more lines. */
  lemma SnocHead(c: char, p: seq<string>, q: seq<string>)
    requires |p| >= 1
    ensures [[c] + (p + q)[0]] + (p + q)[1..] == ([[c] + p[0]] + p[1..]) + q
  {
    assert (p + q)[0] == p[0];
    assert (p + q)[1..] == p[1..] + q;
  }

  /** Joining and splitting are inverse on non-empty newline-free lines. */
  lemma {:induction false} SplitJoin(lines: seq<string>)
    requires |lines| >= 1
    requires NoNewlines(lines)
    ensures Split(Join(lines)) == lines
    decreases |lines|
  {
    if |lines| == 1 {
      SplitSingleLine(lines[0]);
    } else {
      SplitJoin(lines[1..]);
      SplitCons(lines[0], Join(lines[1..]));
      assert [lines[0]] + lines[1..] == lines;
    }
  }

  /** A non-empty slice of split lines re-joins and splits back to itself. */
  lemma SplitJoinSlice(lines: seq<string>, lo: nat, hi: nat)
    requires lo < hi <= |lines|
    requires NoNewlines(lines)
    ensures Split(Join(lines[lo..hi])) == lines[lo..hi]
  {
    var kept := lines[lo..hi];
    forall j | 0 <= j < |kept| ensures Newline !in kept[j] {
      assert kept[j] == lines[lo + j];
    }
    SplitJoin(kept);
  }

  /** A slice that runs to the end is the suffix. */
  lemma SliceToEnd<T>(xs: seq<T>, lo: nat)
    requires lo <= |xs|
    ensures xs[lo..|xs|] == xs[lo..]
  {
  }

  /** `pat` occurs in `s` at position `k`. */
  predicate OccursAt(s: string, pat: string, k: int)
  {
    0 <= k && k + |pat| <= |s| && s[k..k + |pat|] == pat
  }

  /** The first occurrence of `pat` in `s` at or after `from`, or -1. */
  function IndexFrom(s: string, pat: string, from: nat): (r: int)
    ensures r == -1 || (from <= r && OccursAt(s, pat, r))
    ensures forall k :: from <= k && (r == -1 || k < r) ==> !OccursAt(s, pat, k)
    decreases |s| + 1 - from
  {
    if from + |pat| > |s| then -1
    else if s[from..from + |pat|] == pat then from
    else IndexFrom(s, pat, from + 1)
  }

  /** `s.indexOf(pat)`: the first position at which `pat` occurs, or -1. */
  function IndexOf(s: string, pat: string): (r: int)
    ensures r == -1 <==> forall k :: !OccursAt(s, pat, k)
    ensures r != -1 ==> OccursAt(s, pat, r) && forall k :: 0 <= k < r ==> !OccursAt(s, pat, k)
  {
    IndexFrom(s, pat, 0)
  }

  /** `s.indexOf(pat) > -1`: the substring test used for marker lines. */
  predicate Contains(s: string, pat: string)
  {
    IndexOf(s, pat) > -1
  }

  /** A line shorter than the pattern cannot contain it. */
  lemma ShortLineLacksPattern(s: string, pat: string)
    requires |s| < |pat|
    ensures !Contains(s, pat)
  {
  }

  /** Every string contains itself. */
  lemma ContainsItself(s: string)
    ensures Contains(s, s)
  {
    assert OccursAt(s, s, 0);
  }
}
