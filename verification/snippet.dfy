/** The snippet extractor `findExample`: keep only the lines between the
    first start-marker line and the next end-marker line of a source file, or
    the whole file when it has no start marker. */
module Snippet {
  import opened Text

  const StartMarker: string := "***DS.snippet.0.start"
  const EndMarker: string := "***DS.snippet.n.end"

  /** A line opens the snippet when it contains the start marker anywhere. */
  predicate IsStart(line: string)
  {
    Contains(line, StartMarker)
  }

  /** A line closes the snippet when it contains the end marker anywhere. */
  predicate IsEnd(line: string)
  {
    Contains(line, EndMarker)
  }

  /** Some line of `text` contains the start marker. */
  predicate HasExample(text: string)
  {
    exists i :: 0 <= i < |Split(text)| && IsStart(Split(text)[i])
  }

  /** What `findExample` returns: the text to write and whether a start
      marker was seen. */
  datatype SnippetResult = SnippetResult(data: string, foundEg: bool)

  /** State of the line-by-line scan: whether the start marker has been seen,
      whether the end marker has stopped the scan, and the lines kept. */
  datatype Scan = Scan(foundStart: bool, stopped: bool, out: seq<string>)

  const Initial: Scan := Scan(false, false, [])

  /** One iteration of the scan over `line`. Once stopped, lines are ignored;
      after the start marker, lines are kept until an end-marker line; before
      it, lines are dropped and the first start-marker line opens the
      snippet without being kept. */
  function Step(sc: Scan, line: string): Scan
  {
    if sc.stopped then sc
    else if sc.foundStart && IsEnd(line) then sc.(stopped := true)
    else if sc.foundStart then sc.(out := sc.out + [line])
    else if IsStart(line) then sc.(foundStart := true)
    else sc
  }

  /** The scan over all of `lines`, in order, starting from `sc`. */
  function ScanFrom(sc: Scan, lines: seq<string>): Scan
    decreases |lines|
  {
    if |lines| == 0 then sc else ScanFrom(Step(sc, lines[0]), lines[1..])
  }

  /** One step either ignores the line, stops the scan, keeps the line, or
      opens the snippet: a line is kept exactly when the snippet is open and
      the line does not close it. */
  lemma StepEffect(sc: Scan, line: string)
    ensures sc.stopped ==> Step(sc, line) == sc
    ensures Step(sc, line).out == sc.out || Step(sc, line).out == sc.out + [line]
    ensures Step(sc, line).out == sc.out + [line] <==> !sc.stopped && sc.foundStart && !IsEnd(line)
    ensures Step(sc, line).stopped <==> sc.stopped || (sc.foundStart && IsEnd(line))
    ensures !sc.stopped ==> (Step(sc, line).foundStart <==> sc.foundStart || IsStart(line))
  {
  }

  /** The scan only appends input lines to what it has kept, at most one per
      line, never forgets the start marker, and does nothing once stopped. */
  lemma {:induction false} ScanFromGrows(sc: Scan, lines: seq<string>)
    ensures var r := ScanFrom(sc, lines);
            && (sc.stopped ==> r == sc)
            && (sc.foundStart ==> r.foundStart)
            && |sc.out| <= |r.out| <= |sc.out| + |lines|
            && r.out[..|sc.out|] == sc.out
            && (forall k :: |sc.out| <= k < |r.out| ==> r.out[k] in lines)
    decreases |lines|
  {
    if |lines| > 0 {
      var next := Step(sc, lines[0]);
      StepEffect(sc, lines[0]);
      ScanFromGrows(next, lines[1..]);
      var r := ScanFrom(sc, lines);
      assert r == ScanFrom(next, lines[1..]);
      assert r.out[..|next.out|] == next.out;
      assert r.out[..|sc.out|] == next.out[..|sc.out|];
      forall k | |sc.out| <= k < |r.out| ensures r.out[k] in lines {
        if k < |next.out| {
          assert next.out == sc.out + [lines[0]];
          assert r.out[k] == next.out[k];
        } else {
          assert r.out[k] in lines[1..];
        }
      }
    }
  }

  /** Index of the first line at or after `from` that contains `marker`, or
      `|lines|` when there is none. */
  function FirstMarked(lines: seq<string>, marker: string, from: nat): (k: nat)
    requires from <= |lines|
    ensures from <= k <= |lines|
    ensures k < |lines| ==> Contains(lines[k], marker)
    ensures forall j :: from <= j < k ==> !Contains(lines[j], marker)
    decreases |lines| - from
  {
    if from == |lines| then from
    else if Contains(lines[from], marker) then from
    else FirstMarked(lines, marker, from + 1)
  }

  /** Reference description of the extractor, by positions: the snippet is
      the slice strictly between the first start-marker line and the first
      end-marker line after it (or the end of input); without a start
      marker the lines are returned re-joined. */
  function Expected(lines: seq<string>): SnippetResult
  {
    var s := FirstMarked(lines, StartMarker, 0);
    if s == |lines| then SnippetResult(Join(lines), false)
    else SnippetResult(Join(lines[s + 1..FirstMarked(lines, EndMarker, s + 1)]), true)
  }

  /** `findExample(in)`: split into lines, scan, and join the kept lines, or
      give back the re-joined input when no start marker was seen. */
  function FindExample(text: string): (r: SnippetResult)
    ensures !r.foundEg ==> r.data == text
  {
    var lines := Split(text);
    var sc := ScanFrom(Initial, lines);
    if sc.foundStart then SnippetResult(Join(sc.out), true)
    else SnippetResult(Join(lines), false)
  }

  /** An example is reported exactly when some line holds the start marker. */
  lemma FoundIffStartMarker(text: string)
    ensures FindExample(text).foundEg <==> HasExample(text)
  {
    FindExampleIsExpected(text);
    var lines := Split(text);
    var s := FirstMarked(lines, StartMarker, 0);
    if s < |lines| {
      assert IsStart(lines[s]);
    }
  }

  /** The extractor agrees with the positional reference description. */
  lemma FindExampleIsExpected(text: string)
    ensures FindExample(text) == Expected(Split(text))
  {
    ScanMatchesExpected(Split(text));
  }

  /** A stopped scan ignores the rest of the input. */
  lemma {:induction false} StoppedStays(sc: Scan, lines: seq<string>)
    requires sc.stopped
    ensures ScanFrom(sc, lines) == sc
    decreases |lines|
  {
    if |lines| > 0 {
      StoppedStays(sc, lines[1..]);
    }
  }

  /** Before the start marker, lines without it are dropped. */
  lemma {:induction false} SkipUntilStart(sc: Scan, lines: seq<string>, n: nat)
    requires !sc.foundStart && !sc.stopped
    requires n <= |lines|
    requires forall j :: 0 <= j < n ==> !IsStart(lines[j])
    ensures ScanFrom(sc, lines) == ScanFrom(sc, lines[n..])
    decreases n
  {
    if n > 0 {
      SkipUntilStart(sc, lines[1..], n - 1);
      assert lines[1..][n - 1..] == lines[n..];
    }
  }

  /** After the start marker, lines without the end marker are kept in order. */
  lemma {:induction false} CollectUntilEnd(sc: Scan, lines: seq<string>, n: nat)
    requires sc.foundStart && !sc.stopped
    requires n <= |lines|
    requires forall j :: 0 <= j < n ==> !IsEnd(lines[j])
    ensures ScanFrom(sc, lines) == ScanFrom(sc.(out := sc.out + lines[..n]), lines[n..])
    decreases n
  {
    if n == 0 {
      assert sc.out + lines[..0] == sc.out;
    } else {
      var next := sc.(out := sc.out + [lines[0]]);
      CollectUntilEnd(next, lines[1..], n - 1);
      assert lines[1..][n - 1..] == lines[n..];
      assert next.out + lines[1..][..n - 1] == sc.out + lines[..n];
    }
  }

  /** The scan computes what the reference description prescribes. */
  lemma ScanMatchesExpected(lines: seq<string>)
    ensures var sc := ScanFrom(Initial, lines);
            Expected(lines) ==
              if sc.foundStart then SnippetResult(Join(sc.out), true)
              else SnippetResult(Join(lines), false)
  {
    var s := FirstMarked(lines, StartMarker, 0);
    SkipUntilStart(Initial, lines, s);
    if s < |lines| {
      assert lines[s..][1..] == lines[s + 1..];
      ScanAfterStart(lines, s, FirstMarked(lines, EndMarker, s + 1));
    }
  }

  /** After the start marker at line `s`, the scan keeps the lines up to the
      first end marker `e` after it. */
  lemma ScanAfterStart(lines: seq<string>, s: nat, e: nat)
    requires s < e <= |lines|
    requires e < |lines| ==> IsEnd(lines[e])
    requires forall j :: s < j < e ==> !IsEnd(lines[j])
    ensures ScanFrom(Scan(true, false, []), lines[s + 1..]) == Scan(true, e < |lines|, lines[s + 1..e])
  {
    var rest := lines[s + 1..];
    forall j | 0 <= j < e - (s + 1)
      ensures !IsEnd(rest[j])
    {
      assert rest[j] == lines[s + 1 + j];
    }
    if e < |lines| {
      assert rest[e - (s + 1)] == lines[e];
    }
    CollectRegion(rest, e - (s + 1));
    assert rest[..e - (s + 1)] == lines[s + 1..e];
  }

  /** From just after the start marker, the scan keeps exactly the lines
      before the first end marker `n`. */
  lemma CollectRegion(rest: seq<string>, n: nat)
    requires n <= |rest|
    requires forall j :: 0 <= j < n ==> !IsEnd(rest[j])
    requires n < |rest| ==> IsEnd(rest[n])
    ensures ScanFrom(Scan(true, false, []), rest) == Scan(true, n < |rest|, rest[..n])
  {
    var openScan := Scan(true, false, []);
    CollectUntilEnd(openScan, rest, n);
    var kept := openScan.(out := openScan.out + rest[..n]);
    assert kept == Scan(true, false, rest[..n]);
    if n < |rest| {
      var tail := rest[n..];
      assert tail[0] == rest[n];
      assert Step(kept, tail[0]) == kept.(stopped := true);
      StoppedStays(kept.(stopped := true), tail[1..]);
    } else {
      assert rest[n..] == [];
    }
  }

  /** No start-marker line: the input comes back unchanged, flagged as
      lacking an example. Covers the empty input and input holding only an
      end marker. */
  lemma NoStartMarker(text: string)
    requires forall i :: 0 <= i < |Split(text)| ==> !IsStart(Split(text)[i])
    ensures FindExample(text) == SnippetResult(text, false)
  {
    FoundIffStartMarker(text);
  }

  /** The reference description of a region that opens at line `s` and
      closes at line `e`, or runs to the end when `e == |lines|`. */
  lemma ExpectedRegion(lines: seq<string>, s: nat, e: nat)
    requires s < e <= |lines|
    requires IsStart(lines[s]) && (e < |lines| ==> IsEnd(lines[e]))
    requires forall j :: 0 <= j < s ==> !IsStart(lines[j])
    requires forall j :: s < j < e ==> !IsEnd(lines[j])
    ensures Expected(lines) == SnippetResult(Join(lines[s + 1..e]), true)
  {
    FirstMarkedIsFirst(lines, StartMarker, 0, s);
    FirstMarkedIsFirst(lines, EndMarker, s + 1, e);
  }

  /** A start marker at line `s` closed by an end marker at line `e`: the
      result is exactly the lines strictly between them. */
  lemma MarkedRegion(text: string, s: nat, e: nat)
    requires s < e < |Split(text)|
    requires IsStart(Split(text)[s]) && IsEnd(Split(text)[e])
    requires forall j :: 0 <= j < s ==> !IsStart(Split(text)[j])
    requires forall j :: s < j < e ==> !IsEnd(Split(text)[j])
    ensures FindExample(text) == SnippetResult(Join(Split(text)[s + 1..e]), true)
  {
    FindExampleIsExpected(text);
    ExpectedRegion(Split(text), s, e);
  }

  /** A start marker at line `s` never closed: the result is every line after
      it to the end of input. */
  lemma Unterminated(text: string, s: nat)
    requires s < |Split(text)|
    requires IsStart(Split(text)[s])
    requires forall j :: 0 <= j < s ==> !IsStart(Split(text)[j])
    requires forall j :: s < j < |Split(text)| ==> !IsEnd(Split(text)[j])
    ensures FindExample(text) == SnippetResult(Join(Split(text)[s + 1..]), true)
  {
    var lines := Split(text);
    FindExampleIsExpected(text);
    ExpectedRegion(lines, s, |lines|);
    SliceToEnd(lines, s + 1);
  }

  /** `FirstMarked` finds the first marked index: any `k` marked (or at the
      end) with nothing marked before it is that index. */
  lemma {:induction false} FirstMarkedIsFirst(lines: seq<string>, marker: string, from: nat, k: nat)
    requires from <= k <= |lines|
    requires k < |lines| ==> Contains(lines[k], marker)
    requires forall j :: from <= j < k ==> !Contains(lines[j], marker)
    ensures FirstMarked(lines, marker, from) == k
    decreases k - from
  {
    if from < k {
      FirstMarkedIsFirst(lines, marker, from + 1, k);
    }
  }

  /** Only the first start marker counts: a later start-marker line inside
      the snippet is kept as an ordinary line of the output. */
  lemma OnlyFirstStartHonoured(text: string, s: nat, k: nat)
    requires s < k < |Split(text)|
    requires IsStart(Split(text)[s]) && IsStart(Split(text)[k])
    requires forall j :: 0 <= j < s ==> !IsStart(Split(text)[j])
    requires forall j :: s < j <= k ==> !IsEnd(Split(text)[j])
    ensures FindExample(text).foundEg
    ensures k - s - 1 < |Split(FindExample(text).data)|
    ensures Split(FindExample(text).data)[k - s - 1] == Split(text)[k]
  {
    FindExampleIsExpected(text);
    var lines := Split(text);
    FirstMarkedIsFirst(lines, StartMarker, 0, s);
    var e := FirstMarked(lines, EndMarker, s + 1);
    assert k < e;
    SplitJoinSlice(lines, s + 1, e);
    assert lines[s + 1..e][k - s - 1] == lines[k];
  }

  /** Lines before the first start marker, end-marker lines included, have
      no effect on the result. */
  lemma PrefixBeforeStartIgnored(before: string, after: string)
    requires forall i :: 0 <= i < |Split(before)| ==> !IsStart(Split(before)[i])
    requires HasExample(after)
    ensures FindExample(before + [Newline] + after) == FindExample(after)
  {
    var pre := Split(before);
    var lines := Split(before + [Newline] + after);
    SplitAppend(before, after);
    assert lines == pre + Split(after);
    SkipUntilStart(Initial, lines, |pre|);
    assert lines[|pre|..] == Split(after);
    ScanMatchesExpected(lines);
    ScanMatchesExpected(Split(after));
  }

  /** Extracting again from an extracted snippet is a no-op reporting no
      example, when the snippet itself holds no start-marker line. Lines
      outside the snippet may hold further markers. */
  lemma ReExtractIsNoOp(text: string)
    requires var lines := Split(text);
             var s := FirstMarked(lines, StartMarker, 0);
             s < |lines| ==> forall j :: s < j < FirstMarked(lines, EndMarker, s + 1) ==> !IsStart(lines[j])
    ensures var r := FindExample(text);
            FindExample(r.data) == SnippetResult(r.data, false)
  {
    FindExampleIsExpected(text);
    var lines := Split(text);
    var s := FirstMarked(lines, StartMarker, 0);
    if s < |lines| {
      JoinedLinesLackStart(lines, s + 1, FirstMarked(lines, EndMarker, s + 1));
    }
  }

  /** Re-joining a slice of split lines without start markers gives a text
      whose own lines have none either. */
  lemma JoinedLinesLackStart(lines: seq<string>, lo: nat, hi: nat)
    requires lo <= hi <= |lines|
    requires NoNewlines(lines)
    requires forall j :: lo <= j < hi ==> !IsStart(lines[j])
    ensures FindExample(Join(lines[lo..hi])) == SnippetResult(Join(lines[lo..hi]), false)
  {
    var kept := lines[lo..hi];
    if |kept| == 0 {
      SplitSingleLine("");
      ShortLineLacksPattern("", StartMarker);
    } else {
      SplitJoinSlice(lines, lo, hi);
      forall j | 0 <= j < |kept| ensures !IsStart(kept[j]) {
        assert kept[j] == lines[lo + j];
      }
    }
    NoStartMarker(Join(kept));
  }

  /** The lines of the worked instance below. */
  lemma ScenarioLines()
    ensures Split("a\n" + StartMarker + "\nX\nY\n" + EndMarker + "\nb")
         == ["a", StartMarker, "X", "Y", EndMarker, "b"]
  {
    var l4 := [EndMarker, "b"];
    var l3 := ["Y"] + l4;
    var l2 := ["X"] + l3;
    var l1 := [StartMarker] + l2;
    var lines := ["a"] + l1;
    assert Join(l4) == EndMarker + "\nb" by { assert l4[1..] == ["b"]; }
    assert Join(l3) == "Y\n" + EndMarker + "\nb" by { assert l3[1..] == l4; }
    assert Join(l2) == "X\nY\n" + EndMarker + "\nb" by { assert l2[1..] == l3; }
    assert Join(l1) == StartMarker + "\nX\nY\n" + EndMarker + "\nb" by { assert l1[1..] == l2; }
    assert Join(lines) == "a\n" + StartMarker + "\nX\nY\n" + EndMarker + "\nb" by { assert lines[1..] == l1; }
    assert lines == ["a", StartMarker, "X", "Y", EndMarker, "b"];
    SplitJoin(lines);
  }

  /** A worked instance: a marked region in the middle of a file. */
  lemma ExtractsMarkedRegion()
    ensures FindExample("a\n" + StartMarker + "\nX\nY\n" + EndMarker + "\nb")
         == SnippetResult("X\nY", true)
  {
    var text := "a\n" + StartMarker + "\nX\nY\n" + EndMarker + "\nb";
    var lines := ["a", StartMarker, "X", "Y", EndMarker, "b"];
    ScenarioLines();
    ShortLineLacksPattern("a", StartMarker);
    ShortLineLacksPattern("X", EndMarker);
    ShortLineLacksPattern("Y", EndMarker);
    ContainsItself(StartMarker);
    ContainsItself(EndMarker);
    MarkedRegion(text, 1, 4);
    assert lines[2..4] == ["X", "Y"];
  }

  /** A worked instance: a file without markers comes back whole. */
  lemma KeepsUnmarkedFile()
    ensures FindExample("plain text") == SnippetResult("plain text", false)
  {
    SplitSingleLine("plain text");
    ShortLineLacksPattern("plain text", StartMarker);
    NoStartMarker("plain text");
  }
}
