/** The per-file step `process` and its per-language driver `doLang`: fetch
    a file (retrying once on a falsy reply), extract its snippet, tally files
    without markers, and write the result into the output directory with the
    create-only flag `wx`. */
module Sync {
  import opened Results
  import opened Text
  import opened Snippet

  /** What one request to the content endpoint yields: the raw body, or
      `false` when `ghApi` caught an error. */
  datatype FetchOutcome = Body(text: string) | Failed

  /** JavaScript truthiness: `false` and the empty body are both falsy. */
  predicate Falsy(o: FetchOutcome)
  {
    o.Failed? || o.text == ""
  }

  /** One configured repository (`item`): its display name, language code,
      owner, repository name and path prefix. */
  datatype SourceItem = SourceItem(name: string, langCode: string, owner: string, repo: string, pathPrefix: string)

  /** A content request: owner, repository and file path. */
  datatype Request = Request(owner: string, repo: string, path: string)

  /** The remote service, abstracted: the reply to the n-th content request
      of the run. */
  type Replies = nat -> FetchOutcome

  /** What a run has done so far: the requests issued, in order; the
      `tallyNoExamples` list; and the output directory, file name to text. */
  datatype SyncState = SyncState(requests: seq<Request>, tally: seq<string>, outDir: map<string, string>)

  /** Why a step aborts the run, in the code as written or in the model: the
      progress line calls `process.stdout.write`, where `process` is the
      module's own function, which throws a `TypeError`; the retry's pause
      calls `new Date.now()`, which throws one too; extracting from a failed
      fetch throws on `false.split`; or an output file already exists. */
  datatype SyncError =
    | ProgressFailed
    | WaitFailed(fileName: string)
    | ExtractFailed(fileName: string)
    | OutputExists(fileName: string)

  /** The outcome of `doLang`: the state after it and its returned count. */
  datatype LangDone = LangDone(state: SyncState, count: nat)

  /** The request `ghGetFile` issues for `fileName` of `item`. */
  function RequestFor(item: SourceItem, fileName: string): Request
  {
    Request(item.owner, item.repo, item.pathPrefix + fileName)
  }

  /** Contents fetched for one file, and the request log after fetching. */
  datatype Fetched = Fetched(contents: FetchOutcome, requests: seq<Request>)

  /** The fetch with its single retry: a second request for the same file
      exactly when the first reply is falsy, never a third; the contents are
      the last reply. */
  function FetchWithRetry(requests: seq<Request>, req: Request, replies: Replies): (f: Fetched)
    ensures f.requests == requests + [req] || f.requests == requests + [req, req]
    ensures |f.requests| == |requests| + 2 <==> Falsy(replies(|requests|))
    ensures f.contents == replies(|f.requests| - 1)
  {
    var first := replies(|requests|);
    if Falsy(first) then Fetched(replies(|requests| + 1), requests + [req, req])
    else Fetched(first, requests + [req])
  }

  /** The text handed to the extractor: a failed fetch counts as empty. */
  function ContentsText(o: FetchOutcome): string
  {
    match o
    case Body(text) => text
    case Failed => ""
  }

  /** `process(item, fileName)`: fetch with one retry, extract, tally the file
      when it has no start marker, and create its output file, failing when
      the name is already taken. A fetch that failed twice is extracted as an
      empty file. */
  function Process(st: SyncState, item: SourceItem, fileName: string, replies: Replies): (r: Result<SyncState, SyncError>)
    ensures r.Success? <==> fileName !in st.outDir
    ensures r.Failure? ==> r.error == OutputExists(fileName)
    ensures r.Success? ==>
              && r.value.requests == FetchWithRetry(st.requests, RequestFor(item, fileName), replies).requests
              && (r.value.tally == st.tally || r.value.tally == st.tally + [fileName])
              && r.value.outDir.Keys == st.outDir.Keys + {fileName}
              && (forall k :: k in st.outDir ==> r.value.outDir[k] == st.outDir[k])
  {
    var f := FetchWithRetry(st.requests, RequestFor(item, fileName), replies);
    var res := FindExample(ContentsText(f.contents));
    var tally := if res.foundEg then st.tally else st.tally + [fileName];
    if fileName in st.outDir then Failure(OutputExists(fileName))
    else Success(SyncState(f.requests, tally, st.outDir[fileName := res.data]))
  }

  /** The file is tallied exactly when its fetched text has no start-marker
      line; a tallied file is written whole, any other gets its snippet. */
  lemma ProcessTallies(st: SyncState, item: SourceItem, fileName: string, replies: Replies)
    requires fileName !in st.outDir
    ensures var text := ContentsText(FetchWithRetry(st.requests, RequestFor(item, fileName), replies).contents);
            var after := Process(st, item, fileName, replies).value;
            && (after.tally == st.tally + [fileName] <==> !HasExample(text))
            && (!HasExample(text) ==> after.outDir[fileName] == text)
            && (HasExample(text) ==> after.outDir[fileName] == FindExample(text).data)
  {
    FoundIffStartMarker(ContentsText(FetchWithRetry(st.requests, RequestFor(item, fileName), replies).contents));
  }

  /** `process` as the code is written: a falsy first reply leads into the
      pause loop, whose `new Date.now()` is `new (Date.now)()` and throws a
      `TypeError` before the retry is sent, aborting the run. A truthy first
      reply is processed as usual. */
  function ProcessAsWritten(st: SyncState, item: SourceItem, fileName: string, replies: Replies): (r: Result<SyncState, SyncError>)
    ensures Falsy(replies(|st.requests|)) ==> r == Failure(WaitFailed(fileName))
    ensures !Falsy(replies(|st.requests|)) ==> r == Process(st, item, fileName, replies)
  {
    if Falsy(replies(|st.requests|)) then Failure(WaitFailed(fileName))
    else ProcessWaitRepaired(st, item, fileName, replies)
  }

  /** `process` with the pause repaired, the rest as written: when both
      fetches fail the contents are `false`, and `findExample(false)` throws
      on `false.split`, aborting the run. */
  function ProcessWaitRepaired(st: SyncState, item: SourceItem, fileName: string, replies: Replies): (r: Result<SyncState, SyncError>)
    ensures FetchWithRetry(st.requests, RequestFor(item, fileName), replies).contents.Failed? ==>
              r == Failure(ExtractFailed(fileName))
    ensures !FetchWithRetry(st.requests, RequestFor(item, fileName), replies).contents.Failed? ==>
              r == Process(st, item, fileName, replies)
  {
    var f := FetchWithRetry(st.requests, RequestFor(item, fileName), replies);
    if f.contents.Failed? then Failure(ExtractFailed(fileName))
    else Process(st, item, fileName, replies)
  }

  /** As written, any falsy first reply, a failed request or an empty body,
      aborts the run before the retry. */
  lemma FalsyFirstReplyAbortsAsWritten(st: SyncState, item: SourceItem, fileName: string, replies: Replies)
    requires Falsy(replies(|st.requests|))
    ensures ProcessAsWritten(st, item, fileName, replies) == Failure(WaitFailed(fileName))
    ensures |FetchWithRetry(st.requests, RequestFor(item, fileName), replies).requests| == |st.requests| + 2
  {
  }

  /** With the retry working, a falsy first reply followed by a body is
      recovered: two requests for the file, and the second reply is
      extracted and written. */
  lemma RetryRecovers(st: SyncState, item: SourceItem, fileName: string, replies: Replies, text: string)
    requires fileName !in st.outDir
    requires Falsy(replies(|st.requests|)) && replies(|st.requests| + 1) == Body(text)
    ensures Process(st, item, fileName, replies).Success?
    ensures var after := Process(st, item, fileName, replies).value;
            && after.requests == st.requests + [RequestFor(item, fileName), RequestFor(item, fileName)]
            && after.outDir[fileName] == FindExample(text).data
  {
  }

  /** A service whose first reply is an empty body and whose later replies
      are `plain text`. */
  function EmptyThenPlain(n: nat): FetchOutcome
  {
    if n == 0 then Body("") else Body("plain text")
  }

  /** An empty first body: the code as written aborts, while the retrying
      step writes the second reply. */
  lemma EmptyFirstReplyAsWritten(item: SourceItem)
    ensures ProcessAsWritten(SyncState([], [], map[]), item, "f", EmptyThenPlain) == Failure(WaitFailed("f"))
    ensures Process(SyncState([], [], map[]), item, "f", EmptyThenPlain).Success?
    ensures Process(SyncState([], [], map[]), item, "f", EmptyThenPlain).value.outDir["f"] == "plain text"
  {
    RetryRecovers(SyncState([], [], map[]), item, "f", EmptyThenPlain, "plain text");
    KeepsUnmarkedFile();
  }

  /** The service that never answers. */
  function AlwaysFailing(n: nat): FetchOutcome
  {
    Failed
  }

  /** With the pause repaired, a file whose two fetches both fail still
      aborts the run, now in the extractor. */
  lemma DoubleFailureAbortsWaitRepaired(st: SyncState, item: SourceItem, fileName: string)
    ensures ProcessWaitRepaired(st, item, fileName, AlwaysFailing) == Failure(ExtractFailed(fileName))
  {
  }

  /** With the failure read as empty content, a file whose two fetches both
      fail is written empty and tallied, and the run goes on. */
  lemma DoubleFailureWritesEmptyFile(st: SyncState, item: SourceItem, fileName: string)
    requires fileName !in st.outDir
    ensures Process(st, item, fileName, AlwaysFailing).Success?
    ensures var after := Process(st, item, fileName, AlwaysFailing).value;
            after.tally == st.tally + [fileName] && after.outDir[fileName] == ""
            && |after.requests| == |st.requests| + 2
  {
    SplitSingleLine("");
    ShortLineLacksPattern("", StartMarker);
  }

  /** The list of file names configured for a language; a missing entry is
      `undefined`, over which `for ... in` iterates nothing. */
  function FileNames(docNames: map<string, seq<string>>, langCode: string): seq<string>
  {
    if langCode in docNames then docNames[langCode] else []
  }

  /** No name occurs twice. */
  predicate Distinct(names: seq<string>)
  {
    forall i, j :: 0 <= i < j < |names| ==> names[i] != names[j]
  }

  /** The names of `names` picked out by `mask`, in order. */
  function Select(names: seq<string>, mask: seq<bool>): seq<string>
    requires |mask| == |names|
    decreases |names|
  {
    if |names| == 0 then []
    else Select(names[..|names| - 1], mask[..|mask| - 1]) + (if mask[|mask| - 1] then [names[|names| - 1]] else [])
  }

  /** `process` applied to each name in turn, stopping at the first failure. */
  function ProcessAll(st: SyncState, item: SourceItem, names: seq<string>, replies: Replies): Result<SyncState, SyncError>
    decreases |names|
  {
    if |names| == 0 then Success(st)
    else
      match ProcessAll(st, item, names[..|names| - 1], replies)
      case Failure(e) => Failure(e)
      case Success(mid) => Process(mid, item, names[|names| - 1], replies)
  }

  /** A pass only appends to the request log and to the tally and only adds
      output files; when it fails, it is because an output file exists. */
  lemma {:induction false} ProcessAllGrows(st: SyncState, item: SourceItem, names: seq<string>, replies: Replies)
    ensures var r := ProcessAll(st, item, names, replies);
            && (r.Failure? ==> r.error.OutputExists?)
            && (r.Success? ==>
                  && st.requests <= r.value.requests
                  && st.tally <= r.value.tally
                  && st.outDir.Keys <= r.value.outDir.Keys)
    decreases |names|
  {
    if |names| > 0 {
      ProcessAllGrows(st, item, names[..|names| - 1], replies);
    }
  }

  /** Processing a list of files succeeds exactly when the names are
      distinct and none is already in the output directory; a failure names
      one of the files. */
  lemma {:induction false} ProcessAllSucceedsIff(st: SyncState, item: SourceItem, names: seq<string>, replies: Replies)
    ensures ProcessAll(st, item, names, replies).Success? <==>
              Distinct(names) && AllNew(names, st.outDir.Keys)
    ensures ProcessAll(st, item, names, replies).Failure? ==>
              exists i :: 0 <= i < |names| && ProcessAll(st, item, names, replies).error == OutputExists(names[i])
    decreases |names|
  {
    if |names| > 0 {
      var init := names[..|names| - 1];
      var last := names[|names| - 1];
      assert names == init + [last];
      ProcessAllSucceedsIff(st, item, init, replies);
      DistinctSnoc(init, last);
      AllNewSnoc(init, last, st.outDir.Keys);
      var prior := ProcessAll(st, item, init, replies);
      if prior.Failure? {
        var i :| 0 <= i < |init| && prior.error == OutputExists(init[i]);
        assert init[i] == names[i];
      } else {
        ProcessAllOutput(st, item, init, replies);
        assert last in prior.value.outDir <==> last in st.outDir || last in init;
      }
    }
  }

  /** No name of `names` is among `taken`. */
  predicate AllNew(names: seq<string>, taken: set<string>)
  {
    forall i :: 0 <= i < |names| ==> names[i] !in taken
  }

  /** A list is new when its front is and its last name is. */
  lemma AllNewSnoc(init: seq<string>, last: string, taken: set<string>)
    ensures AllNew(init + [last], taken) <==> AllNew(init, taken) && last !in taken
  {
    var names := init + [last];
    assert names[|init|] == last;
    forall i | 0 <= i < |init| ensures names[i] == init[i] { }
  }

  /** A list is distinct when its front is and its last name is new. */
  lemma DistinctSnoc(init: seq<string>, last: string)
    ensures Distinct(init + [last]) <==> Distinct(init) && last !in init
  {
    var names := init + [last];
    if Distinct(init) && last !in init {
      forall a, b | 0 <= a < b < |names| ensures names[a] != names[b] {
        if b == |names| - 1 {
          assert names[a] == init[a];
        } else {
          assert names[a] == init[a] && names[b] == init[b];
        }
      }
    }
    if Distinct(names) {
      forall a, b | 0 <= a < b < |init| ensures init[a] != init[b] {
        assert init[a] == names[a] && init[b] == names[b];
      }
      forall a | 0 <= a < |init| ensures init[a] != last {
        assert init[a] == names[a] && names[|names| - 1] == last;
      }
    }
  }

  /** A successful pass adds exactly one output file per name and leaves the
      existing files as they were. */
  lemma {:induction false} ProcessAllOutput(st: SyncState, item: SourceItem, names: seq<string>, replies: Replies)
    ensures ProcessAll(st, item, names, replies).Success? ==>
              var end := ProcessAll(st, item, names, replies).value;
              && end.outDir.Keys == st.outDir.Keys + (set n | n in names)
              && (forall k :: k in st.outDir ==> end.outDir[k] == st.outDir[k])
    decreases |names|
  {
    if |names| == 0 {
      assert (set n | n in names) == {};
    } else {
      var init := names[..|names| - 1];
      var last := names[|names| - 1];
      assert names == init + [last];
      ProcessAllOutput(st, item, init, replies);
      NameSetSnoc(init, last);
      var prior := ProcessAll(st, item, init, replies);
      if prior.Success? {
        assert ProcessAll(st, item, names, replies) == Process(prior.value, item, last, replies);
      }
    }
  }

  /** The names of a list with one more name. */
  lemma NameSetSnoc(init: seq<string>, last: string)
    ensures (set n | n in init + [last]) == (set n | n in init) + {last}
  {
  }

  /** A successful pass keeps the existing tally and appends to it the
      flagged names, in their order. */
  lemma {:induction false} ProcessAllTally(st: SyncState, item: SourceItem, names: seq<string>, replies: Replies)
    ensures ProcessAll(st, item, names, replies).Success? ==>
              var end := ProcessAll(st, item, names, replies).value;
              exists mask :: |mask| == |names| && end.tally == st.tally + Select(names, mask)
    decreases |names|
  {
    if |names| == 0 {
      assert st.tally == st.tally + Select(names, []);
    } else {
      var init := names[..|names| - 1];
      var last := names[|names| - 1];
      assert names == init + [last];
      ProcessAllTally(st, item, init, replies);
      var prior := ProcessAll(st, item, init, replies);
      if prior.Success? {
        var mid := prior.value;
        var r := Process(mid, item, last, replies);
        assert ProcessAll(st, item, names, replies) == r;
        if r.Success? {
          var mask :| |mask| == |init| && mid.tally == st.tally + Select(init, mask);
          var mask' := TallyStep(st.tally, mid, item, init, last, mask, replies);
        }
      }
    }
  }

  /** One more processed file extends the flag mask by one entry. */
  lemma TallyStep(tally: seq<string>, mid: SyncState, item: SourceItem, init: seq<string>, last: string,
                  mask: seq<bool>, replies: Replies) returns (mask': seq<bool>)
    requires |mask| == |init| && mid.tally == tally + Select(init, mask)
    requires Process(mid, item, last, replies).Success?
    ensures |mask'| == |init| + 1
    ensures Process(mid, item, last, replies).value.tally == tally + Select(init + [last], mask')
  {
    var after := Process(mid, item, last, replies).value;
    var flagged := after.tally != mid.tally;
    mask' := mask + [flagged];
    SelectSnoc(init, mask, last, flagged);
  }

  /** Selecting from a list with one more name and one more flag. */
  lemma SelectSnoc(names: seq<string>, mask: seq<bool>, last: string, flag: bool)
    requires |mask| == |names|
    ensures Select(names + [last], mask + [flag]) == Select(names, mask) + (if flag then [last] else [])
  {
    assert (names + [last])[..|names|] == names;
    assert (mask + [flag])[..|mask|] == mask;
  }

  /** A successful pass issues one or two requests per file, after the
      requests already made. */
  lemma {:induction false} ProcessAllRequests(st: SyncState, item: SourceItem, names: seq<string>, replies: Replies)
    ensures ProcessAll(st, item, names, replies).Success? ==>
              var end := ProcessAll(st, item, names, replies).value;
              && st.requests <= end.requests
              && |st.requests| + |names| <= |end.requests| <= |st.requests| + 2 * |names|
    decreases |names|
  {
    if |names| > 0 {
      ProcessAllRequests(st, item, names[..|names| - 1], replies);
    }
  }

  /** `doLang(item)`: process every file configured for the item's language,
      in order, and return how many were processed; the first failing file
      aborts the language. */
  method DoLang(st: SyncState, item: SourceItem, docNames: map<string, seq<string>>, replies: Replies)
    returns (r: Result<LangDone, SyncError>)
    ensures var names := FileNames(docNames, item.langCode);
            r.Success? <==> Distinct(names) && AllNew(names, st.outDir.Keys)
    ensures r.Success? ==> r.value.count == |FileNames(docNames, item.langCode)|
    ensures r.Success? ==> ProcessAll(st, item, FileNames(docNames, item.langCode), replies) == Success(r.value.state)
    ensures r.Failure? ==> ProcessAll(st, item, FileNames(docNames, item.langCode), replies) == Failure(r.error)
  {
    var names := FileNames(docNames, item.langCode);
    ProcessAllSucceedsIff(st, item, names, replies);
    var count := 0;
    var cur := st;
    while count < |names|
      invariant 0 <= count <= |names|
      invariant ProcessAll(st, item, names[..count], replies) == Success(cur)
    {
      var next := Process(cur, item, names[count], replies);
      ProcessAllExtend(st, item, names, count, replies);
      if next.Failure? {
        FailureStops(st, item, names, count + 1, replies);
        return Failure(next.error);
      }
      cur := next.value;
      count := count + 1;
    }
    assert names[..count] == names;
    return Success(LangDone(cur, count));
  }

  /** `doLang(item)` as the code is written: before the first file it writes
      a progress line with `exactLog`, whose `process.stdout` looks up the
      module's own `process` function, which has no `stdout`; the `TypeError`
      aborts the run before any request. Only an empty list gets through. */
  function DoLangAsWritten(st: SyncState, item: SourceItem, docNames: map<string, seq<string>>): (r: Result<LangDone, SyncError>)
    ensures r.Success? <==> |FileNames(docNames, item.langCode)| == 0
    ensures r.Success? ==> r.value == LangDone(st, 0)
    ensures r.Failure? ==> r.error == ProgressFailed
  {
    if |FileNames(docNames, item.langCode)| == 0 then Success(LangDone(st, 0))
    else Failure(ProgressFailed)
  }

  /** A language with two configured files, as in the worked instance below. */
  function ScenarioDocNames(item: SourceItem): map<string, seq<string>>
  {
    map[item.langCode := ["f1", "f2"]]
  }

  /** As written, the two-file language aborts before any request, while the
      intended driver processes both files and counts them. */
  method ScenarioAsWritten(item: SourceItem) returns (r: Result<LangDone, SyncError>)
    ensures DoLangAsWritten(SyncState([], [], map[]), item, ScenarioDocNames(item)) == Failure(ProgressFailed)
    ensures r.Success? && r.value.count == 2
    ensures r.value.state.outDir == map["f1" := "X\nY", "f2" := "plain text"]
  {
    TwoFileScenario(item);
    r := DoLang(SyncState([], [], map[]), item, ScenarioDocNames(item), ScenarioReplies);
  }

  /** Processing one more name of the list continues from the prefix's
      state. */
  lemma ProcessAllExtend(st: SyncState, item: SourceItem, names: seq<string>, n: nat, replies: Replies)
    requires n < |names|
    requires ProcessAll(st, item, names[..n], replies).Success?
    ensures ProcessAll(st, item, names[..n + 1], replies)
         == Process(ProcessAll(st, item, names[..n], replies).value, item, names[n], replies)
  {
    assert names[..n + 1][..n] == names[..n];
  }

  /** Once a prefix of the names fails, processing the whole list fails with
      the same error. */
  lemma {:induction false} FailureStops(st: SyncState, item: SourceItem, names: seq<string>, n: nat, replies: Replies)
    requires n <= |names|
    requires ProcessAll(st, item, names[..n], replies).Failure?
    ensures ProcessAll(st, item, names, replies) == ProcessAll(st, item, names[..n], replies)
    decreases |names| - n
  {
    if n < |names| {
      assert names[..n + 1][..n] == names[..n];
      FailureStops(st, item, names, n + 1, replies);
    } else {
      assert names[..n] == names;
    }
  }

  /** Replies of the worked instance below: a marked file, then a plain one. */
  function ScenarioReplies(n: nat): FetchOutcome
  {
    if n == 0 then Body("a\n" + StartMarker + "\nX\nY\n" + EndMarker + "\nb")
    else Body("plain text")
  }

  /** A worked instance: two files of one item; the marked one is written as
      its snippet, the plain one whole and tallied, one request each. */
  lemma TwoFileScenario(item: SourceItem)
    ensures ProcessAll(SyncState([], [], map[]), item, ["f1", "f2"], ScenarioReplies)
         == Success(SyncState([RequestFor(item, "f1"), RequestFor(item, "f2")], ["f2"],
                              map["f1" := "X\nY", "f2" := "plain text"]))
  {
    var names := ["f1", "f2"];
    var empty := SyncState([], [], map[]);
    var mid := SyncState([RequestFor(item, "f1")], [], map["f1" := "X\nY"]);
    assert names[..1] == ["f1"];
    assert names[..1][..0] == [];
    assert ProcessAll(empty, item, names[..1], ScenarioReplies) == Success(mid) by {
      ScenarioFirstFile(item);
    }
    ScenarioSecondFile(item, mid);
  }

  /** A step whose first reply is a non-empty body. */
  lemma ProcessFirstReply(st: SyncState, item: SourceItem, fileName: string, replies: Replies, text: string)
    requires fileName !in st.outDir
    requires replies(|st.requests|) == Body(text) && text != ""
    ensures var res := FindExample(text);
            Process(st, item, fileName, replies) ==
              Success(SyncState(st.requests + [RequestFor(item, fileName)],
                                if res.foundEg then st.tally else st.tally + [fileName],
                                st.outDir[fileName := res.data]))
  {
  }

  /** First step of the worked instance. */
  lemma ScenarioFirstFile(item: SourceItem)
    ensures Process(SyncState([], [], map[]), item, "f1", ScenarioReplies)
         == Success(SyncState([RequestFor(item, "f1")], [], map["f1" := "X\nY"]))
  {
    var text := "a\n" + StartMarker + "\nX\nY\n" + EndMarker + "\nb";
    assert ScenarioReplies(0) == Body(text);
    assert |text| > 0;
    ExtractsMarkedRegion();
    var empty := SyncState([], [], map[]);
    ProcessFirstReply(empty, item, "f1", ScenarioReplies, text);
    assert empty.requests + [RequestFor(item, "f1")] == [RequestFor(item, "f1")];
    assert empty.outDir["f1" := "X\nY"] == map["f1" := "X\nY"];
  }

  /** A step whose first reply is the unmarked body `plain text`. */
  lemma ProcessPlainText(st: SyncState, item: SourceItem, fileName: string, replies: Replies)
    requires fileName !in st.outDir
    requires replies(|st.requests|) == Body("plain text")
    ensures Process(st, item, fileName, replies) ==
              Success(SyncState(st.requests + [RequestFor(item, fileName)], st.tally + [fileName],
                                st.outDir[fileName := "plain text"]))
  {
    KeepsUnmarkedFile();
    ProcessFirstReply(st, item, fileName, replies, "plain text");
  }

  /** Second step of the worked instance. */
  lemma ScenarioSecondFile(item: SourceItem, mid: SyncState)
    requires mid == SyncState([RequestFor(item, "f1")], [], map["f1" := "X\nY"])
    ensures Process(mid, item, "f2", ScenarioReplies)
         == Success(SyncState([RequestFor(item, "f1"), RequestFor(item, "f2")], ["f2"],
                              map["f1" := "X\nY", "f2" := "plain text"]))
  {
    assert ScenarioReplies(1) == Body("plain text");
    assert "f2" !in mid.outDir by { assert "f2" != "f1"; }
    ProcessPlainText(mid, item, "f2", ScenarioReplies);
    ScenarioSecondState(item, mid);
  }

  /** The state after the second step, written out. */
  lemma ScenarioSecondState(item: SourceItem, mid: SyncState)
    requires mid == SyncState([RequestFor(item, "f1")], [], map["f1" := "X\nY"])
    ensures SyncState(mid.requests + [RequestFor(item, "f2")], mid.tally + ["f2"],
                      mid.outDir["f2" := "plain text"])
         == SyncState([RequestFor(item, "f1"), RequestFor(item, "f2")], ["f2"],
                      map["f1" := "X\nY", "f2" := "plain text"])
  {
    assert mid.tally + ["f2"] == ["f2"];
    assert mid.requests + [RequestFor(item, "f2")] == [RequestFor(item, "f1"), RequestFor(item, "f2")];
  }
}
