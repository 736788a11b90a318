/** `start_download` (lines 135-148): load the done list from the log,
    announce the run, read the work list and run the batch; and what one
    run leaves in the log for the next press of the button. */
module Session {
  import opened Wrappers
  import WorkList
  import Text
  import opened CompletionLog
  import opened Download
  import opened BatchRunner

  /** The exceptions a press of the button does not catch. */
  datatype Fault =
    | LoadFailed(error: LoadError)  // `next()` or `row[3]` in `get_processed_urls`
    | WorkListUnreadable            // `open(url_file_path)` at line 89

  /** One press of the button: the messages shown after the progress text
      is cleared, the rows appended, the entries handed to the renderer, the
      log afterwards and the uncaught exception, if any. */
  datatype Press = Press(
    events: seq<Event>,
    rows: seq<Row>,
    rendered: seq<nat>,
    log: LogFile,
    fault: Option<Fault>)

  /** The rows a log holds; a missing file holds none. */
  function RowsOf(log: LogFile): seq<Row>
  {
    match log
      case Missing => []
      case Present(rows) => rows
  }

  /** Appending in mode 'a': the file is created by the first row written.
      When the file cannot be opened nothing is written and nothing is
      created. */
  function AppendRows(log: LogFile, rows: seq<Row>): LogFile
  {
    if rows == [] then log else Present(RowsOf(log) + rows)
  }

  /** The work list of a run: the lines of the file as `splitlines` gives
      them. */
  function JobOf(text: string, done: seq<string>, env: Env): Job
  {
    Job(WorkList.SplitLines(text), done, env)
  }

  /** `start_download` with the log as it is on disk and the work-list file
      (`None` when it cannot be opened). The cancel flag is reset first
      (line 139), which `env.cancelAfter` already accounts for. */
  function StartDownload(log: LogFile, workList: Option<string>, env: Env): (p: Press)
    ensures LoadProcessedUrls(log).Failure? ==>
      && p.fault == Some(LoadFailed(LoadProcessedUrls(log).error))
      && p.events == [] && p.rendered == [] && p.log == log
    ensures LoadProcessedUrls(log).Success? ==> |p.events| >= 1 && p.events[0] == Downloading
    ensures p.fault.None? <==> LoadProcessedUrls(log).Success? && workList.Some?
    ensures RowsOf(p.log) == RowsOf(log) + p.rows
    ensures p.log.Missing? <==> log.Missing? && p.rows == []
    ensures p.rows == [] <==> p.fault.Some? || env.logOpenError.Some?
    ensures p.rows != [] ==> p.rows[0] == HeaderRow(env.stamp) && |p.rows| == 1 + |p.rendered|
    ensures p.fault.None? && env.logOpenError.Some? ==>
      && p.rendered == []
      && p.events == [Downloading, CsvError(CsvErrorText(env.logOpenError.value))]
  {
    match LoadProcessedUrls(log)
      case Failure(e) => Press([], [], [], log, Some(LoadFailed(e)))
      case Success(done) =>
        match workList
          case None => Press([Downloading], [], [], log, Some(WorkListUnreadable))
          case Some(text) =>
            var o := RunBatch(JobOf(text, done, env));
            Press([Downloading] + o.events, o.rows, o.rendered, AppendRows(log, o.rows), None)
  }

  // ---------------------------------------------------------------------
  // What a press writes
  // ---------------------------------------------------------------------

  /** Every row a press appends has one of the three shapes this program
      writes: the header first, then one success or failure row per
      rendered entry. */
  lemma PressRowsWritten(log: LogFile, workList: Option<string>, env: Env)
    ensures var p := StartDownload(log, workList, env);
      forall k :: 0 <= k < |p.rows| ==> WrittenRow(p.rows[k])
  {
    var p := StartDownload(log, workList, env);
    if p.rows != [] {
      var done := LoadProcessedUrls(log).value;
      var job := JobOf(workList.value, done, env);
      AttemptedRowsInOrder(job);
      var o := RunBatch(job);
      WrittenRowShapes(env.stamp, "", "", "");
      forall k | 0 <= k < |p.rows|
        ensures WrittenRow(p.rows[k])
      {
        if k > 0 {
          var j := o.rendered[k - 1];
          DownloadWebpageOutcome(env, j, TrimmedUrl(job, j), 0, 0);
        }
      }
    }
  }

  /** A log made only of rows this program writes loads as the empty done
      list, or fails: exactly when it is empty or a success row follows
      row 0. */
  lemma OwnLogLoad(log: LogFile)
    requires forall k :: 0 <= k < |RowsOf(log)| ==> WrittenRow(RowsOf(log)[k])
    ensures var r := LoadProcessedUrls(log);
      && (r.Failure? <==>
            log.Present? &&
            (log.rows == [] || exists j :: 1 <= j < |log.rows| && IsSuccessRow(log.rows[j])))
      && (r.Success? ==> r.value == [])
  {
    if log.Present? {
      assert RowsOf(log) == log.rows;
      OwnLogNeverResumes(log.rows);
    }
  }

  /** So a press on such a log never reports an entry as already
      downloaded. */
  lemma OwnLogSkipsNothing(log: LogFile, workList: Option<string>, env: Env)
    requires forall k :: 0 <= k < |RowsOf(log)| ==> WrittenRow(RowsOf(log)[k])
    ensures var p := StartDownload(log, workList, env);
      forall k :: 0 <= k < |p.events| ==> !p.events[k].AlreadyDownloaded?
  {
    OwnLogLoad(log);
    if LoadProcessedUrls(log).Success? && workList.Some? && env.logOpenError.None? {
      var job := JobOf(workList.value, [], env);
      EmptyDoneNoSkips(job);
      NoneAlreadyAfterDownloading(RunBatch(job).events);
    }
  }

  lemma NoneAlreadyAfterDownloading(events: seq<Event>)
    requires forall k :: 0 <= k < |events| ==> !events[k].AlreadyDownloaded?
    ensures var e := [Downloading] + events;
      forall k :: 0 <= k < |e| ==> !e[k].AlreadyDownloaded?
  {
    var e := [Downloading] + events;
    assert forall k :: 1 <= k < |e| ==> e[k] == events[k - 1];
  }

  // ---------------------------------------------------------------------
  // A first run, and the run after it
  // ---------------------------------------------------------------------

  /** Strictly increasing entry numbers below `n`, `n` of them, are exactly
      0, 1, ..., n - 1. */
  lemma {:induction false} AscendingBelow(r: seq<nat>, k: nat)
    requires forall a, b :: 0 <= a < b < |r| ==> r[a] < r[b]
    requires k < |r|
    ensures k <= r[k]
    decreases k
  {
    if k > 0 {
      AscendingBelow(r, k - 1);
    }
  }

  lemma {:induction false} AscendingAbove(r: seq<nat>, n: nat, k: nat)
    requires forall a, b :: 0 <= a < b < |r| ==> r[a] < r[b]
    requires forall a :: 0 <= a < |r| ==> r[a] < n
    requires k < |r|
    ensures r[k] + |r| <= n + k
    decreases |r| - k
  {
    if k + 1 < |r| {
      AscendingAbove(r, n, k + 1);
    }
  }

  /** With no log, no cancel and a writable log, every line of the work list
      is rendered once, in order, and logged as `download_webpage` writes
      it, and "Finished." is shown. */
  lemma FirstRunAttemptsEverything(text: string, env: Env)
    requires env.cancelAfter.None? && env.logOpenError.None?
    ensures var p, job := StartDownload(Missing, Some(text), env), JobOf(text, [], env);
      && p.fault.None? && Finished in p.events
      && |p.rendered| == |job.urls| && |p.rows| == |job.urls| + 1
      && p.log == Present(p.rows)
      && forall j :: 0 <= j < |job.urls| ==>
           p.rendered[j] == j && p.rows[j + 1] == AttemptRow(env, j, TrimmedUrl(job, j))
  {
    var job := JobOf(text, [], env);
    var n := |job.urls|;
    var lp := LoopOf(job);
    var o := RunBatch(job);
    LoopUrls(job);
    FinishedIffNoCancel(job);
    RenderedInListOrder(job);
    AttemptedRowsInOrder(job);
    EmptyDoneNoSkips(job);
    assert !CancelSeen(env.cancelAfter, StopFrom(lp, 0));
    assert |o.rendered| == n;
    forall j | 0 <= j < n
      ensures o.rendered[j] == j
    {
      AscendingBelow(o.rendered, j);
      AscendingAbove(o.rendered, n, j);
    }
  }

  /** The logged status is never read where it was written: after a first
      run in which any page rendered, the next press fails while loading the
      log, before it shows anything. */
  lemma SecondPressAfterSuccessFails(text: string, env: Env, j: nat, workList: Option<string>, env2: Env)
    requires env.cancelAfter.None? && env.logOpenError.None?
    requires j < |JobOf(text, [], env).urls|
    requires env.render(j, TrimmedUrl(JobOf(text, [], env), j)).Rendered?
    ensures var p1 := StartDownload(Missing, Some(text), env);
      var p2 := StartDownload(p1.log, workList, env2);
      && p2.fault.Some? && p2.fault.value.LoadFailed?
      && p2.events == [] && p2.rendered == [] && p2.log == p1.log
  {
    var job := JobOf(text, [], env);
    var p1 := StartDownload(Missing, Some(text), env);
    FirstRunAttemptsEverything(text, env);
    PressRowsWritten(Missing, Some(text), env);
    OwnLogNeverResumes(p1.rows);
    assert IsSuccessRow(p1.rows[j + 1]);
  }

  /** A log whose first data row is a success row stops every later press
      at `row[3]` of that row. */
  lemma StaleLogScenario(stamp: string, url: string, path: string, workList: Option<string>, env: Env)
    ensures var log := Present([HeaderRow(stamp), SuccessRow(url, path)]);
      StartDownload(log, workList, env) == Press([], [], [], log, Some(LoadFailed(ShortRow(1, 3))))
  {
    var rows := [HeaderRow(stamp), SuccessRow(url, path)];
    assert DoneUrlsFrom(rows, 1) == Failure(ShortRow(1, 3));
  }

  /** A file of two terminated lines reads back as those two lines. */
  lemma TwoLines(a: string, b: string)
    requires WorkList.BreakFree(a) && WorkList.BreakFree(b)
    ensures WorkList.SplitLines(a + "\n" + b + "\n") == [a, b]
  {
    var lines := [a, b];
    assert lines[1..] == [b] && lines[1..][1..] == [];
    assert WorkList.Terminated(lines[1..]) == b + "\n";
    assert WorkList.Terminated(lines) == a + "\n" + (b + "\n");
    assert a + "\n" + b + "\n" == a + "\n" + (b + "\n");
    WorkList.SplitTerminatedRoundTrip(lines);
  }

  /** The work list of the two-URL file: the first URL as written, and the
      second with its dot trimmed. */
  lemma TwoUrlList(a: string, b: string, env: Env)
    requires WorkList.BreakFree(a) && WorkList.BreakFree(b)
    requires a != [] && a[|a| - 1] != '.' && b != [] && b[|b| - 1] != '.'
    ensures var job := JobOf(a + "\n" + b + ".\n", [], env);
      |job.urls| == 2 && TrimmedUrl(job, 0) == a && TrimmedUrl(job, 1) == b
  {
    assert WorkList.BreakFree(b + ".") by {
      assert forall j :: 0 <= j < |b| ==> (b + ".")[j] == b[j];
    }
    TwoLines(a, b + ".");
    assert a + "\n" + b + ".\n" == a + "\n" + (b + ".") + "\n";
    Text.TrimIsUnique(a, a, "");
    Text.TrimIsUnique(b + ".", b, ".");
  }

  /** Two URLs, the second written with a trailing dot, no log, no cancel:
      the dot is trimmed before the attempt, the log gets the header and
      one row per URL, and "Finished." is shown. */
  lemma TwoUrlScenario(a: string, b: string, env: Env)
    requires WorkList.BreakFree(a) && WorkList.BreakFree(b)
    requires a != [] && a[|a| - 1] != '.' && b != [] && b[|b| - 1] != '.'
    requires env.cancelAfter.None? && env.logOpenError.None?
    ensures var p := StartDownload(Missing, Some(a + "\n" + b + ".\n"), env);
      && p.rows == [HeaderRow(env.stamp), AttemptRow(env, 0, a), AttemptRow(env, 1, b)]
      && p.log == Present(p.rows)
      && Finished in p.events
  {
    TwoUrlList(a, b, env);
    FirstRunAttemptsEverything(a + "\n" + b + ".\n", env);
  }

  /** The progress counts of that run read 1, then 2. */
  lemma TwoUrlCounts(a: string, b: string, env: Env)
    requires WorkList.BreakFree(a) && WorkList.BreakFree(b)
    requires a != [] && a[|a| - 1] != '.' && b != [] && b[|b| - 1] != '.'
    requires env.cancelAfter.None? && env.logOpenError.None?
    ensures ProcessedCounts(StartDownload(Missing, Some(a + "\n" + b + ".\n"), env).events) == [1, 2]
  {
    var text := a + "\n" + b + ".\n";
    var job := JobOf(text, [], env);
    TwoUrlList(a, b, env);
    FirstRunAttemptsEverything(text, env);
    ProgressMessages(job);
    var o := RunBatch(job);
    CountersAppend([Downloading], o.events);
    assert StartDownload(Missing, Some(text), env).events == [Downloading] + o.events;
  }
}
