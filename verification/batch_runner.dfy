/** `process_urls` (lines 75-131): the loop over the work list that skips
    entries already on the done list, stops at a cancel request, and
    otherwise calls `download_webpage`; then the "Finished." check and the
    `PermissionError` path. */
module BatchRunner {
  import opened Wrappers
  import Text
  import opened CompletionLog
  import opened Download

  /** What list entry `pos` yields if it is attempted: the URL after
      `rstrip(".")`, its log row and its first message. They depend on the
      entry and its position only, so the loop can read them from a table
      fixed before it starts. */
  datatype Entry = Entry(url: string, row: Row, message: Event)

  function EntryOf(env: Env, pos: nat, raw: string): Entry
  {
    var url := Text.TrimTrailingDots(raw);
    Entry(url, AttemptRow(env, pos, url), AttemptMessage(env, pos, url))
  }

  /** `f` applied to every element of `xs` from position `i` on, together
      with its position. */
  function MapFrom<A, B>(f: (nat, A) -> B, xs: seq<A>, i: nat): (ys: seq<B>)
    requires i <= |xs|
    ensures |ys| == |xs| - i
    decreases |xs| - i
  {
    if i == |xs| then [] else [f(i, xs[i])] + MapFrom(f, xs, i + 1)
  }

  lemma {:induction false} MapFromAt<A, B>(f: (nat, A) -> B, xs: seq<A>, i: nat, j: nat)
    requires i <= j < |xs|
    ensures MapFrom(f, xs, i)[j - i] == f(j, xs[j])
    decreases j - i
  {
    if i < j {
      MapFromAt(f, xs, i + 1, j);
      assert MapFrom(f, xs, i)[j - i] == MapFrom(f, xs, i + 1)[j - i - 1];
    }
  }

  /** The table for a whole work list. */
  function Plan(urls: seq<string>, env: Env): seq<Entry>
  {
    MapFrom((pos: nat, raw: string) => EntryOf(env, pos, raw), urls, 0)
  }

  lemma PlanAt(urls: seq<string>, env: Env, j: nat)
    requires j < |urls|
    ensures |Plan(urls, env)| == |urls| && Plan(urls, env)[j] == EntryOf(env, j, urls[j])
  {
    MapFromAt((pos: nat, raw: string) => EntryOf(env, pos, raw), urls, 0, j);
  }

  /** What the loop reads: the table, the done list and the cancel input. */
  datatype Loop = Loop(entries: seq<Entry>, done: seq<string>, cancelAfter: Option<nat>)

  /** Entry `i` is on the done list, so it is reported and not rendered. */
  predicate Skipped(lp: Loop, i: nat)
    requires i < |lp.entries|
  {
    lp.entries[i].url in lp.done
  }

  /** The cancel flag as line 105 reads it at iteration `i`. Line 139 resets
      it before the loop and no click is delivered before the first
      `window.update()`, so iteration 0 always reads false. */
  predicate CancelSeen(cancelAfter: Option<nat>, i: nat)
  {
    cancelAfter.Some? && cancelAfter.value < i
  }

  /** Entry `i` breaks the loop: it is not skipped and the flag reads true. */
  predicate Stops(lp: Loop, i: nat)
    requires i < |lp.entries|
  {
    !Skipped(lp, i) && CancelSeen(lp.cancelAfter, i)
  }

  /** What the rest of the loop produces from entry `i` on. */
  datatype Tail = Tail(
    rows: seq<Row>,
    events: seq<Event>,
    rendered: seq<nat>,
    attempts: nat,
    skips: nat,
    cancelled: bool)

  /** The `for` loop of lines 101-119 from entry `i` on, with `count`
      attempts (`file_count[0]`) and `skipped` skips (`count_downloaded`) so
      far. `rendered` lists the entries handed to the renderer. */
  function RunFrom(lp: Loop, i: nat, count: nat, skipped: nat): (t: Tail)
    requires i <= |lp.entries|
    ensures count <= t.attempts && skipped <= t.skips
    ensures |t.rows| == |t.rendered| == t.attempts - count
    decreases |lp.entries| - i
  {
    if i == |lp.entries| then
      Tail([], [], [], count, skipped, false)
    else
      var e := lp.entries[i];
      if e.url in lp.done then
        var t := RunFrom(lp, i + 1, count, skipped + 1);
        t.(events := [AlreadyDownloaded(e.url)] + t.events)
      else if CancelSeen(lp.cancelAfter, i) then
        Tail([], [], [], count, skipped, true)
      else
        var t := RunFrom(lp, i + 1, count + 1, skipped);
        Tail([e.row] + t.rows,
             [e.message, Processed(count + 1, |lp.entries|)] + t.events,
             [i] + t.rendered,
             t.attempts, t.skips, t.cancelled)
  }

  // ---------------------------------------------------------------------
  // Reference: where the loop stops
  // ---------------------------------------------------------------------

  /** The first entry from `i` on that breaks the loop, or the list length. */
  function StopFrom(lp: Loop, i: nat): (s: nat)
    requires i <= |lp.entries|
    ensures i <= s <= |lp.entries|
    ensures forall j :: i <= j < s ==> !Stops(lp, j)
    ensures s < |lp.entries| ==> Stops(lp, s)
    decreases |lp.entries| - i
  {
    if i == |lp.entries| || Stops(lp, i) then i else StopFrom(lp, i + 1)
  }

  /** The loop handles exactly the entries before the first stop, one
      attempt or skip each, and is cancelled exactly when a stop exists. */
  lemma {:induction false} RunMatchesStop(lp: Loop, i: nat, count: nat, skipped: nat)
    requires i <= |lp.entries|
    ensures var t, s := RunFrom(lp, i, count, skipped), StopFrom(lp, i);
      && (t.cancelled <==> s < |lp.entries|)
      && (t.attempts - count) + (t.skips - skipped) == s - i
    decreases |lp.entries| - i
  {
    if i < |lp.entries| {
      var t := RunFrom(lp, i, count, skipped);
      if Skipped(lp, i) {
        RunMatchesStop(lp, i + 1, count, skipped + 1);
        var u := RunFrom(lp, i + 1, count, skipped + 1);
        assert t.attempts == u.attempts && t.skips == u.skips && t.cancelled == u.cancelled;
      } else if !CancelSeen(lp.cancelAfter, i) {
        RunMatchesStop(lp, i + 1, count + 1, skipped);
        var u := RunFrom(lp, i + 1, count + 1, skipped);
        assert t.attempts == u.attempts && t.skips == u.skips && t.cancelled == u.cancelled;
      }
    }
  }

  /** The entries rendered are exactly those before the first stop that are
      not on the done list. */
  lemma {:induction false} RunRendersBeforeStop(lp: Loop, i: nat, count: nat, skipped: nat)
    requires i <= |lp.entries|
    ensures var t, s := RunFrom(lp, i, count, skipped), StopFrom(lp, i);
      forall j :: j in t.rendered <==> i <= j < s && !Skipped(lp, j)
    decreases |lp.entries| - i
  {
    if i < |lp.entries| {
      var t := RunFrom(lp, i, count, skipped);
      if Skipped(lp, i) {
        RunRendersBeforeStop(lp, i + 1, count, skipped + 1);
        assert t.rendered == RunFrom(lp, i + 1, count, skipped + 1).rendered;
      } else if !CancelSeen(lp.cancelAfter, i) {
        RunRendersBeforeStop(lp, i + 1, count + 1, skipped);
        assert t.rendered == [i] + RunFrom(lp, i + 1, count + 1, skipped).rendered;
      } else {
        assert t.rendered == [];
      }
    }
  }

  /** The rendered entries come in list order from `i` on, none is on the
      done list, and the k-th appended row is the row of the k-th rendered
      entry. */
  ghost predicate RowsOfRendered(lp: Loop, i: nat, rendered: seq<nat>, rows: seq<Row>)
  {
    && |rows| == |rendered|
    && (forall k :: 0 <= k < |rendered| ==>
          && i <= rendered[k] < |lp.entries|
          && !Skipped(lp, rendered[k])
          && rows[k] == lp.entries[rendered[k]].row)
    && (forall k, l :: 0 <= k < l < |rendered| ==> rendered[k] < rendered[l])
  }

  lemma {:induction false} RunRows(lp: Loop, i: nat, count: nat, skipped: nat)
    requires i <= |lp.entries|
    ensures var t := RunFrom(lp, i, count, skipped);
      RowsOfRendered(lp, i, t.rendered, t.rows)
    decreases |lp.entries| - i
  {
    if i < |lp.entries| {
      var t := RunFrom(lp, i, count, skipped);
      if Skipped(lp, i) {
        RunRows(lp, i + 1, count, skipped + 1);
        var u := RunFrom(lp, i + 1, count, skipped + 1);
        assert t.rendered == u.rendered && t.rows == u.rows;
      } else if !CancelSeen(lp.cancelAfter, i) {
        RunRows(lp, i + 1, count + 1, skipped);
        var u := RunFrom(lp, i + 1, count + 1, skipped);
        RowsOfRenderedCons(lp, i, u.rendered, u.rows);
        assert t.rendered == [i] + u.rendered && t.rows == [lp.entries[i].row] + u.rows;
      } else {
        assert t.rendered == [] && t.rows == [];
      }
    }
  }

  /** A rendered entry in front of the rendered entries after it. */
  lemma RowsOfRenderedCons(lp: Loop, i: nat, rendered: seq<nat>, rows: seq<Row>)
    requires i < |lp.entries| && !Skipped(lp, i)
    requires RowsOfRendered(lp, i + 1, rendered, rows)
    ensures RowsOfRendered(lp, i, [i] + rendered, [lp.entries[i].row] + rows)
  {
    var r, w := [i] + rendered, [lp.entries[i].row] + rows;
    assert forall k :: 1 <= k < |r| ==> r[k] == rendered[k - 1] && w[k] == rows[k - 1];
  }

  /** A loop whose remaining entries are all on the done list renders
      nothing and never reads the cancel flag. */
  lemma {:induction false} RunAllSkipped(lp: Loop, i: nat, count: nat, skipped: nat)
    requires i <= |lp.entries|
    requires forall j :: i <= j < |lp.entries| ==> Skipped(lp, j)
    ensures var t := RunFrom(lp, i, count, skipped);
      && t.rendered == [] && t.rows == [] && t.attempts == count
      && t.skips == skipped + (|lp.entries| - i) && !t.cancelled
    decreases |lp.entries| - i
  {
    if i < |lp.entries| {
      RunAllSkipped(lp, i + 1, count, skipped + 1);
      var t, u := RunFrom(lp, i, count, skipped), RunFrom(lp, i + 1, count, skipped + 1);
      assert Skipped(lp, i);
      assert t.rendered == u.rendered && t.rows == u.rows && t.attempts == u.attempts;
      assert t.skips == u.skips && t.cancelled == u.cancelled;
    }
  }

  // ---------------------------------------------------------------------
  // Progress messages of the loop
  // ---------------------------------------------------------------------

  /** The messages the loop itself can show. */
  predicate LoopEvent(e: Event)
  {
    e.Saved? || e.Failed? || e.Processed? || e.AlreadyDownloaded?
  }

  /** The first message of an attempt. */
  predicate AttemptMessageShape(e: Event)
  {
    e.Saved? || e.Failed?
  }

  /** The counts of the `Processed` messages, in order. */
  function ProcessedCounts(events: seq<Event>): seq<nat>
    decreases |events|
  {
    if events == [] then []
    else (if events[0].Processed? then [events[0].count] else []) + ProcessedCounts(events[1..])
  }

  /** How many "Already downloaded" messages there are. */
  function AlreadyCount(events: seq<Event>): nat
    decreases |events|
  {
    if events == [] then 0
    else (if events[0].AlreadyDownloaded? then 1 else 0) + AlreadyCount(events[1..])
  }

  /** Shape of the loop's messages over a list of `n` entries: only loop
      messages; every `Processed` names the full length `n`; every `Saved` or
      `Failed` is followed at once by a `Processed`; every "Already
      downloaded" names a URL of the done list. */
  ghost predicate LoopShape(events: seq<Event>, n: nat, done: seq<string>)
  {
    && ProgressShape(events, n, done)
    && forall k :: 0 <= k < |events| ==> LoopEvent(events[k])
  }

  /** The same without the restriction to loop messages. */
  ghost predicate ProgressShape(events: seq<Event>, n: nat, done: seq<string>)
  {
    forall k :: 0 <= k < |events| ==> ProgressAt(events, k, n, done)
  }

  ghost predicate ProgressAt(events: seq<Event>, k: nat, n: nat, done: seq<string>)
    requires k < |events|
  {
    && (events[k].Processed? ==> events[k].total == n)
    && (events[k].Saved? || events[k].Failed? ==> k + 1 < |events| && events[k + 1].Processed?)
    && (events[k].AlreadyDownloaded? ==> events[k].url in done)
  }

  /** Two runs of messages of that shape put together keep it: the first
      cannot end with a `Saved` or `Failed` that awaits its `Processed`. */
  lemma ProgressShapeAppend(a: seq<Event>, b: seq<Event>, n: nat, done: seq<string>)
    requires ProgressShape(a, n, done) && ProgressShape(b, n, done)
    ensures ProgressShape(a + b, n, done)
  {
    var ab := a + b;
    forall k | 0 <= k < |ab|
      ensures ProgressAt(ab, k, n, done)
    {
      if k < |a| {
        assert ProgressAt(a, k, n, done);
        assert ab[k] == a[k];
        if k + 1 < |a| {
          assert ab[k + 1] == a[k + 1];
        }
      } else {
        assert ProgressAt(b, k - |a|, n, done);
        assert ab[k] == b[k - |a|];
        if k + 1 < |ab| {
          assert ab[k + 1] == b[k + 1 - |a|];
        }
      }
    }
  }

  /** The attempt counter steps by one per attempt, whatever the outcome, and
      the k-th `Processed` message carries the k-th value it reaches. */
  lemma {:induction false} RunCounts(lp: Loop, i: nat, count: nat, skipped: nat)
    requires i <= |lp.entries|
    requires forall j :: 0 <= j < |lp.entries| ==> AttemptMessageShape(lp.entries[j].message)
    ensures var t := RunFrom(lp, i, count, skipped);
      && |ProcessedCounts(t.events)| == t.attempts - count
      && forall k :: 0 <= k < t.attempts - count ==> ProcessedCounts(t.events)[k] == count + 1 + k
    decreases |lp.entries| - i
  {
    if i < |lp.entries| {
      var e := lp.entries[i];
      if e.url in lp.done {
        RunCounts(lp, i + 1, count, skipped + 1);
        var t := RunFrom(lp, i + 1, count, skipped + 1);
        var ev := [AlreadyDownloaded(e.url)] + t.events;
        assert ev[1..] == t.events;
      } else if !CancelSeen(lp.cancelAfter, i) {
        RunCounts(lp, i + 1, count + 1, skipped);
        var t := RunFrom(lp, i + 1, count + 1, skipped);
        var ev := [e.message, Processed(count + 1, |lp.entries|)] + t.events;
        assert ev[1..][1..] == t.events;
        assert ProcessedCounts(ev) == [count + 1] + ProcessedCounts(t.events);
      }
    }
  }

  /** The skip counter steps by one per "Already downloaded" message. */
  lemma {:induction false} RunSkips(lp: Loop, i: nat, count: nat, skipped: nat)
    requires i <= |lp.entries|
    requires forall j :: 0 <= j < |lp.entries| ==> AttemptMessageShape(lp.entries[j].message)
    ensures var t := RunFrom(lp, i, count, skipped);
      AlreadyCount(t.events) == t.skips - skipped
    decreases |lp.entries| - i
  {
    if i < |lp.entries| {
      var e := lp.entries[i];
      if e.url in lp.done {
        RunSkips(lp, i + 1, count, skipped + 1);
        var t := RunFrom(lp, i + 1, count, skipped + 1);
        var ev := [AlreadyDownloaded(e.url)] + t.events;
        assert ev[1..] == t.events;
      } else if !CancelSeen(lp.cancelAfter, i) {
        RunSkips(lp, i + 1, count + 1, skipped);
        var t := RunFrom(lp, i + 1, count + 1, skipped);
        var ev := [e.message, Processed(count + 1, |lp.entries|)] + t.events;
        assert ev[1..][1..] == t.events;
      }
    }
  }

  /** The loop's messages keep the loop's shape. */
  lemma {:induction false} RunShape(lp: Loop, i: nat, count: nat, skipped: nat)
    requires i <= |lp.entries|
    requires forall j :: 0 <= j < |lp.entries| ==> AttemptMessageShape(lp.entries[j].message)
    ensures LoopShape(RunFrom(lp, i, count, skipped).events, |lp.entries|, lp.done)
    decreases |lp.entries| - i
  {
    if i < |lp.entries| {
      var e := lp.entries[i];
      if e.url in lp.done {
        RunShape(lp, i + 1, count, skipped + 1);
        var t := RunFrom(lp, i + 1, count, skipped + 1);
        var head := [AlreadyDownloaded(e.url)];
        ProgressShapeAppend(head, t.events, |lp.entries|, lp.done);
        LoopEventsAppend(head, t.events);
      } else if !CancelSeen(lp.cancelAfter, i) {
        RunShape(lp, i + 1, count + 1, skipped);
        var t := RunFrom(lp, i + 1, count + 1, skipped);
        var head := [e.message, Processed(count + 1, |lp.entries|)];
        ProgressShapeAppend(head, t.events, |lp.entries|, lp.done);
        LoopEventsAppend(head, t.events);
      }
    }
  }

  lemma LoopEventsAppend(a: seq<Event>, b: seq<Event>)
    requires forall k :: 0 <= k < |a| ==> LoopEvent(a[k])
    requires forall k :: 0 <= k < |b| ==> LoopEvent(b[k])
    ensures forall k :: 0 <= k < |a + b| ==> LoopEvent((a + b)[k])
  {
    var ab := a + b;
    assert forall k :: |a| <= k < |ab| ==> ab[k] == b[k - |a|];
  }

  // ---------------------------------------------------------------------
  // process_urls
  // ---------------------------------------------------------------------

  /** The inputs of `process_urls`: the work list as read, the done list. */
  datatype Job = Job(urls: seq<string>, done: seq<string>, env: Env)

  /** The entry `j` of the work list after `rstrip(".")`. */
  function TrimmedUrl(job: Job, j: nat): string
    requires j < |job.urls|
  {
    Text.TrimTrailingDots(job.urls[j])
  }

  function LoopOf(job: Job): Loop
  {
    Loop(Plan(job.urls, job.env), job.done, job.env.cancelAfter)
  }

  /** Entry `j` of the table is the trimmed URL of list entry `j`. */
  lemma LoopUrls(job: Job)
    ensures |LoopOf(job).entries| == |job.urls|
    ensures forall j :: 0 <= j < |job.urls| ==> LoopOf(job).entries[j].url == TrimmedUrl(job, j)
  {
    forall j | 0 <= j < |job.urls|
      ensures LoopOf(job).entries[j].url == TrimmedUrl(job, j)
    {
      PlanAt(job.urls, job.env, j);
    }
  }

  /** Entry `j` of the table holds the row and message of an attempt at it. */
  lemma LoopAttempts(job: Job)
    ensures forall j :: 0 <= j < |job.urls| ==>
      && LoopOf(job).entries[j].row == AttemptRow(job.env, j, TrimmedUrl(job, j))
      && LoopOf(job).entries[j].message == AttemptMessage(job.env, j, TrimmedUrl(job, j))
  {
    forall j | 0 <= j < |job.urls|
      ensures LoopOf(job).entries[j].row == AttemptRow(job.env, j, TrimmedUrl(job, j))
      ensures LoopOf(job).entries[j].message == AttemptMessage(job.env, j, TrimmedUrl(job, j))
    {
      PlanAt(job.urls, job.env, j);
    }
  }

  /** An attempted entry is one call of `download_webpage` (line 109): the
      loop appends that call's row and both its messages, with the attempts
      so far as `file_count[0]` and the list length as `file_count[1]`, and
      then goes on with one more attempt counted. */
  lemma AttemptIsDownloadWebpage(job: Job, i: nat, count: nat, skipped: nat)
    requires i < |job.urls|
    requires TrimmedUrl(job, i) !in job.done && !CancelSeen(job.env.cancelAfter, i)
    ensures var lp := LoopOf(job);
      var t, rest := RunFrom(lp, i, count, skipped), RunFrom(lp, i + 1, count + 1, skipped);
      var d := DownloadWebpage(job.env, i, TrimmedUrl(job, i), count, |job.urls|);
      && t.rows == [d.row] + rest.rows
      && t.events == d.events + rest.events
      && t.rendered == [i] + rest.rendered
  {
    PlanAt(job.urls, job.env, i);
  }

  /** The message of line 128 for a `PermissionError` with text `e`. */
  function CsvErrorText(e: string): string
  {
    "Error writing to CSV file: " + e + ".'\n'Please close the 'web_pages_download.csv' file'"
  }

  /** What `process_urls` produces once the work list is read. */
  datatype Outcome = Outcome(
    rows: seq<Row>,
    events: seq<Event>,
    rendered: seq<nat>,
    attempts: nat,
    skips: nat)

  /** Lines 92-131: when the log opens, one header, then the loop, then
      "Finished." exactly when every entry was attempted or skipped; when it
      does not, only the error message. */
  function RunBatch(job: Job): (o: Outcome)
    ensures job.env.logOpenError.Some? ==>
      && o.rows == [] && o.rendered == []
      && o.events == [CsvError(CsvErrorText(job.env.logOpenError.value))]
    ensures job.env.logOpenError.None? ==>
      && |o.rows| == 1 + |o.rendered| == 1 + o.attempts
      && o.rows[0] == HeaderRow(job.env.stamp)
      && (Finished in o.events <==> o.attempts + o.skips == |job.urls|)
  {
    match job.env.logOpenError
      case Some(msg) => Outcome([], [CsvError(CsvErrorText(msg))], [], 0, 0)
      case None =>
        var lp := LoopOf(job);
        var t := RunFrom(lp, 0, 0, 0);
        LoopMessages(job);
        RunShape(lp, 0, 0, 0);
        var fin := if t.attempts + t.skips == |job.urls| then [Finished] else [];
        assert forall k :: 0 <= k < |t.events| ==> LoopEvent(t.events[k]);
        Outcome([HeaderRow(job.env.stamp)] + t.rows, t.events + fin, t.rendered, t.attempts, t.skips)
  }

  /** The table's messages are the ones `download_webpage` starts with. */
  lemma LoopMessages(job: Job)
    ensures var lp := LoopOf(job);
      forall j :: 0 <= j < |lp.entries| ==> AttemptMessageShape(lp.entries[j].message)
  {
    LoopUrls(job);
    LoopAttempts(job);
  }

  // ---------------------------------------------------------------------
  // Properties of one run of process_urls
  // ---------------------------------------------------------------------

  /** Each appended row after the header belongs to one rendered entry, in
      list order: an entry not on the done list, and the row
      `download_webpage` writes for it. Skipped entries append nothing. */
  lemma AttemptedRowsInOrder(job: Job)
    requires job.env.logOpenError.None?
    ensures var o := RunBatch(job);
      forall k :: 0 <= k < |o.rendered| ==>
        && o.rendered[k] < |job.urls|
        && TrimmedUrl(job, o.rendered[k]) !in job.done
        && o.rows[k + 1] == AttemptRow(job.env, o.rendered[k], TrimmedUrl(job, o.rendered[k]))
  {
    var o := RunBatch(job);
    forall k | 0 <= k < |o.rendered|
      ensures o.rendered[k] < |job.urls|
      ensures TrimmedUrl(job, o.rendered[k]) !in job.done
      ensures o.rows[k + 1] == AttemptRow(job.env, o.rendered[k], TrimmedUrl(job, o.rendered[k]))
    {
      AttemptedRowAt(job, k);
    }
  }

  lemma AttemptedRowAt(job: Job, k: nat)
    requires job.env.logOpenError.None?
    requires k < |RunBatch(job).rendered|
    ensures var o := RunBatch(job);
      && o.rendered[k] < |job.urls|
      && TrimmedUrl(job, o.rendered[k]) !in job.done
      && o.rows[k + 1] == AttemptRow(job.env, o.rendered[k], TrimmedUrl(job, o.rendered[k]))
  {
    var lp := LoopOf(job);
    BatchOfLoop(job);
    var t := RunFrom(lp, 0, 0, 0);
    RowOfRendered(lp, k);
    PlanAt(job.urls, job.env, t.rendered[k]);
  }

  /** What `RunBatch` keeps of the loop when the log opens. */
  lemma BatchOfLoop(job: Job)
    requires job.env.logOpenError.None?
    ensures var o, t := RunBatch(job), RunFrom(LoopOf(job), 0, 0, 0);
      o.rendered == t.rendered && o.rows == [HeaderRow(job.env.stamp)] + t.rows
  {
  }

  /** The row the loop appends for its k-th rendered entry. */
  lemma RowOfRendered(lp: Loop, k: nat)
    requires k < |RunFrom(lp, 0, 0, 0).rendered|
    ensures var t := RunFrom(lp, 0, 0, 0);
      && t.rendered[k] < |lp.entries| && !Skipped(lp, t.rendered[k])
      && t.rows[k] == lp.entries[t.rendered[k]].row
  {
    RunRows(lp, 0, 0, 0);
  }

  /** The rendered entries, and so the appended rows, follow list order. */
  lemma RenderedInListOrder(job: Job)
    requires job.env.logOpenError.None?
    ensures var o := RunBatch(job);
      forall k, l :: 0 <= k < l < |o.rendered| ==> o.rendered[k] < o.rendered[l]
  {
    var lp := LoopOf(job);
    RunRows(lp, 0, 0, 0);
    assert RunBatch(job).rendered == RunFrom(lp, 0, 0, 0).rendered;
  }

  /** The loop ends early exactly at the first entry that reads the cancel
      flag; every entry before it is rendered or skipped, none after it is
      rendered, and "Finished." is shown exactly when there is no such
      entry. */
  lemma FinishedIffNoCancel(job: Job)
    requires job.env.logOpenError.None?
    ensures var o, lp := RunBatch(job), LoopOf(job);
      && o.attempts + o.skips == StopFrom(lp, 0) <= |job.urls|
      && (forall j :: j in o.rendered <==> 0 <= j < StopFrom(lp, 0) && TrimmedUrl(job, j) !in job.done)
      && (Finished in o.events <==> StopFrom(lp, 0) == |job.urls|)
  {
    var lp := LoopOf(job);
    RunMatchesStop(lp, 0, 0, 0);
    RunRendersBeforeStop(lp, 0, 0, 0);
    LoopUrls(job);
  }

  /** Lemma over concatenation for the two message counters. */
  lemma {:induction false} CountersAppend(a: seq<Event>, b: seq<Event>)
    ensures ProcessedCounts(a + b) == ProcessedCounts(a) + ProcessedCounts(b)
    ensures AlreadyCount(a + b) == AlreadyCount(a) + AlreadyCount(b)
    decreases |a|
  {
    if a != [] {
      CountersAppend(a[1..], b);
      assert (a + b)[0] == a[0];
      assert (a + b)[1..] == a[1..] + b;
    } else {
      assert a + b == b;
    }
  }

  /** The messages of a run whose log opens: the k-th `Processed` message
      counts k + 1 attempts out of the whole list, each `Saved` or `Failed`
      is followed at once by its `Processed`, and there is one "Already
      downloaded" message per skipped entry, each naming a done URL. */
  lemma ProgressMessages(job: Job)
    requires job.env.logOpenError.None?
    ensures var o := RunBatch(job);
      && |ProcessedCounts(o.events)| == o.attempts
      && (forall k :: 0 <= k < o.attempts ==> ProcessedCounts(o.events)[k] == k + 1)
      && AlreadyCount(o.events) == o.skips
      && ProgressShape(o.events, |job.urls|, job.done)
  {
    var lp := LoopOf(job);
    LoopMessages(job);
    RunCounts(lp, 0, 0, 0);
    RunSkips(lp, 0, 0, 0);
    RunShape(lp, 0, 0, 0);
    var t := RunFrom(lp, 0, 0, 0);
    var fin := if t.attempts + t.skips == |job.urls| then [Finished] else [];
    CountersAppend(t.events, fin);
    ProgressShapeAppend(t.events, fin, |job.urls|, job.done);
  }

  /** With an empty done list nothing is reported as already downloaded. */
  lemma EmptyDoneNoSkips(job: Job)
    requires job.env.logOpenError.None? && job.done == []
    ensures var o := RunBatch(job);
      o.skips == 0 && forall k :: 0 <= k < |o.events| ==> !o.events[k].AlreadyDownloaded?
  {
    var o := RunBatch(job);
    ProgressMessages(job);
    forall k | 0 <= k < |o.events|
      ensures !o.events[k].AlreadyDownloaded?
    {
      assert ProgressAt(o.events, k, |job.urls|, []);
    }
    NoAlreadyNoCount(o.events);
  }

  lemma {:induction false} NoAlreadyNoCount(events: seq<Event>)
    requires forall k :: 0 <= k < |events| ==> !events[k].AlreadyDownloaded?
    ensures AlreadyCount(events) == 0
    decreases |events|
  {
    if events != [] {
      NoAlreadyNoCount(events[1..]);
    }
  }

  /** Iteration 0 never sees the cancel flag: the first entry is rendered
      whenever it is not on the done list, whatever the cancel input. */
  lemma FirstUrlAlwaysTried(job: Job)
    requires job.env.logOpenError.None?
    requires |job.urls| > 0 && TrimmedUrl(job, 0) !in job.done
    ensures var o := RunBatch(job);
      |o.rendered| > 0 && o.rendered[0] == 0
  {
    var lp := LoopOf(job);
    FinishedIffNoCancel(job);
    RenderedInListOrder(job);
    LoopUrls(job);
    assert !Stops(lp, 0);
    assert 0 in RunBatch(job).rendered;
  }

  /** Once an entry reads the cancel flag, neither it nor any later entry is
      rendered or logged, and "Finished." is not shown. */
  lemma CancelStopsLaterEntries(job: Job, j: nat)
    requires job.env.logOpenError.None?
    requires j < |job.urls| && TrimmedUrl(job, j) !in job.done
    requires CancelSeen(job.env.cancelAfter, j)
    ensures var o := RunBatch(job);
      && (forall k :: 0 <= k < |o.rendered| ==> o.rendered[k] < j)
      && Finished !in o.events
      && |o.rows| <= 1 + j
  {
    var lp := LoopOf(job);
    FinishedIffNoCancel(job);
    LoopUrls(job);
    assert Stops(lp, j);
    var s := StopFrom(lp, 0);
    assert s <= j;
    var o := RunBatch(job);
    assert forall k :: 0 <= k < |o.rendered| ==> o.rendered[k] in o.rendered;
  }

  /** The done list is fixed for the whole run: a URL listed twice and not
      on it is rendered both times unless the cancel flag is seen first. */
  lemma RepeatedUrlRetried(job: Job, a: nat, b: nat)
    requires job.env.logOpenError.None?
    requires a < b < |job.urls|
    requires TrimmedUrl(job, a) == TrimmedUrl(job, b) && TrimmedUrl(job, b) !in job.done
    requires !CancelSeen(job.env.cancelAfter, b)
    ensures a in RunBatch(job).rendered && b in RunBatch(job).rendered
  {
    var lp := LoopOf(job);
    FinishedIffNoCancel(job);
    assert forall j :: 0 <= j <= b ==> !CancelSeen(job.env.cancelAfter, j);
    assert b < StopFrom(lp, 0);
  }

  /** When every entry is on the done list the cancel flag is never read:
      nothing is rendered, only the header is appended, and "Finished." is
      shown. */
  lemma CancelIgnoredWhenAllSkipped(job: Job)
    requires job.env.logOpenError.None?
    requires forall j :: 0 <= j < |job.urls| ==> TrimmedUrl(job, j) in job.done
    ensures var o := RunBatch(job);
      && o.rendered == [] && o.rows == [HeaderRow(job.env.stamp)]
      && o.skips == |job.urls| && Finished in o.events
  {
    var lp := LoopOf(job);
    LoopUrls(job);
    RunAllSkipped(lp, 0, 0, 0);
  }
}
