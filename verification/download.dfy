/** `download_webpage`: one attempt at one URL. Rendering by `pdfkit` and
    `os.path.join` are outside the model and come in through `Env`. */
module Download {
  import opened Wrappers
  import Text
  import opened CompletionLog

  /** What `pdfkit.from_url` did with one page. */
  datatype RenderOutcome = Rendered | RenderFailed(detail: string)

  /** The messages a run inserts into the progress text. */
  datatype Event =
    | Downloading
    | Saved(path: string)
    | Failed(url: string, detail: string)
    | Processed(count: nat, total: nat)
    | AlreadyDownloaded(url: string)
    | Finished
    | CsvError(message: string)

  /** Everything a run takes from outside the program.
      - `join` stands for `os.path.join`;
      - `render(i, url)` is the outcome of rendering list entry `i`;
      - `cancelAfter == Some(k)`: the Cancel click is delivered by the
        `window.update()` that ends iteration `k`, so the flag reads true
        from iteration `k + 1` on; a re-entrant Start press, which would
        reset it, is not modelled;
      - `logOpenError` is the `PermissionError` text, if the log cannot be
        opened for append;
      - `stamp` is the import-time timestamp of the header. */
  datatype Env = Env(
    dir: string,
    join: (string, string) -> string,
    render: (nat, string) -> RenderOutcome,
    cancelAfter: Option<nat>,
    logOpenError: Option<string>,
    stamp: string)

  /** Where the PDF of `url` is saved (lines 30-31). */
  function SavePath(env: Env, url: string): string
  {
    env.join(env.dir, Text.FileName(url))
  }

  /** The row `download_webpage` appends for list entry `pos` holding `url`:
      line 41 when the page renders, line 51 when it does not. */
  function AttemptRow(env: Env, pos: nat, url: string): Row
  {
    match env.render(pos, url)
      case Rendered => SuccessRow(url, SavePath(env, url))
      case RenderFailed(d) => FailureRow(url, SavePath(env, url), d)
  }

  /** The first message of that call: line 38 or line 48. */
  function AttemptMessage(env: Env, pos: nat, url: string): Event
  {
    match env.render(pos, url)
      case Rendered => Saved(SavePath(env, url))
      case RenderFailed(d) => Failed(url, d)
  }

  /** The log row and the messages of one call of `download_webpage`. */
  datatype Attempt = Attempt(row: Row, events: seq<Event>)

  /** `download_webpage` (lines 22-54) for list entry `pos` holding `url`,
      with `count` attempts before it in a list of `total` entries. */
  function DownloadWebpage(env: Env, pos: nat, url: string, count: nat, total: nat): Attempt
  {
    Attempt(AttemptRow(env, pos, url), [AttemptMessage(env, pos, url), Processed(count + 1, total)])
  }

  /** One attempt: the row records the URL and the save path; it is a
      success row exactly when the page rendered, and otherwise a failure row
      from which the error text reads back; the first message says which,
      and the second counts the attempt against the full list length. */
  lemma DownloadWebpageOutcome(env: Env, pos: nat, url: string, count: nat, total: nat)
    ensures var a, path := DownloadWebpage(env, pos, url, count, total), SavePath(env, url);
      && |a.events| == 2 && a.events[1] == Processed(count + 1, total)
      && |a.row| >= 3 && a.row[0] == url && a.row[1] == path
      && WrittenRow(a.row)
      && (env.render(pos, url).Rendered? <==> IsSuccessRow(a.row))
      && (env.render(pos, url).Rendered? <==> a.events[0] == Saved(path))
      && (env.render(pos, url).RenderFailed? ==>
            && IsFailureRow(a.row)
            && DetailOf(a.row[3]) == Some(env.render(pos, url).detail)
            && a.events[0] == Failed(url, env.render(pos, url).detail))
  {
    var path := SavePath(env, url);
    WrittenRowShapes("", url, path, "");
    if env.render(pos, url).RenderFailed? {
      var d := env.render(pos, url).detail;
      WrittenRowShapes("", url, path, d);
      FailureDetailRoundTrip(url, path, d);
    }
  }
}
