/** The completion log `webpages_downloads.csv`: the rows one run appends,
    and `get_processed_urls`, which reads the log back at the next start.
    The log is seen as the rows the `csv` module yields, each a sequence of
    fields; quoting and parsing of the file bytes are outside the model. */
module CompletionLog {
  import opened Wrappers

  /** One CSV record: its fields, in order. */
  type Row = seq<string>

  /** The log as `os.path.isfile` and `csv.reader` see it. */
  datatype LogFile = Missing | Present(rows: seq<Row>)

  /** Why loading raises: `next()` on an empty reader, or an index past the
      end of a row (`row[0]` or `row[3]`). */
  datatype LoadError = EmptyLog | ShortRow(index: nat, width: nat)

  // ---------------------------------------------------------------------
  // Rows written by a run
  // ---------------------------------------------------------------------

  /** The header appended at the start of every run whose log opens. */
  function HeaderRow(stamp: string): Row
  {
    ["Original Link", "Final Response Link", "Filename", "Status", "Run:" + stamp]
  }

  /** The row of a page that rendered: three fields only. */
  function SuccessRow(url: string, path: string): Row
  {
    [url, path, "Done"]
  }

  /** The row of a page that failed; the fourth field is `str({str(e)})`,
      the display of a one-element Python set holding the error text. */
  function FailureRow(url: string, path: string, detail: string): Row
  {
    [url, path, "Failed", SetDisplay(detail)]
  }

  /** `str({d})` for a string `d`: the element's repr between braces. */
  function SetDisplay(d: string): string
  {
    "{" + Repr(d) + "}"
  }

  /** The quote `repr` picks: double only when the text has a single quote
      and no double quote. */
  function QuoteFor(s: string): char
  {
    if '\'' in s && '"' !in s then '"' else '\''
  }

  /** How `repr` spells one character inside quote `q`. */
  function EscapeChar(c: char, q: char): string
  {
    if c == '\\' || c == q then ['\\', c]
    else if c == '\n' then "\\n"
    else if c == '\r' then "\\r"
    else if c == '\t' then "\\t"
    else [c]
  }

  function Escape(s: string, q: char): string
    decreases |s|
  {
    if s == [] then [] else EscapeChar(s[0], q) + Escape(s[1..], q)
  }

  /** Python's `repr` of a string. */
  function Repr(s: string): string
  {
    var q := QuoteFor(s);
    [q] + Escape(s, q) + [q]
  }

  /** The character a backslash escape stands for. */
  function UnescapeChar(c: char): Option<char>
  {
    if c == 'n' then Some('\n')
    else if c == 'r' then Some('\r')
    else if c == 't' then Some('\t')
    else if c == '\\' || c == '\'' || c == '"' then Some(c)
    else None
  }

  /** Reads the body of a quoted literal back; a bare quote or a dangling
      backslash is malformed. */
  function Unescape(e: string, q: char): Option<string>
    decreases |e|
  {
    if e == [] then Some([])
    else if e[0] == '\\' then
      if |e| < 2 then None
      else match (UnescapeChar(e[1]), Unescape(e[2..], q))
        case (Some(c), Some(rest)) => Some([c] + rest)
        case _ => None
    else if e[0] == q then None
    else match Unescape(e[1..], q)
      case Some(rest) => Some([e[0]] + rest)
      case None => None
  }

  /** Reads a quoted literal as `repr` writes it. */
  function ParseRepr(t: string): Option<string>
  {
    if |t| >= 2 && (t[0] == '\'' || t[0] == '"') && t[|t| - 1] == t[0]
    then Unescape(t[1..|t| - 1], t[0])
    else None
  }

  /** Reads the fourth field of a failure row back to the error text. */
  function DetailOf(field: string): Option<string>
  {
    if |field| >= 2 && field[0] == '{' && field[|field| - 1] == '}'
    then ParseRepr(field[1..|field| - 1])
    else None
  }

  /** One escaped character in front of a readable rest reads back as that
      character in front of the rest's reading. */
  lemma UnescapeStep(c: char, rest: string, q: char, r: string)
    requires q == '\'' || q == '"'
    requires Unescape(rest, q) == Some(r)
    ensures Unescape(EscapeChar(c, q) + rest, q) == Some([c] + r)
  {
    var e := EscapeChar(c, q) + rest;
    if |EscapeChar(c, q)| == 2 {
      assert e[2..] == rest;
    } else {
      assert e[1..] == rest;
    }
  }

  lemma {:induction false} UnescapeEscape(s: string, q: char)
    requires q == '\'' || q == '"'
    ensures Unescape(Escape(s, q), q) == Some(s)
    decreases |s|
  {
    if s != [] {
      var rest := s[1..];
      assert s == [s[0]] + rest;
      assert Escape(s, q) == EscapeChar(s[0], q) + Escape(rest, q);
      UnescapeEscape(rest, q);
      UnescapeStep(s[0], Escape(rest, q), q, rest);
    }
  }

  /** The error text in a failure row can be read back exactly. */
  lemma FailureDetailRoundTrip(url: string, path: string, d: string)
    ensures DetailOf(FailureRow(url, path, d)[3]) == Some(d)
  {
    var q := QuoteFor(d);
    var t := Repr(d);
    UnescapeEscape(d, q);
    assert t[1..|t| - 1] == Escape(d, q);
    assert SetDisplay(d)[1..|SetDisplay(d)| - 1] == t;
  }

  /** Shapes of the three kinds of row a run writes. */
  predicate IsHeaderRow(r: Row)
  {
    && |r| == 5
    && r[..4] == ["Original Link", "Final Response Link", "Filename", "Status"]
    && |r[4]| >= 4 && r[4][..4] == "Run:"
  }

  predicate IsSuccessRow(r: Row)
  {
    |r| == 3 && r[2] == "Done"
  }

  predicate IsFailureRow(r: Row)
  {
    && |r| == 4 && r[2] == "Failed"
    && |r[3]| >= 2 && r[3][0] == '{' && r[3][|r[3]| - 1] == '}'
  }

  predicate WrittenRow(r: Row)
  {
    IsHeaderRow(r) || IsSuccessRow(r) || IsFailureRow(r)
  }

  /** The builders produce the shapes above. */
  lemma WrittenRowShapes(stamp: string, url: string, path: string, d: string)
    ensures IsHeaderRow(HeaderRow(stamp)) && HeaderRow(stamp)[4] == "Run:" + stamp
    ensures IsSuccessRow(SuccessRow(url, path))
    ensures IsFailureRow(FailureRow(url, path, d))
  {
    var h := HeaderRow(stamp);
    assert h[4][..4] == "Run:";
    var f := SetDisplay(d);
    assert f[0] == '{' && f[|f| - 1] == '}';
  }

  /** No written row carries "Done" in the column the loader reads. */
  lemma WrittenRowNotDone(r: Row)
    requires WrittenRow(r)
    ensures |r| < 4 || r[3] != "Done"
  {
    if IsHeaderRow(r) {
      assert r[3] == r[..4][3];
    }
  }

  // ---------------------------------------------------------------------
  // get_processed_urls
  // ---------------------------------------------------------------------

  /** Reference: positions from `i` on whose fourth field is "Done", in order. */
  function DoneIndices(rows: seq<Row>, i: nat): (idx: seq<nat>)
    requires i <= |rows|
    ensures forall k :: 0 <= k < |idx| ==>
      i <= idx[k] < |rows| && |rows[idx[k]]| >= 4 && rows[idx[k]][3] == "Done"
    ensures forall k, l :: 0 <= k < l < |idx| ==> idx[k] < idx[l]
    ensures forall j :: i <= j < |rows| && |rows[j]| >= 4 && rows[j][3] == "Done" ==> j in idx
    decreases |rows| - i
  {
    if i == |rows| then []
    else if |rows[i]| >= 4 && rows[i][3] == "Done" then [i] + DoneIndices(rows, i + 1)
    else DoneIndices(rows, i + 1)
  }

  /** The loop of lines 68-72 from row `i` on: reads `row[0]` and `row[3]` of
      every row and keeps the first field of the "Done" ones. */
  function DoneUrlsFrom(rows: seq<Row>, i: nat): (r: Result<seq<string>, LoadError>)
    requires i <= |rows|
    ensures r.Success? <==> forall j :: i <= j < |rows| ==> |rows[j]| >= 4
    ensures r.Failure? ==>
      && r.error.ShortRow?
      && i <= r.error.index < |rows|
      && r.error.width == |rows[r.error.index]| < 4
      && forall j :: i <= j < r.error.index ==> |rows[j]| >= 4
    decreases |rows| - i
  {
    if i == |rows| then Success([])
    else if |rows[i]| < 4 then Failure(ShortRow(i, |rows[i]|))
    else match DoneUrlsFrom(rows, i + 1)
      case Failure(e) => Failure(e)
      case Success(rest) => Success(if rows[i][3] == "Done" then [rows[i][0]] + rest else rest)
  }

  /** `get_processed_urls` (lines 56-73): a missing log loads nothing, an
      empty one fails at `next()`, otherwise row 0 is skipped whatever it
      holds and the rest are read. */
  function LoadProcessedUrls(log: LogFile): (r: Result<seq<string>, LoadError>)
    ensures log.Missing? ==> r == Success([])
    ensures log == Present([]) ==> r == Failure(EmptyLog)
    ensures log.Present? && |log.rows| > 0 ==>
      && (r.Success? <==> forall j :: 1 <= j < |log.rows| ==> |log.rows[j]| >= 4)
      && (r.Failure? ==> r.error.ShortRow? && 1 <= r.error.index < |log.rows|)
  {
    match log
      case Missing => Success([])
      case Present(rows) => if rows == [] then Failure(EmptyLog) else DoneUrlsFrom(rows, 1)
  }

  /** `urls` lists the first field of the rows at `idx`, in that order. */
  ghost predicate FirstFields(rows: seq<Row>, idx: seq<nat>, urls: seq<string>)
  {
    && |urls| == |idx|
    && forall k :: 0 <= k < |idx| ==>
         idx[k] < |rows| && |rows[idx[k]]| > 0 && urls[k] == rows[idx[k]][0]
  }

  /** On success the loaded list is the first field of each "Done" row after
      `i`, in row order, repeats kept. */
  lemma {:induction false} DoneUrlsAreDoneRows(rows: seq<Row>, i: nat)
    requires i <= |rows|
    ensures DoneUrlsFrom(rows, i).Success? ==>
      FirstFields(rows, DoneIndices(rows, i), DoneUrlsFrom(rows, i).value)
    decreases |rows| - i
  {
    if i < |rows| && |rows[i]| >= 4 {
      DoneUrlsAreDoneRows(rows, i + 1);
      var u := DoneUrlsFrom(rows, i + 1);
      if u.Success? && rows[i][3] == "Done" {
        FirstFieldsCons(rows, i, DoneIndices(rows, i + 1), u.value);
      }
    }
  }

  lemma FirstFieldsCons(rows: seq<Row>, i: nat, idx: seq<nat>, urls: seq<string>)
    requires i < |rows| && |rows[i]| > 0
    requires FirstFields(rows, idx, urls)
    ensures FirstFields(rows, [i] + idx, [rows[i][0]] + urls)
  {
    var idx', urls' := [i] + idx, [rows[i][0]] + urls;
    assert forall k :: 1 <= k < |idx'| ==> idx'[k] == idx[k - 1] && urls'[k] == urls[k - 1];
  }

  /** What a successful load returns, in terms of the rows. */
  lemma LoadedUrls(rows: seq<Row>)
    requires |rows| > 0
    ensures var r, idx := LoadProcessedUrls(Present(rows)), DoneIndices(rows, 1);
      r.Success? ==>
        && |r.value| == |idx|
        && forall k :: 0 <= k < |idx| ==> 1 <= idx[k] && r.value[k] == rows[idx[k]][0]
  {
    DoneUrlsAreDoneRows(rows, 1);
  }

  /** Row 0 is never looked at, whatever it holds. */
  lemma FirstRowIgnored(h1: Row, h2: Row, rest: seq<Row>)
    ensures LoadProcessedUrls(Present([h1] + rest)) == LoadProcessedUrls(Present([h2] + rest))
  {
    SameTailSameLoad([h1] + rest, [h2] + rest, 1);
  }

  lemma {:induction false} SameTailSameLoad(a: seq<Row>, b: seq<Row>, i: nat)
    requires i <= |a| == |b|
    requires forall j :: i <= j < |a| ==> a[j] == b[j]
    ensures DoneUrlsFrom(a, i) == DoneUrlsFrom(b, i)
    decreases |a| - i
  {
    if i < |a| {
      SameTailSameLoad(a, b, i + 1);
    }
  }

  lemma {:induction false} NoDoneIndexInOwnLog(rows: seq<Row>, i: nat)
    requires i <= |rows|
    requires forall j :: 0 <= j < |rows| ==> WrittenRow(rows[j])
    ensures DoneIndices(rows, i) == []
    decreases |rows| - i
  {
    if i < |rows| {
      WrittenRowNotDone(rows[i]);
      NoDoneIndexInOwnLog(rows, i + 1);
    }
  }

  /** A log made only of rows this program writes never yields a URL: the
      load fails exactly when some success row follows row 0, and otherwise
      returns the empty list. */
  lemma OwnLogNeverResumes(rows: seq<Row>)
    requires forall j :: 0 <= j < |rows| ==> WrittenRow(rows[j])
    ensures var r := LoadProcessedUrls(Present(rows));
      && (r.Success? <==> |rows| > 0 && forall j :: 1 <= j < |rows| ==> !IsSuccessRow(rows[j]))
      && (r.Success? ==> r.value == [])
  {
    if |rows| > 0 {
      LoadedUrls(rows);
      NoDoneIndexInOwnLog(rows, 1);
    }
  }
}
