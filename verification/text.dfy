/** String helpers the downloader applies to one URL: `url.rstrip(".")`
    and the destination file name built from `url.split('/')[-1]`. */
module Text {

  /** Python's `s.rstrip(".")`: every trailing '.' is removed, not just one. */
  function TrimTrailingDots(s: string): (r: string)
    ensures |r| <= |s| && r == s[..|r|]
    ensures forall j :: |r| <= j < |s| ==> s[j] == '.'
    ensures r == [] || r[|r| - 1] != '.'
    decreases |s|
  {
    if |s| > 0 && s[|s| - 1] == '.' then TrimTrailingDots(s[..|s| - 1]) else s
  }

  /** The three facts above pin the result down: any split of `s` into a
      prefix that does not end in '.' and a suffix of dots is the trim. */
  lemma TrimIsUnique(s: string, p: string, d: string)
    requires s == p + d
    requires forall j :: 0 <= j < |d| ==> d[j] == '.'
    requires p == [] || p[|p| - 1] != '.'
    ensures TrimTrailingDots(s) == p
  {
    var r := TrimTrailingDots(s);
    assert forall j :: |p| <= j < |s| ==> s[j] == d[j - |p|];
    assert forall j :: 0 <= j < |p| ==> s[j] == p[j];
    assert |r| == |p|;
    assert r == s[..|r|] && p == s[..|p|];
  }

  /** Trimming a second time changes nothing. */
  lemma TrimIdempotent(s: string)
    ensures TrimTrailingDots(TrimTrailingDots(s)) == TrimTrailingDots(s)
  {
    var r := TrimTrailingDots(s);
    TrimIsUnique(r, r, []);
  }

  /** Position of the first `c` in `s`, or `|s|` when there is none. */
  function IndexOf(s: string, c: char): (k: nat)
    ensures k <= |s|
    ensures k < |s| ==> s[k] == c
    ensures forall j :: 0 <= j < k ==> s[j] != c
    decreases |s|
  {
    if |s| == 0 then 0
    else if s[0] == c then 0
    else 1 + IndexOf(s[1..], c)
  }

  /** Pieces glued back together with the separator between them. */
  function Join(pieces: seq<string>, sep: char): string
    requires |pieces| >= 1
    decreases |pieces|
  {
    if |pieces| == 1 then pieces[0] else pieces[0] + [sep] + Join(pieces[1..], sep)
  }

  /** Python's `s.split(sep)` for a one-character separator. */
  function Split(s: string, sep: char): (r: seq<string>)
    ensures |r| >= 1
    decreases |s|
  {
    var k := IndexOf(s, sep);
    if k == |s| then [s] else [s[..k]] + Split(s[k + 1..], sep)
  }

  /** No piece holds the separator, and joining the pieces gives `s` back. */
  lemma {:induction false} SplitJoin(s: string, sep: char)
    ensures var r := Split(s, sep);
      && (forall k :: 0 <= k < |r| ==> sep !in r[k])
      && Join(r, sep) == s
    decreases |s|
  {
    var k := IndexOf(s, sep);
    if k < |s| {
      var rest := s[k + 1..];
      var r, t := Split(s, sep), Split(rest, sep);
      assert s == s[..k] + [sep] + rest;
      assert r == [s[..k]] + t && r[1..] == t;
      SplitJoin(rest, sep);
      assert Join(r, sep) == s[..k] + [sep] + Join(t, sep);
    }
  }

  /** `seg` is what follows the last '/' of `url`: a '/'-free suffix that is
      either the whole of `url` or preceded by a '/'. */
  ghost predicate IsFinalSegment(seg: string, url: string)
  {
    && |seg| <= |url|
    && url[|url| - |seg|..] == seg
    && '/' !in seg
    && (|seg| == |url| || url[|url| - |seg| - 1] == '/')
  }

  lemma {:induction false} JoinEndsWithLast(pieces: seq<string>, sep: char)
    requires |pieces| >= 1
    requires sep !in pieces[|pieces| - 1]
    ensures var s, last := Join(pieces, sep), pieces[|pieces| - 1];
      && |last| <= |s| && s[|s| - |last|..] == last
      && (|pieces| > 1 ==> |last| < |s| && s[|s| - |last| - 1] == sep)
      && (|pieces| == 1 ==> |last| == |s|)
    decreases |pieces|
  {
    if |pieces| > 1 {
      var tail := pieces[1..];
      JoinEndsWithLast(tail, sep);
      assert tail[|tail| - 1] == pieces[|pieces| - 1];
      var s := Join(pieces, sep);
      var t := Join(tail, sep);
      assert s == pieces[0] + [sep] + t;
      var last := pieces[|pieces| - 1];
      if |tail| == 1 {
        assert s[|s| - |last| - 1] == sep;
      } else {
        assert s[|s| - |last| - 1] == t[|t| - |last| - 1];
      }
      assert s[|s| - |last|..] == t[|t| - |last|..];
    }
  }

  /** Python's `url.split('/')[-1]`. */
  function LastSegment(url: string): string
  {
    var pieces := Split(url, '/');
    pieces[|pieces| - 1]
  }

  /** It is what follows the last '/' of the URL. */
  lemma LastSegmentIsFinal(url: string)
    ensures IsFinalSegment(LastSegment(url), url)
  {
    SplitJoin(url, '/');
    JoinEndsWithLast(Split(url, '/'), '/');
  }

  /** The final segment is unique: a '/' followed by a '/'-free tail ends it. */
  lemma LastSegmentAfterSlash(a: string, seg: string)
    requires '/' !in seg
    ensures LastSegment(a + "/" + seg) == seg
  {
    var url := a + "/" + seg;
    var l := LastSegment(url);
    LastSegmentIsFinal(url);
    assert url[|url| - |seg| - 1] == '/';
    assert forall j :: 0 <= j < |seg| ==> url[|url| - |seg| + j] == seg[j];
    assert forall j :: 0 <= j < |l| ==> url[|url| - |l| + j] == l[j];
    assert |l| == |seg|;
    assert l == url[|url| - |l|..] == seg;
  }

  /** The destination file name of line 30. */
  function FileName(url: string): string
  {
    "webpage_" + LastSegment(url) + ".pdf"
  }

  /** It starts with "webpage_", ends with ".pdf", and between them holds
      the URL's final segment, which has no '/'. */
  lemma FileNameShape(url: string)
    ensures var name := FileName(url);
      && |name| >= 12
      && name[..8] == "webpage_" && name[|name| - 4..] == ".pdf"
      && IsFinalSegment(name[8..|name| - 4], url)
  {
    var seg := LastSegment(url);
    LastSegmentIsFinal(url);
    var name := FileName(url);
    assert name[8..|name| - 4] == seg;
  }

  /** A URL that ends in '/' names the file "webpage_.pdf". */
  lemma SlashEndingName(url: string)
    requires |url| > 0 && url[|url| - 1] == '/'
    ensures FileName(url) == "webpage_.pdf"
  {
    var seg := LastSegment(url);
    LastSegmentIsFinal(url);
    assert '/' !in seg && '/' in url[|url| - |seg| - 1..];
  }

  /** Distinct URLs that share a final segment collide on one file name. */
  lemma SameFinalSegmentSameName(a: string, b: string, seg: string)
    requires '/' !in seg
    ensures FileName(a + "/" + seg) == FileName(b + "/" + seg) == "webpage_" + seg + ".pdf"
  {
    LastSegmentAfterSlash(a, seg);
    LastSegmentAfterSlash(b, seg);
  }
}
